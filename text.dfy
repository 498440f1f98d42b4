/**
 * The JavaScript string primitives the movie page relies on, written out with
 * the language's own semantics: `trim`, `split` on a string or on a character
 * class, `replace(/\D/g, '')`, `parseInt(s, 10) || 0` and `Number(s)`.
 * A Dafny string is a sequence of Unicode scalar values, whereas a JavaScript
 * string is a sequence of UTF-16 code units: a character outside the Basic
 * Multilingual Plane is one `char` here and two code units there, and a lone
 * surrogate cannot occur. Every separator, space and digit these functions
 * look for lies in the Basic Multilingual Plane, so they cut and keep the
 * same text either way.
 */
module Text {
  import opened Optional

  /** The WhiteSpace and LineTerminator code points that `trim` and `parseInt` skip. */
  predicate IsSpace(c: char) {
    || c == '\t' || c == '\n' || c == '\U{0B}' || c == '\U{0C}' || c == '\r'
    || c == ' ' || c == '\U{A0}' || c == '\U{1680}'
    || ('\U{2000}' <= c <= '\U{200A}')
    || c == '\U{2028}' || c == '\U{2029}' || c == '\U{202F}' || c == '\U{205F}'
    || c == '\U{3000}' || c == '\U{FEFF}'
  }

  predicate IsDigit(c: char) {
    '0' <= c <= '9'
  }

  predicate AllDigits(s: string) {
    forall i :: 0 <= i < |s| ==> IsDigit(s[i])
  }

  function DigitValue(c: char): (d: nat)
    requires IsDigit(c)
    ensures d < 10
  {
    c as int - '0' as int
  }

  function DigitChar(d: nat): (c: char)
    requires d < 10
    ensures IsDigit(c) && DigitValue(c) == d
  {
    ('0' as int + d) as char
  }

  /** The value of a string of decimal digits; the empty string is 0, as `Number("")` is. */
  function DecimalValue(s: string): nat
    requires AllDigits(s)
    decreases |s|
  {
    if s == [] then 0 else 10 * DecimalValue(s[..|s| - 1]) + DigitValue(s[|s| - 1])
  }

  /** The decimal notation of a natural number, as `String(n)` writes it. */
  function Show(n: nat): (r: string)
    ensures |r| >= 1 && AllDigits(r)
    decreases n
  {
    if n < 10 then [DigitChar(n)] else Show(n / 10) + [DigitChar(n % 10)]
  }

  lemma {:induction false} ShowRoundTrip(n: nat)
    ensures DecimalValue(Show(n)) == n
  {
    if n >= 10 {
      var s := Show(n);
      assert s[..|s| - 1] == Show(n / 10);
      ShowRoundTrip(n / 10);
    }
  }

  // ---------------------------------------------------------------------------
  // trim

  /** `s` without its leading white space. */
  function TrimStart(s: string): (r: string)
    ensures |r| <= |s| && r == s[|s| - |r|..]
    ensures forall i :: 0 <= i < |s| - |r| ==> IsSpace(s[i])
    ensures r != [] ==> !IsSpace(r[0])
    decreases |s|
  {
    if s != [] && IsSpace(s[0]) then TrimStart(s[1..]) else s
  }

  /** `s` without its trailing white space. */
  function TrimEnd(s: string): (r: string)
    ensures |r| <= |s| && r == s[..|r|]
    ensures forall i :: |r| <= i < |s| ==> IsSpace(s[i])
    ensures r != [] ==> !IsSpace(r[|r| - 1])
    decreases |s|
  {
    if s != [] && IsSpace(s[|s| - 1]) then TrimEnd(s[..|s| - 1]) else s
  }

  /** `r` is the infix of `s` at `k`, with nothing but white space around it. */
  predicate PaddedAt(s: string, r: string, k: int) {
    && 0 <= k <= |s| - |r|
    && r == s[k..k + |r|]
    && (forall i :: 0 <= i < k ==> IsSpace(s[i]))
    && (forall i :: k + |r| <= i < |s| ==> IsSpace(s[i]))
  }

  /** `s.trim()`: the infix of `s` that neither starts nor ends with white space. */
  function Trim(s: string): (r: string)
    ensures exists k :: PaddedAt(s, r, k)
    ensures r != [] ==> !IsSpace(r[0]) && !IsSpace(r[|r| - 1])
  {
    var t := TrimStart(s);
    var r := TrimEnd(t);
    assert PaddedAt(s, r, |s| - |t|);
    r
  }

  lemma TrimLeavesWord(s: string)
    requires s != [] && !IsSpace(s[0]) && !IsSpace(s[|s| - 1])
    ensures Trim(s) == s
  {
  }

  // ---------------------------------------------------------------------------
  // digits and numbers

  /** `s.replace(/\D/g, '')`: the digits of `s`, in order. */
  function KeepDigits(s: string): (r: string)
    ensures AllDigits(r) && |r| <= |s|
    ensures AllDigits(s) ==> r == s
    decreases |s|
  {
    if s == [] then []
    else
      assert s == [s[0]] + s[1..];
      (if IsDigit(s[0]) then [s[0]] else []) + KeepDigits(s[1..])
  }

  /** `replace(/\D/g, '')` keeps a single character iff it is a digit. */
  lemma KeepDigitsOfChar(c: char)
    ensures KeepDigits([c]) == if IsDigit(c) then [c] else []
  {
    assert [c][1..] == [];
  }

  /** `replace(/\D/g, '')` works left to right: the digits of `s + t` are those of `s`, then those of `t`. */
  lemma {:induction false} KeepDigitsAppend(s: string, t: string)
    ensures KeepDigits(s + t) == KeepDigits(s) + KeepDigits(t)
    decreases |s|
  {
    if s == [] {
      assert s + t == t;
    } else {
      var u := s + t;
      var head := if IsDigit(s[0]) then [s[0]] else [];
      assert u[0] == s[0] && u[1..] == s[1..] + t;
      assert KeepDigits(u) == head + KeepDigits(s[1..] + t);
      KeepDigitsAppend(s[1..], t);
      assert KeepDigits(s) == head + KeepDigits(s[1..]);
    }
  }

  /** Each digit occurs in `KeepDigits(s)` as often as in `s`. */
  lemma {:induction false} KeepDigitsCounts(s: string)
    ensures forall c :: IsDigit(c) ==> multiset(KeepDigits(s))[c] == multiset(s)[c]
    decreases |s|
  {
    if s != [] {
      assert s == [s[0]] + s[1..];
      KeepDigitsCounts(s[1..]);
      var head := if IsDigit(s[0]) then [s[0]] else [];
      assert KeepDigits(s) == head + KeepDigits(s[1..]);
      assert multiset(KeepDigits(s)) == multiset(head) + multiset(KeepDigits(s[1..]));
      assert multiset(s) == multiset([s[0]]) + multiset(s[1..]);
    }
  }

  /** The longest prefix of `s` made of digits. */
  function LeadingDigits(s: string): (r: string)
    ensures |r| <= |s| && r == s[..|r|] && AllDigits(r)
    ensures |r| < |s| ==> !IsDigit(s[|r|])
    decreases |s|
  {
    if s != [] && IsDigit(s[0]) then [s[0]] + LeadingDigits(s[1..]) else []
  }

  /**
   * `parseInt(s, 10) || 0`: skip leading white space, read an optional sign and
   * the longest run of decimal digits after it; no digit at all (NaN) gives 0.
   */
  function ParseIntOr0(s: string): int {
    SignedValue(TrimStart(s))
  }

  /** The optional sign and the digit run at the start of `t`; 0 when there is no digit. */
  function SignedValue(t: string): int {
    var signed := t != [] && (t[0] == '-' || t[0] == '+');
    var digits := LeadingDigits(if signed then t[1..] else t);
    if digits == [] then 0
    else if signed && t[0] == '-' then -(DecimalValue(digits) as int)
    else DecimalValue(digits)
  }

  lemma ParseIntReadsLeadingNumber(n: nat, rest: string)
    requires rest == [] || !IsDigit(rest[0])
    ensures ParseIntOr0(Show(n) + rest) == n
  {
    var s := Show(n) + rest;
    assert TrimStart(s) == s;
    LeadingNumber(Show(n), rest);
    ShowRoundTrip(n);
  }

  lemma {:induction false} LeadingNumber(ds: string, rest: string)
    requires AllDigits(ds)
    requires rest == [] || !IsDigit(rest[0])
    ensures LeadingDigits(ds + rest) == ds
  {
    if ds != [] {
      assert (ds + rest)[1..] == ds[1..] + rest;
      LeadingNumber(ds[1..], rest);
    }
  }

  /** White space in front of a non-space character is skipped as if the rest were absent. */
  lemma {:induction false} TrimStartBefore(p: string, rest: string)
    requires rest != [] && !IsSpace(rest[0])
    ensures TrimStart(p + rest) == TrimStart(p) + rest
    decreases |p|
  {
    if p == [] {
      assert p + rest == rest;
    } else {
      assert (p + rest)[0] == p[0] && (p + rest)[1..] == p[1..] + rest;
      if IsSpace(p[0]) {
        TrimStartBefore(p[1..], rest);
      }
    }
  }

  /** The digit run of a string is not extended past a non-digit. */
  lemma {:induction false} LeadingDigitsBefore(p: string, rest: string)
    requires rest == [] || !IsDigit(rest[0])
    ensures LeadingDigits(p + rest) == LeadingDigits(p)
    decreases |p|
  {
    if p == [] {
      assert p + rest == rest;
    } else {
      assert (p + rest)[0] == p[0] && (p + rest)[1..] == p[1..] + rest;
      if IsDigit(p[0]) {
        LeadingDigitsBefore(p[1..], rest);
      }
    }
  }

  /**
   * `parseInt` reads nothing past a character that is neither white space, a
   * digit nor a sign: text after it does not change the result.
   */
  lemma ParseIntStopsAt(p: string, rest: string)
    requires rest != [] && !IsSpace(rest[0]) && !IsDigit(rest[0]) && rest[0] != '-' && rest[0] != '+'
    ensures ParseIntOr0(p + rest) == ParseIntOr0(p)
  {
    TrimStartBefore(p, rest);
    SignedValueBefore(TrimStart(p), rest);
  }

  lemma SignedValueBefore(u: string, rest: string)
    requires rest != [] && !IsDigit(rest[0]) && rest[0] != '-' && rest[0] != '+'
    ensures SignedValue(u + rest) == SignedValue(u)
  {
    if u == [] {
      assert u + rest == rest;
      assert LeadingDigits(rest) == [];
    } else {
      var t := u + rest;
      assert t[0] == u[0];
      if u[0] == '-' || u[0] == '+' {
        assert t[1..] == u[1..] + rest;
        LeadingDigitsBefore(u[1..], rest);
      } else {
        LeadingDigitsBefore(u, rest);
      }
    }
  }

  /**
   * `Number(s)` on the strings a year button can carry: after trimming, the empty
   * string is 0 and a run of decimal digits with an optional sign is its value.
   * Every other string is NaN (None).
   */
  function NumberOf(s: string): Option<int> {
    var t := Trim(s);
    if AllDigits(t) then Some(DecimalValue(t))
    else if |t| >= 2 && (t[0] == '+' || t[0] == '-') && AllDigits(t[1..]) then
      Some(if t[0] == '-' then -(DecimalValue(t[1..]) as int) else DecimalValue(t[1..]))
    else None
  }

  lemma NumberOfShow(n: nat)
    ensures NumberOf(Show(n)) == Some(n)
  {
    var s := Show(n);
    TrimLeavesWord(s);
    ShowRoundTrip(n);
  }

  // ---------------------------------------------------------------------------
  // split on a separator string

  /**
   * `s.split(sep)` for a non-empty separator: the pieces between the
   * non-overlapping occurrences of `sep`, found from left to right.
   */
  function Split(s: string, sep: string): (r: seq<string>)
    requires sep != []
    ensures |r| >= 1
  {
    SplitFrom(s, sep, [])
  }

  /** Splitting `s` when `piece` has already been read into the current piece. */
  function SplitFrom(s: string, sep: string, piece: string): (r: seq<string>)
    requires sep != []
    ensures |r| >= 1
    decreases |s|
  {
    if s == [] then [piece]
    else if sep <= s then [piece] + SplitFrom(s[|sep|..], sep, [])
    else SplitFrom(s[1..], sep, piece + [s[0]])
  }

  /** `pieces.join(sep)`. */
  function Join(pieces: seq<string>, sep: string): string
    decreases |pieces|
  {
    if pieces == [] then []
    else if |pieces| == 1 then pieces[0]
    else pieces[0] + sep + Join(pieces[1..], sep)
  }

  lemma {:induction false} JoinSplitFrom(s: string, sep: string, piece: string)
    requires sep != []
    ensures Join(SplitFrom(s, sep, piece), sep) == piece + s
    decreases |s|
  {
    if s == [] {
    } else if sep <= s {
      JoinSplitFrom(s[|sep|..], sep, []);
      assert s == sep + s[|sep|..];
    } else {
      JoinSplitFrom(s[1..], sep, piece + [s[0]]);
      assert s == [s[0]] + s[1..];
    }
  }

  /** The first piece is what precedes the first occurrence of the separator, or everything. */
  lemma {:induction false} FirstPieceFrom(s: string, sep: string, piece: string)
    requires sep != []
    ensures var p := SplitFrom(s, sep, piece)[0];
      && |piece| <= |p| <= |piece| + |s|
      && p == piece + s[..|p| - |piece|]
      && (|p| - |piece| < |s| ==> sep <= s[|p| - |piece|..])
    decreases |s|
  {
    if s != [] && !(sep <= s) {
      FirstPieceFrom(s[1..], sep, piece + [s[0]]);
      var p := SplitFrom(s, sep, piece)[0];
      var k := |p| - |piece|;
      assert s[1..][..k - 1] == s[1..k];
      assert s[..k] == [s[0]] + s[1..k];
      assert k < |s| ==> s[1..][k - 1..] == s[k..];
    }
  }

  /** `s.split(sep)[0]` is a prefix of `s`, followed by `sep` unless it is all of `s`. */
  lemma FirstPiece(s: string, sep: string)
    requires sep != []
    ensures var p := Split(s, sep)[0];
      |p| <= |s| && p == s[..|p|] && (|p| < |s| ==> sep <= s[|p|..])
  {
    FirstPieceFrom(s, sep, []);
    assert [] + s[..|Split(s, sep)[0]|] == s[..|Split(s, sep)[0]|];
  }

  /** Joining the pieces back with the separator gives the original string. */
  lemma SplitThenJoin(s: string, sep: string)
    requires sep != []
    ensures Join(Split(s, sep), sep) == s
  {
    JoinSplitFrom(s, sep, []);
  }

  /** A stretch of text that cannot start an occurrence of `sep` is read into the current piece. */
  lemma {:induction false} SplitFromWord(word: string, rest: string, sep: string, piece: string)
    requires sep != [] && sep[0] !in word
    ensures SplitFrom(word + rest, sep, piece) == SplitFrom(rest, sep, piece + word)
    decreases |word|
  {
    if word != [] {
      var s := word + rest;
      assert s[0] == word[0] && !(sep <= s);
      assert s[1..] == word[1..] + rest;
      SplitFromWord(word[1..], rest, sep, piece + [word[0]]);
      assert piece + [word[0]] + word[1..] == piece + word;
    } else {
      assert word + rest == rest && piece + word == piece;
    }
  }

  /** Pieces that do not contain the separator's first character come back from the join. */
  lemma {:induction false} JoinThenSplit(pieces: seq<string>, sep: string)
    requires sep != [] && |pieces| >= 1
    requires forall i :: 0 <= i < |pieces| ==> sep[0] !in pieces[i]
    ensures Split(Join(pieces, sep), sep) == pieces
    decreases |pieces|
  {
    if |pieces| == 1 {
      assert pieces[0] + [] == pieces[0] && [] + pieces[0] == pieces[0];
      SplitFromWord(pieces[0], [], sep, []);
    } else {
      var tail := Join(pieces[1..], sep);
      SplitFromWord(pieces[0], sep + tail, sep, []);
      assert [] + pieces[0] == pieces[0];
      assert (sep + tail)[|sep|..] == tail;
      JoinThenSplit(pieces[1..], sep);
      assert pieces[0] + sep + tail == pieces[0] + (sep + tail);
    }
  }

  // ---------------------------------------------------------------------------
  // split on a character class

  /** `s.split(/[…]/)` where the class is `seps`: the pieces between separator characters. */
  function SplitAny(s: string, seps: set<char>): (r: seq<string>)
    ensures |r| >= 1
  {
    SplitAnyFrom(s, seps, [])
  }

  function SplitAnyFrom(s: string, seps: set<char>, piece: string): (r: seq<string>)
    ensures |r| >= 1
    decreases |s|
  {
    if s == [] then [piece]
    else if s[0] in seps then [piece] + SplitAnyFrom(s[1..], seps, [])
    else SplitAnyFrom(s[1..], seps, piece + [s[0]])
  }

  lemma {:induction false} SplitAnyFromWord(word: string, rest: string, seps: set<char>, piece: string)
    requires forall i :: 0 <= i < |word| ==> word[i] !in seps
    ensures SplitAnyFrom(word + rest, seps, piece) == SplitAnyFrom(rest, seps, piece + word)
    decreases |word|
  {
    if word != [] {
      assert (word + rest)[1..] == word[1..] + rest;
      SplitAnyFromWord(word[1..], rest, seps, piece + [word[0]]);
      assert piece + [word[0]] + word[1..] == piece + word;
    } else {
      assert word + rest == rest && piece + word == piece;
    }
  }

  /** Pieces free of separator characters, joined by one separator `c`, split back into themselves. */
  lemma {:induction false} JoinThenSplitAny(pieces: seq<string>, c: char, seps: set<char>)
    requires c in seps && |pieces| >= 1
    requires forall i, j :: 0 <= i < |pieces| && 0 <= j < |pieces[i]| ==> pieces[i][j] !in seps
    ensures SplitAny(Join(pieces, [c]), seps) == pieces
    decreases |pieces|
  {
    if |pieces| == 1 {
      assert pieces[0] + [] == pieces[0] && [] + pieces[0] == pieces[0];
      SplitAnyFromWord(pieces[0], [], seps, []);
    } else {
      var tail := Join(pieces[1..], [c]);
      SplitAnyFromWord(pieces[0], [c] + tail, seps, []);
      assert [] + pieces[0] == pieces[0];
      assert ([c] + tail)[1..] == tail;
      JoinThenSplitAny(pieces[1..], c, seps);
      assert pieces[0] + [c] + tail == pieces[0] + ([c] + tail);
    }
  }
}
