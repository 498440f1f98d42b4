/**
 * The rating loader (`loadUserRatings`): it clears the store of user ratings
 * and fills it from the ratings document in document order, keeping a record
 * only when its id is non-empty, its id has not been accepted yet, and its
 * rating lies in [1, 10].
 */
module Ratings {
  import opened Optional
  import opened FirstWins

  /** One entry of the ratings document: a catalog id, the user's rating and a display name. */
  datatype Rating = Rating(id: string, rating: real, name: string)

  /**
   * What reading `data/ratings.json` yields: nothing (the request failed or the
   * body is not JSON), a document without a `ratings` list, or the list.
   */
  datatype Document = Unreadable | NoRatingsList | RatingsList(items: seq<Rating>)

  /** The per-record test, apart from the duplicate check. */
  predicate Acceptable(r: Rating) {
    r.id != "" && 1.0 <= r.rating <= 10.0
  }

  function Candidate(r: Rating): Option<Rating> {
    if Acceptable(r) then Some(r) else None
  }

  function IdOf(r: Rating): string {
    r.id
  }

  /** The store's contents after loading `items`: the first acceptable record of each id, in order. */
  function Loaded(items: seq<Rating>): seq<Rating> {
    KeepFirst(items, Candidate, IdOf)
  }

  /** The ids of `entries`, the loader's `seenIds`. */
  function IdSet(entries: seq<Rating>): set<string> {
    set i | 0 <= i < |entries| :: entries[i].id
  }

  lemma IdSetAppend(entries: seq<Rating>, r: Rating)
    ensures IdSet(entries + [r]) == IdSet(entries) + {r.id}
  {
    var e := entries + [r];
    assert e[|entries|].id == r.id;
    forall x | x in IdSet(entries) ensures x in IdSet(e) {
      var i :| 0 <= i < |entries| && entries[i].id == x;
      assert e[i].id == x;
    }
  }

  /** The user-rating store: an insertion-ordered map from id to rating and name. */
  class RatingStore {
    var entries: seq<Rating>

    /** Every id appears once and every stored record passed the acceptance test. */
    ghost predicate Valid()
      reads this
    {
      && KeysDistinct(entries, IdOf)
      && forall i :: 0 <= i < |entries| ==> Acceptable(entries[i])
    }

    constructor ()
      ensures Valid() && entries == []
    {
      entries := [];
    }

    /**
     * `loadUserRatings()`. An unreadable document leaves the store as it was;
     * a document without a ratings list has already cleared it; otherwise the
     * store holds exactly `Loaded(items)`. The result says whether loading succeeded.
     */
    method Load(doc: Document) returns (ok: bool)
      requires Valid()
      modifies this
      ensures Valid()
      ensures ok <==> doc.RatingsList?
      ensures doc.Unreadable? ==> entries == old(entries)
      ensures doc.NoRatingsList? ==> entries == []
      ensures doc.RatingsList? ==> entries == Loaded(doc.items)
    {
      if doc.Unreadable? {
        return false;
      }
      entries := [];
      if doc.NoRatingsList? {
        return false;
      }
      var items := doc.items;
      var seen: set<string> := {};
      var i := 0;
      while i < |items|
        invariant 0 <= i <= |items|
        invariant entries == Loaded(items[..i])
        invariant seen == IdSet(entries)
      {
        var item := items[i];
        assert items[..i + 1][..i] == items[..i];
        if item.id != "" && item.id !in seen && 1.0 <= item.rating && item.rating <= 10.0 {
          assert !HasKey(entries, IdOf, item.id);
          IdSetAppend(entries, item);
          entries := entries + [item];
          seen := seen + {item.id};
        } else {
          assert Candidate(item).Some? ==> HasKey(entries, IdOf, item.id) by {
            if Candidate(item).Some? {
              var j :| 0 <= j < |entries| && entries[j].id == item.id;
              assert IdOf(entries[j]) == item.id;
            }
          }
        }
        i := i + 1;
      }
      assert items[..i] == items;
      LoadedWellFormed(items);
      return true;
    }
  }

  /** After loading, ids are distinct and every record has a non-empty id and a rating in [1, 10]. */
  lemma LoadedWellFormed(items: seq<Rating>)
    ensures KeysDistinct(Loaded(items), IdOf)
    ensures forall i :: 0 <= i < |Loaded(items)| ==> Acceptable(Loaded(items)[i])
  {
    KeptKeysDistinct(items, Candidate, IdOf);
    KeptAreCandidates(items, Candidate, IdOf);
    var r := Loaded(items);
    forall i | 0 <= i < |r| ensures Acceptable(r[i]) {
      assert r[i] in r;
      var j :| FirstOfKey(items, Candidate, IdOf, j) && Candidate(items[j]) == Some(r[i]);
    }
  }

  /** Record `i` is acceptable and no earlier record with its id is. */
  predicate FirstAcceptable(items: seq<Rating>, i: int) {
    && 0 <= i < |items|
    && Acceptable(items[i])
    && forall j :: 0 <= j < i ==> !(Acceptable(items[j]) && items[j].id == items[i].id)
  }

  /**
   * The store holds exactly the first acceptable record of each id: an
   * unacceptable earlier record with the same id does not block a later one,
   * because only accepted ids are remembered.
   */
  lemma FirstAcceptableWins(items: seq<Rating>, r: Rating)
    ensures r in Loaded(items) <==> exists i :: FirstAcceptable(items, i) && items[i] == r
  {
    KeptAreCandidates(items, Candidate, IdOf);
    forall i | 0 <= i < |items|
      ensures FirstAcceptable(items, i) <==> FirstOfKey(items, Candidate, IdOf, i)
    {
      if Acceptable(items[i]) {
        forall j | 0 <= j < i
          ensures (Acceptable(items[j]) && items[j].id == items[i].id)
            == CandidateWithKey(items, Candidate, IdOf, j, IdOf(items[i]))
        {
        }
      }
    }
  }

  /** The store keeps the accepted records in the order of the document. */
  lemma LoadedInDocumentOrder(items: seq<Rating>)
    ensures Loaded(items) == FirstOccurrences(items, Candidate, IdOf, |items|)
  {
    KeepFirstIsFirstOccurrences(items, Candidate, IdOf);
  }

  /** A duplicate id keeps the first record; an out-of-range rating does not claim its id. */
  lemma LoadExamples(dup: seq<Rating>, late: seq<Rating>)
    requires dup == [Rating("tt1", 8.0, "A"), Rating("tt1", 5.0, "B")]
    requires late == [Rating("tt1", 11.0, "X"), Rating("tt1", 8.0, "A")]
    ensures Loaded(dup) == [Rating("tt1", 8.0, "A")]
    ensures Loaded(late) == [Rating("tt1", 8.0, "A")]
  {
    var a := Rating("tt1", 8.0, "A");
    assert HasKey([a], IdOf, "tt1") by {
      assert IdOf([a][0]) == "tt1";
    }
    assert dup[..1] == [a] && [a][..0] == [];
    assert Candidate(a) == Some(a) && !HasKey(KeepFirst([], Candidate, IdOf), IdOf, "tt1");
    assert Loaded([a]) == [a];
    assert Loaded(dup) == Loaded(dup[..1]);
    var x := late[0];
    assert late[..1] == [x] && [x][..0] == [];
    assert Candidate(x) == None;
    assert Loaded([x]) == KeepFirst([], Candidate, IdOf) == [];
    assert !HasKey([], IdOf, "tt1");
    assert Loaded(late) == Loaded(late[..1]) + [a];
  }
}
