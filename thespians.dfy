/** The thespian (actor) collection and the two routes over it that carry a rule:
    `GET /thespians?name=...` shapes its answer by the number of matches, and
    `DELETE /thespians` removes every thespian without a profile picture. */
module Thespians {
  import opened Wrappers
  import opened Seqs

  /** A stored actor document. `profilePath` is None when the document's `profile_path`
      is null or missing, which is what a `{profile_path: null}` query matches. */
  datatype Thespian = Thespian(name: string, tmdbId: int, profilePath: Option<string>)

  /** The answer of a lookup by name: the not-found response, the single matching
      document itself, or the array of all matching documents. */
  datatype Reply = NotInDb | Single(thespian: Thespian) | Several(thespians: seq<Thespian>)

  /** The documents a reply carries, in the order they were found. */
  function Payload(r: Reply): seq<Thespian> {
    match r
    case NotInDb => []
    case Single(t) => [t]
    case Several(ts) => ts
  }

  /** Shaping the query result by its length: none is not-found, one is the document
      itself rather than a one-element array, more than one is the whole array. */
  function Shape(result: seq<Thespian>): (r: Reply)
    ensures r.NotInDb? <==> |result| == 0
    ensures r.Single? <==> |result| == 1
    ensures r.Several? <==> |result| > 1
  {
    if |result| > 1 then Several(result)
    else if |result| == 1 then Single(result[0])
    else NotInDb
  }

  /** Shaping loses nothing: the documents a reply carries are exactly the query result. */
  lemma ShapeKeepsResult(result: seq<Thespian>)
    ensures Payload(Shape(result)) == result
  {
    if |result| == 1 {
      assert result == [result[0]];
    }
  }

  /** `{name: name}`: the documents whose name is exactly `name`. */
  function Named(records: seq<Thespian>, name: string): (r: seq<Thespian>)
    ensures forall t :: t in r <==> t in records && t.name == name
  {
    Filter(records, (t: Thespian) => t.name == name)
  }

  predicate HasProfile(t: Thespian) {
    t.profilePath.Some?
  }

  /** The stored thespians, in insertion order. */
  class Store {
    var records: seq<Thespian>

    constructor ()
      ensures records == []
    {
      records := [];
    }

    /** `GET /thespians?name=...`. */
    method Find(name: string) returns (r: Reply)
      ensures Payload(r) == Named(records, name)
      ensures r.NotInDb? <==> forall t :: t in records ==> t.name != name
      ensures r.Single? ==> r.thespian in records && r.thespian.name == name &&
                            multiset(records)[r.thespian] == 1 &&
                            forall t :: t in records && t.name == name ==> t == r.thespian
      ensures r.Several? ==> |r.thespians| > 1 && forall t :: t in r.thespians ==> t in records && t.name == name
    {
      var result := Named(records, name);
      r := Shape(result);
      ShapeKeepsResult(result);
      if r.Single? {
        assert result == [r.thespian];
        assert multiset(result)[r.thespian] == 1;
      }
    }

    /** `DELETE /thespians`: removes every thespian whose `profile_path` is null and
        answers with the number of documents removed. */
    method RemoveWithoutProfile() returns (removed: nat)
      modifies this
      ensures records == Filter(old(records), HasProfile)
      ensures removed == |old(records)| - |records| == |Filter(old(records), LacksProfile)|
      ensures forall t :: t in records ==> HasProfile(t)
      ensures forall t :: HasProfile(t) ==> multiset(records)[t] == multiset(old(records))[t]
    {
      var kept := Filter(records, HasProfile);
      ProfileSplit(records);
      removed := |records| - |kept|;
      records := kept;
    }
  }

  predicate LacksProfile(t: Thespian) {
    t.profilePath.None?
  }

  /** Every stored thespian either has a profile picture or lacks one: the thespians kept
      and the thespians removed make up the whole store, so the number a removal reports
      is the number of thespians without a picture. */
  lemma ProfileSplit(records: seq<Thespian>)
    ensures multiset(Filter(records, HasProfile)) + multiset(Filter(records, LacksProfile)) == multiset(records)
    ensures |records| == |Filter(records, HasProfile)| + |Filter(records, LacksProfile)|
  {
    var kept, removed := Filter(records, HasProfile), Filter(records, LacksProfile);
    assert multiset(kept) + multiset(removed) == multiset(records) by {
      forall t ensures (multiset(kept) + multiset(removed))[t] == multiset(records)[t] {
      }
    }
    assert |multiset(kept) + multiset(removed)| == |records|;
  }
}
