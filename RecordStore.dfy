/** The in-memory part of Tiger\Repository: an ordered list of records and a
    cursor that moves without bounds checks. */
module RecordStore {
  import opened Collections
  import opened PhpValues

  /** Outcome of getByIndex: the record, or the "unknown repository Index" exception. */
  datatype Lookup<R> = Found(record: R) | UnknownIndex

  /** `isset($list[$k]) ? $list[$k] : false` on a list whose keys are 0 .. |s|-1. */
  function At<R>(s: seq<R>, k: int): (r: Option<R>)
    ensures r.Some? <==> 0 <= k < |s|
    ensures r.Some? ==> r.value == s[k]
  {
    if 0 <= k < |s| then Some(s[k]) else None
  }

  class Repository<R> {
    /** The records' own `getData($field)` accessor. */
    const getData: (R, string) -> Value
    /** PHP's loose comparison `==` between two values. */
    const looseEq: (Value, Value) -> bool

    /** `$data`: the records in insertion order. */
    var data: seq<R>
    /** `$indexMarker`: may be negative or past the end. */
    var cursor: int

    /** A repository holding `rec` when one is given, with the cursor at 0. */
    constructor (getData: (R, string) -> Value, looseEq: (Value, Value) -> bool, rec: Option<R>)
      ensures this.getData == getData && this.looseEq == looseEq
      ensures data == (if rec.Some? then [rec.value] else [])
      ensures cursor == 0
    {
      this.getData := getData;
      this.looseEq := looseEq;
      data := if rec.Some? then [rec.value] else [];
      cursor := 0;
    }

    /** The test `$value->getData($field) == $search`. */
    function Matching(field: string, search: Value): R -> bool
    {
      (rec: R) => looseEq(getData(rec, field), search)
    }

    method Add(rec: R)
      modifies this
      ensures data == old(data) + [rec]
      ensures cursor == old(cursor)
    {
      data := data + [rec];
    }

    function GetAll(): (all: seq<R>)
      reads this
      ensures |all| == |data| && forall k :: 0 <= k < |all| ==> all[k] == data[k]
    {
      data
    }

    /** The first record, in insertion order, whose "id" field loosely equals `id`. */
    method GetByIndex(id: int) returns (r: Lookup<R>)
      ensures r.UnknownIndex? <==> forall k :: 0 <= k < |data| ==> !Matching("id", VInt(id))(data[k])
      ensures r.Found? ==> exists k :: 0 <= k < |data| && data[k] == r.record && Matching("id", VInt(id))(data[k])
                                       && forall j :: 0 <= j < k ==> !Matching("id", VInt(id))(data[j])
      ensures r == (var hits := Filter(data, Matching("id", VInt(id)));
                    if hits == [] then UnknownIndex else Found(hits[0]))
    {
      var p := Matching("id", VInt(id));
      var i := 0;
      while i < |data|
        invariant 0 <= i <= |data|
        invariant forall j :: 0 <= j < i ==> !p(data[j])
      {
        if p(data[i]) {
          FilterFirstMatch(data, p, i);
          return Found(data[i]);
        }
        i := i + 1;
      }
      FilterEmptyIff(data, p);
      return UnknownIndex;
    }

    /** All records whose `field` loosely equals `search`, in insertion order: a
        subsequence of the store holding every matching record as often as the store
        does and no other record; empty, not an error, when nothing matches. */
    method GetBy(field: string, search: string) returns (output: seq<R>)
      ensures output == Filter(data, Matching(field, VStr(search)))
      ensures IsSubsequence(output, data)
      ensures forall x :: multiset(output)[x] == if Matching(field, VStr(search))(x) then multiset(data)[x] else 0
      ensures output == [] <==> forall k :: 0 <= k < |data| ==> !Matching(field, VStr(search))(data[k])
    {
      var p := Matching(field, VStr(search));
      output := [];
      var i := 0;
      while i < |data|
        invariant 0 <= i <= |data|
        invariant output == Filter(data[..i], p)
      {
        FilterSnoc(data[..i], data[i], p);
        assert data[..i + 1] == data[..i] + [data[i]];
        if p(data[i]) {
          output := output + [data[i]];
        }
        i := i + 1;
      }
      assert data[..i] == data;
      FilterIsSubsequence(data, p);
      FilterEmptyIff(data, p);
      forall x {
        FilterMultiplicity(data, p, x);
      }
    }

    predicate HasNext()
      reads this
      ensures HasNext() <==> 0 <= cursor + 1 < |data|
    {
      At(data, cursor + 1).Some?
    }

    predicate HasPrevious()
      reads this
      ensures HasPrevious() <==> 0 <= cursor - 1 < |data|
    {
      At(data, cursor - 1).Some?
    }

    function Current(): (r: Option<R>)
      reads this
      ensures r.Some? <==> 0 <= cursor < |data|
      ensures r.Some? ==> r.value == data[cursor]
    {
      At(data, cursor)
    }

    function First(): (r: Option<R>)
      reads this
      ensures r == if data == [] then None else Some(data[0])
    {
      At(data, 0)
    }

    function Last(): (r: Option<R>)
      reads this
      ensures r == if data == [] then None else Some(data[|data| - 1])
    {
      At(data, |data| - 1)
    }

    /** Replaces the record under the cursor; the cursor must be on a record. */
    method UpdateCurrent(rec: R)
      requires 0 <= cursor < |data|
      modifies this
      ensures cursor == old(cursor)
      ensures |data| == |old(data)| && data[cursor] == rec
      ensures forall k :: 0 <= k < |data| && k != cursor ==> data[k] == old(data)[k]
    {
      data := data[cursor := rec];
    }

    /** Moves the cursor one step forward, unconditionally, and returns what is there. */
    method Next() returns (r: Option<R>)
      modifies this
      ensures cursor == old(cursor) + 1 && data == old(data)
      ensures r == Current()
      ensures r.Some? <==> old(HasNext())
    {
      cursor := cursor + 1;
      r := Current();
    }

    /** Moves the cursor one step back, unconditionally, and returns what is there. */
    method Previous() returns (r: Option<R>)
      modifies this
      ensures cursor == old(cursor) - 1 && data == old(data)
      ensures r == Current()
      ensures r.Some? <==> old(HasPrevious())
    {
      cursor := cursor - 1;
      r := Current();
    }

    method Reset()
      modifies this
      ensures cursor == 0 && data == old(data)
      ensures Current() == First()
    {
      cursor := 0;
    }

    /** Empties the store but leaves the cursor where it was. */
    method ClearData()
      modifies this
      ensures data == [] && cursor == old(cursor)
      ensures Current() == None && !HasNext() && !HasPrevious()
    {
      data := [];
    }

    /** The loaders' `foreach (...) { $this->data[] = $newModel::new($data); }`,
        with the records already built from the fetched rows. */
    method AppendRecords(records: seq<R>)
      modifies this
      ensures data == old(data) + records
      ensures cursor == old(cursor)
    {
      for i := 0 to |records|
        invariant data == old(data) + records[..i]
        invariant cursor == old(cursor)
      {
        assert records[..i + 1] == records[..i] + [records[i]];
        data := data + [records[i]];
      }
      assert records[..|records|] == records;
    }
  }

  /** A walk over a two-record store, as a caller that relies on hasNext and
      hasPrevious for discipline would make it. */
  method NavigationScenario<R>(getData: (R, string) -> Value, looseEq: (Value, Value) -> bool, a: R, b: R)
  {
    var repo := new Repository(getData, looseEq, Some(a));
    repo.Add(b);
    assert repo.Current() == Some(a) && repo.HasNext() && !repo.HasPrevious();
    var r := repo.Next();
    assert r == Some(b) && !repo.HasNext() && repo.HasPrevious();
    r := repo.Next();
    assert r == None && repo.cursor == 2 && !repo.HasNext() && repo.HasPrevious();
    r := repo.Previous();
    assert r == Some(b) && repo.Last() == Some(b);
    repo.ClearData();
    assert repo.cursor == 1 && repo.First() == None;
    repo.Reset();
    assert repo.Current() == repo.First() == None;
  }
}
