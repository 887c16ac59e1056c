/** The snippet record and the id-based sequence operations shared by the store and the app. */
module Snippet {
  import opened Wrappers

  /**
   * A stored snippet. Timestamps are milliseconds since the epoch. `extra` stands for any
   * further fields a stored object carries: the local store's object spread keeps them.
   */
  datatype Record = Record(id: string, title: string, description: string, code: string,
                           createdAt: int, updatedAt: int, extra: map<string, string>)

  /** What a create or update call receives; `description` may be absent. */
  datatype Payload = Payload(title: string, description: Option<string>, code: string)

  /** `a` is `b` with some elements left out, the rest in their original order. */
  predicate IsSubsequence(a: seq<Record>, b: seq<Record>)
    decreases |b|
  {
    if a == [] then true
    else if b == [] then false
    else if a[0] == b[0] then IsSubsequence(a[1..], b[1..])
    else IsSubsequence(a, b[1..])
  }

  /** The number of records in `s` whose id is `id`. */
  function CountId(s: seq<Record>, id: string): (n: nat)
    ensures n <= |s|
    ensures n == 0 <==> forall k :: 0 <= k < |s| ==> s[k].id != id
  {
    if s == [] then 0 else (if s[0].id == id then 1 else 0) + CountId(s[1..], id)
  }

  /**
   * `s.filter((x) => x.id !== id)`: exactly the records with another id, in their order.
   * Nothing is removed when no record has that id.
   */
  function RemoveId(s: seq<Record>, id: string): (r: seq<Record>)
    ensures forall x :: x in r <==> x in s && x.id != id
    ensures IsSubsequence(r, s)
    ensures |r| == |s| - CountId(s, id)
    ensures r == s <==> CountId(s, id) == 0
  {
    if s == [] then []
    else if s[0].id != id then [s[0]] + RemoveId(s[1..], id)
    else
      var r := RemoveId(s[1..], id);
      assert r != [] ==> r[0] in r;
      r
  }

  /** Removing an id a second time removes nothing more. */
  lemma RemoveIdIdempotent(s: seq<Record>, id: string)
    ensures RemoveId(RemoveId(s, id), id) == RemoveId(s, id)
  {
    var r := RemoveId(s, id);
    assert forall k :: 0 <= k < |r| ==> r[k] in r;
  }

  /**
   * `s.findIndex((x) => x.id === id)`: the first position holding that id, or none
   * (the source's -1) when no record has it.
   */
  function FindIndex(s: seq<Record>, id: string): (r: Option<nat>)
    ensures r.Some? ==> r.value < |s| && s[r.value].id == id
                        && forall k :: 0 <= k < r.value ==> s[k].id != id
    ensures r.None? <==> forall k :: 0 <= k < |s| ==> s[k].id != id
  {
    if s == [] then None
    else if s[0].id == id then Some(0)
    else match FindIndex(s[1..], id)
      case None => None
      case Some(i) => Some(i + 1)
  }
}
