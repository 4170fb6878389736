/**
 * Themes and problems. Both are plain JavaScript objects identified by their
 * `id` property; the model keeps the id apart from the other own properties,
 * whose values are arbitrary JSON. A lookup by a string id matches exactly the
 * records whose id is that string (`===`).
 */
module Entities {
  import opened Wrappers
  import opened JsonValue

  datatype Record = Record(id: Json, props: map<string, Json>)

  /** `{ id, name, description, icon }` */
  type Theme = Record

  /** `{ id, title, problemText, input, output, solution, explanation, videoUrl, testCases }` */
  type Problem = Record

  predicate HasId(r: Record, id: string)
  {
    r.id == JString(id)
  }

  /** `{ ...r, id }`: the same properties under the given id. */
  function WithId(r: Record, id: string): (r': Record)
    ensures HasId(r', id) && r'.props == r.props
  {
    r.(id := JString(id))
  }

  /** `rs.findIndex(x => x.id === id)`, with -1 as None. */
  function FirstIndexWithId(rs: seq<Record>, id: string): (r: Option<nat>)
    ensures r.Some? ==> r.value < |rs| && HasId(rs[r.value], id)
    ensures r.Some? ==> forall j :: 0 <= j < r.value ==> !HasId(rs[j], id)
    ensures r.None? <==> forall j :: 0 <= j < |rs| ==> !HasId(rs[j], id)
  {
    if rs == [] then None
    else if HasId(rs[0], id) then Some(0)
    else match FirstIndexWithId(rs[1..], id)
      case None => None
      case Some(k) => Some(k + 1)
  }

  /** `rs.find(x => x.id === id)`. */
  function FindById(rs: seq<Record>, id: string): (r: Option<Record>)
    ensures r.Some? <==> FirstIndexWithId(rs, id).Some?
    ensures r.Some? ==> r.value == rs[FirstIndexWithId(rs, id).value]
  {
    match FirstIndexWithId(rs, id)
    case None => None
    case Some(k) => Some(rs[k])
  }

  /** `rs.filter(x => x.id !== id)`. */
  function RemoveWithId(rs: seq<Record>, id: string): (r: seq<Record>)
    ensures forall x :: x in r <==> x in rs && !HasId(x, id)
    ensures |r| <= |rs|
    ensures |r| < |rs| <==> exists j :: 0 <= j < |rs| && HasId(rs[j], id)
    ensures |r| == |rs| ==> r == rs
  {
    if rs == [] then []
    else
      var tail := RemoveWithId(rs[1..], id);
      assert rs == [rs[0]] + rs[1..];
      if HasId(rs[0], id) then tail else [rs[0]] + tail
  }

  /** Filtering distributes over concatenation: survivors keep their order. */
  lemma {:induction false} RemoveWithIdAppend(a: seq<Record>, b: seq<Record>, id: string)
    ensures RemoveWithId(a + b, id) == RemoveWithId(a, id) + RemoveWithId(b, id)
  {
    if a != [] {
      assert (a + b)[1..] == a[1..] + b;
      RemoveWithIdAppend(a[1..], b, id);
      assert RemoveWithId(a + b, id) == (if HasId(a[0], id) then [] else [a[0]]) + RemoveWithId(a[1..] + b, id);
    } else {
      assert a + b == b;
    }
  }

  /** Some record in the list has the string id `id`: what `rs.find(x => x.id === id)` tests. */
  predicate Taken(rs: seq<Record>, id: string)
  {
    exists i :: 0 <= i < |rs| && HasId(rs[i], id)
  }

  /** No two records of the list share an id. */
  predicate DistinctIds(rs: seq<Record>)
  {
    forall i, j :: 0 <= i < j < |rs| ==> rs[i].id != rs[j].id
  }

  lemma {:induction false} SubsetCardinality<T>(a: set<T>, b: set<T>)
    requires a <= b
    ensures |a| <= |b|
    decreases b
  {
    if a != {} {
      var x :| x in a;
      SubsetCardinality(a - {x}, b - {x});
    }
  }

  /** The ids carried by a list of records. */
  function Ids(rs: seq<Record>): (ids: set<Json>)
    ensures forall x :: x in ids <==> exists j :: 0 <= j < |rs| && rs[j].id == x
    ensures |ids| <= |rs|
  {
    if rs == [] then {}
    else
      var tail := Ids(rs[1..]);
      assert forall x :: x in tail ==> exists j :: 0 <= j < |rs| && rs[j].id == x by {
        forall x | x in tail ensures exists j :: 0 <= j < |rs| && rs[j].id == x {
          var j :| 0 <= j < |rs[1..]| && rs[1..][j].id == x;
          assert rs[j + 1].id == x;
        }
      }
      forall x | exists j :: 0 <= j < |rs| && rs[j].id == x ensures x in {rs[0].id} + tail {
        var j :| 0 <= j < |rs| && rs[j].id == x;
        if j > 0 { assert rs[1..][j - 1].id == x; }
      }
      {rs[0].id} + tail
  }
}
