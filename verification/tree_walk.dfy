/** The depth-first traversal shared by key cataloguing and extraction: array elements
    inherit the key of the enclosing member, object members carry their own key, the
    document root carries the empty key, and only truthy non-container values are leaves. */
module TreeWalk {
  import opened JsonTree

  /** One leaf occurrence: the key labelling it and its value. */
  datatype Leaf = Leaf(key: string, value: Json)

  predicate AllTruthy(ls: seq<Leaf>) {
    forall i :: 0 <= i < |ls| ==> IsTruthyLeaf(ls[i].value)
  }

  function Leaves(key: string, v: Json): (ls: seq<Leaf>)
    ensures AllTruthy(ls)
    decreases v
  {
    match v
    case Arr(elems) => LeavesIn(key, elems)
    case Obj(members) => LeavesAmong(members)
    case _ => if Truthy(v) then [Leaf(key, v)] else []
  }

  /** Array elements, each walked under the array's own key. */
  function LeavesIn(key: string, elems: seq<Json>): (ls: seq<Leaf>)
    ensures AllTruthy(ls)
    decreases elems
  {
    if elems == [] then [] else Leaves(key, elems[0]) + LeavesIn(key, elems[1..])
  }

  /** Object members in stored order, each walked under its own key. */
  function LeavesAmong(members: seq<(string, Json)>): (ls: seq<Leaf>)
    ensures AllTruthy(ls)
    decreases members
  {
    if members == [] then [] else LeavesOfMember(members[0]) + LeavesAmong(members[1..])
  }

  function LeavesOfMember(m: (string, Json)): (ls: seq<Leaf>)
    ensures AllTruthy(ls)
    decreases m
  {
    Leaves(m.0, m.1)
  }

  /** All leaves of a document, in visiting order. */
  function DocumentLeaves(doc: Json): (ls: seq<Leaf>)
    ensures AllTruthy(ls)
  {
    Leaves("", doc)
  }

  /** The key of every leaf, in visiting order (`keyArray` of the key catalogue). */
  function KeysOf(ls: seq<Leaf>): (ks: seq<string>)
    ensures |ks| == |ls|
    ensures forall i :: 0 <= i < |ls| ==> ks[i] == ls[i].key
  {
    if ls == [] then [] else [ls[0].key] + KeysOf(ls[1..])
  }
}
