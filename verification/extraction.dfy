/** Extraction: the walk inside `translate` that lists, in visiting order, one pending
    translation item per truthy leaf whose key is selected. */
module Extraction {
  import opened Wrappers
  import opened JsonTree
  import opened TreeWalk
  import opened KeyCatalogue
  import opened NumberText

  /** A translation item: the leaf's key, its original value, the current translation
      (`None` is `undefined`), whether that translation came from the glossary, and
      whether it was edited by hand. */
  datatype Item = Item(key: string, from: Json, to: Option<Json>, fromGlossary: bool, manual: bool)

  predicate AnyChecked(stats: seq<KeyStat>) {
    exists i :: 0 <= i < |stats| && stats[i].checked
  }

  /** The keys to translate: the checked ones, or every catalogued key when none is checked. */
  function SelectedKeys(stats: seq<KeyStat>): (sel: seq<string>)
    ensures AnyChecked(stats) ==>
      forall k :: k in sel <==> exists i :: 0 <= i < |stats| && stats[i].checked && stats[i].key == k
    ensures !AnyChecked(stats) ==> sel == KeysOfStats(stats)
    decreases |stats|
  {
    if !AnyChecked(stats) then KeysOfStats(stats) else CheckedKeys(stats)
  }

  function CheckedKeys(stats: seq<KeyStat>): (sel: seq<string>)
    ensures forall k :: k in sel <==> exists i :: 0 <= i < |stats| && stats[i].checked && stats[i].key == k
    decreases |stats|
  {
    if stats == [] then []
    else
      var rest := CheckedKeys(stats[1..]);
      assert forall i :: 1 <= i < |stats| ==> stats[i] == stats[1..][i - 1];
      if stats[0].checked then [stats[0].key] + rest else rest
  }

  /** A freshly extracted item: translation equal to the original, automatic provenance. */
  function Pending(l: Leaf): Item {
    Item(l.key, l.value, Some(l.value), false, false)
  }

  /** Every item is a truthy leaf under a selected key, still untranslated. */
  predicate PendingSelected(items: seq<Item>, sel: seq<string>) {
    forall i :: 0 <= i < |items| ==>
      && items[i].key in sel
      && Truthy(items[i].from)
      && !items[i].from.IsContainer()
      && items[i].to == Some(items[i].from)
      && !items[i].fromGlossary
      && !items[i].manual
  }

  function Extract(key: string, v: Json, sel: seq<string>): (r: seq<Item>)
    ensures PendingSelected(r, sel)
    ensures !v.IsContainer() ==> |r| <= 1
    decreases v
  {
    match v
    case Arr(elems) => ExtractIn(key, elems, sel)
    case Obj(members) => ExtractAmong(members, sel)
    case _ => if key in sel && Truthy(v) then [Item(key, v, Some(v), false, false)] else []
  }

  function ExtractIn(key: string, elems: seq<Json>, sel: seq<string>): (r: seq<Item>)
    ensures PendingSelected(r, sel)
    decreases elems
  {
    if elems == [] then [] else Extract(key, elems[0], sel) + ExtractIn(key, elems[1..], sel)
  }

  function ExtractAmong(members: seq<(string, Json)>, sel: seq<string>): (r: seq<Item>)
    ensures PendingSelected(r, sel)
    decreases members
  {
    if members == [] then [] else ExtractMember(members[0], sel) + ExtractAmong(members[1..], sel)
  }

  function ExtractMember(m: (string, Json), sel: seq<string>): (r: seq<Item>)
    ensures PendingSelected(r, sel)
    decreases m
  {
    Extract(m.0, m.1, sel)
  }

  /** `recurse('', file.data)` inside `translate`. */
  function ExtractDocument(doc: Json, sel: seq<string>): (r: seq<Item>)
    ensures PendingSelected(r, sel)
    ensures !doc.IsContainer() ==> |r| <= 1
  {
    Extract("", doc, sel)
  }

  /** The order-preserving subsequence of leaves whose key is selected. */
  function SelectedLeaves(ls: seq<Leaf>, sel: seq<string>): seq<Leaf>
    decreases |ls|
  {
    if ls == [] then []
    else (if ls[0].key in sel then [ls[0]] else []) + SelectedLeaves(ls[1..], sel)
  }

  function PendingItems(ls: seq<Leaf>): (items: seq<Item>)
    ensures |items| == |ls|
    ensures forall i :: 0 <= i < |ls| ==> items[i] == Pending(ls[i])
    decreases |ls|
  {
    if ls == [] then [] else [Pending(ls[0])] + PendingItems(ls[1..])
  }

  lemma {:induction false} SelectedLeavesAppend(a: seq<Leaf>, b: seq<Leaf>, sel: seq<string>)
    ensures SelectedLeaves(a + b, sel) == SelectedLeaves(a, sel) + SelectedLeaves(b, sel)
    decreases |a|
  {
    if a != [] {
      assert (a + b)[1..] == a[1..] + b;
      assert (a + b)[0] == a[0];
      SelectedLeavesAppend(a[1..], b, sel);
      var head := if a[0].key in sel then [a[0]] else [];
      assert SelectedLeaves(a + b, sel) == head + (SelectedLeaves(a[1..], sel) + SelectedLeaves(b, sel));
    } else {
      assert a + b == b;
    }
  }

  lemma PendingItemsAppend(a: seq<Leaf>, b: seq<Leaf>)
    ensures PendingItems(a + b) == PendingItems(a) + PendingItems(b)
  {
  }

  /** The extraction walk lists exactly the selected leaves of the shared traversal, in
      the same order: the two independently written walks agree. */
  lemma {:induction false} ExtractIsSelectedLeaves(key: string, v: Json, sel: seq<string>)
    ensures Extract(key, v, sel) == PendingItems(SelectedLeaves(Leaves(key, v), sel))
    decreases v
  {
    match v
    case Arr(elems) => ExtractInIsSelectedLeaves(key, elems, sel);
    case Obj(members) => ExtractAmongIsSelectedLeaves(members, sel);
    case _ =>
  }

  lemma {:induction false} ExtractInIsSelectedLeaves(key: string, elems: seq<Json>, sel: seq<string>)
    ensures ExtractIn(key, elems, sel) == PendingItems(SelectedLeaves(LeavesIn(key, elems), sel))
    decreases elems
  {
    if elems != [] {
      ExtractIsSelectedLeaves(key, elems[0], sel);
      ExtractInIsSelectedLeaves(key, elems[1..], sel);
      SelectedLeavesAppend(Leaves(key, elems[0]), LeavesIn(key, elems[1..]), sel);
      PendingItemsAppend(SelectedLeaves(Leaves(key, elems[0]), sel), SelectedLeaves(LeavesIn(key, elems[1..]), sel));
    }
  }

  lemma {:induction false} ExtractAmongIsSelectedLeaves(members: seq<(string, Json)>, sel: seq<string>)
    ensures ExtractAmong(members, sel) == PendingItems(SelectedLeaves(LeavesAmong(members), sel))
    decreases members
  {
    if members != [] {
      ExtractMemberIsSelectedLeaves(members[0], sel);
      ExtractAmongIsSelectedLeaves(members[1..], sel);
      SelectedLeavesAppend(LeavesOfMember(members[0]), LeavesAmong(members[1..]), sel);
      PendingItemsAppend(SelectedLeaves(LeavesOfMember(members[0]), sel), SelectedLeaves(LeavesAmong(members[1..]), sel));
    }
  }

  lemma {:induction false} ExtractMemberIsSelectedLeaves(m: (string, Json), sel: seq<string>)
    ensures ExtractMember(m, sel) == PendingItems(SelectedLeaves(LeavesOfMember(m), sel))
    decreases m
  {
    ExtractIsSelectedLeaves(m.0, m.1, sel);
  }

  lemma {:induction false} SelectingEveryKeyKeepsAll(ls: seq<Leaf>, sel: seq<string>)
    requires forall i :: 0 <= i < |ls| ==> ls[i].key in sel
    ensures SelectedLeaves(ls, sel) == ls
    decreases |ls|
  {
    if ls != [] {
      SelectingEveryKeyKeepsAll(ls[1..], sel);
    }
  }

  /** With no key checked every catalogued key is selected, so extraction yields one
      pending item per truthy leaf of the document, and their number is the sum of the
      catalogue's counts. */
  lemma UncheckedCatalogueSelectsEveryLeaf(doc: Json)
    ensures var stats := GetKeys(doc);
      var items := ExtractDocument(doc, SelectedKeys(stats));
      && items == PendingItems(DocumentLeaves(doc))
      && |items| == SumCounts(stats)
  {
    var stats := GetKeys(doc);
    var leaves := DocumentLeaves(doc);
    CatalogueIsFaithful(doc);
    assert !AnyChecked(stats);
    var sel := SelectedKeys(stats);
    forall i | 0 <= i < |leaves| ensures leaves[i].key in sel {
      assert exists j :: 0 <= j < |leaves| && leaves[j].key == leaves[i].key;
    }
    SelectingEveryKeyKeepsAll(leaves, sel);
    ExtractIsSelectedLeaves("", doc, sel);
  }

  /** The strings sent for translation: numbers are turned into their text form. */
  function Texts(items: seq<Item>): (ts: seq<string>)
    ensures |ts| == |items|
    ensures forall i :: 0 <= i < |items| && items[i].from.Str? ==> ts[i] == items[i].from.s
    ensures forall i :: 0 <= i < |items| && items[i].from.Num? ==> ParseInteger(ts[i]) == Some(items[i].from.n)
    decreases |items|
  {
    if items == [] then [] else [TextOf(items[0].from)] + Texts(items[1..])
  }
}
