/** Writing the translations back into the document (`makeFile`), as intended: the same
    walk as extraction, with one cursor into the item list; a leaf takes the next item
    when that item has the leaf's key and original, and numeric leaves are written back
    through `Number(to)`. The result is the document as `JSON.stringify` writes it: a
    member whose new value is `undefined` is left out and such an array element becomes
    `null`. The walk threads the cursor explicitly and returns a new tree; the uploaded
    document itself is never changed. */
module Reinjection {
  import opened Wrappers
  import opened JsonTree
  import opened NumberText
  import opened TreeWalk
  import opened Extraction

  /** The value written for a matched leaf (`None` is `undefined`). */
  function Written(leaf: Json, to: Option<Json>): (w: Option<Json>)
    ensures leaf.Num? ==> w.Some? && (w.value.Num? || w.value.Null?)
    ensures leaf.Num? && to.Some? && to.value.Str? && ParseInteger(to.value.s).Some? ==> w == Some(Num(ParseInteger(to.value.s).value))
    ensures !leaf.Num? ==> w == to
    ensures to == Some(leaf) ==> w == Some(leaf)
  {
    if leaf.Num? then Some(NumberOf(to)) else to
  }

  /** An array element as serialised: `undefined` becomes `null`. */
  function AsElement(n: Option<Json>): Json {
    if n.Some? then n.value else Null
  }

  /** An object member as serialised: dropped when its value is `undefined`. */
  function AsMembers(key: string, n: Option<Json>): seq<(string, Json)> {
    if n.Some? then [(key, n.value)] else []
  }

  /** Item `c` is the next one to place and belongs to this leaf. */
  predicate Matches(items: seq<Item>, c: nat, key: string, v: Json) {
    c < |items| && items[c].key == key && items[c].from == v
  }

  /** The cursor never moves back and never passes the end of the list. */
  predicate Advanced(items: seq<Item>, c: nat, c': nat) {
    c <= c' && (c <= |items| ==> c' <= |items|)
  }

  function Place(key: string, v: Json, items: seq<Item>, c: nat): (r: (Option<Json>, nat))
    ensures Advanced(items, c, r.1)
    ensures v.IsContainer() ==> r.0.Some?
    decreases v
  {
    match v
    case Arr(elems) =>
      var (es, c') := PlaceIn(key, elems, items, c);
      (Some(Arr(es)), c')
    case Obj(members) =>
      var (ms, c') := PlaceAmong(members, items, c);
      (Some(Obj(ms)), c')
    case _ =>
      if Matches(items, c, key, v) then (Written(v, items[c].to), c + 1) else (Some(v), c)
  }

  /** Array elements inherit the enclosing key. */
  function PlaceIn(key: string, elems: seq<Json>, items: seq<Item>, c: nat): (r: (seq<Json>, nat))
    ensures Advanced(items, c, r.1)
    ensures |r.0| == |elems|
    decreases elems
  {
    if elems == [] then ([], c)
    else
      var (e, c1) := Place(key, elems[0], items, c);
      var (es, c2) := PlaceIn(key, elems[1..], items, c1);
      ([AsElement(e)] + es, c2)
  }

  function PlaceAmong(members: seq<(string, Json)>, items: seq<Item>, c: nat): (r: (seq<(string, Json)>, nat))
    ensures Advanced(items, c, r.1)
    ensures |r.0| <= |members|
    decreases members
  {
    if members == [] then ([], c)
    else
      var (m, c1) := PlaceMember(members[0], items, c);
      var (ms, c2) := PlaceAmong(members[1..], items, c1);
      (AsMembers(members[0].0, m) + ms, c2)
  }

  function PlaceMember(m: (string, Json), items: seq<Item>, c: nat): (r: (Option<Json>, nat))
    ensures Advanced(items, c, r.1)
    decreases m
  {
    Place(m.0, m.1, items, c)
  }

  /** `makeFile` as intended: with no items the copy of the document is written as is. */
  function MakeFile(doc: Json, items: seq<Item>): Json {
    if items == [] then doc else AsElement(Place("", doc, items, 0).0)
  }

  // ---------------------------------------------------------------------------------
  // Reference: filling the selected leaves in visiting order

  /** The reference the walk must agree with: the `c`-th selected truthy leaf, counting
      in the extraction's visiting order, receives item `c`'s translation. */
  function Fill(key: string, v: Json, sel: seq<string>, items: seq<Item>, c: nat): (r: (Option<Json>, nat))
    decreases v, 0
  {
    match v
    case Arr(elems) =>
      var (es, c') := FillIn(key, elems, sel, items, c);
      (Some(Arr(es)), c')
    case Obj(members) =>
      var (ms, c') := FillAmong(members, sel, items, c);
      (Some(Obj(ms)), c')
    case _ =>
      if key in sel && Truthy(v) && c < |items| then (Written(v, items[c].to), c + 1) else (Some(v), c)
  }

  function FillIn(key: string, elems: seq<Json>, sel: seq<string>, items: seq<Item>, c: nat): (r: (seq<Json>, nat))
    decreases elems, 0
  {
    if elems == [] then ([], c)
    else
      var (e, c1) := FillElement(key, elems[0], sel, items, c);
      var (es, c2) := FillIn(key, elems[1..], sel, items, c1);
      ([AsElement(e)] + es, c2)
  }

  function FillElement(key: string, e: Json, sel: seq<string>, items: seq<Item>, c: nat): (r: (Option<Json>, nat))
    decreases e, 1
  {
    Fill(key, e, sel, items, c)
  }

  function FillAmong(members: seq<(string, Json)>, sel: seq<string>, items: seq<Item>, c: nat): (r: (seq<(string, Json)>, nat))
    decreases members, 0
  {
    if members == [] then ([], c)
    else
      var (m, c1) := FillMember(members[0], sel, items, c);
      var (ms, c2) := FillAmong(members[1..], sel, items, c1);
      (AsMembers(members[0].0, m) + ms, c2)
  }

  function FillMember(m: (string, Json), sel: seq<string>, items: seq<Item>, c: nat): (r: (Option<Json>, nat))
    decreases m, 0
  {
    Fill(m.0, m.1, sel, items, c)
  }

  /** The items from position `c` on start with the extracted list `es`, key and
      original alike. */
  predicate Aligned(items: seq<Item>, c: nat, es: seq<Item>) {
    c + |es| <= |items| && forall i :: 0 <= i < |es| ==> items[c + i].key == es[i].key && items[c + i].from == es[i].from
  }

  /** Every item belongs to a selected key and has a truthy original, as extracted items do. */
  predicate Selectable(items: seq<Item>, sel: seq<string>) {
    forall j :: 0 <= j < |items| ==> items[j].key in sel && Truthy(items[j].from)
  }

  lemma AlignedSplit(items: seq<Item>, c: nat, a: seq<Item>, b: seq<Item>)
    requires Aligned(items, c, a + b)
    ensures Aligned(items, c, a) && Aligned(items, c + |a|, b)
  {
    forall i | 0 <= i < |a| ensures items[c + i].key == a[i].key && items[c + i].from == a[i].from {
      assert (a + b)[i] == a[i];
    }
    forall i | 0 <= i < |b| ensures items[c + |a| + i].key == b[i].key && items[c + |a| + i].from == b[i].from {
      assert (a + b)[|a| + i] == b[i];
    }
  }

  /** Under alignment the walk meets exactly the extracted leaves, in order: it agrees
      with the reference and consumes one item per extracted leaf. */
  lemma {:induction false} PlaceFollowsExtraction(key: string, v: Json, sel: seq<string>, items: seq<Item>, c: nat)
    requires Selectable(items, sel)
    requires Aligned(items, c, Extract(key, v, sel))
    ensures Place(key, v, items, c) == Fill(key, v, sel, items, c)
    ensures Place(key, v, items, c).1 == c + |Extract(key, v, sel)|
    decreases v
  {
    match v
    case Arr(elems) => PlaceInFollowsExtraction(key, elems, sel, items, c);
    case Obj(members) => PlaceAmongFollowsExtraction(members, sel, items, c);
    case _ => PlaceLeafFollowsExtraction(key, v, sel, items, c);
  }

  /** A scalar leaf takes the next item exactly when extraction listed it. */
  lemma PlaceLeafFollowsExtraction(key: string, v: Json, sel: seq<string>, items: seq<Item>, c: nat)
    requires !v.IsContainer()
    requires Selectable(items, sel)
    requires Aligned(items, c, Extract(key, v, sel))
    ensures Place(key, v, items, c) == Fill(key, v, sel, items, c)
    ensures Place(key, v, items, c).1 == c + |Extract(key, v, sel)|
  {
    if key in sel && Truthy(v) {
      var es := Extract(key, v, sel);
      assert es == [Item(key, v, Some(v), false, false)];
      assert items[c + 0].key == es[0].key && items[c + 0].from == es[0].from;
      assert Matches(items, c, key, v);
    } else {
      assert Extract(key, v, sel) == [];
      assert !Matches(items, c, key, v);
    }
  }

  lemma {:induction false} PlaceInFollowsExtraction(key: string, elems: seq<Json>, sel: seq<string>, items: seq<Item>, c: nat)
    requires Selectable(items, sel)
    requires Aligned(items, c, ExtractIn(key, elems, sel))
    ensures PlaceIn(key, elems, items, c) == FillIn(key, elems, sel, items, c)
    ensures PlaceIn(key, elems, items, c).1 == c + |ExtractIn(key, elems, sel)|
    decreases elems
  {
    if elems != [] {
      var a := Extract(key, elems[0], sel);
      AlignedSplit(items, c, a, ExtractIn(key, elems[1..], sel));
      PlaceFollowsExtraction(key, elems[0], sel, items, c);
      PlaceInFollowsExtraction(key, elems[1..], sel, items, c + |a|);
    }
  }

  lemma {:induction false} PlaceAmongFollowsExtraction(members: seq<(string, Json)>, sel: seq<string>, items: seq<Item>, c: nat)
    requires Selectable(items, sel)
    requires Aligned(items, c, ExtractAmong(members, sel))
    ensures PlaceAmong(members, items, c) == FillAmong(members, sel, items, c)
    ensures PlaceAmong(members, items, c).1 == c + |ExtractAmong(members, sel)|
    decreases members
  {
    if members != [] {
      var a := ExtractMember(members[0], sel);
      AlignedSplit(items, c, a, ExtractAmong(members[1..], sel));
      PlaceMemberFollowsExtraction(members[0], sel, items, c);
      PlaceAmongFollowsExtraction(members[1..], sel, items, c + |a|);
    }
  }

  lemma {:induction false} PlaceMemberFollowsExtraction(m: (string, Json), sel: seq<string>, items: seq<Item>, c: nat)
    requires Selectable(items, sel)
    requires Aligned(items, c, ExtractMember(m, sel))
    ensures PlaceMember(m, items, c) == FillMember(m, sel, items, c)
    ensures PlaceMember(m, items, c).1 == c + |ExtractMember(m, sel)|
    decreases m
  {
    PlaceFollowsExtraction(m.0, m.1, sel, items, c);
  }

  /** For the items extraction produced (translations edited in any way), the written
      file is the reference filling and every item is used exactly once. */
  lemma MakeFileFollowsExtraction(doc: Json, sel: seq<string>, items: seq<Item>)
    requires |items| == |ExtractDocument(doc, sel)|
    requires forall i :: 0 <= i < |items| ==>
      items[i].key == ExtractDocument(doc, sel)[i].key && items[i].from == ExtractDocument(doc, sel)[i].from
    ensures items != [] ==> Place("", doc, items, 0) == Fill("", doc, sel, items, 0)
    ensures items != [] ==> Place("", doc, items, 0).1 == |items|
  {
    var es := ExtractDocument(doc, sel);
    if items != [] {
      forall j | 0 <= j < |items| ensures items[j].key in sel && Truthy(items[j].from) {
        ExtractedItemsAreSelectable("", doc, sel, j);
      }
      PlaceFollowsExtraction("", doc, sel, items, 0);
    }
  }

  /** Every extracted item has a selected key and a truthy original. */
  lemma ExtractedItemsAreSelectable(key: string, v: Json, sel: seq<string>, j: nat)
    requires j < |Extract(key, v, sel)|
    ensures Extract(key, v, sel)[j].key in sel && Truthy(Extract(key, v, sel)[j].from)
  {
    ExtractIsSelectedLeaves(key, v, sel);
    var ls := SelectedLeaves(Leaves(key, v), sel);
    SelectedLeavesAreSelected(Leaves(key, v), sel);
    assert ls[j] in Leaves(key, v);
  }

  lemma {:induction false} SelectedLeavesAreSelected(ls: seq<Leaf>, sel: seq<string>)
    ensures forall l :: l in SelectedLeaves(ls, sel) ==> l in ls && l.key in sel
    decreases |ls|
  {
    if ls != [] {
      SelectedLeavesAreSelected(ls[1..], sel);
    }
  }

  // ---------------------------------------------------------------------------------
  // Round trips

  /** Items whose translation is their own original leave the document unchanged, whatever
      the items are. */
  lemma {:induction false} PlaceIdentity(key: string, v: Json, items: seq<Item>, c: nat)
    requires forall j :: 0 <= j < |items| ==> items[j].to == Some(items[j].from)
    ensures Place(key, v, items, c).0 == Some(v)
    decreases v
  {
    match v
    case Arr(elems) =>
      PlaceInIdentity(key, elems, items, c);
    case Obj(members) =>
      PlaceAmongIdentity(members, items, c);
    case _ =>
  }

  lemma {:induction false} PlaceInIdentity(key: string, elems: seq<Json>, items: seq<Item>, c: nat)
    requires forall j :: 0 <= j < |items| ==> items[j].to == Some(items[j].from)
    ensures PlaceIn(key, elems, items, c).0 == elems
    decreases elems
  {
    if elems != [] {
      PlaceIdentity(key, elems[0], items, c);
      PlaceInIdentity(key, elems[1..], items, Place(key, elems[0], items, c).1);
      assert elems == [elems[0]] + elems[1..];
    }
  }

  lemma {:induction false} PlaceAmongIdentity(members: seq<(string, Json)>, items: seq<Item>, c: nat)
    requires forall j :: 0 <= j < |items| ==> items[j].to == Some(items[j].from)
    ensures PlaceAmong(members, items, c).0 == members
    decreases members
  {
    if members != [] {
      PlaceMemberIdentity(members[0], items, c);
      PlaceAmongIdentity(members[1..], items, PlaceMember(members[0], items, c).1);
      assert members == [members[0]] + members[1..];
    }
  }

  lemma {:induction false} PlaceMemberIdentity(m: (string, Json), items: seq<Item>, c: nat)
    requires forall j :: 0 <= j < |items| ==> items[j].to == Some(items[j].from)
    ensures PlaceMember(m, items, c).0 == Some(m.1)
    decreases m
  {
    PlaceIdentity(m.0, m.1, items, c);
  }

  /** Translating every item to its own original writes back the uploaded document. */
  lemma MakeFileIdentity(doc: Json, items: seq<Item>)
    requires forall j :: 0 <= j < |items| ==> items[j].to == Some(items[j].from)
    ensures MakeFile(doc, items) == doc
  {
    if items != [] {
      PlaceIdentity("", doc, items, 0);
    }
  }

  /** The translated items as a fresh extraction would list them: original replaced by
      the translation. */
  function Retranslated(items: seq<Item>): (out: seq<Item>)
    ensures |out| == |items|
    ensures forall i :: 0 <= i < |items| ==>
      out[i] == Item(items[i].key, items[i].to.GetOr(Null), items[i].to, false, false)
  {
    seq(|items|, i requires 0 <= i < |items| => Item(items[i].key, items[i].to.GetOr(Null), items[i].to, false, false))
  }

  /** Every item from position `c` on carries a non-empty text translation. */
  predicate TextTranslations(items: seq<Item>, c: nat) {
    forall j :: c <= j < |items| ==> items[j].to.Some? && items[j].to.value.Str? && items[j].to.value.s != ""
  }

  /** Every extracted original is a text. */
  predicate TextOriginals(es: seq<Item>) {
    forall i :: 0 <= i < |es| ==> es[i].from.Str?
  }

  lemma RetranslatedSplit(items: seq<Item>, c: nat, a: nat, b: nat)
    requires c + a + b <= |items|
    ensures Retranslated(items[c..c + a + b]) == Retranslated(items[c..c + a]) + Retranslated(items[c + a..c + a + b])
  {
  }

  lemma TextOriginalsSplit(a: seq<Item>, b: seq<Item>)
    requires TextOriginals(a + b)
    ensures TextOriginals(a) && TextOriginals(b)
  {
    forall i | 0 <= i < |a| ensures a[i].from.Str? {
      assert (a + b)[i] == a[i];
    }
    forall i | 0 <= i < |b| ensures b[i].from.Str? {
      assert (a + b)[|a| + i] == b[i];
    }
  }

  /** Extracting again from the filled tree lists the translations, in the same order,
      when the selected leaves are texts and every translation is a non-empty text. */
  lemma {:induction false} FillThenExtract(key: string, v: Json, sel: seq<string>, items: seq<Item>, c: nat)
    requires Aligned(items, c, Extract(key, v, sel))
    requires TextOriginals(Extract(key, v, sel))
    requires TextTranslations(items, c)
    ensures Fill(key, v, sel, items, c).0.Some?
    ensures Extract(key, Fill(key, v, sel, items, c).0.value, sel)
         == Retranslated(items[c..c + |Extract(key, v, sel)|])
    ensures Fill(key, v, sel, items, c).1 == c + |Extract(key, v, sel)|
    decreases v, 0
  {
    match v
    case Arr(elems) => FillInThenExtract(key, elems, sel, items, c);
    case Obj(members) => FillAmongThenExtract(members, sel, items, c);
    case _ => FillLeafThenExtract(key, v, sel, items, c);
  }

  /** A scalar leaf: a selected truthy text takes the translation; anything else stays. */
  lemma FillLeafThenExtract(key: string, v: Json, sel: seq<string>, items: seq<Item>, c: nat)
    requires !v.IsContainer()
    requires Aligned(items, c, Extract(key, v, sel))
    requires TextOriginals(Extract(key, v, sel))
    requires TextTranslations(items, c)
    ensures Fill(key, v, sel, items, c).0.Some?
    ensures Extract(key, Fill(key, v, sel, items, c).0.value, sel)
         == Retranslated(items[c..c + |Extract(key, v, sel)|])
    ensures Fill(key, v, sel, items, c).1 == c + |Extract(key, v, sel)|
  {
    if key in sel && Truthy(v) {
      var es := Extract(key, v, sel);
      assert es == [Item(key, v, Some(v), false, false)];
      assert es[0].from.Str?;
      var t := items[c].to.value;
      assert Extract(key, t, sel) == [Item(key, t, Some(t), false, false)];
      assert items[c..c + 1] == [items[c]];
    } else {
      assert Extract(key, v, sel) == [];
    }
  }

  /** Putting the two halves of an array back together after both have been filled. */
  lemma FillInStep(key: string, elems: seq<Json>, sel: seq<string>, items: seq<Item>, c: nat)
    requires elems != []
    requires c + |Extract(key, elems[0], sel)| + |ExtractIn(key, elems[1..], sel)| <= |items|
    requires FillElement(key, elems[0], sel, items, c).0.Some?
    requires FillElement(key, elems[0], sel, items, c).1 == c + |Extract(key, elems[0], sel)|
    requires Extract(key, FillElement(key, elems[0], sel, items, c).0.value, sel)
          == Retranslated(items[c..c + |Extract(key, elems[0], sel)|])
    requires ExtractIn(key, FillIn(key, elems[1..], sel, items, c + |Extract(key, elems[0], sel)|).0, sel)
          == Retranslated(items[c + |Extract(key, elems[0], sel)|..c + |Extract(key, elems[0], sel)| + |ExtractIn(key, elems[1..], sel)|])
    requires FillIn(key, elems[1..], sel, items, c + |Extract(key, elems[0], sel)|).1
          == c + |Extract(key, elems[0], sel)| + |ExtractIn(key, elems[1..], sel)|
    ensures ExtractIn(key, FillIn(key, elems, sel, items, c).0, sel)
         == Retranslated(items[c..c + |ExtractIn(key, elems, sel)|])
    ensures FillIn(key, elems, sel, items, c).1 == c + |ExtractIn(key, elems, sel)|
  {
    var a := Extract(key, elems[0], sel);
    var b := ExtractIn(key, elems[1..], sel);
    assert ExtractIn(key, elems, sel) == a + b;
    var r1 := FillElement(key, elems[0], sel, items, c);
    var r2 := FillIn(key, elems[1..], sel, items, r1.1);
    var x := [r1.0.value] + r2.0;
    assert FillIn(key, elems, sel, items, c) == (x, r2.1);
    assert x[0] == r1.0.value && x[1..] == r2.0;
    assert ExtractIn(key, x, sel) == Extract(key, r1.0.value, sel) + ExtractIn(key, r2.0, sel);
    RetranslatedSplit(items, c, |a|, |b|);
  }

  lemma {:induction false} FillInThenExtract(key: string, elems: seq<Json>, sel: seq<string>, items: seq<Item>, c: nat)
    requires Aligned(items, c, ExtractIn(key, elems, sel))
    requires TextOriginals(ExtractIn(key, elems, sel))
    requires TextTranslations(items, c)
    ensures ExtractIn(key, FillIn(key, elems, sel, items, c).0, sel)
         == Retranslated(items[c..c + |ExtractIn(key, elems, sel)|])
    ensures FillIn(key, elems, sel, items, c).1 == c + |ExtractIn(key, elems, sel)|
    decreases elems, 0
  {
    if elems != [] {
      var a := Extract(key, elems[0], sel);
      var b := ExtractIn(key, elems[1..], sel);
      assert ExtractIn(key, elems, sel) == a + b;
      AlignedSplit(items, c, a, b);
      TextOriginalsSplit(a, b);
      FillElementThenExtract(key, elems[0], sel, items, c);
      FillInThenExtract(key, elems[1..], sel, items, c + |a|);
      FillInStep(key, elems, sel, items, c);
    }
  }

  lemma {:induction false} FillElementThenExtract(key: string, e: Json, sel: seq<string>, items: seq<Item>, c: nat)
    requires Aligned(items, c, Extract(key, e, sel))
    requires TextOriginals(Extract(key, e, sel))
    requires TextTranslations(items, c)
    ensures FillElement(key, e, sel, items, c).0.Some?
    ensures Extract(key, FillElement(key, e, sel, items, c).0.value, sel)
         == Retranslated(items[c..c + |Extract(key, e, sel)|])
    ensures FillElement(key, e, sel, items, c).1 == c + |Extract(key, e, sel)|
    decreases e, 1
  {
    FillThenExtract(key, e, sel, items, c);
  }

  /** Putting the two halves of an object back together after both have been filled. */
  lemma FillAmongStep(members: seq<(string, Json)>, sel: seq<string>, items: seq<Item>, c: nat)
    requires members != []
    requires c + |ExtractMember(members[0], sel)| + |ExtractAmong(members[1..], sel)| <= |items|
    requires FillMember(members[0], sel, items, c).0.Some?
    requires FillMember(members[0], sel, items, c).1 == c + |ExtractMember(members[0], sel)|
    requires ExtractMember((members[0].0, FillMember(members[0], sel, items, c).0.value), sel)
          == Retranslated(items[c..c + |ExtractMember(members[0], sel)|])
    requires ExtractAmong(FillAmong(members[1..], sel, items, c + |ExtractMember(members[0], sel)|).0, sel)
          == Retranslated(items[c + |ExtractMember(members[0], sel)|..c + |ExtractMember(members[0], sel)| + |ExtractAmong(members[1..], sel)|])
    requires FillAmong(members[1..], sel, items, c + |ExtractMember(members[0], sel)|).1
          == c + |ExtractMember(members[0], sel)| + |ExtractAmong(members[1..], sel)|
    ensures ExtractAmong(FillAmong(members, sel, items, c).0, sel)
         == Retranslated(items[c..c + |ExtractAmong(members, sel)|])
    ensures FillAmong(members, sel, items, c).1 == c + |ExtractAmong(members, sel)|
  {
    var a := ExtractMember(members[0], sel);
    var b := ExtractAmong(members[1..], sel);
    assert ExtractAmong(members, sel) == a + b;
    var r1 := FillMember(members[0], sel, items, c);
    var r2 := FillAmong(members[1..], sel, items, r1.1);
    var x := [(members[0].0, r1.0.value)] + r2.0;
    assert FillAmong(members, sel, items, c) == (x, r2.1);
    assert x[0] == (members[0].0, r1.0.value) && x[1..] == r2.0;
    assert ExtractAmong(x, sel) == ExtractMember(x[0], sel) + ExtractAmong(r2.0, sel);
    RetranslatedSplit(items, c, |a|, |b|);
  }

  lemma {:induction false} FillAmongThenExtract(members: seq<(string, Json)>, sel: seq<string>, items: seq<Item>, c: nat)
    requires Aligned(items, c, ExtractAmong(members, sel))
    requires TextOriginals(ExtractAmong(members, sel))
    requires TextTranslations(items, c)
    ensures ExtractAmong(FillAmong(members, sel, items, c).0, sel)
         == Retranslated(items[c..c + |ExtractAmong(members, sel)|])
    ensures FillAmong(members, sel, items, c).1 == c + |ExtractAmong(members, sel)|
    decreases members, 0
  {
    if members != [] {
      var a := ExtractMember(members[0], sel);
      var b := ExtractAmong(members[1..], sel);
      assert ExtractAmong(members, sel) == a + b;
      AlignedSplit(items, c, a, b);
      TextOriginalsSplit(a, b);
      FillMemberThenExtract(members[0], sel, items, c);
      assert TextTranslations(items, c + |a|);
      FillAmongThenExtract(members[1..], sel, items, c + |a|);
      FillAmongStep(members, sel, items, c);
    }
  }

  lemma {:induction false} FillMemberThenExtract(m: (string, Json), sel: seq<string>, items: seq<Item>, c: nat)
    requires Aligned(items, c, ExtractMember(m, sel))
    requires TextOriginals(ExtractMember(m, sel))
    requires TextTranslations(items, c)
    ensures FillMember(m, sel, items, c).0.Some?
    ensures ExtractMember((m.0, FillMember(m, sel, items, c).0.value), sel)
         == Retranslated(items[c..c + |ExtractMember(m, sel)|])
    ensures FillMember(m, sel, items, c).1 == c + |ExtractMember(m, sel)|
    decreases m, 0
  {
    FillThenExtract(m.0, m.1, sel, items, c);
  }

  /** The downloaded file, extracted again with the same selection, lists the
      translations in place of the originals: extraction and reinjection agree on the
      order of the leaves. */
  lemma ReextractionShowsTranslations(doc: Json, sel: seq<string>, items: seq<Item>)
    requires |items| == |ExtractDocument(doc, sel)|
    requires forall i :: 0 <= i < |items| ==>
      items[i].key == ExtractDocument(doc, sel)[i].key && items[i].from == ExtractDocument(doc, sel)[i].from
    requires TextOriginals(ExtractDocument(doc, sel))
    requires TextTranslations(items, 0)
    ensures ExtractDocument(MakeFile(doc, items), sel) == Retranslated(items)
  {
    if items != [] {
      MakeFileFollowsExtraction(doc, sel, items);
      FillThenExtract("", doc, sel, items, 0);
      assert items[0..|items|] == items;
    }
  }
}
