/** What happens to the extracted items once translations are in: the glossary overlay
    after the last slice, `handleGlossary` after a glossary change, `newTranslation` for
    a manual edit, and the character count. */
module Overlay {
  import opened Wrappers
  import opened JsonTree
  import opened NumberText
  import opened Extraction
  import opened BatchChain
  import opened Placeholders
  import opened Glossary

  /** `j` is the first record satisfying `p`. */
  predicate FirstSatisfying(gl: seq<Entry>, p: Entry -> bool, j: int) {
    0 <= j < |gl| && p(gl[j]) && forall k :: 0 <= k < j ==> !p(gl[k])
  }

  /** The target text of the first record satisfying `p`, when that text is truthy:
      `first && first[target]`. A later record is never consulted. */
  function TargetText(gl: seq<Entry>, p: Entry -> bool, target: string): (t: Option<Json>)
    ensures t.Some? <==> exists j :: FirstSatisfying(gl, p, j) && target in gl[j] && Truthy(gl[j][target])
    ensures t.Some? ==> exists j :: FirstSatisfying(gl, p, j) && t.value == gl[j][target]
  {
    match FindFirst(gl, p)
    case None => None
    case Some(j) =>
      assert FirstSatisfying(gl, p, j);
      assert forall k :: FirstSatisfying(gl, p, k) ==> k == j;
      if target in gl[j] && Truthy(gl[j][target]) then Some(gl[j][target]) else None
  }

  /** The field read for the detected language; with no result for this item the code
      reads `gl[undefined]`, the field named "undefined". */
  function LangField(result: Option<Translation>): string {
    if result.Some? then result.value.detected else "undefined"
  }

  /** Records whose English text or text in the detected language is the original. */
  function MatchesOriginal(from: Json, result: Option<Translation>): Entry -> bool {
    e => Holds(e, "en", from) || Holds(e, LangField(result), from)
  }

  /** The automatic translation of an item: the current page takes the translated text
      (`undefined` when the item has no result); the older page passes it through
      `replacements`, which turns a missing text into the empty one. */
  function Automatic(copy: Copy, result: Option<Translation>): (t: Option<Json>)
    ensures copy == Home ==> (t.Some? <==> result.Some?)
    ensures copy == Translator ==> t.Some? && t.value.Str?
    ensures result.Some? ==> t.Some? && t.value.Str?
  {
    var text := if result.Some? then Some(result.value.text) else None;
    match copy
    case Home => if text.Some? then Some(Str(text.value)) else None
    case Translator => Some(Str(Replacements(text)))
  }

  /** The overlay's outcome for one item, stated as a relation: key, original and manual
      flag are kept; a glossary hit gives the record's target text and sets the flag;
      otherwise the automatic translation is taken and the flag is cleared. */
  predicate Overlaid(copy: Copy, item: Item, result: Option<Translation>, gl: seq<Entry>, target: string, out: Item) {
    var hit := TargetText(gl, MatchesOriginal(item.from, result), target);
    && out.key == item.key && out.from == item.from && out.manual == item.manual
    && out.fromGlossary == hit.Some?
    && out.to == (if hit.Some? then hit else Automatic(copy, result))
  }

  lemma OverlaidIsFunctional(copy: Copy, item: Item, result: Option<Translation>, gl: seq<Entry>, target: string, o1: Item, o2: Item)
    requires Overlaid(copy, item, result, gl, target, o1) && Overlaid(copy, item, result, gl, target, o2)
    ensures o1 == o2
  {
  }

  function OverlayItem(copy: Copy, item: Item, result: Option<Translation>, gl: seq<Entry>, target: string): (out: Item)
    ensures Overlaid(copy, item, result, gl, target, out)
  {
    var hit := TargetText(gl, MatchesOriginal(item.from, result), target);
    item.(to := if hit.Some? then hit else Automatic(copy, result), fromGlossary := hit.Some?)
  }

  /** `finalTranslatedArray[i]`, `undefined` past the end. */
  function ResultAt(results: seq<Translation>, i: nat): Option<Translation> {
    if i < |results| then Some(results[i]) else None
  }

  /** The overlay after the last slice: item `i` is paired with result `i`. */
  function OverlayResults(copy: Copy, items: seq<Item>, results: seq<Translation>, gl: seq<Entry>, target: string): (out: seq<Item>)
    ensures |out| == |items|
    ensures forall i :: 0 <= i < |items| ==> Overlaid(copy, items[i], ResultAt(results, i), gl, target, out[i])
  {
    seq(|items|, i requires 0 <= i < |items| => OverlayItem(copy, items[i], ResultAt(results, i), gl, target))
  }

  /** The items shown once the chain is done: the overlay when any translation came
      back, the extracted items unchanged otherwise. */
  function Finalize(copy: Copy, items: seq<Item>, results: seq<Translation>, gl: seq<Entry>, target: string): (out: seq<Item>)
    ensures results == [] ==> out == items
    ensures results != [] ==> out == OverlayResults(copy, items, results, gl, target)
    ensures |out| == |items|
    ensures forall i :: 0 <= i < |items| ==> out[i].key == items[i].key && out[i].from == items[i].from
  {
    if results == [] then items else OverlayResults(copy, items, results, gl, target)
  }

  /** The two pages differ only in automatic text: a glossary hit gives the same,
      unnormalised record text on both, and otherwise the older page's text is the
      current page's text passed through `replacements`. */
  lemma PagesDifferOnlyInAutomaticText(items: seq<Item>, results: seq<Translation>, gl: seq<Entry>, target: string)
    ensures var h := OverlayResults(Home, items, results, gl, target);
      var t := OverlayResults(Translator, items, results, gl, target);
      forall i :: 0 <= i < |items| ==>
        && h[i].fromGlossary == t[i].fromGlossary
        && (h[i].fromGlossary ==> h[i].to == t[i].to)
        && (!h[i].fromGlossary ==> t[i].to == Some(Str(Replacements(
              if i < |results| then Some(results[i].text) else None))))
        && (!h[i].fromGlossary && i < |results| ==> h[i].to == Some(Str(results[i].text)))
  {
  }

  /** `handleGlossary(keys, glossary)`: each item whose original is the source text of
      the first matching record, with a truthy target text, takes that text and is
      marked as coming from the glossary; every other item keeps its text and is marked
      as not coming from the glossary. Manual edits are overwritten like any other. */
  function HandleGlossary(items: seq<Item>, gl: seq<Entry>, source: string, target: string): (out: seq<Item>)
    ensures |out| == |items|
    ensures forall i :: 0 <= i < |items| ==>
      var hit := TargetText(gl, SourceIs(source, items[i].from), target);
      && out[i].key == items[i].key && out[i].from == items[i].from && out[i].manual == items[i].manual
      && out[i].fromGlossary == hit.Some?
      && out[i].to == (if hit.Some? then hit else items[i].to)
  {
    seq(|items|, i requires 0 <= i < |items| =>
      var hit := TargetText(gl, SourceIs(source, items[i].from), target);
      items[i].(to := if hit.Some? then hit else items[i].to, fromGlossary := hit.Some?))
  }

  /** Applying the same glossary twice changes nothing more. */
  lemma HandleGlossaryIsIdempotent(items: seq<Item>, gl: seq<Entry>, source: string, target: string)
    ensures var once := HandleGlossary(items, gl, source, target);
      HandleGlossary(once, gl, source, target) == once
  {
    var once := HandleGlossary(items, gl, source, target);
    var twice := HandleGlossary(once, gl, source, target);
    assert forall i :: 0 <= i < |once| ==> twice[i] == once[i];
  }

  /** The manual edit of item `i`: the new text, flagged manual unless it is also saved
      to the glossary. */
  function Edited(items: seq<Item>, i: nat, value: string, save: bool): (out: seq<Item>)
    requires i < |items|
    ensures |out| == |items|
    ensures forall k :: 0 <= k < |items| && k != i ==> out[k] == items[k]
    ensures out[i].key == items[i].key && out[i].from == items[i].from
    ensures out[i].to == Some(Str(value)) && out[i].manual == !save
    ensures out[i].fromGlossary == items[i].fromGlossary
  {
    items[i := items[i].(to := Some(Str(value)), manual := !save)]
  }

  /** `newTranslation(value, i, save)`. Without saving, only item `i` changes. When
      saving, `saved` is the glossary the save resolves to (`None` when it is rejected,
      in which case nothing changes) and the edited items are passed through
      `handleGlossary` with it. */
  function NewTranslation(items: seq<Item>, i: nat, value: string, save: bool, saved: Option<seq<Entry>>,
                          source: string, target: string): (out: seq<Item>)
    requires i < |items|
    ensures |out| == |items|
    ensures forall k :: 0 <= k < |items| ==> out[k].key == items[k].key && out[k].from == items[k].from
    ensures !save ==> forall k :: 0 <= k < |items| && k != i ==> out[k] == items[k]
    ensures !save ==> out[i].to == Some(Str(value)) && out[i].manual && out[i].fromGlossary == items[i].fromGlossary
    ensures save && saved.None? ==> out == items
    ensures save && saved.Some? ==> !out[i].manual
  {
    if !save then Edited(items, i, value, false)
    else if saved.None? then items
    else HandleGlossary(Edited(items, i, value, true), saved.value, source, target)
  }

  /** Saving a manual translation to the glossary (source and target languages distinct,
      the source not named `id`) and applying the resulting glossary gives every item with
      the same original the new text; they are marked as glossary text exactly when the
      text is non-empty, the empty text being falsy. */
  lemma SavedTranslationSpreads(items: seq<Item>, i: nat, value: string, gl: seq<Entry>, source: string, target: string)
    requires i < |items|
    requires source != target && source != "id"
    ensures var up := Upsert(gl, items[i].from, value, target, source);
      && up.Ok?
      && var out := NewTranslation(items, i, value, true, Some(up.value), source, target);
      && out[i].to == Some(Str(value))
      && forall k :: 0 <= k < |items| && items[k].from == items[i].from ==>
           && out[k].fromGlossary == (value != "")
           && (value != "" ==> out[k].to == Some(Str(value)))
  {
    var from := items[i].from;
    var up := Upsert(gl, from, value, target, source);
    UpsertEstablishesPair(gl, from, value, target, source);
    var f := FindFirst(up.value, SourceIs(source, from)).value;
    assert FirstSatisfying(up.value, SourceIs(source, from), f);
    assert forall j :: FirstSatisfying(up.value, SourceIs(source, from), j) ==> j == f;
    var t := TargetText(up.value, SourceIs(source, from), target);
    assert t.Some? <==> value != "";
  }

  /** The usage figure: the `length` of the originals' texts, in UTF-16 code units. */
  function CharCount(items: seq<Item>): nat
    decreases |items|
  {
    if items == [] then 0 else CharCount(items[..|items| - 1]) + Utf16Length(TextOf(items[|items| - 1].from))
  }

  /** The summed `length` of some texts, in UTF-16 code units. */
  function TotalLength(ts: seq<string>): nat
    decreases |ts|
  {
    if ts == [] then 0 else TotalLength(ts[..|ts| - 1]) + Utf16Length(ts[|ts| - 1])
  }

  /** An original outside the Basic Multilingual Plane counts two per character. */
  lemma CharCountCountsCodeUnits()
    ensures CharCount([Item("k", Str("\U{1F600}"), Some(Str("\U{1F600}")), false, false)]) == 2
  {
    var items := [Item("k", Str("\U{1F600}"), Some(Str("\U{1F600}")), false, false)];
    assert items[..0] == [];
    AstralCharacterIsTwoUnits();
  }

  /** The count depends only on the originals, in order. */
  lemma {:induction false} CharCountOfSameOriginals(a: seq<Item>, b: seq<Item>)
    requires |a| == |b|
    requires forall i :: 0 <= i < |a| ==> a[i].from == b[i].from
    ensures CharCount(a) == CharCount(b)
    decreases |a|
  {
    if a != [] {
      CharCountOfSameOriginals(a[..|a| - 1], b[..|b| - 1]);
    }
  }

  /** The count is the total length of the texts sent to the service. */
  lemma {:induction false} CharCountIsSentLength(items: seq<Item>)
    ensures CharCount(items) == TotalLength(Texts(items))
    decreases |items|
  {
    if items != [] {
      var p := items[..|items| - 1];
      CharCountIsSentLength(p);
      TextsSnoc(p, items[|items| - 1]);
      assert items == p + [items[|items| - 1]];
      assert Texts(items)[..|items| - 1] == Texts(p);
    }
  }

  lemma {:induction false} TextsSnoc(p: seq<Item>, x: Item)
    ensures Texts(p + [x]) == Texts(p) + [TextOf(x.from)]
    decreases |p|
  {
    if p == [] {
      assert Texts([x]) == [TextOf(x.from)] + Texts([]);
    } else {
      assert (p + [x])[1..] == p[1..] + [x];
      TextsSnoc(p[1..], x);
    }
  }

  /** Neither the overlay nor a glossary change alters the character count. */
  lemma CharCountUnchanged(copy: Copy, items: seq<Item>, results: seq<Translation>, gl: seq<Entry>, source: string, target: string)
    ensures CharCount(Finalize(copy, items, results, gl, target)) == CharCount(items)
    ensures CharCount(HandleGlossary(items, gl, source, target)) == CharCount(items)
  {
    CharCountOfSameOriginals(Finalize(copy, items, results, gl, target), items);
    CharCountOfSameOriginals(HandleGlossary(items, gl, source, target), items);
  }
}
