/** The glossary as an in-memory list of records, each a map from a language code to the
    text in that language (plus the `id` field of the stored document once loaded):
    the upsert rule of `addToGlossary` and the shape `loadGlossary` returns. */
module Glossary {
  import opened Wrappers
  import opened JsonTree

  /** One glossary record: language code to text. Values are `Json` because a record
      saved from a numeric leaf holds the number itself. */
  type Entry = map<string, Json>

  /** `entry[lang] === v`; a missing field is `undefined`, which never equals a value. */
  predicate Holds(e: Entry, lang: string, v: Json) {
    lang in e && e[lang] == v
  }

  /** The records whose source-language text is `from`. */
  function SourceIs(source: string, from: Json): Entry -> bool {
    e => Holds(e, source, from)
  }

  /** Index of the first record satisfying `p` (`findIndex`, or `filter(...)[0]`). */
  function FindFirst(gl: seq<Entry>, p: Entry -> bool): (r: Option<nat>)
    ensures r.None? <==> forall j :: 0 <= j < |gl| ==> !p(gl[j])
    ensures r.Some? ==> r.value < |gl| && p(gl[r.value])
    ensures r.Some? ==> forall j :: 0 <= j < r.value ==> !p(gl[j])
    decreases |gl|
  {
    if gl == [] then None
    else if p(gl[0]) then Some(0)
    else
      var r := FindFirst(gl[1..], p);
      assert forall j :: 1 <= j < |gl| ==> gl[j] == gl[1..][j - 1];
      if r.None? then None else Some(r.value + 1)
  }

  /** The record a new glossary string starts as: `to` under the target language and the
      original under the source language. Defining the same, non-writable property twice
      with different values throws, so a target equal to the source fails unless the two
      values agree. */
  function NewRecord(from: Json, to: string, target: string, source: string): (r: Result<Entry>)
    ensures r.Ok? <==> target != source || Str(to) == from
    ensures r.Ok? ==> r.value.Keys == {target, source} && Holds(r.value, target, Str(to)) && Holds(r.value, source, from)
  {
    if target == source && Str(to) != from then Err("TypeError: Cannot redefine property: " + target)
    else Ok(map[target := Str(to)][source := from])
  }

  /** `addToGlossary(from, to, glossary, target, source)`: the first record whose source
      text is `from` gets `to` as its target text and loses its `id` field (the document
      id is passed separately to the store); with no such record, a new one is added. */
  function Upsert(gl: seq<Entry>, from: Json, to: string, target: string, source: string): (r: Result<seq<Entry>>)
    ensures FindFirst(gl, SourceIs(source, from)).Some? ==> r.Ok? && |r.value| == |gl|
    ensures FindFirst(gl, SourceIs(source, from)).None? ==> (r.Ok? <==> NewRecord(from, to, target, source).Ok?)
    ensures FindFirst(gl, SourceIs(source, from)).None? && r.Ok? ==> r.value == gl + [NewRecord(from, to, target, source).value]
    ensures FindFirst(gl, SourceIs(source, from)).None? && r.Err? ==> r.message == NewRecord(from, to, target, source).message
  {
    match FindFirst(gl, SourceIs(source, from))
    case None =>
      (match NewRecord(from, to, target, source)
       case Ok(e) => Ok(gl + [e])
       case Err(m) => Err(m))
    case Some(j) => Ok(gl[j := (gl[j] - {"id"})[target := Str(to)]])
  }

  /** With a matching record, only the first match is rewritten: it keeps every other
      language, drops `id`, and holds `to` under the target language. */
  lemma UpsertRewritesFirstMatch(gl: seq<Entry>, from: Json, to: string, target: string, source: string, j: nat)
    requires FindFirst(gl, SourceIs(source, from)) == Some(j)
    ensures var r := Upsert(gl, from, to, target, source);
      && r.Ok? && |r.value| == |gl|
      && (forall k :: 0 <= k < |gl| && k != j ==> r.value[k] == gl[k])
      && r.value[j].Keys == (gl[j].Keys - {"id"}) + {target}
      && Holds(r.value[j], target, Str(to))
      && (forall lang :: lang in gl[j] && lang != target && lang != "id" ==> Holds(r.value[j], lang, gl[j][lang]))
  {
  }

  /** Without a matching record, exactly one record is appended and the others stay. */
  lemma UpsertAddsWhenAbsent(gl: seq<Entry>, from: Json, to: string, target: string, source: string)
    requires FindFirst(gl, SourceIs(source, from)).None?
    requires target != source || Str(to) == from
    ensures var r := Upsert(gl, from, to, target, source);
      && r.Ok? && |r.value| == |gl| + 1 && r.value[..|gl|] == gl
      && r.value[|gl|].Keys == {target, source}
      && Holds(r.value[|gl|], target, Str(to)) && Holds(r.value[|gl|], source, from)
  {
  }

  /** After a successful upsert with distinct languages (neither of them `id`), the first
      record whose source text is `from` holds `to` as its target text. */
  lemma UpsertEstablishesPair(gl: seq<Entry>, from: Json, to: string, target: string, source: string)
    requires target != source && source != "id"
    ensures var r := Upsert(gl, from, to, target, source);
      && r.Ok?
      && var f := FindFirst(r.value, SourceIs(source, from));
      && f.Some?
      && Holds(r.value[f.value], target, Str(to))
      && ("id" in r.value[f.value] ==> target == "id")
  {
    var p := SourceIs(source, from);
    var r := Upsert(gl, from, to, target, source);
    match FindFirst(gl, p)
    case None =>
      assert p(r.value[|gl|]);
      var f := FindFirst(r.value, p);
      assert forall k :: 0 <= k < |gl| ==> r.value[k] == gl[k];
      assert f.value == |gl|;
    case Some(j) =>
      assert p(r.value[j]);
      var f := FindFirst(r.value, p);
      assert forall k :: 0 <= k < j ==> r.value[k] == gl[k];
      assert f.value == j;
  }

  /** Saving the same string twice leaves the glossary as the first save left it. */
  lemma UpsertIsIdempotent(gl: seq<Entry>, from: Json, to: string, target: string, source: string)
    requires target != source && source != "id"
    ensures var r := Upsert(gl, from, to, target, source);
      r.Ok? && Upsert(r.value, from, to, target, source) == r
  {
    var r := Upsert(gl, from, to, target, source);
    UpsertEstablishesPair(gl, from, to, target, source);
    var f := FindFirst(r.value, SourceIs(source, from)).value;
    var e := r.value[f];
    assert (e - {"id"})[target := Str(to)] == e;
    assert r.value[f := e] == r.value;
  }

  /** A stored document: its id and its fields. */
  datatype Doc = Doc(id: string, data: Entry)

  /** `loadGlossary()`: `None` stands for a failed read. Each record is the document's
      fields with its `id` in front, a field named `id` in the data taking precedence. */
  function LoadGlossary(read: Option<seq<Doc>>): (gl: seq<Entry>)
    ensures read.None? ==> gl == []
    ensures read.Some? ==> |gl| == |read.value|
    ensures read.Some? ==> forall i :: 0 <= i < |gl| ==>
      && "id" in gl[i]
      && ("id" !in read.value[i].data ==> gl[i]["id"] == Str(read.value[i].id))
      && (forall lang :: lang != "id" ==> (lang in gl[i] <==> lang in read.value[i].data))
      && (forall lang :: lang in read.value[i].data ==> gl[i][lang] == read.value[i].data[lang])
  {
    if read.None? || read.value == [] then []
    else
      var docs := read.value;
      seq(|docs|, i requires 0 <= i < |docs| => map["id" := Str(docs[i].id)] + docs[i].data)
  }

  /** Rewriting a loaded record stores exactly the document's fields again, apart from the
      `id` field and the new target text. */
  lemma LoadThenUpsertStoresFields(d: Doc, from: Json, to: string, target: string, source: string)
    requires Holds(d.data, source, from) || (source != "id" && Holds(map["id" := Str(d.id)] + d.data, source, from))
    ensures var gl := LoadGlossary(Some([d]));
      var r := Upsert(gl, from, to, target, source);
      r.Ok? && r.value == [(d.data - {"id"})[target := Str(to)]]
  {
    var gl := LoadGlossary(Some([d]));
    assert Holds(gl[0], source, from);
    assert (gl[0] - {"id"}) == (d.data - {"id"});
  }
}
