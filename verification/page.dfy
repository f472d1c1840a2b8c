/** The translation page as a state machine: each handler of `src/pages/Home.js` (and of
    the older `src/Translator.js`) is one atomic transition of the page state. The
    remote service is the given sequence of replies and the glossary is the in-memory
    list of records. The page uses the corrected request chain and the corrected
    reinjection. */
module Page {
  import opened Wrappers
  import opened JsonTree
  import opened TreeWalk
  import opened KeyCatalogue
  import opened Extraction
  import opened Batching
  import opened BatchChain
  import opened SourceLanguage
  import opened Glossary
  import opened Overlay
  import opened Reinjection

  /** `translationStatus`: `null`, `'progress'` or `'done'`. */
  datatype Status = Idle | InProgress | Done

  /** The page's state: the uploaded document (`file.data`), the key catalogue, the
      status, the items shown (`translationKeys`), the error shown, and the languages. */
  datatype PageState = PageState(doc: Option<Json>, keys: seq<KeyStat>, status: Status, items: seq<Item>,
                       error: Option<string>, source: string, target: string)

  /** The state before any file is uploaded. */
  const Initial: PageState := PageState(None, [], Idle, [], None, "", "_")

  /** The items list the same leaves as `es`, in the same order. */
  predicate SameLeaves(items: seq<Item>, es: seq<Item>) {
    |items| == |es| && forall i :: 0 <= i < |items| ==> items[i].key == es[i].key && items[i].from == es[i].from
  }

  /** What extraction lists for the current document and selection; with no document,
      `file.data` is `undefined`, which lists nothing. */
  function Extracted(p: PageState): seq<Item> {
    ExtractDocument(p.doc.GetOr(Null), SelectedKeys(p.keys))
  }

  /** The page invariant: without a document there is nothing to show, and the items
      shown, if any, are the leaves extraction lists for the current document and the
      current selection. It is what makes the download sound. */
  predicate Consistent(p: PageState) {
    && (p.doc.None? ==> p.keys == [] && p.items == [])
    && (p.items == [] || SameLeaves(p.items, Extracted(p)))
  }

  lemma InitialIsConsistent()
    ensures Consistent(Initial)
  {
  }

  /** `cleanup`: removing the file clears the document, the catalogue, the items, the
      status and the error; the languages stay. */
  function Cleanup(p: PageState): (r: PageState)
    ensures Consistent(r)
    ensures r.doc.None? && r.keys == [] && r.items == [] && r.status == Idle && r.error.None?
    ensures r.source == p.source && r.target == p.target
  {
    PageState(None, [], Idle, [], None, p.source, p.target)
  }

  /** A successful upload (the drop area is shown only while no file is loaded): the
      document and its catalogue are stored and the error cleared. The status and the
      items are left as they were. */
  function Upload(p: PageState, doc: Json): (r: PageState)
    requires p.doc.None?
    ensures r.doc == Some(doc) && r.error.None?
    ensures r.keys == GetKeys(doc)
    ensures r.items == p.items && r.status == p.status
    ensures Consistent(p) ==> Consistent(r)
  {
    p.(doc := Some(doc), keys := GetKeys(doc), error := None)
  }

  /** Right after an upload nothing is checked, so translating would list every truthy
      leaf of the document, one per catalogued occurrence. */
  lemma UploadSelectsEveryLeaf(p: PageState, doc: Json)
    requires p.doc.None?
    ensures Extracted(Upload(p, doc)) == PendingItems(DocumentLeaves(doc))
    ensures |Extracted(Upload(p, doc))| == SumCounts(Upload(p, doc).keys)
  {
    UncheckedCatalogueSelectsEveryLeaf(doc);
  }

  /** `checkKey(i)`: key `i` is toggled and the current translation discarded. */
  function CheckKey(p: PageState, i: nat): (r: PageState)
    requires i < |p.keys|
    ensures |r.keys| == |p.keys|
    ensures r.keys[i].checked == !p.keys[i].checked
    ensures r.keys[i].key == p.keys[i].key && r.keys[i].count == p.keys[i].count
    ensures forall j :: 0 <= j < |p.keys| && j != i ==> r.keys[j] == p.keys[j]
    ensures r.items == [] && r.status == Idle
    ensures r.doc == p.doc && r.error == p.error && r.source == p.source && r.target == p.target
    ensures Consistent(p) ==> Consistent(r)
  {
    p.(keys := p.keys[i := p.keys[i].(checked := !p.keys[i].checked)], items := [], status := Idle)
  }

  /** Toggling the same key twice restores the catalogue. */
  lemma CheckKeyTwiceRestoresKeys(p: PageState, i: nat)
    requires i < |p.keys|
    ensures CheckKey(CheckKey(p, i), i).keys == p.keys
  {
  }

  /** Choosing the target language. The older page also discards the current
      translation; the current page keeps it. */
  function ChangeTarget(copy: Copy, p: PageState, target: string): (r: PageState)
    ensures r.target == target
    ensures copy == Translator ==> r.items == [] && r.status == Idle
    ensures copy == Home ==> r.items == p.items && r.status == p.status
    ensures r.doc == p.doc && r.keys == p.keys && r.error == p.error && r.source == p.source
    ensures Consistent(p) ==> Consistent(r)
  {
    match copy
    case Translator => p.(target := target, items := [], status := Idle)
    case Home => p.(target := target)
  }

  /** The request chain `translate` runs for the current selection. */
  function ChainOf(copy: Copy, p: PageState, replies: seq<Reply>): Run {
    RunChainAligned(copy, Texts(Extracted(p)), replies)
  }

  /** `translate()`. The current page without an API key shows the extracted items at
      once. Otherwise the chain runs over the given replies: while it waits the page
      stays in progress with the items it had; when it stops, the error is shown and the
      page stays in progress, as after a rejection; when it finishes, the detected source
      language is updated and the items are the extracted ones overlaid with the
      translations and the glossary. */
  function Translate(copy: Copy, p: PageState, hasKey: bool, replies: seq<Reply>, gl: seq<Entry>): (r: PageState)
    ensures r.doc == p.doc && r.keys == p.keys && r.target == p.target
    ensures Consistent(p) ==> Consistent(r)
    ensures r.status == Done <==> (copy == Home && !hasKey) || ChainOf(copy, p, replies).ending == Finished
    ensures r.status != Done ==> r.status == InProgress && r.items == p.items && r.source == p.source
    ensures r.status == Done ==> SameLeaves(r.items, Extracted(p)) && r.error.None?
    ensures copy == Home && !hasKey ==> r.items == Extracted(p) && r.source == p.source
    ensures r.error.Some? <==> r.status != Done && ChainOf(copy, p, replies).ending == Stopped
  {
    var items := Extracted(p);
    var start := p.(error := None, status := InProgress);
    if copy == Home && !hasKey then
      start.(items := items, status := Done)
    else
      var run := ChainOf(copy, p, replies);
      match run.ending
      case Waiting => start
      case Stopped => start.(error := run.error)
      case Finished =>
        start.(items := Finalize(copy, items, run.results, gl, p.target),
               source := NextSource(run.results, p.source),
               status := Done)
  }

  /** A finished translation shows the extracted items overlaid with the gathered
      translations, and the source language comes from their detected codes. */
  lemma FinishedTranslationIsOverlay(copy: Copy, p: PageState, hasKey: bool, replies: seq<Reply>, gl: seq<Entry>)
    requires hasKey || copy == Translator
    requires ChainOf(copy, p, replies).ending == Finished
    ensures var run := ChainOf(copy, p, replies);
      var r := Translate(copy, p, hasKey, replies, gl);
      && r.items == Finalize(copy, Extracted(p), run.results, gl, p.target)
      && r.source == NextSource(run.results, p.source)
  {
  }

  /** After a finished translation, item `i` shows the glossary text or the automatic
      translation of entry `i % 100` of the reply to request `i / 100`, the request
      that carried the item's own text at that position. */
  lemma TranslatedItemsAnswerTheirOwnText(copy: Copy, p: PageState, hasKey: bool, replies: seq<Reply>, gl: seq<Entry>)
    requires hasKey || copy == Translator
    requires ChainOf(copy, p, replies).ending == Finished
    ensures var r := Translate(copy, p, hasKey, replies, gl);
      var es := Extracted(p);
      var run := ChainOf(copy, p, replies);
      && |run.results| == |es| == |r.items|
      && (forall i :: 0 <= i < |es| ==>
            && Answers(replies, i, run.results[i])
            && Overlaid(copy, es[i], Some(run.results[i]), gl, p.target, r.items[i]))
  {
    var es := Extracted(p);
    var run := ChainOf(copy, p, replies);
    var r := Translate(copy, p, hasKey, replies, gl);
    FinishedTranslationIsOverlay(copy, p, hasKey, replies, gl);
    FinishedChainAnswersEveryText(copy, Texts(es), replies);
    if es != [] {
      assert run.results != [];
      assert r.items == OverlayResults(copy, es, run.results, gl, p.target);
      forall i | 0 <= i < |es| ensures Overlaid(copy, es[i], Some(run.results[i]), gl, p.target, r.items[i]) {
        assert ResultAt(run.results, i) == Some(run.results[i]);
      }
    }
  }

  /** After a finished translation of at least one text, the source language is the
      dominant detected code of the translations. */
  lemma FinishedTranslationDetectsSource(copy: Copy, p: PageState, hasKey: bool, replies: seq<Reply>, gl: seq<Entry>)
    requires hasKey || copy == Translator
    requires ChainOf(copy, p, replies).ending == Finished
    requires Extracted(p) != []
    ensures Dominant(DetectedCodes(ChainOf(copy, p, replies).results), Translate(copy, p, hasKey, replies, gl).source)
  {
    FinishedTranslationIsOverlay(copy, p, hasKey, replies, gl);
  }

  /** The file downloaded: `makeFile` on the uploaded document; with no document the
      deep copy of `undefined` throws, modelled as `None`. */
  function Download(p: PageState): (r: Option<Json>)
    ensures r.Some? <==> p.doc.Some?
    ensures p.doc.Some? && p.items == [] ==> r == p.doc
  {
    if p.doc.None? then None else Some(MakeFile(p.doc.value, p.items))
  }

  /** On a consistent page the download writes item `i`'s translation into the leaf
      extraction listed `i`-th, and nowhere else. */
  lemma DownloadFollowsExtraction(p: PageState)
    requires Consistent(p) && p.doc.Some? && p.items != []
    ensures Download(p) == Some(AsElement(Fill("", p.doc.value, SelectedKeys(p.keys), p.items, 0).0))
    ensures Place("", p.doc.value, p.items, 0).1 == |p.items|
  {
    MakeFileFollowsExtraction(p.doc.value, SelectedKeys(p.keys), p.items);
  }

  /** On a consistent page whose selected leaves are texts and whose items all carry
      non-empty text translations, extracting again from the downloaded file lists the
      translations in order. */
  lemma DownloadShowsTranslations(p: PageState)
    requires Consistent(p) && p.doc.Some? && p.items != []
    requires TextOriginals(Extracted(p)) && TextTranslations(p.items, 0)
    ensures ExtractDocument(Download(p).value, SelectedKeys(p.keys)) == Retranslated(p.items)
  {
    ReextractionShowsTranslations(p.doc.value, SelectedKeys(p.keys), p.items);
  }

  /** `newTranslation(value, i, save)` on the page (`saved` is the glossary the save
      resolves to, `None` when it is rejected). */
  function EditTranslation(p: PageState, i: nat, value: string, save: bool, saved: Option<seq<Entry>>): (r: PageState)
    requires i < |p.items|
    ensures SameLeaves(r.items, p.items)
    ensures !save ==> r.items[i].to == Some(Str(value)) && r.items[i].manual
    ensures !save ==> forall k :: 0 <= k < |p.items| && k != i ==> r.items[k] == p.items[k]
    ensures r.doc == p.doc && r.keys == p.keys && r.status == p.status
    ensures Consistent(p) ==> Consistent(r)
  {
    p.(items := NewTranslation(p.items, i, value, save, saved, p.source, p.target))
  }

  /** `handleGlossary` on the page after a glossary change: applied only when something
      is shown. */
  function ApplyGlossary(p: PageState, gl: seq<Entry>): (r: PageState)
    ensures SameLeaves(r.items, p.items)
    ensures p.items == [] ==> r == p
    ensures r.doc == p.doc && r.keys == p.keys && r.status == p.status
    ensures Consistent(p) ==> Consistent(r)
  {
    if p.items == [] then p else p.(items := HandleGlossary(p.items, gl, p.source, p.target))
  }

  /** Applying the same glossary again changes nothing. */
  lemma ApplyGlossaryIsIdempotent(p: PageState, gl: seq<Entry>)
    ensures ApplyGlossary(ApplyGlossary(p, gl), gl) == ApplyGlossary(p, gl)
  {
    if p.items != [] {
      HandleGlossaryIsIdempotent(p.items, gl, p.source, p.target);
    }
  }
}
