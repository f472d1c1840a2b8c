# JSON translation page — a Dafny model

This project models the core of a small React application that translates the string
values of an uploaded JSON file:

- The translation page (`src/pages/Home.js`, and its older copy `src/Translator.js`) walks the
  uploaded document and catalogues its keys with a count for each. It extracts the leaves of
  the keys the user checked and sends their texts to a translation service in requests of at
  most 100 texts, one request after the other. It overlays glossary strings on the answers,
  guesses the source language from the languages the service detected, lets the user edit a
  translation by hand, and writes the translations back into a copy of the document for
  download.
- The glossary store (`src/firebase.js`) loads the glossary records and upserts a record for
  a saved manual translation.
- The glossary record editor (`src/components/GlossaryPopup.js`) and its language drop-down
  (`src/components/LanguageSelect.js`) edit a record as one line per language, and build the
  record on save.

The central property is that extraction and reinjection are two separately written walks
that must meet the selected leaves in the same order. The model states the extraction walk
once as a pure traversal (`TreeWalk`). It proves that the extraction walk lists exactly that
traversal's selected leaves (`Extraction`). It proves that the intended reinjection writes
item `i` into the `i`-th of those leaves and nowhere else, so extracting again from the
written file lists the translations (`Reinjection`). The reinjection as the code is written
is modelled separately (`ReinjectionAsWritten`), and so is the request chain as the code is
written (`BatchChain.RunChain`). Both differ from what is intended; see "Findings".

Modules, in dependency order:

- `wrappers.dfy`: `Option` and `Result`.
- `json_tree.dfy`: JSON values and JavaScript truthiness.
- `number_text.dfy`: `toString` and `Number` on integers.
- `tree_walk.dfy`: the shared depth-first traversal.
- `key_catalogue.dfy`: `getKeys`.
- `extraction.dfy`: the walk inside `translate`.
- `batching.dfy`: the split into slices of 100.
- `batch_chain.dfy`: `recursiveTranslation`, as written and as intended.
- `source_language.dfy`: the detected source language.
- `placeholders.dfy`: `replacements`.
- `glossary.dfy`: `loadGlossary` and `addToGlossary`.
- `overlay.dfy`: the glossary overlay, `handleGlossary`, `newTranslation` and the character count.
- `reinjection.dfy`: `makeFile` as intended.
- `reinjection_as_written.dfy`: `makeFile` as written.
- `page.dfy`: the page's handlers as transitions of one state.
- `language_select.dfy`: the drop-down.
- `glossary_popup.dfy`: the record editor.

Several inputs of the system are parameters of the model:

- The replies of the translation service are a given sequence, `replies[ind]` answering
  request `ind`.
- The stored glossary documents are a given list, or `None` for a failed read.
- The list of supported languages (the application's `lang.json`) is a given sequence.
- Whether an API key is set is a boolean.

## Model

| member | source | states |
|---|---|---|
| Batching.PartsOf | src/pages/Home.js:225 | the number of slices covers all texts, one slice fewer does not, and it is zero exactly for no texts |
| Batching.PartsIsCeiling | src/pages/Home.js:225 | the slice count equals the rounded-up quotient `Math.ceil(n / 100)` |
| Batching.SliceOf | src/pages/Home.js:243 | a slice never holds more than the cap |
| Batching.BatchesPartitionTexts | src/pages/Home.js:241-243 | every requested slice holds 1 to 100 texts, all but the last are full, later slices are empty, and the slices joined in order give back the texts |
| Batching.SliceLength | src/pages/Home.js:243 | request `ind` starts inside the texts, and its slice reaches the next boundary or the end, whichever comes first |
| Batching.BatchHoldsText | src/pages/Home.js:243 | text `i` is sent at position `i % 100` of request `i / 100` |
| Batching.JoinedIsPrefix | src/pages/Home.js:243 | the first `k` slices joined are the prefix of the texts up to `k * cap` |
| Batching.InBatchesIsMapOfJoined | src/pages/Home.js:223-225 | translating slice by slice gives the per-text translation of the joined slices |
| Batching.BatchSizeDoesNotMatter | src/pages/Home.js:223-225 | for a per-text translator, translating in slices of any size gives the same sequence as translating each text on its own |
| BatchChain.FailureText | src/pages/Home.js:261 | the error recorded for a reply without translations is never empty: the service's message on the current page when it has one, the default text otherwise |
| BatchChain.Continue | src/pages/Home.js:241-330 | the chain only adds requests, each added request `j` is slice `j`, and it sends at most one request per reply plus one |
| BatchChain.Handle | src/pages/Home.js:255-262 | a reply with an array appends it to the gathered translations; one without records the service's message, or the default text, as the error |
| BatchChain.Next | src/pages/Home.js:322-325 | after a handled reply that is not for the last slice, the next slice is requested |
| BatchChain.ContinueSends | src/pages/Home.js:264-325 | every reply followed by a further request reached the `.then` handler, and the chain never requests more slices than there are |
| BatchChain.ContinueEnds | src/pages/Home.js:264-329 | the chain waits exactly when replies ran out, stops exactly at a rejection, and finishes exactly at a handled reply to the last slice |
| BatchChain.ContinueWaits | src/pages/Home.js:241-330 | the chain is left waiting exactly when every given reply was used |
| BatchChain.ContinueStops | src/pages/Home.js:327-329 | the chain stops exactly when the reply to its last request was a rejection |
| BatchChain.ContinueFinishes | src/pages/Home.js:264-266 | the chain finishes exactly when its last request was the last slice and its reply was handled |
| BatchChain.ContinueGathers | src/pages/Home.js:255-259 | the gathered translations are the arrays of the handled replies, in request order |
| BatchChain.RunChain | src/pages/Home.js:332 | `recursiveTranslation(0)`: request `j` is slice `j`, and the run waits, stops or finishes under the conditions above |
| BatchChain.FinishesExactlyWhenEverySliceIsAnswered | src/pages/Home.js:264-266 | the chain finishes iff there is a text, every slice has a reply and none of those replies was a rejection; it then sent one request per slice |
| BatchChain.EmptyTextsNeverFinish | src/pages/Home.js:225 | with nothing to translate, the chain never finishes and keeps requesting as long as replies come |
| BatchChain.FailedSliceShiftsLaterResults | src/pages/Home.js:255-262 | with 101 texts and a failed first reply, the chain still finishes, and the one answer for text 100 becomes the first gathered translation |
| BatchChain.AnswersExtend | src/pages/Home.js:291-299 | appending a complete answer to slice `ind` keeps every gathered translation paired with the text at its own index |
| BatchChain.ContinueAligned | src/pages/Home.js:241-330 | the intended chain: every gathered translation answers the text at its own index, it stops at the first incomplete reply with an error, and it finishes only with one translation per text |
| BatchChain.RunChainAligned | src/pages/Home.js:225-332 | the intended chain from the start: with no text it finishes without any request; otherwise the guarantees of the intended chain hold |
| BatchChain.AlignedChainStopsAtFailedSlice | src/pages/Home.js:255-262 | in the 101-text scenario the intended chain stops at the failed reply and gathers nothing |
| BatchChain.FinishedChainAnswersEveryText | src/pages/Home.js:291-299 | when the intended chain finishes, every text was sent and its gathered translation is the reply entry at its own position |
| TreeWalk.Leaves | src/pages/Home.js:126-138 | every leaf the traversal lists is a truthy scalar: a non-empty string, a non-zero number or `true` |
| KeyCatalogue.Unique | src/pages/Home.js:143 | `Array.from(new Set(s))` has no repeats and has the same elements as `s` |
| KeyCatalogue.UniqueKeepsFirstVisitOrder | src/pages/Home.js:143 | the distinct keys are listed in the order of their first occurrence |
| KeyCatalogue.GetKeys | src/pages/Home.js:120-155 | one unchecked entry per distinct leaf key, in order, with the number of leaves under that key |
| KeyCatalogue.CatalogueIsFaithful | src/pages/Home.js:141-151 | the catalogue keys are exactly the keys of truthy leaves, distinct and in first-visit order; each entry counts at least one leaf; the counts add up to the number of leaves |
| KeyCatalogue.CatalogueListsLeafKeys | src/pages/Home.js:141-143 | the catalogue keys are the distinct leaf keys, in first-visit order |
| KeyCatalogue.CatalogueCountsLeaves | src/pages/Home.js:144-151 | every count is at least one and the counts add up to the number of truthy leaves |
| Extraction.SelectedKeys | src/pages/Home.js:192-193 | the selection is the checked keys when any key is checked, and every catalogued key otherwise |
| Extraction.CheckedKeys | src/pages/Home.js:192 | a key is listed iff some checked entry has it |
| Extraction.PendingItems | src/pages/Home.js:211-216 | one item per leaf, translation equal to the original, not from the glossary |
| Extraction.Extract | src/pages/Home.js:199-216 | every item listed is a truthy leaf under a selected key, its translation still the original and not from the glossary, and a leaf yields at most one item |
| Extraction.ExtractIn | src/pages/Home.js:200-202 | every item listed for an array's elements is such a pending selected leaf |
| Extraction.ExtractAmong | src/pages/Home.js:203-207 | every item listed for an object's members is such a pending selected leaf |
| Extraction.ExtractMember | src/pages/Home.js:205-206 | every item listed for one member is such a pending selected leaf |
| Extraction.ExtractDocument | src/pages/Home.js:199-218 | every item listed for the document is such a pending selected leaf, and a document that is a single value yields at most one item |
| Extraction.ExtractIsSelectedLeaves | src/pages/Home.js:199-218 | the extraction walk lists exactly the selected leaves of the shared traversal, in the same order |
| Extraction.ExtractInIsSelectedLeaves | src/pages/Home.js:200-202 | the same for the elements of an array, which inherit the array's key |
| Extraction.ExtractAmongIsSelectedLeaves | src/pages/Home.js:203-207 | the same for the members of an object, in stored order |
| Extraction.ExtractMemberIsSelectedLeaves | src/pages/Home.js:205-206 | the same for one member under its own key |
| Extraction.SelectingEveryKeyKeepsAll | src/pages/Home.js:192 | selecting every key of the leaves keeps every leaf |
| Extraction.UncheckedCatalogueSelectsEveryLeaf | src/pages/Home.js:192-218 | with nothing checked, extraction lists every truthy leaf, as many as the catalogue's counts add up to |
| Extraction.Texts | src/pages/Home.js:221 | strings are sent as they are and numbers as text that reads back as the same number |
| NumberText.ParseIntText | src/pages/Home.js:221 | reading back the text of an integer gives the integer |
| NumberText.ParseInteger | src/pages/Home.js:385 | `Number(to)` on integer text: white space around it is ignored, blank text is 0, a signed decimal is that integer, and `0x`/`0o`/`0b` read their base; no contract of its own: the lemmas below state each case for every input |
| NumberText.Trim | src/pages/Home.js:385 | what `Number` reads after stripping white space: no longer than the argument, and neither starting nor ending with white space |
| NumberText.TrimAround | src/pages/Home.js:385 | white space on either side of a text that neither starts nor ends with white space is exactly what is stripped |
| NumberText.BlankIsZero | src/pages/Home.js:385 | text made only of white space, the empty text included, reads as 0 |
| NumberText.ParsePaddedIntText | src/pages/Home.js:385 | the text of any integer with any white space around it reads back as that integer |
| NumberText.RadixText | src/pages/Home.js:385 | `0x`, `0o` or `0b` in either case followed by digits of that base reads as their value in that base |
| NumberText.RadixExamples | src/pages/Home.js:385 | `0x1A` is 26, `0o17` is 15 and `0b101` is 5 |
| NumberText.MalformedRadixIsNaN | src/pages/Home.js:385 | a sign before the prefix, a prefix without digits, or a digit outside the base gives NaN |
| NumberText.TextOf | src/pages/Home.js:221 | the text of a string is the string, and the text of a number reads back as that number |
| JsonTree.Utf16Length | src/pages/Home.js:313 | `length` of a string counts UTF-16 code units: at least one and at most two per character |
| JsonTree.Utf16LengthAppend | src/pages/Home.js:313 | the length of joined texts is the sum of their lengths |
| JsonTree.Utf16LengthOfPlainText | src/pages/Home.js:313 | text within the Basic Multilingual Plane has one code unit per character |
| JsonTree.AstralCharacterIsTwoUnits | src/pages/Home.js:313 | an emoji is one character but has length 2 |
| NumberText.NumberOf | src/pages/Home.js:385 | `Number(to)` gives back a number from its text form, reads blank text as 0, treats `null` as 0, and makes `undefined` NaN, written as `null` |
| SourceLanguage.FirstLargest | src/pages/Home.js:281 | the head of a stable sort by count, highest first, is the first largest count |
| SourceLanguage.Tallies | src/pages/Home.js:273-279 | one tally per distinct detected language, in first-detection order, equal to its number of detections |
| SourceLanguage.Leading | src/pages/Home.js:273-285 | there is a leading language exactly when some language was detected, and it is one of the detected languages |
| SourceLanguage.LeadingIsDominant | src/pages/Home.js:270-287 | the language at the head of the sorted tallies is detected most often, and every language detected first is detected strictly less often |
| SourceLanguage.DominantIsUnique | src/pages/Home.js:281-287 | at most one language meets that description |
| SourceLanguage.NextSource | src/pages/Home.js:285-287 | after the last slice the source is the dominant detected language, or unchanged when nothing came back |
| SourceLanguage.UnanimousDetectionWins | src/pages/Home.js:283-287 | a language detected for every text becomes the source |
| Glossary.FindFirst | src/firebase.js:41 | the index of the first record satisfying the test, with none before it, or none at all |
| Glossary.NewRecord | src/firebase.js:44-48 | a new record holds exactly the target and source texts, and defining the same language twice with different values fails |
| Glossary.Upsert | src/firebase.js:38-57 | with a match the glossary keeps its length; without one, the new record is appended or its failure is passed on |
| Glossary.UpsertRewritesFirstMatch | src/firebase.js:50-55 | only the first match changes: it loses `id`, keeps every other language and gets the new target text |
| Glossary.UpsertAddsWhenAbsent | src/firebase.js:44-48 | without a match exactly one record holding the two texts is appended and the others stay |
| Glossary.UpsertEstablishesPair | src/firebase.js:38-57 | afterwards the first record with that source text holds the new target text |
| Glossary.UpsertIsIdempotent | src/firebase.js:38-57 | saving the same string twice gives what the first save gave |
| Glossary.LoadGlossary | src/firebase.js:26-35 | one record per stored document, holding its fields and its id (a stored `id` field wins); a failed read gives no records |
| Glossary.LoadThenUpsertStoresFields | src/firebase.js:50-55 | rewriting a loaded record stores the document's fields again without `id`, with the new target text |
| Overlay.TargetText | src/pages/Home.js:303 | the target text of the first matching record when it is truthy; later records are never consulted |
| Overlay.FirstSatisfying | src/pages/Home.js:296 | the position of the first record that matches; no contract of its own: Overlay.TargetText uses it to promise that only the first match is consulted |
| Overlay.MatchesOriginal | src/pages/Home.js:296 | a record matches when its English text or its text in the detected language is the original; no contract of its own, used by Overlay.TargetText |
| Overlay.LangField | src/pages/Home.js:293 | the field read for the detected language, `undefined` when the item has no answer; no contract of its own |
| Overlay.Automatic | src/Translator.js:273 | the current page takes the service's text (`undefined` without a result); the older page always gets a string |
| Overlay.OverlayItem | src/pages/Home.js:291-312 | key, original and manual flag are kept; a glossary hit gives the record's text and the flag; otherwise the automatic text without the flag |
| Overlay.OverlayResults | src/pages/Home.js:291-312 | item `i` is overlaid with result `i` for every item |
| Overlay.Finalize | src/pages/Home.js:289-319 | with no translation back, the extracted items are shown as they are; otherwise the overlay, with keys and originals kept |
| Overlay.PagesDifferOnlyInAutomaticText | src/Translator.js:262-286 | both pages agree on glossary hits and their text; otherwise the older page's text is the current page's text passed through `replacements` |
| Overlay.HandleGlossary | src/pages/Home.js:97-117 | an item whose original is the source text of the first matching record with a truthy target text takes that text and the flag; every other item keeps its text and loses the flag |
| Overlay.HandleGlossaryIsIdempotent | src/pages/Home.js:97-117 | applying the same glossary twice changes nothing more |
| Overlay.Edited | src/pages/Home.js:411-416 | only item `i` changes: it gets the new text, and it is flagged manual unless it is saved |
| Overlay.NewTranslation | src/pages/Home.js:409-429 | without saving only item `i` changes; a rejected save changes nothing; a saved edit is not flagged manual |
| Overlay.SavedTranslationSpreads | src/pages/Home.js:417-424 | saving an edit to the glossary gives every item with the same original the new text, flagged as glossary text iff the text is non-empty |
| Overlay.CharCountOfSameOriginals | src/pages/Home.js:313 | the character count depends only on the originals, in order |
| Overlay.CharCountIsSentLength | src/pages/Home.js:313 | the character count is the total `length` of the texts sent to the service, in UTF-16 code units |
| Overlay.CharCountUnchanged | src/Translator.js:331 | neither the overlay nor a glossary change alters the character count |
| Overlay.CharCount | src/pages/Home.js:313 | the usage count (also src/Translator.js:331), in UTF-16 code units; no contract of its own: Overlay.CharCountIsSentLength proves it is the total length of the texts sent, and Overlay.CharCountUnchanged that the overlay and glossary changes keep it |
| Overlay.CharCountCountsCodeUnits | src/pages/Home.js:313 | an original that is one emoji counts 2 |
| Placeholders.Replacements | src/Translator.js:307-308 | a missing translation becomes the empty text |
| Placeholders.ReplaceAll | src/Translator.js:323-324 | one global case-insensitive replacement; no contract of its own: ReplaceAllLeftmost and ReplaceAllWithoutMatch characterise it for every input, and the lemmas below state when it leaves the text alone and that it never lengthens it |
| Placeholders.ApplyAll | src/Translator.js:322-325 | the corrections applied in turn, each one a `ReplaceAll` that ReplaceAllLeftmost and ReplaceAllWithoutMatch characterise; no contract of its own: the two ApplyAll lemmas below state when it leaves the text alone and that it never lengthens it |
| Placeholders.ReplaceAllLeftmost | src/Translator.js:323-324 | for any text `a + m + b` where `m` matches and no match starts inside `a`, the result is `a`, the replacement, then the replacement applied to `b`: the leftmost match is replaced, the rest before it is kept, and scanning resumes after it |
| Placeholders.ReplaceAllWithoutMatch | src/Translator.js:323-324 | a text in which no match starts is left as it is |
| Placeholders.ReplaceAllResumesAfterMatch | src/Translator.js:323-324 | matches never overlap: `%см%см%` becomes `%cm%см%` |
| Placeholders.ReplaceAllWithoutChar | src/Translator.js:322-325 | a text lacking some character of the pattern, in any case, is left as it is |
| Placeholders.ReplaceAllShort | src/Translator.js:322-325 | a text shorter than the pattern is left as it is |
| Placeholders.ReplaceAllNeverLengthens | src/Translator.js:322-325 | a replacement no longer than its pattern never makes the text longer |
| Placeholders.ApplyAllWithoutPercent | src/Translator.js:322-325 | patterns that start with `%` leave a text without `%` as it is |
| Placeholders.ApplyAllNeverLengthens | src/Translator.js:322-325 | applying shortening corrections in turn never makes the text longer |
| Placeholders.ReplacementsKeepPlainText | src/Translator.js:307-327 | text without `%` passes through unchanged, and no text gets longer |
| Placeholders.LaterCorrectionsKeepCm | src/Translator.js:310-315 | once `%см%` is restored to `%cm%`, the later corrections leave it alone |
| Placeholders.ReplacementsRestoreCm | src/Translator.js:310-325 | lower-case, upper-case and variant spellings of `%см%` all become `%cm%` |
| Placeholders.ReplacementsRestoreSpacedKg | src/Translator.js:314 | the spaced spelling `% кг%` becomes `%kg%` |
| Reinjection.Written | src/pages/Home.js:385 | a number leaf is written back as a number, or as NaN serialised as `null`, and the number of a numeric text; any other leaf takes the translation as it is |
| Reinjection.Place | src/pages/Home.js:351-390 | the cursor never moves back or past the end, and a container always stays in the output |
| Reinjection.PlaceIn | src/pages/Home.js:352-372 | an array keeps its length |
| Reinjection.PlaceAmong | src/pages/Home.js:373-378 | an object never gains members |
| Reinjection.PlaceMember | src/pages/Home.js:375-377 | the cursor never moves back or past the end |
| Reinjection.PlaceFollowsExtraction | src/pages/Home.js:351-390 | for items aligned with extraction, the walk writes item `c` into the `c`-th selected leaf and nowhere else, consuming one item per extracted leaf |
| Reinjection.PlaceLeafFollowsExtraction | src/pages/Home.js:380-389 | a scalar leaf takes the next item exactly when extraction listed it |
| Reinjection.PlaceInFollowsExtraction | src/pages/Home.js:352-372 | the same for the elements of an array |
| Reinjection.PlaceAmongFollowsExtraction | src/pages/Home.js:373-378 | the same for the members of an object |
| Reinjection.PlaceMemberFollowsExtraction | src/pages/Home.js:375-377 | the same for one member |
| Reinjection.MakeFile | src/pages/Home.js:337-394 | `makeFile` as intended; no contract of its own: Reinjection.MakeFileFollowsExtraction, Reinjection.MakeFileIdentity and Reinjection.ReextractionShowsTranslations state what it writes |
| Reinjection.MakeFileFollowsExtraction | src/pages/Home.js:337-394 | for items that list the extracted leaves, whatever their translations, the file is the reference filling and every item is used exactly once |
| Reinjection.ExtractedItemsAreSelectable | src/pages/Home.js:209 | every extracted item has a selected key and a truthy original |
| Reinjection.PlaceIdentity | src/pages/Home.js:351-390 | items translated to their own originals leave a value unchanged |
| Reinjection.PlaceInIdentity | src/pages/Home.js:352-372 | the same for an array's elements |
| Reinjection.PlaceAmongIdentity | src/pages/Home.js:373-378 | the same for an object's members |
| Reinjection.PlaceMemberIdentity | src/pages/Home.js:375-377 | the same for one member |
| Reinjection.MakeFileIdentity | src/pages/Home.js:342-394 | translating every item to its own original downloads the uploaded document |
| Reinjection.FillThenExtract | src/pages/Home.js:380-389 | extracting again from a filled value lists the translations in place of the originals |
| Reinjection.FillLeafThenExtract | src/pages/Home.js:380-389 | the same for a scalar leaf |
| Reinjection.FillInThenExtract | src/pages/Home.js:352-372 | the same for an array |
| Reinjection.FillElementThenExtract | src/pages/Home.js:356-371 | the same for one array element |
| Reinjection.FillAmongThenExtract | src/pages/Home.js:373-378 | the same for an object |
| Reinjection.FillMemberThenExtract | src/pages/Home.js:375-377 | the same for one member |
| Reinjection.ReextractionShowsTranslations | src/pages/Home.js:337-394 | the downloaded file, extracted again with the same selection, lists the translations in order |
| ReinjectionAsWritten.Walk | src/pages/Home.js:351-390 | the cursor never moves back; a visit not under a parent key keeps the visited value in the output, unchanged when `result` is detached from the output; the array properties written so far are read and extended only in the detached modes |
| ReinjectionAsWritten.WalkElems | src/pages/Home.js:352-372 | an array keeps its length, its elements change only when it is reached under a parent key, and then no array property is written |
| ReinjectionAsWritten.WalkElem | src/pages/Home.js:356-371 | the cursor never moves back, and a visit not under a parent key leaves the element as it is |
| ReinjectionAsWritten.WalkMembers | src/pages/Home.js:373-378 | an object never gains members |
| ReinjectionAsWritten.WalkMember | src/pages/Home.js:375-377 | the cursor never moves back |
| ReinjectionAsWritten.CharAt | src/pages/Home.js:361 | `x[index]` is a text exactly when `x` is a text and the index is below its `length` in UTF-16 code units |
| ReinjectionAsWritten.UnitAt | src/pages/Home.js:370 | the code unit at an index below the `length` is a one-character text |
| ReinjectionAsWritten.CharAtCountsCodeUnits | src/pages/Home.js:361 | index 1 of an emoji is a text, while index 1 of a one-letter text is `undefined` |
| ReinjectionAsWritten.Stored | src/pages/Home.js:385 | the value stored on an array serialises to what the intended walk writes for that leaf; a numeric leaf stores a number or NaN, and a text translation of a text leaf is stored as that text |
| ReinjectionAsWritten.ElementWrite | src/pages/Home.js:361-362 | the write to a value-matched element reaches the output exactly when `result[key]` is the array's parent entry and the element is truthy |
| ReinjectionAsWritten.ElementRef | src/pages/Home.js:370 | an element that is not matched on value is never visited under a parent key, and is visited as the output value itself exactly when its array was reached under a parent key |
| ReinjectionAsWritten.MemberRef | src/pages/Home.js:377 | object members are visited under their parent exactly when `result` is the object's parent or the object itself |
| ReinjectionAsWritten.MakeFileAsWritten | src/pages/Home.js:337-394 | with no items the copy is written as is; the cursor never passes the end of the items; a document that is a top-level array or a single value is never changed |
| ReinjectionAsWritten.WalkIdentity | src/pages/Home.js:351-390 | items translated to their own originals leave a value unchanged unless the walk throws |
| ReinjectionAsWritten.WalkElemsIdentity | src/pages/Home.js:352-372 | the same for an array's elements |
| ReinjectionAsWritten.WalkElemIdentity | src/pages/Home.js:356-371 | the same for one element |
| ReinjectionAsWritten.WalkMembersIdentity | src/pages/Home.js:373-378 | the same for an object's members |
| ReinjectionAsWritten.WalkMemberIdentity | src/pages/Home.js:375-377 | the same for one member |
| ReinjectionAsWritten.MakeFileAsWrittenIdentity | src/pages/Home.js:342-394 | translating every item to its own original downloads the uploaded document unless the walk throws |
| ReinjectionAsWritten.ParentWalkIsPlace | src/pages/Home.js:373-389 | on a value without arrays, the written walk under a key agrees with the intended one |
| ReinjectionAsWritten.ParentWalkMembersIsPlace | src/pages/Home.js:373-378 | the same for an object's members |
| ReinjectionAsWritten.ParentWalkMemberIsPlace | src/pages/Home.js:375-377 | the same for one member |
| ReinjectionAsWritten.AsWrittenAgreesWithoutArrays | src/pages/Home.js:373-393 | on an object document without arrays, the written walk never throws and writes the intended file |
| ReinjectionAsWritten.MemberUnderRootArrayIsLost | src/pages/Home.js:377 | the translation of a member of an object inside a top-level array never reaches the file, while the intended walk writes it |
| ReinjectionAsWritten.NestedArrayUnderRootArrayThrows | src/pages/Home.js:370 | an array inside an object inside a top-level array makes the written walk throw when no earlier element wrote the array property of that key |
| ReinjectionAsWritten.NestedArrayUnderRootArrayIsFilled | src/pages/Home.js:370 | the intended walk fills the same nested leaf |
| ReinjectionAsWritten.EarlierSiblingWriteIsReadBack | src/pages/Home.js:383-386 | in `[{"a":"x"},{"a":[{"b":"y"}]}]` with both leaves translated, the first element stores its translation as the array's property `a`; the second element reads it back through `result[key][index]` (line 370) and does not throw; both items are used and the file is the upload |
| ReinjectionAsWritten.EarlierSiblingExtraction | src/pages/Home.js:199-218 | in that scenario extraction lists `a` then `b` |
| ReinjectionAsWritten.EarlierSiblingWalk | src/pages/Home.js:356-386 | in that scenario the written walk uses both items and writes the upload unchanged |
| ReinjectionAsWritten.FirstObjectStoresProperty | src/pages/Home.js:383-386 | the first element stores `X` as the array's property `a` and leaves the output alone |
| ReinjectionAsWritten.SecondObjectReadsProperty | src/pages/Home.js:370-377 | the second element's nested array is reached through the stored text and walked without a write |
| ReinjectionAsWritten.HeldTextWalksInner | src/pages/Home.js:370-386 | the object inside it is walked with `result` a character of that text, and its leaf write is skipped by the `instanceof Object` guard |
| ReinjectionAsWritten.WriteIntoStoredTextThrows | src/pages/Home.js:361-362 | in `[{"a":"x"},{"a":["y"]}]` with both leaves translated, the second element assigns to a character of the stored text, which throws in strict mode |
| ReinjectionAsWritten.ScalarRootIsNotWritten | src/pages/Home.js:383 | a document that is a single string is extracted but never translated by the written walk, while the intended walk writes it |
| ReinjectionAsWritten.ArrayElementMatchedOnValueOnly | src/pages/Home.js:358 | with only `title` selected, the written walk puts the title's translation into an array element with the same text and leaves the title untranslated; the intended walk translates the title |
| ReinjectionAsWritten.ValueOnlyExtraction | src/pages/Home.js:209 | in that scenario extraction lists only the title |
| ReinjectionAsWritten.ValueOnlyAsWritten | src/pages/Home.js:358 | in that scenario the written walk translates the array element instead of the title |
| ReinjectionAsWritten.ValueOnlyCorrected | src/pages/Home.js:358 | in that scenario the intended walk translates the title and leaves the array element alone |
| Page.InitialIsConsistent | src/pages/Home.js:24-43 | the page before any upload meets the page invariant |
| Page.Cleanup | src/pages/Home.js:66-72 | removing the file clears the document, catalogue, items, status and error, keeps the languages and restores the invariant |
| Page.Upload | src/pages/Home.js:80-93 | an upload stores the document and its catalogue, clears the error and keeps the invariant |
| Page.UploadSelectsEveryLeaf | src/pages/Home.js:85 | right after an upload, translating would list every truthy leaf, as many as the catalogue counts |
| Page.CheckKey | src/pages/Home.js:158-166 | only key `i`'s check mark flips, the translation is discarded, and the invariant is kept |
| Page.CheckKeyTwiceRestoresKeys | src/pages/Home.js:160 | toggling a key twice restores the catalogue |
| Page.ChangeTarget | src/Translator.js:464-468 | the target changes; the older page discards the translation while the current page keeps it; the invariant is kept |
| Page.Translate | src/pages/Home.js:184-333 | the page is done iff there is no API key on the current page or the chain finished; it then shows the extracted leaves; a stopped chain shows its error and leaves the page in progress; the invariant is kept |
| Page.FinishedTranslationIsOverlay | src/pages/Home.js:289-319 | a finished translation shows the extracted items overlaid with the gathered translations, and takes the source language from them |
| Page.TranslatedItemsAnswerTheirOwnText | src/pages/Home.js:291-312 | after a finished translation, item `i` shows the glossary text or the answer to its own text |
| Page.FinishedTranslationDetectsSource | src/pages/Home.js:285-287 | after a finished translation of at least one text, the source is the dominant detected language |
| Page.Download | src/pages/Home.js:337-405 | a file is produced iff a document is loaded, and it is the document itself when nothing is translated |
| Page.DownloadFollowsExtraction | src/pages/Home.js:337-394 | on a consistent page the download writes item `i` into the `i`-th extracted leaf and uses every item |
| Page.DownloadShowsTranslations | src/pages/Home.js:337-394 | on a consistent page, extracting again from the download lists the translations |
| Page.EditTranslation | src/pages/Home.js:409-429 | a manual edit keeps the listed leaves and the invariant, and without saving changes only item `i` |
| Page.ApplyGlossary | src/Translator.js:61-85 | a glossary change keeps the listed leaves and the invariant, and does nothing when nothing is shown; the current page runs the same overlay only from `newTranslation` (src/pages/Home.js:97-117, 421-423) |
| Page.ApplyGlossaryIsIdempotent | src/Translator.js:61-85 | applying the same glossary twice changes nothing more |
| LanguageSelect.FindCode | src/components/LanguageSelect.js:17 | the first language with the code, or none when no language has it |
| LanguageSelect.CurrentLanguage | src/components/LanguageSelect.js:21-24 | the supported language with the current code, or the placeholder |
| LanguageSelect.SelectedValue | src/components/LanguageSelect.js:34 | the placeholder code exactly for a missing, empty or placeholder code; otherwise the code itself |
| LanguageSelect.OptionsComeFromKnownLanguages | src/components/LanguageSelect.js:16-26 | every offered language is an option, and every option is offered, the placeholder, or the supported language with the current code |
| LanguageSelect.ListGrowsByOneWhenCodeNotOffered | src/components/LanguageSelect.js:16-26 | the list grows by exactly one when the current code is not offered, and not at all otherwise |
| LanguageSelect.SelectedValueIsOffered | src/components/LanguageSelect.js:34-42 | the selected value is among the options iff the code is missing, empty or the placeholder's, or names an offered or supported language |
| LanguageSelect.InvalidOnlyForEmptyExistingLine | src/components/LanguageSelect.js:32 | only the select of an existing line without a language is marked, only after a refused save, and the add-a-line select never is |
| LanguageSelect.IsInvalid | src/components/LanguageSelect.js:32 | the select is marked after a refused save when its line exists and has no language; no contract of its own: LanguageSelect.InvalidOnlyForEmptyExistingLine states it |
| GlossaryPopup.Build | src/components/GlossaryPopup.js:53-59 | building the record succeeds iff no two lines give one language different texts; the record then holds exactly the lines' languages with their texts |
| GlossaryPopup.SaveHandler | src/components/GlossaryPopup.js:39-64 | refused iff some line lacks a text or a language; otherwise it throws iff lines conflict; otherwise it sends the lines' record with the given position |
| GlossaryPopup.Corrupt | src/components/GlossaryPopup.js:43 | a line without a text, with the placeholder code or with no code; no contract of its own: GlossaryPopup.SaveHandler refuses exactly when some line is corrupt |
| GlossaryPopup.ClickMarksCorruptLines | src/components/GlossaryPopup.js:43-50 | after a click on Save the error flag is set exactly when the button is enabled (two lines or more, lines 194-198) and some line is corrupt; a disabled button keeps the flag |
| GlossaryPopup.NotUsed | src/components/GlossaryPopup.js:68-69 | the supported languages no line uses, and no more of them than are supported |
| GlossaryPopup.NotUsedDistributes | src/components/GlossaryPopup.js:69 | filtering a concatenation filters each part, so the kept languages stay in order |
| GlossaryPopup.NothingUsedOffersAll | src/components/GlossaryPopup.js:69 | with no lines every supported language is offered, in order |
| GlossaryPopup.ChangeLanguage | src/components/GlossaryPopup.js:72-84 | choosing a language sets that line's code, or appends a new line with empty text; other lines stay |
| GlossaryPopup.EditValue | src/components/GlossaryPopup.js:124-128 | typing changes only that line's text |
| GlossaryPopup.RemoveLine | src/components/GlossaryPopup.js:139-143 | removing a line keeps the others in order |
| GlossaryPopup.Load | src/components/GlossaryPopup.js:23-33 | a passed record replaces the lines with one line per entry, in order; no record leaves them |
| GlossaryPopup.OptionsFor | src/components/GlossaryPopup.js:112-118 | a line's select offers only unused languages, its own language, or the placeholder |
| GlossaryPopup.LinesOfDistinctKeys | src/components/GlossaryPopup.js:25-30 | the lines of an object's entries have distinct codes and never conflict |
| GlossaryPopup.LinesBuildTheirRecord | src/components/GlossaryPopup.js:53-59 | the lines of an object's entries build exactly the record they describe |
| GlossaryPopup.LoadThenSaveReturnsRecord | src/components/GlossaryPopup.js:23-64 | loading and then saving a complete record of at least two languages sends the same record back |
| GlossaryPopup.LoadedLinesAreDistinct | src/components/GlossaryPopup.js:23-33 | a loaded record gives lines naming each language once |
| GlossaryPopup.ChoosingAnOptionKeepsLanguagesDistinct | src/components/GlossaryPopup.js:66-84 | choosing any offered option keeps every language on at most one line |
| GlossaryPopup.DistinctLinesSaveAtLeastTwoLanguages | src/components/GlossaryPopup.js:39-64 | lines naming each language once never make the save throw, and a record they send holds at least two languages |
| GlossaryPopup.NewLineBlocksSave | src/components/GlossaryPopup.js:81 | a line just added has no text, so the save is refused |
| GlossaryPopup.AddAndChangeAreUndone | src/components/GlossaryPopup.js:72-84 | removing a just-added line, or choosing a line's old language again, restores the lines |
| GlossaryPopup.RefusalMarksCorruptLines | src/components/GlossaryPopup.js:43-47 | after a refused save only corrupt lines are marked, and every corrupt line is marked unless its only fault is the placeholder code |

## Left out

- Reading the file, parsing it as JSON, and the parse error are left out. `Page.Upload` receives the parsed document.
- React rendering, the modal windows, the asynchronous state updates, the download link and its `Blob`/URL, authentication and the usage chart are left out. Every handler is one atomic transition of the page state.
- Firestore reads and writes are left out. `Glossary.LoadGlossary` receives the documents read, and `Glossary.Upsert` returns the glossary the write leaves.
- The network calls of the translation service are left out. The chain receives the given replies.
- The current page's caller is not part of this model. It passes `addToGlossary` to the page, so `Overlay.NewTranslation` and `Page.EditTranslation` take the glossary that the save resolves to as the parameter `saved`.
- Page.Upload: requires that no document is loaded, because the drop area is shown only while no file is loaded.
- ReinjectionAsWritten.MakeFileAsWritten: requires a document without empty object keys. An empty key makes the code write into an ancestor, which this model does not follow.
- ReinjectionAsWritten.MakeFileAsWritten: requires translations that are not arrays or objects (`ScalarTranslations`), as the service and the manual edit produce; a container translation would pass the `instanceof Object` guard of a held value, which the model does not follow.
- ReinjectionAsWritten.MakeFileAsWritten: assumes strict-mode semantics, as module code has: assigning to a character of a text throws.
- ReinjectionAsWritten.MakeFileAsWritten: keys that name an array index or a property of arrays (such as `length`) are treated as ordinary keys.
- Page.Translate: uses the intended request chain (`BatchChain.RunChainAligned`), which stops at a reply that does not answer its whole slice and leaves the page in progress with the error shown. On a reply without translations the code records the error, requests the next slice and reaches 'done' with later answers shifted; `BatchChain.RunChain` models that and "Findings" compares the two.
- Page.TranslatedItemsAnswerTheirOwnText: holds for the intended chain only; as written, an answer can be paired with an earlier text (`BatchChain.FailedSliceShiftsLaterResults`).
- Page.FinishedTranslationDetectsSource: stated for the intended chain, which finishes only when every slice was answered.
- Page.Download: uses the intended reinjection (`Reinjection.MakeFile`); the code as written is `ReinjectionAsWritten.MakeFileAsWritten`, compared under "Findings".
- Page.DownloadFollowsExtraction: stated for the intended reinjection, for the same reason.
- Page.DownloadShowsTranslations: stated for the intended reinjection, for the same reason.
- There is no separate failed state: a rejected request leaves the page in progress with its error shown, as the code does.
- Numbers are integers. Floating point, exponents and `toString` of fractions are left out.
- NumberText.ParseInteger: text with a fraction, an exponent or `Infinity` is NaN here, where `Number` reads it as a number; this follows from numbers being integers.
- ReinjectionAsWritten.UnitAt: a code unit that is half of a surrogate pair is represented by its whole character, because a Dafny string cannot hold a lone surrogate. The walk only asks whether the read gives a text, so this does not change its outcome.
- GlossaryPopup.Build: compares container values structurally where `Object.defineProperty` compares object identity. A loaded record never holds the same language twice, so this difference cannot be reached from a loaded record.
- LanguageSelect.SelectedValueIsOffered: shows that a line whose code names no known language shows a value that is not among its options. The model keeps this quirk.
- The older page's translation has no API key check. Its `handleGlossary` also stores the loaded glossary in the page; the model applies it to the items only.
- `setUsage(charCount)` is covered by `Overlay.CharCount`; the usage bar is left out.

## Findings

| source | as written | input that shows it | evidently intended | confidence | as-written member | corrected member |
|---|---|---|---|---|---|---|
| src/pages/Home.js:377 | a member of an object inside a top-level array is visited with `result` bound to the array, so its translation is written to a property of the array and is lost on serialisation | `[{"a":"x"}]` with key `a` selected and translated to `y` | the leaf becomes `y` | high; not executed | ReinjectionAsWritten.MemberUnderRootArrayIsLost | Reinjection.MakeFileFollowsExtraction |
| src/pages/Home.js:370 | an array inside an object inside a top-level array is read through `result[key][index]` where `result[key]` is `undefined` unless an earlier element wrote that key, so the walk throws a `TypeError` | `[{"a":[{"b":"x"}]}]` with key `b` selected | the nested leaf is translated | high; not executed | ReinjectionAsWritten.NestedArrayUnderRootArrayThrows | ReinjectionAsWritten.NestedArrayUnderRootArrayIsFilled |
| src/pages/Home.js:383 | a document that is a single string is extracted and translated, but `result` is the string itself, so nothing is written | `"hello"` translated to `bonjour` | the file is `"bonjour"` | medium; not executed | ReinjectionAsWritten.ScalarRootIsNotWritten | Reinjection.ReextractionShowsTranslations |
| src/pages/Home.js:358 | a string or number in an array is matched on its value alone, so the next item's translation goes to an unselected array element with the same text | `{"tags":["Hello"],"title":"Hello"}` with only `title` selected | `title` is translated and `tags` stays | high; not executed | ReinjectionAsWritten.ValueOnlyAsWritten | ReinjectionAsWritten.ValueOnlyCorrected |
| src/pages/Home.js:255-262 | a reply without a translation array records an error but the chain goes on, so later answers are paired with earlier texts | 101 texts, the first reply an error body, the second one translation | stop at the failed slice, or keep every answer at its own index | high; not executed | BatchChain.FailedSliceShiftsLaterResults | BatchChain.FinishedChainAnswersEveryText |
| src/pages/Home.js:266 | with nothing to translate `parts` is 0, so `ind === parts - 1` never holds and every reply requests another, empty slice | a document whose selected keys have no truthy leaf, with an API key set | the translation finishes at once | high; not executed | BatchChain.EmptyTextsNeverFinish | BatchChain.RunChainAligned |
