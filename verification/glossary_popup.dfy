/** The glossary record editor: a record is edited as a list of lines, one language code
    and its text per line. Loading a record, changing a line's language, adding, editing
    and removing lines, the languages still on offer, and the validation and construction
    of the record on save. */
module GlossaryPopup {
  import opened Wrappers
  import opened JsonTree
  import opened Glossary
  import opened LanguageSelect

  /** One line of the form: a language code and the text in that language. A loaded text
      may be any stored value (a record saved from a numeric leaf holds a number); a typed
      one is a string. */
  datatype Line = Line(code: string, value: Json)

  /** A line that stops the save: no text, the placeholder code, or no code. */
  predicate Corrupt(l: Line) {
    !Truthy(l.value) || l.code == PlaceholderCode || l.code == ""
  }

  /** `usedLanguages`: the codes of the lines, in order. */
  function UsedCodes(lines: seq<Line>): (cs: seq<string>)
    ensures |cs| == |lines|
    ensures forall i :: 0 <= i < |lines| ==> cs[i] == lines[i].code
  {
    seq(|lines|, i requires 0 <= i < |lines| => lines[i].code)
  }

  /** Two lines name the same language with different texts. */
  predicate Conflicting(lines: seq<Line>) {
    exists i, j :: 0 <= i < |lines| && 0 <= j < |lines| && lines[i].code == lines[j].code && lines[i].value != lines[j].value
  }

  /** The record built by defining one non-writable property per line, in order. Defining
      an existing property again with a different value throws. */
  function Build(lines: seq<Line>): (r: Result<Entry>)
    ensures r.Ok? <==> !Conflicting(lines)
    ensures r.Ok? ==> forall c :: c in r.value <==> c in UsedCodes(lines)
    ensures r.Ok? ==> forall i :: 0 <= i < |lines| ==> r.value[lines[i].code] == lines[i].value
    decreases |lines|
  {
    if lines == [] then Ok(map[])
    else
      var front := lines[..|lines| - 1];
      var l := lines[|lines| - 1];
      match Build(front)
      case Err(m) =>
        FrontConflictSpreads(lines);
        Err(m)
      case Ok(acc) =>
        if l.code in acc && acc[l.code] != l.value then
          ClashConflicts(lines, acc);
          Err("TypeError: Cannot redefine property: " + l.code)
        else
          AgreeingLineExtends(lines, acc);
          Ok(acc[l.code := l.value])
  }

  /** A conflict among all lines but the last is a conflict among all lines. */
  lemma FrontConflictSpreads(lines: seq<Line>)
    requires |lines| > 0 && Conflicting(lines[..|lines| - 1])
    ensures Conflicting(lines)
  {
    var front := lines[..|lines| - 1];
    var i, j :| 0 <= i < |front| && 0 <= j < |front| && front[i].code == front[j].code && front[i].value != front[j].value;
    assert lines[i] == front[i] && lines[j] == front[j];
  }

  /** A last line whose code the record of the earlier lines holds with another text
      conflicts with the earlier line that put it there. */
  lemma ClashConflicts(lines: seq<Line>, acc: Entry)
    requires |lines| > 0
    requires forall c :: c in acc <==> c in UsedCodes(lines[..|lines| - 1])
    requires forall i :: 0 <= i < |lines| - 1 ==> acc[lines[i].code] == lines[i].value
    requires lines[|lines| - 1].code in acc && acc[lines[|lines| - 1].code] != lines[|lines| - 1].value
    ensures Conflicting(lines)
  {
    var front := lines[..|lines| - 1];
    var l := lines[|lines| - 1];
    var i :| 0 <= i < |front| && UsedCodes(front)[i] == l.code;
    assert lines[i].code == l.code && lines[i].value == acc[l.code];
  }

  /** A last line that agrees with the record of the earlier lines extends it to the
      record of all lines. */
  lemma AgreeingLineExtends(lines: seq<Line>, acc: Entry)
    requires |lines| > 0 && !Conflicting(lines[..|lines| - 1])
    requires forall c :: c in acc <==> c in UsedCodes(lines[..|lines| - 1])
    requires forall i :: 0 <= i < |lines| - 1 ==> acc[lines[i].code] == lines[i].value
    requires var l := lines[|lines| - 1]; !(l.code in acc && acc[l.code] != l.value)
    ensures !Conflicting(lines)
    ensures var l := lines[|lines| - 1];
      forall c :: c in acc[l.code := l.value] <==> c in UsedCodes(lines)
    ensures var l := lines[|lines| - 1];
      forall i :: 0 <= i < |lines| ==> acc[l.code := l.value][lines[i].code] == lines[i].value
  {
    var front := lines[..|lines| - 1];
    var l := lines[|lines| - 1];
    var rec := acc[l.code := l.value];
    forall i | 0 <= i < |lines| ensures lines[i].code in rec && rec[lines[i].code] == lines[i].value {
      if i < |front| {
        assert UsedCodes(front)[i] == lines[i].code;
        if lines[i].code == l.code { assert acc[l.code] == lines[i].value; }
      }
    }
    forall i, j | 0 <= i < |lines| && 0 <= j < |lines| && lines[i].code == lines[j].code
      ensures lines[i].value == lines[j].value
    {
      assert rec[lines[i].code] == lines[i].value && rec[lines[j].code] == lines[j].value;
    }
    forall c | c in rec ensures c in UsedCodes(lines) {
      if c == l.code {
        assert UsedCodes(lines)[|lines| - 1] == c;
      } else {
        var i :| 0 <= i < |front| && UsedCodes(front)[i] == c;
        assert UsedCodes(lines)[i] == c;
      }
    }
    forall c | c in UsedCodes(lines) ensures c in rec {
      var i :| 0 <= i < |lines| && UsedCodes(lines)[i] == c;
    }
  }

  /** What pressing Save leads to. */
  datatype SaveOutcome =
    | Refused                                // the error flag is set, nothing is sent
    | Failed(message: string)                // building the record threw
    | Dismissed(record: Entry, id: Option<nat>)  // `onDismiss(true, record, id)`

  /** `saveHandler`: refuse when any line is corrupt, otherwise build the record and pass
      it on with the record's position (`None` for a new record). */
  function SaveHandler(lines: seq<Line>, id: Option<nat>): (r: SaveOutcome)
    ensures r.Refused? <==> exists i :: 0 <= i < |lines| && Corrupt(lines[i])
    ensures r.Failed? <==> (forall i :: 0 <= i < |lines| ==> !Corrupt(lines[i])) && Conflicting(lines)
    ensures r.Dismissed? ==> r.id == id
    ensures r.Dismissed? ==> forall c :: c in r.record <==> c in UsedCodes(lines)
    ensures r.Dismissed? ==> forall i :: 0 <= i < |lines| ==> r.record[lines[i].code] == lines[i].value
  {
    if exists i :: 0 <= i < |lines| && Corrupt(lines[i]) then Refused
    else
      match Build(lines)
      case Err(m) => Failed(m)
      case Ok(rec) => Dismissed(rec, id)
  }

  /** The Save button is enabled from two lines on. */
  predicate SaveEnabled(lines: seq<Line>) {
    |lines| >= 2
  }

  datatype Press = Ignored | Pressed(outcome: SaveOutcome)

  /** A click on Save: a disabled button does nothing. */
  function PressSave(lines: seq<Line>, id: Option<nat>): (p: Press)
    ensures p.Ignored? <==> !SaveEnabled(lines)
    ensures p.Pressed? ==> p.outcome == SaveHandler(lines, id)
  {
    if SaveEnabled(lines) then Pressed(SaveHandler(lines, id)) else Ignored
  }

  /** The error flag after a click: set by a refusal, cleared by a save that gets past the
      check, kept by a disabled button. */
  function ErrorAfter(error: bool, p: Press): (e: bool)
    ensures e <==> (p.Ignored? && error) || p == Pressed(Refused)
  {
    match p
    case Ignored => error
    case Pressed(o) => o.Refused?
  }

  /** After a click the fields are marked exactly when the button was enabled and some
      line is corrupt; a disabled button leaves the marks as they were. */
  lemma ClickMarksCorruptLines(error: bool, lines: seq<Line>, id: Option<nat>)
    ensures ErrorAfter(error, PressSave(lines, id)) <==>
      if SaveEnabled(lines) then exists i :: 0 <= i < |lines| && Corrupt(lines[i]) else error
  {
  }

  /** `isInvalid` of a line's text field: after a refused save, a line without text. */
  predicate ValueInvalid(error: bool, l: Line) {
    error && !Truthy(l.value)
  }

  /** `notUsedLanguages`: the supported languages no line uses yet, in their order. */
  function NotUsed(supported: seq<Language>, lines: seq<Line>): (r: seq<Language>)
    ensures forall l :: l in r <==> l in supported && l.code !in UsedCodes(lines)
    ensures |r| <= |supported|
    decreases |supported|
  {
    if supported == [] then []
    else
      assert forall l :: l in supported <==> l == supported[0] || l in supported[1..];
      (if supported[0].code in UsedCodes(lines) then [] else [supported[0]]) + NotUsed(supported[1..], lines)
  }

  /** Filtering a concatenation filters each part: with the membership clause of `NotUsed`
      this says the kept languages stay in their order. */
  lemma {:induction false} NotUsedDistributes(a: seq<Language>, b: seq<Language>, lines: seq<Line>)
    ensures NotUsed(a + b, lines) == NotUsed(a, lines) + NotUsed(b, lines)
    decreases |a|
  {
    if a == [] {
      assert a + b == b;
    } else {
      var head := if a[0].code in UsedCodes(lines) then [] else [a[0]];
      assert a + b == [a[0]] + (a[1..] + b);
      assert a == [a[0]] + a[1..];
      NotUsedStep(a + b, a[0], a[1..] + b, lines);
      NotUsedStep(a, a[0], a[1..], lines);
      NotUsedDistributes(a[1..], b, lines);
      ConcatAssociates(head, NotUsed(a[1..], lines), NotUsed(b, lines));
    }
  }

  /** One step of the filter: the first language is kept unless in use. */
  lemma NotUsedStep(s: seq<Language>, first: Language, rest: seq<Language>, lines: seq<Line>)
    requires s == [first] + rest
    ensures NotUsed(s, lines) == (if first.code in UsedCodes(lines) then [] else [first]) + NotUsed(rest, lines)
  {
    assert s[0] == first && s[1..] == rest;
  }

  lemma ConcatAssociates<T>(x: seq<T>, y: seq<T>, z: seq<T>)
    ensures x + (y + z) == (x + y) + z
  {
  }

  /** With no line in use, every supported language is offered, in order. */
  lemma {:induction false} NothingUsedOffersAll(supported: seq<Language>)
    ensures NotUsed(supported, []) == supported
    decreases |supported|
  {
    if supported != [] {
      NothingUsedOffersAll(supported[1..]);
    }
  }

  /** `handleLanguageChange`: with a line index, that line gets the chosen code; without,
      a new line with the chosen code and empty text is appended. */
  function ChangeLanguage(lines: seq<Line>, index: Option<nat>, code: string): (r: seq<Line>)
    requires index.Some? ==> index.value < |lines|
    ensures index.Some? ==> |r| == |lines| && r[index.value] == Line(code, lines[index.value].value)
    ensures index.Some? ==> forall k :: 0 <= k < |lines| && k != index.value ==> r[k] == lines[k]
    ensures index.None? ==> |r| == |lines| + 1 && r[..|lines|] == lines && r[|lines|] == Line(code, Str(""))
  {
    match index
    case Some(i) => lines[i := Line(code, lines[i].value)]
    case None => lines + [Line(code, Str(""))]
  }

  /** Typing into a line's text field: only that line's text changes. */
  function EditValue(lines: seq<Line>, i: nat, text: string): (r: seq<Line>)
    requires i < |lines|
    ensures |r| == |lines| && r[i] == Line(lines[i].code, Str(text))
    ensures forall k :: 0 <= k < |lines| && k != i ==> r[k] == lines[k]
  {
    lines[i := Line(lines[i].code, Str(text))]
  }

  /** The remove button of line `i`: that line goes, the others keep their order. */
  function RemoveLine(lines: seq<Line>, i: nat): (r: seq<Line>)
    requires i < |lines|
    ensures |r| == |lines| - 1
    ensures forall k :: 0 <= k < i ==> r[k] == lines[k]
    ensures forall k :: i <= k < |r| ==> r[k] == lines[k + 1]
  {
    lines[..i] + lines[i + 1..]
  }

  /** An object's own entries, in order: keys are distinct. */
  predicate DistinctKeys(entries: seq<(string, Json)>) {
    forall i, j :: 0 <= i < j < |entries| ==> entries[i].0 != entries[j].0
  }

  /** The record an object's entries describe. */
  function RecordOf(entries: seq<(string, Json)>): (m: Entry)
    requires DistinctKeys(entries)
    ensures forall c :: c in m <==> exists i :: 0 <= i < |entries| && entries[i].0 == c
    ensures forall i :: 0 <= i < |entries| ==> m[entries[i].0] == entries[i].1
    decreases |entries|
  {
    if entries == [] then map[]
    else
      var rest := RecordOf(entries[1..]);
      assert forall i :: 1 <= i < |entries| ==> entries[i] == entries[1..][i - 1];
      assert forall i :: 1 <= i < |entries| ==> entries[i].0 != entries[0].0;
      rest[entries[0].0 := entries[0].1]
  }

  /** The effect on mount: a passed record (any object, even an empty one) replaces the
      lines with one line per entry; no record leaves them as they are. */
  function Load(lines: seq<Line>, element: Option<seq<(string, Json)>>): (r: seq<Line>)
    ensures element.None? ==> r == lines
    ensures element.Some? ==> |r| == |element.value|
    ensures element.Some? ==> forall i :: 0 <= i < |r| ==> r[i] == Line(element.value[i].0, element.value[i].1)
  {
    match element
    case None => lines
    case Some(es) => LinesOf(es)
  }

  /** One line per entry, in order (`Object.entries(...).map(...)`). */
  function LinesOf(entries: seq<(string, Json)>): (r: seq<Line>)
    ensures |r| == |entries|
    ensures forall i :: 0 <= i < |r| ==> r[i] == Line(entries[i].0, entries[i].1)
  {
    seq(|entries|, i requires 0 <= i < |entries| => Line(entries[i].0, entries[i].1))
  }

  /** Lines that name each language at most once; only placeholder lines may repeat. */
  predicate DistinctLanguages(lines: seq<Line>) {
    forall i, j :: 0 <= i < |lines| && 0 <= j < |lines| && i != j && lines[i].code == lines[j].code ==>
      lines[i].code == PlaceholderCode
  }

  /** The options the select of line `index` (or of the add-a-line row, `None`) shows. */
  function OptionsFor(supported: seq<Language>, lines: seq<Line>, index: Option<nat>): (r: seq<Language>)
    requires index.Some? ==> index.value < |lines|
    ensures forall l :: l in r ==>
      (l in supported && l.code !in UsedCodes(lines)) || l == Placeholder
      || (index.Some? && l.code == lines[index.value].code)
  {
    var code := if index.Some? then Some(lines[index.value].code) else None;
    var list := LanguageList(supported, code, NotUsed(supported, lines));
    OptionsComeFromKnownLanguages(supported, code, NotUsed(supported, lines));
    list
  }

  /** An object's entries give lines with distinct codes, so they never conflict. */
  lemma {:induction false} LinesOfDistinctKeys(entries: seq<(string, Json)>)
    requires DistinctKeys(entries)
    ensures forall i, j :: 0 <= i < |entries| && 0 <= j < |entries| && i != j ==> LinesOf(entries)[i].code != LinesOf(entries)[j].code
    ensures !Conflicting(LinesOf(entries))
  {
    var ls := LinesOf(entries);
    forall i, j | 0 <= i < |ls| && 0 <= j < |ls| && i != j ensures ls[i].code != ls[j].code {
      if i < j { assert entries[i].0 != entries[j].0; } else { assert entries[j].0 != entries[i].0; }
    }
  }

  /** The lines of an object's entries build exactly the record the entries describe. */
  lemma {:induction false} LinesBuildTheirRecord(entries: seq<(string, Json)>)
    requires DistinctKeys(entries)
    ensures Build(LinesOf(entries)) == Ok(RecordOf(entries))
  {
    var ls := LinesOf(entries);
    var m := RecordOf(entries);
    LinesOfDistinctKeys(entries);
    var b := Build(ls).value;
    SameRecord(entries, ls, b, m);
  }

  /** Two records agree when both hold exactly the entries' keys with their values. */
  lemma {:induction false} SameRecord(entries: seq<(string, Json)>, ls: seq<Line>, b: Entry, m: Entry)
    requires |ls| == |entries|
    requires forall i :: 0 <= i < |ls| ==> ls[i] == Line(entries[i].0, entries[i].1)
    requires forall c :: c in b <==> c in UsedCodes(ls)
    requires forall i :: 0 <= i < |ls| ==> b[ls[i].code] == ls[i].value
    requires forall c :: c in m <==> exists i :: 0 <= i < |entries| && entries[i].0 == c
    requires forall i :: 0 <= i < |entries| ==> m[entries[i].0] == entries[i].1
    ensures b == m
  {
    forall c | c in b ensures c in m {
      var i :| 0 <= i < |ls| && UsedCodes(ls)[i] == c;
      assert entries[i].0 == c;
    }
    forall c | c in m ensures c in b && b[c] == m[c] {
      var i :| 0 <= i < |entries| && entries[i].0 == c;
      assert UsedCodes(ls)[i] == c;
      assert ls[i].code == c;
    }
  }

  /** Loading then saving a complete record of at least two languages sends the same
      record back. */
  lemma {:induction false} LoadThenSaveReturnsRecord(lines: seq<Line>, entries: seq<(string, Json)>, id: Option<nat>)
    requires DistinctKeys(entries) && |entries| >= 2
    requires forall i :: 0 <= i < |entries| ==> Truthy(entries[i].1) && entries[i].0 != "" && entries[i].0 != PlaceholderCode
    ensures PressSave(Load(lines, Some(entries)), id) == Pressed(Dismissed(RecordOf(entries), id))
  {
    var loaded := Load(lines, Some(entries));
    assert forall i :: 0 <= i < |loaded| ==> !Corrupt(loaded[i]);
    LinesBuildTheirRecord(entries);
  }

  /** Loading a record gives lines naming each language once. */
  lemma {:induction false} LoadedLinesAreDistinct(lines: seq<Line>, entries: seq<(string, Json)>)
    requires DistinctKeys(entries)
    ensures DistinctLanguages(Load(lines, Some(entries)))
  {
    var r := Load(lines, Some(entries));
    forall i, j | 0 <= i < |r| && 0 <= j < |r| && i != j ensures r[i].code != r[j].code {
      if i < j { assert entries[i].0 != entries[j].0; } else { assert entries[j].0 != entries[i].0; }
    }
  }

  /** Choosing any option the select offers keeps every language on at most one line:
      the offered languages are unused, or the line's own, or the placeholder. */
  lemma {:induction false} ChoosingAnOptionKeepsLanguagesDistinct(supported: seq<Language>, lines: seq<Line>, index: Option<nat>, choice: Language)
    requires index.Some? ==> index.value < |lines|
    requires DistinctLanguages(lines)
    requires choice in OptionsFor(supported, lines, index)
    ensures DistinctLanguages(ChangeLanguage(lines, index, choice.code))
  {
    var r := ChangeLanguage(lines, index, choice.code);
    var changed := if index.Some? then index.value else |lines|;
    assert forall k :: 0 <= k < |lines| && k != changed ==> r[k] == lines[k] by {
      if index.None? {
        forall k | 0 <= k < |lines| ensures r[k] == lines[k] {
          assert r[..|lines|][k] == r[k];
        }
      }
    }
    var newLanguage := choice != Placeholder && (index.None? || choice.code != lines[index.value].code);
    if newLanguage {
      assert choice.code !in UsedCodes(lines);
      forall k | 0 <= k < |lines| ensures lines[k].code != choice.code {
        assert UsedCodes(lines)[k] == lines[k].code;
      }
    }
    forall i, j | 0 <= i < |r| && 0 <= j < |r| && i != j && r[i].code == r[j].code
      ensures r[i].code == PlaceholderCode
    {
      if i != changed && j != changed {
        assert r[i] == lines[i] && r[j] == lines[j];
      }
    }
  }

  /** Lines that name each language at most once never make the save throw, and a record
      they send holds at least two languages. */
  lemma {:induction false} DistinctLinesSaveAtLeastTwoLanguages(lines: seq<Line>, id: Option<nat>)
    requires DistinctLanguages(lines)
    ensures !SaveHandler(lines, id).Failed?
    ensures PressSave(lines, id).Pressed? && PressSave(lines, id).outcome.Dismissed? ==>
      |PressSave(lines, id).outcome.record.Keys| >= 2
  {
    var o := SaveHandler(lines, id);
    if !o.Refused? {
      assert forall i :: 0 <= i < |lines| ==> !Corrupt(lines[i]);
      assert !Conflicting(lines) by {
        forall i, j | 0 <= i < |lines| && 0 <= j < |lines| && lines[i].code == lines[j].code
          ensures lines[i].value == lines[j].value
        {
          if i != j { assert !Corrupt(lines[i]); }
        }
      }
    }
    if SaveEnabled(lines) && o.Dismissed? {
      assert !Corrupt(lines[0]);
      assert lines[0].code != lines[1].code;
      assert {lines[0].code, lines[1].code} <= o.record.Keys by {
        assert UsedCodes(lines)[0] == lines[0].code && UsedCodes(lines)[1] == lines[1].code;
      }
      assert |{lines[0].code, lines[1].code}| == 2;
      SubsetSize({lines[0].code, lines[1].code}, o.record.Keys);
    }
  }

  lemma SubsetSize<T>(a: set<T>, b: set<T>)
    requires a <= b
    ensures |a| <= |b|
  {
    assert b == a + (b - a);
  }

  /** A line just added by choosing a language has no text yet, so saving is refused
      until it is filled in. */
  lemma {:induction false} NewLineBlocksSave(lines: seq<Line>, code: string, id: Option<nat>)
    ensures SaveHandler(ChangeLanguage(lines, None, code), id) == Refused
  {
    var r := ChangeLanguage(lines, None, code);
    assert Corrupt(r[|lines|]);
  }

  /** Removing the line just added restores the lines; choosing a line's old language again
      restores them too. */
  lemma {:induction false} AddAndChangeAreUndone(lines: seq<Line>, code: string, i: nat)
    requires i < |lines|
    ensures RemoveLine(ChangeLanguage(lines, None, code), |lines|) == lines
    ensures ChangeLanguage(ChangeLanguage(lines, Some(i), code), Some(i), lines[i].code) == lines
  {
    assert ChangeLanguage(lines, None, code)[..|lines|] == lines;
  }

  /** After a refused save, a line whose select or text field is marked is corrupt, and a
      corrupt line is marked unless its only fault is the placeholder code. */
  lemma {:induction false} RefusalMarksCorruptLines(lines: seq<Line>, id: Option<nat>, i: nat)
    requires i < |lines|
    requires PressSave(lines, id) == Pressed(Refused)
    ensures var error := ErrorAfter(false, PressSave(lines, id));
      && error
      && (IsInvalid(error, Some(lines[i].code), Some(i)) || ValueInvalid(error, lines[i]) ==> Corrupt(lines[i]))
      && (Corrupt(lines[i]) && (lines[i].code != PlaceholderCode || !Truthy(lines[i].value)) ==>
            IsInvalid(error, Some(lines[i].code), Some(i)) || ValueInvalid(error, lines[i]))
  {
  }
}
