/** The language drop-down of the glossary editor: which options it lists, which value it
    shows as selected, and when it is marked invalid. The supported languages (a data file
    of the application) are a parameter. */
module LanguageSelect {
  import opened Wrappers

  datatype Language = Language(code: string, name: string)

  /** Code of the "nothing selected yet" option. */
  const PlaceholderCode: string := "_"

  /** The option shown when the current code names no known language. */
  const Placeholder: Language := Language(PlaceholderCode, "Select Language")

  /** The codes of a list of languages, in order. */
  function Codes(langs: seq<Language>): (cs: seq<string>)
    ensures |cs| == |langs|
    ensures forall j :: 0 <= j < |langs| ==> cs[j] == langs[j].code
  {
    seq(|langs|, j requires 0 <= j < |langs| => langs[j].code)
  }

  /** `langs.findIndex(l => l.code === code)`; an absent code (`undefined`) matches no
      language, since every language code is a string. */
  function FindCode(langs: seq<Language>, code: Option<string>): (r: Option<nat>)
    ensures r.None? <==> forall j :: 0 <= j < |langs| ==> code != Some(langs[j].code)
    ensures r.Some? ==> r.value < |langs| && code == Some(langs[r.value].code)
    ensures r.Some? ==> forall j :: 0 <= j < r.value ==> code != Some(langs[j].code)
    decreases |langs|
  {
    if langs == [] then None
    else if code == Some(langs[0].code) then Some(0)
    else
      var r := FindCode(langs[1..], code);
      assert forall j :: 1 <= j < |langs| ==> langs[j] == langs[1..][j - 1];
      if r.None? then None else Some(r.value + 1)
  }

  /** The language shown at the top when the current code is not among the offered ones:
      the supported language with that code, else the placeholder. */
  function CurrentLanguage(supported: seq<Language>, code: Option<string>): (l: Language)
    ensures l == Placeholder || (code == Some(l.code) && l in supported)
  {
    match FindCode(supported, code)
    case Some(k) => supported[k]
    case None => Placeholder
  }

  /** `languageList`: the offered languages, preceded by the current language when the
      current code is not among them. */
  function LanguageList(supported: seq<Language>, code: Option<string>, languages: seq<Language>): (r: seq<Language>)
    ensures FindCode(languages, code).Some? ==> r == languages
    ensures FindCode(languages, code).None? ==> r == [CurrentLanguage(supported, code)] + languages
  {
    if FindCode(languages, code).Some? then languages
    else [CurrentLanguage(supported, code)] + languages
  }

  /** `code || '_'`: the value the control shows as selected. */
  function SelectedValue(code: Option<string>): (v: string)
    ensures v == PlaceholderCode <==> code.None? || code == Some("") || code == Some(PlaceholderCode)
    ensures v != PlaceholderCode ==> code == Some(v)
  {
    match code
    case Some(c) => if c == "" then PlaceholderCode else c
    case None => PlaceholderCode
  }

  /** `isInvalid`: after a refused save (`error`), a select of an existing line (`index`
      given) without a language. */
  predicate IsInvalid(error: bool, code: Option<string>, index: Option<nat>) {
    error && (code.None? || code == Some("")) && index.Some?
  }

  /** A language list is well formed when no code is empty and none is the placeholder's. */
  predicate ProperCodes(langs: seq<Language>) {
    forall j :: 0 <= j < |langs| ==> langs[j].code != "" && langs[j].code != PlaceholderCode
  }

  /** Every option is an offered language, the supported language the current code names,
      or the placeholder; and every offered language stays an option. */
  lemma OptionsComeFromKnownLanguages(supported: seq<Language>, code: Option<string>, languages: seq<Language>)
    ensures forall l :: l in languages ==> l in LanguageList(supported, code, languages)
    ensures forall l :: l in LanguageList(supported, code, languages) ==>
      l in languages || l == Placeholder || (l in supported && code == Some(l.code))
  {
  }

  /** The list grows by at most one: by exactly one when the current code is not offered. */
  lemma ListGrowsByOneWhenCodeNotOffered(supported: seq<Language>, code: Option<string>, languages: seq<Language>)
    ensures |LanguageList(supported, code, languages)| == |languages| + (if code.Some? && code.value in Codes(languages) then 0 else 1)
  {
    if code.Some? && code.value in Codes(languages) {
      var j :| 0 <= j < |languages| && Codes(languages)[j] == code.value;
      assert code == Some(languages[j].code);
    }
  }

  /** With well-formed lists, the value shown as selected is one of the options exactly when
      the current code is empty, is the placeholder's, or names an offered or supported
      language: a line whose code names no known language shows a value that is not offered. */
  lemma SelectedValueIsOffered(supported: seq<Language>, code: Option<string>, languages: seq<Language>)
    requires ProperCodes(supported) && ProperCodes(languages)
    ensures SelectedValue(code) in Codes(LanguageList(supported, code, languages)) <==>
      || code.None? || code == Some("") || code == Some(PlaceholderCode)
      || code.value in Codes(languages) || code.value in Codes(supported)
  {
    var list := LanguageList(supported, code, languages);
    var v := SelectedValue(code);
    if code.None? || code == Some("") || code == Some(PlaceholderCode) {
      assert FindCode(languages, code).None?;
      assert FindCode(supported, code).None?;
      assert Codes(list)[0] == PlaceholderCode;
    } else if code.value in Codes(languages) {
      var j :| 0 <= j < |languages| && Codes(languages)[j] == code.value;
      assert FindCode(languages, code).Some?;
      assert v == code.value && v in Codes(list);
    } else if code.value in Codes(supported) {
      var j :| 0 <= j < |supported| && Codes(supported)[j] == code.value;
      assert FindCode(languages, code).None? by {
        forall k | 0 <= k < |languages| ensures code != Some(languages[k].code) {
          assert Codes(languages)[k] == languages[k].code;
        }
      }
      var k := FindCode(supported, code).value;
      assert list[0] == supported[k] && Codes(list)[0] == code.value;
    } else {
      assert FindCode(languages, code).None? by {
        forall k | 0 <= k < |languages| ensures code != Some(languages[k].code) {
          assert Codes(languages)[k] == languages[k].code;
        }
      }
      assert FindCode(supported, code).None? by {
        forall k | 0 <= k < |supported| ensures code != Some(supported[k].code) {
          assert Codes(supported)[k] == supported[k].code;
        }
      }
      assert list == [Placeholder] + languages;
      forall k | 0 <= k < |list| ensures Codes(list)[k] != v {
        if k > 0 {
          assert list[k] == languages[k - 1];
          assert Codes(languages)[k - 1] == languages[k - 1].code;
        }
      }
    }
  }

  /** Only the selects of existing lines are ever marked, only after a refused save, and
      only when they have no language; the select that adds a line never is. */
  lemma InvalidOnlyForEmptyExistingLine(error: bool, code: Option<string>, index: Option<nat>)
    ensures IsInvalid(error, code, index) ==> error && index.Some? && SelectedValue(code) == PlaceholderCode
    ensures index.None? ==> !IsInvalid(error, code, index)
    ensures error && index.Some? && code == Some("") ==> IsInvalid(error, code, index)
  {
  }
}
