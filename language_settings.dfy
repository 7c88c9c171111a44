/**
 * The language configuration of appmail/models.py: the host settings it
 * reads (`LANGUAGE_CODE`, `LANGUAGES`) and the rewrite of both that the
 * module performs once, when it is imported.
 */
module LanguageSettings {

  /** One entry of the `LANGUAGES` setting: a locale code and its display name. */
  datatype Language = Language(code: string, name: string)

  /** The codes of a language list (`[x[0] for x in LANGUAGES]`), as a set. */
  function Codes(langs: seq<Language>): (r: set<string>)
    ensures forall i :: 0 <= i < |langs| ==> langs[i].code in r
    ensures forall c :: c in r ==> exists i :: 0 <= i < |langs| && langs[i].code == c
  {
    set i | 0 <= i < |langs| :: langs[i].code
  }

  const AmericanEnglishLabel: string := "English (American)"

  /**
   * `_LANGUAGE_CODE`, the default locale of new template and translation
   * rows: the host default `en-us` is not among the host's languages, so it
   * is mapped to `en`; any other setting is kept.
   */
  function FieldDefaultLocale(settingsCode: string): (r: string)
    ensures r != "en-us"
    ensures r != settingsCode <==> settingsCode == "en-us"
    ensures settingsCode == "en-us" ==> r == "en"
  {
    if settingsCode == "en-us" then "en" else settingsCode
  }

  /** What importing appmail/models.py fixes for the rest of the process. */
  datatype ModuleState = ModuleState(
    fieldDefault: string,      // _LANGUAGE_CODE
    choices: seq<Language>,    // _LANGUAGES
    lookupDefault: string      // default argument of get_by_name_then_locale
  )

  /**
   * The module-level loop that builds `_LANGUAGES`: every entry is copied
   * in order, and the one whose code is `en` is relabelled as American English.
   */
  method RelabelLanguages(langs: seq<Language>) returns (out: seq<Language>)
    ensures |out| == |langs|
    ensures forall i :: 0 <= i < |langs| ==> out[i].code == langs[i].code
    ensures forall i :: 0 <= i < |langs| ==>
      out[i].name == (if langs[i].code == "en" then AmericanEnglishLabel else langs[i].name)
    ensures Codes(out) == Codes(langs)
  {
    out := [];
    var k := 0;
    while k < |langs|
      invariant 0 <= k <= |langs|
      invariant |out| == k
      invariant forall i :: 0 <= i < k ==> out[i].code == langs[i].code
      invariant forall i :: 0 <= i < k ==>
        out[i].name == (if langs[i].code == "en" then AmericanEnglishLabel else langs[i].name)
    {
      var lang := langs[k];
      if lang.code == "en" {
        lang := lang.(name := AmericanEnglishLabel);
      }
      out := out + [lang];
      k := k + 1;
    }
    assert forall i :: 0 <= i < |langs| ==> out[i].code == langs[i].code;
  }

  /**
   * Importing appmail/models.py: `_LANGUAGE_CODE` and `_LANGUAGES` are
   * derived from the settings of that moment, and the lookup's default
   * argument is the raw `LANGUAGE_CODE` of that moment.
   */
  method ImportModels(settingsCode: string, settingsLanguages: seq<Language>) returns (m: ModuleState)
    ensures m.fieldDefault == FieldDefaultLocale(settingsCode)
    ensures m.lookupDefault == settingsCode
    ensures |m.choices| == |settingsLanguages|
    ensures Codes(m.choices) == Codes(settingsLanguages)
    ensures forall i :: 0 <= i < |settingsLanguages| && settingsLanguages[i].code != "en" ==>
      m.choices[i] == settingsLanguages[i]
    ensures forall i :: 0 <= i < |settingsLanguages| && settingsLanguages[i].code == "en" ==>
      m.choices[i] == Language("en", AmericanEnglishLabel)
  {
    var choices := RelabelLanguages(settingsLanguages);
    m := ModuleState(FieldDefaultLocale(settingsCode), choices, settingsCode);
  }
}
