/**
 * Locale normalisation (`EmailTemplateManager._clean_language_code_input`,
 * appmail/models.py): a free-form locale code is matched against the
 * configured languages, first as a whole after cleaning its syntax, then by
 * its first two characters, and otherwise replaced by the default code.
 */
module Locale {
  import opened LanguageSettings

  /** Logger methods that `APPMAIL_TEMPLATE_LOOKUP_LOGLEVEL` can name. */
  datatype LogLevel = Debug | Info | Warning | Error | Critical

  /** The level used when `APPMAIL_TEMPLATE_LOOKUP_LOGLEVEL` is not set. */
  const DefaultLookupLogLevel: LogLevel := Warning

  /** What a fallback log call reports. */
  datatype LogEvent =
    | LocaleFallback(requested: string, core: string)           // no exact locale, core language used
    | TemplateFallback(requested: string, templateName: string) // no translation, primary template used

  datatype LogEntry = LogEntry(level: LogLevel, event: LogEvent)

  /** The settings read at call time. */
  datatype Config = Config(
    languages: seq<Language>,   // LANGUAGES
    languageCode: string,       // LANGUAGE_CODE
    lookupLogLevel: LogLevel    // APPMAIL_TEMPLATE_LOOKUP_LOGLEVEL, lower-cased
  )

  predicate Supported(cfg: Config, code: string) {
    code in Codes(cfg.languages)
  }

  predicate IsUpper(c: char) { 'A' <= c <= 'Z' }

  /** `str.lower()` on one character (ASCII letters only). */
  function LowerChar(c: char): (r: char)
    ensures !IsUpper(r)
    ensures IsUpper(c) ==> r as int == c as int + 32
    ensures !IsUpper(c) ==> r == c
  {
    if IsUpper(c) then (c as int + 32) as char else c
  }

  /** `locale_code.lower().replace('_', '-')`. */
  function Clean(code: string): (r: string)
    ensures |r| == |code|
    ensures forall i :: 0 <= i < |r| ==> !IsUpper(r[i]) && r[i] != '_'
    ensures forall i :: 0 <= i < |r| ==> r[i] == code[i] || code[i] == '_' || IsUpper(code[i])
    ensures forall i :: 0 <= i < |code| && code[i] == '_' ==> r[i] == '-'
    ensures forall i :: 0 <= i < |code| && IsUpper(code[i]) ==> r[i] as int == code[i] as int + 32
  {
    seq(|code|, i requires 0 <= i < |code| => if code[i] == '_' then '-' else LowerChar(code[i]))
  }

  /** `locale_code[:2]`: the first two characters, or the whole code when it is shorter. */
  function CorePrefix(code: string): (r: string)
    ensures |r| == if |code| < 2 then |code| else 2
    ensures code == r + code[|r|..]
  {
    if |code| <= 2 then code else code[..2]
  }

  /** A normalised code together with the log calls made while computing it. */
  datatype Normalised = Normalised(code: string, log: seq<LogEntry>)

  /**
   * `_clean_language_code_input`. The cleaned input wins when it is
   * configured; otherwise the two-character core of the raw input, with one
   * log call; otherwise the configured default, which need not itself be
   * configured. At most one log call is ever made.
   */
  function CleanLanguageCode(cfg: Config, code: string): (r: Normalised)
    ensures Supported(cfg, r.code) || r.code == cfg.languageCode
    ensures Supported(cfg, Clean(code)) ==> r == Normalised(Clean(code), [])
    ensures |r.log| <= 1
    ensures r.log != [] <==> !Supported(cfg, Clean(code)) && Supported(cfg, CorePrefix(code))
    ensures r.log != [] ==>
      r.code == CorePrefix(code) && r.log[0] == LogEntry(cfg.lookupLogLevel, LocaleFallback(code, r.code))
    ensures !Supported(cfg, Clean(code)) && !Supported(cfg, CorePrefix(code)) ==>
      r == Normalised(cfg.languageCode, [])
  {
    var cleaned := Clean(code);
    if Supported(cfg, cleaned) then Normalised(cleaned, [])
    else
      var core := CorePrefix(code);
      if Supported(cfg, core) then
        Normalised(core, [LogEntry(cfg.lookupLogLevel, LocaleFallback(code, core))])
      else Normalised(cfg.languageCode, [])
  }

  /** Cleaning an already clean code changes nothing. */
  lemma CleanIdempotent(code: string)
    ensures Clean(Clean(code)) == Clean(code)
  {
    var c := Clean(code);
    assert forall i :: 0 <= i < |c| ==> Clean(c)[i] == c[i];
  }

  /** A code written in any mix of case and `_`/`-` separators normalises like its clean form. */
  lemma SyntaxVariantsAgree(cfg: Config, a: string, b: string)
    requires Clean(a) == Clean(b)
    requires Supported(cfg, Clean(a))
    ensures CleanLanguageCode(cfg, a) == CleanLanguageCode(cfg, b) == CleanLanguageCode(cfg, Clean(a))
  {
    CleanIdempotent(a);
  }

  /**
   * Normalising a configured result again returns it unchanged and logs
   * nothing, provided the configured codes are themselves clean (as the
   * host's language codes are).
   */
  lemma NormalisedIsStable(cfg: Config, code: string)
    requires forall i :: 0 <= i < |cfg.languages| ==> Clean(cfg.languages[i].code) == cfg.languages[i].code
    requires Supported(cfg, CleanLanguageCode(cfg, code).code)
    ensures CleanLanguageCode(cfg, CleanLanguageCode(cfg, code).code) == Normalised(CleanLanguageCode(cfg, code).code, [])
  {
    var r := CleanLanguageCode(cfg, code).code;
    var i :| 0 <= i < |cfg.languages| && cfg.languages[i].code == r;
    assert Clean(r) == r;
  }

  /** The codes the host's default language list provides for the languages the examples use. */
  const ExampleLanguages: seq<Language> := [
    Language("de", "German"), Language("en", "English"), Language("en-au", "Australian English"),
    Language("en-gb", "British English"), Language("es", "Spanish"),
    Language("es-ar", "Argentinian Spanish"), Language("es-mx", "Mexican Spanish")
  ]

  /** `en_GB`, `en-GB` and `en-gb` all select `en-gb`, without a log call. */
  lemma RegionalCodesNormalise()
    ensures var cfg := Config(ExampleLanguages, "es-mx", DefaultLookupLogLevel);
      && CleanLanguageCode(cfg, "en_GB") == Normalised("en-gb", [])
      && CleanLanguageCode(cfg, "en-GB") == Normalised("en-gb", [])
      && CleanLanguageCode(cfg, "en-gb") == Normalised("en-gb", [])
      && CleanLanguageCode(cfg, "en") == Normalised("en", [])
  {
    var cfg := Config(ExampleLanguages, "es-mx", DefaultLookupLogLevel);
    assert Clean("en_GB") == "en-gb";
    assert Clean("en-GB") == "en-gb";
    assert Clean("en-gb") == "en-gb";
    assert Clean("en") == "en";
    assert ExampleLanguages[3].code == "en-gb" && ExampleLanguages[1].code == "en";
  }

  /**
   * `en-US`, in any of its spellings, is not configured, so it falls back to
   * its core `en`, logging once at the configured level (warning unless
   * configured otherwise).
   */
  lemma CoreLanguageFallback(level: LogLevel, code: string)
    requires code == "en-US" || code == "en_US" || code == "en-us"
    ensures CleanLanguageCode(Config(ExampleLanguages, "es-mx", level), code)
      == Normalised("en", [LogEntry(level, LocaleFallback(code, "en"))])
  {
    var cfg := Config(ExampleLanguages, "es-mx", level);
    if code == "en-US" {
      assert Clean(code) == "en-us";
    } else if code == "en_US" {
      assert Clean(code) == "en-us";
    } else {
      assert Clean(code) == "en-us";
    }
    assert CorePrefix(code) == "en";
    assert !Supported(cfg, "en-us") by {
      assert forall i :: 0 <= i < |ExampleLanguages| ==> ExampleLanguages[i].code != "en-us";
    }
    assert ExampleLanguages[1].code == "en";
  }

  /** An unconfigured region of a configured language, `de-xx`, falls back to `de` in the same way. */
  lemma UnknownRegionFallback(level: LogLevel)
    ensures CleanLanguageCode(Config(ExampleLanguages, "es-mx", level), "de-xx")
      == Normalised("de", [LogEntry(level, LocaleFallback("de-xx", "de"))])
  {
    var cfg := Config(ExampleLanguages, "es-mx", level);
    assert Clean("de-xx") == "de-xx";
    assert CorePrefix("de-xx") == "de";
    assert !Supported(cfg, "de-xx") by {
      assert forall i :: 0 <= i < |ExampleLanguages| ==> ExampleLanguages[i].code != "de-xx";
    }
    assert ExampleLanguages[0].code == "de";
  }

  /**
   * The core is cut from the raw input, not from the cleaned one: `EN-XX`
   * has the configured core `en` once cleaned, yet it normalises to the
   * default code, because its raw core `EN` is not configured.
   */
  lemma CoreIsTakenBeforeCleaning()
    ensures var cfg := Config(ExampleLanguages, "es-mx", DefaultLookupLogLevel);
      && Supported(cfg, CorePrefix(Clean("EN-XX")))
      && CleanLanguageCode(cfg, "EN-XX") == Normalised("es-mx", [])
  {
    assert Clean("EN-XX") == "en-xx";
    assert CorePrefix(Clean("EN-XX")) == "en";
    assert CorePrefix("EN-XX") == "EN";
    assert ExampleLanguages[1].code == "en";
    assert forall i :: 0 <= i < |ExampleLanguages| ==> ExampleLanguages[i].code !in {"en-xx", "EN"};
  }
}
