/**
 * `EmailTemplateManager.get_by_name_then_locale` (appmail/models.py): the
 * template to send for a name and a requested locale, over a snapshot of
 * the two tables.
 */
module Resolver {
  import opened Wrappers
  import opened Rows
  import opened LanguageSettings
  import opened Locale
  import opened Templates

  /** The instance returned: the primary template itself or one of its translations. */
  datatype Resolved = Primary(template: Template) | Translated(translation: Translation)

  datatype LookupError =
    | EmailTemplateDoesNotExist(name: string)  // no primary template has the name
    | MultipleObjectsReturned                  // a `get` matched more than one row

  /** The outcome of a lookup, with the log calls made along the way. */
  datatype Lookup = Lookup(result: Result<Resolved, LookupError>, log: seq<LogEntry>)

  /** The translations of template `parentPk` in `locale`. */
  function TranslationsIn(translations: seq<Translation>, parentPk: Pk, locale: string): (r: seq<Translation>)
    ensures forall x :: x in r <==> x in translations && x.parent == parentPk && x.locale == locale
    ensures forall x :: multiset(r)[x] == (if x.parent == parentPk && x.locale == locale then multiset(translations)[x] else 0)
  {
    Filter(translations, (t: Translation) => t.parent == parentPk && t.locale == locale)
  }

  /** The `locale_code` argument: the one given, else the default fixed at import. */
  function LocaleArgument(imported: ModuleState, requested: Option<string>): string {
    if requested.Some? then requested.value else imported.lookupDefault
  }

  /**
   * `get_by_name_then_locale(name, locale_code)`. An absent `requested`
   * stands for the default argument, the `LANGUAGE_CODE` of import time.
   * The locale is normalised first (logging as the normaliser does); a
   * missing name is an error; a template in the normalised locale is
   * returned itself; otherwise its translation in that locale, or, when
   * there is none, the template itself after one more log call.
   */
  function GetByNameThenLocale(cfg: Config, imported: ModuleState, templates: seq<Template>,
                               translations: seq<Translation>, name: string, requested: Option<string>): (r: Lookup)
    ensures var locale := LocaleArgument(imported, requested);
      && r.result == Failure(EmailTemplateDoesNotExist(name)) <==> forall t :: t in templates ==> t.name != name
    ensures var locale := LocaleArgument(imported, requested);
      CleanLanguageCode(cfg, locale).log <= r.log
    ensures r.result.Success? && r.result.value.Primary? ==>
      r.result.value.template in templates && r.result.value.template.name == name
    ensures r.result.Success? && r.result.value.Translated? ==>
      var locale := LocaleArgument(imported, requested);
      var tr := r.result.value.translation;
      && tr in translations && tr.locale == CleanLanguageCode(cfg, locale).code
      && exists t :: t in templates && t.name == name && t.pk == tr.parent && t.locale != tr.locale
  {
    var locale := LocaleArgument(imported, requested);
    var normalised := CleanLanguageCode(cfg, locale);
    var cleaned := normalised.code;
    match Get(templates, (t: Template) => t.name == name)
    case DoesNotExist => Lookup(Failure(EmailTemplateDoesNotExist(name)), normalised.log)
    case MultipleObjectsReturned => Lookup(Failure(LookupError.MultipleObjectsReturned), normalised.log)
    case Found(template) =>
      if template.locale == cleaned then Lookup(Success(Primary(template)), normalised.log)
      else
        var matches := TranslationsIn(translations, template.pk, cleaned);
        if |matches| == 0 then
          Lookup(Success(Primary(template)),
                 normalised.log + [LogEntry(cfg.lookupLogLevel, TemplateFallback(locale, template.name))])
        else if |matches| == 1 then
          assert matches[0] in matches;
          Lookup(Success(Translated(matches[0])), normalised.log)
        else Lookup(Failure(LookupError.MultipleObjectsReturned), normalised.log)
  }

  /** A table where names are unique, as the storage constraint keeps them, has one row per name. */
  lemma UniqueNameIsFound(templates: seq<Template>, k: nat)
    requires NamesDistinct(templates) && k < |templates|
    ensures Get(templates, (t: Template) => t.name == templates[k].name) == Found(templates[k])
  {
    var cond := (t: Template) => t.name == templates[k].name;
    FilterAtMostOne(templates, cond);
    assert templates[k] in Filter(templates, cond);
  }

  /**
   * Once a template with the name is stored, the lookup never fails (on a
   * store whose invariants hold and a non-empty normalised locale) and it
   * returns: the template itself when its locale is the normalised one;
   * else its translation in that locale when there is one; else the
   * template itself, logging the fallback.
   */
  lemma LookupOnceFound(cfg: Config, imported: ModuleState, templates: seq<Template>,
                        translations: seq<Translation>, k: nat, requested: Option<string>)
    requires NamesDistinct(templates) && LocalesDistinctPerParent(translations)
    requires k < |templates|
    requires var locale := LocaleArgument(imported, requested);
      CleanLanguageCode(cfg, locale).code != ""
    ensures var locale := LocaleArgument(imported, requested);
      var normalised := CleanLanguageCode(cfg, locale);
      var t := templates[k];
      var r := GetByNameThenLocale(cfg, imported, templates, translations, t.name, requested);
      && (t.locale == normalised.code ==> r == Lookup(Success(Primary(t)), normalised.log))
      && (forall tr :: tr in translations && tr.parent == t.pk && tr.locale == normalised.code && t.locale != tr.locale ==>
            r == Lookup(Success(Translated(tr)), normalised.log))
      && ((t.locale != normalised.code && forall tr :: tr in translations ==> !(tr.parent == t.pk && tr.locale == normalised.code)) ==>
            r == Lookup(Success(Primary(t)),
                        normalised.log + [LogEntry(cfg.lookupLogLevel, TemplateFallback(locale, t.name))]))
  {
    var locale := LocaleArgument(imported, requested);
    var cleaned := CleanLanguageCode(cfg, locale).code;
    var t := templates[k];
    UniqueNameIsFound(templates, k);
    var matches := TranslationsIn(translations, t.pk, cleaned);
    forall tr | tr in translations && tr.parent == t.pk && tr.locale == cleaned
      ensures matches == [tr]
    {
      OnlyTranslationInLocale(translations, tr);
    }
  }

  /**
   * Where each template has at most one translation per non-empty locale,
   * a translation in such a locale is the only one its lookup matches.
   */
  lemma OnlyTranslationInLocale(translations: seq<Translation>, tr: Translation)
    requires LocalesDistinctPerParent(translations)
    requires tr in translations && tr.locale != ""
    ensures TranslationsIn(translations, tr.parent, tr.locale) == [tr]
  {
    var cond := (x: Translation) => x.parent == tr.parent && x.locale == tr.locale;
    forall i, j | 0 <= i < j < |translations| && cond(translations[i])
      ensures !cond(translations[j])
    {
      assert translations[i].parent == translations[j].parent ==> translations[i].locale != translations[j].locale;
    }
    FilterAtMostOne(translations, cond);
    var matches := TranslationsIn(translations, tr.parent, tr.locale);
    assert tr in matches;
    assert |matches| == 1;
  }
}
