/**
 * The behaviours the repository's model tests exercise, replayed on the
 * model: the unique constraints on a store built by successive saves, the
 * lookup over two templates with two translations each, and plaintext
 * prepopulation on the first save only.
 */
module Scenarios {
  import opened Wrappers
  import opened LanguageSettings
  import opened Locale
  import opened Templates
  import opened Resolver

  const LoremHtml := "<p>Lorem ipsum</p>"
  const Lorem := Content("", LoremHtml, "")
  const FirstName := "test_template_1"
  const SecondName := "test_template_2"

  /** The error a save raised, if any. */
  function ErrorOf<T>(r: Result<T, SaveError>): (e: Option<SaveError>)
    ensures e.None? <==> r.Success?
  {
    if r.Success? then None else Some(r.error)
  }

  /** A primary template saved, then a second one under the same name refused. */
  method SaveParent(html2text: string -> string)
    returns (store: TemplateStore, parent: Template, outcomes: seq<Option<SaveError>>)
    ensures fresh(store) && store.Valid()
    ensures store.templates == [parent] && store.translations == []
    ensures parent.name == FirstName && parent.locale == "cn"
    ensures outcomes == [None, Some(DuplicateTemplateName(FirstName))]
  {
    store := new TemplateStore();
    var r1 := store.SaveTemplate(TemplateDraft(None, FirstName, "cn", Lorem), html2text);
    parent := r1.value;
    assert store.templates == [parent];
    var r2 := store.SaveTemplate(TemplateDraft(None, FirstName, "en", Lorem), html2text);
    outcomes := [ErrorOf(r1), ErrorOf(r2)];
  }

  /** A first save of a translation in a locale its parent does not have yet is appended. */
  method AddTranslation(store: TemplateStore, parent: Template, locale: string, html2text: string -> string)
    returns (r: Result<Translation, SaveError>)
    requires store.Valid() && parent in store.templates
    requires locale != "" && locale != parent.locale
    requires forall x :: x in store.translations && x.parent == parent.pk ==> x.locale != locale
    modifies store
    ensures store.Valid() && store.templates == old(store.templates)
    ensures r.Success? && r.value.parent == parent.pk && r.value.locale == locale
    ensures store.translations == old(store.translations) + [r.value]
  {
    var d := TranslationDraft(None, parent.pk, locale, Lorem);
    assert EnforceIntegrity(parent, store.translations, d) == None by {
      assert forall i :: 0 <= i < |store.translations| ==> !ClashesWith(store.translations[i], d) by {
        forall i | 0 <= i < |store.translations|
          ensures !ClashesWith(store.translations[i], d)
        {
          assert store.translations[i] in store.translations;
        }
      }
    }
    r := store.SaveTranslation(d, html2text);
  }

  /**
   * The first saves of the unique-constraint scenario: a primary template,
   * a second one under the same name, and three translations of the first
   * in distinct locales.
   */
  method FirstSaves(html2text: string -> string)
    returns (store: TemplateStore, parent: Template, rows: seq<Translation>, outcomes: seq<Option<SaveError>>)
    ensures fresh(store) && AfterFirstSaves(store, parent, rows)
    ensures outcomes == [None, Some(DuplicateTemplateName(FirstName)), None, None, None]
  {
    var early;
    store, parent, early := SaveParent(html2text);
    assert parent in store.templates;
    var s1 := AddTranslation(store, parent, "es-ar", html2text);
    var s2 := AddTranslation(store, parent, "es", html2text);
    var s3 := AddTranslation(store, parent, "es-mx", html2text);
    rows := store.translations;
    outcomes := early + [ErrorOf(s1), ErrorOf(s2), ErrorOf(s3)];
  }

  /** The store after the first saves: one template, three translations of it. */
  ghost predicate AfterFirstSaves(store: TemplateStore, parent: Template, rows: seq<Translation>)
    reads store
  {
    && store.Valid() && store.templates == [parent] && store.translations == rows
    && parent.name == FirstName && parent.locale == "cn" && |rows| == 3
    && rows[0].parent == parent.pk && rows[1].parent == parent.pk && rows[2].parent == parent.pk
    && rows[0].locale == "es-ar" && rows[1].locale == "es" && rows[2].locale == "es-mx"
  }

  /** A new translation in a locale its parent already has is refused, and nothing changes. */
  method RefuseTakenLocale(store: TemplateStore, parent: Template, rows: seq<Translation>, html2text: string -> string)
    returns (e: Option<SaveError>)
    requires AfterFirstSaves(store, parent, rows)
    modifies store
    ensures AfterFirstSaves(store, parent, rows)
    ensures e == Some(DuplicateTranslation(FirstName, "es-mx"))
  {
    assert parent in store.templates;
    var d := TranslationDraft(None, parent.pk, "es-mx", Lorem);
    assert EnforceIntegrity(parent, rows, d) == Some(DuplicateTranslation(FirstName, "es-mx")) by {
      assert ClashesWith(rows[2], d);
    }
    var r := store.SaveTranslation(d, html2text);
    e := ErrorOf(r);
  }

  /** Re-saving a stored translation is accepted and leaves the table as it was. */
  method ResaveAccepted(store: TemplateStore, parent: Template, rows: seq<Translation>, html2text: string -> string)
    returns (e: Option<SaveError>)
    requires AfterFirstSaves(store, parent, rows)
    modifies store
    ensures AfterFirstSaves(store, parent, rows)
    ensures e == None
  {
    assert parent in store.templates;
    ResaveIsNotADuplicate(parent, rows, 2);
    ResaveKeepsTable(rows, 2);
    var r := store.SaveTranslation(Resave(rows[2]), html2text);
    e := ErrorOf(r);
  }

  /** A translation in its parent's own locale is refused, and nothing changes. */
  method RefuseParentLocale(store: TemplateStore, parent: Template, rows: seq<Translation>, html2text: string -> string)
    returns (e: Option<SaveError>)
    requires AfterFirstSaves(store, parent, rows)
    modifies store
    ensures AfterFirstSaves(store, parent, rows)
    ensures e == Some(SameLanguageAsParent(FirstName, "cn"))
  {
    assert parent in store.templates;
    var d := TranslationDraft(None, parent.pk, "cn", Lorem);
    assert !HasClash(rows, d) by {
      assert forall i :: 0 <= i < |rows| ==> rows[i].locale != "cn";
    }
    var r := store.SaveTranslation(d, html2text);
    e := ErrorOf(r);
  }

  /**
   * One primary template per name whatever its locale; several translations
   * of one parent in distinct locales; a second translation in a taken
   * locale is refused; re-saving a stored translation is accepted and
   * changes nothing; a translation in the parent's own locale is refused.
   */
  method UniqueConstraints(html2text: string -> string) returns (outcomes: seq<Option<SaveError>>)
    ensures outcomes == [
      None, Some(DuplicateTemplateName(FirstName)),
      None, None, None, Some(DuplicateTranslation(FirstName, "es-mx")),
      None, Some(SameLanguageAsParent(FirstName, "cn"))]
  {
    var store, parent, rows, early := FirstSaves(html2text);
    var e4 := RefuseTakenLocale(store, parent, rows, html2text);
    var e5 := ResaveAccepted(store, parent, rows, html2text);
    var e6 := RefuseParentLocale(store, parent, rows, html2text);
    outcomes := early + [e4, e5, e6];
  }

  /** The first save of a template with a blank plaintext body generates it from the HTML body. */
  method FirstTemplateSave(html2text: string -> string) returns (store: TemplateStore, first: Template)
    ensures fresh(store) && store.Valid() && store.templates == [first]
    ensures first.content == Content("", LoremHtml, html2text(LoremHtml))
  {
    store := new TemplateStore();
    var r := store.SaveTemplate(TemplateDraft(None, "test_template", "es-mx", Lorem), html2text);
    first := r.value;
  }

  /** A later save with an edited plaintext body keeps the edit and replaces the stored row. */
  method EditPlaintext(store: TemplateStore, first: Template, edited: string, html2text: string -> string)
    returns (second: Template)
    requires store.Valid() && store.templates == [first]
    modifies store
    ensures second.pk == first.pk && second.content == first.content.(text := edited)
    ensures store.templates == [second]
  {
    var d := TemplateDraft(Some(first.pk), first.name, first.locale, first.content.(text := edited));
    assert !NameTaken(store.templates, d.name, first.pk);
    var r := store.SaveTemplate(d, html2text);
    second := r.value;
    UpsertTemplateReplaces([first], 0, second);
  }

  /**
   * The first save of a template with a blank plaintext body generates it
   * from the HTML body; a later save with an edited plaintext body keeps the
   * edit, and the stored row is the edited one.
   */
  method PlaintextOnFirstSaveOnly(html2text: string -> string, edited: string)
    returns (first: Template, second: Template, stored: seq<Template>)
    ensures first.content == Content("", LoremHtml, html2text(LoremHtml))
    ensures second.pk == first.pk && second.content == Content("", LoremHtml, edited)
    ensures stored == [second]
  {
    var store;
    store, first := FirstTemplateSave(html2text);
    second := EditPlaintext(store, first, edited, html2text);
    stored := store.templates;
  }

  /** The host configuration of the lookup test: the default code is `en-us`, which is not configured. */
  const LookupConfig := Config(ExampleLanguages, "en-us", DefaultLookupLogLevel)
  /**
   * `ExampleLanguages` as `_LANGUAGES` holds them: the `en` entry relabelled,
   * which is what `RelabelLanguages(ExampleLanguages)` returns.
   */
  const RelabelledExampleLanguages: seq<Language> := [
    Language("de", "German"), Language("en", AmericanEnglishLabel), Language("en-au", "Australian English"),
    Language("en-gb", "British English"), Language("es", "Spanish"),
    Language("es-ar", "Argentinian Spanish"), Language("es-mx", "Mexican Spanish")
  ]

  /**
   * What importing the module under the lookup test's settings fixes: the
   * result of `ImportModels("en-us", ExampleLanguages)`. Only `lookupDefault`
   * is used by the lookup scenarios below.
   */
  const LookupImport := ModuleState("en", RelabelledExampleLanguages, "en-us")

  const LookupTemplates := [Template(1, FirstName, "en", Lorem), Template(2, SecondName, "en", Lorem)]
  const LookupTranslations := [
    Translation(1, 1, "en-gb", Lorem), Translation(2, 1, "de", Lorem),
    Translation(3, 2, "en-gb", Lorem), Translation(4, 2, "de", Lorem)]

  /** How the lookup test's locale arguments normalise. */
  lemma LookupLocales()
    ensures CleanLanguageCode(LookupConfig, "de") == Normalised("de", [])
    ensures CleanLanguageCode(LookupConfig, "en-gb") == Normalised("en-gb", [])
    ensures CleanLanguageCode(LookupConfig, "de-xx").code == "de"
    ensures CleanLanguageCode(LookupConfig, "en-us").code == "en"
  {
    assert Clean("de") == "de" && Clean("en-gb") == "en-gb";
    assert Clean("de-xx") == "de-xx" && Clean("en-us") == "en-us";
    assert forall i :: 0 <= i < |ExampleLanguages| ==> ExampleLanguages[i].code !in {"en-us", "de-xx"};
    assert CorePrefix("de-xx") == "de" && CorePrefix("en-us") == "en";
    assert ExampleLanguages[0].code == "de" && ExampleLanguages[1].code == "en" && ExampleLanguages[3].code == "en-gb";
  }

  /** The lookup test's tables keep both storage invariants. */
  lemma LookupTablesValid()
    ensures NamesDistinct(LookupTemplates) && LocalesDistinctPerParent(LookupTranslations)
  {
  }

  /** A translation in the requested locale is returned. */
  lemma LookupExactTranslation()
    ensures GetByNameThenLocale(LookupConfig, LookupImport, LookupTemplates, LookupTranslations, SecondName, Some("de")).result
      == Success(Translated(LookupTranslations[3]))
    ensures GetByNameThenLocale(LookupConfig, LookupImport, LookupTemplates, LookupTranslations, FirstName, Some("en-gb")).result
      == Success(Translated(LookupTranslations[0]))
  {
    LookupLocales();
    LookupTablesValid();
    LookupOnceFound(LookupConfig, LookupImport, LookupTemplates, LookupTranslations, 1, Some("de"));
    LookupOnceFound(LookupConfig, LookupImport, LookupTemplates, LookupTranslations, 0, Some("en-gb"));
    assert LookupTranslations[3] in LookupTranslations && LookupTranslations[0] in LookupTranslations;
  }

  /** A locale that only matches by its core language still finds the translation. */
  lemma LookupCoreTranslation()
    ensures GetByNameThenLocale(LookupConfig, LookupImport, LookupTemplates, LookupTranslations, SecondName, Some("de-xx")).result
      == Success(Translated(LookupTranslations[3]))
  {
    LookupLocales();
    LookupTablesValid();
    LookupOnceFound(LookupConfig, LookupImport, LookupTemplates, LookupTranslations, 1, Some("de-xx"));
    assert LookupTranslations[3] in LookupTranslations;
  }

  /**
   * `en-us` normalises to `en`, the primary template's own locale, so the
   * primary template is returned; so it is for the default argument, which
   * is `en-us` here.
   */
  lemma LookupPrimary()
    ensures GetByNameThenLocale(LookupConfig, LookupImport, LookupTemplates, LookupTranslations, SecondName, Some("en-us")).result
      == Success(Primary(LookupTemplates[1]))
    ensures GetByNameThenLocale(LookupConfig, LookupImport, LookupTemplates, LookupTranslations, SecondName, None).result
      == Success(Primary(LookupTemplates[1]))
  {
    LookupLocales();
    LookupTablesValid();
    LookupOnceFound(LookupConfig, LookupImport, LookupTemplates, LookupTranslations, 1, Some("en-us"));
    LookupOnceFound(LookupConfig, LookupImport, LookupTemplates, LookupTranslations, 1, None);
  }

  /** An unknown name raises `EmailTemplateDoesNotExist`, whatever the locale. */
  lemma LookupMissingName()
    ensures GetByNameThenLocale(LookupConfig, LookupImport, LookupTemplates, LookupTranslations, "test_template_WHICH_DOES_NOT_EXIST", Some("de-xx")).result
      == Failure(EmailTemplateDoesNotExist("test_template_WHICH_DOES_NOT_EXIST"))
  {
  }
}
