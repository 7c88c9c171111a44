# django-appmail, modelled in Dafny

django-appmail stores transactional email templates in the database. An
`EmailTemplate` is a named, localised bundle of a subject, an HTML body and
a plaintext body. An `EmailTemplateTranslation` holds the same content for
another locale and belongs to one primary template. This project models the
core of `appmail/models.py` and `appmail/helpers.py` and proves properties
about that model.

- `wrappers.dfy`: `Option` and `Result`.
- `rows.dfy`: the QuerySet operations the core uses, over a table held as a
  sequence of rows. `filter` keeps the rows a condition accepts, `get`
  insists on exactly one, and a save updates the row with the same primary
  key or appends a new one.
- `language_settings.dfy`: the settings the module reads (`LANGUAGE_CODE`,
  `LANGUAGES`), and the one-time rewrite at import into `_LANGUAGE_CODE` and
  `_LANGUAGES`.
- `locale.dfy`: the locale normaliser `_clean_language_code_input`. Log
  calls are returned as a trace of (level, event) entries.
- `templates.dfy`: the rows of both tables and the plaintext prepopulation
  of `EmailTemplateContentBase.save`. It also holds the integrity guard
  `_enforce_integrity`, and a `TemplateStore` class whose `SaveTemplate` and
  `SaveTranslation` methods are the models' `save()` calls. `Valid()` is the
  store invariant: unique keys, unique template names, translation locales
  distinct per parent, and every parent present.
- `resolver.dfy`: `get_by_name_then_locale`, over a snapshot of the two
  tables.
- `template_vars.dfy`: `extract_vars`. The pattern `{{([ ._[a-z]*)}}` is
  modelled as the maximal run of class characters between `{{` and `}}`.
  `findall` is a left-to-right scan.
- `var_tree.dfy`: `list_to_dict` (dotted names to a tree of nested
  dictionaries) and `populate` (empty leaves replaced by `func(key)`).
- `scenarios.dfy`: the model tests of `appmail/tests/test_models.py`,
  replayed on the model.

Where the code and its description differ, the model follows the code:

- The normaliser reads the host's `LANGUAGES` and `LANGUAGE_CODE`, not the
  rewritten `_LANGUAGES` and `_LANGUAGE_CODE`.
- The normaliser's fallback default need not be a configured code.
- The two-character core is cut from the raw input, not from the cleaned
  one. So `EN-XX` does not fall back to `en` (`Locale.CoreIsTakenBeforeCleaning`).
- The lookup's default argument is `LANGUAGE_CODE` as it was when the module
  was imported.
- A Django model instance is always truthy, so the guard's parent test never
  skips. A missing parent fails when it is fetched (`ParentDoesNotExist`).
- An empty locale skips both integrity checks. So the distinct-locale
  invariant is stated for non-empty locales only.
- Once a name is found, the lookup can still fail, with
  `MultipleObjectsReturned`. This happens only when several translations
  share the requested locale, which the guard allows only for the empty
  locale.

## Model

| member | source | states |
|---|---|---|
| LanguageSettings.FieldDefaultLocale | appmail/models.py:22-24 | `_LANGUAGE_CODE` differs from the setting exactly when the setting is `en-us`, which becomes `en`; it is never `en-us` |
| LanguageSettings.RelabelLanguages | appmail/models.py:28-34 | `_LANGUAGES` has the settings' entries in order with the same codes; the `en` entry is renamed "English (American)", every other entry is kept; the code set is unchanged |
| LanguageSettings.ImportModels | appmail/models.py:22-34 | import fixes the field default (`en-us` mapped to `en`), the relabelled choices, and the raw `LANGUAGE_CODE` as the lookup's default argument |
| LanguageSettings.Codes | appmail/models.py:66 | the set of codes is exactly the first components of the language list |
| Locale.Clean | appmail/models.py:64 | same length; each `_` becomes `-`; each upper-case letter becomes its lower-case letter; every other character is unchanged; no upper-case letter and no `_` remains |
| Locale.CorePrefix | appmail/models.py:70 | the first two characters of the raw code (all of it when shorter), a prefix of the input |
| Locale.CleanLanguageCode | appmail/models.py:47-89 | a configured cleaned code is returned as is, with no log; else a configured two-character core, with exactly one log entry at the configured level naming input and core; else the configured default, with no log; the result is configured or is the default |
| Locale.CleanIdempotent | appmail/models.py:64 | cleaning a cleaned code changes nothing |
| Locale.SyntaxVariantsAgree | appmail/models.py:64-67 | two spellings with the same configured clean form normalise identically, and like that clean form |
| Locale.NormalisedIsStable | appmail/models.py:64-89 | with clean configured codes, normalising a configured result again returns it with no log |
| Locale.RegionalCodesNormalise | appmail/tests/test_models.py:322-338 | `en_GB`, `en-GB`, `en-gb` give `en-gb` and `en` gives `en`, without a log call |
| Locale.CoreLanguageFallback | appmail/models.py:70-87 | `en-US`, `en_US`, `en-us` give `en` with one log entry at the configured level |
| Locale.UnknownRegionFallback | appmail/tests/test_models.py:271-311 | `de-xx` gives `de` with one log entry at whatever level is configured (warning by default, error in the test) |
| Locale.CoreIsTakenBeforeCleaning | appmail/models.py:70 | `EN-XX` has a configured core once cleaned but normalises to the default, because the raw core `EN` is not configured |
| Rows.Filter | appmail/models.py:308-311 | the rows kept are exactly those satisfying the condition, each as many times as the table holds it; none satisfying gives `[]` |
| Rows.FilterNonEmpty | appmail/models.py:308-311 | `filter` returns at least one row exactly when some row satisfies the condition |
| Rows.FilterTwo | appmail/models.py:117-123 | `filter` returns at least two rows exactly when two distinct positions of the table satisfy the condition |
| Rows.Get | appmail/models.py:117-123 | `DoesNotExist` exactly when no row satisfies the condition; `MultipleObjectsReturned` exactly when two distinct positions satisfy it; a found row satisfies it and is the only one that does |
| Rows.FilterAtMostOne | appmail/models.py:129-131 | when no two rows satisfy the condition, `filter` returns at most one row |
| Rows.Upsert | appmail/models.py:342 | a write replaces the row with the same key in place or appends; other rows are kept; appends exactly when no row has the key |
| Templates.PrepopulateText | appmail/models.py:192-197 | subject and HTML body are never changed; only a first save with a blank plaintext body sets it to `html2text(html)`; otherwise the content is kept |
| Templates.PrepopulationHappensOnce | appmail/models.py:192-197 | a later save keeps the plaintext body generated by the first |
| Templates.UpsertTemplateKeepsInvariants | appmail/models.py:204-207 | a template write that passes the name constraint keeps keys and names unique |
| Templates.UpsertTemplateReplaces | appmail/models.py:197 | saving under a stored key replaces that row in place |
| Templates.UpsertTemplatePks | appmail/models.py:197 | a template write adds its key to the stored keys and removes none |
| Templates.EnforceIntegrity | appmail/models.py:306-336 | an empty locale passes; otherwise a clash with another row of the same parent and locale (the row itself excluded on a re-save) is reported first; a locale equal to the parent's second; the draft passes exactly when neither applies |
| Templates.ResaveIsNotADuplicate | appmail/models.py:312-314 | re-saving a stored translation whose locale still differs from its parent's passes the guard |
| Templates.ResaveKeepsTable | appmail/models.py:338-342 | writing a stored translation back unchanged leaves the table as it was |
| Templates.GuardKeepsLocalesDistinct | appmail/models.py:291-342 | a write that passed the guard keeps translation keys unique and locales distinct per parent |
| Templates.UpsertTranslationParents | appmail/models.py:256-260 | a translation write whose parent is stored keeps every parent reference valid |
| Templates.PkIdentifiesTemplate | appmail/models.py:309 | with unique keys, a stored template is the only one with its key |
| Templates.TemplateWriteKeepsInvariant | appmail/models.py:192-207 | a template write that passes the name constraint keeps the whole store invariant, with the key counter advanced past the key |
| Templates.TranslationWriteKeepsInvariant | appmail/models.py:338-342 | a translation write that passed the guard keeps the whole store invariant, with the key counter advanced past the key |
| Templates.TemplateStore.Valid | appmail/models.py:203-212 | the store invariant: template keys and names unique (the name field is `unique=True`), translation keys unique, non-empty translation locales distinct per parent (the guard of models.py:291-342), every parent present, and both counters past every stored key |
| Templates.TemplateStore.constructor | appmail/models.py:200-267 | an empty store satisfies the invariant |
| Templates.TemplateStore.SaveTemplate | appmail/models.py:192-207 | fails with the duplicate-name error exactly when another template has the name, and then changes nothing; otherwise writes the prepopulated row under the draft's key or a fresh one; keeps the invariant and never touches translations |
| Templates.TemplateStore.SaveTranslation | appmail/models.py:291-342 | fails with `ParentDoesNotExist` exactly when the parent is missing; otherwise fails with the guard's error exactly when the guard reports one, changing nothing; else writes the prepopulated row under the draft's key or a fresh one; keeps the invariant and never touches templates |
| Resolver.LocaleArgument | appmail/models.py:91 | the `locale_code` the lookup works with: the one passed, else the `LANGUAGE_CODE` fixed when the module was imported |
| Resolver.TranslationsIn | appmail/models.py:129-131 | the translations of one parent in one locale, exactly, each as many times as the table holds it |
| Resolver.OnlyTranslationInLocale | appmail/models.py:129-131 | under the distinct-locale invariant, a translation in a non-empty locale is the only one its parent and locale match |
| Resolver.GetByNameThenLocale | appmail/models.py:91-149 | fails with `EmailTemplateDoesNotExist` exactly when no template has the name, whatever the locale; the normaliser's log comes first; a primary result is the named template; a translated result is in the normalised locale and belongs to the named template |
| Resolver.UniqueNameIsFound | appmail/models.py:117-120 | with unique names, `get(name=...)` finds the template with that name |
| Resolver.LookupOnceFound | appmail/models.py:125-149 | once the name is stored, the lookup returns the template when its locale is the normalised one; else its translation in that locale; else the template, with one more log entry |
| TemplateVars.RunLength | appmail/helpers.py:6 | the longest run of class characters from a position |
| TemplateVars.RunStopsAt | appmail/helpers.py:6 | a run of class characters followed by a non-class character is the maximal run |
| TemplateVars.MatchIsMaximalRun | appmail/helpers.py:6 | any captured body is the maximal run after `{{`, followed by `}}` |
| TemplateVars.MatchAt | appmail/helpers.py:6 | a returned body is a match at that position: `{{`, class characters only, `}}`, within the text |
| TemplateVars.MatchAtComplete | appmail/helpers.py:6 | every body the pattern captures at a position is the one `MatchAt` returns |
| TemplateVars.Scan | appmail/helpers.py:18 | `TEMPLATE_VARS.findall` from a position: the leftmost match, then the scan resumed after it; a position with no match is skipped; its properties are the `Scan*` lemmas below |
| TemplateVars.ScanFindsMatches | appmail/helpers.py:18 | every element `findall` returns is the match at its start, at or after the scan position |
| TemplateVars.ScanInOrder | appmail/helpers.py:18 | the matches `findall` returns are left to right and do not overlap |
| TemplateVars.ScanStartsAfter | appmail/helpers.py:18 | the first match found starts at or after the scan position |
| TemplateVars.ScanMissesNothing | appmail/helpers.py:18 | every position where the pattern matches is covered by a match `findall` returns |
| TemplateVars.MissesNothingAfterMatch | appmail/helpers.py:18 | the same, where a match starts at the scan position |
| TemplateVars.Strip | appmail/helpers.py:18 | `strip()` of a body: a slice of it, no leading or trailing space, only spaces cut |
| TemplateVars.StripKeepsClass | appmail/helpers.py:18 | stripping keeps only class characters |
| TemplateVars.StripAll | appmail/helpers.py:18 | one stripped body per match, in order |
| TemplateVars.ExtractVars | appmail/helpers.py:9-18 | one name per match, in order, each the stripped body; every name has only class characters and no surrounding spaces |
| TemplateVars.NoOpeningBracesNoVars | appmail/helpers.py:18 | text without `{{` gives no match |
| TemplateVars.NoBracesNoVars | appmail/helpers.py:9-18 | `extract_vars` of text without `{{` is empty |
| TemplateVars.OutOfClassBlocksMatch | appmail/helpers.py:6 | braces whose content holds an upper-case letter or digit before `}}` do not match there |
| TemplateVars.StripExample | appmail/helpers.py:18 | `" a.b "` strips to `"a.b"` |
| TemplateVars.FirstMatchExample | appmail/helpers.py:6 | in `{{ a.b }}{{ B }}` the first pair matches `" a.b "` |
| TemplateVars.SecondPairExample | appmail/helpers.py:6 | nothing matches from the second pair `{{ B }}` on |
| TemplateVars.ScanExample | appmail/helpers.py:18 | `findall` on `{{ a.b }}{{ B }}` finds one match |
| TemplateVars.ExtractVarsExample | appmail/helpers.py:9-18 | `extract_vars("{{ a.b }}{{ B }}")` is `["a.b"]` |
| VarTree.FirstDot | appmail/helpers.py:41 | the position of the first `.`, or the length when there is none |
| VarTree.Split | appmail/helpers.py:41 | `split('.')` is never empty, its parts contain no `.`, and joining them with `.` gives the input back |
| VarTree.SplitJoin | appmail/helpers.py:41 | splitting a `.`-join of dot-free parts gives the parts back |
| VarTree.Insert | appmail/helpers.py:40-42 | the `setdefault` walk keeps a tree of dictionaries, adds the first key, and keeps every other key's subtree |
| VarTree.InsertPaths | appmail/helpers.py:40-42 | after inserting an item, the paths are the old ones plus the prefixes of the item's parts |
| VarTree.BuildTree | appmail/helpers.py:38-43 | the result is a tree of dictionaries |
| VarTree.BuildTreePaths | appmail/helpers.py:38-43 | a key path exists exactly when it is empty or a prefix of some item's parts |
| VarTree.ListToDict | appmail/helpers.py:38-43 | the loop computes `BuildTree`; an empty list gives `{}`; the key paths are exactly the prefixes of the items' parts |
| VarTree.SamePathsSameTree | appmail/helpers.py:38-43 | two trees of dictionaries with the same paths are equal |
| VarTree.ListToDictIgnoresOrder | appmail/helpers.py:39 | the tree depends only on the set of items, not on their order or repetition |
| VarTree.ChildComesFromItem | appmail/helpers.py:40-42 | every key below a node comes from an item whose parts continue that node's path |
| VarTree.ItemMakesChild | appmail/helpers.py:40-42 | an item that continues a node's path puts its next part below that node |
| VarTree.LeavesAreWholeItems | appmail/helpers.py:38-43 | a node is an empty dictionary exactly when no item's parts continue its path |
| VarTree.DocstringExample | appmail/helpers.py:29-36 | `['a', 'b.c']` gives `{'a': {}, 'b': {'c': {}}}` |
| VarTree.DocstringInputAsWritten | appmail/helpers.py:29 | the docstring's literal input `['a, b.c']` is one item and gives `{'a, b': {'c': {}}}` |
| VarTree.Populated | appmail/helpers.py:57-61 | on success the input was a dictionary and every level keeps its key set |
| VarTree.Populate | appmail/helpers.py:46-61 | the key-by-key loop computes `Populated` |
| VarTree.PopulateSucceedsOnDicts | appmail/helpers.py:57-61 | `populate` succeeds exactly on trees that are dictionaries all the way down |
| VarTree.PopulatedAt | appmail/helpers.py:57-61 | at every non-empty path, the populated tree holds `func` of the last key where an empty dictionary was, and the populated subtree elsewhere |
| VarTree.PopulatedLeaves | appmail/helpers.py:38-61 | after `populate(list_to_dict(items), func)` each item's full path, when no item continues it, holds `func` of its last part |
| Scenarios.SaveParent | appmail/tests/test_models.py:90-100 | a second template under a taken name is refused with the duplicate-name error, whatever its locale |
| Scenarios.AddTranslation | appmail/tests/test_models.py:102-115 | a first translation save in a locale the parent does not have is appended |
| Scenarios.FirstSaves | appmail/tests/test_models.py:87-115 | after these saves, one template and its three translations `es-ar`, `es`, `es-mx` are stored, and only the duplicate name was refused |
| Scenarios.RefuseTakenLocale | appmail/tests/test_models.py:116-132 | a second `es-mx` translation is refused with the duplicate-translation error, and nothing changes |
| Scenarios.ResaveAccepted | appmail/tests/test_models.py:134-138 | re-saving the `es-mx` translation is accepted and leaves the tables as they were |
| Scenarios.RefuseParentLocale | appmail/tests/test_models.py:140-159 | a translation in the parent's locale `cn` is refused with the same-language error, and nothing changes |
| Scenarios.UniqueConstraints | appmail/tests/test_models.py:87-159 | the outcomes of the eight saves of the test, in order |
| Scenarios.FirstTemplateSave | appmail/tests/test_models.py:345-362 | the first save generates the plaintext body from the HTML body |
| Scenarios.EditPlaintext | appmail/tests/test_models.py:364-371 | a later save keeps the edited plaintext body and replaces the stored row |
| Scenarios.PlaintextOnFirstSaveOnly | appmail/tests/test_models.py:345-371 | generated on the first save, kept as edited on the second, and the stored row is the edited one |
| Scenarios.LookupLocales | appmail/tests/test_models.py:161-242 | with `LANGUAGE_CODE` `en-us`: `de` and `en-gb` are kept, `de-xx` gives `de` and `en-us` gives `en` |
| Scenarios.LookupTablesValid | appmail/tests/test_models.py:167-198 | the test's two templates and four translations satisfy the storage invariants |
| Scenarios.LookupExactTranslation | appmail/tests/test_models.py:200-215 | a translation in the requested locale is returned |
| Scenarios.LookupCoreTranslation | appmail/tests/test_models.py:217-225 | `de-xx` finds the `de` translation |
| Scenarios.LookupPrimary | appmail/tests/test_models.py:227-242 | `en-us`, given or as the default argument, returns the primary `en` template |
| Scenarios.LookupMissingName | appmail/tests/test_models.py:244-249 | an unknown name raises `EmailTemplateDoesNotExist` |

## Left out

- `html2text` is a foreign library; it is a function parameter of the saves.
- Logger dispatch (`getattr(logger, level)`) and message formatting are not modelled. Log calls are a trace of (level, event) entries, and the level is one of `debug`, `info`, `warning`, `error` and `critical`. The logger's other methods (`exception`, `warn`, `fatal`), which the setting could also name, are not modelled.
- A log-level setting that names no logger method (which would raise) is not modelled.
- `ugettext` translation of error messages is not modelled; errors are datatype variants carrying the name and locale they report.
- The ORM, SQL and the storage-level unique constraint are replaced by the in-memory `TemplateStore` with one sequence per table.
- Cascade deletes through the parent foreign key are not modelled; the model has no delete operation.
- The check-then-act race between concurrent writers is not modelled; the model is sequential.
- `__unicode__` and `__repr__` rendering are not modelled (nor the reference to the nonexistent `parent_templates` attribute in `EmailTemplateTranslation.__unicode__`).
- `str.lower()` is modelled on ASCII letters only.
- `str.strip()` is modelled as stripping spaces only; a match body can hold no other whitespace.
- The host's full default `LANGUAGES` list is not modelled; the examples use the entries they need (`ExampleLanguages`).
- The field `choices` are not enforced on save (neither are they by `Model.save`), and the field default locale is applied by the framework when an instance is created, so drafts carry their locale.
- Templates.TemplateStore.Valid: a translation's locale differs from its parent's locale only at the time the translation is saved; a later change of the template's locale is not checked, so that property is not part of the store invariant.
- `list_to_dict` and `populate` mutate dictionaries in place. The model works on values, so aliasing between subtrees is not captured, and neither is the partial update `populate` leaves behind when it fails part way.
- The in-memory effects of `save()` on the instance are not modelled; drafts are values. `EmailTemplateContentBase.save` (appmail/models.py:194-197) sets `text_template` on the instance before the write, so a save that is then refused (a duplicate name, say) still leaves the generated plaintext on the instance.
- `list_to_dict` builds Python dictionaries, which keep key insertion order, and `populate` calls `func` in that order. The model's trees use Dafny maps, which have no order, so neither the key order of the result nor the order of the `func` calls is captured.
- The translation guard and its error messages read the parent from the stored table, while `_enforce_integrity` (appmail/models.py:306, 322, 327, 333) reads `self.parent_template`, the parent instance the translation holds, which may be stale. When the parent's locale was changed and saved through another instance, the source compares with the old locale and can store a translation in the parent's current locale; the model refuses it with `SameLanguageAsParent`.
- admin.py, urls.py, setup.py and test_app/settings.py are not part of this model.
