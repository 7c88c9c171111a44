/**
 * The stored email templates of appmail/models.py: primary templates
 * (`EmailTemplate`), their translations (`EmailTemplateTranslation`), the
 * plaintext prepopulation both share (`EmailTemplateContentBase.save`) and
 * the integrity guard run before a translation is written.
 *
 * The database is a `TemplateStore` object holding one sequence of rows
 * per table; its `Save...` methods are the models' `save()` calls.
 */
module Templates {
  import opened Wrappers
  import opened Rows

  /** Primary keys are assigned by auto-increment, from 1. */
  type Pk = n: int | n > 0 witness 1

  /** Subject, HTML body and plaintext body. */
  datatype Content = Content(subject: string, html: string, text: string)

  /** A stored `EmailTemplate` row. */
  datatype Template = Template(pk: Pk, name: string, locale: string, content: Content)

  /** A stored `EmailTemplateTranslation` row; `parent` is the primary key of its template. */
  datatype Translation = Translation(pk: Pk, parent: Pk, locale: string, content: Content)

  /** An `EmailTemplate` instance about to be saved; `pk` is `None` until its first save. */
  datatype TemplateDraft = TemplateDraft(pk: Option<Pk>, name: string, locale: string, content: Content)

  /** An `EmailTemplateTranslation` instance about to be saved. */
  datatype TranslationDraft = TranslationDraft(pk: Option<Pk>, parent: Pk, locale: string, content: Content)

  /** The errors a save can raise. */
  datatype SaveError =
    | DuplicateTemplateName(name: string)              // unique constraint on EmailTemplate.name
    | ParentDoesNotExist(parent: Pk)                   // the parent template cannot be fetched
    | DuplicateTranslation(name: string, locale: string)  // parent already has this locale
    | SameLanguageAsParent(name: string, locale: string)  // translation in its parent's locale

  /**
   * `EmailTemplateContentBase.save`, before the write: on the first save
   * (no primary key yet) a blank plaintext body is generated from the HTML
   * body by `html2text`; later saves keep the plaintext body as given, and
   * neither the subject nor the HTML body is ever touched.
   */
  function PrepopulateText(isNew: bool, c: Content, html2text: string -> string): (r: Content)
    ensures r.subject == c.subject && r.html == c.html
    ensures !isNew ==> r == c
    ensures c.text != "" ==> r == c
    ensures isNew && c.text == "" ==> r.text == html2text(c.html)
  {
    if isNew && c.text == "" then c.(text := html2text(c.html)) else c
  }

  /** Once the plaintext body has been generated, later saves keep it. */
  lemma PrepopulationHappensOnce(c: Content, html2text: string -> string)
    ensures var first := PrepopulateText(true, c, html2text);
      PrepopulateText(false, first, html2text) == first
  {
  }

  // ---- table invariants ----------------------------------------------------

  predicate TemplatePksDistinct(rows: seq<Template>) {
    forall i, j :: 0 <= i < j < |rows| ==> rows[i].pk != rows[j].pk
  }

  /** `name = SlugField(unique=True)`: no two primary templates share a name. */
  predicate NamesDistinct(rows: seq<Template>) {
    forall i, j :: 0 <= i < j < |rows| ==> rows[i].name != rows[j].name
  }

  predicate TranslationPksDistinct(rows: seq<Translation>) {
    forall i, j :: 0 <= i < j < |rows| ==> rows[i].pk != rows[j].pk
  }

  /**
   * What the integrity guard maintains: two translations of one parent
   * never share a non-empty locale. (An empty locale bypasses the guard.)
   */
  predicate LocalesDistinctPerParent(rows: seq<Translation>) {
    forall i, j :: 0 <= i < j < |rows| && rows[i].parent == rows[j].parent && rows[i].locale != "" ==>
      rows[i].locale != rows[j].locale
  }

  function TemplatePks(rows: seq<Template>): set<Pk> {
    set i | 0 <= i < |rows| :: rows[i].pk
  }

  /** Every translation's parent is a stored template. */
  predicate ParentsExist(translations: seq<Translation>, templates: seq<Template>) {
    forall i :: 0 <= i < |translations| ==> translations[i].parent in TemplatePks(templates)
  }

  // ---- primary templates ---------------------------------------------------

  /** Another stored template (a different primary key) already has this name. */
  predicate NameTaken(rows: seq<Template>, name: string, pk: Pk) {
    exists i :: 0 <= i < |rows| && rows[i].name == name && rows[i].pk != pk
  }

  function UpsertTemplate(rows: seq<Template>, row: Template): (r: seq<Template>) {
    Upsert(rows, row, (t: Template) => t.pk == row.pk)
  }

  /** A template write that passes the name constraint keeps both template invariants. */
  lemma UpsertTemplateKeepsInvariants(rows: seq<Template>, row: Template)
    requires TemplatePksDistinct(rows) && NamesDistinct(rows)
    requires !NameTaken(rows, row.name, row.pk)
    ensures TemplatePksDistinct(UpsertTemplate(rows, row)) && NamesDistinct(UpsertTemplate(rows, row))
  {
    var r := UpsertTemplate(rows, row);
    var same := (t: Template) => t.pk == row.pk;
    forall i, j | 0 <= i < j < |r|
      ensures r[i].pk != r[j].pk && r[i].name != r[j].name
    {
      if j == |rows| {
        assert r[j] == row && !same(rows[i]);
      } else if r[i] == row && same(rows[i]) {
        assert r[j] == rows[j];
      } else if r[j] == row && same(rows[j]) {
        assert r[i] == rows[i];
      }
    }
  }

  /** Writing a template under a stored key replaces that row in place. */
  lemma UpsertTemplateReplaces(rows: seq<Template>, k: nat, row: Template)
    requires TemplatePksDistinct(rows) && k < |rows| && rows[k].pk == row.pk
    ensures UpsertTemplate(rows, row) == rows[k := row]
  {
    var r := UpsertTemplate(rows, row);
    assert |r| == |rows|;
    forall j | 0 <= j < |rows|
      ensures r[j] == rows[k := row][j]
    {
      if j != k {
        assert rows[j].pk != rows[k].pk;
      }
    }
  }

  /** Writing a template adds its key to the set of stored keys and removes none. */
  lemma UpsertTemplatePks(rows: seq<Template>, row: Template)
    ensures TemplatePks(UpsertTemplate(rows, row)) == TemplatePks(rows) + {row.pk}
  {
    var r := UpsertTemplate(rows, row);
    forall p | p in TemplatePks(rows) + {row.pk}
      ensures p in TemplatePks(r)
    {
      if p == row.pk {
        var k :| 0 <= k < |r| && r[k] == row;
      } else {
        var k :| 0 <= k < |rows| && rows[k].pk == p;
        assert r[k] == rows[k];
      }
    }
    forall p | p in TemplatePks(r)
      ensures p in TemplatePks(rows) + {row.pk}
    {
      var k :| 0 <= k < |r| && r[k].pk == p;
      if k < |rows| && r[k] == rows[k] {
        assert p in TemplatePks(rows);
      }
    }
  }

  // ---- translations --------------------------------------------------------

  /**
   * The rows `_enforce_integrity` queries: the same parent and the same
   * locale, leaving out the row being re-saved when the draft has a key.
   */
  predicate ClashesWith(row: Translation, d: TranslationDraft) {
    row.parent == d.parent && row.locale == d.locale && (d.pk.None? || row.pk != d.pk.value)
  }

  predicate HasClash(rows: seq<Translation>, d: TranslationDraft) {
    exists i :: 0 <= i < |rows| && ClashesWith(rows[i], d)
  }

  /**
   * `EmailTemplateTranslation._enforce_integrity`: `None` when the draft may
   * be written. Both checks are skipped for an empty locale; otherwise an
   * existing translation of the same parent in the same locale is reported
   * first, and a locale equal to the parent's second.
   */
  function EnforceIntegrity(parent: Template, rows: seq<Translation>, d: TranslationDraft): (r: Option<SaveError>)
    requires parent.pk == d.parent
    ensures r.None? <==> d.locale == "" || (!HasClash(rows, d) && d.locale != parent.locale)
    ensures d.locale != "" && HasClash(rows, d) ==> r == Some(DuplicateTranslation(parent.name, d.locale))
    ensures r == Some(SameLanguageAsParent(parent.name, d.locale)) <==>
      d.locale != "" && !HasClash(rows, d) && d.locale == parent.locale
  {
    if d.locale != "" then
      if HasClash(rows, d) then Some(DuplicateTranslation(parent.name, d.locale))
      else if d.locale == parent.locale then Some(SameLanguageAsParent(parent.name, d.locale))
      else None
    else None
  }

  /** The draft that re-saves a stored translation unchanged. */
  function Resave(row: Translation): TranslationDraft {
    TranslationDraft(Some(row.pk), row.parent, row.locale, row.content)
  }

  /**
   * Re-saving a stored translation passes the guard, provided its locale
   * still differs from its parent's: the only row it could clash with is
   * itself, which the query leaves out.
   */
  lemma ResaveIsNotADuplicate(parent: Template, rows: seq<Translation>, k: nat)
    requires TranslationPksDistinct(rows) && LocalesDistinctPerParent(rows)
    requires k < |rows| && rows[k].parent == parent.pk && rows[k].locale != parent.locale
    ensures EnforceIntegrity(parent, rows, Resave(rows[k])) == None
  {
    var d := Resave(rows[k]);
    if d.locale != "" {
      forall i | 0 <= i < |rows|
        ensures !ClashesWith(rows[i], d)
      {
        if i < k {
          assert rows[i].locale != rows[k].locale || rows[i].parent != rows[k].parent;
        } else if k < i {
          assert rows[k].locale != rows[i].locale || rows[i].parent != rows[k].parent;
        }
      }
    }
  }

  function UpsertTranslation(rows: seq<Translation>, row: Translation): (r: seq<Translation>) {
    Upsert(rows, row, (t: Translation) => t.pk == row.pk)
  }

  /** Writing a stored translation back unchanged leaves the table as it was. */
  lemma ResaveKeepsTable(rows: seq<Translation>, k: nat)
    requires TranslationPksDistinct(rows) && k < |rows|
    ensures UpsertTranslation(rows, rows[k]) == rows
  {
    var r := UpsertTranslation(rows, rows[k]);
    assert |r| == |rows|;
    forall j | 0 <= j < |rows|
      ensures r[j] == rows[j]
    {
      if j != k {
        assert rows[j].pk != rows[k].pk;
      }
    }
  }

  /** The row a translation save writes, under the primary key `pk` it ends up with. */
  function TranslationRow(d: TranslationDraft, pk: Pk, html2text: string -> string): Translation {
    Translation(pk, d.parent, d.locale, PrepopulateText(d.pk.None?, d.content, html2text))
  }

  /**
   * A translation write that passed the guard keeps locales distinct per
   * parent: the guard has ruled out every other row with the same parent
   * and locale, and the row it replaces (if any) is its own earlier version.
   */
  lemma GuardKeepsLocalesDistinct(parent: Template, rows: seq<Translation>, d: TranslationDraft, row: Translation)
    requires TranslationPksDistinct(rows) && LocalesDistinctPerParent(rows)
    requires parent.pk == d.parent && EnforceIntegrity(parent, rows, d) == None
    requires row.parent == d.parent && row.locale == d.locale
    requires d.pk.Some? ==> row.pk == d.pk.value
    requires d.pk.None? ==> forall i :: 0 <= i < |rows| ==> rows[i].pk != row.pk
    ensures TranslationPksDistinct(UpsertTranslation(rows, row))
    ensures LocalesDistinctPerParent(UpsertTranslation(rows, row))
  {
    var r := UpsertTranslation(rows, row);
    var same := (t: Translation) => t.pk == row.pk;
    forall i, j | 0 <= i < j < |r|
      ensures r[i].pk != r[j].pk
      ensures r[i].parent == r[j].parent && r[i].locale != "" ==> r[i].locale != r[j].locale
    {
      if j == |rows| {
        assert r[j] == row && !same(rows[i]) && r[i] == rows[i];
        if row.locale != "" {
          assert !ClashesWith(rows[i], d);
        }
      } else if r[i] == row && same(rows[i]) {
        assert r[j] == rows[j] && !same(rows[j]);
        if row.locale != "" {
          assert !ClashesWith(rows[j], d);
        }
      } else if r[j] == row && same(rows[j]) {
        assert r[i] == rows[i] && !same(rows[i]);
        if row.locale != "" {
          assert !ClashesWith(rows[i], d);
        }
      }
    }
  }

  /** Rewriting a translation table never removes a primary key a translation referred to. */
  lemma UpsertTranslationParents(translations: seq<Translation>, templates: seq<Template>, row: Translation)
    requires ParentsExist(translations, templates) && row.parent in TemplatePks(templates)
    ensures ParentsExist(UpsertTranslation(translations, row), templates)
  {
  }

  // ---- the store -----------------------------------------------------------

  /**
   * What the store keeps true: keys and template names are unique, every
   * key is below its table's counter, translation locales are distinct per
   * parent, and every translation's parent is stored.
   */
  predicate StoreInvariant(templates: seq<Template>, translations: seq<Translation>, nextTemplatePk: int, nextTranslationPk: int) {
    && TemplatePksDistinct(templates) && NamesDistinct(templates)
    && (forall i :: 0 <= i < |templates| ==> templates[i].pk < nextTemplatePk)
    && TranslationPksDistinct(translations) && LocalesDistinctPerParent(translations)
    && (forall i :: 0 <= i < |translations| ==> translations[i].pk < nextTranslationPk)
    && ParentsExist(translations, templates)
  }

  /** The counter after a row with key `pk` is written. */
  function Bump(next: int, pk: int): (r: int)
    ensures r >= next && r > pk
  {
    if pk >= next then pk + 1 else next
  }

  /** Primary keys identify templates: a stored template is the only one with its key. */
  lemma PkIdentifiesTemplate(rows: seq<Template>, k: nat)
    requires TemplatePksDistinct(rows) && k < |rows|
    ensures rows[k].pk in TemplatePks(rows)
    ensures forall t :: t in rows && t.pk == rows[k].pk ==> t == rows[k]
  {
  }

  /** A template write that passes the name constraint keeps the store invariant. */
  lemma TemplateWriteKeepsInvariant(templates: seq<Template>, translations: seq<Translation>,
                                    nextT: int, nextTr: int, row: Template)
    requires StoreInvariant(templates, translations, nextT, nextTr)
    requires !NameTaken(templates, row.name, row.pk)
    ensures StoreInvariant(UpsertTemplate(templates, row), translations, Bump(nextT, row.pk), nextTr)
  {
    UpsertTemplateKeepsInvariants(templates, row);
    UpsertTemplatePks(templates, row);
    var r := UpsertTemplate(templates, row);
    assert forall i :: 0 <= i < |r| ==> r[i] == row || r[i] in templates;
  }

  /**
   * A translation write that passed the guard keeps the store invariant: the
   * row keeps the key of the draft it re-saves, or takes the next counter
   * value on a first save.
   */
  lemma TranslationWriteKeepsInvariant(templates: seq<Template>, translations: seq<Translation>,
                                       nextT: int, nextTr: int, parent: Template,
                                       d: TranslationDraft, row: Translation)
    requires StoreInvariant(templates, translations, nextT, nextTr)
    requires parent in templates && parent.pk == d.parent && EnforceIntegrity(parent, translations, d) == None
    requires row.parent == d.parent && row.locale == d.locale
    requires d.pk.Some? ==> row.pk == d.pk.value
    requires d.pk.None? ==> row.pk == nextTr
    ensures StoreInvariant(templates, UpsertTranslation(translations, row), nextT, Bump(nextTr, row.pk))
  {
    GuardKeepsLocalesDistinct(parent, translations, d, row);
    assert row.parent in TemplatePks(templates);
    UpsertTranslationParents(translations, templates, row);
    var r := UpsertTranslation(translations, row);
    assert forall i :: 0 <= i < |r| ==> r[i] == row || r[i] in translations;
  }

  /** The two tables, and the next value of each auto-increment counter. */
  class TemplateStore {
    var templates: seq<Template>
    var translations: seq<Translation>
    var nextTemplatePk: Pk
    var nextTranslationPk: Pk

    ghost predicate Valid()
      reads this
    {
      StoreInvariant(templates, translations, nextTemplatePk, nextTranslationPk)
    }

    constructor ()
      ensures Valid()
      ensures templates == [] && translations == []
    {
      templates, translations := [], [];
      nextTemplatePk, nextTranslationPk := 1, 1;
    }

    /**
     * `EmailTemplate.save()`: prepopulate the plaintext body on the first
     * save, then insert or update the row; the storage layer rejects a name
     * that another template already has, and then nothing changes.
     */
    method SaveTemplate(d: TemplateDraft, html2text: string -> string) returns (r: Result<Template, SaveError>)
      requires Valid()
      modifies this
      ensures Valid()
      ensures translations == old(translations)
      ensures d.pk.Some? ==> (r.Failure? <==> NameTaken(old(templates), d.name, d.pk.value))
      ensures d.pk.None? ==> (r.Failure? <==> exists i :: 0 <= i < |old(templates)| && old(templates)[i].name == d.name)
      ensures r.Failure? ==> r.error == DuplicateTemplateName(d.name) && templates == old(templates)
      ensures r.Success? ==>
        && r.value.name == d.name && r.value.locale == d.locale
        && r.value.content == PrepopulateText(d.pk.None?, d.content, html2text)
        && (d.pk.Some? ==> r.value.pk == d.pk.value)
        && (d.pk.None? ==> forall i :: 0 <= i < |old(templates)| ==> old(templates)[i].pk != r.value.pk)
        && templates == UpsertTemplate(old(templates), r.value)
    {
      var content := PrepopulateText(d.pk.None?, d.content, html2text);
      var pk: Pk := if d.pk.Some? then d.pk.value else nextTemplatePk;
      if NameTaken(templates, d.name, pk) {
        return Failure(DuplicateTemplateName(d.name));
      }
      var row := Template(pk, d.name, d.locale, content);
      TemplateWriteKeepsInvariant(templates, translations, nextTemplatePk, nextTranslationPk, row);
      templates, nextTemplatePk := UpsertTemplate(templates, row), Bump(nextTemplatePk, pk);
      r := Success(row);
    }

    /**
     * `EmailTemplateTranslation.save()`: fetch the parent, run the integrity
     * guard, prepopulate the plaintext body on the first save, then insert
     * or update the row. A rejected save changes nothing.
     */
    method SaveTranslation(d: TranslationDraft, html2text: string -> string) returns (r: Result<Translation, SaveError>)
      requires Valid()
      modifies this
      ensures Valid()
      ensures templates == old(templates)
      ensures r == Failure(ParentDoesNotExist(d.parent)) <==> d.parent !in TemplatePks(old(templates))
      ensures forall parent :: parent in old(templates) && parent.pk == d.parent ==>
        match EnforceIntegrity(parent, old(translations), d)
        case Some(e) => r == Failure(e)
        case None => r.Success?
      ensures r.Failure? ==> translations == old(translations)
      ensures r.Success? ==>
        && r.value == TranslationRow(d, r.value.pk, html2text)
        && (d.pk.Some? ==> r.value.pk == d.pk.value)
        && (d.pk.None? ==> forall i :: 0 <= i < |old(translations)| ==> old(translations)[i].pk != r.value.pk)
        && translations == UpsertTranslation(old(translations), r.value)
    {
      var at := IndexWhere(templates, (t: Template) => t.pk == d.parent);
      if at == |templates| {
        assert forall t :: t in templates ==> t.pk != d.parent;
        return Failure(ParentDoesNotExist(d.parent));
      }
      var parent := templates[at];
      PkIdentifiesTemplate(templates, at);
      var verdict := EnforceIntegrity(parent, translations, d);
      if verdict.Some? {
        return Failure(verdict.value);
      }
      var pk: Pk := if d.pk.Some? then d.pk.value else nextTranslationPk;
      var row := TranslationRow(d, pk, html2text);
      TranslationWriteKeepsInvariant(templates, translations, nextTemplatePk, nextTranslationPk, parent, d, row);
      translations, nextTranslationPk := UpsertTranslation(translations, row), Bump(nextTranslationPk, pk);
      r := Success(row);
    }
  }
}
