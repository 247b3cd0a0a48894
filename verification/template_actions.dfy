/** The template actions of `MainWindow`: bulk import from and export to a
    JSON file, the add form, and the hand-off of the stored templates to the
    renamer, each as a pure operation on the store. */
module TemplateActions {
  import opened Base
  import opened Text
  import opened TemplateStore

  /** One key of a JSON object as `dict.get` sees it: missing, `null`, or a
      string. */
  datatype JsonField = Absent | Null | Str(s: string)

  /** One element of the imported JSON list. */
  datatype ImportItem = ImportItem(pattern: JsonField, replacement: JsonField)

  /** One element of the exported JSON list. */
  datatype ExportRecord = ExportRecord(id: int, pattern: string, replacement: string)

  /** The pattern of an item when `if pattern:` lets it through: a present,
      non-null, non-empty string. */
  function ImportedPattern(item: ImportItem): (r: Option<string>)
    ensures r.Some? <==> item.pattern.Str? && item.pattern.s != ""
    ensures r.Some? ==> r.value == item.pattern.s
  {
    match item.pattern
    case Str(p) => if p != "" then Some(p) else None
    case _ => None
  }

  /** `item.get("replacement", "")`: the default only applies to a missing
      key; an explicit `null` arrives as `None`. */
  function ImportedReplacement(item: ImportItem): (r: Option<string>)
    ensures item.replacement.Absent? ==> r == Some("")
    ensures item.replacement.Null? ==> r == None
    ensures item.replacement.Str? ==> r == Some(item.replacement.s)
  {
    match item.replacement
    case Absent => Some("")
    case Null => None
    case Str(rep) => Some(rep)
  }

  /** The store after an import and the count it reports. */
  datatype ImportResult = ImportResult(store: Store, count: nat)

  /** An item whose insert succeeds: it passes the pattern check, carries a
      non-null replacement, and its pattern is not yet stored. */
  predicate Insertable(s: Store, item: ImportItem) {
    ImportedPattern(item).Some? && ImportedReplacement(item).Some?
    && !HasPattern(s, ImportedPattern(item).value)
  }

  /** One iteration of the import loop: try the insert, count it if it
      succeeded, swallow any exception. */
  function ImportOne(s: Store, item: ImportItem): (r: ImportResult)
    ensures r.count == 1 <==> Insertable(s, item)
    ensures r.count == 0 ==> r.store == s
    ensures r.count == 1 ==> Templates(r.store)
                             == Templates(s) + [Template(ImportedPattern(item).value, ImportedReplacement(item).value)]
    ensures r.count <= 1
    ensures Valid(s) ==> Valid(r.store)
    ensures NoEmptyPattern(s) ==> NoEmptyPattern(r.store)
  {
    match ImportedPattern(item)
    case None => ImportResult(s, 0)
    case Some(p) =>
      match AddTemplate(s, Some(p), ImportedReplacement(item))
      case Success(s1) =>
        AddTemplateAppends(s, p, ImportedReplacement(item).value);
        ImportResult(s1, 1)
      case Failure(_) => ImportResult(s, 0)
  }

  /** The import loop of `import_templates_from_file`, over the parsed list. */
  function ImportTemplates(s: Store, items: seq<ImportItem>): (r: ImportResult)
    ensures r.count <= |items|
    ensures |r.store.rows| == |s.rows| + r.count
    ensures r.store.rows[..|s.rows|] == s.rows
    ensures Valid(s) ==> Valid(r.store)
    ensures NoEmptyPattern(s) ==> NoEmptyPattern(r.store)
    decreases |items|
  {
    if items == [] then ImportResult(s, 0)
    else
      var first := ImportOne(s, items[0]);
      var rest := ImportTemplates(first.store, items[1..]);
      ImportResult(rest.store, first.count + rest.count)
  }

  /** The records `export_templates_to_file` writes, one per row in store
      order. */
  function ExportTemplates(s: Store): (r: seq<ExportRecord>)
    ensures |r| == |s.rows|
    ensures forall i :: 0 <= i < |r| ==>
              r[i].id == s.rows[i].id && r[i].pattern == s.rows[i].pattern
              && r[i].replacement == s.rows[i].replacement
  {
    seq(|s.rows|, i requires 0 <= i < |s.rows| =>
      ExportRecord(s.rows[i].id, s.rows[i].pattern, s.rows[i].replacement))
  }

  /** What reading an exported file back yields: every record becomes an
      item with both keys present; the `id` key is ignored by the import. */
  function AsImportItems(records: seq<ExportRecord>): (items: seq<ImportItem>)
    ensures |items| == |records|
    ensures forall i :: 0 <= i < |items| ==>
              items[i] == ImportItem(Str(records[i].pattern), Str(records[i].replacement))
  {
    seq(|records|, i requires 0 <= i < |records| =>
      ImportItem(Str(records[i].pattern), Str(records[i].replacement)))
  }

  /** What the add form reports. */
  datatype FormResult = Ignored | Added(store: Store) | Rejected(message: string)

  /** `MainWindow.add_template`: strip both inputs, ignore an empty pattern,
      otherwise insert and report a failure in the log. */
  function AddFromForm(s: Store, patternText: string, replacementText: string): (r: FormResult)
    ensures r.Ignored? <==> Strip(patternText, PyWhitespace) == []
    ensures r.Rejected? <==> Strip(patternText, PyWhitespace) != [] && HasPattern(s, Strip(patternText, PyWhitespace))
    ensures r.Rejected? ==> r.message == "\U{26D4} Failed to add template: " + ErrorMessage(UniqueViolation("pattern"))
    ensures r.Added? ==> Templates(r.store) == Templates(s) + [Template(Strip(patternText, PyWhitespace),
                                                                       Strip(replacementText, PyWhitespace))]
    ensures r.Added? && Valid(s) ==> Valid(r.store)
    ensures r.Added? && NoEmptyPattern(s) ==> NoEmptyPattern(r.store)
  {
    var pattern := Strip(patternText, PyWhitespace);
    var replacement := Strip(replacementText, PyWhitespace);
    if pattern == [] then Ignored
    else
      match AddTemplate(s, Some(pattern), Some(replacement))
      case Success(s1) =>
        AddTemplateAppends(s, pattern, replacement);
        Added(s1)
      case Failure(e) => Rejected("\U{26D4} Failed to add template: " + ErrorMessage(e))
  }

  /** Failures never stop the import: importing a concatenated list is
      importing the second part into whatever the first part left, and the
      counts add up. */
  lemma {:induction false} ImportAppend(s: Store, a: seq<ImportItem>, b: seq<ImportItem>)
    ensures ImportTemplates(s, a + b)
         == ImportResult(ImportTemplates(ImportTemplates(s, a).store, b).store,
                         ImportTemplates(s, a).count + ImportTemplates(ImportTemplates(s, a).store, b).count)
    decreases |a|
  {
    if a == [] {
      assert a + b == b;
    } else {
      TailOfAppend(a, b);
      var first := ImportOne(s, a[0]);
      ImportAppend(first.store, a[1..], b);
    }
  }

  /** Every item with a usable pattern and replacement ends up stored, either
      inserted now or already there: duplicates, also within the same list,
      are the only items skipped without trace. */
  lemma {:induction false} ImportedPatternsPresent(s: Store, items: seq<ImportItem>)
    ensures forall i :: 0 <= i < |items| && ImportedPattern(items[i]).Some? && ImportedReplacement(items[i]).Some?
              ==> HasPattern(ImportTemplates(s, items).store, ImportedPattern(items[i]).value)
    decreases |items|
  {
    if items != [] {
      var first := ImportOne(s, items[0]);
      var rest := ImportTemplates(first.store, items[1..]);
      ImportedPatternsPresent(first.store, items[1..]);
      if ImportedPattern(items[0]).Some? && ImportedReplacement(items[0]).Some? {
        var p := ImportedPattern(items[0]).value;
        if first.count == 1 {
          assert Templates(first.store)[|s.rows|].pattern == p;
          assert HasPattern(first.store, p);
        }
        HasPatternKept(first.store, rest.store, p);
      }
      assert forall i :: 1 <= i < |items| ==> items[i] == items[1..][i - 1];
    }
  }

  /** An import none of whose usable items is new reports 0 and changes
      nothing. */
  lemma {:induction false} ImportNothingNew(s: Store, items: seq<ImportItem>)
    requires forall i :: 0 <= i < |items| && ImportedPattern(items[i]).Some?
               ==> HasPattern(s, ImportedPattern(items[i]).value)
    ensures ImportTemplates(s, items) == ImportResult(s, 0)
    decreases |items|
  {
    if items != [] {
      assert !Insertable(s, items[0]);
      assert forall i :: 0 <= i < |items[1..]| ==> items[1..][i] == items[i + 1];
      ImportNothingNew(s, items[1..]);
    }
  }

  /** Re-importing a fresh export into the same store imports nothing. */
  lemma ReimportExportIsNoop(s: Store)
    ensures ImportTemplates(s, AsImportItems(ExportTemplates(s))) == ImportResult(s, 0)
  {
    var items := AsImportItems(ExportTemplates(s));
    forall i | 0 <= i < |items| && ImportedPattern(items[i]).Some?
      ensures HasPattern(s, ImportedPattern(items[i]).value)
    {
      assert ImportedPattern(items[i]).value == s.rows[i].pattern;
    }
    ImportNothingNew(s, items);
  }

  /** No stored pattern is the empty string. The application's own actions
      never store one, although the store would accept it. */
  predicate NoEmptyPattern(s: Store) {
    forall i :: 0 <= i < |s.rows| ==> s.rows[i].pattern != ""
  }

  /** The templates an import list carries, for items with a non-empty
      pattern and a replacement string. */
  function ItemTemplates(items: seq<ImportItem>): (ts: seq<Template>)
    requires forall i :: 0 <= i < |items| ==> items[i].pattern.Str? && items[i].replacement.Str?
    ensures |ts| == |items|
    ensures forall i :: 0 <= i < |ts| ==> ts[i] == Template(items[i].pattern.s, items[i].replacement.s)
  {
    seq(|items|, i requires 0 <= i < |items| => Template(items[i].pattern.s, items[i].replacement.s))
  }

  /** Importing items with non-empty string patterns and string replacements
      inserts the same rows seeding their templates would. */
  lemma {:induction false} ImportIsSeed(s: Store, items: seq<ImportItem>)
    requires forall i :: 0 <= i < |items| ==>
               items[i].pattern.Str? && items[i].pattern.s != "" && items[i].replacement.Str?
    ensures ImportTemplates(s, items).store == SeedAll(s, ItemTemplates(items))
    decreases |items|
  {
    if items != [] {
      var t := ItemTemplates(items);
      assert forall i :: 0 <= i < |items[1..]| ==> items[1..][i] == items[i + 1];
      assert ItemTemplates(items[1..]) == t[1..];
      ImportIsSeed(ImportOne(s, items[0]).store, items[1..]);
      assert ImportOne(s, items[0]).store == TryInsert(s, t[0]);
    }
  }

  /** Export followed by import into an empty table restores every template,
      in order, and reports all of them as imported. */
  lemma ExportImportRoundTrip(s: Store)
    requires Valid(s) && NoEmptyPattern(s)
    ensures Templates(ImportTemplates(Empty, AsImportItems(ExportTemplates(s))).store) == Templates(s)
    ensures ImportTemplates(Empty, AsImportItems(ExportTemplates(s))).count == |s.rows|
  {
    var items := AsImportItems(ExportTemplates(s));
    ImportIsSeed(Empty, items);
    var ts := ItemTemplates(items);
    assert ts == Templates(s);
    SeedAllFresh(Empty, ts);
    assert Templates(Empty) + ts == ts;
  }

  /** Two copies of a new item in one import list: the second insert fails,
      is swallowed, and only one template is counted. */
  lemma DuplicateInBatchCountedOnce(s: Store, item: ImportItem)
    requires Insertable(s, item)
    ensures ImportTemplates(s, [item, item]).count == 1
    ensures |ImportTemplates(s, [item, item]).store.rows| == |s.rows| + 1
  {
    var first := ImportOne(s, item);
    assert Templates(first.store)[|s.rows|].pattern == ImportedPattern(item).value;
    assert HasPattern(first.store, ImportedPattern(item).value);
    assert [item, item][1..] == [item];
    assert [item][1..] == [];
  }

  /** Seeding the defaults and deleting a row keep every stored pattern
      non-empty too. */
  lemma DefaultsKeepNoEmptyPattern(s: Store)
    requires NoEmptyPattern(s)
    ensures NoEmptyPattern(AddDefaultTemplates(s))
  {
    DefaultPatternsDistinct();
    SeedKeepsNoEmptyPattern(s, Defaults);
  }

  lemma DeleteKeepsNoEmptyPattern(s: Store, id: int)
    requires NoEmptyPattern(s)
    ensures NoEmptyPattern(DeleteTemplate(s, id))
  {
    var d := DeleteTemplate(s, id);
    forall i | 0 <= i < |d.rows| ensures d.rows[i].pattern != "" {
      assert d.rows[i] in s.rows;
    }
  }

  lemma {:induction false} SeedKeepsNoEmptyPattern(s: Store, ts: seq<Template>)
    requires NoEmptyPattern(s)
    requires forall i :: 0 <= i < |ts| ==> ts[i].pattern != ""
    ensures NoEmptyPattern(SeedAll(s, ts))
    decreases |ts|
  {
    if ts != [] {
      var s1 := TryInsert(s, ts[0]);
      if s1 != s {
        TryInsertFresh(s, ts[0]);
        assert Templates(s1)[|s.rows|] == ts[0];
      }
      assert NoEmptyPattern(s1);
      assert forall i :: 0 <= i < |ts[1..]| ==> ts[1..][i] == ts[i + 1];
      SeedKeepsNoEmptyPattern(s1, ts[1..]);
    }
  }
}
