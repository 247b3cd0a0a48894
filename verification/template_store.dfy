/** `TemplateDatabase`: the `templates` table kept in SQLite, as an
    in-memory list of rows. Rows are kept in ascending id order; because a
    new id is always larger than every existing one, that is also insertion
    order, which is the order the renamer receives the templates in. */
module TemplateStore {
  import opened Base

  /** One row of `templates (id INTEGER PRIMARY KEY, pattern TEXT NOT NULL
      UNIQUE, replacement TEXT NOT NULL)`; the NOT NULL columns are plain
      strings. */
  datatype Row = Row(id: int, pattern: string, replacement: string)

  datatype Store = Store(rows: seq<Row>)

  /** The `sqlite3.IntegrityError` an INSERT can raise, by violated
      constraint and column. */
  datatype DbError = NotNullViolation(column: string) | UniqueViolation(column: string)

  /** The freshly created, empty table. */
  const Empty: Store := Store([])

  /** The table's constraints, plus ids that start at 1 and ascend in row
      order. */
  predicate Valid(s: Store) {
    && (forall i :: 0 <= i < |s.rows| ==> s.rows[i].id >= 1)
    && (forall i, j :: 0 <= i < j < |s.rows| ==> s.rows[i].id < s.rows[j].id)
    && (forall i, j :: 0 <= i < j < |s.rows| ==> s.rows[i].pattern != s.rows[j].pattern)
  }

  /** Some row of the store has this pattern. */
  predicate HasPattern(s: Store, p: string) {
    exists i :: 0 <= i < |s.rows| && s.rows[i].pattern == p
  }

  /** Some row of the store has this id. */
  predicate HasId(s: Store, id: int) {
    exists i :: 0 <= i < |s.rows| && s.rows[i].id == id
  }

  /** The largest id in use, or 0 for an empty table. */
  function MaxId(rows: seq<Row>): (m: int)
    ensures m >= 0
    ensures forall i :: 0 <= i < |rows| ==> rows[i].id <= m
    ensures m == 0 || exists i :: 0 <= i < |rows| && rows[i].id == m
  {
    if rows == [] then 0
    else
      var m := MaxId(rows[..|rows| - 1]);
      var last := rows[|rows| - 1].id;
      if last > m then last else m
  }

  /** The rowid SQLite assigns to an INSERT that leaves `id` unset: one more
      than the largest rowid in the table, or 1 if the table is empty. */
  function NewId(s: Store): (id: int)
    ensures id >= 1
    ensures !HasId(s, id)
    ensures forall i :: 0 <= i < |s.rows| ==> s.rows[i].id < id
  {
    MaxId(s.rows) + 1
  }

  /** `add_template(pattern, replacement)`; `None` stands for Python's
      `None`, which SQLite stores as NULL. NOT NULL is checked before UNIQUE,
      column by column. */
  function AddTemplate(s: Store, pattern: Option<string>, replacement: Option<string>): (r: Result<Store, DbError>)
    ensures r.Success? <==> pattern.Some? && replacement.Some? && !HasPattern(s, pattern.value)
    ensures pattern.None? ==> r == Failure(NotNullViolation("pattern"))
    ensures pattern.Some? && replacement.None? ==> r == Failure(NotNullViolation("replacement"))
    ensures pattern.Some? && replacement.Some? && HasPattern(s, pattern.value)
            ==> r == Failure(UniqueViolation("pattern"))
    ensures r.Success? ==> && |r.value.rows| == |s.rows| + 1
                           && r.value.rows[..|s.rows|] == s.rows
                           && r.value.rows[|s.rows|].pattern == pattern.value
                           && r.value.rows[|s.rows|].replacement == replacement.value
                           && !HasId(s, r.value.rows[|s.rows|].id)
    ensures r.Success? && Valid(s) ==> Valid(r.value)
  {
    if pattern.None? then Failure(NotNullViolation("pattern"))
    else if replacement.None? then Failure(NotNullViolation("replacement"))
    else if HasPattern(s, pattern.value) then Failure(UniqueViolation("pattern"))
    else
      var rows := s.rows + [Row(NewId(s), pattern.value, replacement.value)];
      assert rows[..|s.rows|] == s.rows;
      Success(Store(rows))
  }

  /** The message `str(e)` gives for the error. */
  function ErrorMessage(e: DbError): string {
    match e
    case NotNullViolation(c) => "NOT NULL constraint failed: templates." + c
    case UniqueViolation(c) => "UNIQUE constraint failed: templates." + c
  }

  /** `get_all_templates()`: the rows, as (pattern, replacement) pairs in
      store order once the id is projected away. */
  function Templates(s: Store): (ts: seq<Template>)
    ensures |ts| == |s.rows|
    ensures forall i :: 0 <= i < |ts| ==>
              ts[i].pattern == s.rows[i].pattern && ts[i].replacement == s.rows[i].replacement
    ensures Valid(s) ==> forall i, j :: 0 <= i < j < |ts| ==> ts[i].pattern != ts[j].pattern
  {
    seq(|s.rows|, i requires 0 <= i < |s.rows| => Template(s.rows[i].pattern, s.rows[i].replacement))
  }

  /** The templates `add_default_templates` seeds, in order. */
  const Defaults: seq<Template> := [
    Template(@"(.+?)\s*-\s*\1\s*-\s*", @"\1 - "),
    Template(@"(.+?)_+-+_+\1_+-+_+", @"\1 - "),
    Template(@"(.+?)\s*[-_]+\s*\1\s*[-_]+\s*", @"\1 - "),
    Template(@"_+", " "),
    Template(@"\s*\[\s*official.*?video\s*\]", ""),
    Template(@"\s*\(\s*official.*?video\s*\)", ""),
    Template(@"\s*\[\s*official.*?audio\s*\]", ""),
    Template(@"\s*\(\s*official.*?audio\s*\)", ""),
    Template(@"\s*\[\s*lyrics?\s*\]", ""),
    Template(@"\s*\(\s*lyrics?\s*\)", ""),
    Template(@"\s*\[\s*live\s*\]", ""),
    Template(@"\s*\(\s*live\s*\)", ""),
    Template(@"^\s*[-_]+\s*", ""),
    Template(@"\s*[-_]+\s*$", "")
  ]

  /** One iteration of the seeding loop: insert, and ignore an IntegrityError. */
  function TryInsert(s: Store, t: Template): (r: Store)
    ensures HasPattern(r, t.pattern)
    ensures r == s || !HasPattern(s, t.pattern)
  {
    match AddTemplate(s, Some(t.pattern), Some(t.replacement))
    case Success(s1) => assert s1.rows[|s.rows|].pattern == t.pattern; s1
    case Failure(_) => s
  }

  /** The seeding loop over a list of templates. */
  function SeedAll(s: Store, ts: seq<Template>): (r: Store)
    ensures Valid(s) ==> Valid(r)
    ensures |s.rows| <= |r.rows| && r.rows[..|s.rows|] == s.rows
    decreases |ts|
  {
    if ts == [] then s
    else SeedAll(TryInsert(s, ts[0]), ts[1..])
  }

  /** `add_default_templates()`. */
  function AddDefaultTemplates(s: Store): Store {
    SeedAll(s, Defaults)
  }

  /** A row kept by a later store keeps its pattern present. */
  lemma HasPatternKept(s: Store, r: Store, p: string)
    requires |s.rows| <= |r.rows| && r.rows[..|s.rows|] == s.rows
    requires HasPattern(s, p)
    ensures HasPattern(r, p)
  {
    var i :| 0 <= i < |s.rows| && s.rows[i].pattern == p;
    assert r.rows[..|s.rows|][i] == r.rows[i];
  }

  /** After seeding, every seeded pattern is in the store. */
  lemma {:induction false} SeedAllContains(s: Store, ts: seq<Template>)
    ensures forall i :: 0 <= i < |ts| ==> HasPattern(SeedAll(s, ts), ts[i].pattern)
    decreases |ts|
  {
    if ts != [] {
      var s1 := TryInsert(s, ts[0]);
      SeedAllContains(s1, ts[1..]);
      HasPatternKept(s1, SeedAll(s1, ts[1..]), ts[0].pattern);
      assert forall i :: 1 <= i < |ts| ==> ts[i] == ts[1..][i - 1];
    }
  }

  /** Seeding patterns that are all present already changes nothing. */
  lemma {:induction false} SeedAllPresent(s: Store, ts: seq<Template>)
    requires forall i :: 0 <= i < |ts| ==> HasPattern(s, ts[i].pattern)
    ensures SeedAll(s, ts) == s
    decreases |ts|
  {
    if ts != [] {
      assert HasPattern(s, ts[0].pattern);
      assert TryInsert(s, ts[0]) == s;
      assert forall i :: 0 <= i < |ts[1..]| ==> ts[1..][i] == ts[i + 1];
      SeedAllPresent(s, ts[1..]);
    }
  }

  /** `add_default_templates` puts every default in, keeps the rows already
      there as they were, and a second call changes nothing. */
  lemma AddDefaultTemplatesSpec(s: Store)
    ensures forall i :: 0 <= i < |Defaults| ==> HasPattern(AddDefaultTemplates(s), Defaults[i].pattern)
    ensures AddDefaultTemplates(s).rows[..|s.rows|] == s.rows
    ensures AddDefaultTemplates(AddDefaultTemplates(s)) == AddDefaultTemplates(s)
  {
    SeedAllContains(s, Defaults);
    SeedAllPresent(AddDefaultTemplates(s), Defaults);
  }

  /** The fourteen default patterns are non-empty and pairwise different. */
  lemma DefaultPatternsDistinct()
    ensures |Defaults| == 14
    ensures forall i :: 0 <= i < |Defaults| ==> Defaults[i].pattern != ""
    ensures forall i, j :: 0 <= i < j < |Defaults| ==> Defaults[i].pattern != Defaults[j].pattern
  {
  }

  /** A successful `add_template` appends its template to the projection. */
  lemma AddTemplateAppends(s: Store, p: string, rep: string)
    requires !HasPattern(s, p)
    ensures AddTemplate(s, Some(p), Some(rep)).Success?
    ensures Templates(AddTemplate(s, Some(p), Some(rep)).value) == Templates(s) + [Template(p, rep)]
  {
    var s1 := AddTemplate(s, Some(p), Some(rep)).value;
    assert s1.rows == s.rows + [s1.rows[|s.rows|]];
  }

  /** Inserting a new pattern appends exactly that template and makes no
      other pattern present. */
  lemma TryInsertFresh(s: Store, t: Template)
    requires !HasPattern(s, t.pattern)
    ensures Templates(TryInsert(s, t)) == Templates(s) + [t]
    ensures forall p :: HasPattern(TryInsert(s, t), p) ==> HasPattern(s, p) || p == t.pattern
  {
    var s1 := TryInsert(s, t);
    assert s1.rows == s.rows + [s1.rows[|s.rows|]];
    forall p | HasPattern(s1, p) ensures HasPattern(s, p) || p == t.pattern {
      var k :| 0 <= k < |s1.rows| && s1.rows[k].pattern == p;
      if k < |s.rows| { assert s1.rows[k] == s.rows[k]; }
    }
  }

  /** Seeding templates whose patterns are new and pairwise different appends
      exactly those templates, in order. */
  lemma {:induction false} SeedAllFresh(s: Store, ts: seq<Template>)
    requires forall i, j :: 0 <= i < j < |ts| ==> ts[i].pattern != ts[j].pattern
    requires forall i :: 0 <= i < |ts| ==> !HasPattern(s, ts[i].pattern)
    ensures Templates(SeedAll(s, ts)) == Templates(s) + ts
    decreases |ts|
  {
    if ts == [] {
      assert Templates(s) + [] == Templates(s);
    } else {
      var s1 := TryInsert(s, ts[0]);
      TryInsertFresh(s, ts[0]);
      var rest := ts[1..];
      assert forall i :: 0 <= i < |rest| ==> rest[i] == ts[i + 1];
      SeedAllFresh(s1, rest);
      assert SeedAll(s, ts) == SeedAll(s1, rest);
      ConcatAssoc(Templates(s), [ts[0]], rest);
      SplitFirst(ts);
    }
  }

  /** Seeding an empty table inserts all fourteen defaults, in order. */
  lemma SeedEmptyInsertsAll()
    ensures Templates(AddDefaultTemplates(Empty)) == Defaults
    ensures |AddDefaultTemplates(Empty).rows| == 14
  {
    DefaultPatternsDistinct();
    SeedAllFresh(Empty, Defaults);
    assert Templates(Empty) == [];
  }

  /** The rows whose id differs from `id`, in their original order. */
  function RemoveId(rows: seq<Row>, id: int): (r: seq<Row>)
    ensures forall row :: row in r <==> row in rows && row.id != id
    ensures (forall i :: 0 <= i < |rows| ==> rows[i].id != id) ==> r == rows
    decreases |rows|
  {
    if rows == [] then []
    else if rows[0].id == id then RemoveId(rows[1..], id)
    else [rows[0]] + RemoveId(rows[1..], id)
  }

  /** `delete_template(template_id)`: `DELETE FROM templates WHERE id = ?`. */
  function DeleteTemplate(s: Store, id: int): (r: Store)
    ensures forall row :: row in r.rows <==> row in s.rows && row.id != id
    ensures !HasId(s, id) ==> r == s
    ensures Valid(s) ==> Valid(r)
  {
    RemoveIdValid(s.rows, id);
    Store(RemoveId(s.rows, id))
  }

  lemma {:induction false} RemoveIdValid(rows: seq<Row>, id: int)
    ensures Valid(Store(rows)) ==> Valid(Store(RemoveId(rows, id)))
    decreases |rows|
  {
    if rows != [] && Valid(Store(rows)) {
      var tail := rows[1..];
      ValidTail(rows);
      RemoveIdValid(tail, id);
      var rest := RemoveId(tail, id);
      if rows[0].id != id {
        forall j | 0 <= j < |rest|
          ensures rows[0].id < rest[j].id && rows[0].pattern != rest[j].pattern
        {
          assert rest[j] in tail;
          var k :| 0 <= k < |tail| && tail[k] == rest[j];
          assert rows[k + 1] == tail[k];
        }
        ValidCons(rows[0], rest);
      }
    }
  }

  lemma ValidTail(rows: seq<Row>)
    requires rows != [] && Valid(Store(rows))
    ensures Valid(Store(rows[1..]))
  {
    assert forall i :: 0 <= i < |rows| - 1 ==> rows[1..][i] == rows[i + 1];
  }

  lemma ValidCons(h: Row, rest: seq<Row>)
    requires Valid(Store(rest)) && h.id >= 1
    requires forall j :: 0 <= j < |rest| ==> h.id < rest[j].id && h.pattern != rest[j].pattern
    ensures Valid(Store([h] + rest))
  {
    var r := [h] + rest;
    assert forall j :: 1 <= j < |r| ==> r[j] == rest[j - 1];
  }

  /** Removing by id from a concatenation removes from each part. */
  lemma {:induction false} RemoveIdAppend(a: seq<Row>, b: seq<Row>, id: int)
    ensures RemoveId(a + b, id) == RemoveId(a, id) + RemoveId(b, id)
    decreases |a|
  {
    if a == [] {
      assert a + b == b;
    } else {
      TailOfAppend(a, b);
      RemoveIdAppend(a[1..], b, id);
      ConcatAssoc([a[0]], RemoveId(a[1..], id), RemoveId(b, id));
    }
  }

  /** In a valid store, deleting an id that is present removes exactly the
      one row carrying it and keeps every other row in its place. */
  lemma DeleteRemovesOneRow(s: Store, k: nat)
    requires Valid(s)
    requires k < |s.rows|
    ensures DeleteTemplate(s, s.rows[k].id).rows == s.rows[..k] + s.rows[k + 1..]
    ensures |DeleteTemplate(s, s.rows[k].id).rows| == |s.rows| - 1
  {
    var id := s.rows[k].id;
    var before, after := s.rows[..k], s.rows[k + 1..];
    assert s.rows == before + ([s.rows[k]] + after);
    RemoveIdAppend(before, [s.rows[k]] + after, id);
    RemoveIdAppend([s.rows[k]], after, id);
    OthersBeforeKept(s, k);
    OthersAfterKept(s, k);
    assert RemoveId([s.rows[k]], id) == [];
  }

  /** In a valid store, the rows before position `k` have ids below the `k`-th. */
  lemma OthersBeforeKept(s: Store, k: nat)
    requires Valid(s)
    requires k < |s.rows|
    ensures RemoveId(s.rows[..k], s.rows[k].id) == s.rows[..k]
  {
    var before := s.rows[..k];
    forall i | 0 <= i < |before| ensures before[i].id != s.rows[k].id {
      assert before[i] == s.rows[i];
    }
  }

  /** In a valid store, the rows after position `k` have ids above the `k`-th. */
  lemma OthersAfterKept(s: Store, k: nat)
    requires Valid(s)
    requires k < |s.rows|
    ensures RemoveId(s.rows[k + 1..], s.rows[k].id) == s.rows[k + 1..]
  {
    var after := s.rows[k + 1..];
    forall i | 0 <= i < |after| ensures after[i].id != s.rows[k].id {
      assert after[i] == s.rows[k + 1 + i];
    }
  }
}
