# Filename cleaning and renaming engine, with its template store

This project models, in Dafny, the renaming half of a desktop music
downloader: the engine that cleans file names with an ordered list of
user-editable regular-expression templates, scans a directory for files whose
names would change, and applies the approved renames. It also models the
SQLite table that stores the templates, and the window actions that import,
export and add templates.

Files and modules:

- `base.dfy` (`Base`): `Option`, `Result`, the `(pattern, replacement)`
  `Template` pair, and a few sequence facts.
- `text.dfy` (`Text`): Python's `str.strip(chars)` as `Strip`. It is used with
  the trim set `" -_"` and with the full `str.isspace()` character set.
- `paths.dfy` (`Paths`): `os.path.splitext` as the POSIX implementation
  defines it (`SplitExt`).
- `cleaner.dfy` (`Cleaner`): `clean_filename`. `re.sub(pattern, replacement,
  s, flags=re.IGNORECASE)` is the function parameter `sub`, which is never
  interpreted, so every property holds whatever the regex engine does.
- `files.dfy` (`Files`): the directory, modelled as a map from names to
  `RegularFile` or `Folder`.
- `scanner.dfy` (`Scanner`): `scan_directory`. The `os.listdir` result,
  whether a name list or an error text, is a parameter.
- `renamer.dfy` (`Renamer`): `rename_files`. `os.rename` is the parameter
  `rename`, which either returns the directory afterwards or fails with
  `OSError`.
- `template_store.dfy` (`TemplateStore`): `TemplateDatabase`. The table is an
  in-memory list of rows. New ids follow SQLite's rule for an `INTEGER
  PRIMARY KEY` without `AUTOINCREMENT`: the largest id plus one, or 1 when the
  table is empty.
- `template_actions.dfy` (`TemplateActions`): the `MainWindow` methods
  `import_templates_from_file`, `export_templates_to_file` and
  `add_template`, minus dialogs, JSON I/O and widgets.

Modelling assumption: rows are kept in ascending id order. A new id is always
larger than every id already stored, so this is also insertion order. It is
the order `get_all_templates` is taken to return, and therefore the order in
which the renamer applies the templates. SQL itself promises no order for a
`SELECT` without `ORDER BY`.

## Model

| member | source | states |
|---|---|---|
| `Text.Strip` | app/RenamerWorker.py:47 | the stripped name neither starts nor ends with a character of the set, and is no longer than the input |
| `Text.StripIsMiddle` | app/RenamerWorker.py:47 | the result is a contiguous piece of the input, and everything cut away on either side is made of set characters |
| `Text.StripPadded` | app/RenamerWorker.py:47 | Strip is uniquely determined: set characters padded around an unpadded middle strip back to exactly that middle |
| `Text.StripIdempotent` | app/RenamerWorker.py:47 | stripping twice equals stripping once |
| `Text.StripFixedIff` | app/RenamerWorker.py:47 | Strip leaves a string unchanged if and only if neither end is a set character |
| `Paths.SplitExt` | app/RenamerWorker.py:27 | root + ext == name; ext is empty or starts with '.' and contains no other '.' and no '/' |
| `Paths.LeadingDotsAreNotExtension` | app/RenamerWorker.py:27 | a name whose only dots form its leading run of dots (`.hidden_file`) has an empty extension |
| `Paths.ExtensionIff` | app/RenamerWorker.py:27 | for a separator-free name, the extension is non-empty iff some dot follows a non-dot character, and it then starts at the last dot |
| `Paths.SplitAtLastDot` | app/RenamerWorker.py:27 | a separator-free name that starts with a non-dot splits at its last dot |
| `Paths.SplitHiddenFile` | app/RenamerWorker.py:27 | `.hidden_file` has no extension: its root is the whole name |
| `Paths.SplitSongFile` | app/RenamerWorker.py:27 | `My_Song_(Official_Video).mp3` splits into `My_Song_(Official_Video)` and `.mp3` |
| `Paths.SplitShortFiles` | app/RenamerWorker.py:27 | `A_.mp3` and `__.mp3` split before `.mp3` |
| `Cleaner.CleanFilename` | app/RenamerWorker.py:38-48 | the cleaned name never starts or ends with ' ', '-' or '_', and is no longer than the substituted name |
| `Cleaner.Trace` | app/RenamerWorker.py:40-44 | reference definition of the pass: entry 0 is the name, entry i+1 is template i applied to entry i |
| `Cleaner.ApplyTemplatesIsTrace` | app/RenamerWorker.py:40-44 | the substitution loop yields the last trace entry, so each template is applied exactly once, in list order, each on the previous output |
| `Cleaner.ApplyTemplatesSnoc` | app/RenamerWorker.py:40-44 | adding a template at the end applies it once to the previous result |
| `Cleaner.ApplyTemplatesAppend` | app/RenamerWorker.py:40-44 | running `a + b` equals running `b` on the result of `a`; there is no fixed-point re-application |
| `Cleaner.CleanFilenameSnoc` | app/RenamerWorker.py:38-48 | cleaning with `ts + [t]` strips `sub(t, fold(ts, name))`, with no stripping in between |
| `Cleaner.CleanWithoutTemplates` | app/RenamerWorker.py:38-48 | with no templates, cleaning is `strip(" -_")`, and an unpadded name is returned unchanged |
| `Cleaner.CleanIsTrimmedSubstitution` | app/RenamerWorker.py:46-47 | the cleaned name is the substituted name with only runs of ' ', '-', '_' cut from its ends |
| `Cleaner.StableNameUnchanged` | app/RenamerWorker.py:38-48 | a name that no template changes and that has nothing to strip is returned unchanged |
| `Scanner.ProposalFor` | app/RenamerWorker.py:26-32 | a proposal exists iff the entry is a regular file whose cleaned root differs from its root; then new = cleaned root + ext and new != old |
| `Scanner.ScanNames` | app/RenamerWorker.py:25-32 | no more proposals than listed names (one per name for a repeat-free listing: `ScanNamesDistinct`); each is for a listed regular file that needs renaming, keeps the extension, and has new != old |
| `Scanner.ScanDirectory` | app/RenamerWorker.py:21-36 | a failed listing gives exactly the "Scan error: …" report and nothing else; a successful one reports exactly the proposals of scanning the listed names, in listing order |
| `Scanner.ScanNamesAppend` | app/RenamerWorker.py:25-32 | scanning a concatenated listing concatenates the scans, so proposals follow the listing order |
| `Scanner.ScanNamesComplete` | app/RenamerWorker.py:25-32 | a name gets a proposal iff it is listed, is a regular file, and its root changes under cleaning |
| `Scanner.ScanNamesDistinct` | app/RenamerWorker.py:25-32 | a listing without repeats gives pairwise distinct original names |
| `Scanner.ScanOneName` | app/RenamerWorker.py:26-34 | a one-name listing yields that name's proposal exactly when it needs a rename, and nothing otherwise |
| `Scanner.HiddenFileNotProposed` | app/RenamerWorker.py:26-30 | in any directory, with no templates, `.hidden_file` yields no proposal |
| `Scanner.CleanExamples` | app/RenamerWorker.py:47 | with no templates, `A_` cleans to `A` and `__` cleans to the empty name |
| `Scanner.ProposalMayNameExistingFile` | app/RenamerWorker.py:30-32 | `A_.mp3` is proposed to become `A.mp3` even though a file `A.mp3` exists |
| `Scanner.EmptyRootIsProposed` | app/RenamerWorker.py:28-32 | a root cleaned to nothing is still proposed: `__.mp3` becomes `.mp3` |
| `Renamer.Attempt` | app/RenamerWorker.py:56-60 | the outcome names the pair; it is a success iff `os.rename` succeeded; a failure leaves the directory as it was |
| `Renamer.RenameAll` | app/RenamerWorker.py:53-60 | exactly one outcome per pair, in pair order; if every attempt failed, the directory is unchanged |
| `Renamer.RenameFiles` | app/RenamerWorker.py:50-61 | one progress message per pair, message i reporting outcome i, then `rename_finished`, with the same final directory as the loop |
| `Renamer.RenameReportsEachPair` | app/RenamerWorker.py:56-60 | event i is the success line `✔️ old -> new` when the rename of pair i succeeded on the directory the earlier pairs left, and `⛔ Failed to rename old: e` with the `OSError` text otherwise |
| `Renamer.RenameAllAppend` | app/RenamerWorker.py:53-60 | continue-on-error: the second part of a batch runs from wherever the first part left the directory, whatever failed in it |
| `Renamer.RenameAttemptsEveryPair` | app/RenamerWorker.py:53-60 | outcome i is the result of attempting pair i on the directory that pairs 0..i-1 left |
| `TemplateStore.NewId` | app/TemplateDatabase.py:14 | a new id is at least 1, larger than every stored id, and not yet in use |
| `TemplateStore.AddTemplate` | app/TemplateDatabase.py:60-65 | a NULL column or an already-stored pattern fails with the matching IntegrityError; otherwise exactly one row with that pattern and replacement is appended, existing rows are untouched, and the table constraints are kept |
| `TemplateStore.AddTemplateAppends` | app/TemplateDatabase.py:60-65 | adding a new pattern appends exactly its template to the stored list |
| `TemplateStore.Templates` | app/MainWindow.py:411 | the renamer receives one (pattern, replacement) pair per row, in store order, with the id projected away; in a valid store the patterns are distinct |
| `TemplateStore.TryInsert` | app/TemplateDatabase.py:46-53 | after a seeding step the pattern is present; the store changed only if the pattern was new |
| `TemplateStore.TryInsertFresh` | app/TemplateDatabase.py:46-53 | inserting a new pattern appends exactly that template and makes no other pattern present |
| `TemplateStore.SeedAll` | app/TemplateDatabase.py:44-53 | seeding keeps the table constraints and keeps the existing rows as a prefix |
| `TemplateStore.SeedAllContains` | app/TemplateDatabase.py:44-53 | after seeding, every seeded pattern is present |
| `TemplateStore.SeedAllPresent` | app/TemplateDatabase.py:44-53 | seeding patterns that are all present changes nothing |
| `TemplateStore.SeedAllFresh` | app/TemplateDatabase.py:44-53 | seeding new, pairwise different patterns appends exactly those templates, in order |
| `TemplateStore.AddDefaultTemplatesSpec` | app/TemplateDatabase.py:20-53 | every default pattern is present afterwards, existing rows are untouched, and a second call changes nothing |
| `TemplateStore.DefaultPatternsDistinct` | app/TemplateDatabase.py:22-43 | there are 14 defaults, none with an empty pattern, with pairwise different patterns |
| `TemplateStore.SeedEmptyInsertsAll` | app/TemplateDatabase.py:20-53 | seeding an empty table inserts all 14 defaults, in order |
| `TemplateStore.DeleteTemplate` | app/TemplateDatabase.py:67-69 | exactly the rows with another id remain; an absent id changes nothing; the table constraints are kept |
| `TemplateStore.DeleteRemovesOneRow` | app/TemplateDatabase.py:67-69 | in a valid store, deleting a present id removes exactly that one row and keeps the others in place |
| `TemplateActions.ImportedPattern` | app/MainWindow.py:304-306 | an item passes the pattern check iff its pattern is a present, non-null, non-empty string |
| `TemplateActions.ImportedReplacement` | app/MainWindow.py:305 | a missing replacement defaults to "", while an explicit null stays None |
| `TemplateActions.ImportOne` | app/MainWindow.py:304-311 | an item is counted (at most once) iff its insert succeeds; a skipped or failed item leaves the store unchanged; a counted one appends its template; the table constraints are kept |
| `TemplateActions.ImportTemplates` | app/MainWindow.py:302-311 | the count is the number of rows added, at most the number of items; existing rows stay as a prefix; the constraints and non-empty patterns are kept |
| `TemplateActions.ImportAppend` | app/MainWindow.py:303-311 | a failed insert never stops the import: later items are imported into what earlier ones left, and the counts add up |
| `TemplateActions.ImportedPatternsPresent` | app/MainWindow.py:303-311 | every item with a usable pattern and replacement ends up stored, whether inserted now or already there |
| `TemplateActions.ImportNothingNew` | app/MainWindow.py:303-311 | importing only skipped or already-stored patterns returns count 0 and the same store |
| `TemplateActions.DuplicateInBatchCountedOnce` | app/MainWindow.py:307-311 | a new item listed twice in one import is inserted and counted once; the second insert fails and is swallowed |
| `TemplateActions.ExportTemplates` | app/MainWindow.py:278-281 | one record per row, in store order, with the same id, pattern and replacement |
| `TemplateActions.ReimportExportIsNoop` | app/MainWindow.py:278-311 | re-importing a fresh export into the same store returns count 0 and leaves the store unchanged |
| `TemplateActions.ImportIsSeed` | app/MainWindow.py:303-311 | importing fully-formed items inserts the same rows as seeding their templates |
| `TemplateActions.ExportImportRoundTrip` | app/MainWindow.py:278-311 | exporting, then importing into an empty table, restores every template in order and counts all of them |
| `TemplateActions.AddFromForm` | app/MainWindow.py:317-327 | both inputs are whitespace-stripped; an empty pattern is ignored; a stored pattern is rejected with the logged message; otherwise exactly the stripped template is appended |
| `TemplateActions.DefaultsKeepNoEmptyPattern` | app/TemplateDatabase.py:20-53 | seeding the defaults keeps every stored pattern non-empty (import and the add form carry the same guarantee in their contracts) |
| `TemplateActions.DeleteKeepsNoEmptyPattern` | app/TemplateDatabase.py:67-69 | deleting a row keeps every stored pattern non-empty |

## Behaviour as implemented

The code omits several checks a reader might expect. The model follows the
code:

- Patterns are stored without any check that they compile. A malformed
  pattern makes `re.sub` raise inside the scan. Because `sub` is total here,
  that path is not modelled (see below).
- A root that cleans down to nothing is proposed as it is
  (`Scanner.EmptyRootIsProposed`); nothing flags it.
- The scan does not compare a proposed name with the names already present
  (`Scanner.ProposalMayNameExistingFile`). Whether the rename then overwrites
  or fails is left to `os.rename`, which is abstract here.
- `rename_files` has no cancellation check. Every approved pair is attempted.
- `import_templates_from_file` swallows every insert failure, not only
  duplicate patterns. An explicit JSON `null` replacement fails NOT NULL and is
  skipped silently.

## Left out

- Regular-expression semantics: `re.sub` with `IGNORECASE` and back-references is the uninterpreted parameter `sub`, and nothing is proved about what the default patterns match.
- `re.error` raised by a malformed pattern or replacement (such as `\q`, or a reference to a group the pattern lacks), which aborts `scan_directory` with "Scan error: …": `sub` is a total function, so this error path is not represented.
- `os.path.isfile` on an entry that is a symbolic link (it follows the link, and answers False for a name it cannot stat): the directory map records only what `isfile` answers.
- Windows path rules (`ntpath.splitext` also treats `\` as a separator): names from a Windows directory listing cannot contain `\` or `/`, so both rules agree on them.
- Renamer.RenameFiles: a non-`OSError` from `os.rename` (a `ValueError` for a name containing U+0000, which a replacement such as `\0` can produce) aborts the remaining pairs with "Critical error during renaming: …" and no `rename_finished`; the abstract `rename` fails only with `OSError`, so this path is not represented.
- Names that Python holds with lone surrogates (`os.listdir` decodes undecodable bytes with `surrogateescape`) are not representable: a Dafny `string` holds Unicode scalar values only. No strip or extension rule depends on this.
- SQLite internals: connections, transactions, `close`, and the random rowid SQLite picks once the largest id reaches 2^63 - 1.
- `get_all_templates` is reading `rows` in order. Every operation here is a pure function, so it cannot modify the store and has no lemma of its own.
- JSON file reading and writing, file dialogs, JSON values other than strings and `null`, and list items that are not objects. In the source, such an item raises `AttributeError`, which aborts the rest of the import while keeping the earlier inserts.
- The log lines ("Imported N templates", "Templates exported to …") and the clearing of the form inputs.
- Qt threads, signals and widgets: table population, checkbox selection in `start_rename`, and the `os.path.isdir` guard of `scan_for_rename`.
- `app/DownloaderWorker.py`, `app/styleSheets.py` and `app/app.py`: download orchestration, style constants and application start-up.
