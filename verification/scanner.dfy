/** `RenamerWorker.scan_directory`: for every regular file in the listing,
    clean its root (never its extension) and propose a rename when the root
    changed. */
module Scanner {
  import opened Base
  import opened Text
  import opened Paths
  import opened Cleaner
  import opened Files

  /** An (old name, new name) pair, as emitted by the scan and as handed back
      to `rename_files` once the user approved it. */
  datatype Proposal = Proposal(oldName: string, newName: string)

  /** What the scan reports through its `scan_complete` or `error` signal. */
  datatype ScanResult = ScanComplete(proposals: seq<Proposal>) | ScanError(message: string)

  /** The cleaned root of a file name. */
  function CleanRoot(sub: Substitution, templates: seq<Template>, name: string): string {
    CleanFilename(sub, templates, Root(name))
  }

  /** A name the scan proposes to rename: a regular file whose root changes. */
  predicate NeedsRename(sub: Substitution, templates: seq<Template>, d: Dir, name: string) {
    IsFile(d, name) && CleanRoot(sub, templates, name) != Root(name)
  }

  /** A well-formed proposal: the old name needs renaming, the new name is
      its cleaned root followed by its untouched extension, and the two
      differ. */
  predicate Sound(sub: Substitution, templates: seq<Template>, d: Dir, p: Proposal) {
    && NeedsRename(sub, templates, d, p.oldName)
    && p.newName == CleanRoot(sub, templates, p.oldName) + Ext(p.oldName)
    && p.newName != p.oldName
  }

  /** The body of the scan loop for one listed name. */
  function ProposalFor(sub: Substitution, templates: seq<Template>, d: Dir, name: string): (r: Option<Proposal>)
    ensures r.Some? <==> NeedsRename(sub, templates, d, name)
    ensures r.Some? ==> r.value.oldName == name && Sound(sub, templates, d, r.value)
  {
    if IsFile(d, name) then
      var split := SplitExt(name);
      var cleaned := CleanFilename(sub, templates, split.0);
      if cleaned != split.0 then
        SuffixCancels(cleaned, split.0, split.1);
        Some(Proposal(name, cleaned + split.1))
      else None
    else None
  }

  /** Appending the same extension keeps different roots different. */
  lemma SuffixCancels(a: string, b: string, e: string)
    ensures a + e == b + e ==> a == b
  {
    if a + e == b + e {
      assert a == (a + e)[..|a|];
      assert b == (b + e)[..|b|];
    }
  }

  /** The scan loop over the listed names, in listing order. */
  function ScanNames(sub: Substitution, templates: seq<Template>, d: Dir, names: seq<string>): (r: seq<Proposal>)
    ensures |r| <= |names|
    ensures forall k :: 0 <= k < |r| ==> r[k].oldName in names && Sound(sub, templates, d, r[k])
    decreases |names|
  {
    if names == [] then []
    else
      var rest := ScanNames(sub, templates, d, names[1..]);
      match ProposalFor(sub, templates, d, names[0])
      case Some(p) => [p] + rest
      case None => rest
  }

  /** `scan_directory(directory)`: `listing` is what `os.listdir` returned,
      or the text of the exception it raised. */
  function ScanDirectory(sub: Substitution, templates: seq<Template>, d: Dir,
                         listing: Result<seq<string>, string>): (r: ScanResult)
    ensures listing.Failure? <==> r.ScanError?
    ensures r.ScanError? ==> r.message == "Scan error: " + listing.error
    ensures r.ScanComplete? ==> |r.proposals| <= |listing.value|
    ensures r.ScanComplete? ==> r.proposals == ScanNames(sub, templates, d, listing.value)
  {
    match listing
    case Success(names) => ScanComplete(ScanNames(sub, templates, d, names))
    case Failure(e) => ScanError("Scan error: " + e)
  }

  /** The old names of a list of proposals. */
  function Olds(ps: seq<Proposal>): (r: seq<string>)
    ensures |r| == |ps|
    ensures forall k :: 0 <= k < |ps| ==> r[k] == ps[k].oldName
  {
    seq(|ps|, k requires 0 <= k < |ps| => ps[k].oldName)
  }

  /** The scan handles each name on its own: scanning a concatenated listing
      is concatenating the scans, so proposals follow the listing order. */
  lemma {:induction false} ScanNamesAppend(sub: Substitution, templates: seq<Template>, d: Dir,
                                           a: seq<string>, b: seq<string>)
    ensures ScanNames(sub, templates, d, a + b)
         == ScanNames(sub, templates, d, a) + ScanNames(sub, templates, d, b)
    decreases |a|
  {
    if a == [] {
      assert [] + b == b;
    } else {
      assert (a + b)[0] == a[0];
      assert (a + b)[1..] == a[1..] + b;
      ScanNamesAppend(sub, templates, d, a[1..], b);
    }
  }

  lemma OldsAppend(a: seq<Proposal>, b: seq<Proposal>)
    ensures Olds(a + b) == Olds(a) + Olds(b)
  {
  }

  /** Every name that needs renaming gets a proposal, and only those do. */
  lemma {:induction false} ScanNamesComplete(sub: Substitution, templates: seq<Template>, d: Dir,
                                             names: seq<string>, name: string)
    ensures name in Olds(ScanNames(sub, templates, d, names))
        <==> name in names && NeedsRename(sub, templates, d, name)
    decreases |names|
  {
    if names != [] {
      var rest := ScanNames(sub, templates, d, names[1..]);
      var head := match ProposalFor(sub, templates, d, names[0])
                  case Some(p) => [p]
                  case None => [];
      assert ScanNames(sub, templates, d, names) == head + rest;
      OldsAppend(head, rest);
      assert Olds(head) == if NeedsRename(sub, templates, d, names[0]) then [names[0]] else [];
      ScanNamesComplete(sub, templates, d, names[1..], name);
      assert name in names <==> name == names[0] || name in names[1..];
    }
  }

  /** A listing without repeated names yields at most one proposal per name. */
  lemma {:induction false} ScanNamesDistinct(sub: Substitution, templates: seq<Template>, d: Dir,
                                             names: seq<string>)
    requires Distinct(names)
    ensures Distinct(Olds(ScanNames(sub, templates, d, names)))
    decreases |names|
  {
    if names != [] {
      var rest := ScanNames(sub, templates, d, names[1..]);
      var head := match ProposalFor(sub, templates, d, names[0])
                  case Some(p) => [p]
                  case None => [];
      assert ScanNames(sub, templates, d, names) == head + rest;
      OldsAppend(head, rest);
      assert Distinct(names[1..]);
      ScanNamesDistinct(sub, templates, d, names[1..]);
      assert names[0] !in names[1..];
      ScanNamesComplete(sub, templates, d, names[1..], names[0]);
    }
  }

  /** Scanning a one-name listing gives that name's proposal, if any. */
  lemma ScanOneName(sub: Substitution, templates: seq<Template>, d: Dir, name: string)
    ensures ScanNames(sub, templates, d, [name])
         == if NeedsRename(sub, templates, d, name) then [ProposalFor(sub, templates, d, name).value] else []
  {
    assert [name][1..] == [];
    assert ScanNames(sub, templates, d, []) == [];
  }

  /** A leading-dot name is a root without an extension, so with no
      templates it yields no proposal. */
  lemma HiddenFileNotProposed(sub: Substitution, d: Dir)
    ensures ScanNames(sub, [], d, [".hidden_file"]) == []
  {
    var name := ".hidden_file";
    SplitHiddenFile();
    assert Unpadded(name, TrimChars);
    CleanWithoutTemplates(sub, name);
    assert !NeedsRename(sub, [], d, name);
    ScanOneName(sub, [], d, name);
  }

  lemma CleanExamples(sub: Substitution)
    ensures CleanFilename(sub, [], "A_") == "A"
    ensures CleanFilename(sub, [], "__") == ""
  {
    StripPadded([], "A", "_", TrimChars);
    assert [] + "A" + "_" == "A_";
    StripPadded("__", [], [], TrimChars);
    assert "__" + [] + [] == "__";
  }

  /** The scan does not look at the other names in the directory: with no
      templates at all, `A_.mp3` is proposed to become `A.mp3` even when a
      file of that name already exists. What happens then is up to
      `os.rename`. */
  lemma ProposalMayNameExistingFile(sub: Substitution)
    ensures var d := map["A_.mp3" := RegularFile, "A.mp3" := RegularFile];
            ScanNames(sub, [], d, ["A_.mp3"]) == [Proposal("A_.mp3", "A.mp3")]
            && "A.mp3" in d
  {
    var d := map["A_.mp3" := RegularFile, "A.mp3" := RegularFile];
    var name := "A_.mp3";
    SplitShortFiles();
    CleanExamples(sub);
    assert IsFile(d, name);
    assert CleanRoot(sub, [], name) == "A";
    assert "A" + ".mp3" == "A.mp3";
    ScanOneName(sub, [], d, name);
  }

  /** A root that cleans down to nothing is still proposed: `__.mp3` would
      become the hidden, root-less name `.mp3`. */
  lemma EmptyRootIsProposed(sub: Substitution, d: Dir)
    requires IsFile(d, "__.mp3")
    ensures ScanNames(sub, [], d, ["__.mp3"]) == [Proposal("__.mp3", ".mp3")]
  {
    var name := "__.mp3";
    SplitShortFiles();
    CleanExamples(sub);
    assert CleanRoot(sub, [], name) == "";
    assert "" + ".mp3" == ".mp3";
    ScanOneName(sub, [], d, name);
  }
}
