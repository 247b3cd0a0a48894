/** `RenamerWorker.rename_files`: attempt every approved rename in order,
    report each attempt, and never let one failed rename stop the batch. */
module Renamer {
  import opened Files
  import opened Base
  import opened Scanner

  /** What `os.rename(old_path, new_path)` does: either the directory as it
      is afterwards, or the text of the `OSError` it raised. */
  datatype RenameResult = Renamed(after: Dir) | OSError(detail: string)

  /** `os.rename` within the scanned directory. Left abstract: whether an
      existing target is replaced or refused depends on the platform. */
  type RenameOp = (Dir, string, string) -> RenameResult

  /** The record of one attempted rename. */
  datatype Outcome =
    | Succeeded(oldName: string, newName: string)
    | Failed(oldName: string, newName: string, detail: string)

  /** What the worker emits: one `rename_progress` message per attempt, and
      `rename_finished` once the loop is over. */
  datatype Event = RenameProgress(message: string) | RenameFinished

  /** The body of the loop for one pair: the outcome and the directory after. */
  function Attempt(rename: RenameOp, d: Dir, p: Proposal): (r: (Outcome, Dir))
    ensures r.0.oldName == p.oldName && r.0.newName == p.newName
    ensures r.0.Failed? ==> r.1 == d
    ensures r.0.Succeeded? <==> rename(d, p.oldName, p.newName).Renamed?
  {
    match rename(d, p.oldName, p.newName)
    case Renamed(after) => (Succeeded(p.oldName, p.newName), after)
    case OSError(e) => (Failed(p.oldName, p.newName, e), d)
  }

  /** The pairs a sequence of outcomes reports on, in order. */
  function Attempted(outcomes: seq<Outcome>): (ps: seq<Proposal>)
    ensures |ps| == |outcomes|
  {
    if outcomes == [] then []
    else [Proposal(outcomes[0].oldName, outcomes[0].newName)] + Attempted(outcomes[1..])
  }

  predicate AllFailed(outcomes: seq<Outcome>) {
    forall i :: 0 <= i < |outcomes| ==> outcomes[i].Failed?
  }

  /** The loop over the approved pairs: one outcome per pair, in order, each
      pair attempted against the directory the earlier attempts left. */
  function RenameAll(rename: RenameOp, d: Dir, pairs: seq<Proposal>): (r: (seq<Outcome>, Dir))
    ensures Attempted(r.0) == pairs
    ensures AllFailed(r.0) ==> r.1 == d
    decreases |pairs|
  {
    if pairs == [] then ([], d)
    else
      var step := Attempt(rename, d, pairs[0]);
      var rest := RenameAll(rename, step.1, pairs[1..]);
      ([step.0] + rest.0, rest.1)
  }

  /** The progress message of one outcome. */
  function Message(o: Outcome): string {
    match o
    case Succeeded(a, b) => "\U{2714}\U{FE0F} " + a + " -> " + b
    case Failed(a, _, e) => "\U{26D4} Failed to rename " + a + ": " + e
  }

  /** `rename_files(directory, files_to_rename)`: the emitted events and the
      directory afterwards. */
  function RenameFiles(rename: RenameOp, d: Dir, pairs: seq<Proposal>): (r: (seq<Event>, Dir))
    ensures |r.0| == |pairs| + 1
    ensures r.0[|pairs|] == RenameFinished
    ensures forall i :: 0 <= i < |pairs| ==> r.0[i] == RenameProgress(Message(RenameAll(rename, d, pairs).0[i]))
    ensures r.1 == RenameAll(rename, d, pairs).1
  {
    var outcomes := RenameAll(rename, d, pairs).0;
    (seq(|outcomes|, i requires 0 <= i < |outcomes| => RenameProgress(Message(outcomes[i])))
       + [RenameFinished], RenameAll(rename, d, pairs).1)
  }

  /** Continue-on-error: a batch split in two runs the second part from
      wherever the first left the directory, whatever failed in the first. */
  lemma {:induction false} RenameAllAppend(rename: RenameOp, d: Dir, a: seq<Proposal>, b: seq<Proposal>)
    ensures RenameAll(rename, d, a + b).0
         == RenameAll(rename, d, a).0 + RenameAll(rename, RenameAll(rename, d, a).1, b).0
    ensures RenameAll(rename, d, a + b).1 == RenameAll(rename, RenameAll(rename, d, a).1, b).1
    decreases |a|
  {
    if a == [] {
      assert a + b == b;
    } else {
      var step := Attempt(rename, d, a[0]);
      var tailA := RenameAll(rename, step.1, a[1..]);
      var tailB := RenameAll(rename, tailA.1, b);
      RenameAllAppend(rename, step.1, a[1..], b);
      TailOfAppend(a, b);
      RenameAllStep(rename, d, a + b);
      RenameAllStep(rename, d, a);
      ConcatAssoc([step.0], tailA.0, tailB.0);
    }
  }

  /** One turn of the loop: the first pair's outcome, then the rest of the
      batch from the directory that attempt left. */
  lemma RenameAllStep(rename: RenameOp, d: Dir, pairs: seq<Proposal>)
    requires pairs != []
    ensures RenameAll(rename, d, pairs).0
         == [Attempt(rename, d, pairs[0]).0] + RenameAll(rename, Attempt(rename, d, pairs[0]).1, pairs[1..]).0
    ensures RenameAll(rename, d, pairs).1
         == RenameAll(rename, Attempt(rename, d, pairs[0]).1, pairs[1..]).1
  {
  }

  /** Every pair is attempted, on the directory left by the pairs before it,
      and its outcome is exactly that single attempt's outcome. */
  lemma RenameAttemptsEveryPair(rename: RenameOp, d: Dir, pairs: seq<Proposal>, i: nat)
    requires i < |pairs|
    ensures RenameAll(rename, d, pairs).0[i]
         == Attempt(rename, RenameAll(rename, d, pairs[..i]).1, pairs[i]).0
  {
    var before := RenameAll(rename, d, pairs[..i]);
    assert pairs == pairs[..i] + pairs[i..];
    RenameAllAppend(rename, d, pairs[..i], pairs[i..]);
    assert pairs[i..][0] == pairs[i];
  }

  /** Event i reports pair i: the success line when `os.rename` succeeded on
      the directory the earlier pairs left, and the failure line carrying the
      `OSError` text otherwise. */
  lemma RenameReportsEachPair(rename: RenameOp, d: Dir, pairs: seq<Proposal>, i: nat)
    requires i < |pairs|
    ensures rename(RenameAll(rename, d, pairs[..i]).1, pairs[i].oldName, pairs[i].newName).Renamed? ==>
              (RenameFiles(rename, d, pairs).0[i]
               == RenameProgress("\U{2714}\U{FE0F} " + pairs[i].oldName + " -> " + pairs[i].newName))
    ensures rename(RenameAll(rename, d, pairs[..i]).1, pairs[i].oldName, pairs[i].newName).OSError? ==>
              (RenameFiles(rename, d, pairs).0[i]
               == RenameProgress("\U{26D4} Failed to rename " + pairs[i].oldName + ": "
                                 + rename(RenameAll(rename, d, pairs[..i]).1, pairs[i].oldName, pairs[i].newName).detail))
  {
    RenameAttemptsEveryPair(rename, d, pairs, i);
  }
}
