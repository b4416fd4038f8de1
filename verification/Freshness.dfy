/**
 Rollback and replay detection for an authenticated registry index, against the verifier's
 recorded high marks and the snapshots it has seen.
 */
module Freshness {
  import opened Basics
  import opened TrustTypes

  datatype Snapshot = Snapshot(generation: int, sequence: int, id: Option<string>, digest: string)

  /** Missing marks default to the index's own position; an entry `None` is not an object. */
  datatype TrustedState = TrustedState(
    highestGeneration: Option<int>, highestSequence: Option<int>, seen: Option<seq<Option<Snapshot>>>)

  predicate SamePosition(a: Snapshot, b: Snapshot) {
    a.generation == b.generation && a.sequence == b.sequence
  }

  /** Equal in one of position, identifier and digest, and yet different. */
  predicate Rebinds(seen: Snapshot, s: Snapshot) {
    seen != s && (SamePosition(seen, s) || seen.id == s.id || seen.digest == s.digest)
  }

  function MarkOr(mark: Option<int>, default: int): int {
    if mark.Some? then mark.value else default
  }

  function SeenOf(t: TrustedState): seq<Option<Snapshot>> {
    if t.seen.Some? then t.seen.value else []
  }

  predicate AtMarks(t: TrustedState, s: Snapshot, e: Option<Snapshot>) {
    && e.Some?
    && e.value.generation == MarkOr(t.highestGeneration, s.generation)
    && e.value.sequence == MarkOr(t.highestSequence, s.sequence)
  }

  predicate Rollback(t: TrustedState, s: Snapshot) {
    s.generation < MarkOr(t.highestGeneration, s.generation) || s.sequence < MarkOr(t.highestSequence, s.sequence)
  }

  predicate Rebound(t: TrustedState, s: Snapshot) {
    exists e :: e in SeenOf(t) && e.Some? && Rebinds(e.value, s)
  }

  predicate MarksSeen(t: TrustedState, s: Snapshot) {
    exists e :: e in SeenOf(t) && AtMarks(t, s, e)
  }

  /** The second half of the replay test: at the marks, which were seen, but not an exact repeat. */
  predicate RepositionedAtMarks(t: TrustedState, s: Snapshot) {
    && s.generation == MarkOr(t.highestGeneration, s.generation)
    && s.sequence == MarkOr(t.highestSequence, s.sequence)
    && MarksSeen(t, s)
    && Some(s) !in SeenOf(t)
  }

  function FreshnessFailures(t: TrustedState, s: Snapshot): set<Reason> {
    (if Rollback(t, s) then {RollbackDetected} else {}) +
    (if t.seen.None? || !MarksSeen(t, s) then {OfflineInputMissing} else {}) +
    (if Rebound(t, s) || RepositionedAtMarks(t, s) then {MetadataReplayed} else {})
  }

  /** The second half never adds anything: whatever sits at the marks is then a rebinding. */
  lemma RepositionedIsRebound(t: TrustedState, s: Snapshot)
    requires RepositionedAtMarks(t, s)
    ensures Rebound(t, s)
  {
    var e :| e in SeenOf(t) && AtMarks(t, s, e);
    assert Rebinds(e.value, s);
  }

  // ----- consistency of the history -----

  /** Two snapshots agree on all of position, identifier and digest, or on none of them. */
  ghost predicate Compatible(a: Snapshot, b: Snapshot) {
    a == b || (!SamePosition(a, b) && a.id != b.id && a.digest != b.digest)
  }

  ghost predicate Consistent(seen: seq<Option<Snapshot>>) {
    forall a, b :: a in seen && b in seen && a.Some? && b.Some? ==> Compatible(a.value, b.value)
  }

  /** No replay is reported exactly when the snapshot is compatible with everything seen. */
  lemma NotReplayedMeans(t: TrustedState, s: Snapshot)
    ensures MetadataReplayed !in FreshnessFailures(t, s) <==>
            forall e :: e in SeenOf(t) && e.Some? ==> Compatible(e.value, s)
  {
    if RepositionedAtMarks(t, s) {
      RepositionedIsRebound(t, s);
    }
    forall e | e in SeenOf(t) && e.Some? ensures Compatible(e.value, s) <==> !Rebinds(e.value, s) {
    }
  }

  ghost predicate AboveMarks(t: TrustedState, s: Snapshot) {
    && (t.highestGeneration.Some? ==> t.highestGeneration.value <= s.generation)
    && (t.highestSequence.Some? ==> t.highestSequence.value <= s.sequence)
  }

  /** A seen snapshot sits at every recorded mark, and at the new snapshot's coordinate where none is recorded. */
  ghost predicate Anchored(t: TrustedState, s: Snapshot, e: Snapshot) {
    && (t.highestGeneration == Some(e.generation) || (t.highestGeneration.None? && e.generation == s.generation))
    && (t.highestSequence == Some(e.sequence) || (t.highestSequence.None? && e.sequence == s.sequence))
  }

  /** Each of the three reasons, exactly. */
  lemma FreshnessMeans(t: TrustedState, s: Snapshot)
    ensures RollbackDetected !in FreshnessFailures(t, s) <==> AboveMarks(t, s)
    ensures MetadataReplayed !in FreshnessFailures(t, s) <==>
            forall e :: e in SeenOf(t) && e.Some? ==> Compatible(e.value, s)
    ensures OfflineInputMissing !in FreshnessFailures(t, s) <==>
            exists e :: e in SeenOf(t) && e.Some? && Anchored(t, s, e.value)
    ensures FreshnessFailures(t, s) <= {RollbackDetected, MetadataReplayed, OfflineInputMissing}
  {
    NotReplayedMeans(t, s);
    assert forall e :: e in SeenOf(t) && e.Some? ==> (AtMarks(t, s, e) <==> Anchored(t, s, e.value));
    if MarksSeen(t, s) {
      var e :| e in SeenOf(t) && AtMarks(t, s, e);
      assert Anchored(t, s, e.value);
    }
  }

  /** Neither a rollback nor a replay; the offline input may still be incomplete. */
  ghost predicate Fresh(t: TrustedState, s: Snapshot) {
    RollbackDetected !in FreshnessFailures(t, s) && MetadataReplayed !in FreshnessFailures(t, s)
  }

  function Record(t: TrustedState, s: Snapshot): TrustedState {
    TrustedState(Some(s.generation), Some(s.sequence), Some(SeenOf(t) + [Some(s)]))
  }

  /** Recording a fresh index keeps the history consistent, the marks rising and the marks seen. */
  lemma RecordKeeps(t: TrustedState, s: Snapshot)
    requires Consistent(SeenOf(t)) && Fresh(t, s)
    ensures Consistent(SeenOf(Record(t, s)))
    ensures AboveMarks(t, s)
    ensures forall next :: MarksSeen(Record(t, s), next)
  {
    FreshnessMeans(t, s);
    var after := SeenOf(Record(t, s));
    assert forall e :: e in after <==> e in SeenOf(t) || e == Some(s);
    forall a, b | a in after && b in after && a.Some? && b.Some? ensures Compatible(a.value, b.value) {
      assert Compatible(b.value, a.value) ==> Compatible(a.value, b.value);
    }
    forall next ensures MarksSeen(Record(t, s), next) {
      assert Some(s) in after && AtMarks(Record(t, s), next, Some(s));
    }
  }

  // ----- whole runs -----

  /** The snapshots are fresh one after the other, each recorded before the next. */
  ghost predicate AllFresh(t: TrustedState, run: seq<Snapshot>)
    decreases |run|
  {
    run == [] || (Fresh(t, run[0]) && AllFresh(Record(t, run[0]), run[1..]))
  }

  ghost function RecordAll(t: TrustedState, run: seq<Snapshot>): TrustedState
    decreases |run|
  {
    if run == [] then t else RecordAll(Record(t, run[0]), run[1..])
  }

  lemma {:induction false} RunKeeps(t: TrustedState, run: seq<Snapshot>)
    requires Consistent(SeenOf(t)) && AllFresh(t, run)
    ensures Consistent(SeenOf(RecordAll(t, run)))
    ensures forall e :: e in SeenOf(t) ==> e in SeenOf(RecordAll(t, run))
    ensures forall s :: s in run ==> Some(s) in SeenOf(RecordAll(t, run))
    decreases |run|
  {
    if run == [] {
    } else {
      RecordKeeps(t, run[0]);
      RunKeeps(Record(t, run[0]), run[1..]);
      assert Some(run[0]) in SeenOf(Record(t, run[0]));
      assert forall s :: s in run <==> s == run[0] || s in run[1..];
    }
  }

  /** In a fresh run neither coordinate ever falls, and it stays above the initial marks. */
  lemma {:induction false} RunNeverFalls(t: TrustedState, run: seq<Snapshot>, j: nat)
    requires Consistent(SeenOf(t)) && AllFresh(t, run) && j < |run|
    ensures AboveMarks(t, run[j])
    ensures forall i :: 0 <= i < j ==> run[i].generation <= run[j].generation && run[i].sequence <= run[j].sequence
    decreases |run|
  {
    RecordKeeps(t, run[0]);
    if j > 0 {
      var rest := run[1..];
      RunNeverFalls(Record(t, run[0]), rest, j - 1);
      forall i | 0 <= i < j ensures run[i].generation <= run[j].generation && run[i].sequence <= run[j].sequence {
        if i > 0 {
          assert rest[i - 1] == run[i] && rest[j - 1] == run[j];
        }
      }
    }
  }

  /** In a fresh run position, identifier and digest determine each other. */
  lemma RunNeverRebinds(t: TrustedState, run: seq<Snapshot>, i: nat, j: nat)
    requires Consistent(SeenOf(t)) && AllFresh(t, run) && i < |run| && j < |run|
    ensures Compatible(run[i], run[j])
  {
    RunKeeps(t, run);
    assert run[i] in run && run[j] in run;
  }
}
