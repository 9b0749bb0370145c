/**
  A batch's rejects and its target commit, in two tables that cannot share a commit: rejects first,
  and a skip when the data-quality table already holds this batch's (src/dq.rs).
*/
module Rejects {
  import opened Basics

  type Reject = string

  /** A commit of this pipeline to the data-quality table: the source version it covers, and the rows. */
  datatype DqCommit = DqCommit(version: int, rows: seq<Reject>)

  type DqLog = seq<DqCommit>

  /** What became of the commit, if one was tried. */
  datatype Outcome = Lands | FailsBefore | FailsAfterLanding

  /** The version of the table's own `txn`: that of its newest commit. */
  function Stored(log: DqLog): Option<int> {
    if log == [] then None else Some(log[|log| - 1].version)
  }

  function AllRows(rejected: seq<seq<Reject>>): seq<Reject> {
    if |rejected| == 0 then [] else AllRows(rejected[..|rejected| - 1]) + rejected[|rejected| - 1]
  }

  /** How many rejects the first `i` chunks hold. */
  function CountBefore(rejected: seq<seq<Reject>>, i: nat): nat
    requires i <= |rejected|
  {
    if i == 0 then 0 else CountBefore(rejected, i - 1) + |rejected[i - 1]|
  }

  /** The rows are every chunk's, in order: row `j` of chunk `i` stands after those of the chunks before it. */
  ghost predicate HoldsEvery(rows: seq<Reject>, rejected: seq<seq<Reject>>) {
    && |rows| == CountBefore(rejected, |rejected|)
    && forall i, j | 0 <= i < |rejected| && 0 <= j < |rejected[i]| ::
         CountBefore(rejected, i) + j < |rows| && rows[CountBefore(rejected, i) + j] == rejected[i][j]
  }

  lemma {:induction false} CountsOfPrefix(rejected: seq<seq<Reject>>, n: nat, i: nat)
    requires i <= n <= |rejected|
    ensures CountBefore(rejected[..n], i) == CountBefore(rejected, i)
  {
    if i > 0 {
      CountsOfPrefix(rejected, n, i - 1);
    }
  }

  /** Row `j` of chunk `i`, once the last chunk is there. */
  lemma RowOfOneMore(before: seq<Reject>, rejected: seq<seq<Reject>>, i: nat, j: nat)
    requires |rejected| > 0 && HoldsEvery(before, rejected[..|rejected| - 1]) && i < |rejected| && j < |rejected[i]|
    ensures var rows := before + rejected[|rejected| - 1];
            CountBefore(rejected, i) + j < |rows| && rows[CountBefore(rejected, i) + j] == rejected[i][j]
  {
    var n := |rejected| - 1;
    CountsOfPrefix(rejected, n, i);
    if i < n {
      assert rejected[..n][i][j] == rejected[i][j];
    } else {
      assert |before| == CountBefore(rejected, n);
    }
  }

  lemma OneMoreChunk(before: seq<Reject>, rejected: seq<seq<Reject>>)
    requires |rejected| > 0 && HoldsEvery(before, rejected[..|rejected| - 1])
    ensures HoldsEvery(before + rejected[|rejected| - 1], rejected)
  {
    var n := |rejected| - 1;
    var rows := before + rejected[n];
    CountsOfPrefix(rejected, n, n);
    assert |rows| == CountBefore(rejected, n + 1);
    forall i, j | 0 <= i < |rejected| && 0 <= j < |rejected[i]|
      ensures CountBefore(rejected, i) + j < |rows| && rows[CountBefore(rejected, i) + j] == rejected[i][j]
    {
      RowOfOneMore(before, rejected, i, j);
    }
  }

  lemma {:induction false} AllRowsHoldsEvery(rejected: seq<seq<Reject>>)
    ensures HoldsEvery(AllRows(rejected), rejected)
  {
    if |rejected| == 0 {
      assert CountBefore(rejected, 0) == 0 && AllRows(rejected) == [];
    } else {
      AllRowsHoldsEvery(rejected[..|rejected| - 1]);
      OneMoreChunk(AllRows(rejected[..|rejected| - 1]), rejected);
    }
  }

  predicate Skips(log: DqLog, rows: seq<Reject>, version: int) {
    rows == [] || Stored(log) == Some(version)
  }

  function Written(log: DqLog, rows: seq<Reject>, version: int, outcome: Outcome): DqLog {
    if Skips(log, rows, version) || outcome.FailsBefore? then log else log + [DqCommit(version, rows)]
  }

  class DataQuality {
    var log: DqLog

    constructor (log: DqLog)
      ensures this.log == log
    {
      this.log := log;
    }

    /** Whether this very batch's rejects landed: equality, not "at least". */
    method AlreadyRecorded(version: int) returns (r: bool)
      ensures r <==> Stored(log) == Some(version)
    {
      r := log != [] && log[|log| - 1].version == version;
    }

    /** Write every reject of the batch in one commit, unless they are there; how many were written. */
    method Write(rejected: seq<seq<Reject>>, version: int, outcome: Outcome) returns (r: Result<nat, Unit>)
      modifies this
      ensures log == Written(old(log), AllRows(rejected), version, outcome)
      ensures r.Err? <==>
                outcome != Lands && CountBefore(rejected, |rejected|) > 0 && Stored(old(log)) != Some(version)
      ensures r.Ok? ==>
                r.value == if Stored(old(log)) == Some(version) then 0 else CountBefore(rejected, |rejected|)
      ensures outcome != FailsBefore && CountBefore(rejected, |rejected|) > 0 && Stored(old(log)) != Some(version) ==>
                && |log| == |old(log)| + 1 && log[..|old(log)|] == old(log)
                && log[|old(log)|].version == version && HoldsEvery(log[|old(log)|].rows, rejected)
      ensures outcome == FailsBefore || CountBefore(rejected, |rejected|) == 0 || Stored(old(log)) == Some(version) ==>
                log == old(log)
    {
      var rows: seq<Reject> := [];
      for i := 0 to |rejected|
        invariant rows == AllRows(rejected[..i])
      {
        assert rejected[..i + 1][..i] == rejected[..i];
        rows := rows + rejected[i];
      }
      assert rejected[..|rejected|] == rejected;
      AllRowsHoldsEvery(rejected);
      if |rows| == 0 {
        return Ok(0);
      }
      var recorded := AlreadyRecorded(version);
      if recorded {
        return Ok(0);
      }
      match outcome {
        case FailsBefore => r := Err(Unit);
        case FailsAfterLanding =>
          log := log + [DqCommit(version, rows)];
          r := Err(Unit);
        case Lands =>
          log := log + [DqCommit(version, rows)];
          r := Ok(|rows|);
      }
    }
  }

  // ------------------------------------------------------------------ runs of crashes and replays

  /** A batch, by its last source version, and what it rejects, chunk by chunk. */
  datatype Batch = Batch(version: int, chunks: seq<seq<Reject>>) {
    function Rows(): seq<Reject> {
      AllRows(chunks)
    }

    function AsCommit(): DqCommit {
      DqCommit(version, Rows())
    }
  }

  /** `pending` is the batch whose rejects are in, or taken to be, and whose target commit is next. */
  datatype World = World(dq: DqLog, committed: seq<Batch>, pending: Option<Batch>)

  /** Any batch may come at any time: after a crash, a rewind to an older version, or a recreated source. */
  datatype Step = WriteRejects(batch: Batch, outcome: Outcome) | CommitTarget | Crash

  predicate Next(w: World, step: Step, x: World) {
    match step
    case WriteRejects(b, outcome) =>
      && x.dq == Written(w.dq, b.Rows(), b.version, outcome) && x.committed == w.committed
      && x.pending == if Skips(w.dq, b.Rows(), b.version) || outcome.Lands? then Some(b) else None
    case CommitTarget =>
      w.pending.Some? && x == World(w.dq, w.committed + [w.pending.value], None)
    case Crash => x == w.(pending := None)
  }

  ghost predicate Run(worlds: seq<World>, steps: seq<Step>) {
    && |worlds| == |steps| + 1 && worlds[0] == World([], [], None)
    && forall k | 0 <= k < |steps| :: Next(worlds[k], steps[k], worlds[k + 1])
  }

  /** What each batch rejects, by its last source version: a deterministic transform over pinned lookups. */
  type Rejections = map<int, seq<Reject>>

  function RejectsOf(of: Rejections, version: int): seq<Reject> {
    if version in of then of[version] else []
  }

  predicate Deterministic(of: Rejections, steps: seq<Step>) {
    forall k | 0 <= k < |steps| && steps[k].WriteRejects? :: steps[k].batch.Rows() == RejectsOf(of, steps[k].batch.version)
  }

  predicate Recorded(dq: DqLog, b: Batch) {
    b.Rows() != [] ==> b.AsCommit() in dq
  }

  ghost predicate Inv(of: Rejections, w: World) {
    && (forall b | b in w.committed :: Recorded(w.dq, b))
    && (w.pending.Some? ==> Recorded(w.dq, w.pending.value))
    && (forall c | c in w.dq :: c.rows == RejectsOf(of, c.version) && c.rows != [])
    && (forall i, j | 0 <= i && j == i + 1 && j < |w.dq| :: w.dq[i].version != w.dq[j].version)
  }

  lemma StepKeepsInv(of: Rejections, w: World, step: Step, x: World)
    requires Inv(of, w) && Next(w, step, x)
    requires step.WriteRejects? ==> step.batch.Rows() == RejectsOf(of, step.batch.version)
    ensures Inv(of, x)
  {
    match step
    case WriteRejects(b, outcome) =>
      assert w.dq <= x.dq;
      if Stored(w.dq) == Some(b.version) {
        assert w.dq[|w.dq| - 1] in w.dq;
      }
      assert forall c | c in w.dq :: c in x.dq;
      assert forall other :: Recorded(w.dq, other) ==> Recorded(x.dq, other);
    case _ =>
  }

  /**
    Rejects before target, across crashes: at every moment of every run, each committed batch's
    rejects are in the data-quality table, whole; and a version's rejects stand twice in a row nowhere,
    so replaying the batch that crashed between the two commits adds none.
  */
  lemma {:induction false} RejectsAreNeverLost(of: Rejections, worlds: seq<World>, steps: seq<Step>, n: nat)
    requires Run(worlds, steps) && Deterministic(of, steps) && n < |worlds|
    ensures Inv(of, worlds[n])
  {
    if n > 0 {
      RejectsAreNeverLost(of, worlds, steps, n - 1);
      StepKeepsInv(of, worlds[n - 1], steps[n - 1], worlds[n]);
    }
  }

  /** Each reject of each of a committed batch's chunks is in a commit of its version. */
  lemma EveryRejectIsThere(of: Rejections, worlds: seq<World>, steps: seq<Step>, n: nat, b: Batch, i: nat, j: nat)
    requires Run(worlds, steps) && Deterministic(of, steps) && n < |worlds| && b in worlds[n].committed
    requires i < |b.chunks| && j < |b.chunks[i]|
    ensures exists c | c in worlds[n].dq :: c.version == b.version && HoldsEvery(c.rows, b.chunks) && b.chunks[i][j] in c.rows
  {
    RejectsAreNeverLost(of, worlds, steps, n);
    AllRowsHoldsEvery(b.chunks);
    var reject := b.chunks[i][j];
    assert reject in b.Rows();
    assert Recorded(worlds[n].dq, b) && b.AsCommit() in worlds[n].dq;
  }

  /** However often a batch is replayed before anything else is written, its rejects are there once. */
  lemma {:induction false} ReplayAddsNone(worlds: seq<World>, steps: seq<Step>, first: nat, last: nat, b: Batch)
    requires Run(worlds, steps) && first < last < |worlds|
    requires steps[first].WriteRejects? && steps[first].outcome != FailsBefore && b.Rows() != []
    requires forall k | first <= k < last :: steps[k].WriteRejects? ==> steps[k].batch == b
    ensures worlds[last].dq == worlds[first + 1].dq && Stored(worlds[last].dq) == Some(b.version)
    decreases last
  {
    assert Next(worlds[last - 1], steps[last - 1], worlds[last]);
    if last > first + 1 {
      ReplayAddsNone(worlds, steps, first, last - 1, b);
    }
  }

  // ------------------------------------------------------------------ where the skip loses

  lemma EqualityLosesIff(log: DqLog, rows: seq<Reject>, version: int)
    requires rows != []
    ensures DqCommit(version, rows) !in Written(log, rows, version, Lands) <==>
              Stored(log) == Some(version) && DqCommit(version, rows) !in log
  {
    if !Skips(log, rows, version) {
      assert Written(log, rows, version, Lands)[|log|] == DqCommit(version, rows);
    }
  }

  /** Step `i` recorded rejects of `version`, and its commit is still the newest at `n`. */
  predicate IsNewestAt(worlds: seq<World>, steps: seq<Step>, i: nat, n: nat, version: int)
    requires i < |steps| < |worlds| && n < |worlds|
  {
    && steps[i].WriteRejects? && steps[i].batch.version == version
    && worlds[i + 1].dq == worlds[i].dq + [steps[i].batch.AsCommit()] && worlds[n].dq == worlds[i + 1].dq
  }

  /** The batch's rejects are recorded nowhere at `n`, where others of its version are the newest. */
  ghost predicate Overshadowed(worlds: seq<World>, steps: seq<Step>, n: nat, b: Batch)
    requires |steps| < |worlds| && n <= |steps|
  {
    b.Rows() != [] && b.AsCommit() !in worlds[n].dq && exists i | 0 <= i < n :: IsNewestAt(worlds, steps, i, n, b.version)
  }

  /** The newest commit was recorded by some earlier step. */
  lemma {:induction false} NewestCameFrom(worlds: seq<World>, steps: seq<Step>, n: nat) returns (i: nat)
    requires Run(worlds, steps) && n < |worlds| && worlds[n].dq != []
    ensures i < n && IsNewestAt(worlds, steps, i, n, Stored(worlds[n].dq).value)
  {
    assert Next(worlds[n - 1], steps[n - 1], worlds[n]);
    if worlds[n].dq == worlds[n - 1].dq {
      i := NewestCameFrom(worlds, steps, n - 1);
    } else {
      i := n - 1;
    }
  }

  /**
    In every run, of transforms that reject the same rows on a replay or do not: a batch commits
    without its rejects in the data-quality table if and only if an earlier attempt at its version
    recorded others, is still the newest there, and nothing recorded these.
  */
  lemma CommitsWithoutItsRejectsIff(worlds: seq<World>, steps: seq<Step>, k: nat)
    requires Run(worlds, steps) && k < |steps| && steps[k].CommitTarget?
    ensures worlds[k].pending.Some?
    ensures var b := worlds[k].pending.value;
            !Recorded(worlds[k + 1].dq, b) <==> k > 0 && Overshadowed(worlds, steps, k - 1, b)
  {
    assert Next(worlds[k], steps[k], worlds[k + 1]);
    assert k > 0 && Next(worlds[k - 1], steps[k - 1], worlds[k]);
    var n := k - 1;
    var (b, was) := (worlds[k].pending.value, worlds[n].dq);
    assert steps[k - 1].WriteRejects? && steps[k - 1].batch == b;
    if b.Rows() != [] {
      EqualityLosesIff(was, b.Rows(), b.version);
      if Stored(was) == Some(b.version) {
        var i := NewestCameFrom(worlds, steps, n);
      }
      if i :| 0 <= i < n && IsNewestAt(worlds, steps, i, n, b.version) {
        assert Stored(was) == Some(b.version);
      }
    }
  }

  // ------------------------------------------------------------------ why equality, and not "at least"

  datatype Try = Try(batch: Batch, outcome: Outcome)

  /** The other test, "already past this version". */
  predicate SkipsIfPast(log: DqLog, rows: seq<Reject>, version: int) {
    rows == [] || (Stored(log).Some? && Stored(log).value >= version)
  }

  function UnderEquality(tries: seq<Try>): DqLog {
    if |tries| == 0 then []
    else
      var (log, t) := (UnderEquality(tries[..|tries| - 1]), tries[|tries| - 1]);
      Written(log, t.batch.Rows(), t.batch.version, t.outcome)
  }

  function UnderAtLeast(tries: seq<Try>): DqLog {
    if |tries| == 0 then []
    else
      var (log, t) := (UnderAtLeast(tries[..|tries| - 1]), tries[|tries| - 1]);
      if SkipsIfPast(log, t.batch.Rows(), t.batch.version) || t.outcome.FailsBefore? then log else log + [t.batch.AsCommit()]
  }

  /** The `i`-th try rejects something at a version below the newest recorded, and its write goes through. */
  predicate Rewinds(tries: seq<Try>, i: nat)
    requires i < |tries|
  {
    var (log, t) := (UnderEquality(tries[..i]), tries[i]);
    t.batch.Rows() != [] && !t.outcome.FailsBefore? && Stored(log).Some? && Stored(log).value > t.batch.version
  }

  /** Under "at least" the newest version never falls behind, and no more is ever recorded. */
  lemma {:induction false} AtLeastIsAhead(tries: seq<Try>)
    ensures var (eq, past) := (UnderEquality(tries), UnderAtLeast(tries));
            && |past| <= |eq|
            && (Stored(eq).Some? ==> Stored(past).Some? && Stored(past).value >= Stored(eq).value)
            && ((forall i | 0 <= i < |tries| :: !Rewinds(tries, i)) ==> past == eq)
            && ((exists i | 0 <= i < |tries| :: Rewinds(tries, i)) ==> |past| < |eq|)
  {
    if |tries| > 0 {
      var n := |tries| - 1;
      var before := tries[..n];
      AtLeastIsAhead(before);
      assert forall i | 0 <= i < n :: before[..i] == tries[..i];
      assert forall i | 0 <= i < n :: Rewinds(before, i) <==> Rewinds(tries, i);
      var (eq, t) := (UnderEquality(before), tries[n]);
      assert Rewinds(tries, n) <==>
        t.batch.Rows() != [] && !t.outcome.FailsBefore? && Stored(eq).Some? && Stored(eq).value > t.batch.version;
    }
  }

  /**
    The two tests record the same if and only if the source never rewinds: no batch with rejects comes
    at a version below the newest recorded. At the first that does, "at least" records nothing.
  */
  lemma TestsAgreeIff(tries: seq<Try>)
    ensures UnderAtLeast(tries) == UnderEquality(tries) <==> forall i | 0 <= i < |tries| :: !Rewinds(tries, i)
  {
    AtLeastIsAhead(tries);
  }

  lemma OneChunk(rows: seq<Reject>)
    ensures AllRows([rows]) == rows
  {
    assert [rows][..0] == [] && [] + rows == rows;
  }

  /** A source recreated after version 500: what it rejects at version 3 is lost under "at least", and not under equality. */
  lemma ARewindLosesUnderAtLeast(before: seq<Reject>, after: seq<Reject>)
    requires before != [] && after != []
    ensures var tries := [Try(Batch(500, [before]), Lands), Try(Batch(3, [after]), Lands)];
            DqCommit(3, after) in UnderEquality(tries) && DqCommit(3, after) !in UnderAtLeast(tries)
  {
    var tries := [Try(Batch(500, [before]), Lands), Try(Batch(3, [after]), Lands)];
    OneChunk(before);
    OneChunk(after);
    assert tries[..1] == [tries[0]] && tries[..1][..0] == [];
    assert UnderEquality(tries[..1]) == [DqCommit(500, before)] == UnderAtLeast(tries[..1]);
    assert UnderEquality(tries)[1] == DqCommit(3, after);
  }
}
