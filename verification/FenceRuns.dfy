/**
  What whole runs of fenced members leave in the table: each partition's rows delivered once and
  in order, one takeover marker, and nothing of a partition once it is given up.
*/
module FenceRuns {
  import opened Basics
  import opened OffsetNames
  import opened OffsetLog
  import opened OffsetRead
  import opened Fence
  import opened FenceProtocol

  // ------------------------------------------------------------------ gap-free delivery

  function Interval(from: int, to: int): seq<int> {
    if to < from then [] else seq(to - from + 1, i => from + i)
  }

  /** The offsets of partition `p` whose rows the log delivers, in the order they landed. */
  function Delivered(log: Log, p: int): seq<int> {
    if |log| == 0 then []
    else
      var c := log[|log| - 1];
      Delivered(Drop(log), p) + if p in c.info.ranges then Interval(c.info.ranges[p].first, c.info.ranges[p].last) else []
  }

  /** One run of offsets with no gap and no repeat, ending at the offset the table holds. */
  ghost predicate GapFree(appId: string, log: Log, p: int) {
    var d := Delivered(log, p);
    d == [] || (TxnVersion(log, TxnAppId(appId, p)).Some? && d == Interval(d[0], TxnVersion(log, TxnAppId(appId, p)).value))
  }

  /** A batch reads on from the offset it was read from; one without starts where it is told. */
  ghost predicate ReadsOn(ranges: map<int, Range>, bases: map<int, Option<int>>) {
    forall p | p in ranges ::
      && ranges[p].first <= ranges[p].last
      && (p in bases && bases[p].Some? ==> ranges[p].first == bases[p].value + 1)
  }

  /** Other writers leave this app_id's `txn`s alone, and batches read on from their fence's base. */
  ghost predicate Orderly(w: World, step: Step) {
    match step
    case Foreign(c) =>
      && c.info.ranges == map[] && TakeoverMarkerAppId(w.appId) !in c.txns
      && forall p :: TxnAppId(w.appId, p) !in c.txns
    case Build(m, ranges, _) =>
      m < |w.members| ==>
        ReadsOn(ranges, map p | p in ranges && p in w.members[m].fence.base :: w.members[m].fence.base[p].offset)
    case _ => true
  }

  ghost predicate AllGapFree(w: World) {
    && (forall p :: GapFree(w.appId, w.log, p))
    && forall m | 0 <= m < |w.members| ::
         w.members[m].plan.Some? ==> ReadsOn(w.members[m].plan.value.offsets.ranges, w.members[m].plan.value.bases)
  }

  lemma IntervalsJoin(a: int, b: int, c: int)
    requires a <= b + 1 && b <= c
    ensures Interval(a, b) + Interval(b + 1, c) == Interval(a, c)
  {
  }

  /** A commit that leaves `p` where it is and delivers nothing of it keeps its run. */
  lemma RunStays(appId: string, log: Log, c: Commit, p: int)
    requires GapFree(appId, log, p) && p !in c.info.ranges
    requires TxnVersion(log + [c], TxnAppId(appId, p)) == TxnVersion(log, TxnAppId(appId, p)) || Delivered(log, p) == []
    ensures GapFree(appId, log + [c], p)
  {
    assert Drop(log + [c]) == log;
    assert Delivered(log + [c], p) == Delivered(log, p);
  }

  lemma RunGrows(appId: string, log: Log, c: Commit, p: int)
    requires GapFree(appId, log, p) && p in c.info.ranges
    requires var (r, held) := (c.info.ranges[p], TxnVersion(log, TxnAppId(appId, p)));
             && r.first <= r.last && (held.Some? ==> r.first == held.value + 1)
             && TxnVersion(log + [c], TxnAppId(appId, p)) == Some(r.last)
    ensures GapFree(appId, log + [c], p)
  {
    var (d, r) := (Delivered(log, p), c.info.ranges[p]);
    assert Delivered(log + [c], p) == d + Interval(r.first, r.last) by {
      assert Drop(log + [c]) == log;
    }
    if d != [] {
      var held := TxnVersion(log, TxnAppId(appId, p)).value;
      IntervalsJoin(d[0], held, r.last);
      assert d + Interval(r.first, r.last) == Interval(d[0], r.last);
    }
  }

  lemma LandKeepsRuns(w: World, m: nat, c: Commit, x: World)
    requires Wf(w) && Inv(w) && AllGapFree(w) && (Next(w, Land(m, c), x) || Next(w, LandLost(m, c), x))
    ensures AllGapFree(x)
  {
    LandMovesOnlyItsBatch(w, m, c);
    var plan := w.members[m].plan.value;
    assert MemberKnows(w, w.members[m]);
    forall p
      ensures GapFree(x.appId, x.log, p)
    {
      assert GapFree(w.appId, w.log, p) && Moved(w, plan, c, p);
      if p in plan.offsets.ranges {
        RunGrows(w.appId, w.log, c, p);
      } else {
        RunStays(w.appId, w.log, c, p);
      }
    }
  }

  lemma BaselineKeepsRuns(w: World, snapshot: nat, asserted: map<int, int>, c: Commit, x: World)
    requires Wf(w) && AllGapFree(w) && Next(w, Baseline(snapshot, asserted, c), x)
    ensures AllGapFree(x)
  {
    forall p
      ensures GapFree(x.appId, x.log, p)
    {
      var id := TxnAppId(w.appId, p);
      assert GapFree(w.appId, w.log, p);
      Appended(w.log, c, id);
      if id in c.txns {
        NoConflict(w.log, snapshot + 1, c, id);
        PartitionsHaveTheirOwnNames(w.appId);
        assert p in asserted && c.txns[id] == asserted[p];
      }
      RunStays(w.appId, w.log, c, p);
    }
  }

  lemma StepKeepsRuns(w: World, step: Step, x: World)
    requires Wf(w) && Inv(w) && AllGapFree(w) && Next(w, step, x) && Orderly(w, step)
    ensures AllGapFree(x)
  {
    match step
    case Land(m, c) => LandKeepsRuns(w, m, c, x);
    case LandLost(m, c) => LandKeepsRuns(w, m, c, x);
    case Baseline(snapshot, asserted, c) => BaselineKeepsRuns(w, snapshot, asserted, c, x);
    case Foreign(c) =>
      forall p
        ensures GapFree(x.appId, x.log, p)
      {
        Appended(w.log, c, TxnAppId(w.appId, p));
        assert GapFree(w.appId, w.log, p);
        RunStays(w.appId, w.log, c, p);
      }
    case Build(m, ranges, _) =>
      assert forall p | p in ranges && p in x.members[m].plan.value.bases ::
        p in w.members[m].fence.base ==> x.members[m].plan.value.bases[p] == w.members[m].fence.base[p].offset;
    case _ =>
  }

  lemma StartIsGapFree(w: World)
    requires Start(w) && forall p :: GapFree(w.appId, w.log, p)
    ensures AllGapFree(w)
  {
    assert forall m | 0 <= m < |w.members| :: w.members[m] in w.members;
  }

  /**
    With fenced writers alone, whatever the interleaving: the rows of each partition in the table
    are one gap-free, duplicate-free run of offsets, ending at the offset the table holds.
  */
  lemma {:induction false} DeliveredOnceInOrder(ws: seq<World>, steps: seq<Step>, n: nat)
    requires IsRun(ws, steps) && n <= |steps|
    requires forall p :: GapFree(ws[0].appId, ws[0].log, p)
    requires forall i | 0 <= i < |steps| :: Orderly(ws[i], steps[i])
    ensures AllGapFree(ws[n])
  {
    if n == 0 {
      StartIsGapFree(ws[0]);
    } else {
      DeliveredOnceInOrder(ws, steps, n - 1);
      RunKeepsInv(ws, steps, n - 1);
      StepKeepsRuns(ws[n - 1], steps[n - 1], ws[n]);
    }
  }

  // ------------------------------------------------------------------ the takeover marker

  function MarkerWrites(appId: string, log: Log): nat {
    if |log| == 0 then 0
    else MarkerWrites(appId, Drop(log)) + if TakeoverMarkerAppId(appId) in log[|log| - 1].txns then 1 else 0
  }

  lemma {:induction false} NoMarkerNoWrites(appId: string, log: Log)
    ensures TxnVersion(log, TakeoverMarkerAppId(appId)).None? <==> MarkerWrites(appId, log) == 0
  {
    if |log| > 0 {
      NoMarkerNoWrites(appId, Drop(log));
    }
  }

  /** Every commit ddi made under the app_id left the marker there; it was written once. */
  ghost predicate MarkedOnce(w: World) {
    && MarkerWrites(w.appId, w.log) <= 1
    && ((exists v | 0 <= v < |w.log| :: w.log[v].info.ranges != map[]) ==> MarkerWrites(w.appId, w.log) == 1)
  }

  lemma LandKeepsMarker(w: World, m: nat, c: Commit, x: World)
    requires Wf(w) && Inv(w) && MarkedOnce(w) && CanLand(w, m, c) && x.appId == w.appId && x.log == w.log + [c]
    ensures MarkedOnce(x)
  {
    assert Drop(x.log) == w.log;
    var mb := w.members[m];
    assert MemberKnows(w, mb);
    LandMovesOnlyItsBatch(w, m, c);
    NoMarkerNoWrites(w.appId, w.log);
    NoMarkerNoWrites(w.appId, x.log);
    if mb.plan.value.offsets.takeoverMarker {
      NoConflict(w.log, mb.handle + 1, c, TakeoverMarkerAppId(w.appId));
    }
  }

  lemma StepKeepsMarker(w: World, step: Step, x: World)
    requires Wf(w) && Inv(w) && MarkedOnce(w) && Next(w, step, x) && Orderly(w, step)
    ensures MarkedOnce(x)
  {
    match step
    case Land(m, c) => LandKeepsMarker(w, m, c, x);
    case LandLost(m, c) => LandKeepsMarker(w, m, c, x);
    case Baseline(snapshot, asserted, c) => BaselineKeepsMarker(w, snapshot, asserted, c, x);
    case Foreign(c) =>
      assert Drop(x.log) == w.log;
      assert forall v | 0 <= v < |x.log| && x.log[v].info.ranges != map[] :: v < |w.log| && x.log[v] == w.log[v];
    case _ =>
  }

  lemma BaselineKeepsMarker(w: World, snapshot: nat, asserted: map<int, int>, c: Commit, x: World)
    requires Wf(w) && MarkedOnce(w) && Next(w, Baseline(snapshot, asserted, c), x)
    ensures MarkedOnce(x)
  {
    assert Drop(x.log) == w.log;
    NoConflict(w.log, snapshot + 1, c, TakeoverMarkerAppId(w.appId));
    NoMarkerNoWrites(w.appId, w.log);
  }

  /** At most one commit ever writes the marker, and every table with a fenced commit holds it. */
  lemma {:induction false} MarkerWrittenOnce(ws: seq<World>, steps: seq<Step>, n: nat)
    requires IsRun(ws, steps) && n <= |steps| && MarkedOnce(ws[0])
    requires forall i | 0 <= i < |steps| :: Orderly(ws[i], steps[i])
    ensures MarkedOnce(ws[n])
  {
    if n > 0 {
      MarkerWrittenOnce(ws, steps, n - 1);
      RunKeepsInv(ws, steps, n - 1);
      StepKeepsMarker(ws[n - 1], steps[n - 1], ws[n]);
    }
  }

  // ------------------------------------------------------------------ what a member keeps asserting

  /** `p` is carried at a known offset, and in whatever commit the member has built. */
  ghost predicate Carried(mb: Member, p: int) {
    && p in mb.fence.carried && p in mb.fence.base && mb.fence.base[p].offset.Some?
    && (mb.plan.Some? ==> p in mb.plan.value.offsets.assert_)
  }

  /** A commit built asserts every partition its fence carries at a known offset. */
  lemma BuildAssertsTheCarried(w: World, m: nat, ranges: map<int, Range>, marks: map<int, MessageMark>, x: World, p: int)
    requires Wf(w) && Next(w, Build(m, ranges, marks), x)
    requires p in x.members[m].fence.carried && x.members[m].fence.base[p].offset.Some?
    ensures x.members[m].plan.Some? && Carried(x.members[m], p)
    ensures p in w.members[m].fence.carried ==> w.members[m].fence.base[p] == x.members[m].fence.base[p]
  {
  }

  /** The step ends what member `m` was about to commit. */
  predicate EndsPlan(step: Step, m: nat) {
    (step.Land? || step.LandLost? || step.Refused?) && step.m == m
  }

  lemma {:induction false} PlanStays(ws: seq<World>, steps: seq<Step>, b: nat, n: nat, m: nat)
    requires IsRun(ws, steps) && b < n <= |steps| && steps[b].Build? && steps[b].m == m
    requires forall k | b < k < n :: !EndsPlan(steps[k], m)
    ensures m < |ws[b + 1].members| && ws[b + 1].members[m].plan.Some?
    ensures m < |ws[n].members| && ws[n].members[m].plan == ws[b + 1].members[m].plan
  {
    RunKeepsInv(ws, steps, n - 1);
    assert Next(ws[n - 1], steps[n - 1], ws[n]);
    if n > b + 1 {
      PlanStays(ws, steps, b, n - 1, m);
    }
  }

  /** In every commit a member lands, each partition it carried with an offset when it built it is asserted. */
  lemma CarriedIsInTheCommit(ws: seq<World>, steps: seq<Step>, b: nat, n: nat, m: nat, p: int)
    requires IsRun(ws, steps) && b < n < |steps| && steps[b].Build? && steps[b].m == m && m < |ws[b + 1].members|
    requires p in ws[b + 1].members[m].fence.carried && p in ws[b + 1].members[m].fence.base
    requires ws[b + 1].members[m].fence.base[p].offset.Some?
    requires forall k | b < k < n :: !EndsPlan(steps[k], m)
    requires (steps[n].Land? || steps[n].LandLost?) && steps[n].m == m
    ensures TxnAppId(ws[n].appId, p) in steps[n].c.txns
  {
    RunKeepsInv(ws, steps, b);
    RunKeepsInv(ws, steps, n);
    BuildAssertsTheCarried(ws[b], m, steps[b].ranges, steps[b].marks, ws[b + 1], p);
    PlanStays(ws, steps, b, n, m);
    LandingIsTaken(ws[n], steps[n], ws[n + 1]);
  }

  /** The step takes `p` away from member `m`, or fails the reset its trust rests on. */
  ghost predicate LetsGo(step: Step, m: nat, p: int) {
    match step
    case Reset(k, _, owned) => k == m && p !in owned
    case ResetFails(k, _, _, _) => k == m
    case Forget(k, q) => k == m && q == p
    case _ => false
  }

  lemma CarriedStays(w: World, step: Step, x: World, m: nat, p: int)
    requires Wf(w) && Next(w, step, x) && m < |w.members| && Carried(w.members[m], p) && !LetsGo(step, m, p)
    ensures m < |x.members| && Carried(x.members[m], p)
  {
    match step
    case Build(k, ranges, marks) =>
      if k == m {
        BuildAssertsTheCarried(w, m, ranges, marks, x, p);
      }
    case Reset(k, to, owned) =>
      if k == m {
        VanishedFromIff(w.members[m].fence, x.members[m].fence, w.log[..to + 1], owned, Retention, p);
      }
    case _ =>
  }

  /**
    After a reset every owned partition with an offset stays carried, through landings and refusals and
    further resets, until it is given up or a reset fails: so each commit asserts it.
  */
  lemma {:induction false} OwnedStaysCarried(ws: seq<World>, steps: seq<Step>, i: nat, n: nat, m: nat, p: int)
    requires IsRun(ws, steps) && i < n <= |steps| && steps[i].Reset? && steps[i].m == m && p in steps[i].owned
    requires m < |ws[i + 1].members| && p in ws[i + 1].members[m].fence.base && ws[i + 1].members[m].fence.base[p].offset.Some?
    requires forall k | i < k < n :: !LetsGo(steps[k], m, p)
    ensures m < |ws[n].members| && Carried(ws[n].members[m], p)
  {
    RunKeepsInv(ws, steps, n - 1);
    assert Next(ws[n - 1], steps[n - 1], ws[n]);
    if n > i + 1 {
      OwnedStaysCarried(ws, steps, i, n - 1, m, p);
      CarriedStays(ws[n - 1], steps[n - 1], ws[n], m, p);
    }
  }

  /** After an acknowledged landing the fence holds what it asserted, and the marks recorded beside that. */
  lemma AcknowledgedIsHeld(w: World, m: nat, c: Commit, x: World, p: int)
    requires Wf(w) && Next(w, Land(m, c), x) && p in w.members[m].fence.base && p in w.members[m].plan.value.offsets.assert_
    ensures var (o, f) := (w.members[m].plan.value.offsets, x.members[m].fence);
            && p in f.carried && p in f.base && f.base[p].offset == Some(o.assert_[p])
            && (p in o.marks && o.marks[p].offset == o.assert_[p] ==> f.base[p].mark == Some(o.marks[p]))
  {
  }

  /** What a landing commit records beside an offset can be read back: it is recorded in the log as that mark. */
  lemma LandedMarksAreRecorded(ws: seq<World>, steps: seq<Step>, i: nat, p: int)
    requires IsRun(ws, steps) && i < |steps| && (steps[i].Land? || steps[i].LandLost?)
    requires var m := steps[i].m;
             m < |ws[i].members| && ws[i].members[m].plan.Some? && p in ws[i].members[m].plan.value.offsets.marks
    ensures var (o, id) := (ws[i].members[steps[i].m].plan.value.offsets, TxnAppId(ws[i].appId, p));
            && p in o.assert_ && RecordedAt(steps[i].c, id, o.assert_[p], o.marks[p])
            && IsNewestNaming(ws[i + 1].log, id, |ws[i].log|) && ws[i + 1].log[|ws[i].log|] == steps[i].c
  {
    RunKeepsInv(ws, steps, i);
    LandingIsTaken(ws[i], steps[i], ws[i + 1]);
    var mb := ws[i].members[steps[i].m];
    assert MemberKnows(ws[i], mb);
    MarkForIff(steps[i].c.info, ws[i].appId, p, mb.plan.value.offsets.assert_[p], mb.plan.value.offsets.marks[p]);
  }

  // ------------------------------------------------------------------ giving a partition up

  ghost predicate TakesBack(step: Step, m: nat, p: int) {
    step.Reset? && step.m == m && p in step.owned
  }

  /** A member that does not own a partition builds no commit that asserts it, nor one of a batch of it. */
  lemma NotOwnedNotAsserted(w: World, m: nat, ranges: map<int, Range>, marks: map<int, MessageMark>, x: World, p: int)
    requires Wf(w) && Next(w, Build(m, ranges, marks), x) && p !in w.members[m].fence.base
    ensures p !in x.members[m].plan.value.offsets.assert_ && p !in ranges
  {
    assert w.members[m] in w.members;
  }

  lemma NotOwnedStays(w: World, step: Step, x: World, m: nat, p: int)
    requires Wf(w) && Next(w, step, x) && m < |w.members| && p !in w.members[m].fence.base
    requires !TakesBack(step, m, p)
    ensures m < |x.members| && p !in x.members[m].fence.base
  {
  }

  /** The member does not own `p`, and no commit it has built asserts it. */
  ghost predicate GivenUp(mb: Member, p: int) {
    p !in mb.fence.base && (mb.plan.Some? ==> p !in mb.plan.value.offsets.assert_)
  }

  lemma GivenUpStays(w: World, step: Step, x: World, m: nat, p: int)
    requires Wf(w) && Next(w, step, x) && m < |w.members| && GivenUp(w.members[m], p)
    requires !TakesBack(step, m, p)
    ensures m < |x.members| && GivenUp(x.members[m], p)
  {
    NotOwnedStays(w, step, x, m, p);
    match step
    case Build(k, ranges, marks) =>
      if k == m {
        NotOwnedNotAsserted(w, m, ranges, marks, x, p);
      }
    case _ =>
  }

  /** Once forgotten, and until a reset takes it back, a partition stays given up. */
  lemma {:induction false} ForgottenStaysForgotten(ws: seq<World>, steps: seq<Step>, i: nat, n: nat, m: nat, p: int)
    requires IsRun(ws, steps) && i < n <= |steps| && m < |ws[i].members|
    requires steps[i] == Forget(m, p) && ws[i].members[m].plan.None?
    requires forall k | i < k < n :: !TakesBack(steps[k], m, p)
    ensures m < |ws[n].members| && GivenUp(ws[n].members[m], p)
  {
    RunKeepsInv(ws, steps, n - 1);
    if n > i + 1 {
      ForgottenStaysForgotten(ws, steps, i, n - 1, m, p);
      GivenUpStays(ws[n - 1], steps[n - 1], ws[n], m, p);
    } else {
      assert Next(ws[i], steps[i], ws[n]);
    }
  }

  /**
    A partition given up between commits is in no commit of that member that lands, acknowledged or
    not, until it owns it again.
  */
  lemma ForgottenNeverAsserted(ws: seq<World>, steps: seq<Step>, i: nat, n: nat, m: nat, p: int)
    requires IsRun(ws, steps) && i < n < |steps| && m < |ws[i].members|
    requires steps[i] == Forget(m, p) && ws[i].members[m].plan.None? && (steps[n].Land? || steps[n].LandLost?) && steps[n].m == m
    requires forall k | i < k < n :: !TakesBack(steps[k], m, p)
    ensures TxnAppId(ws[n].appId, p) !in steps[n].c.txns
  {
    ForgottenStaysForgotten(ws, steps, i, n, m, p);
    RunKeepsInv(ws, steps, n);
    LandingIsTaken(ws[n], steps[n], ws[n + 1]);
    PartitionsHaveTheirOwnNames(ws[n].appId);
  }

  // ------------------------------------------------------------------ members beside each other

  /** Two commits of disjoint partitions, neither writing the marker, name no appId in common. */
  lemma DisjointCommits(appId: string, a: KafkaOffsets, b: KafkaOffsets, ca: Commit, cb: Commit)
    requires !a.takeoverMarker && !b.takeoverMarker && a.assert_.Keys !! b.assert_.Keys
    requires Carries(ca, appId, a) && Carries(cb, appId, b)
    ensures ca.txns.Keys !! cb.txns.Keys
  {
  }

  lemma AppendedInEitherOrder(log: Log, ca: Commit, cb: Commit, id: string)
    requires ca.txns.Keys !! cb.txns.Keys
    ensures TxnVersion(log + [ca] + [cb], id) == TxnVersion(log + [cb] + [ca], id)
  {
    Appended(log, ca, id);
    Appended(log, cb, id);
    Appended(log + [ca], cb, id);
    Appended(log + [cb], ca, id);
  }

  lemma StillNoConflict(c: Commit, log: Log, other: Commit, h: nat)
    requires h <= |log| && !Conflicts(c, log[h..]) && other.txns.Keys !! c.txns.Keys
    ensures !Conflicts(c, (log + [other])[h..])
  {
    assert (log + [other])[h..] == log[h..] + [other];
  }

  /** Member `m` has seen the marker by its handle. */
  ghost predicate HasSeenTheMarker(w: World, m: nat) {
    m < |w.members| && w.members[m].handle < |w.log| && TxnVersion(Seen(w, w.members[m]), TakeoverMarkerAppId(w.appId)).Some?
  }

  /**
    Once taken over, members of disjoint partitions never refuse each other, and commute. In any
    reachable state where two members have each built a commit that the log takes, of disjoint
    partitions and after the marker, either still lands after the other; and both orders end with
    the same offsets in the table and the same fences.
  */
  lemma DisjointMembersCommute(ws: seq<World>, steps: seq<Step>, i: nat, m: nat, l: nat, ca: Commit, cb: Commit, x: World, y: World)
    returns (xy: World, yx: World)
    requires IsRun(ws, steps) && i <= |steps| && Wf(ws[i]) && m != l
    requires HasSeenTheMarker(ws[i], m) && HasSeenTheMarker(ws[i], l)
    requires Next(ws[i], Land(m, ca), x) && Next(ws[i], Land(l, cb), y)
    requires ws[i].members[m].plan.value.offsets.assert_.Keys !! ws[i].members[l].plan.value.offsets.assert_.Keys
    ensures Wf(x) && Wf(y) && Next(x, Land(l, cb), xy) && Next(y, Land(m, ca), yx)
    ensures forall id :: TxnVersion(xy.log, id) == TxnVersion(yx.log, id)
    ensures |xy.members| == |yx.members| && forall k | 0 <= k < |xy.members| :: xy.members[k].fence == yx.members[k].fence
  {
    var w := ws[i];
    RunKeepsInv(ws, steps, i);
    assert MemberKnows(w, w.members[m]) && MemberKnows(w, w.members[l]);
    DisjointCommits(w.appId, w.members[m].plan.value.offsets, w.members[l].plan.value.offsets, ca, cb);
    LandAfter(w, m, l, ca, cb, x);
    LandAfter(w, l, m, cb, ca, y);
    xy := Landed(x, l, cb);
    yx := Landed(y, m, ca);
    forall id ensures TxnVersion(xy.log, id) == TxnVersion(yx.log, id) {
      AppendedInEitherOrder(w.log, ca, cb, id);
    }
  }

  /** Member `l`'s commit still lands once `m`'s, which names no appId of it, has. */
  lemma LandAfter(w: World, m: nat, l: nat, ca: Commit, cb: Commit, x: World)
    requires Wf(w) && Inv(w) && m != l && Next(w, Land(m, ca), x) && CanLand(w, l, cb) && ca.txns.Keys !! cb.txns.Keys
    ensures Wf(x) && CanLand(x, l, cb) && Next(x, Land(l, cb), Landed(x, l, cb))
  {
    StepKeepsInv(w, Land(m, ca), x);
    InvIsWf(x);
    StillNoConflict(cb, w.log, ca, w.members[l].handle + 1);
  }

  /** The world once member `m`'s commit has landed. */
  function Landed(w: World, m: nat, c: Commit): World
    requires m < |w.members| && w.members[m].plan.Some?
  {
    var mb := w.members[m];
    World(w.appId, w.log + [c], w.members[m := Member(CommittedState(mb.fence, mb.plan.value.offsets), |w.log|, None)])
  }

  lemma InvIsWf(w: World)
    requires Inv(w)
    ensures Wf(w)
  {
    forall mb | mb in w.members
      ensures mb.handle < |w.log| && mb.fence.appId == w.appId && mb.fence.carried <= mb.fence.base.Keys
    {
      var k :| 0 <= k < |w.members| && w.members[k] == mb;
      assert MemberKnows(w, w.members[k]);
    }
  }

  /** Members that share a partition, or both write the marker, do refuse each other. */
  lemma SharedPartitionRefuses(appId: string, a: KafkaOffsets, b: KafkaOffsets, ca: Commit, cb: Commit)
    requires Carries(ca, appId, a) && Carries(cb, appId, b)
    ensures Conflicts(ca, [cb]) <==>
            (a.takeoverMarker && b.takeoverMarker) || exists p :: p in a.assert_ && p in b.assert_
  {
    var shared := ca.txns.Keys * cb.txns.Keys;
    if p :| p in a.assert_ && p in b.assert_ {
      assert TxnAppId(appId, p) in shared;
    }
    if a.takeoverMarker && b.takeoverMarker {
      assert TakeoverMarkerAppId(appId) in shared;
    }
    if Conflicts(ca, [cb]) && !(a.takeoverMarker && b.takeoverMarker) {
      var id :| id in cb.txns.Keys * ca.txns.Keys;
      assert PartitionOf(appId, id).value in a.assert_ && PartitionOf(appId, id).value in b.assert_;
    }
    assert [cb][0] == cb;
    assert shared != {} ==> cb.txns.Keys * ca.txns.Keys != {};
  }
}
