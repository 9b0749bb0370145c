/**
  Any number of fences over one table, each committing from its own stale handle, interleaved
  with any other writer. The log refuses a commit when one after its snapshot wrote a `txn` under
  an appId it writes too, and rebases it otherwise (src/fence.rs:20-26).
*/
module FenceProtocol {
  import opened Basics
  import opened OffsetNames
  import opened OffsetLog
  import opened OffsetRead
  import opened Fence

  /** A commit built and not yet landed, and the offsets the batch in it was read from. */
  datatype Plan = Plan(offsets: KafkaOffsets, bases: map<int, Option<int>>)

  datatype Member = Member(fence: FenceState, handle: nat, plan: Option<Plan>)

  datatype World = World(appId: string, log: Log, members: seq<Member>)

  datatype Step =
    | Foreign(c: Commit)
    | Reset(m: nat, to: nat, owned: set<int>)
    | ResetFails(m: nat, to: nat, owned: set<int>, e: FenceError)
    | Build(m: nat, ranges: map<int, Range>, marks: map<int, MessageMark>)
    | VerifyFails(m: nat, ranges: map<int, Range>, e: FenceError)
    | Land(m: nat, c: Commit)
    | LandLost(m: nat, c: Commit)
    | Refused(m: nat)
    | Forget(m: nat, p: int)
    | Baseline(snapshot: nat, asserted: map<int, int>, c: Commit)

  predicate KafkaPartition(p: int) {
    0 <= p <= I32_MAX
  }

  // ------------------------------------------------------------------ one commit's actions

  /**
    `c` carries `o`: a `txn` per asserted partition, the marker when it is due, and no other, with
    the marks by partition number and the ranges whose rows it delivers.
  */
  ghost predicate Carries(c: Commit, appId: string, o: KafkaOffsets) {
    && (forall p | p in o.assert_ :: TxnAppId(appId, p) in c.txns && c.txns[TxnAppId(appId, p)] == o.assert_[p])
    && (TakeoverMarkerAppId(appId) in c.txns <==> o.takeoverMarker)
    && (forall id | id in c.txns && id != TakeoverMarkerAppId(appId) ::
          var p := PartitionOf(appId, id);
          p.Some? && p.value in o.assert_ && id == TxnAppId(appId, p.value))
    && (forall p | p in o.marks :: IntText(p) in c.info.marks && c.info.marks[IntText(p)] == o.marks[p])
    && c.info.ddiAppId == Some(appId) && c.info.ranges == o.ranges
  }

  lemma TxnsCanBeNamed(appId: string, asserted: map<int, int>) returns (txns: map<string, int>)
    requires forall p | p in asserted :: KafkaPartition(p)
    ensures forall p | p in asserted :: TxnAppId(appId, p) in txns && txns[TxnAppId(appId, p)] == asserted[p]
    ensures forall id | id in txns ::
              var p := PartitionOf(appId, id); p.Some? && p.value in asserted && id == TxnAppId(appId, p.value)
  {
    forall p | p in asserted
      ensures PartitionOf(appId, TxnAppId(appId, p)) == Some(p)
    {
      PartitionOfInverts(appId, p);
    }
    var ids := set p | p in asserted :: TxnAppId(appId, p);
    txns := map id | id in ids :: asserted[PartitionOf(appId, id).value];
  }

  lemma MarksCanBeNumbered(marks: map<int, MessageMark>) returns (out: map<string, MessageMark>)
    ensures forall p | p in marks :: IntText(p) in out && out[IntText(p)] == marks[p]
  {
    forall p, q
      ensures IntText(p) == IntText(q) <==> p == q
    {
      IntTextInjective(p, q);
    }
    var keys := set p | p in marks :: IntText(p);
    out := map key | key in keys :: (var p :| p in marks && IntText(p) == key; marks[p]);
    assert forall p | p in marks :: IntText(p) in keys;
  }

  /** Such a commit can be written: names are distinct, and a partition's reads back as it. */
  lemma CanBeCarried(appId: string, o: KafkaOffsets) returns (c: Commit)
    requires forall p | p in o.assert_ :: KafkaPartition(p)
    ensures Carries(c, appId, o)
  {
    var txns := TxnsCanBeNamed(appId, o.assert_);
    var marks := MarksCanBeNumbered(o.marks);
    var marker := TakeoverMarkerAppId(appId);
    MarkerIsNoOffset(appId, appId, 0);
    c := Commit(if o.takeoverMarker then txns[marker := TAKEOVER_MARKER_VERSION] else txns,
                CommitInfo(Some(appId), marks, o.ranges));
    PartitionsHaveTheirOwnNames(appId);
  }

  /** Some commit of `since` wrote a `txn` under an appId `c` writes one under. */
  predicate Conflicts(c: Commit, since: Log) {
    exists i | 0 <= i < |since| :: since[i].txns.Keys * c.txns.Keys != {}
  }

  // ------------------------------------------------------------------ steps and runs

  ghost predicate Moves(w: World, x: World, m: nat, t: Member) {
    m < |w.members| && x == w.(members := w.members[m := t])
  }

  /** What a member knows the log to be. */
  function Seen(w: World, mb: Member): Log
    requires mb.handle < |w.log|
  {
    w.log[..mb.handle + 1]
  }

  ghost predicate Wf(w: World) {
    forall mb | mb in w.members :: mb.handle < |w.log| && mb.fence.appId == w.appId && mb.fence.carried <= mb.fence.base.Keys
  }

  /** The log takes member `m`'s commit: it carries the plan, and nothing since the handle conflicts. */
  ghost predicate CanLand(w: World, m: nat, c: Commit)
    requires Wf(w)
  {
    && m < |w.members| && w.members[m].plan.Some?
    && Carries(c, w.appId, w.members[m].plan.value.offsets)
    && !Conflicts(c, w.log[w.members[m].handle + 1..])
  }

  /**
    Other writers may commit anything. A member resets at any later version, builds a commit of a
    batch, and has it land or refused; one that landed may be taken for lost, as when its
    acknowledgement is. A partition may be given up at any time, with a commit built or not.
  */
  ghost predicate Next(w: World, step: Step, x: World)
    requires Wf(w)
  {
    match step
    case Foreign(c) => x == w.(log := w.log + [c])
    case Reset(m, to, owned) =>
      && m < |w.members| && m < |x.members| && w.members[m].plan.None?
      && w.members[m].handle <= to < |w.log| && (forall p | p in owned :: KafkaPartition(p))
      && var t := Member(x.members[m].fence, to, None);
      Moves(w, x, m, t) && ResetDone(w.members[m].fence, t.fence, w.log[..to + 1], owned)
    case ResetFails(m, to, owned, e) =>
      && m < |w.members| && m < |x.members| && w.members[m].plan.None?
      && w.members[m].handle <= to < |w.log|
      && var t := Member(x.members[m].fence, to, None);
      Moves(w, x, m, t) && ResetFailed(w.members[m].fence, t.fence, w.log[..to + 1], owned, e)
    case Build(m, ranges, marks) =>
      && m < |w.members| && m < |x.members| && w.members[m].plan.None?
      && var mb := w.members[m];
      var f := x.members[m].fence;
      && VerifyDone(mb.fence, f, Seen(w, mb), ranges)
      && f.carried <= f.base.Keys
      && var o := KafkaOffsets(ranges, AssertOf(f, ranges), MarksOf(f, ranges, marks), f.MarkerDue());
      Moves(w, x, m, Member(f, mb.handle, Some(Plan(o, map p | p in ranges :: f.base[p].offset))))
    case VerifyFails(m, ranges, e) =>
      && m < |w.members| && m < |x.members| && w.members[m].plan.None?
      && var mb := w.members[m];
      var t := mb.(fence := x.members[m].fence);
      Moves(w, x, m, t) && VerifyFailed(mb.fence, t.fence, Seen(w, mb), ranges, e)
    case Land(m, c) =>
      && CanLand(w, m, c)
      && var mb := w.members[m];
      && x == World(w.appId, w.log + [c],
                    w.members[m := Member(CommittedState(mb.fence, mb.plan.value.offsets), |w.log|, None)])
    case LandLost(m, c) =>
      CanLand(w, m, c) && x == World(w.appId, w.log + [c], w.members[m := w.members[m].(plan := None)])
    case Refused(m) =>
      m < |w.members| && Moves(w, x, m, w.members[m].(plan := None))
    case Forget(m, p) =>
      m < |w.members| && Moves(w, x, m, w.members[m].(fence := ForgottenState(w.members[m].fence, p)))
    case Baseline(snapshot, asserted, c) =>
      && snapshot < |w.log|
      && BaselineOf(w, snapshot, asserted)
      && Carries(c, w.appId, BaselineOffsets(asserted))
      && !Conflicts(c, w.log[snapshot + 1..])
      && x == w.(log := w.log + [c])
  }

  /** What an open in kafka-delta-ingest's era asserts: each offset as it is, the marker absent. */
  ghost predicate BaselineOf(w: World, snapshot: nat, asserted: map<int, int>)
    requires snapshot < |w.log|
  {
    && TxnVersion(w.log[..snapshot + 1], TakeoverMarkerAppId(w.appId)).None?
    && forall p | p in asserted ::
         && KafkaPartition(p)
         && (var held := TxnVersion(w.log[..snapshot + 1], TxnAppId(w.appId, p)); held.Some? ==> held.value == asserted[p])
  }

  function BaselineOffsets(asserted: map<int, int>): KafkaOffsets {
    KafkaOffsets(map[], asserted, map[], true)
  }

  /** Fences that own nothing yet, over a table with any history at all. */
  ghost predicate Start(w: World) {
    forall mb | mb in w.members ::
      mb.handle < |w.log| && mb.fence == FenceState(w.appId, map[], {}, None) && mb.plan.None?
  }

  ghost predicate IsRun(ws: seq<World>, steps: seq<Step>) {
    && |ws| == |steps| + 1
    && Start(ws[0])
    && forall i | 0 <= i < |steps| :: Wf(ws[i]) ==> Next(ws[i], steps[i], ws[i + 1])
  }

  // ------------------------------------------------------------------ what every step keeps

  /** What a fence carries is so at its handle; what it holds of the marker and the marks is so. */
  ghost predicate FenceKnows(f: FenceState, seen: Log, log: Log) {
    && f.carried <= f.base.Keys
    && (forall p | p in f.base :: KafkaPartition(p))
    && (forall p | p in f.carried :: TxnVersion(seen, f.Id(p)) == f.base[p].offset)
    && (forall p | p in f.base :: Sound(log, f.Id(p), TxnState(f.base[p].offset, f.base[p].mark)))
    && (f.marker.Some? ==> f.marker.value == TxnVersion(seen, f.MarkerId()).Some?)
  }

  /** A commit built at the version `seen` ends at asserts only what is so there. */
  ghost predicate PlanKnows(appId: string, plan: Plan, seen: Log) {
    var o := plan.offsets;
    && plan.bases.Keys == o.ranges.Keys && o.ranges.Keys <= o.assert_.Keys
    && (forall p | p in o.assert_ :: KafkaPartition(p))
    && (forall p | p in o.ranges ::
          o.assert_[p] == o.ranges[p].last && TxnVersion(seen, TxnAppId(appId, p)) == plan.bases[p])
    && (forall p | p in o.assert_ && p !in o.ranges :: TxnVersion(seen, TxnAppId(appId, p)) == Some(o.assert_[p]))
    && (forall p | p in o.marks :: p in o.assert_ && o.marks[p].offset == o.assert_[p])
    && (o.takeoverMarker <==> TxnVersion(seen, TakeoverMarkerAppId(appId)).None?)
  }

  ghost predicate MemberKnows(w: World, mb: Member) {
    && mb.handle < |w.log| && mb.fence.appId == w.appId
    && FenceKnows(mb.fence, Seen(w, mb), w.log)
    && (mb.plan.Some? ==> PlanKnows(w.appId, mb.plan.value, Seen(w, mb)))
  }

  ghost predicate Inv(w: World) {
    forall m | 0 <= m < |w.members| :: MemberKnows(w, w.members[m])
  }

  lemma GrownLog(w: World, more: Log, mb: Member)
    requires MemberKnows(w, mb)
    ensures MemberKnows(w.(log := w.log + more), mb)
  {
    var x := w.(log := w.log + more);
    assert Seen(x, mb) == Seen(w, mb);
    forall p | p in mb.fence.base && mb.fence.base[p].mark.Some?
      ensures Sound(x.log, mb.fence.Id(p), TxnState(mb.fence.base[p].offset, mb.fence.base[p].mark))
    {
      RecordedGrows(w.log, more, mb.fence.Id(p), mb.fence.base[p].offset.value, mb.fence.base[p].mark.value);
    }
  }

  /** Nothing written after the snapshot under an appId of the commit: it is as it was there. */
  lemma NoConflict(log: Log, seen: nat, c: Commit, id: string)
    requires seen <= |log| && !Conflicts(c, log[seen..]) && id in c.txns
    ensures TxnVersion(log, id) == TxnVersion(log[..seen], id)
  {
    forall v | seen <= v < |log|
      ensures id !in log[v].txns
    {
      var shared := log[v].txns.Keys * c.txns.Keys;
      assert log[seen..][v - seen] == log[v];
      assert id !in shared;
    }
    Unwritten(log, seen, id);
  }

  /** A marker once seen is there at every later version. */
  lemma MarkerStays(f: FenceState, log: Log, h: nat, to: nat)
    requires h <= to < |log| && FenceKnows(f, log[..h + 1], log) && f.marker == Some(true)
    ensures TxnVersion(log[..to + 1], f.MarkerId()).Some?
  {
    assert log[..to + 1][..h + 1] == log[..h + 1];
    NeverRemoved(log[..to + 1], h + 1, f.MarkerId());
  }

  lemma ResetFence(s: FenceState, t: FenceState, log: Log, h: nat, to: nat, owned: set<int>)
    requires h <= to < |log| && FenceKnows(s, log[..h + 1], log)
    requires ResetDone(s, t, log[..to + 1], owned) && forall p | p in owned :: KafkaPartition(p)
    ensures FenceKnows(t, log[..to + 1], log)
  {
    if s.marker == Some(true) {
      MarkerStays(s, log, h, to);
    }
    forall p | p in owned
      ensures Sound(log, t.Id(p), TxnState(t.base[p].offset, t.base[p].mark))
    {
      SoundLater(log, to + 1, s.Id(p), TxnState(t.base[p].offset, t.base[p].mark));
    }
  }

  lemma SoundLater(log: Log, upTo: nat, id: string, state: TxnState)
    requires upTo <= |log| && Sound(log[..upTo], id, state)
    ensures Sound(log, id, state)
  {
    if state.mark.Some? {
      RecordedGrows(log[..upTo], log[upTo..], id, state.version.value, state.mark.value);
      assert log[..upTo] + log[upTo..] == log;
    }
  }

  lemma ResetKnows(w: World, m: nat, to: nat, owned: set<int>, x: World)
    requires Wf(w) && Inv(w) && Next(w, Reset(m, to, owned), x)
    ensures MemberKnows(x, x.members[m])
  {
    var (mb, t) := (w.members[m], x.members[m]);
    assert t.handle == to && t.plan.None? && x.log == w.log && Seen(x, t) == w.log[..to + 1];
    assert FenceKnows(t.fence, w.log[..to + 1], w.log) by {
      assert MemberKnows(w, mb);
      ResetFence(mb.fence, t.fence, w.log, mb.handle, to, owned);
    }
  }

  lemma ResetFailsKnows(w: World, m: nat, to: nat, owned: set<int>, e: FenceError, x: World)
    requires Wf(w) && Inv(w) && Next(w, ResetFails(m, to, owned, e), x)
    ensures MemberKnows(x, x.members[m])
  {
    var mb := w.members[m];
    assert MemberKnows(w, mb);
    ResetFailsFence(mb.fence, x.members[m].fence, w.log, mb.handle, to, owned, e);
  }

  lemma ResetFailsFence(s: FenceState, t: FenceState, log: Log, h: nat, to: nat, owned: set<int>, e: FenceError)
    requires h <= to < |log| && FenceKnows(s, log[..h + 1], log) && ResetFailed(s, t, log[..to + 1], owned, e)
    ensures FenceKnows(t, log[..to + 1], log)
  {
    if s.marker == Some(true) {
      MarkerStays(s, log, h, to);
    }
  }

  lemma BuildKnows(w: World, m: nat, ranges: map<int, Range>, marks: map<int, MessageMark>, x: World)
    requires Wf(w) && Inv(w) && Next(w, Build(m, ranges, marks), x)
    ensures MemberKnows(x, x.members[m])
  {
    assert MemberKnows(w, w.members[m]);
    assert Seen(x, x.members[m]) == Seen(w, w.members[m]);
  }

  /** A landed commit's own `txn`s and marks are what its fence then holds. */
  lemma CommittedMarks(f: FenceState, o: KafkaOffsets, log: Log, c: Commit)
    requires Carries(c, f.appId, o)
    requires forall p | p in o.assert_ :: KafkaPartition(p)
    requires forall p | p in f.base :: Sound(log, f.Id(p), TxnState(f.base[p].offset, f.base[p].mark))
    ensures var t := CommittedState(f, o);
            forall p | p in t.base :: Sound(log + [c], f.Id(p), TxnState(t.base[p].offset, t.base[p].mark))
  {
    var t := CommittedState(f, o);
    forall p | p in t.base
      ensures Sound(log + [c], f.Id(p), TxnState(t.base[p].offset, t.base[p].mark))
    {
      if p !in o.assert_ {
        if f.base[p].mark.Some? {
          RecordedGrows(log, [c], f.Id(p), f.base[p].offset.value, f.base[p].mark.value);
        }
      } else if t.base[p].mark.Some? {
        PartitionOfInverts(f.appId, p);
        assert (log + [c])[|log|] == c;
        assert RecordedAt(c, f.Id(p), o.assert_[p], o.marks[p]);
      }
    }
  }

  lemma CommittedOffsets(f: FenceState, o: KafkaOffsets, log: Log, c: Commit)
    requires Carries(c, f.appId, o)
    ensures var t := CommittedState(f, o);
            forall p | p in t.carried :: TxnVersion(log + [c], f.Id(p)) == t.base[p].offset
  {
    var t := CommittedState(f, o);
    forall p | p in t.carried
      ensures TxnVersion(log + [c], f.Id(p)) == t.base[p].offset
    {
      Appended(log, c, f.Id(p));
    }
  }

  lemma CommittedMarker(f: FenceState, o: KafkaOffsets, log: Log, h: nat, c: Commit)
    requires h < |log| && Carries(c, f.appId, o)
    requires f.marker.Some? ==> f.marker.value == TxnVersion(log[..h + 1], f.MarkerId()).Some?
    requires o.takeoverMarker <==> TxnVersion(log[..h + 1], f.MarkerId()).None?
    ensures TxnVersion(log + [c], f.MarkerId()).Some?
    ensures CommittedState(f, o).marker.Some? ==> CommittedState(f, o).marker.value
  {
    Appended(log, c, f.MarkerId());
    if !o.takeoverMarker {
      NeverRemoved(log, h + 1, f.MarkerId());
    }
  }

  lemma CommittedFence(f: FenceState, o: KafkaOffsets, log: Log, h: nat, c: Commit)
    requires h < |log| && FenceKnows(f, log[..h + 1], log) && Carries(c, f.appId, o)
    requires forall p | p in o.assert_ :: KafkaPartition(p)
    requires o.takeoverMarker <==> TxnVersion(log[..h + 1], f.MarkerId()).None?
    ensures FenceKnows(CommittedState(f, o), log + [c], log + [c])
  {
    CommittedMarks(f, o, log, c);
    CommittedOffsets(f, o, log, c);
    CommittedMarker(f, o, log, h, c);
  }

  lemma LandKnows(w: World, m: nat, c: Commit, x: World)
    requires Wf(w) && m < |w.members| && MemberKnows(w, w.members[m]) && Next(w, Land(m, c), x)
    ensures MemberKnows(x, x.members[m])
  {
    var mb := w.members[m];
    CommittedFence(mb.fence, mb.plan.value.offsets, w.log, mb.handle, c);
    assert Seen(x, x.members[m]) == x.log;
  }

  lemma LandStep(w: World, m: nat, c: Commit, x: World, k: nat)
    requires Wf(w) && Inv(w) && Next(w, Land(m, c), x) && k < |x.members|
    ensures MemberKnows(x, x.members[k])
  {
    assert MemberKnows(w, w.members[k]);
    if k == m {
      LandKnows(w, m, c, x);
    } else {
      GrownLog(w, [c], w.members[k]);
    }
  }

  /** A step of one member's own. */
  lemma OwnStep(w: World, step: Step, x: World, m: nat, k: nat)
    requires Wf(w) && Inv(w) && Next(w, step, x) && (step.Reset? || step.ResetFails? || step.Build?) && step.m == m && k < |x.members|
    ensures MemberKnows(x, x.members[k])
  {
    assert MemberKnows(w, w.members[k]);
    if k == m {
      match step
      case Reset(_, to, owned) => ResetKnows(w, m, to, owned, x);
      case ResetFails(_, to, owned, e) => ResetFailsKnows(w, m, to, owned, e, x);
      case Build(_, ranges, marks) => BuildKnows(w, m, ranges, marks, x);
    }
  }

  /** A member that does not move, or only lets its commit go, while the log grows. */
  lemma StillKnows(w: World, more: Log, x: World, k: nat)
    requires Inv(w) && k < |w.members| && k < |x.members| && x.appId == w.appId && x.log == w.log + more
    requires x.members[k] == w.members[k] || x.members[k] == w.members[k].(plan := None)
    ensures MemberKnows(x, x.members[k])
  {
    assert MemberKnows(w, w.members[k]);
    GrownLog(w, more, w.members[k]);
    assert x == World(w.appId, w.log + more, x.members);
    assert Seen(x, x.members[k]) == Seen(w, w.members[k]);
  }

  lemma StepKeepsMember(w: World, step: Step, x: World, k: nat)
    requires Wf(w) && Inv(w) && Next(w, step, x) && k < |x.members|
    ensures MemberKnows(x, x.members[k])
  {
    match step
    case Foreign(c) => StillKnows(w, [c], x, k);
    case Baseline(_, _, c) => StillKnows(w, [c], x, k);
    case LandLost(_, c) => StillKnows(w, [c], x, k);
    case Refused(_) =>
      assert w.log + [] == w.log;
      StillKnows(w, [], x, k);
    case Reset(m, _, _) => OwnStep(w, step, x, m, k);
    case ResetFails(m, _, _, _) => OwnStep(w, step, x, m, k);
    case Build(m, _, _) => OwnStep(w, step, x, m, k);
    case Land(m, c) => LandStep(w, m, c, x, k);
    case VerifyFails(m, ranges, e) => VerifyFailsStep(w, m, ranges, e, x, k);
    case Forget(m, p) => ForgetStep(w, m, p, x, k);
  }

  lemma ForgetKnows(f: FenceState, p: int, seen: Log, log: Log)
    requires FenceKnows(f, seen, log)
    ensures FenceKnows(ForgottenState(f, p), seen, log)
  {
  }

  lemma VerifyFailsKnows(f: FenceState, t: FenceState, ranges: map<int, Range>, e: FenceError, seen: Log, log: Log)
    requires FenceKnows(f, seen, log) && VerifyFailed(f, t, seen, ranges, e)
    ensures FenceKnows(t, seen, log)
  {
  }

  /** A step that leaves one member another fence, and everything else as it is. */
  lemma FenceMoves(w: World, m: nat, t: FenceState, x: World, k: nat)
    requires Inv(w) && m < |w.members| && k < |x.members| && Moves(w, x, m, w.members[m].(fence := t))
    requires t.appId == w.appId && FenceKnows(t, Seen(w, w.members[m]), w.log)
    ensures MemberKnows(x, x.members[k])
  {
    var mb := w.members[k];
    assert MemberKnows(w, mb);
    assert Seen(x, x.members[k]) == Seen(w, mb);
  }

  lemma VerifyFailsStep(w: World, m: nat, ranges: map<int, Range>, e: FenceError, x: World, k: nat)
    requires Wf(w) && Inv(w) && Next(w, VerifyFails(m, ranges, e), x) && k < |x.members|
    ensures MemberKnows(x, x.members[k])
  {
    var (mb, t) := (w.members[m], x.members[m].fence);
    assert MemberKnows(w, mb);
    VerifyFailsKnows(mb.fence, t, ranges, e, Seen(w, mb), w.log);
    FenceMoves(w, m, t, x, k);
  }

  lemma ForgetStep(w: World, m: nat, p: int, x: World, k: nat)
    requires Wf(w) && Inv(w) && Next(w, Forget(m, p), x) && k < |x.members|
    ensures MemberKnows(x, x.members[k])
  {
    var mb := w.members[m];
    assert MemberKnows(w, mb);
    ForgetKnows(mb.fence, p, Seen(w, mb), w.log);
    FenceMoves(w, m, ForgottenState(mb.fence, p), x, k);
  }

  /** Every step keeps what every member knows true. */
  lemma StepKeepsInv(w: World, step: Step, x: World)
    requires Wf(w) && Inv(w) && Next(w, step, x)
    ensures Inv(x)
  {
    forall k | 0 <= k < |x.members| ensures MemberKnows(x, x.members[k]) {
      StepKeepsMember(w, step, x, k);
    }
  }

  /** Over every run, of any number of members and any other writers. */
  lemma {:induction false} RunKeepsInv(ws: seq<World>, steps: seq<Step>, n: nat)
    requires IsRun(ws, steps) && n <= |steps|
    ensures Inv(ws[n]) && Wf(ws[n])
  {
    if n == 0 {
      forall m | 0 <= m < |ws[0].members|
        ensures MemberKnows(ws[0], ws[0].members[m])
      {
        assert ws[0].members[m] in ws[0].members;
      }
    } else {
      RunKeepsInv(ws, steps, n - 1);
      StepKeepsInv(ws[n - 1], steps[n - 1], ws[n]);
    }
  }

  // ------------------------------------------------------------------ fenced compare-and-swap

  /**
    Where a commit lands, each partition of its batch is stored at exactly the offset the batch
    was read from, and moves to the last one the batch read. Nothing else moves: what else it
    asserts is asserted where it is, and the marker is there from then on.
  */
  lemma LandMovesOnlyItsBatch(w: World, m: nat, c: Commit)
    requires Wf(w) && Inv(w) && CanLand(w, m, c)
    ensures forall p :: Moved(w, w.members[m].plan.value, c, p)
    ensures TxnVersion(w.log + [c], TakeoverMarkerAppId(w.appId)).Some?
  {
    var mb := w.members[m];
    assert MemberKnows(w, mb);
    LandMarks(mb.plan.value, w.appId, w.log, mb.handle, c);
    forall p
      ensures Moved(w, mb.plan.value, c, p)
    {
      LandMoves(w, m, c, p);
    }
  }

  /** The commit moves `p` from its base to the last offset of the batch, if it is of the batch. */
  ghost predicate Moved(w: World, plan: Plan, c: Commit, p: int) {
    var (id, log) := (TxnAppId(w.appId, p), w.log + [c]);
    && (p in plan.offsets.ranges ==>
          && p in plan.bases && TxnVersion(w.log, id) == plan.bases[p]
          && TxnVersion(log, id) == Some(plan.offsets.ranges[p].last))
    && (p !in plan.offsets.ranges ==> TxnVersion(log, id) == TxnVersion(w.log, id))
  }

  lemma LandMoves(w: World, m: nat, c: Commit, p: int)
    requires Wf(w) && Inv(w) && CanLand(w, m, c)
    ensures Moved(w, w.members[m].plan.value, c, p)
  {
    var mb := w.members[m];
    assert MemberKnows(w, mb);
    PartitionsHaveTheirOwnNames(w.appId);
    var id := TxnAppId(w.appId, p);
    Appended(w.log, c, id);
    if id in c.txns {
      NoConflict(w.log, mb.handle + 1, c, id);
      assert p in mb.plan.value.offsets.assert_;
    }
  }

  /** After a commit of ours the marker is in the table: it wrote it, or had seen it. */
  lemma LandMarks(plan: Plan, appId: string, log: Log, h: nat, c: Commit)
    requires h < |log| && PlanKnows(appId, plan, log[..h + 1]) && Carries(c, appId, plan.offsets)
    ensures TxnVersion(log + [c], TakeoverMarkerAppId(appId)).Some?
  {
    Appended(log, c, TakeoverMarkerAppId(appId));
    if !plan.offsets.takeoverMarker {
      NeverRemoved(log, h + 1, TakeoverMarkerAppId(appId));
    }
  }

  lemma LandingIsTaken(w: World, step: Step, x: World)
    requires Wf(w) && Next(w, step, x) && (step.Land? || step.LandLost?)
    ensures CanLand(w, step.m, step.c) && x.log == w.log + [step.c] && x.appId == w.appId
  {
  }

  /**
    In every interleaving, of commits acknowledged and not: immediately before a commit lands, each
    partition of its batch is stored at exactly the offset it was read from.
  */
  lemma FencedCompareAndSwap(ws: seq<World>, steps: seq<Step>, i: nat)
    requires IsRun(ws, steps) && i < |steps| && (steps[i].Land? || steps[i].LandLost?)
    ensures var m := steps[i].m;
            && m < |ws[i].members| && ws[i].members[m].plan.Some?
            && var plan := ws[i].members[m].plan.value;
            && plan.bases.Keys == plan.offsets.ranges.Keys
            && ws[i + 1].log == ws[i].log + [steps[i].c]
            && forall p :: Moved(ws[i], plan, steps[i].c, p)
  {
    RunKeepsInv(ws, steps, i);
    LandingIsTaken(ws[i], steps[i], ws[i + 1]);
    LandMovesOnlyItsBatch(ws[i], steps[i].m, steps[i].c);
    assert MemberKnows(ws[i], ws[i].members[steps[i].m]);
  }
}
