/**
  The offsets one writer holds for the partitions it owns, and the `txn`s each of its commits
  carries (src/fence.rs:1146-1459).
*/
module Fence {
  import opened Basics
  import opened OffsetNames
  import opened OffsetLog
  import opened OffsetRead

  // ------------------------------------------------------------------ what a fence knows

  /** An owned partition's last offset durably in the target, and the message at it when known. */
  datatype Held = Held(offset: Option<int>, mark: Option<MessageMark>)

  datatype FenceState = FenceState(
    appId: string,
    base: map<int, Held>,
    carried: set<int>,
    marker: Option<bool>)
  {
    function Id(p: int): string {
      TxnAppId(appId, p)
    }

    function MarkerId(): string {
      TakeoverMarkerAppId(appId)
    }

    /** Whether the next commit writes the takeover marker. */
    predicate MarkerDue() {
      marker != Some(true)
    }
  }

  datatype FenceError =
    | Retention
    | ReadFailed(cause: ReadError)
    | Vanished(partitions: set<int>)
    | NotOwned(partition: int)
    | Fenced(partition: int, expected: Option<int>, found: Option<int>)

  /** The offsets one batch commits, and the evidence recorded beside them. */
  datatype KafkaOffsets = KafkaOffsets(
    ranges: map<int, Range>,
    assert_: map<int, int>,
    marks: map<int, MessageMark>,
    takeoverMarker: bool)

  const TAKEOVER_MARKER_VERSION: int := 1

  /** What a read at the handle's version makes of the marker, when it asks. */
  function MarkerRead(s: FenceState, log: Log): Option<bool> {
    Some(TxnVersion(log, s.MarkerId()).Some?)
  }

  // ------------------------------------------------------------------ the steps, as relations

  /** The owned partitions held at an offset the table no longer has. */
  function VanishedFrom(s: FenceState, log: Log, owned: set<int>): set<int> {
    set p | p in owned && p in s.base && s.base[p].offset.Some? && TxnVersion(log, s.Id(p)).None?
  }

  /** A reset at the version `log` ends at owns exactly `owned`, all of it read and carried. */
  ghost predicate ResetDone(s: FenceState, t: FenceState, log: Log, owned: set<int>) {
    && VanishedFrom(s, log, owned) == {}
    && t.appId == s.appId
    && t.base.Keys == owned && t.carried == owned
    && (forall p | p in owned ::
          && t.base[p].offset == TxnVersion(log, s.Id(p))
          && Sound(log, s.Id(p), TxnState(t.base[p].offset, t.base[p].mark)))
    && t.marker == if s.MarkerDue() then MarkerRead(s, log) else s.marker
  }

  /** What a reset refuses over: an owned partition whose held offset the table does not have. */
  lemma VanishedFromIff(s: FenceState, t: FenceState, log: Log, owned: set<int>, e: FenceError, p: int)
    requires ResetDone(s, t, log, owned) || ResetFailed(s, t, log, owned, e)
    ensures p in owned && p in s.base && s.base[p].offset.Some? && TxnVersion(log, TxnAppId(s.appId, p)).None? ==>
              !ResetDone(s, t, log, owned) && (e.Vanished? ==> p in e.partitions)
    ensures !ResetDone(s, t, log, owned) && e.Vanished? && p in e.partitions ==>
              p in owned && p in s.base && s.base[p].offset.Some? && TxnVersion(log, TxnAppId(s.appId, p)).None?
  {
    assert p in owned && p in s.base && s.base[p].offset.Some? && TxnVersion(log, TxnAppId(s.appId, p)).None? ==>
      p in VanishedFrom(s, log, owned);
  }

  /** After a reset that failed nothing is carried, so that no offset is trusted. */
  ghost predicate ResetFailed(s: FenceState, t: FenceState, log: Log, owned: set<int>, e: FenceError) {
    && t.appId == s.appId && t.base == s.base && t.carried == {}
    && match e
       case Retention => t.marker == None
       case ReadFailed(_) => t.marker == if s.marker == Some(false) then None else s.marker
       case Vanished(gone) =>
         && gone == VanishedFrom(s, log, owned) && gone != {}
         && t.marker == if s.MarkerDue() then MarkerRead(s, log) else s.marker
       case _ => false
  }

  /** Every partition of the batch is known at the version `log` ends at, and so is the marker. */
  ghost predicate VerifyDone(s: FenceState, t: FenceState, log: Log, ranges: map<int, Range>) {
    && t.appId == s.appId && t.base == s.base && t.carried == s.carried + ranges.Keys
    && (forall p | p in ranges && p !in s.carried ::
          p in s.base && TxnVersion(log, s.Id(p)) == s.base[p].offset)
    && t.marker == if s.marker.None? then MarkerRead(s, log) else s.marker
  }

  ghost predicate VerifyFailed(s: FenceState, t: FenceState, log: Log, ranges: map<int, Range>, e: FenceError) {
    && t.appId == s.appId && t.base == s.base && t.carried == s.carried
    && match e
       case Retention => t.marker == None
       case ReadFailed(_) => t == s
       case NotOwned(p) => t == s && p in ranges && p !in s.carried && p !in s.base
       case Fenced(p, expected, found) =>
         && p in ranges && p !in s.carried && p in s.base
         && expected == s.base[p].offset && found == TxnVersion(log, s.Id(p)) && expected != found
         && t.marker == if s.marker.None? then MarkerRead(s, log) else s.marker
       case Vanished(_) => false
  }

  function AssertOf(s: FenceState, ranges: map<int, Range>): map<int, int>
    requires s.carried <= s.base.Keys
  {
    map p | p in ranges.Keys + (set q | q in s.carried && s.base[q].offset.Some?) ::
      if p in ranges then ranges[p].last else s.base[p].offset.value
  }

  /** The mark beside an asserted partition, kept only where it describes the offset beside it. */
  function MarkBeside(s: FenceState, ranges: map<int, Range>, marks: map<int, MessageMark>, p: int): Option<MessageMark>
    requires s.carried <= s.base.Keys && p in AssertOf(s, ranges)
  {
    var mark := if p in ranges then (if p in marks then Some(marks[p]) else None) else s.base[p].mark;
    if mark.Some? && mark.value.offset == AssertOf(s, ranges)[p] then mark else None
  }

  function MarksOf(s: FenceState, ranges: map<int, Range>, marks: map<int, MessageMark>): map<int, MessageMark>
    requires s.carried <= s.base.Keys
  {
    map p | p in AssertOf(s, ranges) && MarkBeside(s, ranges, marks, p).Some? :: MarkBeside(s, ranges, marks, p).value
  }

  /** What a commit that landed leaves known: what it asserted, of what is still owned. */
  function CommittedState(s: FenceState, o: KafkaOffsets): FenceState {
    s.(
      marker := if o.takeoverMarker then Some(true) else s.marker,
      base := map p | p in s.base ::
        if p in o.assert_
        then Held(Some(o.assert_[p]),
                  if p in o.marks && o.marks[p].offset == o.assert_[p] then Some(o.marks[p]) else None)
        else s.base[p],
      carried := s.base.Keys * o.assert_.Keys)
  }

  function ForgottenState(s: FenceState, p: int): FenceState {
    s.(base := s.base - {p}, carried := s.carried - {p})
  }

  lemma PartitionsHaveTheirOwnNames(appId: string)
    ensures forall p, q :: TxnAppId(appId, p) == TxnAppId(appId, q) <==> p == q
    ensures forall p :: TxnAppId(appId, p) != TakeoverMarkerAppId(appId)
  {
    forall p, q
      ensures TxnAppId(appId, p) == TxnAppId(appId, q) <==> p == q
    {
      TxnAppIdsCollide(appId, p, appId, q);
    }
    forall p
      ensures TxnAppId(appId, p) != TakeoverMarkerAppId(appId)
    {
      MarkerIsNoOffset(appId, appId, p);
    }
  }

  /** Each batch partition at the last offset it read, with the mark of the message there. */
  method AssertBatch(ranges: map<int, Range>, marks: map<int, MessageMark>)
    returns (asserted: map<int, int>, beside: map<int, MessageMark>)
    ensures asserted.Keys == ranges.Keys && forall p | p in ranges :: asserted[p] == ranges[p].last
    ensures forall p :: p in beside <==> p in ranges && p in marks && marks[p].offset == ranges[p].last
    ensures forall p | p in beside :: beside[p] == marks[p]
  {
    asserted, beside := map[], map[];
    var todo := ranges.Keys;
    while todo != {}
      invariant todo <= ranges.Keys
      invariant asserted.Keys == ranges.Keys - todo && forall p | p in asserted :: asserted[p] == ranges[p].last
      invariant forall p :: p in beside <==> p in asserted && p in marks && marks[p].offset == ranges[p].last
      invariant forall p | p in beside :: beside[p] == marks[p]
    {
      var p := Any(todo);
      asserted := asserted[p := ranges[p].last];
      if p in marks && marks[p].offset == ranges[p].last {
        beside := beside[p := marks[p]];
      }
      todo := todo - {p};
    }
  }

  /** Every other carried partition with a known offset at that offset, with its mark. */
  method AssertCarried(s: FenceState, ranges: map<int, Range>, marks: map<int, MessageMark>,
                       batch: map<int, int>, batchMarks: map<int, MessageMark>)
    returns (asserted: map<int, int>, beside: map<int, MessageMark>)
    requires s.carried <= s.base.Keys
    requires batch.Keys == ranges.Keys && forall p | p in ranges :: batch[p] == ranges[p].last
    requires forall p :: p in batchMarks <==> p in ranges && p in marks && marks[p].offset == ranges[p].last
    requires forall p | p in batchMarks :: batchMarks[p] == marks[p]
    ensures asserted == AssertOf(s, ranges) && beside == MarksOf(s, ranges, marks)
  {
    asserted, beside := batch, batchMarks;
    var todo := s.carried;
    while todo != {}
      invariant todo <= s.carried
      invariant forall p :: p in asserted <==> p in AssertOf(s, ranges) && (p in ranges || p !in todo)
      invariant forall p | p in asserted :: asserted[p] == AssertOf(s, ranges)[p]
      invariant forall p :: p in beside <==> p in asserted && MarkBeside(s, ranges, marks, p).Some?
      invariant forall p | p in beside :: beside[p] == MarkBeside(s, ranges, marks, p).value
    {
      var p := Any(todo);
      if p !in ranges && s.base[p].offset.Some? {
        asserted := asserted[p := s.base[p].offset.value];
        if s.base[p].mark.Some? && s.base[p].mark.value.offset == s.base[p].offset.value {
          beside := beside[p := s.base[p].mark.value];
        }
      }
      todo := todo - {p};
    }
    assert forall p :: p in asserted <==> p in AssertOf(s, ranges);
    assert forall p :: p in beside <==> p in MarksOf(s, ranges, marks);
    assert asserted.Keys == AssertOf(s, ranges).Keys;
    assert beside.Keys == MarksOf(s, ranges, marks).Keys;
  }

  /** Each partition's mark is the one its newest commit records, wherever that is read. */
  ghost predicate PartitionMarksAreRead(marks: map<int, Option<MessageMark>>, appId: string, st: Storage, log: Log, head: nat,
                                        below: bool, memory: Memory)
    requires head < |st.entries| && head < |log|
  {
    forall p, v: nat, mark | p in marks && MarkIsRead(st, log, head, TxnAppId(appId, p), v, mark, below) ::
      RemembersNoOther(memory, TxnAppId(appId, p), log[v].txns[TxnAppId(appId, p)], mark) ==> marks[p] == Some(mark)
  }

  /** The state of each partition, and of the marker when it is asked for, in one read. */
  method ReadPartitions(st: Storage, head: nat, appId: string, partitions: set<int>, askMarker: bool,
                        memo: BelowCheckpoint?, ghost log: Log)
    returns (r: Result<(map<int, TxnState>, Option<bool>), ReadError>)
    requires Shows(st, log, head)
    requires memo != null ==> ValidMemory(memo.found, log[..head + 1])
    modifies memo
    ensures memo != null ==> ValidMemory(memo.found, log[..head + 1])
    ensures r.Ok? ==> r.value.0.Keys == partitions
    ensures r.Ok? ==> forall p | p in partitions ::
              && r.value.0[p].version == TxnVersion(log[..head + 1], TxnAppId(appId, p))
              && Sound(log[..head + 1], TxnAppId(appId, p), r.value.0[p])
    ensures r.Ok? ==> r.value.1 == if askMarker
                                   then Some(TxnVersion(log[..head + 1], TakeoverMarkerAppId(appId)).Some?) else None
    ensures Healthy(st, head) ==> r.Ok?
    ensures r.Ok? ==> PartitionMarksAreRead(map p | p in r.value.0 :: r.value.0[p].mark, appId, st, log, head, memo != null,
                                            if memo != null then old(memo.found) else map[])
  {
    var ids := set p | p in partitions :: TxnAppId(appId, p);
    var marker := TakeoverMarkerAppId(appId);
    var asked := if askMarker then ids + {marker} else ids;
    var read := ReadTxns(st, head, asked, memo, log);
    if read.Err? {
      return Err(read.error);
    }
    var txns := read.value;
    forall p | p in partitions
      ensures TxnAppId(appId, p) in txns
    {
      assert TxnAppId(appId, p) in ids;
    }
    var states := map p | p in partitions :: txns[TxnAppId(appId, p)];
    r := Ok((states, if askMarker then Some(txns[marker].version.Some?) else None));
  }

  // ------------------------------------------------------------------ the fence

  class Fence {
    const appId: string
    var base: map<int, Held>
    var carried: set<int>
    var marker: Option<bool>
    const below: BelowCheckpoint

    constructor (appId: string)
      ensures State() == FenceState(appId, map[], {}, None)
      ensures fresh(below) && below.found == map[]
    {
      this.appId := appId;
      base := map[];
      carried := {};
      marker := None;
      below := new BelowCheckpoint();
    }

    function State(): FenceState
      reads this
    {
      FenceState(appId, base, carried, marker)
    }

    /**
      Own exactly `owned`, with each partition's offset as of the handle's version, read in one
      pass, and the mark beside it. `retention` says the table sets the property under which a
      `txn` may expire.
    */
    method Reset(st: Storage, head: nat, owned: set<int>, retention: bool, ghost log: Log)
      returns (r: Result<Unit, FenceError>)
      requires Shows(st, log, head) && ValidMemory(below.found, log[..head + 1])
      modifies this, below
      ensures ValidMemory(below.found, log[..head + 1])
      ensures r.Ok? ==> ResetDone(old(State()), State(), log[..head + 1], owned)
      ensures r.Err? ==> ResetFailed(old(State()), State(), log[..head + 1], owned, r.error)
      ensures retention <==> r.Err? && r.error.Retention?
      ensures Healthy(st, head) && r.Err? ==> !r.error.ReadFailed?
      ensures r.Ok? ==> PartitionMarksAreRead(map p | p in base :: base[p].mark, appId, st, log, head, true, old(below.found))
    {
      if retention {
        carried := {};
        marker := None;
        return Err(Retention);
      }
      var read := ReadPartitions(st, head, appId, owned, marker != Some(true), below, log);
      if read.Err? {
        carried := {};
        marker := if marker == Some(false) then None else marker;
        return Err(ReadFailed(read.error));
      }
      var (txns, marked) := read.value;
      marker := if marked.Some? then marked else marker;
      var vanished := set p | p in owned && p in base && base[p].offset.Some? && txns[p].version.None?;
      assert vanished == VanishedFrom(old(State()), log[..head + 1], owned);
      if vanished != {} {
        carried := {};
        return Err(Vanished(vanished));
      }
      base := map p | p in owned :: Held(txns[p].version, txns[p].mark);
      assert (map p | p in base :: base[p].mark) == (map p | p in txns :: txns[p].mark);
      carried := owned;
      r := Ok(Unit);
    }

    /**
      Before a commit of a batch that read `ranges`: every partition of it that is not carried
      must hold, at the handle's version, the offset this fence has for it.
    */
    method Verify(st: Storage, head: nat, ranges: map<int, Range>, retention: bool, ghost log: Log)
      returns (r: Result<Unit, FenceError>)
      requires Shows(st, log, head)
      modifies this
      ensures r.Ok? ==> VerifyDone(old(State()), State(), log[..head + 1], ranges)
      ensures r.Err? ==> VerifyFailed(old(State()), State(), log[..head + 1], ranges, r.error)
      ensures r.Err? && r.error.Retention? ==> retention
      ensures retention && r.Ok? ==> ranges.Keys <= old(carried) && old(marker).Some?
      ensures Healthy(st, head) && r.Err? ==> !r.error.ReadFailed?
    {
      var unverified := ranges.Keys - carried;
      if unverified == {} && marker.Some? {
        assert forall p | p in ranges :: p in carried || p in unverified;
        assert carried + ranges.Keys == carried;
        return Ok(Unit);
      }
      if p :| p in unverified && p !in base {
        return Err(NotOwned(p));
      }
      if retention {
        marker := None;
        return Err(Retention);
      }
      var read := ReadPartitions(st, head, appId, unverified, marker.None?, null, log);
      if read.Err? {
        return Err(ReadFailed(read.error));
      }
      var (txns, marked) := read.value;
      marker := if marked.Some? then marked else marker;
      if p :| p in unverified && txns[p].version != base[p].offset {
        return Err(Fenced(p, base[p].offset, txns[p].version));
      }
      assert carried + unverified == carried + ranges.Keys;
      carried := carried + unverified;
      r := Ok(Unit);
    }

    /** The `txn`s, and the marks beside them, of a commit of a batch that read `ranges`. */
    method AssertMap(ranges: map<int, Range>, marks: map<int, MessageMark>)
      returns (asserted: map<int, int>, beside: map<int, MessageMark>)
      requires carried <= base.Keys
      ensures asserted == AssertOf(State(), ranges)
      ensures beside == MarksOf(State(), ranges, marks)
      ensures forall p :: p in asserted <==> p in ranges || (p in carried && base[p].offset.Some?)
      ensures forall p | p in asserted ::
                asserted[p] == if p in ranges then ranges[p].last else base[p].offset.value
      ensures forall p, mark :: p in beside && beside[p] == mark <==>
                && p in asserted && mark.offset == asserted[p]
                && if p in ranges then p in marks && marks[p] == mark else base[p].mark == Some(mark)
    {
      asserted, beside := AssertBatch(ranges, marks);
      asserted, beside := AssertCarried(State(), ranges, marks, asserted, beside);
    }

    /** A commit carrying `offsets` landed, and the handle is now the one it returned. */
    method Committed(offsets: KafkaOffsets)
      modifies this
      ensures State() == CommittedState(old(State()), offsets)
      ensures base.Keys == old(base).Keys && marker == (if offsets.takeoverMarker then Some(true) else old(marker))
      ensures forall p :: p in carried <==> p in base && p in offsets.assert_
      ensures forall p | p in base && p !in offsets.assert_ :: base[p] == old(base)[p]
      ensures forall p | p in base && p in offsets.assert_ ::
                && base[p].offset == Some(offsets.assert_[p])
                && forall mark :: base[p].mark == Some(mark) <==>
                     p in offsets.marks && offsets.marks[p] == mark && mark.offset == offsets.assert_[p]
    {
      if offsets.takeoverMarker {
        marker := Some(true);
      }
      var now: set<int> := {};
      var todo := offsets.assert_.Keys;
      while todo != {}
        invariant todo <= offsets.assert_.Keys
        invariant base.Keys == old(base).Keys
        invariant marker == if offsets.takeoverMarker then Some(true) else old(marker)
        invariant now == old(base).Keys * (offsets.assert_.Keys - todo)
        invariant forall p | p in base ::
                    base[p] == if p in now then CommittedState(old(State()), offsets).base[p] else old(base)[p]
      {
        var p := Any(todo);
        if p in base {
          var version := offsets.assert_[p];
          var mark := if p in offsets.marks && offsets.marks[p].offset == version then Some(offsets.marks[p]) else None;
          base := base[p := Held(Some(version), mark)];
          now := now + {p};
        }
        todo := todo - {p};
      }
      carried := now;
      ghost var want := CommittedState(old(State()), offsets);
      assert base.Keys == want.base.Keys;
      assert forall p | p in base :: base[p] == want.base[p];
      assert base == want.base && carried == want.carried && marker == want.marker;
    }

    /** Stop owning `partition`, which was revoked. */
    method Forget(partition: int)
      modifies this
      ensures State() == ForgottenState(old(State()), partition)
      ensures partition !in base && partition !in carried && marker == old(marker)
      ensures forall p | p != partition ::
                && (p in base <==> p in old(base)) && (p in base ==> base[p] == old(base)[p])
                && (p in carried <==> p in old(carried))
    {
      base := base - {partition};
      carried := carried - {partition};
    }
  }
}
