/**
  Taking over offsets kafka-delta-ingest wrote: who has written them, what an open refuses, the
  commit that ends the other writer's era, and where a partition then starts
  (src/fence.rs:145-310, src/kafka/start.rs:39-79).
*/
module Takeover {
  import opened Basics
  import opened OffsetNames
  import opened OffsetLog
  import opened FenceProtocol
  import opened FenceRuns

  datatype Era = Fresh | Kdi | Ddi

  /** The era of `appId`'s offsets, from the newest `txn` of each appId asked about. */
  function EraOf(appId: string, txns: map<string, Option<int>>): Era {
    if TakeoverMarkerAppId(appId) in txns && txns[TakeoverMarkerAppId(appId)].Some? then Ddi
    else if exists id | id in txns :: txns[id].Some? && PartitionOf(appId, id).Some? then Kdi
    else Fresh
  }

  /** What a read of the topic's partitions and the marker gives, as of a version. */
  ghost function Asked(log: Log, appId: string, partitions: set<int>): map<string, Option<int>> {
    map id | id in (set p | p in partitions :: TxnAppId(appId, p)) + {TakeoverMarkerAppId(appId)} :: TxnVersion(log, id)
  }

  /** Exact: the marker is there or it is not, and a partition has an offset or it has not. */
  lemma EraIsExact(log: Log, appId: string, partitions: set<int>)
    requires forall p | p in partitions :: 0 <= p <= I32_MAX
    ensures EraOf(appId, Asked(log, appId, partitions)) ==
            if TxnVersion(log, TakeoverMarkerAppId(appId)).Some? then Ddi
            else if exists p | p in partitions :: TxnVersion(log, TxnAppId(appId, p)).Some? then Kdi
            else Fresh
  {
    var txns := Asked(log, appId, partitions);
    MarkerIsNoOffset(appId, appId, 0);
    if p :| p in partitions && TxnVersion(log, TxnAppId(appId, p)).Some? {
      PartitionOfInverts(appId, p);
      assert TxnAppId(appId, p) in txns;
    }
  }

  /** Once ddi's, an app_id's offsets are ddi's at every later version, whatever is committed. */
  lemma EraStaysDdi(log: Log, more: Log, appId: string, partitions: set<int>)
    requires EraOf(appId, Asked(log, appId, partitions)) == Ddi
    ensures EraOf(appId, Asked(log + more, appId, partitions)) == Ddi
  {
    assert (log + more)[..|log|] == log;
    NeverRemoved(log + more, |log|, TakeoverMarkerAppId(appId));
  }

  /** A partition of the topic: its offset in the target, and the topic's watermarks. */
  datatype Partition = Partition(stored: Option<int>, low: int, high: int)

  /** The partitions a takeover cannot account for, unless an entry acknowledges them. */
  function Missing(partitions: map<int, Partition>, acknowledged: set<int>): set<int> {
    set p | p in partitions && partitions[p].stored.None? && partitions[p].high > 0 && p !in acknowledged
  }

  datatype OffsetMissing = OffsetMissing(partitions: set<int>, freshAppId: bool)

  function TakeoverCheck(era: Era, holdsRows: bool, partitions: map<int, Partition>, acknowledged: set<int>)
    : Result<Unit, OffsetMissing>
  {
    if era == Ddi || (era == Fresh && !holdsRows) then Ok(Unit)
    else if Missing(partitions, acknowledged) == {} then Ok(Unit)
    else Err(OffsetMissing(Missing(partitions, acknowledged), era == Fresh))
  }

  /** The txn-only commit an open in the other writer's era makes once every check has passed. */
  function TakeoverBaseline(era: Era, stored: map<int, Option<int>>, explicit: map<int, int>): Option<map<int, int>> {
    if era != Kdi then None
    else
      Some(map p | p in stored && (stored[p].Some? || (p in explicit && explicit[p] > 0)) ::
             if stored[p].Some? then stored[p].value else explicit[p] - 1)
  }

  datatype NoTxnStart =
    | Explicit(offset: int)
    | Zero
    | Unavailable(wanted: int, low: int)
    | Regressed(wanted: int, high: int)

  /** Where a partition without an offset starts, in a target that is not fresh. */
  function StartWithoutOffset(low: int, high: int, explicit: Option<int>): NoTxnStart {
    match explicit
    case Some(wanted) =>
      if wanted < low then Unavailable(wanted, low)
      else if wanted > high then Regressed(wanted, high)
      else Explicit(wanted)
    case None => if low == 0 then Zero else Unavailable(0, low)
  }

  /** The first message a start delivers, or why it blocks. A stored offset is read again first. */
  datatype Start = Delivers(next: int) | BlockedUnavailable(wanted: int, low: int) | BlockedRegressed(stored: int, high: int)

  function Resolve(stored: Option<int>, low: int, high: int, explicit: Option<int>): Start {
    match stored
    case Some(b) =>
      if b + 1 < low then BlockedUnavailable(b + 1, low)
      else if b + 1 == low then Delivers(b + 1)
      else if b >= high then BlockedRegressed(b, high)
      else Delivers(b + 1)
    case None =>
      match StartWithoutOffset(low, high, explicit)
      case Explicit(offset) => Delivers(offset)
      case Zero => Delivers(0)
      case Unavailable(wanted, l) => BlockedUnavailable(wanted, l)
      case Regressed(wanted, h) => BlockedRegressed(wanted - 1, h)
  }

  /** What the table holds of a partition once the baseline has landed. */
  function After(stored: map<int, Option<int>>, baseline: map<int, int>, p: int): Option<int>
    requires p in stored
  {
    if p in baseline then Some(baseline[p]) else stored[p]
  }

  function StoredOf(partitions: map<int, Partition>): map<int, Option<int>> {
    map p | p in partitions :: partitions[p].stored
  }

  function Entry(explicit: map<int, int>, p: int): Option<int> {
    if p in explicit then Some(explicit[p]) else None
  }

  /**
    A takeover that passes its check never leaves a start to the config: with the baseline
    committed and every entry removed, each partition starts exactly where it started before
    with them; every stored offset is kept, every acknowledgment above 0 is an offset, and a
    partition still without one had an empty topic or was acknowledged at 0.
  */
  lemma TakeoverNeverRereads(partitions: map<int, Partition>, explicit: map<int, int>, p: int)
    requires forall q | q in partitions :: 0 <= partitions[q].low <= partitions[q].high
    requires forall q | q in explicit :: explicit[q] >= 0
    requires TakeoverCheck(Kdi, true, partitions, explicit.Keys).Ok? && p in partitions
    ensures var stored := StoredOf(partitions);
            var part := partitions[p];
            var baseline := TakeoverBaseline(Kdi, stored, explicit);
            && baseline.Some?
            && var after := After(stored, baseline.value, p);
            && (part.stored.Some? ==> after == part.stored)
            && (part.stored.None? && p in explicit && explicit[p] > 0 ==> after == Some(explicit[p] - 1))
            && (after.None? <==> part.stored.None? && (if p in explicit then explicit[p] == 0 else part.high == 0))
            && Resolve(after, part.low, part.high, None) == Resolve(part.stored, part.low, part.high, Entry(explicit, p))
  {
    assert p !in Missing(partitions, explicit.Keys);
  }

  /** The check refuses exactly the partitions whose rows the table may hold and nothing accounts for. */
  lemma CheckRefusesTheUnaccounted(era: Era, holdsRows: bool, partitions: map<int, Partition>, acknowledged: set<int>)
    ensures TakeoverCheck(era, holdsRows, partitions, acknowledged).Err? <==>
            (era == Kdi || (era == Fresh && holdsRows))
            && exists p | p in partitions ::
                 partitions[p].stored.None? && partitions[p].high > 0 && p !in acknowledged
    ensures TakeoverCheck(era, holdsRows, partitions, acknowledged).Err? ==>
              var e := TakeoverCheck(era, holdsRows, partitions, acknowledged).error;
              && e.freshAppId == (era == Fresh)
              && forall p :: p in e.partitions <==>
                   p in partitions && partitions[p].stored.None? && partitions[p].high > 0 && p !in acknowledged
  {
    if p :| p in partitions && partitions[p].stored.None? && partitions[p].high > 0 && p !in acknowledged {
      assert p in Missing(partitions, acknowledged);
    } else {
      assert forall q :: q !in Missing(partitions, acknowledged);
    }
  }

  lemma BaselineAssertsWhatIsStored(stored: map<int, Option<int>>, explicit: map<int, int>)
    ensures var asserted := TakeoverBaseline(Kdi, stored, explicit).value;
            forall p | p in asserted :: p in stored && (stored[p].Some? ==> asserted[p] == stored[p].value)
  {
  }

  /**
    The baseline is a step the fence protocol allows: read at a version of kafka-delta-ingest's era,
    it asserts each stored offset as it is, where the marker is absent.
  */
  lemma BaselineIsAStep(w: World, snapshot: nat, stored: map<int, Option<int>>, explicit: map<int, int>)
    requires snapshot < |w.log|
    requires forall p | p in stored :: KafkaPartition(p) && stored[p] == TxnVersion(w.log[..snapshot + 1], TxnAppId(w.appId, p))
    requires EraOf(w.appId, Asked(w.log[..snapshot + 1], w.appId, stored.Keys)) == Kdi
    ensures BaselineOf(w, snapshot, TakeoverBaseline(Kdi, stored, explicit).value)
  {
    EraIsExact(w.log[..snapshot + 1], w.appId, stored.Keys);
    BaselineAssertsWhatIsStored(stored, explicit);
  }

  /**
    The check and the baseline agree: it passes exactly when every partition has an offset once
    the baseline has landed, or was empty, or was acknowledged at 0.
  */
  lemma CheckPassesIffAccounted(partitions: map<int, Partition>, explicit: map<int, int>)
    requires forall q | q in explicit :: explicit[q] >= 0
    requires forall q | q in partitions :: partitions[q].high >= 0
    ensures TakeoverCheck(Kdi, true, partitions, explicit.Keys).Ok? <==>
              var (stored, baseline) := (StoredOf(partitions), TakeoverBaseline(Kdi, StoredOf(partitions), explicit).value);
              forall p | p in partitions ::
                After(stored, baseline, p).Some? || partitions[p].high == 0 || (p in explicit && explicit[p] == 0)
  {
    var stored := StoredOf(partitions);
    var baseline := TakeoverBaseline(Kdi, stored, explicit).value;
    CheckRefusesTheUnaccounted(Kdi, true, partitions, explicit.Keys);
    forall p | p in partitions
      ensures (After(stored, baseline, p).Some? || partitions[p].high == 0 || (p in explicit && explicit[p] == 0))
              <==> !(partitions[p].stored.None? && partitions[p].high > 0 && p !in explicit.Keys)
    {
    }
  }

  // ------------------------------------------------------------------ a fresh app_id

  datatype Named = Earliest | Latest

  /** The pipeline's `starting_offsets`: one name for all, or an entry for some and perhaps a name for the rest. */
  datatype StartPolicy = All(named: Named) | Explicitly(partitions: map<int, int>, rest: Option<Named>)

  function EntriesOf(policy: StartPolicy): map<int, int> {
    if policy.Explicitly? then policy.partitions else map[]
  }

  function Place(named: Named, part: Partition): int {
    if named.Earliest? then part.low else part.high
  }

  datatype Incomplete = Incomplete(partitions: set<int>)

  /** Where every partition of a fresh app_id starts: an explicit map must be complete unless it names the rest. */
  function FreshStarts(policy: StartPolicy, partitions: map<int, Partition>): Result<map<int, int>, Incomplete> {
    match policy
    case All(named) => Ok(map p | p in partitions :: Place(named, partitions[p]))
    case Explicitly(entries, rest) =>
      var missing := set p | p in partitions && p !in entries;
      if rest.None? && missing != {} then Err(Incomplete(missing))
      else Ok(map p | p in partitions ::
                if p in entries then entries[p] else if rest.Some? then Place(rest.value, partitions[p]) else 0)
  }

  /** The baseline of a fresh start: every partition starting above 0 at its start less one; none when none does. */
  function FreshBaseline(starts: map<int, int>): Option<map<int, int>> {
    var asserted := map p | p in starts && starts[p] > 0 :: starts[p] - 1;
    if asserted == map[] then None else Some(asserted)
  }

  /** What the table holds of a fresh app_id's partition once its baseline, if any, has landed. */
  function AfterFresh(baseline: Option<map<int, int>>, p: int): Option<int> {
    if baseline.Some? && p in baseline.value then Some(baseline.value[p]) else None
  }

  lemma FreshBaselineKeeps(starts: map<int, int>, p: int)
    requires p in starts
    ensures AfterFresh(FreshBaseline(starts), p) == if starts[p] > 0 then Some(starts[p] - 1) else None
  {
    var asserted := map q | q in starts && starts[q] > 0 :: starts[q] - 1;
    assert starts[p] > 0 ==> p in asserted;
  }

  /**
    The same of a fresh app_id, of any policy, on a table with rows or without: with its baseline landed
    and every entry removed, each partition starts exactly where the policy said. Where the table holds
    rows and the check passed, a partition left without an offset was empty or acknowledged at 0.
  */
  lemma FreshNeverRereads(policy: StartPolicy, partitions: map<int, Partition>, holdsRows: bool, p: int)
    requires forall q | q in partitions :: partitions[q].stored.None? && 0 <= partitions[q].low <= partitions[q].high
    requires forall q | q in EntriesOf(policy) :: EntriesOf(policy)[q] >= 0
    requires FreshStarts(policy, partitions).Ok? && p in partitions
    requires TakeoverCheck(Fresh, holdsRows, partitions, EntriesOf(policy).Keys).Ok?
    ensures var (part, start) := (partitions[p], FreshStarts(policy, partitions).value[p]);
            var after := AfterFresh(FreshBaseline(FreshStarts(policy, partitions).value), p);
            && (p in EntriesOf(policy) ==> start == EntriesOf(policy)[p])
            && Resolve(after, part.low, part.high, None) == Resolve(None, part.low, part.high, Some(start))
            && (holdsRows && after.None? ==> part.high == 0 || (p in EntriesOf(policy) && EntriesOf(policy)[p] == 0))
  {
    FreshBaselineKeeps(FreshStarts(policy, partitions).value, p);
    assert holdsRows ==> p !in Missing(partitions, EntriesOf(policy).Keys);
  }

  // ------------------------------------------------------------------ where a partition starts

  /** The one message a start delivers first: the one after the stored offset, the entry's, or 0. */
  predicate FirstOf(stored: Option<int>, low: int, high: int, explicit: Option<int>, next: int) {
    match (stored, explicit)
    case (Some(b), _) => next == b + 1 && (next == low || low < next <= high)
    case (None, Some(e)) => next == e && low <= e <= high
    case (None, None) => next == 0 == low
  }

  /**
    A start delivers from the message after the stored offset, from the entry, or from 0, exactly
    where the topic holds that place; and otherwise it blocks, with its reason.
  */
  lemma StartIs(stored: Option<int>, low: int, high: int, explicit: Option<int>)
    ensures forall next :: Resolve(stored, low, high, explicit) == Delivers(next) <==> FirstOf(stored, low, high, explicit, next)
    ensures forall wanted, l :: Resolve(stored, low, high, explicit) == BlockedUnavailable(wanted, l) <==>
              && l == low && (if stored.None? && explicit.None? then low != 0 else wanted < low)
              && wanted == if stored.Some? then stored.value + 1 else if explicit.Some? then explicit.value else 0
    ensures forall at, h :: Resolve(stored, low, high, explicit) == BlockedRegressed(at, h) <==>
              && h == high && (stored.Some? || explicit.Some?)
              && at == (if stored.Some? then stored.value else explicit.value - 1)
              && (if stored.Some? then at >= high && at + 1 > low else at + 1 >= low && at + 1 > high)
  {
  }

  /** A batch that begins where its partitions' starts say reads on from its fence's base. */
  lemma StartsReadOn(ranges: map<int, Range>, bases: map<int, Option<int>>, watermarks: map<int, (int, int)>, explicit: map<int, int>)
    requires forall p | p in ranges :: ranges[p].first <= ranges[p].last && p in bases && p in watermarks
    requires forall p | p in ranges ::
               Resolve(bases[p], watermarks[p].0, watermarks[p].1, Entry(explicit, p)) == Delivers(ranges[p].first)
    ensures ReadsOn(ranges, bases)
  {
    forall p | p in ranges ensures bases[p].Some? ==> ranges[p].first == bases[p].value + 1 {
      StartIs(bases[p], watermarks[p].0, watermarks[p].1, Entry(explicit, p));
      assert FirstOf(bases[p], watermarks[p].0, watermarks[p].1, Entry(explicit, p), ranges[p].first);
    }
  }

  /** Where a fresh app_id starts: at its entry, or at the low or the high watermark, as the policy says. */
  lemma FreshStartsAre(policy: StartPolicy, partitions: map<int, Partition>)
    ensures FreshStarts(policy, partitions).Err? <==>
              policy.Explicitly? && policy.rest.None? && exists p :: p in partitions && p !in policy.partitions
    ensures FreshStarts(policy, partitions).Ok? ==>
              var starts := FreshStarts(policy, partitions).value;
              && starts.Keys == partitions.Keys
              && forall p | p in partitions ::
                   && (p in EntriesOf(policy) ==> starts[p] == EntriesOf(policy)[p])
                   && (p !in EntriesOf(policy) && (policy == All(Earliest) || (policy.Explicitly? && policy.rest == Some(Earliest))) ==>
                         starts[p] == partitions[p].low)
                   && (p !in EntriesOf(policy) && (policy == All(Latest) || (policy.Explicitly? && policy.rest == Some(Latest))) ==>
                         starts[p] == partitions[p].high)
  {
    if policy.Explicitly? && policy.rest.None? {
      var missing := set p | p in partitions && p !in policy.partitions;
      assert forall p :: p in missing <==> p in partitions && p !in policy.partitions;
      assert (forall p :: p !in missing) ==> missing == {};
    }
  }
}
