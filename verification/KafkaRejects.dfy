/**
  Recording a Kafka batch's rejects when the acknowledgement of a commit cannot be trusted:
  attempts, a search for one's own commit, and a bounded retry (src/dq.rs).
*/
module KafkaRejects {
  import opened Basics

  /** The id a commit records, if it records one. */
  type WriteId = Option<string>

  const CONFLICT_RETRIES: nat := 3

  /** What one attempt reports: acknowledged, refused before writing, in conflict, or failed some other way. */
  datatype Report = Acked | Refused | Conflicted | Ambiguous

  /**
    What the world does during one attempt: the commits of others before and after its own, whether
    its own lands, what it reports, whether the table reopens, and which commits by then cannot be
    read, because they are gone or because reading fails.
  */
  datatype Attempt = Attempt(
    before: seq<WriteId>,
    lands: bool,
    after: seq<WriteId>,
    report: Report,
    reopens: bool,
    gone: set<nat>,
    faulty: set<nat>)

  datatype DqError = DataQualityConflict | DataQualityWrite

  /** An acknowledged write landed, a refused one did not; the rest may have gone either way. */
  predicate Honest(a: Attempt, id: string) {
    && (a.report.Acked? ==> a.lands) && (a.report.Refused? ==> !a.lands)
    && Some(id) !in a.before && Some(id) !in a.after
  }

  function LogAfter(log: seq<WriteId>, a: Attempt, id: string): seq<WriteId> {
    log + a.before + (if a.lands then [Some(id)] else []) + a.after
  }

  /** How many commits of the log record `id`. */
  function CountOf(log: seq<WriteId>, id: string): nat {
    if |log| == 0 then 0 else CountOf(log[..|log| - 1], id) + if log[|log| - 1] == Some(id) then 1 else 0
  }

  lemma {:induction false} CountOfBoth(a: seq<WriteId>, b: seq<WriteId>, id: string)
    ensures CountOf(a + b, id) == CountOf(a, id) + CountOf(b, id)
    decreases |b|
  {
    if |b| == 0 {
      assert a + b == a;
    } else {
      assert (a + b)[..|a + b| - 1] == a + b[..|b| - 1];
      CountOfBoth(a, b[..|b| - 1], id);
    }
  }

  lemma {:induction false} CountedIsThere(log: seq<WriteId>, id: string)
    ensures CountOf(log, id) > 0 <==> Some(id) in log
  {
    if |log| > 0 {
      CountedIsThere(log[..|log| - 1], id);
      assert log == log[..|log| - 1] + [log[|log| - 1]];
    }
  }

  // ------------------------------------------------------------------ looking for one's own commit

  /** Versions `first..end`, newest first: a commit no longer there ends the search. */
  function Search(log: seq<WriteId>, a: Attempt, id: string, first: nat, end: nat): Result<bool, Unit>
    requires end <= |log|
    decreases end
  {
    if end <= first then Ok(false)
    else
      var v := end - 1;
      if v in a.faulty then Err(Unit)
      else if v in a.gone then Ok(false)
      else if log[v] == Some(id) then Ok(true)
      else Search(log, a, id, first, v)
  }

  /** With nothing missing, the search finds the write's own commit exactly when it is there. */
  lemma {:induction false} SearchIsExact(log: seq<WriteId>, a: Attempt, id: string, first: nat, end: nat)
    requires end <= |log| && a.gone == {} && Search(log, a, id, first, end).Ok?
    ensures Search(log, a, id, first, end).value <==> exists v | first <= v < end :: log[v] == Some(id)
    decreases end
  {
    if end > first && log[end - 1] != Some(id) {
      SearchIsExact(log, a, id, first, end - 1);
    }
  }

  /** Whatever is missing, a commit it finds is there. */
  lemma {:induction false} SearchNeverLies(log: seq<WriteId>, a: Attempt, id: string, first: nat, end: nat)
    requires end <= |log| && Search(log, a, id, first, end) == Ok(true)
    ensures Some(id) in log
    decreases end
  {
    if log[end - 1] != Some(id) {
      SearchNeverLies(log, a, id, first, end - 1);
    }
  }

  /** The first version a read at `handle` has not seen. */
  function AfterHandle(handle: Option<nat>): nat {
    if handle.Some? then handle.value + 1 else 0
  }

  function HeadOf(log: seq<WriteId>): Option<nat> {
    if log == [] then None else Some(|log| - 1)
  }

  // ------------------------------------------------------------------ the retry loop as a function

  datatype Ended = Ended(result: Result<nat, DqError>, log: seq<WriteId>, attempts: nat)

  /** What one attempt comes to: recorded, given up, or in conflict with the commit of another. */
  datatype Decision = Recorded | GivenUp | InConflict

  function Decide(now: seq<WriteId>, handle: Option<nat>, id: string, a: Attempt): Decision {
    match a.report
    case Acked => Recorded
    case Refused => GivenUp
    case Ambiguous =>
      if a.reopens && Search(now, a, id, AfterHandle(handle), |now|) == Ok(true) then Recorded else GivenUp
    case Conflicted =>
      if !a.reopens || Search(now, a, id, AfterHandle(handle), |now|).Err? then GivenUp
      else if Search(now, a, id, AfterHandle(handle), |now|).value then Recorded
      else InConflict
  }

  /** The write from attempt `k` on, when its handle stands at `handle`. */
  function WriteFrom(log: seq<WriteId>, handle: Option<nat>, rows: nat, id: string, attempts: seq<Attempt>, k: nat): Ended
    requires |attempts| == CONFLICT_RETRIES + 1 && k <= CONFLICT_RETRIES
    decreases CONFLICT_RETRIES - k
  {
    var now := LogAfter(log, attempts[k], id);
    match Decide(now, handle, id, attempts[k])
    case Recorded => Ended(Ok(rows), now, k + 1)
    case GivenUp => Ended(Err(DataQualityWrite), now, k + 1)
    case InConflict =>
      if k < CONFLICT_RETRIES then WriteFrom(now, HeadOf(now), rows, id, attempts, k + 1)
      else Ended(Err(DataQualityConflict), now, k + 1)
  }

  class DataQuality {
    /** The table's log, and the version of the handle on it. */
    var log: seq<WriteId>
    var version: Option<nat>

    constructor (log: seq<WriteId>)
      ensures this.log == log && Valid()
    {
      this.log := log;
      version := HeadOf(log);
    }

    predicate Valid()
      reads this
    {
      version.Some? ==> version.value < |log|
    }

    /** Whether this write's own commit is among those after `read`, on the table as just reopened. */
    method Landed(read: Option<nat>, id: string, a: Attempt) returns (r: Result<bool, Unit>)
      requires version == HeadOf(log)
      ensures r == Search(log, a, id, AfterHandle(read), |log|)
    {
      var v: nat := |log|;
      while v > AfterHandle(read)
        invariant v <= |log|
        invariant Search(log, a, id, AfterHandle(read), |log|) == Search(log, a, id, AfterHandle(read), v)
      {
        v := v - 1;
        if v in a.faulty {
          return Err(Unit);
        }
        if v in a.gone {
          return Ok(false);
        }
        if log[v] == Some(id) {
          return Ok(true);
        }
      }
      r := Ok(false);
    }

    /** Append every reject, whatever the attempts report; `attempts` is what the world does. */
    method WriteKafka(rows: nat, id: string, attempts: seq<Attempt>) returns (r: Result<nat, DqError>)
      requires Valid() && |attempts| == CONFLICT_RETRIES + 1
      modifies this
      ensures Valid()
      ensures rows == 0 ==> r == Ok(0) && log == old(log)
      ensures rows > 0 ==>
                var ended := WriteFrom(old(log), old(version), rows, id, attempts, 0);
                r == ended.result && log == ended.log
    {
      if rows == 0 {
        return Ok(0);
      }
      var retries: nat := 0;
      while true
        invariant retries <= CONFLICT_RETRIES && Valid()
        invariant WriteFrom(old(log), old(version), rows, id, attempts, 0) ==
                  WriteFrom(log, version, rows, id, attempts, retries)
        decreases CONFLICT_RETRIES - retries
      {
        var (a, read) := (attempts[retries], version);
        log := LogAfter(log, a, id);
        match a.report {
          case Acked =>
            version := HeadOf(log);
            return Ok(rows);
          case Refused =>
            version := if a.reopens then HeadOf(log) else version;
            return Err(DataQualityWrite);
          case Ambiguous =>
            if !a.reopens {
              return Err(DataQualityWrite);
            }
            version := HeadOf(log);
            var found := Landed(read, id, a);
            return if found == Ok(true) then Ok(rows) else Err(DataQualityWrite);
          case Conflicted =>
            if !a.reopens {
              return Err(DataQualityWrite);
            }
            version := HeadOf(log);
            var found := Landed(read, id, a);
            if found.Err? {
              return Err(DataQualityWrite);
            }
            if found.value {
              return Ok(rows);
            }
            if retries == CONFLICT_RETRIES {
              return Err(DataQualityConflict);
            }
            retries := retries + 1;
        }
      }
    }
  }

  // ------------------------------------------------------------------ what an answer means

  predicate AllHonest(attempts: seq<Attempt>, id: string) {
    forall k | 0 <= k < |attempts| :: Honest(attempts[k], id)
  }

  /** No commit is ever missing from the log when it is searched. */
  predicate NothingGone(attempts: seq<Attempt>) {
    forall k | 0 <= k < |attempts| :: attempts[k].gone == {}
  }

  lemma CountOfOneAttempt(log: seq<WriteId>, a: Attempt, id: string)
    requires Honest(a, id)
    ensures CountOf(LogAfter(log, a, id), id) == CountOf(log, id) + if a.lands then 1 else 0
  {
    var own: seq<WriteId> := if a.lands then [Some(id)] else [];
    CountedIsThere(a.before, id);
    CountedIsThere(a.after, id);
    CountOfBoth(log, a.before, id);
    CountOfBoth(log + a.before, own, id);
    CountOfBoth(log + a.before + own, a.after, id);
    assert CountOf(own, id) == if a.lands then 1 else 0;
  }

  lemma NewIsPastTheHandle(log: seq<WriteId>, handle: Option<nat>, a: Attempt, id: string)
    requires CountOf(log, id) == 0 && Honest(a, id) && (handle.Some? ==> handle.value < |log|)
    ensures var now := LogAfter(log, a, id);
            (exists v | AfterHandle(handle) <= v < |now| :: now[v] == Some(id)) <==> a.lands
  {
    var now := LogAfter(log, a, id);
    CountedIsThere(log, id);
    if a.lands {
      assert now[|log| + |a.before|] == Some(id);
    } else {
      assert forall v | 0 <= v < |now| :: now[v] != Some(id) by {
        assert forall x | x in now :: x in log || x in a.before || x in a.after;
      }
    }
  }

  /** With nothing missing, an attempt taken for recorded landed, and one taken for a conflict did not. */
  lemma DecisionIsExact(log: seq<WriteId>, handle: Option<nat>, a: Attempt, id: string)
    requires CountOf(log, id) == 0 && Honest(a, id) && a.gone == {} && (handle.Some? ==> handle.value < |log|)
    ensures var d := Decide(LogAfter(log, a, id), handle, id, a);
            (d.Recorded? ==> a.lands) && (d.InConflict? ==> !a.lands)
  {
    var now := LogAfter(log, a, id);
    NewIsPastTheHandle(log, handle, a, id);
    if Search(now, a, id, AfterHandle(handle), |now|).Ok? {
      SearchIsExact(now, a, id, AfterHandle(handle), |now|);
    }
  }

  /**
    Ambiguous acknowledgements, decided: with no commit missing from the log, success means
    the rejects are recorded exactly once, a conflict means not at all, any other failure at most
    once, and there are at most four attempts.
  */
  lemma {:induction false} AnswersAreExact(log: seq<WriteId>, handle: Option<nat>, rows: nat, id: string, attempts: seq<Attempt>, k: nat)
    requires |attempts| == CONFLICT_RETRIES + 1 && k <= CONFLICT_RETRIES
    requires AllHonest(attempts, id) && NothingGone(attempts)
    requires CountOf(log, id) == 0 && (handle.Some? ==> handle.value < |log|)
    ensures var ended := WriteFrom(log, handle, rows, id, attempts, k);
            && k < ended.attempts <= CONFLICT_RETRIES + 1
            && (ended.result.Ok? ==> ended.result.value == rows && CountOf(ended.log, id) == 1)
            && (ended.result == Err(DataQualityConflict) ==> CountOf(ended.log, id) == 0)
            && CountOf(ended.log, id) <= 1
    decreases CONFLICT_RETRIES - k
  {
    var a := attempts[k];
    var now := LogAfter(log, a, id);
    CountOfOneAttempt(log, a, id);
    DecisionIsExact(log, handle, a, id);
    if Decide(now, handle, id, a).InConflict? && k < CONFLICT_RETRIES {
      AnswersAreExact(now, HeadOf(now), rows, id, attempts, k + 1);
    }
  }

  /** Nothing gone, nothing faulty, and every reopen succeeds. */
  predicate Smooth(a: Attempt) {
    a.gone == {} && a.faulty == {} && a.reopens
  }

  lemma {:induction false} SearchNeverFails(log: seq<WriteId>, a: Attempt, id: string, first: nat, end: nat)
    requires end <= |log| && a.faulty == {}
    ensures Search(log, a, id, first, end).Ok?
    decreases end
  {
    if end > first && end - 1 !in a.gone && log[end - 1] != Some(id) {
      SearchNeverFails(log, a, id, first, end - 1);
    }
  }

  /** On a table that can be read, an attempt comes to what happened: landed, in conflict, or given up. */
  lemma DecisionTellsWhatHappened(log: seq<WriteId>, handle: Option<nat>, a: Attempt, id: string)
    requires CountOf(log, id) == 0 && Honest(a, id) && Smooth(a) && (handle.Some? ==> handle.value < |log|)
    ensures Decide(LogAfter(log, a, id), handle, id, a) ==
            if a.lands then Recorded else if a.report.Conflicted? then InConflict else GivenUp
  {
    var now := LogAfter(log, a, id);
    NewIsPastTheHandle(log, handle, a, id);
    SearchNeverFails(now, a, id, AfterHandle(handle), |now|);
    SearchIsExact(now, a, id, AfterHandle(handle), |now|);
  }

  lemma ThereIffItLanded(log: seq<WriteId>, a: Attempt, id: string)
    requires CountOf(log, id) == 0 && Honest(a, id)
    ensures Some(id) in LogAfter(log, a, id) <==> a.lands
    ensures !a.lands ==> CountOf(LogAfter(log, a, id), id) == 0
  {
    CountOfOneAttempt(log, a, id);
    CountedIsThere(LogAfter(log, a, id), id);
  }

  /**
    The converse: on a table that can be read and reopened, success is reported whenever the rejects are
    recorded, whatever was acknowledged; and a conflict exactly when all four attempts ended in one, none landed.
  */
  lemma {:induction false} AnswersIff(log: seq<WriteId>, handle: Option<nat>, rows: nat, id: string, attempts: seq<Attempt>, k: nat)
    requires |attempts| == CONFLICT_RETRIES + 1 && k <= CONFLICT_RETRIES && AllHonest(attempts, id)
    requires forall j | k <= j < |attempts| :: Smooth(attempts[j])
    requires CountOf(log, id) == 0 && (handle.Some? ==> handle.value < |log|)
    ensures var ended := WriteFrom(log, handle, rows, id, attempts, k);
            && (ended.result.Ok? <==> Some(id) in ended.log)
            && (ended.result == Err(DataQualityConflict) <==>
                  forall j | k <= j < |attempts| :: attempts[j].report.Conflicted? && !attempts[j].lands)
    decreases CONFLICT_RETRIES - k
  {
    var a := attempts[k];
    var now := LogAfter(log, a, id);
    DecisionTellsWhatHappened(log, handle, a, id);
    ThereIffItLanded(log, a, id);
    if !a.lands && a.report.Conflicted? && k < CONFLICT_RETRIES {
      AnswersIff(now, HeadOf(now), rows, id, attempts, k + 1);
    }
  }

  lemma RecordedIsThere(log: seq<WriteId>, handle: Option<nat>, a: Attempt, id: string)
    requires Honest(a, id) && Decide(LogAfter(log, a, id), handle, id, a).Recorded?
    ensures CountOf(LogAfter(log, a, id), id) >= 1
  {
    var now := LogAfter(log, a, id);
    if a.report.Acked? {
      CountOfOneAttempt(log, a, id);
    } else {
      SearchNeverLies(now, a, id, AfterHandle(handle), |now|);
      CountedIsThere(now, id);
    }
  }

  /** Whatever goes missing, success never means a lost reject, nor more copies than attempts. */
  lemma {:induction false} SuccessNeverLoses(log: seq<WriteId>, handle: Option<nat>, rows: nat, id: string, attempts: seq<Attempt>, k: nat)
    requires |attempts| == CONFLICT_RETRIES + 1 && k <= CONFLICT_RETRIES && AllHonest(attempts, id)
    ensures var ended := WriteFrom(log, handle, rows, id, attempts, k);
            && (ended.result.Ok? ==> CountOf(ended.log, id) >= 1)
            && CountOf(log, id) <= CountOf(ended.log, id) <= CountOf(log, id) + (ended.attempts - k)
            && ended.attempts <= CONFLICT_RETRIES + 1
    decreases CONFLICT_RETRIES - k
  {
    var a := attempts[k];
    var now := LogAfter(log, a, id);
    CountOfOneAttempt(log, a, id);
    match Decide(now, handle, id, a)
    case Recorded => RecordedIsThere(log, handle, a, id);
    case GivenUp =>
    case InConflict =>
      if k < CONFLICT_RETRIES {
        SuccessNeverLoses(now, HeadOf(now), rows, id, attempts, k + 1);
      }
  }

  /** An attempt that landed and was taken for a conflict: its commit was searched for and not found. */
  predicate Overlooks(log: seq<WriteId>, handle: Option<nat>, a: Attempt, id: string) {
    a.lands && Decide(LogAfter(log, a, id), handle, id, a).InConflict?
  }

  /** Some attempt from `k` on is overlooked. */
  predicate SomeOverlooked(log: seq<WriteId>, handle: Option<nat>, id: string, attempts: seq<Attempt>, k: nat)
    requires |attempts| == CONFLICT_RETRIES + 1 && k <= CONFLICT_RETRIES
    decreases CONFLICT_RETRIES - k
  {
    var now := LogAfter(log, attempts[k], id);
    || Overlooks(log, handle, attempts[k], id)
    || (k < CONFLICT_RETRIES && Decide(now, handle, id, attempts[k]).InConflict? && SomeOverlooked(now, HeadOf(now), id, attempts, k + 1))
  }

  /** A commit at `own` is missed exactly when the search meets one that is gone before it, and no fault first. */
  lemma {:induction false} MissedIff(log: seq<WriteId>, a: Attempt, id: string, first: nat, own: nat, end: nat)
    requires first <= own < end <= |log| && log[own] == Some(id) && forall v | own < v < end :: log[v] != Some(id)
    ensures Search(log, a, id, first, end) == Ok(false) <==>
              exists g | own <= g < end ::
                g in a.gone && g !in a.faulty && forall v | g < v < end :: v !in a.gone && v !in a.faulty
    decreases end
  {
    var v := end - 1;
    if v in a.gone && v !in a.faulty {
      assert forall u | v < u < end :: u !in a.gone && u !in a.faulty;
    } else if v !in a.faulty && v > own {
      MissedIff(log, a, id, first, own, v);
      if Search(log, a, id, first, end) == Ok(false) {
        var g :| own <= g < v && g in a.gone && g !in a.faulty && forall u | g < u < v :: u !in a.gone && u !in a.faulty;
        assert forall u | g < u < end :: u !in a.gone && u !in a.faulty;
      }
    }
  }

  lemma {:induction false} FoundIsPast(log: seq<WriteId>, a: Attempt, id: string, first: nat, end: nat)
    requires end <= |log| && Search(log, a, id, first, end) == Ok(true)
    ensures exists v | first <= v < end :: log[v] == Some(id)
    decreases end
  {
    if log[end - 1] != Some(id) {
      FoundIsPast(log, a, id, first, end - 1);
    }
  }

  /** An attempt taken for recorded landed, whatever landed before it. */
  lemma RecordedLanded(log: seq<WriteId>, handle: Option<nat>, a: Attempt, id: string)
    requires Honest(a, id) && (handle == HeadOf(log) || CountOf(log, id) == 0)
    requires Decide(LogAfter(log, a, id), handle, id, a).Recorded?
    ensures a.lands
  {
    var now := LogAfter(log, a, id);
    if !a.report.Acked? && !a.lands {
      FoundIsPast(now, a, id, AfterHandle(handle), |now|);
      var v :| AfterHandle(handle) <= v < |now| && now[v] == Some(id);
      CountedIsThere(log, id);
    }
  }

  /** How many copies a write that goes on from here to success adds. */
  ghost predicate AddsOne(before: nat, after: nat, overlooked: bool) {
    after >= before + 1 && (after == before + 1 <==> !overlooked)
  }

  /** Success adds at least the copy it reports, and only it unless an attempt was overlooked. */
  lemma {:induction false} SuccessAddsOne(log: seq<WriteId>, handle: Option<nat>, rows: nat, id: string, attempts: seq<Attempt>, k: nat)
    requires |attempts| == CONFLICT_RETRIES + 1 && k <= CONFLICT_RETRIES && AllHonest(attempts, id)
    requires handle == HeadOf(log) || CountOf(log, id) == 0
    requires WriteFrom(log, handle, rows, id, attempts, k).result.Ok?
    ensures AddsOne(CountOf(log, id), CountOf(WriteFrom(log, handle, rows, id, attempts, k).log, id),
                    SomeOverlooked(log, handle, id, attempts, k))
    decreases CONFLICT_RETRIES - k
  {
    var a := attempts[k];
    var now := LogAfter(log, a, id);
    CountOfOneAttempt(log, a, id);
    match Decide(now, handle, id, a)
    case Recorded => RecordedLanded(log, handle, a, id);
    case GivenUp =>
    case InConflict => SuccessAddsOne(now, HeadOf(now), rows, id, attempts, k + 1);
  }

  /**
    When success means exactly once, for every sequence of outcomes: if and only if no attempt landed,
    was taken for a conflict, and was not found by the search because a newer commit, or its own, was
    gone by then.
  */
  lemma ExactlyOnceIff(log: seq<WriteId>, handle: Option<nat>, rows: nat, id: string, attempts: seq<Attempt>)
    requires |attempts| == CONFLICT_RETRIES + 1 && AllHonest(attempts, id) && CountOf(log, id) == 0
    ensures var ended := WriteFrom(log, handle, rows, id, attempts, 0);
            ended.result.Ok? ==> (CountOf(ended.log, id) == 1 <==> !SomeOverlooked(log, handle, id, attempts, 0))
  {
    if WriteFrom(log, handle, rows, id, attempts, 0).result.Ok? {
      SuccessAddsOne(log, handle, rows, id, attempts, 0);
    }
  }

  /**
    The hypothesis is needed: a commit that landed behind another that is gone by the time of
    the search is not found, and the next attempt records the rejects a second time.
  */
  lemma AMissingCommitDuplicates(id: string)
    ensures var lost := Attempt([], true, [None], Conflicted, true, {1}, {});
            var again := Attempt([], true, [], Acked, true, {}, {});
            var ended := WriteFrom([], None, 1, id, [lost, again, again, again], 0);
            AllHonest([lost, again, again, again], id) && ended.result == Ok(1) && CountOf(ended.log, id) == 2
  {
    var lost := Attempt([], true, [None], Conflicted, true, {1}, {});
    var now := LogAfter([], lost, id);
    assert now == [Some(id), None];
    assert Search(now, lost, id, 0, 2) == Ok(false);
    CountOfOneAttempt([], lost, id);
    CountOfOneAttempt(now, Attempt([], true, [], Acked, true, {}, {}), id);
  }
}
