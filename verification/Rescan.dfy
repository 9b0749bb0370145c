/**
  How far back a rescan must reach after a rebuild: two backward walks over the source's log, and
  what the version they return stands for (src/dedup.rs).
*/
module Rescan {
  import opened Basics
  import opened Bounds
  import opened Watermark
  import opened Coverage
  import opened FileCoverage
  import opened Handover

  /** A commit of the source: the files it adds, and whether it removes data or restores an old version. */
  datatype SourceCommit = SourceCommit(adds: seq<File>, removesData: bool, restore: bool) {
    function Data(): seq<File> {
      DataFiles(adds)
    }

    /** A plain append: new data, none removed, and no RESTORE, which re-adds files without a remove. */
    predicate MayProveCoverage() {
      Data() != [] && !removesData && !restore
    }
  }

  datatype Entry = Missing | Fault | There(commit: SourceCommit)

  /** The rows the source delivered with a version: those of a plain append. */
  function Delivered(e: Entry): seq<Row> {
    if e.There? && e.commit.MayProveCoverage() then FileCoverage.RowsOf(e.commit.Data()) else []
  }

  /** The source from version `first` on, which is where the pipeline starts. */
  function SourceFrom(log: seq<Entry>, first: nat): seq<seq<Row>> {
    seq(|log|, v requires 0 <= v < |log| => if v < first then [] else Delivered(log[v]))
  }

  // ------------------------------------------------------------------ what a version may stand for

  lemma {:induction false} NothingBefore(log: seq<Entry>, first: nat, v: nat)
    requires v <= first && v <= |log|
    ensures StartOf(SourceFrom(log, first), v) == 0
  {
    if v > 0 {
      NothingBefore(log, first, v - 1);
      FlatOfOneMore(SourceFrom(log, first), v - 1);
    }
  }

  /** A row the walk saw covered is one the rebuild read; ties the filter would settle are no exception. */
  lemma CoveredEitherWay(marks: Marks, r: Row, keyed: bool)
    requires Covered(marks, r, keyed, false)
    ensures Covered(marks, r, keyed, true)
  {
  }

  /**
    A version all of whose rows are covered, and which has one, is at or before the rebuild's read
    point, and so is everything before it.
  */
  lemma CoveredVersionIsBehind(versions: seq<seq<Row>>, form: Form, n: nat, marks: Marks, v: nat)
    requires Ordered(Flat(versions), form) && n <= |Flat(versions)| && v < |versions|
    requires Describes(Flat(versions)[..n], form.keyed, marks)
    requires versions[v] != [] && AllCovered(versions[v], marks, form.keyed)
    ensures StartOf(versions, v + 1) <= n
  {
    FlatOfOneMore(versions, v);
    StartsGrow(versions, v + 1, v + 1);
    var last := StartOf(versions, v + 1) - 1;
    var row := versions[v][|versions[v]| - 1];
    assert Flat(versions)[last] == Flat(versions[..v + 1])[last] == row && row in versions[v];
    CoveredEitherWay(marks, row, form.keyed);
    CoversExactlyThePrefix(Flat(versions), form, n, marks, last);
  }

  /** The marks cover exactly the first `n` rows. */
  ghost predicate CoverTheFirst(s: seq<Row>, keyed: bool, n: nat, marks: Marks) {
    forall i | 0 <= i < |s| :: Covered(marks, s[i], keyed, true) <==> i < n
  }

  lemma MarksCoverTheFirst(s: seq<Row>, form: Form, n: nat, marks: Marks)
    requires Ordered(s, form) && n <= |s| && Describes(s[..n], form.keyed, marks)
    ensures CoverTheFirst(s, form.keyed, n, marks)
  {
    forall i | 0 <= i < |s| ensures Covered(marks, s[i], form.keyed, true) <==> i < n {
      CoversExactlyThePrefix(s, form, n, marks, i);
    }
  }

  lemma LastOfThoseBefore(s: seq<Row>, keyed: bool, n: nat, marks: Marks, k: nat)
    requires CoverTheFirst(s, keyed, n, marks) && k <= |s|
    ensures k <= n <==> k == 0 || Covered(marks, s[k - 1], keyed, true)
  {
  }

  lemma StartIsInside(versions: seq<seq<Row>>, r: nat)
    requires r <= |versions|
    ensures StartOf(versions, r) <= |Flat(versions)|
  {
    StartsGrow(versions, r, r);
  }

  /**
    When starting at version `r`, whose first row is `s[k]`, loses nothing: exactly when the newest
    row before it, if there is one, is one the filter would drop.
  */
  lemma StartIsSoundIff(versions: seq<seq<Row>>, s: seq<Row>, form: Form, n: nat, marks: Marks, r: nat, k: nat)
    requires s == Flat(versions) && r <= |versions| && k == StartOf(versions, r)
    requires Ordered(s, form) && n <= |s| && Describes(s[..n], form.keyed, marks)
    ensures k <= |s|
    ensures k <= n <==> k == 0 || Covered(marks, s[k - 1], form.keyed, true)
  {
    StartIsInside(versions, r);
    MarksCoverTheFirst(s, form, n, marks);
    LastOfThoseBefore(s, form.keyed, n, marks, k);
  }

  // ------------------------------------------------------------------ the partitioned form

  ghost predicate LogIsTruthful(log: seq<Entry>, ts: string, columns: seq<string>, mb: MarkBounds) {
    forall v | 0 <= v < |log| && log[v].There? ::
      forall i | 0 <= i < |log[v].commit.Data()| :: TruthfulFor(log[v].commit.Data()[i], ts, columns, mb)
  }

  /** Version `v` proves that it, and everything before it, was read: a plain append, wholly covered. */
  ghost predicate Proves(log: seq<Entry>, v: nat, marks: Marks, keyed: bool) {
    && v < |log| && log[v].There? && log[v].commit.MayProveCoverage()
    && WhollyCovered(log[v].commit.Data(), marks, keyed)
  }

  /**
    What proves is a commit that removes no data, restores nothing, and adds new data, of which every
    row is covered by its own mark, ties not taken for covered, and there is one.
  */
  lemma ProvesIff(log: seq<Entry>, v: nat, marks: Marks, keyed: bool)
    requires v < |log| && log[v].There?
    ensures Proves(log, v, marks, keyed) <==>
              var c := log[v].commit;
              && !c.removesData && !c.restore
              && (forall f, r :: f in c.adds && f.dataChange && r in f.rows ==> Covered(marks, r, keyed, false))
              && exists f :: f in c.adds && f.dataChange && f.rows != []
  {
    var c := log[v].commit;
    var data := c.Data();
    forall f ensures f in data <==> f in c.adds && f.dataChange {
      DataFilesAre(c.adds, f);
    }
    if Proves(log, v, marks, keyed) {
      forall f, r | f in c.adds && f.dataChange && r in f.rows ensures Covered(marks, r, keyed, false) {
        var i :| 0 <= i < |data| && data[i] == f;
        assert AllCovered(data[i].rows, marks, keyed);
      }
      var i :| 0 <= i < |data| && data[i].rows != [];
      assert data[i] in data;
    }
    if f :| f in c.adds && f.dataChange && f.rows != [] {
      assert f in data;
      var i :| 0 <= i < |data| && data[i] == f;
      assert data[i].rows != [];
      if forall f, r :: f in c.adds && f.dataChange && r in f.rows ==> Covered(marks, r, keyed, false) {
        forall k | 0 <= k < |data| ensures AllCovered(data[k].rows, marks, keyed) {
          assert data[k] in data;
        }
      }
    }
  }

  ghost predicate CanBeRead(log: seq<Entry>, v: nat) {
    v < |log| && log[v].There? && forall i | 0 <= i < |log[v].commit.Data()| :: log[v].commit.Data()[i].readable
  }

  /** The data files of versions `first..end`. */
  function FilesBetween(log: seq<Entry>, first: nat, end: nat): nat
    requires first <= end <= |log|
    decreases end - first
  {
    if first == end then 0
    else (if log[first].There? then |log[first].commit.Data()| else 0) + FilesBetween(log, first + 1, end)
  }

  lemma {:induction false} MoreFilesFurtherBack(log: seq<Entry>, u: nat, v: nat, end: nat)
    requires u <= v <= end <= |log|
    ensures FilesBetween(log, u, end) >= FilesBetween(log, v, end)
    decreases v - u
  {
    if u < v {
      MoreFilesFurtherBack(log, u + 1, v, end);
    }
  }

  /** The walk can get from the head to version `u`: everything there, and neither limit in the way. */
  ghost predicate WithinReach(log: seq<Entry>, head: nat, fallback: nat, maxScan: nat, maxProbes: nat, u: nat)
    requires head < |log|
  {
    && fallback <= u <= head && head - u < maxScan
    && (forall v | u <= v <= head :: CanBeRead(log, v))
    && FilesBetween(log, u, head + 1) <= maxProbes
  }

  /** Version `u` proves, and the walk can get to it. */
  ghost predicate ProvesInReach(log: seq<Entry>, head: nat, fallback: nat, maxScan: nat, maxProbes: nat, marks: Marks, keyed: bool, u: nat)
    requires head < |log|
  {
    WithinReach(log, head, fallback, maxScan, maxProbes, u) && Proves(log, u, marks, keyed)
  }

  /** A version on the way to one in reach can be read, within the budget. */
  lemma ReachIsUnbroken(log: seq<Entry>, head: nat, fallback: nat, maxScan: nat, maxProbes: nat, marks: Marks, keyed: bool, v: nat)
    requires v <= head < |log|
    ensures forall u: nat | u <= v && ProvesInReach(log, head, fallback, maxScan, maxProbes, marks, keyed, u) ::
              CanBeRead(log, v) && FilesBetween(log, v, head + 1) <= maxProbes
    ensures forall u: nat | ProvesInReach(log, head, fallback, maxScan, maxProbes, marks, keyed, u) ::
              Proves(log, u, marks, keyed) && CanBeRead(log, u)
  {
    forall u: nat | u <= v && ProvesInReach(log, head, fallback, maxScan, maxProbes, marks, keyed, u)
      ensures FilesBetween(log, v, head + 1) <= maxProbes
    {
      MoreFilesFurtherBack(log, u, v, head + 1);
    }
  }

  /**
    The earliest version that can still hold a row the marks do not cover. `hasColumns` is
    whether the source has the timestamp and partition columns at all.
  */
  method BoundedRescanStartPartitioned(log: seq<Entry>, head: Option<nat>, d: Dedup, mb: MarkBounds, hasColumns: bool,
                                       ts: string, columns: seq<string>, fallback: nat, maxScan: nat, maxProbes: nat)
    returns (r: Result<nat, Unit>)
    requires head.Some? ==> head.value < |log|
    requires BoundsTheMarks(mb, d.partitions) && LogIsTruthful(log, ts, columns, mb)
    ensures r.Err? ==> exists v | 0 <= v < |log| :: log[v].Fault?
    ensures r.Ok? ==> r.value >= fallback
    ensures r.Ok? && r.value > fallback ==>
              && head.Some? && r.value <= head.value + 1 && d.columns > 0 && d.partitions != map[]
              && Proves(log, r.value - 1, d.partitions, d.keyed)
              && forall v | r.value <= v <= head.value && CanBeRead(log, v) :: !Proves(log, v, d.partitions, d.keyed)
    ensures head.Some? && hasColumns && d.columns > 0 ==>
              forall u: nat | ProvesInReach(log, head.value, fallback, maxScan, maxProbes, d.partitions, d.keyed, u) ::
                r.Ok? && r.value > u
  {
    if d.columns == 0 || d.IsInert() || head.None? || !hasColumns {
      if d.partitions == map[] {
        NothingIsProved(log, d.partitions, d.keyed);
      }
      return Ok(fallback);
    }
    var probe := new Probe(maxProbes);
    var v: nat := head.value;
    var scanned: nat := 0;
    while scanned < maxScan && v >= fallback
      invariant v <= head.value && scanned == head.value - v
      invariant forall u | v < u <= head.value && CanBeRead(log, u) :: !Proves(log, u, d.partitions, d.keyed)
      invariant maxProbes <= probe.budget + FilesBetween(log, v + 1, head.value + 1)
      decreases v, maxScan - scanned
    {
      ReachIsUnbroken(log, head.value, fallback, maxScan, maxProbes, d.partitions, d.keyed, v);
      match log[v] {
        case Missing => return Ok(fallback);
        case Fault => return Err(Unit);
        case There(commit) =>
          if commit.MayProveCoverage() {
            var covered := CommitCoverage(commit.Data(), ts, columns, mb, probe, d.partitions, d.keyed);
            if covered.None? {
              return Ok(fallback);
            }
            if covered.value {
              return Ok(v + 1);
            }
          }
      }
      if v == 0 {
        return Ok(fallback);
      }
      v, scanned := v - 1, scanned + 1;
    }
    r := Ok(fallback);
  }

  lemma CoveredNeedsAMark(files: seq<File>, marks: Marks, keyed: bool)
    requires WhollyCovered(files, marks, keyed)
    ensures marks != map[]
  {
    WhollyCoveredRows(files, marks, keyed);
    var row := FileCoverage.RowsOf(files)[0];
    assert row in FileCoverage.RowsOf(files) && Covered(marks, row, keyed, false);
  }

  /** With no marks nothing is covered, so no version proves anything. */
  lemma NothingIsProved(log: seq<Entry>, marks: Marks, keyed: bool)
    requires marks == map[]
    ensures forall v :: !Proves(log, v, marks, keyed)
  {
    if v: nat :| Proves(log, v, marks, keyed) {
      CoveredNeedsAMark(log[v].commit.Data(), marks, keyed);
    }
  }

  /** A start the partitioned walk returns is at or before the rebuild's read point. */
  lemma PartitionedStartIsSound(log: seq<Entry>, form: Form, n: nat, marks: Marks, fallback: nat, r: nat)
    requires fallback <= r <= |log| && (r > fallback ==> Proves(log, r - 1, marks, form.keyed))
    requires var s := Flat(SourceFrom(log, fallback));
             Ordered(s, form) && n <= |s| && Describes(s[..n], form.keyed, marks)
    ensures StartOf(SourceFrom(log, fallback), r) <= n
  {
    var versions := SourceFrom(log, fallback);
    if r == fallback {
      NothingBefore(log, fallback, r);
    } else {
      WhollyCoveredRows(log[r - 1].commit.Data(), marks, form.keyed);
      assert versions[r - 1] == FileCoverage.RowsOf(log[r - 1].commit.Data());
      CoveredVersionIsBehind(versions, form, n, marks, r - 1);
    }
  }

  /**
    The bound and the window together: reading from the version the walk returned, and filtering
    while the window is open, leaves every source row in the target, and exactly once.
  */
  lemma RescanThenFilterIsExact(log: seq<Entry>, form: Form, n: nat, marks: Marks, fallback: nat, r: nat,
                                states: seq<Pipeline>, steps: seq<Step>, k: nat)
    requires fallback <= r <= |log| && (r > fallback ==> Proves(log, r - 1, marks, form.keyed))
    requires FromRebuild(SourceFrom(log, fallback), form, n, marks, r, states, steps) && 0 < k < |states|
    ensures EveryRowIsThere(SourceFrom(log, fallback), n, states, steps, k)
  {
    var versions := SourceFrom(log, fallback);
    ReadMarks(versions, form, n, marks, r, states, steps);
    PartitionedStartIsSound(log, form, n, marks, fallback, r);
    StartThenFilter(versions, form, n, marks, r, states, steps, k);
  }

  /** A run from a rebuild that read `n` rows, on a target with these marks, reading from version `r`. */
  ghost predicate FromRebuild(versions: seq<seq<Row>>, form: Form, n: nat, marks: Marks, r: nat, states: seq<Pipeline>, steps: seq<Step>)
    requires r <= |versions|
  {
    && Ordered(Flat(versions), form) && n <= |Flat(versions)| && Run(versions, form, states, steps)
    && states[0] == Pipeline(states[0].target, Cursor(r, StartOf(versions, r)), None, Never, None, None)
    && multiset(states[0].target) == multiset(Flat(versions)[..n]) && Describes(states[0].target, form.keyed, marks)
  }

  /**
    Once the source is read to its end, no row of it is missing, whatever heads the windows opened
    against; and where those are no older than the rebuild, each is there exactly once.
  */
  ghost predicate EveryRowIsThere(versions: seq<seq<Row>>, n: nat, states: seq<Pipeline>, steps: seq<Step>, k: nat)
    requires k < |states|
  {
    states[k].cursor.pos == |Flat(versions)| ==>
      && multiset(Flat(versions)) <= multiset(states[k].target)
      && (HeadsCover(versions, n, steps) ==> multiset(states[k].target) == multiset(Flat(versions)))
  }

  lemma ReadMarks(versions: seq<seq<Row>>, form: Form, n: nat, marks: Marks, r: nat, states: seq<Pipeline>, steps: seq<Step>)
    requires r <= |versions| && FromRebuild(versions, form, n, marks, r, states, steps)
    ensures Describes(Flat(versions)[..n], form.keyed, marks)
  {
    SameRows(states[0].target, Flat(versions)[..n]);
    SameRowsSameMarks(states[0].target, Flat(versions)[..n], form.keyed, marks);
  }

  lemma StartThenFilter(versions: seq<seq<Row>>, form: Form, n: nat, marks: Marks, r: nat, states: seq<Pipeline>, steps: seq<Step>, k: nat)
    requires r <= |versions| && FromRebuild(versions, form, n, marks, r, states, steps) && 0 < k < |states|
    requires StartOf(versions, r) <= n
    ensures EveryRowIsThere(versions, n, states, steps, k)
  {
    StartIsAPosition(versions, r);
    assert Rebuilt(versions, n, states[0].cursor.pos, states[0]);
    HandoverLosesNothing(versions, form, n, states, steps, k);
    if states[k].cursor.pos == |Flat(versions)| {
      NoRowIsMissing(versions, n, states[k]);
    }
    if HeadsCover(versions, n, steps) {
      HandoverIsExact(versions, form, n, states, steps, k);
    }
  }

  lemma StartIsAPosition(versions: seq<seq<Row>>, r: nat)
    requires r <= |versions|
    ensures At(versions, Cursor(r, StartOf(versions, r)))
  {
    if r < |versions| {
      StartsGrow(versions, r, r + 1);
    } else {
      assert versions[..r] == versions;
    }
  }

  // ------------------------------------------------------------------ the global form

  /** What a commit's maxima say: nothing to reason from, nothing added, below the watermark, or not. */
  datatype Says = CannotTell | NoData | BelowTheMark | NotBelow

  function MaxOf(f: File, ts: string, mark: Bound): Option<Bound> {
    match StatsOf(f)
    case None => None
    case Some(s) => StatAs(s.maxValues, ts, mark)
  }

  /** Every file's highest reading of its maximum is below the lowest reading of the watermark. */
  predicate AllBelow(files: seq<File>, ts: string, mark: Bound, slack: Slack) {
    forall i | 0 <= i < |files| ::
      MaxOf(files[i], ts, mark).Some? && Less(slack.Above(MaxOf(files[i], ts, mark).value), slack.Below(mark))
  }

  predicate HasUntold(files: seq<File>, ts: string, mark: Bound) {
    exists i | 0 <= i < |files| :: MaxOf(files[i], ts, mark).None?
  }

  function CommitSays(files: seq<File>, ts: string, mark: Bound, slack: Slack): Says {
    if HasUntold(files, ts, mark) then CannotTell
    else if files == [] then NoData
    else if AllBelow(files, ts, mark, slack) then BelowTheMark
    else NotBelow
  }

  /** The highest maximum of a commit, file by file. */
  method ReadCommit(files: seq<File>, ts: string, mark: Bound, slack: Slack) returns (says: Says)
    ensures says == CommitSays(files, ts, mark, slack)
  {
    var commitMax: Option<Bound> := None;
    var coveredTo := slack.Below(mark);
    for i := 0 to |files|
      invariant commitMax.Some? <==> i > 0
      invariant forall k | 0 <= k < i :: MaxOf(files[k], ts, mark).Some?
      invariant commitMax.Some? && Less(commitMax.value, coveredTo) ==>
                  forall k | 0 <= k < i :: Less(slack.Above(MaxOf(files[k], ts, mark).value), coveredTo)
      invariant commitMax.Some? ==>
                  exists k | 0 <= k < i :: slack.Above(MaxOf(files[k], ts, mark).value) == commitMax.value
    {
      var b := MaxOf(files[i], ts, mark);
      if b.None? {
        return CannotTell;
      }
      var above := slack.Above(b.value);
      if commitMax.Some? {
        NotAboveIsBelow(above, commitMax.value, coveredTo);
        LessIsTotal(above, commitMax.value);
        NotAboveIsBelow(commitMax.value, above, coveredTo);
      }
      commitMax := if commitMax.Some? && Less(above, commitMax.value) then commitMax else Some(above);
    }
    if commitMax.None? {
      return NoData;
    }
    says := if Less(commitMax.value, coveredTo) then BelowTheMark else NotBelow;
  }

  /** The walk as a function of where it is. */
  function WalkBack(log: seq<Entry>, ts: string, mark: Bound, slack: Slack, fallback: nat, left: nat, v: nat): Result<nat, Unit>
    requires v < |log|
    decreases v
  {
    if left == 0 || v < fallback then Ok(fallback)
    else
      match log[v]
      case Missing => Ok(fallback)
      case Fault => Err(Unit)
      case There(commit) =>
        match CommitSays(commit.Data(), ts, mark, slack)
        case CannotTell => Ok(fallback)
        case BelowTheMark => Ok(v + 1)
        case _ => if v == 0 then Ok(fallback) else WalkBack(log, ts, mark, slack, fallback, left - 1, v - 1)
  }

  /** The earliest version that can still hold rows beyond the watermark. */
  method BoundedRescanStart(log: seq<Entry>, head: Option<nat>, ts: string, mark: Option<Bound>, slack: Slack,
                            fallback: nat, maxScan: nat)
    returns (r: Result<nat, Unit>)
    requires head.Some? ==> head.value < |log|
    ensures r == if mark.None? || head.None? then Ok(fallback)
                 else WalkBack(log, ts, mark.value, slack, fallback, maxScan, head.value)
  {
    if mark.None? || head.None? {
      return Ok(fallback);
    }
    var v: nat := head.value;
    var scanned: nat := 0;
    while scanned < maxScan && v >= fallback
      invariant v < |log| && scanned <= maxScan
      invariant WalkBack(log, ts, mark.value, slack, fallback, maxScan, head.value) ==
                WalkBack(log, ts, mark.value, slack, fallback, maxScan - scanned, v)
      decreases v, maxScan - scanned
    {
      match log[v] {
        case Missing => return Ok(fallback);
        case Fault => return Err(Unit);
        case There(commit) =>
          var says := ReadCommit(commit.Data(), ts, mark.value, slack);
          match says {
            case CannotTell => return Ok(fallback);
            case BelowTheMark => return Ok(v + 1);
            case _ =>
          }
      }
      if v == 0 {
        return Ok(fallback);
      }
      v, scanned := v - 1, scanned + 1;
    }
    r := Ok(fallback);
  }

  /** Never below the fallback, and past it only where a commit's maxima are all below the watermark. */
  lemma {:induction false} WalkStopsWhereItMay(log: seq<Entry>, ts: string, mark: Bound, slack: Slack, fallback: nat, left: nat, v: nat)
    requires v < |log|
    ensures var r := WalkBack(log, ts, mark, slack, fallback, left, v);
            r.Ok? ==>
              && fallback <= r.value && (r.value > fallback ==> r.value <= v + 1)
              && (r.value > fallback ==>
                    && log[r.value - 1].There?
                    && CommitSays(log[r.value - 1].commit.Data(), ts, mark, slack).BelowTheMark?)
    decreases v
  {
    if left > 0 && v >= fallback && v > 0 && log[v].There? {
      WalkStopsWhereItMay(log, ts, mark, slack, fallback, left - 1, v - 1);
    }
  }

  /** A text maximum that was cut short, which plain `<` cannot see. */
  ghost predicate NotTruncated(f: File, ts: string, mark: Bound) {
    MaxOf(f, ts, mark).Some? && MaxOf(f, ts, mark).value.Text? ==>
      forall r | r in f.rows && r.ts.Some? :: !Less(MaxOf(f, ts, mark).value, r.ts.value)
  }

  lemma BelowTheMarkIsCovered(f: File, ts: string, mark: Bound, slack: Slack, at: Bound, keys: set<string>, keyed: bool)
    requires slack.Valid() && ReadsAs(slack, mark, at) && SameKind(mark, at)
    requires Truthful(f, ts, [], slack, mark) && NotTruncated(f, ts, mark)
    requires MaxOf(f, ts, mark).Some? && Less(slack.Above(MaxOf(f, ts, mark).value), slack.Below(mark))
    requires forall r | r in f.rows :: r.ts.Some?
    ensures AllCovered(f.rows, map[WHOLE := Mark(at, keys)], keyed)
  {
    var max := MaxOf(f, ts, mark).value;
    var v :| MayRecord(slack, max, v) && forall r | r in f.rows && r.ts.Some? :: !Less(v, r.ts.value);
    if max.Text? {
      LessIsTotal(max, max);
      MaxPlainlyBelowMark(slack, max, max, mark, at);
    } else {
      MaxPlainlyBelowMark(slack, max, v, mark, at);
    }
    forall r | r in f.rows ensures Covered(map[WHOLE := Mark(at, keys)], r, keyed, false) {
      assert r.parts == [] && PartOf(r) == Some(WHOLE);
      NotAboveIsBelow(r.ts.value, if max.Text? then max else v, at);
      LessIsTotal(r.ts.value, at);
    }
  }

  /** Files the global walk judges rightly: their statistics tell the truth, and no text was cut short. */
  ghost predicate JudgedRightly(f: File, ts: string, mark: Bound, slack: Slack) {
    Truthful(f, ts, [], slack, mark) && NotTruncated(f, ts, mark)
  }

  lemma BelowTheMarkAreCovered(files: seq<File>, ts: string, mark: Bound, slack: Slack, at: Bound, keys: set<string>, keyed: bool)
    requires CommitSays(files, ts, mark, slack).BelowTheMark?
    requires slack.Valid() && ReadsAs(slack, mark, at) && SameKind(mark, at)
    requires forall i | 0 <= i < |files| :: JudgedRightly(files[i], ts, mark, slack)
    requires forall row | row in FileCoverage.RowsOf(files) :: row.ts.Some?
    ensures AllCovered(FileCoverage.RowsOf(files), map[WHOLE := Mark(at, keys)], keyed)
  {
    forall row | row in FileCoverage.RowsOf(files) ensures Covered(map[WHOLE := Mark(at, keys)], row, keyed, false) {
      RowsOfAreTheirs(files, row);
      var i :| 0 <= i < |files| && row in files[i].rows;
      forall other | other in files[i].rows ensures other.ts.Some? {
        RowsOfAreTheirs(files, other);
      }
      assert JudgedRightly(files[i], ts, mark, slack);
      BelowTheMarkIsCovered(files[i], ts, mark, slack, at, keys, keyed);
    }
  }

  /** A plain append that holds a row, judged rightly: what the walk takes every commit below the watermark for. */
  ghost predicate IsWhatItLooksLike(e: Entry, ts: string, mark: Bound, slack: Slack) {
    && e.There? && e.commit.MayProveCoverage() && Delivered(e) != []
    && forall i | 0 <= i < |e.commit.Data()| :: JudgedRightly(e.commit.Data()[i], ts, mark, slack)
  }

  lemma StopIsCovered(e: Entry, ts: string, mark: Bound, slack: Slack, at: Bound, keys: set<string>, keyed: bool)
    requires IsWhatItLooksLike(e, ts, mark, slack) && CommitSays(e.commit.Data(), ts, mark, slack).BelowTheMark?
    requires slack.Valid() && ReadsAs(slack, mark, at) && SameKind(mark, at)
    requires forall row | row in Delivered(e) :: row.ts.Some?
    ensures AllCovered(Delivered(e), map[WHOLE := Mark(at, keys)], keyed)
  {
    BelowTheMarkAreCovered(e.commit.Data(), ts, mark, slack, at, keys, keyed);
  }

  /** Where it stops at what it takes the commit for, the global walk is sound. */
  lemma GlobalStartIsSound(log: seq<Entry>, n: nat, fallback: nat, r: nat, ts: string, mark: Bound, slack: Slack, at: Bound, keys: set<string>, keyed: bool)
    requires fallback < r <= |log| && IsWhatItLooksLike(log[r - 1], ts, mark, slack)
    requires CommitSays(log[r - 1].commit.Data(), ts, mark, slack).BelowTheMark?
    requires slack.Valid() && ReadsAs(slack, mark, at) && SameKind(mark, at)
    requires var s := Flat(SourceFrom(log, fallback));
             Ordered(s, Form(0, keyed)) && n <= |s| && Describes(s[..n], keyed, map[WHOLE := Mark(at, keys)])
    ensures StartOf(SourceFrom(log, fallback), r) <= n
  {
    var versions := SourceFrom(log, fallback);
    assert versions[r - 1] == Delivered(log[r - 1]);
    VersionIsPlaced(versions, Form(0, keyed), r - 1);
    StopIsCovered(log[r - 1], ts, mark, slack, at, keys, keyed);
    CoveredVersionIsBehind(versions, Form(0, keyed), n, map[WHOLE := Mark(at, keys)], r - 1);
  }

  lemma VersionIsPlaced(versions: seq<seq<Row>>, form: Form, v: nat)
    requires v < |versions| && Ordered(Flat(versions), form)
    ensures forall row: Row | row in versions[v] :: row.ts.Some?
  {
    VersionIsInside(versions, v);
    forall row: Row | row in versions[v] ensures row.ts.Some? {
      var i :| 0 <= i < |Flat(versions)| && Flat(versions)[i] == row;
    }
  }

  lemma VersionIsInside(versions: seq<seq<Row>>, v: nat)
    requires v < |versions|
    ensures forall r | r in versions[v] :: r in Flat(versions)
  {
    FlatOfOneMore(versions, v);
    StartsGrow(versions, v + 1, v + 1);
  }

  // ------------------------------------------------------------------ when the global form is sound

  /** A commit the walk goes past: it can be read, and is not below the watermark. */
  predicate GoesPast(e: Entry, ts: string, mark: Bound, slack: Slack) {
    e.There? && CommitSays(e.commit.Data(), ts, mark, slack) in {NoData, NotBelow}
  }

  /** The walk from `v` stops at `u`: the newest commit it cannot go past, in reach, and below the watermark. */
  predicate StopsAt(log: seq<Entry>, ts: string, mark: Bound, slack: Slack, fallback: nat, left: nat, v: nat, u: nat)
    requires v < |log|
  {
    && fallback <= u <= v && v - u < left
    && log[u].There? && CommitSays(log[u].commit.Data(), ts, mark, slack).BelowTheMark?
    && forall w | u < w <= v :: GoesPast(log[w], ts, mark, slack)
  }

  /** Going past `v`, the walk stops where it does from below. */
  lemma StopsFurtherBack(log: seq<Entry>, ts: string, mark: Bound, slack: Slack, fallback: nat, left: nat, v: nat, u: nat)
    requires 0 < v < |log| && left > 0 && GoesPast(log[v], ts, mark, slack)
    ensures StopsAt(log, ts, mark, slack, fallback, left, v, u) <==> StopsAt(log, ts, mark, slack, fallback, left - 1, v - 1, u)
  {
    assert u == v ==> !StopsAt(log, ts, mark, slack, fallback, left, v, u);
  }

  /** The walk's answer past the fallback is the version after the one it stops at, and only that. */
  lemma {:induction false} WalkAnswersIff(log: seq<Entry>, ts: string, mark: Bound, slack: Slack, fallback: nat, left: nat, v: nat, u: nat)
    requires v < |log| && u >= fallback
    ensures WalkBack(log, ts, mark, slack, fallback, left, v) == Ok(u + 1) <==> StopsAt(log, ts, mark, slack, fallback, left, v, u)
    decreases v
  {
    if left == 0 || v < fallback {
    } else if GoesPast(log[v], ts, mark, slack) {
      if v > 0 {
        StopsFurtherBack(log, ts, mark, slack, fallback, left, v, u);
        WalkAnswersIff(log, ts, mark, slack, fallback, left - 1, v - 1, u);
      }
    } else {
      StopsHereOrNowhere(log, ts, mark, slack, fallback, left, v, u);
    }
  }

  lemma StopsHereOrNowhere(log: seq<Entry>, ts: string, mark: Bound, slack: Slack, fallback: nat, left: nat, v: nat, u: nat)
    requires v < |log| && left > 0 && v >= fallback && !GoesPast(log[v], ts, mark, slack)
    ensures StopsAt(log, ts, mark, slack, fallback, left, v, u) <==>
              u == v && log[v].There? && CommitSays(log[v].commit.Data(), ts, mark, slack).BelowTheMark?
  {
    assert u < v ==> !StopsAt(log, ts, mark, slack, fallback, left, v, u);
  }

  /** Every row that plain appends of versions `first..end` delivered is one the filter would drop. */
  ghost predicate AppendsAreCovered(log: seq<Entry>, first: nat, end: nat, marks: Marks, keyed: bool)
    requires end <= |log|
  {
    forall w | first <= w < end :: RowsAreCovered(Delivered(log[w]), marks, keyed)
  }

  ghost predicate RowsAreCovered(rows: seq<Row>, marks: Marks, keyed: bool) {
    forall row | row in rows :: Covered(marks, row, keyed, true)
  }

  lemma {:induction false} RowsBefore(log: seq<Entry>, fallback: nat, r: nat, row: Row)
    requires r <= |log|
    ensures row in Flat(SourceFrom(log, fallback)[..r]) <==> exists w | fallback <= w < r :: row in Delivered(log[w])
  {
    if r > 0 {
      FlatOfOneMore(SourceFrom(log, fallback), r - 1);
      RowsBefore(log, fallback, r - 1, row);
    }
  }

  /** The rows before a start are those the appends before it delivered. */
  lemma AppendsAreTheRowsBefore(log: seq<Entry>, fallback: nat, r: nat, marks: Marks, keyed: bool)
    requires r <= |log|
    ensures AppendsAreCovered(log, fallback, r, marks, keyed) <==> RowsAreCovered(Flat(SourceFrom(log, fallback)[..r]), marks, keyed)
  {
    var before := Flat(SourceFrom(log, fallback)[..r]);
    if AppendsAreCovered(log, fallback, r, marks, keyed) {
      forall row | row in before ensures Covered(marks, row, keyed, true) {
        RowsBefore(log, fallback, r, row);
        var w :| fallback <= w < r && row in Delivered(log[w]);
        assert RowsAreCovered(Delivered(log[w]), marks, keyed);
      }
    }
    if RowsAreCovered(before, marks, keyed) {
      forall w | fallback <= w < r ensures RowsAreCovered(Delivered(log[w]), marks, keyed) {
        forall row | row in Delivered(log[w]) ensures Covered(marks, row, keyed, true) {
          RowsBefore(log, fallback, r, row);
        }
      }
    }
  }

  lemma PrefixIsCoveredIff(s: seq<Row>, n: nat, marks: Marks, keyed: bool, k: nat)
    requires CoverTheFirst(s, keyed, n, marks) && k <= |s|
    ensures k <= n <==> RowsAreCovered(s[..k], marks, keyed)
  {
    if k <= n {
      forall row | row in s[..k] ensures Covered(marks, row, keyed, true) {
        var i :| 0 <= i < k && s[i] == row;
      }
    } else {
      assert s[..k][k - 1] == s[k - 1] && s[k - 1] in s[..k];
    }
  }

  /**
    When the global walk is sound, of whatever log it walks: its answer `r` loses nothing if and only
    if it fell back, or no plain append up to the commit it stopped at holds a row the watermark and
    its keys do not cover.
  */
  lemma WalkIsSoundIff(log: seq<Entry>, n: nat, fallback: nat, left: nat, head: nat, r: nat, ts: string, mark: Bound, slack: Slack, marks: Marks, keyed: bool)
    requires head < |log| && fallback <= |log| && WalkBack(log, ts, mark, slack, fallback, left, head) == Ok(r)
    requires var s := Flat(SourceFrom(log, fallback));
             Ordered(s, Form(0, keyed)) && n <= |s| && Describes(s[..n], keyed, marks)
    ensures fallback <= r <= |log|
    ensures StartOf(SourceFrom(log, fallback), r) <= n <==>
              || r == fallback
              || forall u: nat | StopsAt(log, ts, mark, slack, fallback, left, head, u) :: AppendsAreCovered(log, fallback, u + 1, marks, keyed)
  {
    var versions := SourceFrom(log, fallback);
    WalkStopsWhereItMay(log, ts, mark, slack, fallback, left, head);
    if r == fallback {
      NothingBefore(log, fallback, r);
    } else {
      WalkAnswersIff(log, ts, mark, slack, fallback, left, head, r - 1);
      OnlyOneStop(log, ts, mark, slack, fallback, left, head, r - 1);
      StartIsCoveredIff(log, n, fallback, r, marks, keyed);
    }
  }

  lemma OnlyOneStop(log: seq<Entry>, ts: string, mark: Bound, slack: Slack, fallback: nat, left: nat, head: nat, u: nat)
    requires head < |log| && StopsAt(log, ts, mark, slack, fallback, left, head, u)
    ensures forall other: nat | StopsAt(log, ts, mark, slack, fallback, left, head, other) :: other == u
  {
    forall other: nat | StopsAt(log, ts, mark, slack, fallback, left, head, other) ensures other == u {
      WalkAnswersIff(log, ts, mark, slack, fallback, left, head, u);
      WalkAnswersIff(log, ts, mark, slack, fallback, left, head, other);
    }
  }

  lemma StartIsCoveredIff(log: seq<Entry>, n: nat, fallback: nat, r: nat, marks: Marks, keyed: bool)
    requires r <= |log|
    requires var s := Flat(SourceFrom(log, fallback));
             Ordered(s, Form(0, keyed)) && n <= |s| && Describes(s[..n], keyed, marks)
    ensures StartOf(SourceFrom(log, fallback), r) <= n <==> AppendsAreCovered(log, fallback, r, marks, keyed)
  {
    var versions := SourceFrom(log, fallback);
    var s := Flat(versions);
    MarksCoverTheFirst(s, Form(0, keyed), n, marks);
    StartsGrow(versions, r, r);
    PrefixIsCoveredIff(s, n, marks, keyed, StartOf(versions, r));
    assert s[..StartOf(versions, r)] == Flat(versions[..r]);
    AppendsAreTheRowsBefore(log, fallback, r, marks, keyed);
  }

  /** From `fallback` to the head, every commit below the watermark is what it looks like. */
  ghost predicate LogIsPlain(log: seq<Entry>, ts: string, mark: Bound, slack: Slack, fallback: nat, head: nat)
    requires head < |log|
  {
    forall u | fallback <= u <= head && log[u].There? && CommitSays(log[u].commit.Data(), ts, mark, slack).BelowTheMark? ::
      IsWhatItLooksLike(log[u], ts, mark, slack)
  }

  /**
    So on a log whose every commit below the watermark is a plain append, holding a row, with no
    text maximum cut short, the global walk's answer is sound wherever it stops.
  */
  lemma WalkIsSoundOnAPlainLog(log: seq<Entry>, n: nat, fallback: nat, left: nat, head: nat, r: nat, ts: string, mark: Bound, slack: Slack,
                               at: Bound, keys: set<string>, keyed: bool)
    requires head < |log| && fallback <= |log| && WalkBack(log, ts, mark, slack, fallback, left, head) == Ok(r)
    requires LogIsPlain(log, ts, mark, slack, fallback, head)
    requires slack.Valid() && ReadsAs(slack, mark, at) && SameKind(mark, at)
    requires var s := Flat(SourceFrom(log, fallback));
             Ordered(s, Form(0, keyed)) && n <= |s| && Describes(s[..n], keyed, map[WHOLE := Mark(at, keys)])
    ensures fallback <= r <= |log| && StartOf(SourceFrom(log, fallback), r) <= n
  {
    WalkStopsWhereItMay(log, ts, mark, slack, fallback, left, head);
    if r == fallback {
      NothingBefore(log, fallback, r);
    } else {
      GlobalStartIsSound(log, n, fallback, r, ts, mark, slack, at, keys, keyed);
    }
  }

  /** The global bound and the window together, on such a log: every source row is there, once. */
  lemma GlobalRescanThenFilterIsExact(log: seq<Entry>, n: nat, fallback: nat, left: nat, head: nat, r: nat, ts: string, mark: Bound, slack: Slack,
                                      at: Bound, keys: set<string>, keyed: bool, states: seq<Pipeline>, steps: seq<Step>, k: nat)
    requires head < |log| && fallback <= |log| && WalkBack(log, ts, mark, slack, fallback, left, head) == Ok(r) && r <= |log|
    requires LogIsPlain(log, ts, mark, slack, fallback, head)
    requires slack.Valid() && ReadsAs(slack, mark, at) && SameKind(mark, at)
    requires FromRebuild(SourceFrom(log, fallback), Form(0, keyed), n, map[WHOLE := Mark(at, keys)], r, states, steps) && 0 < k < |states|
    ensures EveryRowIsThere(SourceFrom(log, fallback), n, states, steps, k)
  {
    var (versions, marks) := (SourceFrom(log, fallback), map[WHOLE := Mark(at, keys)]);
    ReadMarks(versions, Form(0, keyed), n, marks, r, states, steps);
    WalkIsSoundOnAPlainLog(log, n, fallback, left, head, r, ts, mark, slack, at, keys, keyed);
    StartThenFilter(versions, Form(0, keyed), n, marks, r, states, steps, k);
  }

  // ------------------------------------------------------------------ where the global form loses rows

  function RowAt(ts: Bound, key: string): Row {
    Row(Some(ts), [], Some(key))
  }

  function FileOf(rows: seq<Row>, max: Stat): File {
    File(true, Some(Some(Stats(Some(|rows|), map[], map[], map["ts" := max]))), map[], rows, true)
  }

  function CommitOf(f: File, removesData: bool): Entry {
    There(SourceCommit([f], removesData, false))
  }

  lemma CommitOfIs(rows: seq<Row>, max: Stat, removesData: bool, mark: Bound)
    requires BoundOfStat(max, mark).Some?
    ensures var e := CommitOf(FileOf(rows, max), removesData);
            && e.commit.Data() == [FileOf(rows, max)]
            && Delivered(e) == (if removesData then [] else rows)
            && (CommitSays(e.commit.Data(), "ts", mark, NoSlack) ==
                if Less(BoundOfStat(max, mark).value, mark) then BelowTheMark else NotBelow)
  {
    var f := FileOf(rows, max);
    assert [f][1..] == [] && DataFiles([f]) == [f];
    assert FileCoverage.RowsOf([f]) == rows + [];
    assert MaxOf([f][0], "ts", mark) == BoundOfStat(max, mark);
  }

  lemma MarkOfOne(r: Row)
    requires r.ts.Some? && r.parts == [] && r.key.Some?
    ensures Describes([r], true, map[WHOLE := Mark(r.ts.value, {r.key.value})])
  {
    var none: Marks := map[];
    assert Describes([], true, none);
    FirstOfItsPartition([], true, none, r, WHOLE);
    assert [] + [r] == [r];
    assert none[WHOLE := Mark(r.ts.value, {r.key.value})] == map[WHOLE := Mark(r.ts.value, {r.key.value})];
  }

  /**
    A truncated text maximum. The rebuild read "bb"; "bc" was appended after it, and its statistics
    give the maximum as "b". The walk takes that for below the watermark and starts past "bc".
  */
  lemma TruncatedTextLosesARow()
    ensures var (bb, bc) := (RowAt(Text("bb"), "k"), RowAt(Text("bc"), "k"));
            var log := [CommitOf(FileOf([bb], Word("bb", None)), false), CommitOf(FileOf([bc], Word("b", None)), false)];
            && MayRecord(NoSlack, Text("b"), bc.ts.value)
            && Describes([bb], true, map[WHOLE := Mark(Text("bb"), {"k"})])
            && WalkBack(log, "ts", Text("bb"), NoSlack, 0, 2, 1) == Ok(2)
            && Delivered(log[0]) + Delivered(log[1]) == [bb, bc]
  {
    var (bb, bc) := (RowAt(Text("bb"), "k"), RowAt(Text("bc"), "k"));
    assert "bc"[..1] == "b" && "bb"[1..] == "b" && "b"[1..] == "";
    assert TextLess("", "b") && Less(Text("b"), Text("bb"));
    CommitOfIs([bb], Word("bb", None), false, Text("bb"));
    CommitOfIs([bc], Word("b", None), false, Text("bb"));
    MarkOfOne(bb);
  }

  /**
    A change commit. The rebuild read a row at 2; one at 3 was appended; then a DELETE rewrote
    an old file, whose rows are all below 2. The walk stops at the rewrite and starts past the row at 3.
  */
  lemma RewriteLosesARow()
    ensures var (one, two, three) := (RowAt(Int(1), "a"), RowAt(Int(2), "b"), RowAt(Int(3), "c"));
            var log := [CommitOf(FileOf([two], Whole(2)), false), CommitOf(FileOf([three], Whole(3)), false),
                        CommitOf(FileOf([one], Whole(1)), true)];
            && Describes([two], true, map[WHOLE := Mark(Int(2), {"b"})])
            && WalkBack(log, "ts", Int(2), NoSlack, 0, 3, 2) == Ok(3)
            && Delivered(log[0]) + Delivered(log[1]) + Delivered(log[2]) == [two, three]
  {
    CommitOfIs([RowAt(Int(1), "a")], Whole(1), true, Int(2));
    CommitOfIs([RowAt(Int(2), "b")], Whole(2), false, Int(2));
    CommitOfIs([RowAt(Int(3), "c")], Whole(3), false, Int(2));
    MarkOfOne(RowAt(Int(2), "b"));
  }
}
