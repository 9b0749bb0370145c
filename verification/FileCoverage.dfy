/**
  What a source file's statistics say of whether its rows are covered, and what its rows say when
  they do not settle it (src/dedup.rs).
*/
module FileCoverage {
  import opened Basics
  import opened Bounds
  import opened PartitionKey
  import opened Watermark
  import opened Coverage

  // ------------------------------------------------------------------ statistics

  /** A value in a file's statistics; `micros` is the instant a text spells, if it spells one. */
  datatype Stat = Whole(n: int) | Fraction(x: real) | Word(s: string, micros: Option<int>) | OtherStat

  datatype Stats = Stats(
    numRecords: Option<nat>,
    nullCount: map<string, nat>,
    minValues: map<string, Stat>,
    maxValues: map<string, Stat>)

  /** A data file of the source's log: its statistics are absent, unreadable or there. */
  datatype File = File(
    dataChange: bool,
    stats: Option<Option<Stats>>,
    partitionValues: map<string, Option<string>>,
    rows: seq<Row>,
    readable: bool)

  const U64_MAX: int := 0xFFFF_FFFF_FFFF_FFFF

  /** A statistic in the same shape as `like`. */
  function BoundOfStat(stat: Stat, like: Bound): Option<Bound> {
    match like
    case Int(_) =>
      if stat.Whole? && IsI64(stat.n) then Some(Int(stat.n))
      else if stat.Word? && stat.micros.Some? then Some(Int(stat.micros.value))
      else None
    case Float(_) =>
      if stat.Whole? then Some(Float(stat.n as real)) else if stat.Fraction? then Some(Float(stat.x)) else None
    case Text(_) => if stat.Word? then Some(Text(stat.s)) else None
  }

  /** An integer statistic, of either sign of 64 bits, as the text its column casts to. */
  function IntegerText(stat: Stat): Option<string> {
    if stat.Whole? && I64_MIN <= stat.n <= U64_MAX then Some(IntText(stat.n)) else None
  }

  function Find<V>(m: map<string, V>, c: string): Option<V> {
    if c in m then Some(m[c]) else None
  }

  // ------------------------------------------------------------------ marks as bounds

  /** The marks as bounds, and the highest of them when every mark has one. */
  datatype MarkBounds = MarkBounds(bounds: map<string, Option<Bound>>, highest: Option<Bound>, slack: Slack)

  ghost predicate BoundsTheMarks(mb: MarkBounds, marks: Marks) {
    && mb.slack.Valid() && mb.bounds.Keys == marks.Keys
    && (forall p | p in marks && mb.bounds[p].Some? :: ReadsAs(mb.slack, mb.bounds[p].value, marks[p].at))
    && IsHighest(mb.highest, mb.bounds)
  }

  /** The highest of the bounds; none when there are no bounds, or a mark has none. */
  ghost predicate IsHighest(highest: Option<Bound>, bounds: map<string, Option<Bound>>) {
    && (highest.Some? <==> bounds != map[] && forall p | p in bounds :: bounds[p].Some?)
    && (highest.Some? ==>
          && (exists p :: p in bounds && bounds[p] == highest)
          && forall p | p in bounds :: !Less(highest.value, bounds[p].value))
  }

  method HighestOf(bounds: map<string, Option<Bound>>) returns (highest: Option<Bound>)
    ensures IsHighest(highest, bounds)
  {
    var todo := bounds.Keys;
    highest := None;
    ghost var done: set<string> := {};
    while todo != {}
      invariant done + todo == bounds.Keys && done !! todo
      invariant highest.Some? <==> done != {}
      invariant forall p | p in done :: bounds[p].Some? && !Less(highest.value, bounds[p].value)
      invariant highest.Some? ==> exists p :: p in done && bounds[p] == highest
      decreases todo
    {
      var p := Any(todo);
      if bounds[p].None? {
        return None;
      }
      var b := bounds[p].value;
      LessIsTotal(b, b);
      if highest.None? || Less(highest.value, b) {
        forall q | q in done ensures !Less(b, bounds[q].value) {
          NotAboveIsBelow(bounds[q].value, highest.value, b);
          LessIsTotal(b, bounds[q].value);
        }
        highest := Some(b);
      }
      done, todo := done + {p}, todo - {p};
      assert p in done && !Less(highest.value, b);
    }
    assert done == bounds.Keys;
    assert bounds != map[] <==> done != {};
  }

  // ------------------------------------------------------------------ one file's statistics

  datatype Verdict = CoveredFile(rows: nat) | UncoveredFile | UnknownFile

  /** What statistics know of one partition column of a file. */
  datatype Known = Value(v: string) | Null | Unclear

  function PartitionValue(stats: Stats, partitionValues: map<string, Option<string>>, c: string): Known {
    if c in partitionValues then (if partitionValues[c].Some? then Value(partitionValues[c].value) else Null)
    else
      match Find(stats.nullCount, c)
      case None => Unclear
      case Some(nulls) =>
        if nulls > 0 then Null
        else if c in stats.minValues && c in stats.maxValues then
          match (IntegerText(stats.minValues[c]), IntegerText(stats.maxValues[c]))
          case (Some(lo), Some(hi)) => if lo == hi then Value(lo) else Unclear
          case _ => Unclear
        else Unclear
  }

  /** The file's one partition: its values where every column has one. */
  datatype Parts = Exactly(values: seq<string>) | SeveralOrUnclear | HasNullPart

  function FileParts(stats: Stats, partitionValues: map<string, Option<string>>, columns: seq<string>): Parts {
    if exists k | 0 <= k < |columns| :: PartitionValue(stats, partitionValues, columns[k]).Null? then HasNullPart
    else if exists k | 0 <= k < |columns| :: PartitionValue(stats, partitionValues, columns[k]).Unclear? then SeveralOrUnclear
    else Exactly(seq(|columns|, k requires 0 <= k < |columns| && PartitionValue(stats, partitionValues, columns[k]).Value?
                                  => PartitionValue(stats, partitionValues, columns[k]).v))
  }

  function StatAs(values: map<string, Stat>, c: string, like: Bound): Option<Bound> {
    if c in values then BoundOfStat(values[c], like) else None
  }

  /** A file that mixes partitions, or may: above the highest mark of all, or no telling. */
  function MixedVerdict(stats: Stats, ts: string, mb: MarkBounds): Verdict {
    if mb.highest.None? then UnknownFile
    else
      match StatAs(stats.minValues, ts, mb.highest.value)
      case Some(min) => if ProvablyBelow(mb.highest.value, mb.slack.Below(min)) then UncoveredFile else UnknownFile
      case None => UnknownFile
  }

  /** A file of one partition, against that partition's mark. */
  function OneMarkVerdict(stats: Stats, ts: string, mark: Bound, slack: Slack, rows: nat): Verdict {
    match Find(stats.nullCount, ts)
    case None => UnknownFile
    case Some(nulls) =>
      if nulls > 0 then UncoveredFile
      else
        var (max, min) := (StatAs(stats.maxValues, ts, mark), StatAs(stats.minValues, ts, mark));
        if max.Some? && ProvablyBelow(slack.Above(max.value), mark) then CoveredFile(rows)
        else if min.Some? && ProvablyBelow(mark, slack.Below(min.value)) then UncoveredFile
        else UnknownFile
  }

  function FileCoverageFromStats(stats: Option<Stats>, partitionValues: map<string, Option<string>>, ts: string,
                                 columns: seq<string>, mb: MarkBounds): Verdict
  {
    if stats.None? || stats.value.numRecords.None? then UnknownFile
    else
      var (s, rows) := (stats.value, stats.value.numRecords.value);
      if rows == 0 then CoveredFile(0)
      else
        match FileParts(s, partitionValues, columns)
        case HasNullPart => UncoveredFile
        case SeveralOrUnclear => MixedVerdict(s, ts, mb)
        case Exactly(values) =>
          var p := PartitionText(values);
          if p !in mb.bounds then UncoveredFile
          else if mb.bounds[p].None? then UnknownFile
          else OneMarkVerdict(s, ts, mb.bounds[p].value, mb.slack, rows)
  }

  // ------------------------------------------------------------------ statistics that tell the truth

  predicate SameKind(a: Bound, b: Bound) {
    (a.Int? <==> b.Int?) && (a.Float? <==> b.Float?)
  }

  /** Every row has a value for each partition column, if only null, and timestamps of one type. */
  predicate WellTyped(rows: seq<Row>, columns: nat, like: Bound) {
    forall r | r in rows :: |r.parts| == columns && (r.ts.Some? ==> SameKind(like, r.ts.value))
  }

  /** Statistics and log agree with the rows on partition column `k`, named `c`. */
  ghost predicate TrueOfPart(f: File, s: Stats, c: string, k: nat)
    requires forall r | r in f.rows :: k < |r.parts|
  {
    if c in f.partitionValues then forall r | r in f.rows :: r.parts[k] == f.partitionValues[c]
    else
      && (c in s.nullCount && s.nullCount[c] > 0 ==> exists r :: r in f.rows && r.parts[k].None?)
      && (c in s.nullCount && s.nullCount[c] == 0 ==> forall r | r in f.rows :: r.parts[k].Some?)
      && (c in s.minValues && s.minValues[c].Whole? && c in s.maxValues && s.maxValues[c].Whole? ==>
            forall r | r in f.rows && r.parts[k].Some? ::
              exists n :: s.minValues[c].n <= n <= s.maxValues[c].n && r.parts[k].value == IntText(n))
  }

  /** The recorded maximum may stand for one no row exceeds. */
  ghost predicate TrueMax(rows: seq<Row>, slack: Slack, stat: Bound) {
    exists v :: MayRecord(slack, stat, v) && forall r | r in rows && r.ts.Some? :: !Less(v, r.ts.value)
  }

  ghost predicate TrueMin(rows: seq<Row>, slack: Slack, stat: Bound) {
    exists v :: MayRecord(slack, stat, v) && forall r | r in rows && r.ts.Some? :: !Less(r.ts.value, v)
  }

  /** Statistics that soundly describe the file: counts exact, extremes allowing for the slack. */
  ghost predicate Truthful(f: File, ts: string, columns: seq<string>, slack: Slack, like: Bound) {
    && WellTyped(f.rows, |columns|, like)
    && (f.stats.Some? && f.stats.value.Some? ==>
          var s := f.stats.value.value;
          && (s.numRecords.Some? ==> s.numRecords.value == |f.rows|)
          && (forall k | 0 <= k < |columns| :: TrueOfPart(f, s, columns[k], k))
          && (ts in s.nullCount && s.nullCount[ts] > 0 ==> exists r :: r in f.rows && r.ts.None?)
          && (ts in s.nullCount && s.nullCount[ts] == 0 ==> forall r | r in f.rows :: r.ts.Some?)
          && (StatAs(s.maxValues, ts, like).Some? ==> TrueMax(f.rows, slack, StatAs(s.maxValues, ts, like).value))
          && (StatAs(s.minValues, ts, like).Some? ==> TrueMin(f.rows, slack, StatAs(s.minValues, ts, like).value)))
  }

  function StatsOf(f: File): Option<Stats> {
    if f.stats.Some? then f.stats.value else None
  }

  function VerdictOf(f: File, ts: string, columns: seq<string>, mb: MarkBounds): Verdict {
    FileCoverageFromStats(StatsOf(f), f.partitionValues, ts, columns, mb)
  }

  /** A column's text is its value: what statistics know of a partition column, every row has. */
  lemma PartitionValueIsTrue(f: File, s: Stats, c: string, k: nat)
    requires (forall r | r in f.rows :: k < |r.parts|) && TrueOfPart(f, s, c, k) && f.rows != []
    ensures var known := PartitionValue(s, f.partitionValues, c);
            && (known.Value? ==> forall r | r in f.rows :: r.parts[k] == Some(known.v))
            && (known.Null? ==> exists r :: r in f.rows && r.parts[k].None?)
  {
    var known := PartitionValue(s, f.partitionValues, c);
    if known.Null? && c in f.partitionValues {
      assert f.rows[0] in f.rows;
    }
    if known.Value? && c !in f.partitionValues {
      var (lo, hi) := (s.minValues[c].n, s.maxValues[c].n);
      IntTextInjective(lo, hi);
      forall r | r in f.rows ensures r.parts[k] == Some(known.v) {
        var n :| lo <= n <= hi && r.parts[k].value == IntText(n);
        assert n == lo;
      }
    }
  }

  lemma FilePartsAreTrue(f: File, s: Stats, columns: seq<string>)
    requires (forall r | r in f.rows :: |r.parts| == |columns|) && f.rows != []
    requires forall k | 0 <= k < |columns| :: TrueOfPart(f, s, columns[k], k)
    ensures var parts := FileParts(s, f.partitionValues, columns);
            && (parts.Exactly? ==> forall r | r in f.rows :: PartOf(r) == Some(PartitionText(parts.values)))
            && (parts.HasNullPart? ==> exists r :: r in f.rows && PartOf(r).None?)
  {
    var parts := FileParts(s, f.partitionValues, columns);
    forall k | 0 <= k < |columns|
      ensures parts.Exactly? ==> forall r | r in f.rows :: r.parts[k] == Some(parts.values[k])
    {
      PartitionValueIsTrue(f, s, columns[k], k);
    }
    if parts.HasNullPart? {
      var k :| 0 <= k < |columns| && PartitionValue(s, f.partitionValues, columns[k]).Null?;
      PartitionValueIsTrue(f, s, columns[k], k);
      var r :| r in f.rows && r.parts[k].None?;
      assert PartOf(r).None?;
    }
    if parts.Exactly? {
      forall r | r in f.rows ensures PartOf(r) == Some(PartitionText(parts.values)) {
        assert forall k | 0 <= k < |columns| :: r.parts[k] == Some(parts.values[k]);
        assert seq(|r.parts|, c requires 0 <= c < |r.parts| && r.parts[c].Some? => r.parts[c].value) == parts.values;
      }
    }
  }

  /** Some row the filter would not drop. */
  ghost predicate HoldsUncovered(rows: seq<Row>, marks: Marks, keyed: bool) {
    exists r :: r in rows && !Covered(marks, r, keyed, true)
  }

  ghost predicate AllCovered(rows: seq<Row>, marks: Marks, keyed: bool) {
    forall r | r in rows :: Covered(marks, r, keyed, false)
  }

  lemma AboveItsMarkIsUncovered(marks: Marks, keyed: bool, r: Row)
    requires r.ts.None? || PartOf(r).None? || PartOf(r).value !in marks || Less(marks[PartOf(r).value].at, r.ts.value)
    ensures !Covered(marks, r, keyed, true)
  {
  }

  lemma MixedVerdictIsTrue(f: File, s: Stats, ts: string, columns: seq<string>, mb: MarkBounds, marks: Marks, keyed: bool)
    requires f.stats == Some(Some(s)) && f.rows != [] && BoundsTheMarks(mb, marks)
    requires mb.highest.Some? ==> Truthful(f, ts, columns, mb.slack, mb.highest.value)
    ensures MixedVerdict(s, ts, mb).UncoveredFile? ==> HoldsUncovered(f.rows, marks, keyed)
    ensures !MixedVerdict(s, ts, mb).CoveredFile?
  {
    if MixedVerdict(s, ts, mb).UncoveredFile? {
      var (highest, min) := (mb.highest.value, StatAs(s.minValues, ts, mb.highest.value).value);
      var r := f.rows[0];
      if r.ts.Some? && PartOf(r).Some? && PartOf(r).value in marks {
        var p := PartOf(r).value;
        var v :| MayRecord(mb.slack, min, v) && forall r | r in f.rows && r.ts.Some? :: !Less(r.ts.value, v);
        var bound := mb.bounds[p].value;
        NotAboveIsBelow(bound, highest, mb.slack.Below(min));
        MinAboveMark(mb.slack, min, v, bound, marks[p].at);
        NotAboveIsBelow(marks[p].at, v, r.ts.value);
      }
      AboveItsMarkIsUncovered(marks, keyed, r);
    }
  }

  lemma OneMarkVerdictIsTrue(f: File, s: Stats, ts: string, columns: seq<string>, p: string, mb: MarkBounds, marks: Marks, keyed: bool)
    requires f.stats == Some(Some(s)) && f.rows != [] && BoundsTheMarks(mb, marks)
    requires p in marks && mb.bounds[p].Some? && forall r | r in f.rows :: PartOf(r) == Some(p)
    requires Truthful(f, ts, columns, mb.slack, mb.bounds[p].value)
    ensures var v := OneMarkVerdict(s, ts, mb.bounds[p].value, mb.slack, |f.rows|);
            && (v.CoveredFile? ==> v.rows == |f.rows| && AllCovered(f.rows, marks, keyed))
            && (v.UncoveredFile? ==> HoldsUncovered(f.rows, marks, keyed))
  {
    var (bound, mark) := (mb.bounds[p].value, marks[p].at);
    var verdict := OneMarkVerdict(s, ts, bound, mb.slack, |f.rows|);
    if verdict.CoveredFile? {
      var max := StatAs(s.maxValues, ts, bound).value;
      var v :| MayRecord(mb.slack, max, v) && forall r | r in f.rows && r.ts.Some? :: !Less(v, r.ts.value);
      MaxBelowMark(mb.slack, max, v, bound, mark);
      forall r | r in f.rows ensures Covered(marks, r, keyed, false) {
        NotAboveIsBelow(r.ts.value, v, mark);
        LessIsTotal(r.ts.value, mark);
      }
    } else if verdict.UncoveredFile? && s.nullCount[ts] == 0 {
      var min := StatAs(s.minValues, ts, bound).value;
      var v :| MayRecord(mb.slack, min, v) && forall r | r in f.rows && r.ts.Some? :: !Less(r.ts.value, v);
      ProvablyBelowIsLess(bound, mb.slack.Below(min));
      MinAboveMark(mb.slack, min, v, bound, mark);
      assert f.rows[0] in f.rows;
      NotAboveIsBelow(mark, v, f.rows[0].ts.value);
      AboveItsMarkIsUncovered(marks, keyed, f.rows[0]);
    } else if verdict.UncoveredFile? {
      var r :| r in f.rows && r.ts.None?;
      AboveItsMarkIsUncovered(marks, keyed, r);
    }
  }

  /** The file is described truthfully in the shape of every mark it may be compared with. */
  ghost predicate TruthfulFor(f: File, ts: string, columns: seq<string>, mb: MarkBounds) {
    && (forall r | r in f.rows :: |r.parts| == |columns|)
    && (forall p | p in mb.bounds && mb.bounds[p].Some? :: Truthful(f, ts, columns, mb.slack, mb.bounds[p].value))
    && (mb.highest.Some? ==> Truthful(f, ts, columns, mb.slack, mb.highest.value))
    && (StatsOf(f).Some? ==>
          var s := StatsOf(f).value;
          && (s.numRecords.Some? ==> s.numRecords.value == |f.rows|)
          && forall k | 0 <= k < |columns| :: TrueOfPart(f, s, columns[k], k))
  }

  /**
    Statistics verdicts agree with rows: Covered means every row is covered by its own
    partition's mark, even with ties not taken for covered; Uncovered means some row is not, even
    with ties taken for covered.
  */
  lemma VerdictsAgreeWithRows(f: File, ts: string, columns: seq<string>, mb: MarkBounds, marks: Marks, keyed: bool)
    requires BoundsTheMarks(mb, marks) && TruthfulFor(f, ts, columns, mb)
    ensures var v := VerdictOf(f, ts, columns, mb);
            && (v.CoveredFile? ==> v.rows == |f.rows| && AllCovered(f.rows, marks, keyed))
            && (v.UncoveredFile? ==> HoldsUncovered(f.rows, marks, keyed))
  {
    if StatsOf(f).Some? && StatsOf(f).value.numRecords.Some? && f.rows != [] {
      var s := StatsOf(f).value;
      FilePartsAreTrue(f, s, columns);
      match FileParts(s, f.partitionValues, columns)
      case HasNullPart =>
        var r :| r in f.rows && PartOf(r).None?;
        AboveItsMarkIsUncovered(marks, keyed, r);
      case SeveralOrUnclear => MixedVerdictIsTrue(f, s, ts, columns, mb, marks, keyed);
      case Exactly(values) =>
        var p := PartitionText(values);
        if p !in marks {
          assert f.rows[0] in f.rows;
          AboveItsMarkIsUncovered(marks, keyed, f.rows[0]);
        } else if mb.bounds[p].Some? {
          OneMarkVerdictIsTrue(f, s, ts, columns, p, mb, marks, keyed);
        }
    }
  }

  // ------------------------------------------------------------------ when statistics settle a file

  /** A statistic reads as what it spells, in the shape of the mark. */
  lemma StatisticsRead(stat: Stat, n: int, x: real, s: string)
    ensures forall b :: BoundOfStat(stat, Int(n)) == Some(b) <==>
              (stat.Whole? && IsI64(stat.n) && b == Int(stat.n)) || (stat.Word? && stat.micros.Some? && b == Int(stat.micros.value))
    ensures forall b :: BoundOfStat(stat, Float(x)) == Some(b) <==>
              (stat.Whole? && b == Float(stat.n as real)) || (stat.Fraction? && b == Float(stat.x))
    ensures forall b :: BoundOfStat(stat, Text(s)) == Some(b) <==> stat.Word? && b == Text(stat.s)
  {
  }

  /** The log, or an integer minimum that equals its maximum where none is null, says that column `c` is `v`. */
  predicate SaysPart(s: Stats, partitionValues: map<string, Option<string>>, c: string, v: string) {
    if c in partitionValues then partitionValues[c] == Some(v)
    else
      && c in s.nullCount && s.nullCount[c] == 0 && c in s.minValues && c in s.maxValues
      && s.minValues[c].Whole? && I64_MIN <= s.minValues[c].n <= U64_MAX && s.minValues[c] == s.maxValues[c]
      && v == IntText(s.minValues[c].n)
  }

  lemma SaidPartsAreKnown(s: Stats, partitionValues: map<string, Option<string>>, columns: seq<string>, values: seq<string>)
    requires |values| == |columns| && forall k | 0 <= k < |columns| :: SaysPart(s, partitionValues, columns[k], values[k])
    ensures FileParts(s, partitionValues, columns) == Exactly(values)
  {
    assert forall k | 0 <= k < |columns| :: PartitionValue(s, partitionValues, columns[k]) == Value(values[k]);
  }

  /**
    Statistics do settle a file: one that holds rows of one partition, with no null timestamp, is
    covered as soon as its highest maximum is below that partition's mark, and is not as soon as its
    lowest minimum is above; and one in a partition the target lacks is not.
  */
  lemma StatisticsSettle(f: File, s: Stats, ts: string, columns: seq<string>, values: seq<string>, mb: MarkBounds, rows: nat)
    requires f.stats == Some(Some(s)) && s.numRecords == Some(rows) && rows > 0
    requires |values| == |columns| && forall k | 0 <= k < |columns| :: SaysPart(s, f.partitionValues, columns[k], values[k])
    ensures PartitionText(values) !in mb.bounds ==> VerdictOf(f, ts, columns, mb) == UncoveredFile
    ensures PartitionText(values) in mb.bounds && mb.bounds[PartitionText(values)].Some? && ts in s.nullCount ==>
              var (mark, verdict) := (mb.bounds[PartitionText(values)].value, VerdictOf(f, ts, columns, mb));
              var (max, min) := (StatAs(s.maxValues, ts, mark), StatAs(s.minValues, ts, mark));
              && (s.nullCount[ts] > 0 ==> verdict == UncoveredFile)
              && (s.nullCount[ts] == 0 && max.Some? && ProvablyBelow(mb.slack.Above(max.value), mark) ==> verdict == CoveredFile(rows))
              && (s.nullCount[ts] == 0 && !verdict.CoveredFile? && min.Some? && ProvablyBelow(mark, mb.slack.Below(min.value)) ==>
                    verdict == UncoveredFile)
  {
    SaidPartsAreKnown(s, f.partitionValues, columns, values);
  }

  /** A file that mixes partitions is settled too, as not covered, by a lowest timestamp above every mark. */
  lemma MixedFilesSettle(f: File, s: Stats, ts: string, columns: seq<string>, mb: MarkBounds, c: nat)
    requires f.stats == Some(Some(s)) && s.numRecords.Some? && s.numRecords.value > 0 && mb.highest.Some?
    requires c < |columns| && columns[c] !in f.partitionValues
    requires columns[c] in s.minValues && columns[c] in s.maxValues && s.minValues[columns[c]] != s.maxValues[columns[c]]
    requires forall k | 0 <= k < |columns| && columns[k] !in f.partitionValues :: columns[k] in s.nullCount && s.nullCount[columns[k]] == 0
    requires forall k | 0 <= k < |columns| && columns[k] in f.partitionValues :: f.partitionValues[columns[k]].Some?
    requires ts in s.minValues && BoundOfStat(s.minValues[ts], mb.highest.value).Some?
    requires ProvablyBelow(mb.highest.value, mb.slack.Below(BoundOfStat(s.minValues[ts], mb.highest.value).value))
    ensures VerdictOf(f, ts, columns, mb) == UncoveredFile
  {
    var (lo, hi) := (s.minValues[columns[c]], s.maxValues[columns[c]]);
    if lo.Whole? && hi.Whole? {
      IntTextInjective(lo.n, hi.n);
    }
    assert PartitionValue(s, f.partitionValues, columns[c]) == Unclear;
    assert forall k | 0 <= k < |columns| :: !PartitionValue(s, f.partitionValues, columns[k]).Null?;
  }

  // ------------------------------------------------------------------ a commit

  /** Reads the few columns that settle a file, as often as its budget allows. */
  class Probe {
    var budget: nat

    constructor (budget: nat)
      ensures this.budget == budget
    {
      this.budget := budget;
    }

    /** Every row of `f` against its partition's mark; nothing once the budget is spent. */
    method ReadFile(f: File, marks: Marks, keyed: bool) returns (v: Option<Verdict>)
      modifies this
      ensures v.None? <==> old(budget) == 0
      ensures budget == if v.None? then 0 else old(budget) - 1
      ensures v.Some? ==>
                match v.value
                case CoveredFile(n) => f.readable && n == |f.rows| && AllCovered(f.rows, marks, keyed)
                case UncoveredFile => f.readable && !AllCovered(f.rows, marks, keyed)
                case UnknownFile => !f.readable
    {
      if budget == 0 {
        return None;
      }
      budget := budget - 1;
      if !f.readable {
        return Some(UnknownFile);
      }
      var covered := TestRows(f.rows, marks, keyed);
      v := Some(if covered then CoveredFile(|f.rows|) else UncoveredFile);
    }
  }

  /** Every row against its partition's mark, up to the first that is not covered. */
  method TestRows(rows: seq<Row>, marks: Marks, keyed: bool) returns (covered: bool)
    ensures covered <==> AllCovered(rows, marks, keyed)
  {
    for i := 0 to |rows|
      invariant AllCovered(rows[..i], marks, keyed)
    {
      if !Covered(marks, rows[i], keyed, false) {
        assert rows[i] in rows;
        return false;
      }
      assert rows[..i + 1] == rows[..i] + [rows[i]];
    }
    assert rows[..|rows|] == rows;
    covered := true;
  }

  /** The files a commit added as new data. */
  function DataFiles(files: seq<File>): seq<File> {
    if |files| == 0 then []
    else (if files[0].dataChange then [files[0]] else []) + DataFiles(files[1..])
  }

  /** A commit's new data: the files marked as such, and only those. */
  lemma {:induction false} DataFilesAre(files: seq<File>, f: File)
    ensures f in DataFiles(files) <==> f in files && f.dataChange
  {
    if |files| > 0 {
      DataFilesAre(files[1..], f);
      assert f in files <==> f == files[0] || f in files[1..];
    }
  }

  function RowsOf(files: seq<File>): seq<Row> {
    if |files| == 0 then [] else files[0].rows + RowsOf(files[1..])
  }

  lemma {:induction false} RowsOfAreTheirs(files: seq<File>, r: Row)
    ensures r in RowsOf(files) <==> exists i :: 0 <= i < |files| && r in files[i].rows
  {
    if |files| > 0 {
      RowsOfAreTheirs(files[1..], r);
      if i :| 0 <= i < |files| && r in files[i].rows && i > 0 {
        assert files[1..][i - 1] == files[i];
      }
    }
  }

  /** Every row of the files is covered, and there is at least one. */
  ghost predicate WhollyCovered(files: seq<File>, marks: Marks, keyed: bool) {
    && (forall i | 0 <= i < |files| :: AllCovered(files[i].rows, marks, keyed))
    && exists i :: 0 <= i < |files| && files[i].rows != []
  }

  lemma WhollyCoveredRows(files: seq<File>, marks: Marks, keyed: bool)
    requires WhollyCovered(files, marks, keyed)
    ensures RowsOf(files) != [] && AllCovered(RowsOf(files), marks, keyed)
  {
    forall r | r in RowsOf(files) ensures Covered(marks, r, keyed, false) {
      RowsOfAreTheirs(files, r);
    }
    var i :| 0 <= i < |files| && files[i].rows != [];
    RowsOfAreTheirs(files, files[i].rows[0]);
  }

  predicate HasRows(v: Verdict) {
    v.CoveredFile? && v.rows > 0
  }

  lemma OneMoreVerdict(verdicts: seq<Verdict>, i: nat)
    requires i < |verdicts|
    ensures (exists v :: v in verdicts[..i + 1] && HasRows(v)) <==>
              (exists v :: v in verdicts[..i] && HasRows(v)) || HasRows(verdicts[i])
  {
    assert verdicts[..i + 1] == verdicts[..i] + [verdicts[i]];
    assert verdicts[i] in verdicts[..i + 1];
    if v :| v in verdicts[..i] && HasRows(v) {
      assert v in verdicts[..i + 1];
    }
  }

  /** A commit is covered when every file is, and they hold at least one row between them. */
  method CommitIsCovered(verdicts: seq<Verdict>) returns (r: bool)
    ensures r <==> (forall v | v in verdicts :: v.CoveredFile?) && exists v :: v in verdicts && HasRows(v)
  {
    var rows: nat := 0;
    for i := 0 to |verdicts|
      invariant forall k | 0 <= k < i :: verdicts[k].CoveredFile?
      invariant rows > 0 <==> exists v :: v in verdicts[..i] && HasRows(v)
    {
      if !verdicts[i].CoveredFile? {
        return false;
      }
      rows := rows + verdicts[i].rows;
      OneMoreVerdict(verdicts, i);
    }
    assert verdicts[..|verdicts|] == verdicts;
    r := rows > 0;
  }

  /** Whether a verdict is right of its file. */
  ghost predicate RightOf(v: Verdict, f: File, marks: Marks, keyed: bool) {
    match v
    case CoveredFile(n) => n == |f.rows| && AllCovered(f.rows, marks, keyed)
    case UncoveredFile => !AllCovered(f.rows, marks, keyed)
    case UnknownFile => true
  }

  lemma UncoveredIsNotAllCovered(rows: seq<Row>, marks: Marks, keyed: bool)
    requires HoldsUncovered(rows, marks, keyed)
    ensures !AllCovered(rows, marks, keyed)
  {
    var r :| r in rows && !Covered(marks, r, keyed, true);
    assert !Covered(marks, r, keyed, false);
  }

  /**
    Whether every row a commit added is covered, and it added at least one; nothing when the
    budget ran out first. What a file that cannot be read would have said does not matter: it
    proves nothing.
  */
  method CommitCoverage(files: seq<File>, ts: string, columns: seq<string>, mb: MarkBounds, probe: Probe,
                        marks: Marks, keyed: bool)
    returns (r: Option<bool>)
    requires BoundsTheMarks(mb, marks)
    requires forall i | 0 <= i < |files| :: TruthfulFor(files[i], ts, columns, mb)
    modifies probe
    ensures r == Some(true) ==> WhollyCovered(files, marks, keyed)
    ensures r == Some(false) && (forall i | 0 <= i < |files| :: files[i].readable) ==> !WhollyCovered(files, marks, keyed)
    ensures r.None? ==> probe.budget == 0 && old(probe.budget) < |files|
    ensures probe.budget <= old(probe.budget) <= probe.budget + |files|
  {
    var verdicts: seq<Verdict> := [];
    for i := 0 to |files|
      invariant |verdicts| == i && probe.budget == old(probe.budget)
      invariant forall k | 0 <= k < i :: RightOf(verdicts[k], files[k], marks, keyed) && !verdicts[k].UncoveredFile?
    {
      var v := VerdictOf(files[i], ts, columns, mb);
      VerdictsAgreeWithRows(files[i], ts, columns, mb, marks, keyed);
      if v.UncoveredFile? {
        UncoveredIsNotAllCovered(files[i].rows, marks, keyed);
        return Some(false);
      }
      verdicts := verdicts + [v];
    }
    for i := 0 to |files|
      invariant |verdicts| == |files|
      invariant probe.budget <= old(probe.budget) <= probe.budget + i
      invariant forall k | 0 <= k < |files| :: RightOf(verdicts[k], files[k], marks, keyed) && !verdicts[k].UncoveredFile?
      invariant forall k | 0 <= k < i :: verdicts[k].CoveredFile?
    {
      if verdicts[i].UnknownFile? {
        var read := probe.ReadFile(files[i], marks, keyed);
        if read.None? {
          return None;
        }
        if !read.value.CoveredFile? {
          return Some(false);
        }
        verdicts := verdicts[i := read.value];
      }
    }
    var covered := CommitIsCovered(verdicts);
    assert forall k | 0 <= k < |files| :: verdicts[k].CoveredFile? && verdicts[k].rows == |files[k].rows|;
    if covered {
      var v :| v in verdicts && HasRows(v);
      var k :| 0 <= k < |verdicts| && verdicts[k] == v;
      assert files[k].rows != [];
    } else {
      forall k | 0 <= k < |files| ensures files[k].rows == [] {
        assert verdicts[k] in verdicts && !HasRows(verdicts[k]);
      }
    }
    r := Some(covered);
  }
}
