/**
  Skipping the rows a rebuild already wrote: which rows a cut-off covers, what a coverage window
  delivers, and when it may close (src/dedup.rs, and src/pipeline.rs for the window's life).
*/
module Coverage {
  import opened Basics
  import opened Bounds
  import opened Watermark

  // ------------------------------------------------------------------ one row, one batch

  /** Past anything whatever filled the target can have read. */
  predicate Beyond(marks: Marks, r: Row) {
    && r.ts.Some? && PartOf(r).Some?
    && (PartOf(r).value in marks ==> Less(marks[PartOf(r).value].at, r.ts.value))
  }

  /** Covered by its own partition's mark; with no key configured, `ties` decides a row at the mark. */
  predicate Covered(marks: Marks, r: Row, keyed: bool, ties: bool) {
    && r.ts.Some? && PartOf(r).Some? && PartOf(r).value in marks
    && var mark := marks[PartOf(r).value];
    && !Less(mark.at, r.ts.value)
    && (r.ts.value == mark.at ==> if keyed then r.key.Some? && r.key.value in mark.keys else ties)
  }

  /** The global form's own test: newer than the watermark, or at it with a key not yet there. */
  predicate KeptByWatermark(d: Dedup, watermark: Bound, r: Row)
    requires r.ts.Some?
  {
    || Less(watermark, r.ts.value)
    || (d.keyed && r.ts.value == watermark && (r.key.None? || r.key.value !in d.boundaryKeys))
  }

  predicate Keeps(d: Dedup, r: Row) {
    if d.columns > 0 then !Covered(d.partitions, r, d.keyed, true)
    else d.watermark.Some? && r.ts.Some? ==> KeptByWatermark(d, d.watermark.value, r)
  }

  /** The global test is the partitioned one for the one partition of no columns. */
  lemma GlobalIsOnePartition(d: Dedup, r: Row)
    requires d.columns == 0 && r.parts == [] && r.ts.Some?
    ensures Keeps(d, r) <==> !Covered(d.Cutoffs(), r, d.keyed, true)
    ensures Beyond(d.Cutoffs(), r) <==> (d.watermark.Some? ==> Less(d.watermark.value, r.ts.value))
  {
    assert PartOf(r) == Some(WHOLE);
    if d.watermark.Some? {
      LessIsTotal(d.watermark.value, r.ts.value);
    }
  }

  datatype Filtered = Filtered(kept: seq<Row>, covered: nat, beyond: nat)

  datatype FilterError = NullTimestamp | NullPartition

  function Kept(d: Dedup, batch: seq<Row>): (kept: seq<Row>)
    ensures |kept| <= |batch|
  {
    if |batch| == 0 then []
    else
      var (before, last) := (batch[..|batch| - 1], batch[|batch| - 1]);
      Kept(d, before) + if Keeps(d, last) then [last] else []
  }

  function BeyondCount(marks: Marks, batch: seq<Row>): nat {
    if |batch| == 0 then 0
    else BeyondCount(marks, batch[..|batch| - 1]) + if Beyond(marks, batch[|batch| - 1]) then 1 else 0
  }

  /** Drop the rows the target holds. */
  function Filter(d: Dedup, batch: seq<Row>): (r: Result<Filtered, FilterError>) {
    if d.columns == 0 && d.watermark.None? then Ok(Filtered(batch, 0, |batch|))
    else if exists i | 0 <= i < |batch| :: batch[i].ts.None? then Err(NullTimestamp)
    else if d.columns > 0 && exists i | 0 <= i < |batch| :: PartOf(batch[i]).None? then Err(NullPartition)
    else
      var kept := Kept(d, batch);
      Ok(Filtered(kept, |batch| - |kept|, BeyondCount(d.Cutoffs(), batch)))
  }

  /** The rows of one verdict: what the filter drops. */
  function Dropped(d: Dedup, batch: seq<Row>): seq<Row> {
    if |batch| == 0 then []
    else
      var (before, last) := (batch[..|batch| - 1], batch[|batch| - 1]);
      Dropped(d, before) + if Keeps(d, last) then [] else [last]
  }

  predicate Shaped(d: Dedup, batch: seq<Row>) {
    forall r | r in batch :: |r.parts| == d.columns
  }

  lemma BeyondIsKept(d: Dedup, r: Row)
    requires |r.parts| == d.columns && Beyond(d.Cutoffs(), r)
    ensures Keeps(d, r)
  {
    if d.columns == 0 {
      GlobalIsOnePartition(d, r);
    }
  }

  lemma {:induction false} NothingIsLost(d: Dedup, batch: seq<Row>)
    ensures multiset(Kept(d, batch)) + multiset(Dropped(d, batch)) == multiset(batch)
  {
    if |batch| > 0 {
      var (before, last) := (batch[..|batch| - 1], batch[|batch| - 1]);
      assert batch == before + [last];
      NothingIsLost(d, before);
    }
  }

  lemma {:induction false} BeyondAreKept(d: Dedup, batch: seq<Row>)
    requires Shaped(d, batch)
    ensures BeyondCount(d.Cutoffs(), batch) <= |Kept(d, batch)|
  {
    if |batch| > 0 {
      var (before, last) := (batch[..|batch| - 1], batch[|batch| - 1]);
      assert batch == before + [last];
      BeyondAreKept(d, before);
      if Beyond(d.Cutoffs(), last) {
        BeyondIsKept(d, last);
      }
    }
  }

  lemma {:induction false} BeyondIsSomeRow(marks: Marks, batch: seq<Row>)
    ensures BeyondCount(marks, batch) > 0 <==> exists r :: r in batch && Beyond(marks, r)
  {
    if |batch| > 0 {
      var (before, last) := (batch[..|batch| - 1], batch[|batch| - 1]);
      BeyondIsSomeRow(marks, before);
      assert batch == before + [last];
      assert forall r :: r in batch <==> r in before || r == last;
    }
  }

  /** The filter fails only on a row that can be placed nowhere, and never when nothing is covered. */
  lemma FilterFailsIff(d: Dedup, batch: seq<Row>)
    requires Shaped(d, batch)
    ensures Filter(d, batch).Err? <==>
              && !(d.columns == 0 && d.watermark.None?)
              && exists i | 0 <= i < |batch| :: batch[i].ts.None? || PartOf(batch[i]).None?
  {
    assert d.columns == 0 ==> forall i | 0 <= i < |batch| :: batch[i].parts == [];
  }

  lemma NothingCoveredKeepsAll(d: Dedup, batch: seq<Row>)
    requires d.columns == 0 && d.watermark.None?
    ensures Kept(d, batch) == batch && Dropped(d, batch) == []
  {
    if |batch| > 0 {
      NothingCoveredKeepsAll(d, batch[..|batch| - 1]);
      assert batch == batch[..|batch| - 1] + [batch[|batch| - 1]];
    }
  }

  /**
    The filter splits a batch: what is kept and what is dropped make it up, `covered` counts the
    dropped, and the rows past the marks are among the kept.
  */
  lemma FilterSplits(d: Dedup, batch: seq<Row>)
    requires Shaped(d, batch) && Filter(d, batch).Ok?
    ensures var f := Filter(d, batch).value;
            && f.beyond <= |f.kept| && |f.kept| + f.covered == |batch|
            && f.kept == Kept(d, batch)
            && multiset(f.kept) + multiset(Dropped(d, batch)) == multiset(batch)
  {
    NothingIsLost(d, batch);
    BeyondAreKept(d, batch);
    if d.columns == 0 && d.watermark.None? {
      NothingCoveredKeepsAll(d, batch);
    }
  }

  /** What the filter keeps is exactly what its own partition's mark does not cover. */
  lemma FilterKeepsTheUncovered(d: Dedup, batch: seq<Row>)
    requires Shaped(d, batch) && Filter(d, batch).Ok?
    ensures forall r: Row | r.ts.Some? ::
              r in Filter(d, batch).value.kept <==> r in batch && !Covered(d.Cutoffs(), r, d.keyed, true)
  {
    FilterSplits(d, batch);
    KeptHasTheUncovered(d, batch);
    forall r | r in batch && r.ts.Some? ensures Keeps(d, r) <==> !Covered(d.Cutoffs(), r, d.keyed, true) {
      if d.columns == 0 {
        GlobalIsOnePartition(d, r);
      }
    }
  }

  lemma {:induction false} KeptHasTheUncovered(d: Dedup, batch: seq<Row>)
    ensures forall r :: r in Kept(d, batch) <==> r in batch && Keeps(d, r)
  {
    if |batch| > 0 {
      var (before, last) := (batch[..|batch| - 1], batch[|batch| - 1]);
      assert batch == before + [last];
      KeptHasTheUncovered(d, before);
    }
  }

  /** A row of the target in `r`'s partition, newer than it. */
  ghost predicate HoldsNewer(target: seq<Row>, r: Row)
    requires r.ts.Some? && PartOf(r).Some?
  {
    exists t :: t in target && In(t, PartOf(r).value) && Less(r.ts.value, t.ts.value)
  }

  /** A row of the target in `r`'s partition, not older than it. */
  ghost predicate HoldsNotOlder(target: seq<Row>, r: Row)
    requires r.ts.Some? && PartOf(r).Some?
  {
    exists t :: t in target && In(t, PartOf(r).value) && !Less(t.ts.value, r.ts.value)
  }

  /**
    What the verdicts mean, of any target and any row: past its mark, a row is newer than all the target
    holds of its partition; covered, the target holds a newer one, or its very instant with its key.
  */
  lemma VerdictsAreOfTheTarget(target: seq<Row>, keyed: bool, marks: Marks, r: Row, ties: bool)
    requires Describes(target, keyed, marks) && r.ts.Some? && PartOf(r).Some?
    ensures Beyond(marks, r) <==> !HoldsNotOlder(target, r)
    ensures Covered(marks, r, keyed, ties) <==>
              || HoldsNewer(target, r)
              || (&& HoldsNotOlder(target, r)
                  && if keyed then r.key.Some? && HoldsKeyAt(target, PartOf(r).value, r.ts.value, r.key.value) else ties)
  {
    var (p, at) := (PartOf(r).value, r.ts.value);
    if p in marks {
      assert IsMark(target, keyed, p, marks[p]);
      var top :| top in target && TiedAt(top, p, marks[p].at);
      LessIsTotal(marks[p].at, at);
      forall t | t in target && In(t, p)
        ensures !Less(t.ts.value, at) ==> !Less(marks[p].at, at)
        ensures Less(at, t.ts.value) ==> Less(at, marks[p].at)
      {
        NotAboveIsBelow(t.ts.value, marks[p].at, at);
        NotAboveIsBelow(at, t.ts.value, marks[p].at);
        LessIsTotal(marks[p].at, t.ts.value);
      }
      if marks[p].at == at {
        assert !HoldsNewer(target, r);
      }
    } else {
      assert !Holds(target, p);
    }
  }

  // ------------------------------------------------------------------ the ordering requirement

  /** A cut-off's form: how many partition columns it is kept by, and whether ties are settled by a key. */
  datatype Form = Form(columns: nat, keyed: bool)

  function FormOf(d: Dedup): Form {
    Form(d.columns, d.keyed)
  }

  predicate Placeable(r: Row, form: Form) {
    r.ts.Some? && |r.parts| == form.columns && PartOf(r).Some? && (form.keyed ==> r.key.Some?)
  }

  /** Within each partition timestamps never fall. */
  ghost predicate NeverFalls(s: seq<Row>, form: Form) {
    && (forall i | 0 <= i < |s| :: Placeable(s[i], form))
    && (forall i, j | 0 <= i < j < |s| && PartOf(s[i]) == PartOf(s[j]) :: !Less(s[j].ts.value, s[i].ts.value))
  }

  /** And rows of one partition and instant differ by key; with no key, there are none. */
  ghost predicate Ordered(s: seq<Row>, form: Form) {
    && NeverFalls(s, form)
    && (forall i, j | 0 <= i < j < |s| && PartOf(s[i]) == PartOf(s[j]) ::
          s[i].ts == s[j].ts ==> form.keyed && s[i].key != s[j].key)
  }

  /**
    The marks of a prefix cover exactly that prefix: the question "was this row read?" is a
    property of the row.
  */
  lemma CoversExactlyThePrefix(s: seq<Row>, form: Form, n: nat, marks: Marks, i: nat)
    requires Ordered(s, form) && n <= |s| && i < |s| && Describes(s[..n], form.keyed, marks)
    ensures Covered(marks, s[i], form.keyed, true) <==> i < n
    ensures Beyond(marks, s[i]) ==> i >= n
  {
    var p := PartOf(s[i]).value;
    if i < n {
      assert s[..n][i] == s[i] && In(s[i], p) && Holds(s[..n], p);
      assert IsMark(s[..n], form.keyed, p, marks[p]);
      if form.keyed && s[i].ts.value == marks[p].at {
        assert TiedAt(s[i], p, marks[p].at);
        assert HoldsKeyAt(s[..n], p, marks[p].at, s[i].key.value);
      }
    } else if Covered(marks, s[i], form.keyed, true) {
      assert IsMark(s[..n], form.keyed, p, marks[p]);
      if !form.keyed || s[i].ts.value != marks[p].at {
        var r :| r in s[..n] && TiedAt(r, p, marks[p].at);
        var j :| 0 <= j < n && s[j] == r;
        LessIsTotal(s[i].ts.value, s[j].ts.value);
      }
    }
  }

  /**
    With no key configured, a row tied with its partition's newest covered row is dropped
    too, so such a cut-off is exact if and only if no later row shares that instant.
  */
  lemma WithoutAKeyTiesAreDropped(s: seq<Row>, columns: nat, n: nat, marks: Marks, i: nat)
    requires NeverFalls(s, Form(columns, false)) && n <= |s| && i < |s| && Describes(s[..n], false, marks)
    ensures Covered(marks, s[i], false, true) <==>
              i < n || exists j | 0 <= j < n :: PartOf(s[j]) == PartOf(s[i]) && s[j].ts == s[i].ts
  {
    var p := PartOf(s[i]).value;
    if j :| 0 <= j < n && PartOf(s[j]) == PartOf(s[i]) && (j == i || s[j].ts == s[i].ts) {
      assert s[..n][j] == s[j] && In(s[j], p) && Holds(s[..n], p);
      assert IsMark(s[..n], false, p, marks[p]);
    }
    if Covered(marks, s[i], false, true) && i >= n {
      assert IsMark(s[..n], false, p, marks[p]);
      var r :| r in s[..n] && TiedAt(r, p, marks[p].at);
      var j :| 0 <= j < n && s[j] == r;
      LessIsTotal(s[i].ts.value, s[j].ts.value);
    }
  }

  // ------------------------------------------------------------------ a restart inside a window

  lemma KeptStaysAtItsMark(d: Dedup, r: Row)
    requires |r.parts| == d.columns && r.ts.Some? && PartOf(r).Some? && Keeps(d, r) && !Beyond(d.Cutoffs(), r)
    ensures PartOf(r).value in d.Cutoffs() && r.ts.value == d.Cutoffs()[PartOf(r).value].at
    ensures d.keyed && (r.key.Some? ==> r.key.value !in d.Cutoffs()[PartOf(r).value].keys)
  {
    if d.columns == 0 {
      GlobalIsOnePartition(d, r);
    }
  }

  /** The keys of partition `p` among some rows. */
  ghost function KeysIn(rows: seq<Row>, p: string): set<string> {
    set r | r in rows && PartOf(r) == Some(p) && r.key.Some? :: r.key.value
  }

  lemma GrownHolds(target: seq<Row>, kept: seq<Row>, marks: Marks, p: string)
    requires Describes(target, true, marks)
    requires forall r | r in kept :: r.ts.Some? && PartOf(r).Some? && PartOf(r).value in marks
    ensures Holds(target + kept, p) <==> p in marks
  {
    if p in marks {
      assert Holds(target, p);
      var r :| r in target && In(r, p);
      assert r in target + kept;
    }
    if Holds(target + kept, p) {
      var r :| r in target + kept && In(r, p);
      assert r in target ==> Holds(target, p);
    }
  }

  lemma GrownMark(target: seq<Row>, kept: seq<Row>, marks: Marks, p: string)
    requires Describes(target, true, marks) && p in marks
    requires forall r | r in kept && PartOf(r) == Some(p) :: r.ts == Some(marks[p].at)
    ensures IsMark(target + kept, true, p, Mark(marks[p].at, marks[p].keys + KeysIn(kept, p)))
  {
    var at := marks[p].at;
    assert IsMark(target, true, p, marks[p]);
    var top :| top in target && TiedAt(top, p, at);
    assert top in target + kept;
    LessIsTotal(at, at);
    forall k ensures HoldsKeyAt(target + kept, p, at, k) <==> k in marks[p].keys + KeysIn(kept, p) {
      if k in marks[p].keys {
        var r :| r in target && TiedAt(r, p, at) && r.key == Some(k);
        assert r in target + kept;
      }
      if k in KeysIn(kept, p) {
        var r :| r in kept && PartOf(r) == Some(p) && r.key == Some(k);
        assert r in target + kept && TiedAt(r, p, at);
      }
      if HoldsKeyAt(target + kept, p, at, k) {
        var r :| r in target + kept && TiedAt(r, p, at) && r.key == Some(k);
        assert r in target ==> HoldsKeyAt(target, p, at, k);
      }
    }
  }

  /**
    A batch that leaves its window open adds only rows at their own marks. Reading the target
    again, as a reopen does, gives the same marks with the delivered keys added: the same verdict
    for every row but those delivered. Needs nothing of the source's order.
  */
  lemma RestartInsideAWindowIsStable(target: seq<Row>, d: Dedup, batch: seq<Row>, again: Marks)
    requires d.keyed && d.Cutoffs() != map[] && Describes(target, true, d.Cutoffs()) && Shaped(d, batch)
    requires Filter(d, batch).Ok? && Filter(d, batch).value.beyond == 0
    requires Describes(target + Filter(d, batch).value.kept, true, again)
    ensures again.Keys == d.Cutoffs().Keys
    ensures forall p | p in again ::
              && again[p].at == d.Cutoffs()[p].at
              && again[p].keys == d.Cutoffs()[p].keys + KeysIn(Filter(d, batch).value.kept, p)
  {
    KeptSitAtTheirMarks(d, batch);
    Grown(target, Filter(d, batch).value.kept, d.Cutoffs(), again);
  }

  lemma KeptSitAtTheirMarks(d: Dedup, batch: seq<Row>)
    requires Shaped(d, batch) && d.Cutoffs() != map[]
    requires Filter(d, batch).Ok? && Filter(d, batch).value.beyond == 0
    ensures forall r | r in Filter(d, batch).value.kept ::
              && r.ts.Some? && PartOf(r).Some? && PartOf(r).value in d.Cutoffs()
              && r.ts.value == d.Cutoffs()[PartOf(r).value].at
  {
    var kept := Filter(d, batch).value.kept;
    FilterFailsIff(d, batch);
    BeyondIsSomeRow(d.Cutoffs(), batch);
    KeptHasTheUncovered(d, batch);
    forall r | r in kept
      ensures r.ts.Some? && PartOf(r).Some? && PartOf(r).value in d.Cutoffs()
      ensures r.ts.value == d.Cutoffs()[PartOf(r).value].at
    {
      assert r in batch && !Beyond(d.Cutoffs(), r);
      var i :| 0 <= i < |batch| && batch[i] == r;
      KeptStaysAtItsMark(d, r);
    }
  }

  lemma GrownAt(target: seq<Row>, kept: seq<Row>, marks: Marks, again: Mark, p: string)
    requires Describes(target, true, marks) && p in marks && IsMark(target + kept, true, p, again)
    requires forall r | r in kept && PartOf(r) == Some(p) :: r.ts == Some(marks[p].at)
    ensures again == Mark(marks[p].at, marks[p].keys + KeysIn(kept, p))
  {
    GrownMark(target, kept, marks, p);
    SameMark(target + kept, target + kept, true, p, again, Mark(marks[p].at, marks[p].keys + KeysIn(kept, p)));
  }

  lemma Grown(target: seq<Row>, kept: seq<Row>, marks: Marks, again: Marks)
    requires Describes(target, true, marks) && Describes(target + kept, true, again)
    requires forall r | r in kept :: r.ts.Some? && PartOf(r).Some? && PartOf(r).value in marks
    requires forall r | r in kept :: r.ts.value == marks[PartOf(r).value].at
    ensures again.Keys == marks.Keys
    ensures forall p | p in again :: again[p].at == marks[p].at && again[p].keys == marks[p].keys + KeysIn(kept, p)
  {
    forall p ensures p in again <==> p in marks {
      GrownHolds(target, kept, marks, p);
    }
    forall p | p in again
      ensures again[p] == Mark(marks[p].at, marks[p].keys + KeysIn(kept, p))
    {
      GrownAt(target, kept, marks, again[p], p);
    }
  }

  lemma SameVerdictAfterwards(marks: Marks, again: Marks, delivered: seq<Row>, r: Row)
    requires again.Keys == marks.Keys
    requires forall p | p in again :: again[p].at == marks[p].at && again[p].keys == marks[p].keys + KeysIn(delivered, p)
    ensures Beyond(again, r) <==> Beyond(marks, r)
    ensures Covered(again, r, true, true) <==>
              || Covered(marks, r, true, true)
              || (&& PartOf(r).Some? && PartOf(r).value in marks && r.ts == Some(marks[PartOf(r).value].at)
                  && r.key.Some? && r.key.value in KeysIn(delivered, PartOf(r).value))
  {
    if r.ts.Some? {
      LessIsTotal(r.ts.value, r.ts.value);
    }
  }
}
