/**
  Reading what a target already holds out of its rows, in one streaming pass: the newest timestamp
  and the keys tied at it, as a whole or per partition (src/dedup.rs).
*/
module Watermark {
  import opened Basics
  import opened Bounds
  import opened PartitionKey

  /** A row as the cut-off sees it; `parts` are its partition columns, none in the global form. */
  datatype Row = Row(ts: Option<Bound>, parts: seq<Option<string>>, key: Option<string>)

  /** The text of the row's partition; nothing if one of its partition columns is null. */
  function PartOf(r: Row): Option<string> {
    if exists c | 0 <= c < |r.parts| :: r.parts[c].None? then None
    else Some(PartitionText(seq(|r.parts|, c requires 0 <= c < |r.parts| && r.parts[c].Some? => r.parts[c].value)))
  }

  /** The newest timestamp of a partition, and the keys tied at it. */
  datatype Mark = Mark(at: Bound, keys: set<string>)

  type Marks = map<string, Mark>

  const WHOLE: string := "[]"

  /** A table's cut-off, in either form: with no partition columns, the watermark and its keys. */
  datatype Dedup = Dedup(keyed: bool, columns: nat, watermark: Option<Bound>, boundaryKeys: set<string>, partitions: Marks) {
    /** The global cut-off as that of the one partition of no columns. */
    function Cutoffs(): Marks {
      if columns > 0 then partitions
      else if watermark.Some? then map[WHOLE := Mark(watermark.value, boundaryKeys)] else map[]
    }

    predicate IsInert() {
      if columns > 0 then partitions == map[] else watermark.None?
    }
  }

  // ------------------------------------------------------------------ what the marks are

  predicate In(r: Row, p: string) {
    r.ts.Some? && PartOf(r) == Some(p)
  }

  predicate TiedAt(r: Row, p: string, at: Bound) {
    In(r, p) && r.ts.value == at
  }

  ghost predicate Holds(rows: seq<Row>, p: string) {
    exists r :: r in rows && In(r, p)
  }

  ghost predicate HoldsKeyAt(rows: seq<Row>, p: string, at: Bound, k: string) {
    exists r :: r in rows && TiedAt(r, p, at) && r.key == Some(k)
  }

  /** `mark` is partition `p`'s newest timestamp in `rows` and exactly the keys tied at it. */
  ghost predicate IsMark(rows: seq<Row>, keyed: bool, p: string, mark: Mark) {
    && (exists r :: r in rows && TiedAt(r, p, mark.at))
    && (forall r | r in rows && In(r, p) :: !Less(mark.at, r.ts.value))
    && (forall k :: k in mark.keys <==> keyed && HoldsKeyAt(rows, p, mark.at, k))
  }

  ghost predicate Describes(rows: seq<Row>, keyed: bool, marks: Marks) {
    && (forall p :: p in marks <==> Holds(rows, p))
    && (forall p | p in marks :: IsMark(rows, keyed, p, marks[p]))
  }

  ghost function PartsOf(rows: seq<Row>): set<string> {
    set r | r in rows && r.ts.Some? && PartOf(r).Some? :: PartOf(r).value
  }

  lemma PartsOfAreHeld(rows: seq<Row>, p: string)
    ensures p in PartsOf(rows) <==> Holds(rows, p)
  {
    if p in PartsOf(rows) {
      var r :| r in rows && r.ts.Some? && PartOf(r) == Some(p);
      assert In(r, p);
    }
    if Holds(rows, p) {
      var r :| r in rows && In(r, p);
    }
  }

  lemma SameMark(a: seq<Row>, b: seq<Row>, keyed: bool, p: string, x: Mark, y: Mark)
    requires forall r :: r in a <==> r in b
    requires IsMark(a, keyed, p, x) && IsMark(b, keyed, p, y)
    ensures x == y
  {
    var r :| r in a && TiedAt(r, p, x.at);
    var s :| s in b && TiedAt(s, p, y.at);
    LessIsTotal(x.at, y.at);
    assert x.at == y.at;
    assert forall k :: HoldsKeyAt(a, p, x.at, k) <==> HoldsKeyAt(b, p, y.at, k);
    assert x.keys == y.keys;
  }

  /** The cut-off depends on the rows alone, not on their order, their batches or how often they repeat. */
  lemma OnlyTheRowsMatter(a: seq<Row>, b: seq<Row>, keyed: bool, x: Marks, y: Marks)
    requires forall r :: r in a <==> r in b
    requires Describes(a, keyed, x) && Describes(b, keyed, y)
    ensures x == y
  {
    assert forall p :: Holds(a, p) <==> Holds(b, p);
    assert x.Keys == y.Keys;
    forall p | p in x ensures x[p] == y[p] {
      SameMark(a, b, keyed, p, x[p], y[p]);
    }
  }

  // ------------------------------------------------------------------ the streaming pass

  function KeyOf(r: Row, keyed: bool): set<string> {
    if keyed && r.key.Some? then {r.key.value} else {}
  }

  lemma FirstOfItsPartition(rows: seq<Row>, keyed: bool, marks: Marks, r: Row, p: string)
    requires Describes(rows, keyed, marks) && In(r, p) && p !in marks
    ensures Describes(rows + [r], keyed, marks[p := Mark(r.ts.value, KeyOf(r, keyed))])
  {
    OthersStay(rows, keyed, marks, r, p);
    LessIsTotal(r.ts.value, r.ts.value);
    assert !Holds(rows, p);
    assert r in rows + [r] && TiedAt(r, p, r.ts.value);
    assert IsMark(rows + [r], keyed, p, Mark(r.ts.value, KeyOf(r, keyed)));
  }

  /** A row moves no mark but its own partition's. */
  lemma OthersStay(rows: seq<Row>, keyed: bool, marks: Marks, r: Row, p: string)
    requires Describes(rows, keyed, marks) && In(r, p)
    ensures forall q | q != p :: Holds(rows + [r], q) <==> Holds(rows, q)
    ensures forall q | q in marks && q != p :: IsMark(rows + [r], keyed, q, marks[q])
    ensures Holds(rows + [r], p)
  {
    assert r in rows + [r];
    forall q | q != p ensures Holds(rows + [r], q) <==> Holds(rows, q) {
      if s :| s in rows && In(s, q) {
        assert s in rows + [r];
      }
    }
    forall q | q in marks && q != p ensures IsMark(rows + [r], keyed, q, marks[q]) {
      var at := marks[q].at;
      var s :| s in rows && TiedAt(s, q, at);
      assert s in rows + [r];
      KeysAtOfOneMore(rows, r, q, at);
    }
  }

  lemma KeysAtOfOneMore(rows: seq<Row>, r: Row, p: string, at: Bound)
    ensures forall k :: HoldsKeyAt(rows + [r], p, at, k) <==> HoldsKeyAt(rows, p, at, k) || (TiedAt(r, p, at) && r.key == Some(k))
  {
    forall k ensures HoldsKeyAt(rows + [r], p, at, k) <==> HoldsKeyAt(rows, p, at, k) || (TiedAt(r, p, at) && r.key == Some(k)) {
      assert r in rows + [r];
      if s :| s in rows && TiedAt(s, p, at) && s.key == Some(k) {
        assert s in rows + [r];
      }
    }
  }

  lemma Newer(rows: seq<Row>, keyed: bool, marks: Marks, r: Row, p: string)
    requires Describes(rows, keyed, marks) && In(r, p) && p in marks && Less(marks[p].at, r.ts.value)
    ensures Describes(rows + [r], keyed, marks[p := Mark(r.ts.value, KeyOf(r, keyed))])
  {
    OthersStay(rows, keyed, marks, r, p);
    var at := r.ts.value;
    assert r in rows + [r] && TiedAt(r, p, at);
    LessIsTotal(at, at);
    forall s | s in rows + [r] && In(s, p) ensures !Less(at, s.ts.value) && (TiedAt(s, p, at) ==> s == r || s !in rows) {
      if s in rows {
        NotAboveIsBelow(s.ts.value, marks[p].at, at);
        LessIsTotal(at, s.ts.value);
      }
    }
    KeysAtOfOneMore(rows, r, p, at);
    assert forall k :: !HoldsKeyAt(rows, p, at, k);
    assert IsMark(rows + [r], keyed, p, Mark(at, KeyOf(r, keyed)));
  }

  lemma Tied(rows: seq<Row>, keyed: bool, marks: Marks, r: Row, p: string)
    requires Describes(rows, keyed, marks) && In(r, p) && p in marks && marks[p].at == r.ts.value
    ensures Describes(rows + [r], keyed, marks[p := Mark(r.ts.value, marks[p].keys + KeyOf(r, keyed))])
  {
    OthersStay(rows, keyed, marks, r, p);
    var at := r.ts.value;
    assert r in rows + [r] && TiedAt(r, p, at);
    LessIsTotal(at, at);
    KeysAtOfOneMore(rows, r, p, at);
    assert IsMark(rows + [r], keyed, p, Mark(at, marks[p].keys + KeyOf(r, keyed)));
  }

  lemma Older(rows: seq<Row>, keyed: bool, marks: Marks, r: Row, p: string)
    requires Describes(rows, keyed, marks) && In(r, p) && p in marks && Less(r.ts.value, marks[p].at)
    ensures Describes(rows + [r], keyed, marks)
  {
    OthersStay(rows, keyed, marks, r, p);
    var at := marks[p].at;
    var s :| s in rows && TiedAt(s, p, at);
    assert s in rows + [r];
    LessIsTotal(r.ts.value, at);
    KeysAtOfOneMore(rows, r, p, at);
    assert IsMark(rows + [r], keyed, p, marks[p]);
  }

  /** A row with no timestamp, or no partition, moves nothing. */
  lemma PassedOver(rows: seq<Row>, keyed: bool, marks: Marks, r: Row)
    requires Describes(rows, keyed, marks) && (r.ts.None? || PartOf(r).None?)
    ensures Describes(rows + [r], keyed, marks)
  {
    forall p ensures Holds(rows + [r], p) <==> Holds(rows, p) {
      if s :| s in rows && In(s, p) {
        assert s in rows + [r];
      }
    }
    forall p | p in marks ensures IsMark(rows + [r], keyed, p, marks[p]) {
      var s :| s in rows && TiedAt(s, p, marks[p].at);
      assert s in rows + [r];
      KeysAtOfOneMore(rows, r, p, marks[p].at);
    }
  }

  function Flat<T>(batches: seq<seq<T>>): seq<T> {
    if |batches| == 0 then [] else Flat(batches[..|batches| - 1]) + batches[|batches| - 1]
  }

  lemma FlatOfOneMore<T>(batches: seq<seq<T>>, b: nat)
    requires b < |batches|
    ensures Flat(batches[..b + 1]) == Flat(batches[..b]) + batches[b]
  {
    assert batches[..b + 1][..b] == batches[..b];
  }

  lemma {:induction false} FlatHoldsItsBatches<T>(batches: seq<seq<T>>, b: nat)
    requires b <= |batches|
    ensures forall r | r in Flat(batches[..b]) :: r in Flat(batches)
    decreases |batches| - b
  {
    if b == |batches| {
      assert batches[..b] == batches;
    } else {
      FlatOfOneMore(batches, b);
      FlatHoldsItsBatches(batches, b + 1);
    }
  }

  lemma {:induction false} MoreThan<T>(small: set<T>, big: set<T>, x: T)
    requires small <= big && x in big && x !in small
    ensures |big| > |small|
    decreases |small|
  {
    if small == {} {
      assert |big - {x}| == |big| - 1;
    } else {
      var y :| y in small;
      MoreThan(small - {y}, big - {y}, x);
    }
  }

  /** One batch of the partitioned form. */
  method NoteBatch(batch: seq<Row>, keyed: bool, limit: nat, running: Marks, ghost done: seq<Row>)
    returns (r: Result<Marks, Unit>)
    requires Describes(done, keyed, running) && |running| <= limit
    ensures r.Ok? ==> Describes(done + batch, keyed, r.value) && |r.value| <= limit
    ensures r.Err? ==> |PartsOf(done + batch)| > limit
  {
    var marks := running;
    assert done + batch[..0] == done;
    for i := 0 to |batch|
      invariant Describes(done + batch[..i], keyed, marks) && |marks| <= limit
    {
      ghost var before := done + batch[..i];
      var row := batch[i];
      assert done + batch[..i + 1] == before + [row];
      if row.ts.None? || PartOf(row).None? {
        PassedOver(before, keyed, marks, row);
        continue;
      }
      var (p, at) := (PartOf(row).value, row.ts.value);
      if p in marks {
        if Less(marks[p].at, at) {
          Newer(before, keyed, marks, row, p);
          marks := marks[p := Mark(at, KeyOf(row, keyed))];
        } else if marks[p].at == at {
          Tied(before, keyed, marks, row, p);
          marks := marks[p := Mark(at, marks[p].keys + KeyOf(row, keyed))];
        } else {
          LessIsTotal(marks[p].at, at);
          Older(before, keyed, marks, row, p);
        }
      } else {
        if |marks| >= limit {
          TooMany(before, keyed, marks, done + batch, row, p);
          return Err(Unit);
        }
        FirstOfItsPartition(before, keyed, marks, row, p);
        marks := marks[p := Mark(at, KeyOf(row, keyed))];
      }
    }
    assert batch[..|batch|] == batch;
    r := Ok(marks);
  }

  lemma TooMany(before: seq<Row>, keyed: bool, marks: Marks, all: seq<Row>, row: Row, p: string)
    requires Describes(before, keyed, marks) && In(row, p) && p !in marks
    requires row in all && forall r | r in before :: r in all
    ensures |PartsOf(all)| > |marks|
  {
    PartsOfAreHeld(all, p);
    forall q | q in marks ensures q in PartsOf(all) {
      var r :| r in before && In(r, q);
      PartsOfAreHeld(all, q);
    }
    MoreThan(marks.Keys, PartsOf(all), p);
  }

  /** The global form's next watermark and keys. */
  function Whole(keyed: bool, newest: Option<Bound>, keys: set<string>): Marks {
    Dedup(keyed, 0, newest, keys, map[]).Cutoffs()
  }

  /** One row of the global form. */
  method NoteRow(row: Row, keyed: bool, watermark: Option<Bound>, boundaryKeys: set<string>, ghost before: seq<Row>)
    returns (newest: Option<Bound>, keys: set<string>)
    requires Describes(before, keyed, Whole(keyed, watermark, boundaryKeys)) && row.parts == []
    ensures Describes(before + [row], keyed, Whole(keyed, newest, keys))
  {
    ghost var marks := Whole(keyed, watermark, boundaryKeys);
    if row.ts.None? {
      PassedOver(before, keyed, marks, row);
      return watermark, boundaryKeys;
    }
    assert In(row, WHOLE);
    var at := row.ts.value;
    if watermark.None? || Less(watermark.value, at) {
      newest, keys := Some(at), KeyOf(row, keyed);
      if watermark.None? {
        FirstOfItsPartition(before, keyed, marks, row, WHOLE);
      } else {
        Newer(before, keyed, marks, row, WHOLE);
      }
      assert marks[WHOLE := Mark(at, keys)] == Whole(keyed, newest, keys);
    } else if watermark.value == at {
      newest, keys := watermark, boundaryKeys + KeyOf(row, keyed);
      Tied(before, keyed, marks, row, WHOLE);
      assert marks[WHOLE := Mark(at, keys)] == Whole(keyed, newest, keys);
    } else {
      newest, keys := watermark, boundaryKeys;
      LessIsTotal(watermark.value, at);
      Older(before, keyed, marks, row, WHOLE);
    }
  }

  /** One batch of the global form. */
  method NoteWhole(batch: seq<Row>, keyed: bool, watermark: Option<Bound>, boundaryKeys: set<string>, ghost done: seq<Row>)
    returns (newest: Option<Bound>, keys: set<string>)
    requires Describes(done, keyed, Whole(keyed, watermark, boundaryKeys))
    requires forall r | r in batch :: r.parts == []
    ensures Describes(done + batch, keyed, Whole(keyed, newest, keys))
  {
    newest, keys := watermark, boundaryKeys;
    assert done + batch[..0] == done;
    for i := 0 to |batch|
      invariant Describes(done + batch[..i], keyed, Whole(keyed, newest, keys))
    {
      assert done + batch[..i + 1] == (done + batch[..i]) + [batch[i]];
      newest, keys := NoteRow(batch[i], keyed, newest, keys, done + batch[..i]);
    }
    assert batch[..|batch|] == batch;
  }

  /**
    The cut-off of a target read in batches, or a failure when it has more partitions than
    `limit`: the newest timestamp, per partition where there are partition columns, and exactly
    the keys tied at it.
  */
  method ReadBounded(batches: seq<seq<Row>>, keyed: bool, columns: nat, limit: nat) returns (r: Result<Dedup, Unit>)
    requires forall b, i | 0 <= b < |batches| && 0 <= i < |batches[b]| :: |batches[b][i].parts| == columns
    ensures r.Err? <==> columns > 0 && |PartsOf(Flat(batches))| > limit
    ensures r.Ok? ==> r.value.keyed == keyed && r.value.columns == columns
    ensures r.Ok? ==> Describes(Flat(batches), keyed, r.value.Cutoffs())
  {
    var out := Dedup(keyed, columns, None, {}, map[]);
    for b := 0 to |batches|
      invariant out.keyed == keyed && out.columns == columns
      invariant Describes(Flat(batches[..b]), keyed, out.Cutoffs())
      invariant |out.partitions| <= limit
    {
      FlatOfOneMore(batches, b);
      if columns > 0 {
        var noted := NoteBatch(batches[b], keyed, limit, out.partitions, Flat(batches[..b]));
        if noted.Err? {
          FlatHoldsItsBatches(batches, b + 1);
          PartsOfMore(Flat(batches[..b + 1]), Flat(batches));
          return Err(Unit);
        }
        out := out.(partitions := noted.value);
      } else {
        var newest, keys := NoteWhole(batches[b], keyed, out.watermark, out.boundaryKeys, Flat(batches[..b]));
        out := out.(watermark := newest, boundaryKeys := keys);
      }
    }
    assert batches[..|batches|] == batches;
    if columns > 0 {
      forall p ensures p in PartsOf(Flat(batches)) <==> p in out.partitions {
        PartsOfAreHeld(Flat(batches), p);
      }
      assert PartsOf(Flat(batches)) == out.partitions.Keys;
    }
    r := Ok(out);
  }

  lemma PartsOfMore(some: seq<Row>, all: seq<Row>)
    requires forall r | r in some :: r in all
    ensures |PartsOf(some)| <= |PartsOf(all)|
  {
    assert PartsOf(some) <= PartsOf(all);
    SubsetIsNoLarger(PartsOf(some), PartsOf(all));
  }

  lemma SubsetIsNoLarger<T>(small: set<T>, big: set<T>)
    requires small <= big
    ensures |small| <= |big|
  {
    if x :| x in big && x !in small {
      MoreThan(small, big, x);
    } else {
      assert small == big;
    }
  }
}
