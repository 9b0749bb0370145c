/**
  The life of a coverage window: batches filtered while it is open, the commits that record it,
  reopens that read the target again, and its close (src/pipeline.rs, src/dedup.rs). Whatever
  happens in between, every source row ends up in the target exactly once.
*/
module Handover {
  import opened Basics
  import opened Bounds
  import opened Watermark
  import opened Coverage

  // ------------------------------------------------------------------ versions and positions

  /** The rows before version `v`. */
  function StartOf(versions: seq<seq<Row>>, v: nat): nat
    requires v <= |versions|
  {
    |Flat(versions[..v])|
  }

  lemma {:induction false} StartsGrow(versions: seq<seq<Row>>, u: nat, v: nat)
    requires u <= v <= |versions|
    ensures StartOf(versions, u) <= StartOf(versions, v) <= |Flat(versions)|
    ensures Flat(versions[..u]) <= Flat(versions[..v]) <= Flat(versions)
    decreases |versions| - u
  {
    if u < |versions| {
      FlatOfOneMore(versions, u);
      if u < v {
        StartsGrow(versions, u + 1, v);
      } else {
        StartsGrow(versions, u + 1, u + 1);
      }
    } else {
      assert versions[..v] == versions;
    }
  }

  /** A cursor: the version being read, and how many rows of the source have been. */
  datatype Cursor = Cursor(version: nat, pos: nat)

  predicate At(versions: seq<seq<Row>>, c: Cursor) {
    && c.version <= |versions| && StartOf(versions, c.version) <= c.pos
    && (if c.version < |versions| then c.pos <= StartOf(versions, c.version + 1) else c.pos == |Flat(versions)|)
  }

  /** A window that closes after source version `through` still holds at `cursor`. */
  predicate CutoffApplies(through: nat, cursor: Cursor) {
    cursor.version <= through
  }

  predicate WindowClosesAfter(through: Option<nat>, end: Cursor, beyond: nat) {
    beyond > 0 || (through.Some? && !CutoffApplies(through.value, end))
  }

  /** Whether any version in `first..=through` holds rows. */
  predicate HasDataBetween(versions: seq<seq<Row>>, first: nat, through: nat) {
    exists v | first <= v <= through && v < |versions| :: versions[v] != []
  }

  lemma {:induction false} NoDataNoRows(versions: seq<seq<Row>>, first: nat, through: nat)
    requires first <= through + 1 <= |versions| && !HasDataBetween(versions, first, through)
    ensures StartOf(versions, first) == StartOf(versions, through + 1)
    decreases through + 1 - first
  {
    if first <= through {
      FlatOfOneMore(versions, first);
      NoDataNoRows(versions, first + 1, through);
    }
  }

  // ------------------------------------------------------------------ the pipeline

  datatype Window = Window(dedup: Dedup, through: Option<nat>)

  /** What the last commit says of the window: nothing committed yet, none open, or one open. */
  datatype Recorded = Never | Closed | Open(through: Option<nat>)

  /** How a window closed: the position from which rows are written as they come, and what closed it. */
  datatype Close = Close(at: nat, byRow: bool)

  /** `head`, that of the newest window, and `close` are history: no step reads them. */
  datatype Pipeline = Pipeline(
    target: seq<Row>,
    cursor: Cursor,
    window: Option<Window>,
    recorded: Recorded,
    head: Option<nat>,
    close: Option<Close>)

  datatype Step =
    | Reopen(dedup: Dedup, through: Option<nat>, version: nat, dataAhead: bool)
    | Batch(end: Cursor)
    | SkipTo(version: nat)

  /** The head a window opens against is a version of the source, and no older than what the rebuild read. */
  predicate HeadCoversTheRebuild(versions: seq<seq<Row>>, n: nat, through: Option<nat>) {
    through.Some? ==> through.value < |versions| && n <= StartOf(versions, through.value + 1)
  }

  /** The window a reopen resumes or infers: none when it would hold nothing back. */
  function WindowOnOpen(p: Pipeline, d: Dedup, through: Option<nat>, dataAhead: bool): Option<Window> {
    if p.recorded.Closed? then None
    else if p.recorded.Open? && through.Some? && !dataAhead then None
    else if d.IsInert() || (through.Some? && !CutoffApplies(through.value, p.cursor)) then None
    else Some(Window(d, through))
  }

  /** The stream reads no further than an open window's head. */
  predicate WithinTheHead(versions: seq<seq<Row>>, through: Option<nat>, pos: nat) {
    through.Some? ==> through.value < |versions| && pos <= StartOf(versions, through.value + 1)
  }

  function Rows(versions: seq<seq<Row>>, first: nat, last: nat): seq<Row>
    requires first <= last <= |Flat(versions)|
  {
    Flat(versions)[first..last]
  }

  /**
    A step: a reopen, at the committed position and on a cut-off read from the target as it is;
    one committed batch; or moving past versions that hold no rows. The head a window is inferred
    against may be any version of the source, whatever the rebuild read. `dataAhead` is what a reopen
    makes of the versions up to a recorded head: never no when there are rows.
  */
  ghost predicate Next(versions: seq<seq<Row>>, form: Form, p: Pipeline, step: Step, q: Pipeline) {
    match step
    case Reopen(d, through, version, dataAhead) =>
      && FormOf(d) == form && (!p.recorded.Closed? ==> Describes(p.target, form.keyed, d.Cutoffs()))
      && (p.recorded.Open? ==> through == p.recorded.through)
      && (through.Some? ==> through.value < |versions| && (HasDataBetween(versions, version, through.value) ==> dataAhead))
      && var at := p.(cursor := Cursor(version, p.cursor.pos), head := if p.recorded.Closed? then p.head else through);
      && At(versions, at.cursor)
      && q == at.(window := WindowOnOpen(at, d, through, dataAhead))
    case Batch(end) =>
      && At(versions, end) && p.cursor.pos <= end.pos <= |Flat(versions)| && p.cursor.version <= end.version
      && var rows := Rows(versions, p.cursor.pos, end.pos);
      && (match p.window
          case None =>
            q == p.(target := p.target + rows, cursor := end, recorded := Closed,
                    close := if p.close.Some? then p.close else Some(Close(p.cursor.pos, false)))
          case Some(w) =>
            && WithinTheHead(versions, w.through, end.pos) && Filter(w.dedup, rows).Ok?
            && var f := Filter(w.dedup, rows).value;
            && var closes := WindowClosesAfter(w.through, end, f.beyond);
            && q == Pipeline(p.target + f.kept, end, if closes then None else p.window,
                             if closes then Closed else Open(w.through), p.head,
                             if closes then Some(Close(end.pos, f.beyond > 0)) else p.close))
    case SkipTo(version) =>
      && version >= p.cursor.version && At(versions, Cursor(version, p.cursor.pos))
      && var cursor := Cursor(version, p.cursor.pos);
      && q == p.(cursor := cursor,
                 window := if p.window.Some? && p.window.value.through.Some?
                              && !CutoffApplies(p.window.value.through.value, cursor)
                           then None else p.window)
  }

  // ------------------------------------------------------------------ the invariant

  function Max(a: nat, b: nat): nat {
    if a < b then b else a
  }

  /** The cut-off was read when the target held the first `m` rows. */
  ghost predicate ReadAt(versions: seq<seq<Row>>, form: Form, d: Dedup, m: nat) {
    && m <= |Flat(versions)| && FormOf(d) == form
    && Describes(Flat(versions)[..m], form.keyed, d.Cutoffs())
  }

  ghost predicate WindowIsGood(versions: seq<seq<Row>>, form: Form, n: nat, pos: nat, w: Window) {
    && w.dedup.Cutoffs() != map[]
    && exists m :: n <= m <= Max(n, pos) && ReadAt(versions, form, w.dedup, m)
  }

  /** The rows read as they come from `at` on, before `n`: written again, as the rebuild had them. */
  function Again(s: seq<Row>, n: nat, pos: nat, close: Option<Close>): seq<Row>
    requires pos <= |s| && n <= |s| && (close.Some? ==> close.value.at <= pos)
  {
    if close.None? then [] else s[close.value.at..Max(close.value.at, if n < pos then n else pos)]
  }

  /** What has been delivered: what the rebuild read, or has been read since, and what was written again. */
  ghost predicate Delivered(versions: seq<seq<Row>>, n: nat, p: Pipeline) {
    && n <= |Flat(versions)| && p.cursor.pos <= |Flat(versions)|
    && (p.close.Some? ==> p.close.value.at <= p.cursor.pos)
    && multiset(p.target) ==
       multiset(Flat(versions)[..Max(n, p.cursor.pos)]) + multiset(Again(Flat(versions), n, p.cursor.pos, p.close))
  }

  /** A position a window can close at without a newer row: its head's end, or where reading started past it. */
  ghost predicate ClosesAt(versions: seq<seq<Row>>, n: nat, start: nat, head: Option<nat>, pos: nat) {
    n == 0 || (head.Some? && head.value < |versions| && pos == Max(StartOf(versions, head.value + 1), start))
  }

  /** Where the pipeline stands, its window, what it recorded and how it closed; it began to read at `start`. */
  ghost predicate Stands(versions: seq<seq<Row>>, n: nat, start: nat, p: Pipeline) {
    && At(versions, p.cursor) && start <= n && start <= p.cursor.pos
    && (p.recorded.Closed? <==> p.close.Some?)
    && (p.recorded.Never? ==> p.cursor.pos == start)
    && (p.recorded.Open? ==> p.recorded.through == p.head && WithinTheHead(versions, p.head, p.cursor.pos))
    && (p.window.Some? ==>
          !p.recorded.Closed? && p.window.value.through == p.head && WithinTheHead(versions, p.head, p.cursor.pos))
    && (p.window.None? && !p.recorded.Closed? ==> ClosesAt(versions, n, start, p.head, p.cursor.pos))
    && (p.close.Some? ==>
          if p.close.value.byRow then p.close.value.at > n && WithinTheHead(versions, p.head, p.close.value.at)
          else ClosesAt(versions, n, start, p.head, p.close.value.at))
  }

  ghost predicate Inv(versions: seq<seq<Row>>, form: Form, n: nat, start: nat, p: Pipeline) {
    && Delivered(versions, n, p) && Stands(versions, n, start, p)
    && (p.window.Some? ==> WindowIsGood(versions, form, n, p.cursor.pos, p.window.value))
  }

  /** Past a head, or with no rows left up to it, its rows are behind. */
  lemma PastTheHead(versions: seq<seq<Row>>, through: nat, c: Cursor)
    requires through < |versions| && At(versions, c)
    requires !CutoffApplies(through, c) || !HasDataBetween(versions, c.version, through)
    ensures c.pos >= StartOf(versions, through + 1)
  {
    if CutoffApplies(through, c) {
      NoDataNoRows(versions, c.version, through);
    } else {
      StartsGrow(versions, through + 1, c.version);
    }
  }

  /** Up to a head, no more than its rows have been read. */
  lemma UpToTheHead(versions: seq<seq<Row>>, through: nat, c: Cursor)
    requires through < |versions| && At(versions, c) && CutoffApplies(through, c)
    ensures c.pos <= StartOf(versions, through + 1)
  {
    StartsGrow(versions, c.version + 1, through + 1);
  }

  lemma SameRows(a: seq<Row>, b: seq<Row>)
    requires multiset(a) == multiset(b)
    ensures forall r :: r in a <==> r in b
  {
    forall r ensures r in a <==> r in b {
      assert r in multiset(a) <==> r in multiset(b);
    }
  }

  lemma SameRowsSameMarks(a: seq<Row>, b: seq<Row>, keyed: bool, marks: Marks)
    requires forall r :: r in a <==> r in b
    requires Describes(a, keyed, marks)
    ensures Describes(b, keyed, marks)
  {
    assert forall p :: Holds(a, p) <==> Holds(b, p);
    forall p | p in marks ensures IsMark(b, keyed, p, marks[p]) {
      assert IsMark(a, keyed, p, marks[p]);
      assert forall k :: HoldsKeyAt(a, p, marks[p].at, k) <==> HoldsKeyAt(b, p, marks[p].at, k);
    }
  }

  lemma ReadFromTheTarget(versions: seq<seq<Row>>, form: Form, n: nat, p: Pipeline, d: Dedup)
    requires Delivered(versions, n, p) && p.close.None? && Ordered(Flat(versions), form)
    requires FormOf(d) == form && Describes(p.target, form.keyed, d.Cutoffs())
    ensures ReadAt(versions, form, d, Max(n, p.cursor.pos))
    ensures d.IsInert() ==> n == 0
    ensures !d.IsInert() ==> d.Cutoffs() != map[]
  {
    var m := Max(n, p.cursor.pos);
    SameRows(p.target, Flat(versions)[..m]);
    SameRowsSameMarks(p.target, Flat(versions)[..m], form.keyed, d.Cutoffs());
    InertHoldsNothing(versions, form, d, m);
  }

  lemma ReopenKeepsInv(versions: seq<seq<Row>>, form: Form, n: nat, start: nat, p: Pipeline, step: Step, q: Pipeline)
    requires Inv(versions, form, n, start, p) || Rebuilt(versions, n, start, p)
    requires step.Reopen? && Next(versions, form, p, step, q) && Ordered(Flat(versions), form)
    ensures Inv(versions, form, n, start, q)
  {
    if !p.recorded.Closed? {
      ReadFromTheTarget(versions, form, n, p, step.dedup);
      ReopenedWhereItStands(versions, n, start, p, step, q);
    }
  }

  /** What a reopen's head says of the position: within it while a window opens, at its end where none does. */
  lemma ReopenedWhereItStands(versions: seq<seq<Row>>, n: nat, start: nat, p: Pipeline, step: Step, q: Pipeline)
    requires step.Reopen? && p.recorded.Never? ==> p.cursor.pos == start
    requires step.Reopen? && !p.recorded.Closed? && q.cursor == Cursor(step.version, p.cursor.pos) && At(versions, q.cursor)
    requires p.recorded.Open? ==> step.through == p.recorded.through && WithinTheHead(versions, step.through, p.cursor.pos)
    requires step.through.Some? ==>
               && step.through.value < |versions|
               && (HasDataBetween(versions, step.version, step.through.value) ==> step.dataAhead)
    requires start <= p.cursor.pos && q.window == WindowOnOpen(p.(cursor := q.cursor), step.dedup, step.through, step.dataAhead)
    ensures q.window.Some? ==> WithinTheHead(versions, step.through, p.cursor.pos)
    ensures q.window.None? && !step.dedup.IsInert() ==> ClosesAt(versions, n, start, step.through, p.cursor.pos)
  {
    if step.through.Some? {
      var h := step.through.value;
      if CutoffApplies(h, q.cursor) {
        UpToTheHead(versions, h, q.cursor);
      }
      if !CutoffApplies(h, q.cursor) || !HasDataBetween(versions, step.version, h) {
        PastTheHead(versions, h, q.cursor);
      }
    }
  }

  /** A target with no marks holds no row of an ordered source. */
  lemma InertHoldsNothing(versions: seq<seq<Row>>, form: Form, d: Dedup, m: nat)
    requires Ordered(Flat(versions), form) && ReadAt(versions, form, d, m)
    ensures d.IsInert() ==> m == 0
    ensures !d.IsInert() ==> d.Cutoffs() != map[]
  {
    var s := Flat(versions);
    if m > 0 {
      assert s[..m][0] == s[0] && In(s[0], PartOf(s[0]).value);
      assert Holds(s[..m], PartOf(s[0]).value);
    }
    assert !d.IsInert() && d.columns == 0 ==> WHOLE in d.Cutoffs();
  }

  // ------------------------------------------------------------------ one batch

  lemma {:induction false} KeptIsTheRest(d: Dedup, batch: seq<Row>, cut: nat)
    requires cut <= |batch| && forall i | 0 <= i < |batch| :: Keeps(d, batch[i]) <==> i >= cut
    ensures Kept(d, batch) == batch[cut..]
  {
    if |batch| > 0 {
      var before := batch[..|batch| - 1];
      KeptIsTheRest(d, before, if cut < |batch| then cut else cut - 1);
      assert cut < |batch| ==> batch[cut..] == before[cut..] + [batch[|batch| - 1]];
    }
  }

  /** A good window's verdict on a row still to be read: kept exactly if the rebuild had not read it. */
  lemma VerdictOnARow(versions: seq<seq<Row>>, form: Form, n: nat, pos: nat, w: Window, i: nat)
    requires Ordered(Flat(versions), form) && n <= |Flat(versions)| && pos <= i < |Flat(versions)|
    requires WindowIsGood(versions, form, n, pos, w)
    ensures Placeable(Flat(versions)[i], form) && FormOf(w.dedup) == form
    ensures Keeps(w.dedup, Flat(versions)[i]) <==> i >= n
    ensures Beyond(w.dedup.Cutoffs(), Flat(versions)[i]) ==> i >= n
  {
    var s := Flat(versions);
    var m :| n <= m <= Max(n, pos) && ReadAt(versions, form, w.dedup, m);
    CoversExactlyThePrefix(s, form, m, w.dedup.Cutoffs(), i);
    if form.columns == 0 {
      GlobalIsOnePartition(w.dedup, s[i]);
    }
  }

  /** The place of the first row at or past `n` among those of `pos..end`. */
  function FirstUnread(n: nat, pos: nat, end: nat): (first: nat)
    requires pos <= end
    ensures pos <= first <= end
  {
    if n <= pos then pos else if n <= end then n else end
  }

  /** The verdict of cut-off `d` on row `i`: kept if and only if it is at or past `n`. */
  predicate RightVerdict(s: seq<Row>, d: Dedup, n: nat, i: nat)
    requires i < |s|
  {
    && Placeable(s[i], FormOf(d)) && (Keeps(d, s[i]) <==> i >= n)
    && (Beyond(d.Cutoffs(), s[i]) ==> i >= n)
  }

  lemma RightVerdicts(versions: seq<seq<Row>>, form: Form, n: nat, pos: nat, w: Window)
    requires Ordered(Flat(versions), form) && n <= |Flat(versions)|
    requires WindowIsGood(versions, form, n, pos, w)
    ensures forall i | pos <= i < |Flat(versions)| :: RightVerdict(Flat(versions), w.dedup, n, i)
  {
    forall i | pos <= i < |Flat(versions)| ensures RightVerdict(Flat(versions), w.dedup, n, i) {
      VerdictOnARow(versions, form, n, pos, w, i);
    }
  }

  /** What such verdicts keep of the rows `pos..end`: those at or past `n`. */
  lemma KeepsWhatWasNotRead(s: seq<Row>, d: Dedup, n: nat, pos: nat, end: nat)
    requires pos <= end <= |s| && d.Cutoffs() != map[]
    requires forall i | pos <= i < |s| :: RightVerdict(s, d, n, i)
    ensures var f := Filter(d, s[pos..end]);
            f.Ok? && f.value.kept == s[FirstUnread(n, pos, end)..end] && (f.value.beyond > 0 ==> end > n)
  {
    var rows := s[pos..end];
    var cut := FirstUnread(n, pos, end) - pos;
    assert forall i | 0 <= i < |rows| :: RightVerdict(s, d, n, pos + i) && rows[i] == s[pos + i];
    BatchVerdict(d, rows, cut);
    assert rows[cut..] == s[FirstUnread(n, pos, end)..end];
  }

  lemma BatchVerdict(d: Dedup, rows: seq<Row>, cut: nat)
    requires cut <= |rows| && d.Cutoffs() != map[]
    requires forall i | 0 <= i < |rows| :: Placeable(rows[i], FormOf(d))
    requires forall i | 0 <= i < |rows| :: Keeps(d, rows[i]) <==> i >= cut
    ensures Filter(d, rows).Ok? && Filter(d, rows).value.kept == rows[cut..]
    ensures Filter(d, rows).value.beyond > 0 ==> exists r :: r in rows && Beyond(d.Cutoffs(), r)
  {
    FilterFailsIff(d, rows);
    FilterSplits(d, rows);
    BeyondIsSomeRow(d.Cutoffs(), rows);
    KeptIsTheRest(d, rows, cut);
  }

  lemma KeepsOfAGoodWindow(versions: seq<seq<Row>>, form: Form, n: nat, pos: nat, end: nat, w: Window)
    requires Ordered(Flat(versions), form) && n <= |Flat(versions)| && pos <= end <= |Flat(versions)|
    requires WindowIsGood(versions, form, n, pos, w)
    ensures var f := Filter(w.dedup, Rows(versions, pos, end));
            f.Ok? && f.value.kept == Rows(versions, FirstUnread(n, pos, end), end) && (f.value.beyond > 0 ==> end > n)
  {
    RightVerdicts(versions, form, n, pos, w);
    KeepsWhatWasNotRead(Flat(versions), w.dedup, n, pos, end);
  }

  lemma UpToTheEnd(s: seq<Row>, n: nat, pos: nat, end: nat)
    requires pos <= end <= |s| && n <= |s|
    ensures multiset(s[..Max(n, pos)]) + multiset(s[FirstUnread(n, pos, end)..end]) == multiset(s[..Max(n, end)])
  {
    assert s[..Max(n, end)] == s[..Max(n, pos)] + s[FirstUnread(n, pos, end)..end];
  }

  lemma GoodWindowStays(versions: seq<seq<Row>>, form: Form, n: nat, pos: nat, end: nat, w: Window)
    requires WindowIsGood(versions, form, n, pos, w) && pos <= end
    ensures WindowIsGood(versions, form, n, end, w)
  {
    var m :| n <= m <= Max(n, pos) && ReadAt(versions, form, w.dedup, m);
  }

  lemma FilteredBatchDelivers(versions: seq<seq<Row>>, form: Form, n: nat, p: Pipeline, step: Step, q: Pipeline)
    requires Delivered(versions, n, p) && p.close.None? && p.window.Some? && Ordered(Flat(versions), form)
    requires WindowIsGood(versions, form, n, p.cursor.pos, p.window.value)
    requires step.Batch? && Next(versions, form, p, step, q)
    ensures Delivered(versions, n, q) && (q.close.Some? && q.close.value.byRow ==> q.close.value.at > n)
  {
    var (s, pos, end) := (Flat(versions), p.cursor.pos, step.end.pos);
    KeepsOfAGoodWindow(versions, form, n, pos, end, p.window.value);
    UpToTheEnd(s, n, pos, end);
    assert Again(s, n, pos, p.close) == [] && Again(s, n, end, q.close) == [];
  }

  /** What a filtered batch leaves of the window: open as it was, or closed by a newer row or by its head. */
  ghost predicate Filtered(p: Pipeline, q: Pipeline, w: Window)
  {
    && q.head == p.head
    && (|| (q.window == Some(w) && q.recorded == Open(w.through) && q.close == p.close)
        || (&& q.window == None && q.recorded == Closed && q.close.Some? && q.close.value.at == q.cursor.pos
            && (q.close.value.byRow || (w.through.Some? && !CutoffApplies(w.through.value, q.cursor)))))
  }

  lemma FilteredBatchLeaves(versions: seq<seq<Row>>, form: Form, p: Pipeline, step: Step, q: Pipeline)
    requires p.window.Some? && step.Batch? && Next(versions, form, p, step, q)
    ensures Filtered(p, q, p.window.value)
    ensures At(versions, q.cursor) && p.cursor.pos <= q.cursor.pos && WithinTheHead(versions, p.window.value.through, q.cursor.pos)
  {
  }

  /**
    A filtered batch closes its window exactly if it carries a row past its mark, or the stream has read
    past the window's head; and a window that stays open is recorded.
  */
  lemma BatchClosesIff(versions: seq<seq<Row>>, form: Form, p: Pipeline, step: Step, q: Pipeline)
    requires p.window.Some? && step.Batch? && Next(versions, form, p, step, q)
    requires p.window.value.dedup.Cutoffs() != map[]
    ensures var (w, rows) := (p.window.value, Rows(versions, p.cursor.pos, q.cursor.pos));
            var closes := || (exists r :: r in rows && Beyond(w.dedup.Cutoffs(), r))
                          || (w.through.Some? && q.cursor.version > w.through.value);
            && (closes ==> q.window == None && q.recorded == Closed)
            && (!closes ==> q.window == Some(w) && q.recorded == Open(w.through))
  {
    var (w, rows) := (p.window.value, Rows(versions, p.cursor.pos, q.cursor.pos));
    BeyondIsSomeRow(w.dedup.Cutoffs(), rows);
  }

  lemma FilteredStands(versions: seq<seq<Row>>, n: nat, start: nat, p: Pipeline, q: Pipeline, w: Window)
    requires p.window == Some(w) && Stands(versions, n, start, p) && Filtered(p, q, w)
    requires At(versions, q.cursor) && p.cursor.pos <= q.cursor.pos && WithinTheHead(versions, w.through, q.cursor.pos)
    requires q.close.Some? && q.close.value.byRow ==> q.close.value.at > n
    ensures Stands(versions, n, start, q)
  {
    if w.through.Some? && !CutoffApplies(w.through.value, q.cursor) {
      PastTheHead(versions, w.through.value, q.cursor);
    }
  }

  lemma FilteredBatchKeepsInv(versions: seq<seq<Row>>, form: Form, n: nat, start: nat, p: Pipeline, step: Step, q: Pipeline)
    requires Inv(versions, form, n, start, p) && p.window.Some? && step.Batch? && Next(versions, form, p, step, q)
    requires Ordered(Flat(versions), form)
    ensures Inv(versions, form, n, start, q)
  {
    FilteredBatchDelivers(versions, form, n, p, step, q);
    FilteredBatchLeaves(versions, form, p, step, q);
    GoodWindowStays(versions, form, n, p.cursor.pos, q.cursor.pos, p.window.value);
    FilteredStands(versions, n, start, p, q, p.window.value);
  }

  lemma Rearranged(a: multiset<Row>, b: multiset<Row>, c: multiset<Row>, d: multiset<Row>)
    ensures a + b + (c + d) == (a + d) + (b + c)
  {
  }

  /** Rows written as they come: each that the rebuild had, and no other, is written again. */
  lemma WrittenAsTheyCome(s: seq<Row>, n: nat, pos: nat, end: nat, close: Close)
    requires close.at <= pos <= end <= |s| && n <= |s|
    ensures multiset(s[..Max(n, pos)]) + multiset(Again(s, n, pos, Some(close))) + multiset(s[pos..end]) ==
            multiset(s[..Max(n, end)]) + multiset(Again(s, n, end, Some(close)))
  {
    var cut := FirstUnread(n, pos, end);
    assert s[pos..end] == s[pos..cut] + s[cut..end];
    assert s[..Max(n, end)] == s[..Max(n, pos)] + s[cut..end];
    assert Again(s, n, end, Some(close)) == Again(s, n, pos, Some(close)) + s[pos..cut];
    Rearranged(multiset(s[..Max(n, pos)]), multiset(Again(s, n, pos, Some(close))), multiset(s[pos..cut]), multiset(s[cut..end]));
  }

  lemma UnfilteredBatchKeepsInv(versions: seq<seq<Row>>, form: Form, n: nat, start: nat, p: Pipeline, step: Step, q: Pipeline)
    requires Inv(versions, form, n, start, p) && p.window.None? && step.Batch? && Next(versions, form, p, step, q)
    ensures Inv(versions, form, n, start, q)
  {
    var (pos, end) := (p.cursor.pos, step.end.pos);
    WrittenAsTheyCome(Flat(versions), n, pos, end, q.close.value);
    assert p.close.None? ==> Again(Flat(versions), n, pos, q.close) == [];
  }

  /** Every step keeps the invariant, whatever head a window opens against. */
  lemma StepKeepsInv(versions: seq<seq<Row>>, form: Form, n: nat, start: nat, p: Pipeline, step: Step, q: Pipeline)
    requires Inv(versions, form, n, start, p) && Next(versions, form, p, step, q)
    requires Ordered(Flat(versions), form)
    ensures Inv(versions, form, n, start, q)
  {
    match step
    case Reopen(_, _, _, _) => ReopenKeepsInv(versions, form, n, start, p, step, q);
    case Batch(_) =>
      if p.window.Some? {
        FilteredBatchKeepsInv(versions, form, n, start, p, step, q);
      } else {
        UnfilteredBatchKeepsInv(versions, form, n, start, p, step, q);
      }
    case SkipTo(version) => SkipKeepsInv(versions, form, n, start, p, version, q);
  }

  lemma SkipKeepsInv(versions: seq<seq<Row>>, form: Form, n: nat, start: nat, p: Pipeline, version: nat, q: Pipeline)
    requires Inv(versions, form, n, start, p) && Next(versions, form, p, SkipTo(version), q)
    ensures Inv(versions, form, n, start, q)
  {
    if p.window.Some? && p.head.Some? && !CutoffApplies(p.head.value, q.cursor) {
      PastTheHead(versions, p.head.value, q.cursor);
    }
  }

  // ------------------------------------------------------------------ whole runs

  /** A run from the rebuild: its first step is a reopen, at a start no later than the read point. */
  ghost predicate Run(versions: seq<seq<Row>>, form: Form, states: seq<Pipeline>, steps: seq<Step>) {
    && |states| == |steps| + 1 && |steps| > 0 && steps[0].Reopen?
    && forall k | 0 <= k < |steps| :: Next(versions, form, states[k], steps[k], states[k + 1])
  }

  /** Just after the rebuild: the target holds the first `n` rows, nothing is committed, nothing is open. */
  ghost predicate Rebuilt(versions: seq<seq<Row>>, n: nat, start: nat, p: Pipeline) {
    && n <= |Flat(versions)| && multiset(p.target) == multiset(Flat(versions)[..n])
    && At(versions, p.cursor) && p.cursor.pos == start <= n
    && p.recorded.Never? && p.window.None? && p.head.None? && p.close.None?
  }

  lemma {:induction false} RunKeepsInv(versions: seq<seq<Row>>, form: Form, n: nat, states: seq<Pipeline>, steps: seq<Step>, k: nat)
    requires Run(versions, form, states, steps) && Rebuilt(versions, n, states[0].cursor.pos, states[0])
    requires Ordered(Flat(versions), form) && 0 < k < |states|
    ensures Inv(versions, form, n, states[0].cursor.pos, states[k])
  {
    var start := states[0].cursor.pos;
    if k == 1 {
      ReopenKeepsInv(versions, form, n, start, states[0], steps[0], states[1]);
    } else {
      RunKeepsInv(versions, form, n, states, steps, k - 1);
      StepKeepsInv(versions, form, n, start, states[k - 1], steps[k - 1], states[k]);
    }
  }

  /**
    No row is ever missing, and what is there twice is known. The target starts with the rows of some
    unknown prefix of the source, and reading starts anywhere at or before its end. In every run of
    batches, crashes and reopens, against whatever heads, the target holds exactly the rows read by
    the rebuild or since, and again those the rebuild had that were read after the window closed.
  */
  lemma HandoverLosesNothing(versions: seq<seq<Row>>, form: Form, n: nat, states: seq<Pipeline>, steps: seq<Step>, k: nat)
    requires Run(versions, form, states, steps) && Rebuilt(versions, n, states[0].cursor.pos, states[0])
    requires Ordered(Flat(versions), form) && 0 < k < |states|
    ensures Delivered(versions, n, states[k])
  {
    RunKeepsInv(versions, form, n, states, steps, k);
  }

  /** Whatever is written again, every row of a source read to its end is there. */
  lemma NoRowIsMissing(versions: seq<seq<Row>>, n: nat, p: Pipeline)
    requires Delivered(versions, n, p) && p.cursor.pos == |Flat(versions)|
    ensures multiset(Flat(versions)) <= multiset(p.target)
  {
    assert Flat(versions)[..|Flat(versions)|] == Flat(versions);
  }

  /** A head older than what the rebuild read, while rows of the rebuild are still to be read. */
  predicate HeadIsTooOld(versions: seq<seq<Row>>, n: nat, start: nat, head: Option<nat>) {
    start < n && head.Some? && head.value < |versions| && StartOf(versions, head.value + 1) < n
  }

  /**
    When each row is there exactly once, the whole source having been read: if and only if the head of
    the newest window is no older than what the rebuild read, or reading started at the rebuild's own
    end. It is nothing the run decides: under such a head no newer row ever comes first to close it.
  */
  lemma ExactlyOnceIff(versions: seq<seq<Row>>, form: Form, n: nat, states: seq<Pipeline>, steps: seq<Step>, k: nat)
    requires Run(versions, form, states, steps) && Rebuilt(versions, n, states[0].cursor.pos, states[0])
    requires Ordered(Flat(versions), form) && 0 < k < |states| && states[k].cursor.pos == |Flat(versions)|
    ensures multiset(states[k].target) == multiset(Flat(versions)) <==>
              !HeadIsTooOld(versions, n, states[0].cursor.pos, states[k].head)
  {
    RunKeepsInv(versions, form, n, states, steps, k);
    OnceIff(versions, n, states[0].cursor.pos, states[k]);
  }

  lemma AgainIff(versions: seq<seq<Row>>, n: nat, start: nat, p: Pipeline)
    requires Stands(versions, n, start, p) && n <= |Flat(versions)| == p.cursor.pos
    requires p.close.Some? ==> p.close.value.at <= p.cursor.pos
    ensures Again(Flat(versions), n, p.cursor.pos, p.close) == [] <==> !HeadIsTooOld(versions, n, start, p.head)
  {
    assert p.close.Some? ==> |Again(Flat(versions), n, p.cursor.pos, p.close)| == Max(p.close.value.at, n) - p.close.value.at;
  }

  lemma OnceIff(versions: seq<seq<Row>>, n: nat, start: nat, p: Pipeline)
    requires Delivered(versions, n, p) && Stands(versions, n, start, p) && p.cursor.pos == |Flat(versions)|
    ensures multiset(p.target) == multiset(Flat(versions)) <==> !HeadIsTooOld(versions, n, start, p.head)
  {
    var s := Flat(versions);
    assert s[..|s|] == s;
    AgainIff(versions, n, start, p);
    NothingExtra(multiset(s), Again(s, n, p.cursor.pos, p.close));
  }

  lemma NothingExtra(all: multiset<Row>, again: seq<Row>)
    ensures all + multiset(again) == all <==> again == []
  {
    assert |all + multiset(again)| == |all| + |again|;
  }

  /** Every head a reopen takes is no older than what the rebuild read. */
  predicate HeadsCover(versions: seq<seq<Row>>, n: nat, steps: seq<Step>) {
    forall k | 0 <= k < |steps| && steps[k].Reopen? :: HeadCoversTheRebuild(versions, n, steps[k].through)
  }

  lemma {:induction false} HeadCovers(versions: seq<seq<Row>>, form: Form, n: nat, states: seq<Pipeline>, steps: seq<Step>, k: nat)
    requires Run(versions, form, states, steps) && states[0].head.None? && k < |states|
    requires HeadsCover(versions, n, steps)
    ensures HeadCoversTheRebuild(versions, n, states[k].head)
  {
    if k > 0 {
      HeadCovers(versions, form, n, states, steps, k - 1);
      assert Next(versions, form, states[k - 1], steps[k - 1], states[k]);
    }
  }

  /** Exact handover, where every head covers the rebuild: at every moment each row is there once. */
  lemma HandoverIsExact(versions: seq<seq<Row>>, form: Form, n: nat, states: seq<Pipeline>, steps: seq<Step>, k: nat)
    requires Run(versions, form, states, steps) && Rebuilt(versions, n, states[0].cursor.pos, states[0])
    requires Ordered(Flat(versions), form) && 0 < k < |states| && HeadsCover(versions, n, steps)
    ensures states[k].cursor.pos <= |Flat(versions)|
    ensures multiset(states[k].target) == multiset(Flat(versions)[..Max(n, states[k].cursor.pos)])
    ensures states[k].cursor.pos == |Flat(versions)| ==> multiset(states[k].target) == multiset(Flat(versions))
  {
    RunKeepsInv(versions, form, n, states, steps, k);
    HeadCovers(versions, form, n, states, steps, k);
    NothingAgain(versions, form, n, states[0].cursor.pos, states[k]);
  }

  /** Under a head that covers the rebuild nothing is written again. */
  lemma NothingAgain(versions: seq<seq<Row>>, form: Form, n: nat, start: nat, p: Pipeline)
    requires Inv(versions, form, n, start, p) && HeadCoversTheRebuild(versions, n, p.head)
    ensures p.cursor.pos <= |Flat(versions)|
    ensures multiset(p.target) == multiset(Flat(versions)[..Max(n, p.cursor.pos)])
    ensures p.cursor.pos == |Flat(versions)| ==> multiset(p.target) == multiset(Flat(versions))
  {
    assert Again(Flat(versions), n, p.cursor.pos, p.close) == [];
    assert Flat(versions)[..|Flat(versions)|] == Flat(versions);
  }

  /**
    Closing is safe: with no window open, no row still to be read is one the rebuild read, so
    dropping the filter writes nothing twice. Whatever the heads, this is so after a newer row closed it.
  */
  lemma ClosingIsSafe(versions: seq<seq<Row>>, form: Form, n: nat, states: seq<Pipeline>, steps: seq<Step>, k: nat)
    requires Run(versions, form, states, steps) && Rebuilt(versions, n, states[0].cursor.pos, states[0])
    requires Ordered(Flat(versions), form) && 0 < k < |states| && states[k].window.None?
    requires HeadsCover(versions, n, steps) || (states[k].close.Some? && states[k].close.value.byRow)
    ensures n <= states[k].cursor.pos
  {
    RunKeepsInv(versions, form, n, states, steps, k);
    if HeadsCover(versions, n, steps) {
      HeadCovers(versions, form, n, states, steps, k);
    }
  }

  // ------------------------------------------------------------------ a head older than the rebuild

  /** A single cut-off with a key. */
  const KEYED: Form := Form(0, true)

  function DatedRow(ts: int, key: string): Row {
    Row(Some(Int(ts)), [], Some(key))
  }

  /** The cut-off of a target that holds "a" at 1 and "b" at 2. */
  function TwoRead(): Dedup {
    Dedup(true, 0, Some(Int(2)), {"b"}, map[])
  }

  lemma TwoAreRead()
    ensures Describes([DatedRow(1, "a"), DatedRow(2, "b")], true, TwoRead().Cutoffs())
  {
    var (a, b) := (DatedRow(1, "a"), DatedRow(2, "b"));
    var none: Marks := map[];
    assert Describes([], true, none);
    FirstOfItsPartition([], true, none, a, WHOLE);
    var one := none[WHOLE := Mark(Int(1), {"a"})];
    assert [] + [a] == [a] && KeyOf(a, true) == {"a"} && KeyOf(b, true) == {"b"};
    Newer([a], true, one, b, WHOLE);
    assert [a] + [b] == [a, b];
    assert one[WHOLE := Mark(Int(2), {"b"})] == TwoRead().Cutoffs();
  }

  lemma FirstIsCovered()
    ensures var f := Filter(TwoRead(), [DatedRow(1, "a")]); f.Ok? && f.value.kept == [] && f.value.beyond == 0
  {
    var (d, a) := (TwoRead(), DatedRow(1, "a"));
    assert PartOf(a) == Some(WHOLE) && !Keeps(d, a) && !Beyond(d.Cutoffs(), a);
    assert [a][..0] == [] && Kept(d, [a]) == [] && BeyondCount(d.Cutoffs(), [a]) == 0;
  }

  lemma TwoVersions(a: Row, b: Row)
    ensures var versions := [[a], [b]];
            && Flat(versions) == [a, b]
            && StartOf(versions, 0) == 0 && StartOf(versions, 1) == 1 && StartOf(versions, 2) == 2
  {
    var versions := [[a], [b]];
    assert versions[..0] == [] && versions[..1] == [[a]] && versions[..2] == versions;
    assert versions[..1][..0] == [] && Flat(versions[..0]) == [];
    assert Flat(versions[..1]) == [] + [a];
    assert Flat(versions) == Flat(versions[..1]) + [b];
  }

  lemma TwoAreOrdered(a: Row, b: Row)
    requires a == DatedRow(1, "a") && b == DatedRow(2, "b")
    ensures Ordered([a, b], KEYED)
  {
    assert PartOf(a) == Some(WHOLE) == PartOf(b);
  }

  /** The states of the next lemma's run. */
  function TwiceRun(a: Row, b: Row): seq<Pipeline> {
    var (window, close) := (Window(TwoRead(), Some(0)), Some(Close(1, false)));
    [Pipeline([a, b], Cursor(0, 0), None, Never, None, None),
     Pipeline([a, b], Cursor(0, 0), Some(window), Never, Some(0), None),
     Pipeline([a, b], Cursor(1, 1), None, Closed, Some(0), close),
     Pipeline([a, b, b], Cursor(2, 2), None, Closed, Some(0), close)]
  }

  lemma TwiceOpens(a: Row, b: Row)
    requires a == DatedRow(1, "a") && b == DatedRow(2, "b")
    ensures Next([[a], [b]], KEYED, TwiceRun(a, b)[0], Reopen(TwoRead(), Some(0), 0, true), TwiceRun(a, b)[1])
  {
    TwoVersions(a, b);
    TwoAreRead();
  }

  lemma TwiceCloses(a: Row, b: Row)
    requires a == DatedRow(1, "a") && b == DatedRow(2, "b")
    ensures Next([[a], [b]], KEYED, TwiceRun(a, b)[1], Batch(Cursor(1, 1)), TwiceRun(a, b)[2])
  {
    TwoVersions(a, b);
    FirstIsCovered();
    assert [a, b][0..1] == [a] && [a, b] + [] == [a, b];
  }

  lemma TwiceWrites(a: Row, b: Row)
    ensures Next([[a], [b]], KEYED, TwiceRun(a, b)[2], Batch(Cursor(2, 2)), TwiceRun(a, b)[3])
  {
    TwoVersions(a, b);
    assert [a, b][1..2] == [b] && [a, b] + [b] == [a, b, b];
  }

  /**
    A run that writes a row twice: the rebuild read versions 0 and 1, and the window opened against
    head 0. The first batch reads to that head and closes the window; the second writes "b" again.
  */
  lemma AnOlderHeadWritesARowTwice() returns (steps: seq<Step>)
    ensures var (a, b) := (DatedRow(1, "a"), DatedRow(2, "b"));
            var states := TwiceRun(a, b);
            && Run([[a], [b]], KEYED, states, steps) && Rebuilt([[a], [b]], 2, 0, states[0]) && Ordered(Flat([[a], [b]]), KEYED)
            && states[3].target == [a, b, b]
  {
    var (a, b) := (DatedRow(1, "a"), DatedRow(2, "b"));
    steps := [Reopen(TwoRead(), Some(0), 0, true), Batch(Cursor(1, 1)), Batch(Cursor(2, 2))];
    TwoVersions(a, b);
    TwiceOpens(a, b);
    TwiceCloses(a, b);
    TwiceWrites(a, b);
    TwoAreOrdered(a, b);
    assert [a, b][..2] == [a, b];
  }
}
