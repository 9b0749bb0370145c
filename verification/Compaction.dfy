/**
  Compaction that stays safe when another engine compacts the same table: a check over the
  commits since the plan, then a put-if-absent, with retries at higher versions
  (src/compact.rs).
*/
module Compaction {
  import opened Basics
  import opened TableRows

  datatype LogError = Conflict | VersionAlreadyExists | StoreFault

  /** A table's log in its store: what was committed, what cleanup took, and what cannot be read. */
  class LogStore {
    var commits: seq<Commit>
    var cleaned: set<nat>
    var faulty: set<nat>

    constructor (commits: seq<Commit>)
      ensures this.commits == commits && cleaned == {} && faulty == {}
    {
      this.commits := commits;
      cleaned, faulty := {}, {};
    }

    /** Whether version `v`'s commit can be read back. */
    predicate Readable(v: nat)
      reads this
    {
      v < |commits| && v !in cleaned && v !in faulty
    }

    method ReadCommitEntry(v: nat) returns (r: Result<Option<Commit>, LogError>)
      ensures r.Err? <==> v in faulty
      ensures r.Ok? ==> (r.value.Some? <==> Readable(v))
      ensures r.Ok? && r.value.Some? ==> r.value.value == commits[v]
    {
      if v in faulty {
        return Err(StoreFault);
      }
      r := Ok(if v < |commits| && v !in cleaned then Some(commits[v]) else None);
    }

    /** Put `c` at `version` unless something is there: never over another commit, never past a gap. */
    method PutIfAbsent(version: nat, c: Commit) returns (r: Result<Unit, LogError>)
      requires version <= |commits|
      modifies this`commits
      ensures r.Ok? <==> version == |old(commits)|
      ensures commits == if r.Ok? then old(commits) + [c] else old(commits)
      ensures r.Err? ==> r.error == VersionAlreadyExists
    {
      if version < |commits| {
        return Err(VersionAlreadyExists);
      }
      commits := commits + [c];
      r := Ok(Unit);
    }

    /** Other writers' commits land. */
    method Race(others: seq<Commit>)
      modifies this`commits
      ensures commits == old(commits) + others
    {
      commits := commits + others;
    }
  }

  /** No commit of `from..to` removed one of `paths`. */
  ghost predicate Untouched(log: seq<Commit>, from: nat, to: nat, paths: set<string>) {
    forall v | from <= v < to && v < |log| :: Removed(log[v]) !! paths
  }

  /** A log store that refuses a commit removing a file a commit since `checked` already removed. */
  class GuardedLogStore {
    const inner: LogStore
    var checked: nat

    constructor (inner: LogStore, base: nat)
      ensures this.inner == inner && checked == base
    {
      this.inner := inner;
      checked := base;
    }

    /** Every commit after `base`, up to `checked`, left `paths` alone. */
    ghost predicate Guards(base: nat, paths: set<string>)
      reads this, inner
    {
      base <= checked < |inner.commits| && Untouched(inner.commits, base + 1, checked + 1, paths)
    }

    /** What the guard looks for between `checked` and `version`: every commit readable, none touching `paths`. */
    ghost predicate Passes(version: nat, paths: set<string>)
      reads this, inner
    {
      forall v | checked < v < version :: inner.Readable(v) && Removed(inner.commits[v]) !! paths
    }

    /**
      Put `ours` at `version`, if every commit since `checked` can be read and none removed a file
      it removes. `race` is what other writers land between the check and the put.
    */
    method WriteCommitEntry(version: nat, ours: Commit, race: seq<Commit>, ghost base: nat)
      returns (r: Result<Unit, LogError>)
      requires 1 <= version <= |inner.commits| && Guards(base, Removed(ours))
      modifies this, inner`commits
      ensures r.Ok? <==>
                && race == [] && version == |old(inner.commits)|
                && (Removed(ours) != {} ==> old(Passes(version, Removed(ours))))
      ensures r.Ok? ==>
                && inner.commits == old(inner.commits) + [ours]
                && Untouched(old(inner.commits), base + 1, version, Removed(ours))
      ensures r.Err? && r.error.VersionAlreadyExists? ==>
                inner.commits == old(inner.commits) + race && Guards(base, Removed(ours))
      ensures r.Err? && !r.error.VersionAlreadyExists? ==>
                && inner.commits == old(inner.commits) && checked == old(checked)
                && Removed(ours) != {} && !old(Passes(version, Removed(ours)))
      ensures checked == old(checked) || checked == version - 1
    {
      var paths := RemovedPaths(ours);
      if paths != {} {
        var v := checked + 1;
        while v < version
          invariant checked < v
          invariant inner.commits == old(inner.commits) && checked == old(checked)
          invariant forall k | checked < k < v && k < |inner.commits| ::
                      old(inner.Readable(k)) && Removed(old(inner.commits)[k]) !! paths
        {
          var read := inner.ReadCommitEntry(v);
          if read.Err? {
            return Err(StoreFault);
          }
          // A commit the log no longer holds cannot be checked, and what cannot be checked does not land.
          if read.value.None? {
            return Err(Conflict);
          }
          var theirs := RemovedPaths(read.value.value);
          if !(theirs !! paths) {
            return Err(Conflict);
          }
          v := v + 1;
        }
        assert old(Passes(version, Removed(ours)));
        checked := if version - 1 > checked then version - 1 else checked;
      }
      inner.Race(race);
      r := inner.PutIfAbsent(version, ours);
    }
  }

  // ------------------------------------------------------------------ one landing

  /** What a compaction means to do: replace files live at its base with others of the same rows. */
  datatype Plan = Plan(base: nat, removes: set<string>, adds: Files)

  /** The files of the snapshot the plan was made on. */
  function Snapshot(log: seq<Commit>, plan: Plan): Files
    requires plan.base < |log|
  {
    Live(log[..plan.base + 1])
  }

  /** The plan's files were live in its snapshot, and what replaces them holds the same rows. */
  ghost predicate Planned(log: seq<Commit>, plan: Plan) {
    && plan.base < |log|
    && plan.removes <= Snapshot(log, plan).Keys
    && RowsOf(plan.adds) == RowsOf(Only(Snapshot(log, plan), plan.removes))
  }

  predicate CarriesPlan(c: Commit, plan: Plan) {
    Removed(c) == plan.removes && Added(c) == plan.adds
  }

  /** A file the plan removes is still live, and the same, unless a commit since removed it. */
  ghost predicate Held(log: seq<Commit>, plan: Plan)
    requires plan.base < |log| && plan.removes <= Snapshot(log, plan).Keys
  {
    forall path | path in plan.removes && Untouched(log, plan.base + 1, |log|, {path}) ::
      path in Live(log) && Live(log)[path] == Snapshot(log, plan)[path]
  }

  /** Two sets of files that agree where they meet. */
  predicate Agree(a: Files, b: Files) {
    forall path | path in a && path in b :: a[path] == b[path]
  }

  lemma LiveOfOneMore(log: seq<Commit>, c: Commit)
    ensures Live(log + [c]) == Applied(Live(log), c)
  {
    assert (log + [c])[..|log|] == log;
  }

  lemma {:induction false} NoRows(files: Files)
    ensures RowsOf(files) == multiset{} <==> forall path | path in files :: files[path] == multiset{}
    decreases |files|
  {
    if files != map[] {
      var path :| path in files;
      RowsOfOneMore(files, path);
      var rest := files - {path};
      assert forall p | p in rest :: p in files && rest[p] == files[p];
      assert forall p | p in files :: p == path || p in rest;
      NoRows(rest);
    }
  }

  /** The rows of `meant` are those still in `files` and those gone from it. */
  lemma RowsStillThere(files: Files, meant: Files)
    requires Agree(files, meant)
    ensures RowsOf(meant) == RowsOf(Only(files, meant.Keys)) + RowsOf(meant - files.Keys)
  {
    RowsOfSplit(meant, files.Keys);
    assert Only(meant, files.Keys) == Only(files, meant.Keys);
  }

  /** Applying a commit swaps the rows of the files it removes for those of the files it adds. */
  lemma RowsOfApplied(files: Files, c: Commit)
    requires Added(c).Keys !! files.Keys
    ensures RowsOf(Applied(files, c)) + RowsOf(Only(files, Removed(c))) == RowsOf(files) + RowsOf(Added(c))
  {
    RowsOfBoth(files - Removed(c), Added(c));
    RowsOfSplit(files, Removed(c));
  }

  lemma NothingAdded(before: multiset<Row>, extra: multiset<Row>)
    ensures before + extra == before <==> extra == multiset{}
  {
    assert (before + extra) - before == extra;
  }

  lemma Cancel(after: multiset<Row>, same: multiset<Row>, before: multiset<Row>, extra: multiset<Row>)
    requires after + same == before + (same + extra)
    ensures after == before + extra
  {
    assert (after + same) - same == after;
    assert (before + (same + extra)) - same == before + extra;
  }

  /**
    What a compaction's commit does when nothing guards it: it stores again exactly the rows of
    the files it removes that are no longer there.
  */
  lemma UnguardedLandingBringsBack(files: Files, snapshot: Files, plan: Plan, c: Commit)
    requires CarriesPlan(c, plan) && plan.removes <= snapshot.Keys
    requires RowsOf(plan.adds) == RowsOf(Only(snapshot, plan.removes))
    requires Agree(files, Only(snapshot, plan.removes)) && plan.adds.Keys !! files.Keys
    ensures RowsOf(Applied(files, c)) == RowsOf(files) + RowsOf(Only(snapshot, plan.removes) - files.Keys)
  {
    var meant := Only(snapshot, plan.removes);
    RowsStillThere(files, meant);
    assert meant.Keys == plan.removes;
    RowsOfApplied(files, c);
    Cancel(RowsOf(Applied(files, c)), RowsOf(Only(files, plan.removes)), RowsOf(files), RowsOf(meant - files.Keys));
  }

  /** So it is invisible if and only if the files that are gone held no row. */
  lemma UnguardedLandingIsInvisibleIff(files: Files, snapshot: Files, plan: Plan, c: Commit)
    requires CarriesPlan(c, plan) && plan.removes <= snapshot.Keys
    requires RowsOf(plan.adds) == RowsOf(Only(snapshot, plan.removes))
    requires Agree(files, Only(snapshot, plan.removes)) && plan.adds.Keys !! files.Keys
    ensures RowsOf(Applied(files, c)) == RowsOf(files) <==>
              forall path | path in plan.removes && path !in files :: snapshot[path] == multiset{}
  {
    var gone := Only(snapshot, plan.removes) - files.Keys;
    UnguardedLandingBringsBack(files, snapshot, plan, c);
    NothingAdded(RowsOf(files), RowsOf(gone));
    NoRows(gone);
    assert forall path :: path in gone <==> path in plan.removes && path !in files;
    assert forall path | path in gone :: gone[path] == snapshot[path];
  }

  /** A compaction that lands with its files left alone since its snapshot changes no row. */
  lemma GuardedLandingKeepsRows(log: seq<Commit>, plan: Plan, c: Commit)
    requires Planned(log, plan) && CarriesPlan(c, plan) && Held(log, plan)
    requires Untouched(log, plan.base + 1, |log|, plan.removes) && plan.adds.Keys !! Live(log).Keys
    ensures RowsOf(Live(log + [c])) == RowsOf(Live(log))
  {
    assert forall path | path in plan.removes :: Untouched(log, plan.base + 1, |log|, {path});
    LiveOfOneMore(log, c);
    UnguardedLandingBringsBack(Live(log), Snapshot(log, plan), plan, c);
    assert Only(Snapshot(log, plan), plan.removes) - Live(log).Keys == map[];
  }

  /** Files that hold no row can be added again. */
  lemma EmptyFilesAddNothing(files: Files, adds: Files)
    requires RowsOf(adds) == multiset{} && Agree(adds, files)
    ensures RowsOf(files + adds) == RowsOf(files)
  {
    var rest := files - adds.Keys;
    assert RowsOf(Only(files, adds.Keys)) == multiset{} by {
      NoRows(adds);
      NoRows(Only(files, adds.Keys));
    }
    RowsOfSplit(files, adds.Keys);
    assert RowsOf(files + adds) == RowsOf(rest) + RowsOf(adds) by {
      assert files + adds == rest + adds;
      RowsOfBoth(rest, adds);
    }
    NothingAdded(RowsOf(rest), RowsOf(adds));
  }

  /** A commit that removes nothing and adds no row is never checked, and need not be. */
  lemma EmptyLandingKeepsRows(log: seq<Commit>, plan: Plan, c: Commit)
    requires Planned(log, plan) && CarriesPlan(c, plan)
    requires plan.removes == {} && Agree(plan.adds, Live(log))
    ensures RowsOf(Live(log + [c])) == RowsOf(Live(log))
  {
    LiveOfOneMore(log, c);
    assert Only(Snapshot(log, plan), {}) == map[];
    EmptyFilesAddNothing(Live(log), plan.adds);
    assert Live(log) - {} == Live(log);
  }

  // ------------------------------------------------------------------ compactions, interleaved

  /** A plan and how far its guard has looked. */
  datatype Compactor = Compactor(plan: Plan, checked: nat)

  datatype World = World(log: seq<Commit>, unreadable: set<nat>, compactors: map<int, Compactor>)

  /**
    Anyone may commit; commits may become unreadable; a compactor plans on any snapshot, checks up
    to a version, and puts. A put that landed may be taken for lost (`acked` false), and tried again.
  */
  datatype Step =
    | Foreign(c: Commit)
    | Lose(v: nat)
    | Start(i: int, plan: Plan)
    | Check(i: int, version: nat)
    | Put(i: int, c: Commit, acked: bool)
    | GiveUp(i: int)

  /**
    Another writer may do anything, but it names its new files as no compactor does, and a file it
    adds again without removing it is the same file.
  */
  ghost predicate Honest(w: World, c: Commit) {
    && (forall i | i in w.compactors :: Added(c).Keys !! w.compactors[i].plan.adds.Keys)
    && Agree(Added(c) - Removed(c), Live(w.log))
  }

  ghost predicate CanStart(w: World, i: int, plan: Plan) {
    && i !in w.compactors && Planned(w.log, plan) && Held(w.log, plan)
    && plan.adds.Keys !! Live(w.log).Keys
    && (forall k | k in w.compactors :: plan.adds.Keys !! w.compactors[k].plan.adds.Keys)
  }

  /** `WriteCommitEntry` up to its put, on compactor `i`. */
  ghost predicate CheckPasses(w: World, i: int, version: nat) {
    && i in w.compactors && 1 <= version <= |w.log|
    && var k := w.compactors[i];
    && (forall v | k.checked < v < version :: v !in w.unreadable)
    && Untouched(w.log, k.checked + 1, version, k.plan.removes)
  }

  /** The put of a commit that was checked up to the version it lands at, or removes nothing. */
  ghost predicate CanPut(w: World, i: int, c: Commit) {
    && i in w.compactors && CarriesPlan(c, w.compactors[i].plan)
    && (Removed(c) == {} || w.compactors[i].checked == |w.log| - 1)
  }

  ghost predicate Next(w: World, step: Step, x: World) {
    match step
    case Foreign(c) => Honest(w, c) && x == w.(log := w.log + [c])
    case Lose(v) => x == w.(unreadable := w.unreadable + {v})
    case Start(i, plan) =>
      CanStart(w, i, plan) && x == w.(compactors := w.compactors[i := Compactor(plan, plan.base)])
    case Check(i, version) =>
      && CheckPasses(w, i, version)
      && var k := w.compactors[i];
      && x == w.(compactors := w.compactors[i := k.(checked := if version - 1 > k.checked then version - 1 else k.checked)])
    case Put(i, c, acked) =>
      && CanPut(w, i, c)
      && x == w.(log := w.log + [c], compactors := if acked then w.compactors - {i} else w.compactors)
    case GiveUp(i) => x == w.(compactors := w.compactors - {i})
  }

  /**
    What holds of a compactor at every moment: its files were left alone up to `checked`; they are
    live unless removed since; and its new files are nowhere, unless its own commit is in the log.
  */
  ghost predicate Knows(log: seq<Commit>, k: Compactor) {
    && Planned(log, k.plan) && Held(log, k.plan)
    && k.plan.base <= k.checked < |log|
    && Untouched(log, k.plan.base + 1, k.checked + 1, k.plan.removes)
    && Agree(k.plan.adds, Live(log))
    && (|| k.plan.adds.Keys !! Live(log).Keys
        || k.plan.removes == {}
        || !Untouched(log, k.plan.base + 1, |log|, k.plan.removes))
  }

  ghost predicate Inv(w: World) {
    && (forall i | i in w.compactors :: Knows(w.log, w.compactors[i]))
    && (forall i, j | i in w.compactors && j in w.compactors && i != j ::
          w.compactors[i].plan.adds.Keys !! w.compactors[j].plan.adds.Keys)
  }

  lemma SnapshotStays(log: seq<Commit>, c: Commit, plan: Plan)
    requires plan.base < |log|
    ensures Snapshot(log + [c], plan) == Snapshot(log, plan)
    ensures Planned(log, plan) ==> Planned(log + [c], plan)
  {
    assert (log + [c])[..plan.base + 1] == log[..plan.base + 1];
  }

  lemma UntouchedOfOneMore(log: seq<Commit>, c: Commit, from: nat, to: nat, paths: set<string>)
    requires from <= |log|
    ensures to <= |log| ==> (Untouched(log + [c], from, to, paths) <==> Untouched(log, from, to, paths))
    ensures Untouched(log + [c], from, |log| + 1, paths) <==>
              Untouched(log, from, |log|, paths) && Removed(c) !! paths
  {
    var more := log + [c];
    assert forall v | 0 <= v < |log| :: more[v] == log[v];
    assert more[|log|] == c;
  }

  /** Held survives any commit that re-adds only the file that is there. */
  lemma HeldStays(log: seq<Commit>, c: Commit, plan: Plan)
    requires Planned(log, plan) && Held(log, plan) && Agree(Added(c) - Removed(c), Live(log))
    ensures Planned(log + [c], plan) && Held(log + [c], plan)
  {
    SnapshotStays(log, c, plan);
    LiveOfOneMore(log, c);
    forall path | path in plan.removes && Untouched(log + [c], plan.base + 1, |log| + 1, {path})
      ensures path in Live(log + [c]) && Live(log + [c])[path] == Snapshot(log, plan)[path]
    {
      UntouchedOfOneMore(log, c, plan.base + 1, |log| + 1, {path});
      assert path !in Removed(c);
    }
  }

  /** A compactor's knowledge survives a commit that does not use its new names. */
  lemma KnowsStays(log: seq<Commit>, c: Commit, k: Compactor)
    requires Knows(log, k) && Agree(Added(c) - Removed(c), Live(log))
    requires Added(c).Keys !! k.plan.adds.Keys
    ensures Knows(log + [c], k)
  {
    HeldStays(log, c, k.plan);
    LiveOfOneMore(log, c);
    UntouchedOfOneMore(log, c, k.plan.base + 1, k.checked + 1, k.plan.removes);
  }

  /** A compactor whose put landed unacknowledged knows what it did, and its own commit is in its way. */
  lemma KnowsAfterItsOwnPut(w: World, i: int, c: Commit)
    requires i in w.compactors && Knows(w.log, w.compactors[i]) && CarriesPlan(c, w.compactors[i].plan)
    ensures Knows(w.log + [c], w.compactors[i])
  {
    var k := w.compactors[i];
    HeldStays(w.log, c, k.plan);
    LiveOfOneMore(w.log, c);
    UntouchedOfOneMore(w.log, c, k.plan.base + 1, k.checked + 1, k.plan.removes);
  }

  /** Every step keeps the invariant. */
  lemma StepKeepsInv(w: World, step: Step, x: World)
    requires Inv(w) && Next(w, step, x)
    ensures Inv(x)
  {
    match step
    case Foreign(c) =>
      forall i | i in x.compactors ensures Knows(x.log, x.compactors[i]) {
        KnowsStays(w.log, c, w.compactors[i]);
      }
    case Put(i, c, acked) =>
      forall j | j in x.compactors ensures Knows(x.log, x.compactors[j]) {
        if j == i {
          KnowsAfterItsOwnPut(w, i, c);
        } else {
          KnowsStays(w.log, c, w.compactors[j]);
        }
      }
    case _ =>
  }

  /** Only another writer's commit ever changes the rows: nothing stored twice, nothing brought back. */
  lemma StepKeepsRows(w: World, step: Step, x: World)
    requires Inv(w) && Next(w, step, x) && !step.Foreign?
    ensures RowsOf(Live(x.log)) == RowsOf(Live(w.log))
  {
    match step
    case Put(i, c, acked) =>
      var plan := w.compactors[i].plan;
      if plan.removes == {} {
        EmptyLandingKeepsRows(w.log, plan, c);
      } else {
        GuardedLandingKeepsRows(w.log, plan, c);
      }
    case _ =>
  }

  /** A run: worlds and the steps between them. */
  ghost predicate Run(worlds: seq<World>, steps: seq<Step>) {
    && |worlds| == |steps| + 1
    && forall n | 0 <= n < |steps| :: Next(worlds[n], steps[n], worlds[n + 1])
  }

  lemma {:induction false} RunKeepsInv(worlds: seq<World>, steps: seq<Step>, n: nat)
    requires Run(worlds, steps) && worlds[0].compactors == map[] && n < |worlds|
    ensures Inv(worlds[n])
  {
    if n > 0 {
      RunKeepsInv(worlds, steps, n - 1);
      StepKeepsInv(worlds[n - 1], steps[n - 1], worlds[n]);
    }
  }

  /**
    Guarded compaction is invisible: in any interleaving of any number of compactors, other
    writers and losses, a stretch without a foreign commit leaves the table's rows as they were,
    however many compactions land in it.
  */
  lemma {:induction false} CompactionIsInvisible(worlds: seq<World>, steps: seq<Step>, first: nat, last: nat)
    requires Run(worlds, steps) && worlds[0].compactors == map[]
    requires first <= last < |worlds| && forall n | first <= n < last :: !steps[n].Foreign?
    ensures RowsOf(Live(worlds[last].log)) == RowsOf(Live(worlds[first].log))
    decreases last
  {
    if first < last {
      CompactionIsInvisible(worlds, steps, first, last - 1);
      RunKeepsInv(worlds, steps, last - 1);
      StepKeepsRows(worlds[last - 1], steps[last - 1], worlds[last]);
    }
  }

  /** A compaction that removes anything lands at most once: its own commit fails its next check. */
  lemma LandedIsNotCheckedAgain(w: World, i: int, c: Commit, version: nat)
    requires Inv(w) && CanPut(w, i, c) && Removed(c) != {}
    ensures version > |w.log| ==> !CheckPasses(w.(log := w.log + [c]), i, version)
  {
    assert (w.log + [c])[|w.log|] == c;
  }

  // ------------------------------------------------------------------ without the guard, or with the wrong one

  lemma SwapIs(gone: string, added: string, rows: multiset<Row>)
    ensures Removed([Remove(gone), Add(added, rows)]) == {gone}
    ensures Added([Remove(gone), Add(added, rows)]) == map[added := rows]
  {
    var c := [Remove(gone), Add(added, rows)];
    assert c[0] in c && c[..1] == [c[0]] && c[..1][..0] == [];
    assert Added(c[..1]) == map[];
  }

  lemma RowsOfOneFile(path: string, rows: multiset<Row>)
    ensures RowsOf(map[path := rows]) == rows
  {
    RowsOfOneMore(map[path := rows], path);
    assert map[path := rows] - {path} == map[];
    assert rows + multiset{} == rows;
  }

  lemma RowsOfTwoFiles(a: string, x: multiset<Row>, b: string, y: multiset<Row>)
    requires a != b
    ensures RowsOf(map[a := x, b := y]) == x + y
  {
    RowsOfOneFile(a, x);
    RowsOfOneFile(b, y);
    RowsOfBoth(map[a := x], map[b := y]);
    assert map[a := x] + map[b := y] == map[a := x, b := y];
  }

  /** Two compactions of one file, the second unguarded: the row is stored twice. */
  lemma TwoCompactionsStoreARowTwice(rows: multiset<Row>)
    ensures var files: Files := map["a" := rows];
            var once := Applied(files, [Remove("a"), Add("b", rows)]);
            && RowsOf(files) == RowsOf(once) == rows
            && RowsOf(Applied(once, [Remove("a"), Add("c", rows)])) == rows + rows
  {
    SwapIs("a", "b", rows);
    SwapIs("a", "c", rows);
    var (files: Files, once: Files) := (map["a" := rows], map["b" := rows]);
    assert Applied(files, [Remove("a"), Add("b", rows)]) == once;
    assert Applied(once, [Remove("a"), Add("c", rows)]) == map["b" := rows, "c" := rows];
    RowsOfOneFile("a", rows);
    RowsOfOneFile("b", rows);
    RowsOfTwoFiles("b", rows, "c", rows);
  }

  /** The log of the next lemma: two files, then the deletion of "b". */
  function DeletedSince(rows: multiset<Row>): seq<Commit> {
    [[Add("a", multiset{}), Add("b", rows)], [Remove("b")]]
  }

  lemma DeletedSinceIs(rows: multiset<Row>)
    ensures var log := DeletedSince(rows);
            && Removed(log[1]) == {"b"} && Live(log[..1]) == map["a" := multiset{}, "b" := rows]
            && Live(log) == map["a" := multiset{}]
  {
    var log := DeletedSince(rows);
    var (c, d) := (log[0], log[1]);
    assert c[..1] == [c[0]] && c[..1][..0] == [] && Added(c[..1]) == map["a" := multiset{}];
    assert Added(c) == map["a" := multiset{}, "b" := rows];
    assert d[0] in d && d[..0] == [] && Removed(d) == {"b"} && Added(d) == map[];
    assert log[..1] == [] + [c] && log == [c] + [d] && Live([]) == map[];
    LiveOfOneMore([], c);
    LiveOfOneMore([c], d);
    assert Live([c]) == map["a" := multiset{}, "b" := rows];
    assert Live(log) == map["a" := multiset{}];
  }

  /** What the commit is that brings "b" back, and what it leaves live. */
  lemma BringingBack(rows: multiset<Row>)
    ensures var c := [Remove("b"), Add("c", rows)];
            && CarriesPlan(c, Plan(0, {"b"}, map["c" := rows]))
            && RowsOf(Applied(map["a" := multiset{}], c)) == multiset{} + rows
  {
    var c := [Remove("b"), Add("c", rows)];
    SwapIs("b", "c", rows);
    assert Applied(map["a" := multiset{}], c) == map["a" := multiset{}, "c" := rows];
    RowsOfTwoFiles("a", multiset{}, "c", rows);
  }

  lemma DeletedSincePlan(rows: multiset<Row>)
    ensures Planned(DeletedSince(rows), Plan(0, {"b"}, map["c" := rows]))
  {
    DeletedSinceIs(rows);
    RowsOfOneFile("c", rows);
    RowsOfOneFile("b", rows);
    assert Only(Live(DeletedSince(rows)[..1]), {"b"}) == map["b" := rows];
  }

  /**
    One guard serves one remove set: checked for "a" up to the deletion of "b", it then lets a
    commit that removes "b" land, and the deleted rows are back.
  */
  lemma GuardReusedForOtherFilesBringsRowsBack(rows: multiset<Row>)
    ensures var log := DeletedSince(rows);
            && Untouched(log, 1, 2, {"a"}) && Planned(log, Plan(0, {"b"}, map["c" := rows]))
            && RowsOf(Live(log)) == multiset{}
            && RowsOf(Applied(Live(log), [Remove("b"), Add("c", rows)])) == multiset{} + rows
  {
    DeletedSinceIs(rows);
    DeletedSincePlan(rows);
    RowsOfOneFile("a", multiset{});
    BringingBack(rows);
  }
}
