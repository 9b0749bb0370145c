/**
  Reading every wanted appId's newest `txn` in one backward walk over the log, and the marks a
  checkpoint does not keep from the commits below it (src/fence.rs:405-837).
*/
module OffsetRead {
  import opened Basics
  import opened OffsetNames
  import opened OffsetLog
  import opened Checkpoints

  /** How many commits below a checkpoint are read, at most, for the marks it answered without. */
  const BELOW_CHECKPOINT_READS: nat := 256

  // ------------------------------------------------------------------ what storage holds

  /** One line of a commit file, reduced to the actions read here; BadLine does not parse. */
  datatype Line = TxnLine(appId: string, version: int) | InfoLine(info: CommitInfo) | OtherLine | BadLine

  /** What reading one version's commit gives. Gone: log cleanup removed it. */
  datatype Entry = Bytes(lines: seq<Line>) | Gone | Refused | Outage

  /**
    Storage as one read finds it. `listing` is None when listing fails, `hint` what
    `_last_checkpoint` names, and `kernel` the kernel's own answers, None when it fails.
  */
  datatype Storage = Storage(
    entries: seq<Entry>,
    listing: Option<seq<LogFile>>,
    hint: Option<nat>,
    kernel: Option<map<string, int>>)

  function TxnsOf(lines: seq<Line>): map<string, int> {
    if |lines| == 0 then map[]
    else
      var before := TxnsOf(lines[..|lines| - 1]);
      match lines[|lines| - 1]
      case TxnLine(appId, version) => before[appId := version]
      case _ => before
  }

  function InfoOf(lines: seq<Line>): CommitInfo {
    if |lines| == 0 then NO_INFO
    else if lines[|lines| - 1].InfoLine? then lines[|lines| - 1].info
    else InfoOf(lines[..|lines| - 1])
  }

  predicate Parses(entry: Entry) {
    entry.Bytes? && BadLine !in entry.lines
  }

  function CommitOf(entry: Entry): Commit
    requires entry.Bytes?
  {
    Commit(TxnsOf(entry.lines), InfoOf(entry.lines))
  }

  /** Line `i` is the last to say anything of `id`. */
  predicate SaysLast(lines: seq<Line>, i: nat, id: string) {
    i < |lines| && lines[i].TxnLine? && lines[i].appId == id
    && forall j | i < j < |lines| :: lines[j].TxnLine? ==> lines[j].appId != id
  }

  /** Of an appId a commit says what its last line of it says; of what no line names, nothing. */
  lemma {:induction false} CommitSaysTheLast(lines: seq<Line>, id: string)
    ensures forall i: nat | SaysLast(lines, i, id) :: id in TxnsOf(lines) && TxnsOf(lines)[id] == lines[i].version
    ensures id in TxnsOf(lines) ==> exists i: nat :: SaysLast(lines, i, id)
  {
    if |lines| > 0 {
      var (before, last) := (lines[..|lines| - 1], |lines| - 1);
      CommitSaysTheLast(before, id);
      assert forall j | 0 <= j < last :: before[j] == lines[j];
      if lines[last].TxnLine? && lines[last].appId == id {
        assert SaysLast(lines, last, id);
      } else {
        assert forall i: nat :: SaysLast(lines, i, id) <==> SaysLast(before, i, id);
      }
    }
  }

  /** A commit's info is its last line of it. */
  lemma {:induction false} CommitInfoIsTheLast(lines: seq<Line>, i: nat)
    requires i < |lines| && lines[i].InfoLine? && forall j | i < j < |lines| :: !lines[j].InfoLine?
    ensures InfoOf(lines) == lines[i].info
  {
    if i < |lines| - 1 {
      assert lines[..|lines| - 1][i] == lines[i];
      CommitInfoIsTheLast(lines[..|lines| - 1], i);
    }
  }

  predicate Listed(files: seq<LogFile>, id: string, version: int) {
    exists f | f in files :: f.txns.Some? && Checkpoints.Txn(id, version) in f.txns.value
  }

  /** A checkpoint that can be read holds the reconciled state at its version. */
  ghost predicate Truthful(files: seq<LogFile>, log: Log) {
    (forall f | f in files :: f.txns.Some?) ==>
      forall id, version :: Listed(files, id, version) <==> TxnVersion(log, id) == Some(version)
  }

  /**
    Storage shows the log up to `head`: whatever is still there is what was committed. It may
    have lost any commits, hold any incomplete checkpoints, and hint at anything.
  */
  ghost predicate Shows(st: Storage, log: Log, head: nat) {
    && head < |st.entries| && head < |log|
    && (forall v | 0 <= v <= head && Parses(st.entries[v]) :: CommitOf(st.entries[v]) == log[v])
    && (st.listing.Some? ==>
          forall v, files | 0 <= v <= head && IsCheckpointOf(st.listing.value, v, files) ::
            Truthful(files, log[..v + 1]))
    && (st.kernel.Some? ==>
          forall id :: TxnVersion(log[..head + 1], id)
                       == if id in st.kernel.value then Some(st.kernel.value[id]) else None)
  }

  // ------------------------------------------------------------------ one commit

  /** One appId's newest `txn`, and the message at it when the commit that wrote it says. */
  datatype TxnState = TxnState(version: Option<int>, mark: Option<MessageMark>)

  type Found = map<string, TxnState>

  /** `found` with the wanted `txn`s of an older commit `c` that nothing newer has answered. */
  function Merged(found: Found, wanted: set<string>, c: Commit): Found {
    map id | id in found.Keys + (wanted * c.txns.Keys) ::
      if id in found then found[id]
      else TxnState(Some(c.txns[id]), MarkFor(c.info, id, c.txns[id]))
  }

  /** `txns` are what `lines` say of the wanted appIds nothing newer has answered, and no more. */
  ghost predicate Asked(txns: seq<Line>, lines: seq<Line>, wanted: set<string>, found: Found) {
    && (forall t | t in txns :: t.TxnLine?)
    && (forall id :: id in TxnsOf(txns) <==> id in TxnsOf(lines) && id in wanted && id !in found)
    && (forall id | id in TxnsOf(txns) :: TxnsOf(txns)[id] == TxnsOf(lines)[id])
  }

  /** The lines of a commit, in one pass; None at the first that does not parse. */
  method ReadLines(lines: seq<Line>, wanted: set<string>, found: Found)
    returns (r: Option<(seq<Line>, CommitInfo)>)
    ensures r.Some? <==> BadLine !in lines
    ensures r.Some? ==> Asked(r.value.0, lines, wanted, found) && r.value.1 == InfoOf(lines)
  {
    var txns: seq<Line> := [];
    var info := NO_INFO;
    for i := 0 to |lines|
      invariant BadLine !in lines[..i]
      invariant info == InfoOf(lines[..i])
      invariant Asked(txns, lines[..i], wanted, found)
    {
      assert lines[..i + 1][..i] == lines[..i];
      match lines[i] {
        case BadLine =>
          return None;
        case TxnLine(appId, version) =>
          if appId in wanted && appId !in found {
            assert (txns + [lines[i]])[..|txns|] == txns;
            txns := txns + [lines[i]];
          }
        case InfoLine(said) =>
          info := said;
        case OtherLine =>
      }
    }
    assert lines[..|lines|] == lines;
    r := Some((txns, info));
  }

  /** Add the wanted `txn`s a commit writes to `found`, unless a newer commit already did. */
  method RecordCommit(entry: Entry, wanted: set<string>, found: Found) returns (r: Option<Found>)
    requires entry.Bytes?
    ensures r.Some? <==> Parses(entry)
    ensures r.Some? ==> r.value == Merged(found, wanted, CommitOf(entry))
  {
    var read := ReadLines(entry.lines, wanted, found);
    if read.None? {
      return None;
    }
    var (txns, info) := read.value;
    var out := found;
    for j := 0 to |txns|
      invariant out.Keys == found.Keys + TxnsOf(txns[..j]).Keys
      invariant forall id | id in found :: out[id] == found[id]
      invariant forall id | id in TxnsOf(txns[..j]) && id !in found ::
                  out[id] == TxnState(Some(TxnsOf(txns[..j])[id]), MarkFor(info, id, TxnsOf(txns[..j])[id]))
    {
      var t := txns[j];
      assert txns[..j + 1][..j] == txns[..j];
      NamedInTxns(txns, j);
      out := out[t.appId := TxnState(Some(t.version), MarkFor(info, t.appId, t.version))];
    }
    assert txns[..|txns|] == txns;
    r := Some(out);
  }

  lemma {:induction false} NamedInTxns(txns: seq<Line>, j: nat)
    requires j < |txns| && txns[j].TxnLine?
    ensures txns[j].appId in TxnsOf(txns)
  {
    if j < |txns| - 1 {
      NamedInTxns(txns[..|txns| - 1], j);
    }
  }

  // ------------------------------------------------------------------ below a checkpoint

  /** Whether a `txn` with this appId can have a mark beside it: one that names a partition. */
  predicate MayCarryAMark(id: string) {
    var dash := LastDash(id, |id|);
    dash < |id| && PartitionOf(id[..dash], id).Some?
  }

  /** The last dash before `to`, or the length of `id` when there is none. */
  function LastDash(id: string, to: nat): (i: nat)
    requires to <= |id|
    ensures i < |id| ==> id[i] == '-'
    ensures i <= |id|
  {
    if to == 0 then |id| else if id[to - 1] == '-' then to - 1 else LastDash(id, to - 1)
  }

  /**
    The mark beside `id`'s `txn` of version `version` below `at`: what the newest commit there
    that names `id` says, if it holds that version, and none once a commit cannot be used.
  */
  function BelowMark(st: Storage, at: nat, floor: nat, id: string, version: int): Option<MessageMark>
    requires floor <= at <= |st.entries|
  {
    if at == floor || !Parses(st.entries[at - 1]) then None
    else
      var c := CommitOf(st.entries[at - 1]);
      if id in c.txns then
        if c.txns[id] == version then MarkFor(c.info, id, version) else None
      else BelowMark(st, at - 1, floor, id, version)
  }

  function Floor(bottom: nat): (floor: nat)
    ensures floor <= bottom && bottom - floor <= BELOW_CHECKPOINT_READS
  {
    if bottom < BELOW_CHECKPOINT_READS then 0 else bottom - BELOW_CHECKPOINT_READS
  }

  ghost predicate Sound(log: Log, id: string, state: TxnState) {
    state.mark.Some? ==> state.version.Some? && Recorded(log, id, state.version.value, state.mark.value)
  }

  lemma {:induction false} BelowMarkIsRecorded(st: Storage, log: Log, head: nat, at: nat, floor: nat, id: string, version: int)
    requires Shows(st, log, head) && floor <= at <= head + 1
    requires BelowMark(st, at, floor, id, version).Some?
    ensures Recorded(log[..head + 1], id, version, BelowMark(st, at, floor, id, version).value)
  {
    var c := CommitOf(st.entries[at - 1]);
    if id in c.txns {
      assert log[..head + 1][at - 1] == c;
      assert RecordedAt(c, id, version, MarkFor(c.info, id, version).value);
    } else {
      BelowMarkIsRecorded(st, log, head, at - 1, floor, id, version);
    }
  }

  /** Log cleanup between two reads can cost a mark, and never gives another. */
  lemma {:induction false} CleanupOnlyLosesMarks(st: Storage, later: Storage, at: nat, floor: nat, id: string, version: int)
    requires floor <= at <= |st.entries| == |later.entries|
    requires forall v | floor <= v < at :: later.entries[v] == st.entries[v] || later.entries[v].Gone?
    ensures BelowMark(later, at, floor, id, version) in {BelowMark(st, at, floor, id, version), None}
  {
    if at > floor && Parses(later.entries[at - 1]) && id !in CommitOf(later.entries[at - 1]).txns {
      CleanupOnlyLosesMarks(st, later, at - 1, floor, id, version);
    }
  }

  /** What one commit says of the marks still wanted; None when it does not parse. */
  method MeetCommit(entry: Entry, wanted: set<string>, versions: map<string, int>)
    returns (r: Option<map<string, Option<MessageMark>>>)
    requires entry.Bytes? && wanted <= versions.Keys
    ensures r.Some? <==> Parses(entry)
    ensures r.Some? ==> r.value.Keys == wanted * CommitOf(entry).txns.Keys
    ensures r.Some? ==> forall id | id in r.value ::
              r.value[id] == if CommitOf(entry).txns[id] == versions[id]
                             then MarkFor(CommitOf(entry).info, id, versions[id]) else None
  {
    var written := RecordCommit(entry, wanted, map[]);
    if written.None? {
      return None;
    }
    var here := written.value;
    // Another version is an older txn than the one answered. Its mark is not this one's.
    r := Some(map id | id in here :: if here[id].version == Some(versions[id]) then here[id].mark else None);
  }

  /**
    The commits below `bottom`, newest first, until each appId has been met or one cannot be
    used. `met` says what is known of the marks; all of them, unless an outage ended the walk.
  */
  method WalkBelow(st: Storage, bottom: nat, versions: map<string, int>)
    returns (met: map<string, Option<MessageMark>>, outage: bool, fetched: nat)
    requires bottom < |st.entries|
    ensures fetched <= BELOW_CHECKPOINT_READS
    ensures met.Keys <= versions.Keys
    ensures forall id | id in met :: met[id] == BelowMark(st, bottom, Floor(bottom), id, versions[id])
    ensures !outage ==> met.Keys == versions.Keys
    ensures outage ==> exists v | 0 <= v < bottom :: st.entries[v].Outage?
  {
    met, outage, fetched := map[], false, 0;
    var wanted := versions.Keys;
    var v := bottom;
    var usable := true;
    while v > Floor(bottom) && wanted != {} && usable
      invariant Floor(bottom) <= v <= bottom && fetched == bottom - v
      invariant met.Keys !! wanted && met.Keys + wanted == versions.Keys
      invariant forall id | id in met :: met[id] == BelowMark(st, bottom, Floor(bottom), id, versions[id])
      invariant forall id | id in wanted ::
                  BelowMark(st, bottom, Floor(bottom), id, versions[id])
                  == if usable then BelowMark(st, v, Floor(bottom), id, versions[id]) else None
    {
      v := v - 1;
      fetched := fetched + 1;
      match st.entries[v] {
        case Outage =>
          outage := true;
          return;
        case Gone =>
          usable := false;
        case Refused =>
          usable := false;
        case Bytes(_) =>
          var here := MeetCommit(st.entries[v], wanted, versions);
          if here.None? {
            usable := false;
          } else {
            met := met + here.value;
            wanted := wanted - here.value.Keys;
          }
      }
    }
    var unmet := map id | id in wanted :: None;
    assert unmet.Keys == wanted;
    met := met + unmet;
  }

  /** Per appId, the version a checkpoint answered and the mark found beside it, or none. */
  type Memory = map<string, (int, Option<MessageMark>)>

  function Known(memory: Memory, versions: map<string, int>): map<string, Option<MessageMark>> {
    map id | id in versions && id in memory && memory[id].0 == versions[id] :: memory[id].1
  }

  /** Every remembered mark is one a commit of the log records. */
  ghost predicate ValidMemory(memory: Memory, log: Log) {
    forall id | id in memory && memory[id].1.Some? :: Recorded(log, id, memory[id].0, memory[id].1.value)
  }

  ghost predicate MarksRecorded(marks: map<string, Option<MessageMark>>, versions: map<string, int>, log: Log) {
    forall id | id in marks :: id in versions && (marks[id].Some? ==> Recorded(log, id, versions[id], marks[id].value))
  }

  /** What the walk below one checkpoint found; only the newest checkpoint's is kept. */
  class BelowCheckpoint {
    var checkpoint: Option<nat>
    var found: Memory

    constructor ()
      ensures checkpoint == None && found == map[]
    {
      checkpoint := None;
      found := map[];
    }

    /** What is remembered at the checkpoint `bottom`. */
    function At(bottom: nat): Memory
      reads this
    {
      if checkpoint == Some(bottom) then found else map[]
    }

    /**
      For the appIds the checkpoint at `bottom` answered with `versions`, the marks below it:
      from memory where they are remembered, and otherwise from the commits.
    */
    method Read(st: Storage, bottom: nat, versions: map<string, int>, ghost log: Log, ghost head: nat)
      returns (r: Result<map<string, Option<MessageMark>>, ReadError>, fetched: nat)
      requires Shows(st, log, head) && bottom <= head && ValidMemory(found, log[..head + 1])
      modifies this
      ensures ValidMemory(found, log[..head + 1]) && fetched <= BELOW_CHECKPOINT_READS
      ensures r.Err? ==> exists v | 0 <= v < bottom :: st.entries[v].Outage?
      ensures r.Ok? ==> Remembered(st, bottom, versions, old(At(bottom)), r.value)
      ensures r.Ok? ==> Known(At(bottom), versions) == r.value
      ensures r.Ok? ==> MarksRecorded(r.value, versions, log[..head + 1])
      ensures versions.Keys <= Known(old(At(bottom)), versions).Keys ==> fetched == 0
    {
      if checkpoint != Some(bottom) {
        checkpoint := Some(bottom);
        found := map[];
      }
      var known := Known(found, versions);
      var asked := map id | id in versions && id !in known :: versions[id];
      fetched := 0;
      if asked == map[] {
        assert forall id | id in versions :: id in known || id in asked;
        return Ok(known), fetched;
      }
      var met, outage, sent := WalkBelow(st, bottom, asked);
      fetched := sent;
      var memory := found;
      found := Remember(memory, asked, met);
      RememberIsValid(st, log, head, bottom, memory, asked, met);
      if outage {
        return Err(StoreFault), fetched;
      }
      r := Ok(known + met);
      RememberIsKnown(memory, versions, asked, met);
    }
  }

  /** The first walk's answer, or the memory of it. */
  ghost predicate Remembered(st: Storage, bottom: nat, versions: map<string, int>, memory: Memory,
                             marks: map<string, Option<MessageMark>>)
    requires bottom <= |st.entries|
  {
    && marks.Keys == versions.Keys
    && forall id | id in versions ::
         marks[id] == if id in Known(memory, versions) then memory[id].1
                      else BelowMark(st, bottom, Floor(bottom), id, versions[id])
  }

  function Remember(memory: Memory, asked: map<string, int>, met: map<string, Option<MessageMark>>): Memory
    requires met.Keys <= asked.Keys
  {
    memory + map id | id in met :: (asked[id], met[id])
  }

  lemma RememberIsValid(st: Storage, log: Log, head: nat, bottom: nat, memory: Memory,
                        asked: map<string, int>, met: map<string, Option<MessageMark>>)
    requires Shows(st, log, head) && bottom <= head && ValidMemory(memory, log[..head + 1])
    requires met.Keys <= asked.Keys
    requires forall id | id in met :: met[id] == BelowMark(st, bottom, Floor(bottom), id, asked[id])
    ensures ValidMemory(Remember(memory, asked, met), log[..head + 1])
  {
    forall id | id in met && met[id].Some?
      ensures Recorded(log[..head + 1], id, asked[id], met[id].value)
    {
      BelowMarkIsRecorded(st, log, head, bottom, Floor(bottom), id, asked[id]);
    }
  }

  lemma RememberIsKnown(memory: Memory, versions: map<string, int>, asked: map<string, int>,
                        met: map<string, Option<MessageMark>>)
    requires asked == map id | id in versions && id !in Known(memory, versions) :: versions[id]
    requires met.Keys == asked.Keys
    ensures Known(Remember(memory, asked, met), versions) == Known(memory, versions) + met
  {
  }

  // ------------------------------------------------------------------ the walk

  /**
    Every commit of `v..=head` has been read: what it found is the newest, and what it did not
    find none of them names.
  */
  ghost predicate Walked(found: Found, wanted: set<string>, log: Log, head: nat, v: nat)
    requires head < |log| && v <= head + 1
  {
    && found.Keys <= wanted
    && (forall id | id in found ::
          && found[id].version.Some?
          && TxnVersion(log[..head + 1], id) == found[id].version
          && found[id].mark == NewestMark(log[..head + 1], id)
          && Sound(log[..head + 1], id, found[id]))
    && (forall id, w | id in wanted && id !in found && v <= w <= head :: id !in log[w].txns)
  }

  lemma WalkedOn(found: Found, wanted: set<string>, log: Log, head: nat, v: nat)
    requires head < |log| && v <= head && Walked(found, wanted, log, head, v + 1)
    ensures Walked(Merged(found, wanted, log[v]), wanted, log, head, v)
  {
    var c := log[v];
    forall id | id in wanted && id in c.txns && id !in found
      ensures TxnVersion(log[..head + 1], id) == Some(c.txns[id])
      ensures NewestMark(log[..head + 1], id) == MarkFor(c.info, id, c.txns[id])
      ensures Sound(log[..head + 1], id, TxnState(Some(c.txns[id]), MarkFor(c.info, id, c.txns[id])))
    {
      assert log[..head + 1][..v + 1] == log[..v + 1];
      Unwritten(log[..head + 1], v + 1, id);
      assert log[..head + 1][v] == c;
    }
  }

  lemma NothingLeft(found: Found, wanted: set<string>)
    requires found.Keys <= wanted && |found| == |wanted|
    ensures found.Keys == wanted
  {
    assert |found.Keys| == |found|;
    if exists id :: id in wanted && id !in found {
      var id :| id in wanted && id !in found;
      assert |wanted - {id}| == |wanted| - 1;
      SubsetSize(found.Keys, wanted - {id});
    }
  }

  lemma {:induction false} SubsetSize<T>(a: set<T>, b: set<T>)
    requires a <= b
    ensures |a| <= |b|
  {
    if a != {} {
      var x :| x in a;
      SubsetSize(a - {x}, b - {x});
    }
  }

  /** The wanted appIds' versions in a checkpoint, or None when it cannot be read. */
  method CheckpointTxns(files: seq<LogFile>, wanted: set<string>) returns (r: Option<map<string, int>>)
    ensures r.Some? ==> forall f | f in files :: f.txns.Some?
    ensures r.Some? ==> r.value.Keys <= wanted
    ensures r.Some? ==> forall id, version | id in wanted ::
              Listed(files, id, version) <==> Holds(r.value, id, version)
    ensures r.None? ==> (exists f | f in files :: f.txns.None?) || Disagree(files)
  {
    var txns: map<string, int> := map[];
    for i := 0 to |files|
      invariant forall f | f in files[..i] :: f.txns.Some?
      invariant txns.Keys <= wanted
      invariant forall id, version | id in wanted ::
                  Listed(files[..i], id, version) <==> Holds(txns, id, version)
    {
      if files[i].txns.None? {
        return None;
      }
      var more := FileTxns(files[i].txns.value, wanted, txns);
      ListedInOneMore(files, i);
      if more.None? {
        var id, v, w :| Clashes(txns, files[i].txns.value, wanted, id, v, w);
        assert Listed(files[..i + 1], id, v) && Listed(files[..i + 1], id, w);
        assert forall f | f in files[..i + 1] :: f in files;
        assert Listed(files, id, v) && Listed(files, id, w);
        return None;
      }
      txns := more.value;
    }
    assert files[..|files|] == files;
    r := Some(txns);
  }

  lemma ListedInOneMore(files: seq<LogFile>, i: nat)
    requires i < |files| && files[i].txns.Some?
    ensures forall id, version :: Listed(files[..i + 1], id, version)
                                  <==> Listed(files[..i], id, version) || Checkpoints.Txn(id, version) in files[i].txns.value
  {
    assert files[..i + 1] == files[..i] + [files[i]];
  }

  /** Two files, or one, give one appId two versions. */
  ghost predicate Disagree(files: seq<LogFile>) {
    exists id, v, w :: v != w && Listed(files, id, v) && Listed(files, id, w)
  }

  predicate Holds(txns: map<string, int>, id: string, version: int) {
    id in txns && txns[id] == version
  }

  /** `after` holds what `before` and the column do, of the wanted appIds. */
  ghost predicate Gathered(before: map<string, int>, column: seq<Checkpoints.Txn>, wanted: set<string>, after: map<string, int>) {
    forall id, version | id in wanted ::
      Holds(after, id, version) <==> Holds(before, id, version) || Checkpoints.Txn(id, version) in column
  }

  /** `before` and the column, or the column alone, give `id` two versions. */
  predicate Clashes(before: map<string, int>, column: seq<Checkpoints.Txn>, wanted: set<string>, id: string, v: int, w: int) {
    && v != w && id in wanted && Checkpoints.Txn(id, w) in column
    && (Holds(before, id, v) || Checkpoints.Txn(id, v) in column)
  }

  /** One file's `txn`s added to those of the files before it; None when two disagree. */
  method FileTxns(column: seq<Checkpoints.Txn>, wanted: set<string>, before: map<string, int>)
    returns (r: Option<map<string, int>>)
    requires before.Keys <= wanted
    ensures r.Some? ==> r.value.Keys <= wanted && Gathered(before, column, wanted, r.value)
    ensures r.None? ==> exists id, v, w :: Clashes(before, column, wanted, id, v, w)
  {
    var txns := before;
    for i := 0 to |column|
      invariant txns.Keys <= wanted
      invariant Gathered(before, column[..i], wanted, txns)
    {
      var t := column[i];
      assert column[..i + 1] == column[..i] + [t];
      if t.appId in wanted {
        if t.appId in txns && txns[t.appId] != t.version {
          var v := txns[t.appId];
          assert Holds(txns, t.appId, v) && Checkpoints.Txn(t.appId, t.version) in column;
          assert Holds(before, t.appId, v) || Checkpoints.Txn(t.appId, v) in column;
          assert Clashes(before, column, wanted, t.appId, v, t.version);
          return None;
        }
        txns := txns[t.appId := t.version];
      }
    }
    assert column[..|column|] == column;
    r := Some(txns);
  }

  /** `b` is the newest version at or below `head` with a complete checkpoint. */
  ghost predicate IsNewestCheckpoint(st: Storage, head: nat, b: nat) {
    && st.listing.Some? && b <= head && HasCheckpoint(st.listing.value, b)
    && forall c | b < c <= head :: !HasCheckpoint(st.listing.value, c)
  }

  /** Log cleanup took version `v`'s commit, and a complete checkpoint at or above it stands in. */
  ghost predicate IsCovered(st: Storage, head: nat, v: nat)
    requires v < |st.entries|
  {
    st.entries[v].Gone? && st.listing.Some? && exists b | v <= b <= head :: HasCheckpoint(st.listing.value, b)
  }

  /**
    Every commit can be read, but for those cleaned up at or below a complete checkpoint; and the
    listing, and the checkpoints or else the kernel.
  */
  ghost predicate Healthy(st: Storage, head: nat)
    requires head < |st.entries|
  {
    && (forall v | 0 <= v <= head :: Parses(st.entries[v]) || IsCovered(st, head, v))
    && st.listing.Some? && (st.kernel.Some? || CheckpointsCanBeRead(st))
  }

  predicate CheckpointsCanBeRead(st: Storage) {
    st.listing.Some? && forall f | f in st.listing.value :: f.txns.Some?
  }

  /** What the checkpoint at the bottom of the walk, or else the kernel, answers for `rest`. */
  method Bottom(st: Storage, checkpoint: Checkpoint, rest: set<string>, ghost log: Log, ghost head: nat)
    returns (r: Option<map<string, int>>)
    requires Shows(st, log, head) && checkpoint.version <= head && st.listing.Some?
    requires IsCheckpointOf(st.listing.value, checkpoint.version, checkpoint.files)
    requires forall id, w | id in rest && checkpoint.version < w <= head :: id !in log[w].txns
    ensures r.Some? ==> r.value.Keys <= rest
    ensures r.Some? ==> forall id | id in rest ::
              TxnVersion(log[..head + 1], id) == if id in r.value then Some(r.value[id]) else None
    ensures st.kernel.Some? || CheckpointsCanBeRead(st) ==> r.Some?
  {
    var txns := CheckpointTxns(checkpoint.files, rest);
    assert Truthful(checkpoint.files, log[..checkpoint.version + 1]);
    assert (forall f | f in checkpoint.files :: f.txns.Some?) ==> !Disagree(checkpoint.files);
    if txns.Some? {
      var prefix := log[..checkpoint.version + 1];
      assert Truthful(checkpoint.files, prefix);
      forall id | id in rest
        ensures TxnVersion(log[..head + 1], id) == if id in txns.value then Some(txns.value[id]) else None
      {
        Unwritten(log[..head + 1], checkpoint.version + 1, id);
        assert log[..head + 1][..checkpoint.version + 1] == prefix;
        var now := TxnVersion(prefix, id);
        if now.Some? {
          assert Listed(checkpoint.files, id, now.value);
        }
        if id in txns.value {
          assert Holds(txns.value, id, txns.value[id]);
        }
      }
      return txns;
    }
    if st.kernel.None? {
      return None;
    }
    var answers: map<string, int> := map[];
    var todo := rest;
    while todo != {}
      invariant todo <= rest && answers.Keys <= rest - todo
      invariant forall id | id in rest - todo ::
                  TxnVersion(log[..head + 1], id) == if id in answers then Some(answers[id]) else None
    {
      var id := Any(todo);
      if id in st.kernel.value {
        answers := answers[id := st.kernel.value[id]];
      }
      todo := todo - {id};
    }
    r := Some(answers);
  }

  datatype ReadError = Truncated(version: nat) | Unreadable(version: nat) | StoreFault | KernelFault

  /** Steps 1-5: the commits from the handle back to the newest checkpoint, then what is below. */
  method Commits(st: Storage, head: nat, wanted: set<string>, ghost log: Log)
    returns (r: Result<(Found, Option<Checkpoint>), ReadError>)
    requires Shows(st, log, head)
    ensures r.Ok? && r.value.1.None? ==> Walked(r.value.0, wanted, log, head, 0)
    ensures r.Ok? && r.value.1.Some? ==>
              && st.listing.Some? && r.value.1.value.version <= head
              && IsCheckpointOf(st.listing.value, r.value.1.value.version, r.value.1.value.files)
              && IsNewestCheckpoint(st, head, r.value.1.value.version)
              && Walked(r.value.0, wanted, log, head, r.value.1.value.version + 1)
              && (Parses(st.entries[r.value.1.value.version]) ==>
                    Walked(r.value.0, wanted, log, head, r.value.1.value.version))
    ensures r.Err? && r.error.Truncated? ==> r.error.version <= head && st.entries[r.error.version].Gone?
    ensures r.Err? && r.error.Unreadable? ==> r.error.version <= head && !Parses(st.entries[r.error.version])
    ensures Healthy(st, head) ==> r.Ok?
  {
    var found: Found := map[];
    ghost var read := head + 1;
    match st.entries[head] {
      case Refused => return Err(StoreFault);
      case Outage => return Err(StoreFault);
      case Gone =>
      case Bytes(_) =>
        var here := RecordCommit(st.entries[head], wanted, found);
        if here.None? {
          return Err(Unreadable(head));
        }
        WalkedOn(found, wanted, log, head, head);
        found, read := here.value, head;
        if |found| == |wanted| {
          NothingLeft(found, wanted);
          return Ok((found, None));
        }
    }
    if st.listing.None? {
      return Err(StoreFault);
    }
    var checkpoint := NewestCheckpoint(st.listing.value, st.hint, head);
    var bottom := if checkpoint.Some? then checkpoint.value.version else 0;
    if st.entries[head].Gone? && (checkpoint.None? || checkpoint.value.version != head) {
      return Err(Truncated(head));
    }
    var v := head;
    while v > bottom
      invariant bottom <= v <= head
      invariant read == v || (read == v + 1 && v == bottom && checkpoint.Some? && st.entries[v].Gone?)
      invariant Walked(found, wanted, log, head, read)
    {
      v := v - 1;
      match st.entries[v] {
        case Refused => return Err(StoreFault);
        case Outage => return Err(StoreFault);
        case Gone =>
          if checkpoint.None? || v != bottom {
            return Err(Truncated(v));
          }
        case Bytes(_) =>
          var here := RecordCommit(st.entries[v], wanted, found);
          if here.None? {
            return Err(Unreadable(v));
          }
          WalkedOn(found, wanted, log, head, v);
          found, read := here.value, v;
          if |found| == |wanted| {
            NothingLeft(found, wanted);
            return Ok((found, None));
          }
      }
    }
    r := Ok((found, checkpoint));
  }

  /** Each wanted appId's state is its newest `txn` of the log, or none where it has none. */
  ghost predicate Newest(found: Found, wanted: set<string>, log: Log) {
    && found.Keys == wanted
    && forall id | id in wanted :: found[id].version == TxnVersion(log, id) && Sound(log, id, found[id])
  }

  /**
    The mark version `v`'s commit records is read: the walk comes to it, or `below` the newest
    checkpoint it lies within the reads allowed there, with nothing in between that cannot be used.
  */
  ghost predicate IsRead(st: Storage, head: nat, v: nat, below: bool)
    requires v <= head < |st.entries|
  {
    && Parses(st.entries[v])
    && forall b: nat | IsNewestCheckpoint(st, head, b) && v < b ::
         below && b - v <= BELOW_CHECKPOINT_READS && forall w | v <= w < b :: Parses(st.entries[w])
  }

  /** The newest commit to name `id`, that of version `v`, records `mark` beside it, and is read. */
  ghost predicate MarkIsRead(st: Storage, log: Log, head: nat, id: string, v: nat, mark: MessageMark, below: bool)
    requires head < |st.entries| && head < |log|
  {
    && IsNewestNaming(log[..head + 1], id, v) && RecordedAt(log[v], id, log[v].txns[id], mark) && IsRead(st, head, v, below)
  }

  /** No other mark is remembered beside that `txn`, nor that there is none. */
  predicate RemembersNoOther(memory: Memory, id: string, version: int, mark: MessageMark) {
    id in memory && memory[id].0 == version ==> memory[id].1 == Some(mark)
  }

  /** Every mark that is read is in the answer. */
  ghost predicate MarksAreRead(found: Found, wanted: set<string>, st: Storage, log: Log, head: nat, below: bool, memory: Memory)
    requires head < |st.entries| && head < |log|
  {
    forall id, v: nat, mark | id in wanted && MarkIsRead(st, log, head, id, v, mark, below) ::
      RemembersNoOther(memory, id, log[v].txns[id], mark) ==> id in found && found[id].mark == Some(mark)
  }

  lemma {:induction false} LastDashIs(id: string, at: nat, to: nat)
    requires at < to <= |id| && id[at] == '-' && forall i | at < i < to :: id[i] != '-'
    ensures LastDash(id, to) == at
  {
    if to - 1 > at {
      LastDashIs(id, at, to - 1);
    }
  }

  /** What has a mark is asked about below a checkpoint. */
  lemma MarkedMayCarry(info: CommitInfo, id: string, version: int)
    requires MarkFor(info, id, version).Some?
    ensures MayCarryAMark(id)
  {
    var appId := info.ddiAppId.value;
    var prefix := appId + "-";
    assert id[..|prefix|] == prefix && id[|appId|] == '-';
    assert forall i | |appId| < i < |id| :: id[i] == id[|prefix|..][i - |prefix|];
    LastDashIs(id, |appId|, |id|);
    assert id[..|appId|] == prefix[..|appId|] == appId;
  }

  lemma {:induction false} BelowMarkFinds(st: Storage, log: Log, head: nat, at: nat, floor: nat, id: string, v: nat)
    requires Shows(st, log, head) && floor <= v < at <= head + 1
    requires forall w | v <= w < at :: Parses(st.entries[w])
    requires id in log[v].txns && forall w | v < w < at :: id !in log[w].txns
    ensures BelowMark(st, at, floor, id, log[v].txns[id]) == MarkFor(log[v].info, id, log[v].txns[id])
  {
    if v < at - 1 {
      BelowMarkFinds(st, log, head, at - 1, floor, id, v);
    }
  }

  /**
    Every wanted appId with its newest `txn` as of the handle's version `head`, read in one pass:
    that, or an error, never an older answer. `memo` is null when only the versions are asked for.
  */
  method ReadTxns(st: Storage, head: nat, wanted: set<string>, memo: BelowCheckpoint?, ghost log: Log)
    returns (r: Result<Found, ReadError>)
    requires Shows(st, log, head)
    requires memo != null ==> ValidMemory(memo.found, log[..head + 1])
    modifies memo
    ensures memo != null ==> ValidMemory(memo.found, log[..head + 1])
    ensures r.Ok? ==> Newest(r.value, wanted, log[..head + 1])
    ensures r.Ok? ==> MarksAreRead(r.value, wanted, st, log, head, memo != null, if memo != null then old(memo.found) else map[])
    ensures r.Err? && r.error.Truncated? ==> r.error.version <= head && st.entries[r.error.version].Gone?
    ensures Healthy(st, head) ==> r.Ok?
  {
    var walked := Commits(st, head, wanted, log);
    if walked.Err? {
      return Err(walked.error);
    }
    var (found, checkpoint) := walked.value;
    var rest := wanted - found.Keys;
    if checkpoint.None? {
      forall id | id in wanted && id !in found
        ensures TxnVersion(log[..head + 1], id).None?
      {
        Unwritten(log[..head + 1], 0, id);
      }
    } else {
      var answers := Bottom(st, checkpoint.value, rest, log, head);
      if answers.None? {
        return Err(KernelFault);
      }
      var versions := map id | id in answers.value && MayCarryAMark(id) :: answers.value[id];
      var marks := map[];
      if memo != null && versions != map[] {
        var below, _ := memo.Read(st, checkpoint.value.version, versions, log, head);
        if below.Err? {
          return Err(StoreFault);
        }
        marks := below.value;
      }
      AssembledIsNewest(found, answers.value, marks, wanted, log, head, checkpoint.value.version + 1);
      AssembledHasMarks(found, answers.value, versions, marks, wanted, st, log, head, checkpoint.value.version, memo != null,
                        if memo != null then old(memo.found) else map[]);
      return Ok(Assembled(found, answers.value, marks, wanted));
    }
    AssembledIsNewest(found, map[], map[], wanted, log, head, 0);
    WalkedHasMarks(found, wanted, st, log, head, memo != null, if memo != null then old(memo.found) else map[]);
    r := Ok(Assembled(found, map[], map[], wanted));
  }

  function Assembled(found: Found, answers: map<string, int>, marks: map<string, Option<MessageMark>>, wanted: set<string>): Found {
    map id | id in wanted ::
      if id in found then found[id]
      else if id in answers then TxnState(Some(answers[id]), if id in marks then marks[id] else None)
      else TxnState(None, None)
  }

  lemma AssembledIsNewest(found: Found, answers: map<string, int>, marks: map<string, Option<MessageMark>>,
                          wanted: set<string>, log: Log, head: nat, v: nat)
    requires head < |log| && v <= head + 1 && Walked(found, wanted, log, head, v)
    requires forall id | id in wanted && id !in found ::
               TxnVersion(log[..head + 1], id) == if id in answers then Some(answers[id]) else None
    requires MarksRecorded(marks, answers, log[..head + 1])
    ensures Newest(Assembled(found, answers, marks, wanted), wanted, log[..head + 1])
  {
  }

  /** What the walk comes to, with its mark. */
  lemma WalkFindsMark(found: Found, wanted: set<string>, st: Storage, log: Log, head: nat, at: nat, id: string, v: nat, mark: MessageMark, below: bool)
    requires head < |log| && head < |st.entries| && at <= v && at <= head + 1 && Walked(found, wanted, log, head, at)
    requires id in wanted && MarkIsRead(st, log, head, id, v, mark, below)
    ensures id in found && found[id].mark == Some(mark)
  {
    var seen := log[..head + 1];
    assert seen[v] == log[v];
    NewestNamingIs(seen, id, v);
  }

  lemma WalkedHasMarks(found: Found, wanted: set<string>, st: Storage, log: Log, head: nat, below: bool, memory: Memory)
    requires head < |log| && head < |st.entries| && Walked(found, wanted, log, head, 0)
    ensures MarksAreRead(Assembled(found, map[], map[], wanted), wanted, st, log, head, below, memory)
  {
    forall id, v: nat, mark | id in wanted && MarkIsRead(st, log, head, id, v, mark, below)
      ensures id in found && found[id].mark == Some(mark)
    {
      WalkFindsMark(found, wanted, st, log, head, 0, id, v, mark, below);
    }
  }

  /** What lies below the checkpoint, with its mark. */
  lemma BelowFindsMark(answers: map<string, int>, versions: map<string, int>, marks: map<string, Option<MessageMark>>,
                       st: Storage, log: Log, head: nat, bottom: nat, memory: Memory, id: string, v: nat, mark: MessageMark)
    requires Shows(st, log, head) && v < bottom && IsNewestCheckpoint(st, head, bottom) && MarkIsRead(st, log, head, id, v, mark, true)
    requires RemembersNoOther(memory, id, log[v].txns[id], mark)
    requires TxnVersion(log[..head + 1], id) == if id in answers then Some(answers[id]) else None
    requires versions == map other | other in answers && MayCarryAMark(other) :: answers[other]
    requires exists known: Memory :: (known == memory || known == map[]) && Remembered(st, bottom, versions, known, marks)
    ensures id in answers && id in marks && marks[id] == Some(mark)
  {
    var seen := log[..head + 1];
    assert seen[v] == log[v];
    NewestNamingIs(seen, id, v);
    MarkedMayCarry(log[v].info, id, log[v].txns[id]);
    assert forall w | v < w < bottom :: seen[w] == log[w];
    BelowMarkFinds(st, log, head, bottom, Floor(bottom), id, v);
  }

  lemma AssembledHasMarks(found: Found, answers: map<string, int>, versions: map<string, int>, marks: map<string, Option<MessageMark>>,
                          wanted: set<string>, st: Storage, log: Log, head: nat, bottom: nat, below: bool, memory: Memory)
    requires Shows(st, log, head) && bottom <= head && IsNewestCheckpoint(st, head, bottom)
    requires Walked(found, wanted, log, head, bottom + 1) && (Parses(st.entries[bottom]) ==> Walked(found, wanted, log, head, bottom))
    requires forall id | id in wanted && id !in found ::
               TxnVersion(log[..head + 1], id) == if id in answers then Some(answers[id]) else None
    requires versions == map id | id in answers && MayCarryAMark(id) :: answers[id]
    requires below && versions != map[] ==>
               exists known: Memory :: (known == memory || known == map[]) && Remembered(st, bottom, versions, known, marks)
    ensures MarksAreRead(Assembled(found, answers, marks, wanted), wanted, st, log, head, below, memory)
  {
    forall id, v: nat, mark | id in wanted && MarkIsRead(st, log, head, id, v, mark, below) && RemembersNoOther(memory, id, log[v].txns[id], mark)
      ensures Assembled(found, answers, marks, wanted)[id].mark == Some(mark)
    {
      if v >= bottom {
        WalkFindsMark(found, wanted, st, log, head, if v == bottom then bottom else bottom + 1, id, v, mark, below);
      } else if id in found {
        NewestNamingIs(log[..head + 1], id, v);
        assert log[..head + 1][v] == log[v];
      } else {
        MarkedIsAsked(answers, versions, log, head, id, v, mark);
        BelowFindsMark(answers, versions, marks, st, log, head, bottom, memory, id, v, mark);
      }
    }
  }

  lemma MarkedIsAsked(answers: map<string, int>, versions: map<string, int>, log: Log, head: nat, id: string, v: nat, mark: MessageMark)
    requires head < |log| && IsNewestNaming(log[..head + 1], id, v) && RecordedAt(log[v], id, log[v].txns[id], mark)
    requires TxnVersion(log[..head + 1], id) == if id in answers then Some(answers[id]) else None
    requires versions == map other | other in answers && MayCarryAMark(other) :: answers[other]
    ensures id in versions && versions != map[]
  {
    NewestNamingIs(log[..head + 1], id, v);
    MarkedMayCarry(log[v].info, id, log[v].txns[id]);
  }
}
