/**
  The log of a Delta table as the offsets see it: a sequence of commits, each with its `txn`
  actions and its commitInfo, and the reconciled state as a fold over them. The newest `txn` of
  an appId is its version (section "Transaction Identifiers" of the Delta Transaction Log
  Protocol).
*/
module OffsetLog {
  import opened Basics
  import opened OffsetNames

  /** A message, recorded well enough to tell whether reading its offset again returns it. */
  datatype MessageMark = MessageMark(offset: int, timestampMs: int, valueLen: nat)

  /** The first and the last offset a batch read in one partition. */
  datatype Range = Range(first: int, last: int)

  /**
    What a commitInfo records: whose commit it is, the marks by partition number as text, and
    the ranges whose rows the commit delivers (`ddi.appId`, `ddi.kafka.marks`, `ddi.kafka.offsets`).
  */
  datatype CommitInfo = CommitInfo(
    ddiAppId: Option<string>,
    marks: map<string, MessageMark>,
    ranges: map<int, Range>)

  const NO_INFO := CommitInfo(None, map[], map[])

  /** One commit: the version each appId it names gets, and its commitInfo. */
  datatype Commit = Commit(txns: map<string, int>, info: CommitInfo)

  type Log = seq<Commit>

  function Drop(log: Log): Log
    requires |log| > 0
  {
    log[..|log| - 1]
  }

  /** The newest `txn` of `id`: the reconciled state, folded over the whole log. */
  function TxnVersion(log: Log, id: string): Option<int> {
    if |log| == 0 then None
    else if id in log[|log| - 1].txns then Some(log[|log| - 1].txns[id])
    else TxnVersion(Drop(log), id)
  }

  /**
    The mark a commitInfo records for the partition the `txn` `id` names, when it describes the
    offset that `txn` holds (src/fence.rs:812-830).
  */
  function MarkFor(info: CommitInfo, id: string, version: int): Option<MessageMark> {
    if info.ddiAppId.None? then None
    else
      match PartitionOf(info.ddiAppId.value, id)
      case None => None
      case Some(p) =>
        var key := IntText(p);
        if key in info.marks && info.marks[key].offset == version then Some(info.marks[key]) else None
  }

  /** A mark is found exactly as it was recorded: by its partition's number, of its app_id, naming that offset. */
  lemma MarkForIff(info: CommitInfo, appId: string, p: int, version: int, mark: MessageMark)
    requires 0 <= p <= I32_MAX
    ensures MarkFor(info, TxnAppId(appId, p), version) == Some(mark) <==>
              && info.ddiAppId == Some(appId) && IntText(p) in info.marks && info.marks[IntText(p)] == mark && mark.offset == version
  {
    PartitionOfInverts(appId, p);
    if info.ddiAppId.Some? && PartitionOf(info.ddiAppId.value, TxnAppId(appId, p)).Some? {
      PartitionOfReads(info.ddiAppId.value, TxnAppId(appId, p));
      var digits: string :| AllDigits(digits) && TxnAppId(appId, p) == info.ddiAppId.value + "-" + digits;
      DashCut(info.ddiAppId.value, digits, appId, NatText(p));
    }
  }

  ghost predicate RecordedAt(c: Commit, id: string, version: int, mark: MessageMark) {
    id in c.txns && c.txns[id] == version && MarkFor(c.info, id, version) == Some(mark)
  }

  /**
    `mark` stands beside `id`'s `txn` of version `version` in some ddi commit of the log, and
    names that very offset.
  */
  ghost predicate Recorded(log: Log, id: string, version: int, mark: MessageMark) {
    mark.offset == version && exists v | 0 <= v < |log| :: RecordedAt(log[v], id, version, mark)
  }

  /** The mark the newest commit that names `id` records for it. */
  function NewestMark(log: Log, id: string): Option<MessageMark> {
    if |log| == 0 then None
    else
      var c := log[|log| - 1];
      if id in c.txns then MarkFor(c.info, id, c.txns[id]) else NewestMark(Drop(log), id)
  }

  /** Commit `v` is the newest to name `id`. */
  predicate IsNewestNaming(log: Log, id: string, v: nat) {
    v < |log| && id in log[v].txns && forall w | v < w < |log| :: id !in log[w].txns
  }

  lemma {:induction false} NewestNamingIs(log: Log, id: string, v: nat)
    requires IsNewestNaming(log, id, v)
    ensures TxnVersion(log, id) == Some(log[v].txns[id]) && NewestMark(log, id) == MarkFor(log[v].info, id, log[v].txns[id])
  {
    if v < |log| - 1 {
      NewestNamingIs(Drop(log), id, v);
    }
  }

  lemma RecordedGrows(log: Log, more: Log, id: string, version: int, mark: MessageMark)
    requires Recorded(log, id, version, mark)
    ensures Recorded(log + more, id, version, mark)
  {
    var v :| 0 <= v < |log| && RecordedAt(log[v], id, version, mark);
    assert (log + more)[v] == log[v];
  }

  /** Commits that do not name an appId leave its version where it was. */
  lemma {:induction false} Unwritten(log: Log, from: nat, id: string)
    requires from <= |log|
    requires forall v | from <= v < |log| :: id !in log[v].txns
    ensures TxnVersion(log, id) == TxnVersion(log[..from], id)
    ensures NewestMark(log, id) == NewestMark(log[..from], id)
  {
    if from < |log| {
      Unwritten(Drop(log), from, id);
      assert Drop(log)[..from] == log[..from];
    } else {
      assert log[..from] == log;
    }
  }

  lemma Appended(log: Log, c: Commit, id: string)
    ensures TxnVersion(log + [c], id) == if id in c.txns then Some(c.txns[id]) else TxnVersion(log, id)
  {
    assert Drop(log + [c]) == log;
  }

  /** A `txn`, once written, is never taken out of a table. */
  lemma {:induction false} NeverRemoved(log: Log, from: nat, id: string)
    requires from <= |log|
    requires TxnVersion(log[..from], id).Some?
    ensures TxnVersion(log, id).Some?
  {
    if from < |log| {
      assert Drop(log)[..from] == log[..from];
      NeverRemoved(Drop(log), from, id);
    } else {
      assert log[..from] == log;
    }
  }
}
