/**
  Finding the newest complete checkpoint of a log: from a hint that may be missing or wrong, and
  a listing in any order that may hold half-written files and incomplete multi-part checkpoints
  (src/fence.rs:839-994; section "Checkpoints" of the Delta Transaction Log Protocol).
*/
module Checkpoints {
  import opened Basics

  /** What a file's name says it is: a classic checkpoint, a V2 one, or one part of several. */
  datatype Kind = Single | Uuid | Part(part: nat, parts: nat)

  datatype Txn = Txn(appId: string, version: int)

  /** A listed checkpoint file; `txns` is what its `txn` column holds, None if it cannot be read. */
  datatype LogFile = LogFile(version: nat, kind: Kind, size: nat, txns: Option<seq<Txn>>)

  datatype Checkpoint = Checkpoint(version: nat, files: seq<LogFile>)

  /** How far below the handle the first listing reaches without a hint. */
  const LISTING_WINDOW: nat := 1000

  predicate WellNamed(kind: Kind) {
    kind.Part? ==> 1 <= kind.part <= kind.parts
  }

  /** One whole file, or every part of a multi-part checkpoint in part order. */
  ghost predicate IsWhole(files: seq<LogFile>) {
    || (|files| == 1 && !files[0].kind.Part?)
    || (|files| > 0 && forall i | 0 <= i < |files| :: files[i].kind == Part(i + 1, |files|))
  }

  /** A file of `version` that counts: an empty one is a checkpoint that failed half way. */
  predicate Counts(f: LogFile, version: nat) {
    WellNamed(f.kind) && f.version == version && f.size > 0
  }

  /** `files` are a complete checkpoint of `version` among those listed. */
  ghost predicate IsCheckpointOf(listing: seq<LogFile>, version: nat, files: seq<LogFile>) {
    IsWhole(files) && forall f | f in files :: f in listing && Counts(f, version)
  }

  ghost predicate HasCheckpoint(listing: seq<LogFile>, version: int) {
    version >= 0 && exists files :: IsCheckpointOf(listing, version, files)
  }

  /** `n` distinct numbers among `1..n` are all of them. */
  lemma {:induction false} FullHouse(parts: set<nat>, n: nat)
    requires forall i | i in parts :: 1 <= i <= n
    ensures |parts| <= n
    ensures |parts| == n <==> forall i | 1 <= i <= n :: i in parts
  {
    if n > 0 {
      var rest := parts - {n};
      FullHouse(rest, n - 1);
      if n in parts {
        assert |parts| == |rest| + 1;
      } else {
        assert rest == parts;
      }
    }
  }

  /** A listed file of `version` that is not empty: a whole checkpoint, or a part. */
  predicate IsThere(listing: seq<LogFile>, version: nat, kind: Kind) {
    exists f | f in listing :: f.kind == kind && f.version == version && f.size > 0
  }

  /**
    There is a complete checkpoint exactly where one whole file is, or every part of some set is,
    none of them empty.
  */
  lemma HasCheckpointIff(listing: seq<LogFile>, version: nat)
    ensures HasCheckpoint(listing, version) <==>
              || IsThere(listing, version, Single) || IsThere(listing, version, Uuid)
              || exists n: nat :: HasParts(listing, version, n)
  {
    if files: seq<LogFile> :| IsCheckpointOf(listing, version, files) {
      assert files[0] in files && files[0] in listing;
      if files[0].kind.Part? {
        forall i | 1 <= i <= |files| ensures IsThere(listing, version, Part(i, |files|)) {
          assert files[i - 1] in files;
        }
        assert HasParts(listing, version, |files|);
      }
    }
    if kind :| kind in {Single, Uuid} && IsThere(listing, version, kind) {
      var f :| f in listing && f.kind == kind && f.version == version && f.size > 0;
      assert IsCheckpointOf(listing, version, [f]);
    }
    if n: nat :| HasParts(listing, version, n) {
      var files := PartsOf(listing, version, n);
      assert IsCheckpointOf(listing, version, files);
    }
  }

  predicate HasParts(listing: seq<LogFile>, version: nat, n: nat) {
    n > 0 && forall i | 1 <= i <= n :: IsThere(listing, version, Part(i, n))
  }

  lemma PartsOf(listing: seq<LogFile>, version: nat, n: nat) returns (files: seq<LogFile>)
    requires HasParts(listing, version, n)
    ensures |files| == n && forall i | 0 <= i < n ::
              files[i] in listing && files[i].kind == Part(i + 1, n) && files[i].version == version && files[i].size > 0
  {
    files := [];
    while |files| < n
      invariant |files| <= n && forall i | 0 <= i < |files| ::
                  files[i] in listing && files[i].kind == Part(i + 1, n) && files[i].version == version && files[i].size > 0
    {
      assert IsThere(listing, version, Part(|files| + 1, n));
      var f :| f in listing && f.kind == Part(|files| + 1, n) && f.version == version && f.size > 0;
      files := files + [f];
    }
  }

  type PartSets = map<nat, map<nat, LogFile>>

  /** The parts among the files, grouped by how many make a set, and none of a larger set than `most`. */
  ghost predicate AreGrouped(files: seq<LogFile>, sets: PartSets, most: nat) {
    && (forall n, part | n in sets && part in sets[n] ::
          1 <= part <= n <= most && sets[n][part] in files && sets[n][part].kind == Part(part, n))
    && (forall f | f in files && f.kind.Part? :: f.kind.parts in sets && f.kind.part in sets[f.kind.parts])
    && (forall n | n in sets :: n <= most)
  }

  function WithPart(sets: PartSets, f: LogFile): PartSets
    requires f.kind.Part?
  {
    sets[f.kind.parts := (if f.kind.parts in sets then sets[f.kind.parts] else map[])[f.kind.part := f]]
  }

  lemma OneMorePart(files: seq<LogFile>, sets: PartSets, most: nat, f: LogFile)
    requires AreGrouped(files, sets, most) && WellNamed(f.kind) && f.kind.Part?
    ensures AreGrouped(files + [f], WithPart(sets, f), if f.kind.parts > most then f.kind.parts else most)
  {
    var (all, more) := (files + [f], WithPart(sets, f));
    assert f in all && forall g | g in files :: g in all;
    assert forall g | g in all :: g in files || g == f;
  }

  lemma OneMoreOther(files: seq<LogFile>, sets: PartSets, most: nat, f: LogFile)
    requires AreGrouped(files, sets, most) && !f.kind.Part?
    ensures AreGrouped(files + [f], sets, most)
  {
    assert forall g | g in files :: g in files + [f];
  }

  /** The complete part set of the fewest parts, if there is one: each part in its place. */
  method WholeSet(files: seq<LogFile>, sets: PartSets, most: nat) returns (r: Option<seq<LogFile>>)
    requires AreGrouped(files, sets, most)
    ensures r.Some? ==> IsWhole(r.value) && forall f | f in r.value :: f in files
    ensures r.None? ==> forall n | n in sets && n >= 1 :: |sets[n]| != n
  {
    for n := 1 to most + 1
      invariant forall m | 1 <= m < n && m in sets :: |sets[m]| != m
    {
      if n in sets && |sets[n]| == n {
        var parts := sets[n];
        assert |parts.Keys| == n;
        FullHouse(parts.Keys, n);
        var whole := seq(n, i requires 0 <= i < n => parts[i + 1]);
        return Some(whole);
      }
    }
    r := None;
  }

  /**
    A complete checkpoint among `files`, all of one version, if there is one. A part set is
    taken for complete by its size alone, which is exact: parts are numbered from 1 to their count.
  */
  method Complete(files: seq<LogFile>) returns (r: Option<seq<LogFile>>)
    requires forall f | f in files :: WellNamed(f.kind)
    ensures r.Some? ==> IsWhole(r.value) && forall f | f in r.value :: f in files
    ensures r.None? ==> !exists whole :: IsWhole(whole) && forall f | f in whole :: f in files
  {
    var uuid: Option<LogFile> := None;
    var sets: PartSets := map[];
    var most: nat := 0;
    for i := 0 to |files|
      invariant uuid.None? ==> forall f | f in files[..i] :: f.kind.Part?
      invariant uuid.Some? ==> uuid.value in files && uuid.value.kind == Uuid
      invariant AreGrouped(files[..i], sets, most)
    {
      var f := files[i];
      assert f in files && files[..i + 1] == files[..i] + [f];
      match f.kind {
        case Single =>
          return Some([f]);
        case Uuid =>
          OneMoreOther(files[..i], sets, most, f);
          uuid := if uuid.None? then Some(f) else uuid;
        case Part(_, parts) =>
          OneMorePart(files[..i], sets, most, f);
          sets := WithPart(sets, f);
          most := if parts > most then parts else most;
      }
    }
    assert files[..|files|] == files;
    if uuid.Some? {
      return Some([uuid.value]);
    }
    r := WholeSet(files, sets, most);
    if r.None? {
      forall whole | IsWhole(whole) && forall f | f in whole :: f in files
        ensures false
      {
        NoWholeSet(files, sets, whole);
      }
    }
  }

  /** Grouped by size, a complete part set shows by its count. */
  lemma NoWholeSet(files: seq<LogFile>, sets: map<nat, map<nat, LogFile>>, whole: seq<LogFile>)
    requires forall f | f in files :: f.kind.Part?
    requires forall f | f in files :: f.kind.parts in sets && f.kind.part in sets[f.kind.parts]
    requires forall n, part | n in sets && part in sets[n] :: 1 <= part <= n
    requires IsWhole(whole) && forall f | f in whole :: f in files
    ensures exists n | n in sets :: n >= 1 && |sets[n]| == n
  {
    var n := |whole|;
    assert whole[0] in files;
    assert whole[0].kind == Part(1, n);
    forall i | 1 <= i <= n ensures i in sets[n].Keys {
      assert whole[i - 1] in files;
    }
    FullHouse(sets[n].Keys, n);
    assert |sets[n].Keys| == |sets[n]|;
  }

  lemma NothingWhole(listing: seq<LogFile>, files: seq<LogFile>, v: nat)
    requires forall f | f in listing && Counts(f, v) :: f in files
    requires !exists whole :: IsWhole(whole) && forall f | f in whole :: f in files
    ensures !HasCheckpoint(listing, v)
  {
    assert forall whole | IsCheckpointOf(listing, v, whole) :: forall f | f in whole :: f in files;
  }

  /** The newest complete checkpoint with a version in `from..=to`. */
  method CheckpointBetween(listing: seq<LogFile>, from: nat, to: nat) returns (r: Option<Checkpoint>)
    ensures r.Some? ==> from <= r.value.version <= to
                        && IsCheckpointOf(listing, r.value.version, r.value.files)
                        && forall v | r.value.version < v <= to :: !HasCheckpoint(listing, v)
    ensures r.None? ==> forall v | from <= v <= to :: !HasCheckpoint(listing, v)
  {
    var byVersion: map<nat, seq<LogFile>> := map[];
    for i := 0 to |listing|
      invariant forall v | v in byVersion :: from <= v <= to
      invariant forall v, f | v in byVersion && f in byVersion[v] :: f in listing && Counts(f, v)
      invariant forall k | 0 <= k < i && from <= listing[k].version <= to && Counts(listing[k], listing[k].version) ::
                  listing[k].version in byVersion && listing[k] in byVersion[listing[k].version]
    {
      var f := listing[i];
      assert f in listing;
      if WellNamed(f.kind) && from <= f.version <= to && f.size > 0 {
        var same := if f.version in byVersion then byVersion[f.version] else [];
        byVersion := byVersion[f.version := same + [f]];
      }
    }
    var v: int := to;
    while v >= from
      invariant from <= to ==> from - 1 <= v
      invariant v <= to
      invariant forall w | v < w <= to && from <= w :: !HasCheckpoint(listing, w)
    {
      var files := if v in byVersion then byVersion[v] else [];
      forall f | f in files
        ensures f in listing && Counts(f, v)
      {
        assert f in byVersion[v];
      }
      var whole := Complete(files);
      if whole.Some? {
        return Some(Checkpoint(v, whole.value));
      }
      NothingWhole(listing, files, v);
      v := v - 1;
    }
    r := None;
  }

  /**
    The newest complete checkpoint at or below `version`. The hint only says where to list from,
    and whatever it says, none is newer.
  */
  method NewestCheckpoint(listing: seq<LogFile>, hint: Option<nat>, version: nat) returns (r: Option<Checkpoint>)
    ensures r.Some? ==> r.value.version <= version
                        && IsCheckpointOf(listing, r.value.version, r.value.files)
                        && forall v | r.value.version < v <= version :: !HasCheckpoint(listing, v)
    ensures r.None? ==> forall v | 0 <= v <= version :: !HasCheckpoint(listing, v)
  {
    var from: nat :=
      if hint.Some? && hint.value <= version then hint.value
      else if version < LISTING_WINDOW - 1 then 0 else version - (LISTING_WINDOW - 1);
    r := CheckpointBetween(listing, from, version);
    if r.Some? || from == 0 {
      return;
    }
    r := CheckpointBetween(listing, 0, version);
  }
}
