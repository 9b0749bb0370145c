/**
  A pipeline's configuration, and the split of a staged upsert into the two ordinary pipelines that
  implement it (src/config.rs, src/stage.rs).
*/
module Staging {
  import opened Basics

  // ------------------------------------------------------------------ text

  predicate EndsWith(s: string, suffix: string) {
    |s| >= |suffix| && s[|s| - |suffix|..] == suffix
  }

  /** `s` without `suffix` at its end, however often it stands there. */
  function TrimEnd(s: string, suffix: string): (t: string)
    requires |suffix| > 0
    ensures !EndsWith(t, suffix) && t <= s
    decreases |s|
  {
    if EndsWith(s, suffix) then TrimEnd(s[..|s| - |suffix|], suffix) else s
  }

  /** `k` copies of a text. */
  function Times(s: string, k: nat): string {
    if k == 0 then "" else Times(s, k - 1) + s
  }

  /** What is cut off the end is that suffix, as often as it stood there, and nothing else. */
  lemma {:induction false} TrimEndCutsOnlyThat(s: string, suffix: string) returns (k: nat)
    requires |suffix| > 0
    ensures s == TrimEnd(s, suffix) + Times(suffix, k)
    decreases |s|
  {
    if EndsWith(s, suffix) {
      var shorter := s[..|s| - |suffix|];
      k := TrimEndCutsOnlyThat(shorter, suffix);
      assert s == shorter + suffix;
      k := k + 1;
    } else {
      k := 0;
      assert s == s + Times(suffix, 0);
    }
  }

  predicate AllSpaces(s: string) {
    forall i | 0 <= i < |s| :: IsSpace(s[i])
  }

  /** `t` is `s` without some spaces at its ends. */
  ghost predicate IsTrimOf(s: string, t: string) {
    exists front, back :: AllSpaces(front) && AllSpaces(back) && s == front + t + back
  }

  lemma OneMoreInFront(s: string, t: string)
    requires |s| > 0 && IsSpace(s[0]) && IsTrimOf(s[1..], t)
    ensures IsTrimOf(s, t)
  {
    var front, back :| AllSpaces(front) && AllSpaces(back) && s[1..] == front + t + back;
    var more := [s[0]] + front;
    assert AllSpaces(more) && s == more + t + back;
  }

  lemma OneMoreBehind(s: string, t: string)
    requires |s| > 0 && IsSpace(s[|s| - 1]) && IsTrimOf(s[..|s| - 1], t)
    ensures IsTrimOf(s, t)
  {
    var front, back :| AllSpaces(front) && AllSpaces(back) && s[..|s| - 1] == front + t + back;
    var more := back + [s[|s| - 1]];
    assert AllSpaces(more) && s == front + t + more;
  }

  /** What is trimmed is every space at either end, and nothing else. */
  lemma {:induction false} TrimCutsOnlySpaces(s: string)
    ensures IsTrimOf(s, Trim(s))
    ensures Trim(s) != "" ==> !IsSpace(Trim(s)[0]) && !IsSpace(Trim(s)[|Trim(s)| - 1])
    decreases |s|
  {
    if |s| > 0 && IsSpace(s[0]) {
      TrimCutsOnlySpaces(s[1..]);
      OneMoreInFront(s, Trim(s[1..]));
    } else if |s| > 0 && IsSpace(s[|s| - 1]) {
      TrimCutsOnlySpaces(s[..|s| - 1]);
      OneMoreBehind(s, Trim(s[..|s| - 1]));
    } else {
      assert AllSpaces("") && s == "" + s + "";
    }
  }

  predicate IsSpace(c: char) {
    var n := c as int;
    || 9 <= n <= 13 || n == 0x20 || n == 0x85 || n == 0xA0 || n == 0x1680 || 0x2000 <= n <= 0x200A
    || n == 0x2028 || n == 0x2029 || n == 0x202F || n == 0x205F || n == 0x3000
  }

  function Trim(s: string): string
    decreases |s|
  {
    if |s| > 0 && IsSpace(s[0]) then Trim(s[1..])
    else if |s| > 0 && IsSpace(s[|s| - 1]) then Trim(s[..|s| - 1])
    else s
  }

  // ------------------------------------------------------------------ configuration

  datatype WriteMode = Append | Upsert | StagedUpsert

  datatype ChangePolicy = Fail | SkipChangeCommits | IgnoreChanges

  /** A setting that is parsed on resolution, and whether it parses. */
  datatype Setting = Setting(text: string, parses: bool)

  datatype Lookup = Lookup(name: string, uri: string, resolves: bool)

  datatype Publish = Publish(group: string, nearTime: bool, kind: string, sqlIsValid: bool)

  datatype PipelineConfig = PipelineConfig(
    name: string,
    appId: string,
    sourceUri: string,
    targetUri: string,
    writeMode: WriteMode,
    changePolicy: ChangePolicy,
    startingVersion: nat,
    transformSql: Option<Setting>,
    lookups: seq<Lookup>,
    watermarkUri: Option<string>,
    dedupTimestamp: Option<string>,
    dedupKey: Option<string>,
    dedupPartition: seq<string>,
    upsertKey: Option<string>,
    upsertLookback: Option<Setting>,
    upsertTiebreak: seq<string>,
    upsertGrainCheck: bool,
    maxBytesPerBatch: Option<Setting>,
    allowedLatencySecs: Option<nat>,
    stageUri: Option<string>,
    applyMaxBytes: Option<Setting>,
    applyMaxLatencySecs: Option<nat>,
    stageFor: Option<string>,
    dqUri: Option<string>,
    sourceRelation: Option<string>,
    targetRelation: Option<string>,
    publish: Option<Publish>,
    metaProblem: bool)

  // ------------------------------------------------------------------ stage names

  const STAGE_SUFFIX: string := "__ddi_stage"
  const DQ_SUFFIX: string := "__ddi_dq"
  const INGEST: string := "__ingest"
  const APPLY: string := "__apply"

  function StageUriFor(target: string): string {
    TrimEnd(target, "/") + STAGE_SUFFIX
  }

  function DqUriFor(target: string): string {
    TrimEnd(target, "/") + DQ_SUFFIX
  }

  predicate IsStageUri(uri: string) {
    EndsWith(TrimEnd(uri, "/"), STAGE_SUFFIX)
  }

  function IngestName(name: string): string {
    name + INGEST
  }

  function ApplyName(name: string): string {
    name + APPLY
  }

  // ------------------------------------------------------------------ the split

  predicate Repeats(columns: seq<string>) {
    exists i, j | 0 <= i < j < |columns| :: columns[i] == columns[j]
  }

  /** Why `dedupPartition` cannot be what it means, as far as the configuration alone can show. */
  predicate DedupPartitionProblem(p: PipelineConfig) {
    && p.dedupPartition != []
    && (|| p.dedupTimestamp.None?
        || Repeats(p.dedupPartition)
        || exists c | c in p.dedupPartition :: Trim(c) == "" || Some(c) == p.dedupTimestamp || Some(c) == p.dedupKey)
  }

  function StageOf(p: PipelineConfig): string {
    if p.stageUri.Some? then p.stageUri.value else StageUriFor(p.targetUri)
  }

  /** A staged pipeline that cannot be split. */
  predicate StagedProblem(p: PipelineConfig) {
    || p.metaProblem
    || (p.upsertKey.None? && p.dedupKey.None?)
    || p.dedupTimestamp.None?
    || StageOf(p) == p.targetUri || StageOf(p) == p.sourceUri
    || !IsStageUri(StageOf(p))
    || DedupPartitionProblem(p)
  }

  /** The half that reads the real source and appends to the stage. */
  function IngestHalf(p: PipelineConfig): PipelineConfig {
    p.(name := IngestName(p.name),
       appId := p.appId + ".ingest",
       targetUri := StageOf(p),
       publish := None,
       targetRelation := None,
       writeMode := Append,
       upsertKey := None,
       upsertLookback := None,
       upsertTiebreak := [],
       upsertGrainCheck := false,
       dqUri := Some(if p.dqUri.Some? then p.dqUri.value else DqUriFor(p.targetUri)),
       stageUri := None,
       applyMaxBytes := None,
       applyMaxLatencySecs := None,
       stageFor := Some(p.targetUri))
  }

  /** The half that reads the stage and merges into the real target. */
  function ApplyHalf(p: PipelineConfig): PipelineConfig {
    p.(name := ApplyName(p.name),
       appId := p.appId + ".apply",
       sourceUri := StageOf(p),
       sourceRelation := None,
       writeMode := Upsert,
       publish := None,
       transformSql := None,
       lookups := [],
       watermarkUri := None,
       startingVersion := 0,
       changePolicy := Fail,
       stageUri := None,
       applyMaxBytes := None,
       applyMaxLatencySecs := None,
       stageFor := None,
       maxBytesPerBatch := if p.applyMaxBytes.Some? then p.applyMaxBytes else p.maxBytesPerBatch,
       allowedLatencySecs := if p.applyMaxLatencySecs.Some? then p.applyMaxLatencySecs else p.allowedLatencySecs)
  }

  predicate Splits(p: PipelineConfig) {
    p.writeMode.StagedUpsert? && !StagedProblem(p)
  }

  function Halves(p: PipelineConfig): seq<PipelineConfig> {
    if Splits(p) then [IngestHalf(p), ApplyHalf(p)] else [p]
  }

  function Expanded(pipelines: seq<PipelineConfig>): seq<PipelineConfig> {
    if |pipelines| == 0 then [] else Expanded(pipelines[..|pipelines| - 1]) + Halves(pipelines[|pipelines| - 1])
  }

  /** Turn every staged upsert into the two ordinary pipelines that implement it. */
  method ExpandStaged(pipelines: seq<PipelineConfig>) returns (out: seq<PipelineConfig>)
    ensures out == Expanded(pipelines)
  {
    out := [];
    for i := 0 to |pipelines|
      invariant out == Expanded(pipelines[..i])
    {
      assert pipelines[..i + 1][..i] == pipelines[..i];
      var p := pipelines[i];
      if !p.writeMode.StagedUpsert? || StagedProblem(p) {
        out := out + [p];
      } else {
        out := out + [IngestHalf(p), ApplyHalf(p)];
      }
    }
    assert pipelines[..|pipelines|] == pipelines;
  }

  /** Everything expanded is an entry as written, or a half of one. */
  lemma {:induction false} ExpandedFrom(pipelines: seq<PipelineConfig>, e: PipelineConfig)
    ensures e in Expanded(pipelines) <==> exists p | p in pipelines :: e in Halves(p)
  {
    if |pipelines| > 0 {
      var (before, last) := (pipelines[..|pipelines| - 1], pipelines[|pipelines| - 1]);
      assert pipelines == before + [last];
      ExpandedFrom(before, e);
    }
  }

  /**
    What is the ingest half's: the transform and its lookups, the source's start and its changes, and the
    rejects beside the real target. What is the apply half's: the merge, from the stage's first commit, over
    a stage nothing rewrites. What says which rows the target holds is both halves'.
  */
  predicate EachHalfKeepsItsPart(p: PipelineConfig) {
    var (ingest, apply) := (IngestHalf(p), ApplyHalf(p));
    && ingest.writeMode == Append && ingest.transformSql == p.transformSql && ingest.lookups == p.lookups
    && ingest.startingVersion == p.startingVersion && ingest.changePolicy == p.changePolicy && ingest.watermarkUri == p.watermarkUri
    && ingest.upsertKey.None? && ingest.upsertLookback.None? && ingest.upsertTiebreak == []
    && ingest.dqUri == Some(if p.dqUri.Some? then p.dqUri.value else TrimEnd(p.targetUri, "/") + "__ddi_dq")
    && ingest.stageFor == Some(p.targetUri)
    && ingest.maxBytesPerBatch == p.maxBytesPerBatch && ingest.allowedLatencySecs == p.allowedLatencySecs
    && apply.writeMode == Upsert && apply.transformSql.None? && apply.lookups == []
    && apply.startingVersion == 0 && apply.changePolicy == Fail && apply.watermarkUri.None?
    && apply.upsertKey == p.upsertKey && apply.upsertLookback == p.upsertLookback && apply.upsertTiebreak == p.upsertTiebreak
    && apply.dqUri == p.dqUri && apply.stageFor.None?
    && apply.maxBytesPerBatch == (if p.applyMaxBytes.Some? then p.applyMaxBytes else p.maxBytesPerBatch)
    && apply.allowedLatencySecs == (if p.applyMaxLatencySecs.Some? then p.applyMaxLatencySecs else p.allowedLatencySecs)
    && forall half | half in {ingest, apply} ::
         && half.dedupTimestamp == p.dedupTimestamp && half.dedupKey == p.dedupKey && half.dedupPartition == p.dedupPartition
         && half.stageUri.None? && half.applyMaxBytes.None? && half.applyMaxLatencySecs.None?
  }

  /**
    The two halves are the pipeline, cut at its stage: the same source to the same target through
    one stage of its own, nothing applied twice, and neither publishes.
  */
  lemma HalvesMeetAtTheStage(p: PipelineConfig)
    requires Splits(p)
    ensures var (ingest, apply) := (IngestHalf(p), ApplyHalf(p));
            && ingest.sourceUri == p.sourceUri && ingest.targetUri == apply.sourceUri && apply.targetUri == p.targetUri
            && IsStageUri(apply.sourceUri) && apply.sourceUri != p.sourceUri && apply.sourceUri != p.targetUri
            && ingest.name != apply.name && ingest.appId != apply.appId
            && ingest.name == p.name + "__ingest" && apply.name == p.name + "__apply"
            && ingest.appId == p.appId + ".ingest" && apply.appId == p.appId + ".apply"
            && (apply.upsertKey.Some? || apply.dedupKey.Some?) && apply.dedupTimestamp.Some?
            && ingest.publish.None? && apply.publish.None?
    ensures EachHalfKeepsItsPart(p)
  {
    SuffixesDiffer(p.name, INGEST, APPLY);
    SuffixesDiffer(p.appId, ".ingest", ".apply");
  }

  lemma SuffixesDiffer(s: string, a: string, b: string)
    requires |a| != |b|
    ensures s + a != s + b
  {
    assert |s + a| != |s + b|;
  }

  lemma OneSuffix(s: string, suffix: string)
    requires |suffix| > 0
    ensures EndsWith(s + suffix, suffix) && (s + suffix)[..|s|] == s
    ensures TrimEnd(s + suffix, suffix) == TrimEnd(s, suffix)
  {
  }

  /** The pair knows its own stage by name, unless the name itself ends in the ingest half's suffix. */
  lemma PairKnowsItsOwnIff(name: string)
    ensures ApplyName(TrimEnd(IngestName(name), INGEST)) == ApplyName(name) <==> !EndsWith(name, INGEST)
  {
    OneSuffix(name, INGEST);
    var base := TrimEnd(name, INGEST);
    assert ApplyName(base)[..|base|] == base && ApplyName(name)[..|name|] == name;
    assert |ApplyName(base)| == |ApplyName(name)| ==> |base| == |name|;
  }

  lemma NoSlash(s: string)
    requires |s| > 0 && s[|s| - 1] != '/'
    ensures TrimEnd(s, "/") == s
  {
    assert s[|s| - 1..][0] == s[|s| - 1];
  }

  /** The stage and the rejects of a target stand beside it, a slash at its end or not; and a stage is known by its name. */
  lemma UrisStandBeside(target: string)
    requires |target| > 0 && target[|target| - 1] != '/'
    ensures StageUriFor(target) == target + "__ddi_stage" == StageUriFor(target + "/")
    ensures DqUriFor(target) == target + "__ddi_dq" == DqUriFor(target + "/")
    ensures IsStageUri(target + "__ddi_stage") && IsStageUri(target + "__ddi_stage" + "/")
  {
    NoSlash(target);
    OneSuffix(target, "/");
    var stage := target + STAGE_SUFFIX;
    assert |STAGE_SUFFIX| == 11 && STAGE_SUFFIX[10] == 'e' && stage[|stage| - 1] == STAGE_SUFFIX[10];
    NoSlash(stage);
    OneSuffix(stage, "/");
    OneSuffix(target, STAGE_SUFFIX);
  }
}
