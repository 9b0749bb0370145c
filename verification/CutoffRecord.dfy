/**
  A coverage window as a commit made inside it records it, and as a reopen reads it back
  (src/dedup.rs, and src/pipeline.rs for what a reopen resumes).
*/
module CutoffRecord {
  import opened Basics

  datatype Json = JString(s: string) | JNumber(n: int) | JArray(items: seq<Json>) | JOther

  datatype Reason = Rebuilt | Bootstrap | SourceReplaced

  datatype RecordedCutoff = RecordedCutoff(reason: Reason, sourceThrough: Option<nat>, partitionColumns: seq<string>)

  type CommitInfo = map<string, Json>

  const REASON_KEY: string := "ddi.cutoff.reason"
  const THROUGH_KEY: string := "ddi.cutoff.sourceThrough"
  const COLUMNS_KEY: string := "ddi.cutoff.partitionColumns"
  const PARTITIONED: string := ".partitioned"
  const U64_MAX: nat := 0xFFFF_FFFF_FFFF_FFFF

  function ReasonText(reason: Reason): string {
    match reason
    case Rebuilt => "rebuilt"
    case Bootstrap => "bootstrap"
    case SourceReplaced => "source_replaced"
  }

  function ParseReason(s: string): Option<Reason> {
    match s
    case "rebuilt" => Some(Rebuilt)
    case "bootstrap" => Some(Bootstrap)
    case "source_replaced" => Some(SourceReplaced)
    case _ => None
  }

  // ------------------------------------------------------------------ writing

  function Texts(columns: seq<string>): seq<Json> {
    seq(|columns|, i requires 0 <= i < |columns| => JString(columns[i]))
  }

  function RecordedReason(c: RecordedCutoff): string {
    ReasonText(c.reason) + if c.partitionColumns == [] then "" else PARTITIONED
  }

  /** The keys a commit inside the window carries. */
  function ToCommitMetadata(c: RecordedCutoff): seq<(string, Json)> {
    [(REASON_KEY, JString(RecordedReason(c)))]
    + (if c.sourceThrough.Some? then [(THROUGH_KEY, JNumber(c.sourceThrough.value))] else [])
    + (if c.partitionColumns != [] then [(COLUMNS_KEY, JArray(Texts(c.partitionColumns)))] else [])
  }

  function WithAll(info: CommitInfo, entries: seq<(string, Json)>): CommitInfo
    decreases |entries|
  {
    if |entries| == 0 then info else WithAll(info[entries[0].0 := entries[0].1], entries[1..])
  }

  // ------------------------------------------------------------------ reading

  function StripSuffix(s: string, suffix: string): Option<string> {
    if |s| >= |suffix| && s[|s| - |suffix|..] == suffix then Some(s[..|s| - |suffix|]) else None
  }

  function AsU64(j: Json): Option<nat> {
    if j.JNumber? && 0 <= j.n <= U64_MAX then Some(j.n) else None
  }

  function AsTexts(j: Json): Option<seq<string>> {
    if j.JArray? && forall i | 0 <= i < |j.items| :: j.items[i].JString?
    then Some(seq(|j.items|, i requires 0 <= i < |j.items| && j.items[i].JString? => j.items[i].s))
    else None
  }

  function Find(info: CommitInfo, key: string): Option<Json> {
    if key in info then Some(info[key]) else None
  }

  /** The window a commit recorded; one that cannot be read is taken as closed. */
  function FromCommitInfo(info: CommitInfo): Option<RecordedCutoff> {
    match Find(info, REASON_KEY)
    case None => None
    case Some(raw) =>
      if !raw.JString? then None
      else
        var base := StripSuffix(raw.s, PARTITIONED);
        var reason := ParseReason(if base.Some? then base.value else raw.s);
        var through := Find(info, THROUGH_KEY);
        var columns := Find(info, COLUMNS_KEY);
        if reason.None? then None
        else if through.Some? && AsU64(through.value).None? then None
        else if columns.Some? && AsTexts(columns.value).None? then None
        else
          var names := if columns.Some? then AsTexts(columns.value).value else [];
          if base.Some? == (names == []) then None
          else Some(RecordedCutoff(reason.value, if through.Some? then AsU64(through.value) else None, names))
  }

  /** What a reopen with these partition columns resumes: the window, in the form it was recorded in only. */
  function Resumes(recorded: Option<RecordedCutoff>, configured: seq<string>): Option<RecordedCutoff> {
    if recorded.Some? && recorded.value.partitionColumns == configured then recorded else None
  }

  // ------------------------------------------------------------------ what was written is what is read

  lemma ReasonsReadBack(reason: Reason)
    ensures ParseReason(ReasonText(reason)) == Some(reason)
    ensures StripSuffix(ReasonText(reason), PARTITIONED) == None
    ensures StripSuffix(ReasonText(reason) + PARTITIONED, PARTITIONED) == Some(ReasonText(reason))
    ensures ParseReason(ReasonText(reason) + PARTITIONED) == None
  {
    var text := ReasonText(reason);
    assert text[|text| - 3] != PARTITIONED[|PARTITIONED| - 3];
    if |text| >= |PARTITIONED| {
      assert text[|text| - |PARTITIONED|..][|PARTITIONED| - 3] == text[|text| - 3];
    }
    assert (text + PARTITIONED)[|text|..] == PARTITIONED && (text + PARTITIONED)[..|text|] == text;
    assert |text + PARTITIONED| == |text| + 12;
  }

  lemma ReasonWithoutTheSuffix(s: string)
    requires ParseReason(s).Some?
    ensures s == ReasonText(ParseReason(s).value)
  {
  }

  lemma TextsReadBack(columns: seq<string>)
    ensures AsTexts(JArray(Texts(columns))) == Some(columns)
  {
    assert AsTexts(JArray(Texts(columns))).value == columns;
  }

  /** The commit carries the window: each of the three keys as written, and no key it did not write. */
  predicate Carries(info: CommitInfo, c: RecordedCutoff) {
    && Find(info, REASON_KEY) == Some(JString(RecordedReason(c)))
    && Find(info, THROUGH_KEY) == (if c.sourceThrough.Some? then Some(JNumber(c.sourceThrough.value)) else None)
    && Find(info, COLUMNS_KEY) == (if c.partitionColumns == [] then None else Some(JArray(Texts(c.partitionColumns))))
  }

  /** The one other form that reads as a window: a single cut-off with an explicit empty column list. */
  predicate CarriesAnEmptyList(info: CommitInfo, c: RecordedCutoff) {
    c.partitionColumns == [] && Find(info, COLUMNS_KEY) == Some(JArray([])) && Carries(info - {COLUMNS_KEY}, c)
  }

  lemma {:induction false} WithAllOfBoth(info: CommitInfo, a: seq<(string, Json)>, b: seq<(string, Json)>)
    ensures WithAll(info, a + b) == WithAll(WithAll(info, a), b)
    decreases |a|
  {
    if |a| == 0 {
      assert a + b == b;
    } else {
      assert (a + b)[1..] == a[1..] + b;
      WithAllOfBoth(info[a[0].0 := a[0].1], a[1..], b);
    }
  }

  lemma WithOne(info: CommitInfo, key: string, j: Json)
    ensures WithAll(info, [(key, j)]) == info[key := j]
  {
    assert [(key, j)][1..] == [];
  }

  lemma KeysDiffer()
    ensures REASON_KEY != THROUGH_KEY && THROUGH_KEY != COLUMNS_KEY && REASON_KEY != COLUMNS_KEY
  {
    assert THROUGH_KEY[11] == 's' && COLUMNS_KEY[11] == 'p' && REASON_KEY[11] == 'r';
  }

  lemma WritingCarries(info: CommitInfo, c: RecordedCutoff)
    requires info.Keys !! {REASON_KEY, THROUGH_KEY, COLUMNS_KEY}
    ensures Carries(WithAll(info, ToCommitMetadata(c)), c)
  {
    KeysDiffer();
    var reason := [(REASON_KEY, JString(RecordedReason(c)))];
    var through := if c.sourceThrough.Some? then [(THROUGH_KEY, JNumber(c.sourceThrough.value))] else [];
    var columns := if c.partitionColumns != [] then [(COLUMNS_KEY, JArray(Texts(c.partitionColumns)))] else [];
    assert ToCommitMetadata(c) == reason + through + columns;
    WithAllOfBoth(info, reason + through, columns);
    WithAllOfBoth(info, reason, through);
    WithOne(info, REASON_KEY, JString(RecordedReason(c)));
    if c.sourceThrough.Some? {
      WithOne(WithAll(info, reason), THROUGH_KEY, JNumber(c.sourceThrough.value));
    }
    if c.partitionColumns != [] {
      WithOne(WithAll(info, reason + through), COLUMNS_KEY, JArray(Texts(c.partitionColumns)));
    }
  }

  lemma TextsOfTheNames(j: Json)
    requires AsTexts(j).Some?
    ensures j == JArray(Texts(AsTexts(j).value))
  {
    assert j.items == Texts(AsTexts(j).value);
  }

  lemma SuffixSplits(s: string)
    requires StripSuffix(s, PARTITIONED).Some?
    ensures s == StripSuffix(s, PARTITIONED).value + PARTITIONED
  {
  }

  /**
    What a reopen reads is what was written, and nothing else is: a commit reads as the window
    `c` exactly if it carries `c` as a commit inside it would, or `c` has a single cut-off and the
    column list is there and empty. So any mismatch of reason and columns reads as closed.
  */
  lemma ReadsAsExactly(info: CommitInfo, c: RecordedCutoff)
    requires c.sourceThrough.Some? ==> c.sourceThrough.value <= U64_MAX
    ensures FromCommitInfo(info) == Some(c) <==> Carries(info, c) || CarriesAnEmptyList(info, c)
  {
    if FromCommitInfo(info) == Some(c) {
      OnlyWhatWasWritten(info, c);
    }
    KeysDiffer();
    ReasonsReadBack(c.reason);
    TextsReadBack(c.partitionColumns);
    assert ReasonText(c.reason) + "" == ReasonText(c.reason);
    var empty: seq<Json> := [];
    assert AsTexts(JArray(empty)).value == [];
  }

  lemma OnlyWhatWasWritten(info: CommitInfo, c: RecordedCutoff)
    requires FromCommitInfo(info) == Some(c)
    ensures Carries(info, c) || CarriesAnEmptyList(info, c)
  {
    KeysDiffer();
    var raw := info[REASON_KEY].s;
    if StripSuffix(raw, PARTITIONED).Some? {
      SuffixSplits(raw);
      ReasonWithoutTheSuffix(StripSuffix(raw, PARTITIONED).value);
    } else {
      ReasonWithoutTheSuffix(raw);
      assert raw + "" == raw;
    }
    if COLUMNS_KEY in info {
      TextsOfTheNames(info[COLUMNS_KEY]);
      assert c.partitionColumns == [] ==> Texts(c.partitionColumns) == [];
    }
  }

  /** A recorded window round-trips through a commit, whatever else that carries, and is resumed in its own form only. */
  lemma WindowRoundTrips(info: CommitInfo, c: RecordedCutoff)
    requires info.Keys !! {REASON_KEY, THROUGH_KEY, COLUMNS_KEY}
    requires c.sourceThrough.Some? ==> c.sourceThrough.value <= U64_MAX
    ensures FromCommitInfo(WithAll(info, ToCommitMetadata(c))) == Some(c)
    ensures forall configured ::
              Resumes(FromCommitInfo(WithAll(info, ToCommitMetadata(c))), configured) == Some(c) <==> configured == c.partitionColumns
  {
    WritingCarries(info, c);
    ReadsAsExactly(WithAll(info, ToCommitMetadata(c)), c);
  }

  /** A build from before partitioned windows knows no reason with the suffix, and takes the window for closed. */
  lemma OlderBuildsTakeItForClosed(c: RecordedCutoff)
    ensures ParseReason(RecordedReason(c)).Some? <==> c.partitionColumns == []
  {
    ReasonsReadBack(c.reason);
    assert ReasonText(c.reason) + "" == ReasonText(c.reason);
  }

  /** The metadata as builds of either age spell it. */
  lemma MetadataAsWritten(through: nat)
    ensures ToCommitMetadata(RecordedCutoff(Rebuilt, Some(through), [])) ==
            [("ddi.cutoff.reason", JString("rebuilt")), ("ddi.cutoff.sourceThrough", JNumber(through))]
    ensures ToCommitMetadata(RecordedCutoff(SourceReplaced, None, ["kafka_partition"])) ==
            [("ddi.cutoff.reason", JString("source_replaced.partitioned")),
             ("ddi.cutoff.partitionColumns", JArray([JString("kafka_partition")]))]
  {
    assert "rebuilt" + "" == "rebuilt" && "source_replaced" + ".partitioned" == "source_replaced.partitioned";
    assert Texts(["kafka_partition"]) == [JString("kafka_partition")];
  }
}
