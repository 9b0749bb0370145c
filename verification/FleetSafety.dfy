/**
  What holds of an accepted fleet, and where the checks let through or hold back more than they say
  (src/config.rs).
*/
module FleetSafety {
  import opened Basics
  import opened Staging
  import opened Fleet

  // ------------------------------------------------------------------ accepted or rejected, once

  function NamesOf(some: seq<Running>): seq<string> {
    seq(|some|, i requires 0 <= i < |some| => some[i].config.name)
  }

  function PipelineNames(all: Pipelines): seq<string> {
    seq(|all|, i requires 0 <= i < |all| => all[i].name)
  }

  /** The names of the running and of the rejected make up these names. */
  predicate MakeUp(running: seq<string>, rejected: seq<string>, names: seq<string>) {
    multiset(running) + multiset(rejected) == multiset(names)
  }

  lemma OneMoreName(a: seq<string>, b: seq<string>, c: seq<string>, name: string)
    requires MakeUp(a, b, c)
    ensures MakeUp(a + [name], b, c + [name]) && MakeUp(a, b + [name], c + [name])
  {
  }

  /** Every expanded pipeline is accepted or rejected, exactly once, under its own name. */
  lemma {:induction false} EachHasOneVerdict(d: Deployment, all: Pipelines, some: Pipelines)
    ensures MakeUp(NamesOf(RunningAmong(d, all, some)), RejectedAmong(d, all, some), PipelineNames(some))
  {
    if |some| > 0 {
      EachHasOneVerdict(d, all, some[..|some| - 1]);
      OneMoreVerdict(d, all, some);
    }
  }

  lemma OneMoreVerdict(d: Deployment, all: Pipelines, some: Pipelines)
    requires |some| > 0
    requires var before := some[..|some| - 1];
             MakeUp(NamesOf(RunningAmong(d, all, before)), RejectedAmong(d, all, before), PipelineNames(before))
    ensures MakeUp(NamesOf(RunningAmong(d, all, some)), RejectedAmong(d, all, some), PipelineNames(some))
  {
    var (before, last) := (some[..|some| - 1], some[|some| - 1]);
    var (running, rejected) := (NamesOf(RunningAmong(d, all, before)), RejectedAmong(d, all, before));
    OneMoreName(running, rejected, PipelineNames(before), last.name);
    assert PipelineNames(some) == PipelineNames(before) + [last.name];
    if Accepted(d, all, last) {
      assert NamesOf(RunningAmong(d, all, some)) == running + [last.name];
      assert RejectedAmong(d, all, some) == rejected;
    } else {
      assert NamesOf(RunningAmong(d, all, some)) == running;
      assert RejectedAmong(d, all, some) == rejected + [last.name];
    }
  }

  /** Where the `k`-th running pipeline stands in the list it was taken from. */
  function PlaceOf(d: Deployment, all: Pipelines, some: Pipelines, k: nat): nat
    requires k < |RunningAmong(d, all, some)|
  {
    var before := some[..|some| - 1];
    if k < |RunningAmong(d, all, before)| then PlaceOf(d, all, before, k) else |some| - 1
  }

  lemma {:induction false} PlaceOfIsItsPlace(d: Deployment, all: Pipelines, some: Pipelines, k: nat)
    requires k < |RunningAmong(d, all, some)|
    ensures PlaceOf(d, all, some, k) < |some|
    ensures var p := some[PlaceOf(d, all, some, k)];
            Accepted(d, all, p) && RunningAmong(d, all, some)[k] == RunningOf(d, all, p)
  {
    var before := some[..|some| - 1];
    if k < |RunningAmong(d, all, before)| {
      PlaceOfIsItsPlace(d, all, before, k);
    }
  }

  lemma {:induction false} PlacesRise(d: Deployment, all: Pipelines, some: Pipelines, k: nat, l: nat)
    requires k < l < |RunningAmong(d, all, some)|
    ensures PlaceOf(d, all, some, k) < PlaceOf(d, all, some, l) < |some|
  {
    var before := some[..|some| - 1];
    PlaceOfIsItsPlace(d, all, some, l);
    if l < |RunningAmong(d, all, before)| {
      PlacesRise(d, all, before, k, l);
    } else {
      PlaceOfIsItsPlace(d, all, before, k);
    }
  }

  // ------------------------------------------------------------------ no conflict among the accepted

  /** Two running pipelines stand at two places, and are accepted there. */
  lemma TwoPlaces(d: Deployment, all: Pipelines, k: nat, l: nat) returns (i: nat, j: nat)
    requires k < l < |RunningAmong(d, all, all)|
    ensures i < j < |all| && Accepted(d, all, all[i]) && Accepted(d, all, all[j])
    ensures RunningAmong(d, all, all)[k] == RunningOf(d, all, all[i])
    ensures RunningAmong(d, all, all)[l] == RunningOf(d, all, all[j])
  {
    i, j := PlaceOf(d, all, all, k), PlaceOf(d, all, all, l);
    PlaceOfIsItsPlace(d, all, all, k);
    PlaceOfIsItsPlace(d, all, all, l);
    PlacesRise(d, all, all, k, l);
  }

  lemma SameNameIsShared(all: Pipelines, i: nat, j: nat)
    requires i < |all| && j < |all|
    ensures i != j && all[i].name == all[j].name ==> SharesName(all, all[i].name)
  {
    if i != j && all[i].name == all[j].name {
      var (first, last) := (if i < j then i else j, if i < j then j else i);
      assert all[first].name == all[i].name && all[last].name == all[i].name;
    }
  }

  lemma SharersAreCondemned(all: Pipelines, i: nat, j: nat)
    requires i < |all| && j < |all|
    ensures i != j && all[i].name == all[j].name ==> Condemned(all, all[i].name)
    ensures i != j && Trim(all[i].appId) == Trim(all[j].appId) ==> Condemned(all, all[i].name)
  {
    SameNameIsShared(all, i, j);
  }

  /** Accepted pipelines have names and offset keys of their own. */
  lemma NamesAndAppIdsAreDistinct(d: Deployment, all: Pipelines, k: nat, l: nat)
    requires k < l < |RunningAmong(d, all, all)|
    ensures var (p, q) := (RunningAmong(d, all, all)[k].config, RunningAmong(d, all, all)[l].config);
            p.name != q.name && Trim(p.appId) != Trim(q.appId)
  {
    var i, j := TwoPlaces(d, all, k, l);
    SharersAreCondemned(all, i, j);
  }

  /** A running pipeline is an entry as it was written, or a half of one that splits. */
  lemma RunningIsWritten(d: Deployment, pipelines: Pipelines, k: nat)
    requires k < |ResolvedFleet(d, pipelines).pipelines|
    ensures var p := ResolvedFleet(d, pipelines).pipelines[k].config;
            || (p in pipelines && !p.writeMode.StagedUpsert?)
            || exists q | q in pipelines :: Splits(q) && (p == IngestHalf(q) || p == ApplyHalf(q))
  {
    var all := Expanded(pipelines);
    PlaceOfIsItsPlace(d, all, all, k);
    var p := all[PlaceOf(d, all, all, k)];
    ExpandedFrom(pipelines, p);
    var q :| q in pipelines && p in Halves(q);
    assert Splits(q) ==> Halves(q) == [IngestHalf(q), ApplyHalf(q)];
  }

  /**
    Accepted pipelines run in a mode the runtime knows, read no table they write, and read no
    upserted table but to merge its re-emitted rows, whoever upserts it, accepted or not.
  */
  lemma RunningReadSafely(d: Deployment, pipelines: Pipelines, k: nat, up: PipelineConfig)
    requires k < |ResolvedFleet(d, pipelines).pipelines| && up in Expanded(pipelines)
    ensures var down := ResolvedFleet(d, pipelines).pipelines[k].config;
            && down in Expanded(pipelines) && !down.writeMode.StagedUpsert? && down.sourceUri != down.targetUri
            && (up.writeMode.Upsert? && down.sourceUri == up.targetUri ==>
                  down.changePolicy.IgnoreChanges? && down.writeMode.Upsert?)
  {
    var all := Expanded(pipelines);
    PlaceOfIsItsPlace(d, all, all, k);
    var down := all[PlaceOf(d, all, all, k)];
    assert CannotRead(up, down) ==> CascadeConflict(all, down.name);
  }

  lemma {:induction false} OwnerWrites(all: Pipelines, uri: string)
    ensures (exists p | p in all :: p.targetUri == uri) ==>
              exists p | p in all :: p.targetUri == uri && p.name == Owner(all, uri)
    ensures !(exists p | p in all :: p.targetUri == uri) ==> Owner(all, uri) == ""
  {
    if |all| > 0 {
      var (before, last) := (all[..|all| - 1], all[|all| - 1]);
      assert all == before + [last];
      if last.targetUri == uri {
        assert last in all;
      } else {
        OwnerWrites(before, uri);
      }
    }
  }

  /** What acceptance says of a stage: each of its readers and writers is the owner or named for the owner's pair. */
  lemma OnlyThePairUsesAStage(d: Deployment, all: Pipelines, p: PipelineConfig, uri: string)
    requires p in all && Accepted(d, all, p) && IsStageUri(uri) && (p.sourceUri == uri || p.targetUri == uri)
    ensures IsMine(all, p, uri)
  {
    assert TrespassesAnywhere(all, p) ==> StageConflict(all, p.name);
  }

  /**
    A stage that is written has at most one accepted reader; and one that is not, two only if
    they are named "" and "__apply".
  */
  lemma OneReaderPerStage(d: Deployment, all: Pipelines, i: nat, j: nat, uri: string)
    requires i < |all| && j < |all| && i != j && all[i].sourceUri == uri && all[j].sourceUri == uri && IsStageUri(uri)
    requires Accepted(d, all, all[i]) && Accepted(d, all, all[j])
    ensures forall p | p in all :: p.targetUri != uri
    ensures {all[i].name, all[j].name} == {"", APPLY}
  {
    var (p, q) := (all[i], all[j]);
    OnlyThePairUsesAStage(d, all, p, uri);
    OnlyThePairUsesAStage(d, all, q, uri);
    SharersAreCondemned(all, i, j);
    OwnerWrites(all, uri);
    if o :| o in all && o.targetUri == uri && o.name == Owner(all, uri) {
      OwnerIsNoReader(d, all, o, if p.name == Owner(all, uri) then p else q, uri);
    } else {
      assert Owner(all, uri) == "" && TrimEnd("", INGEST) == "" && ApplyName("") == APPLY;
    }
  }

  /** An accepted pipeline of the owner's name is the owner, and does not read what it writes. */
  lemma OwnerIsNoReader(d: Deployment, all: Pipelines, owner: PipelineConfig, p: PipelineConfig, uri: string)
    requires owner in all && p in all && owner.targetUri == uri && p.name == owner.name && Accepted(d, all, p)
    ensures p.sourceUri != uri
  {
    var i :| 0 <= i < |all| && all[i] == owner;
    var j :| 0 <= j < |all| && all[j] == p;
    SharersAreCondemned(all, j, i);
  }

  /**
    Two accepted writers of one stage: one is its owner, the last to write it, and the other bears
    the name of the owner's apply half. So a stage has one writer if no pipeline of that name writes it.
  */
  lemma TwoWritersOfAStage(d: Deployment, all: Pipelines, i: nat, j: nat, uri: string)
    requires i < |all| && j < |all| && i != j && all[i].targetUri == uri && all[j].targetUri == uri && IsStageUri(uri)
    requires Accepted(d, all, all[i]) && Accepted(d, all, all[j])
    ensures {all[i].name, all[j].name} == {Owner(all, uri), ApplyName(TrimEnd(Owner(all, uri), INGEST))}
  {
    OnlyThePairUsesAStage(d, all, all[i], uri);
    OnlyThePairUsesAStage(d, all, all[j], uri);
    SharersAreCondemned(all, i, j);
  }

  /** Two running pipelines never publish to one group. */
  lemma GroupsAreDistinct(d: Deployment, all: Pipelines, k: nat, l: nat)
    requires k < l < |RunningAmong(d, all, all)|
    requires var running := RunningAmong(d, all, all); running[k].publish.Some? && running[l].publish.Some?
    ensures var running := RunningAmong(d, all, all); running[k].publish.value.group != running[l].publish.value.group
  {
    var i, j := TwoPlaces(d, all, k, l);
    assert Contests(d, all[i]) && Contests(d, all[j]);
  }

  // ------------------------------------------------------------------ who takes a group from whom

  /** Another pipeline counted among the users of the group that the one at `i` publishes to. */
  predicate IsRival(d: Deployment, all: Pipelines, i: nat, j: nat)
    requires i < |all| && j < |all| && all[i].publish.Some?
  {
    j != i && Contests(d, all[j]) && all[j].publish.value.group == all[i].publish.value.group
  }

  predicate HasRival(d: Deployment, all: Pipelines, i: nat)
    requires i < |all| && all[i].publish.Some?
  {
    exists j | 0 <= j < |all| :: IsRival(d, all, i, j)
  }

  /** A pipeline that could publish, and runs. */
  predicate CouldPublish(d: Deployment, all: Pipelines, j: nat)
    requires j < |all|
  {
    Accepted(d, all, all[j]) && ResolvePublish(d, all[j]).Some?
  }

  /** Some rival could itself publish. */
  predicate HasRealRival(d: Deployment, all: Pipelines, i: nat)
    requires i < |all| && all[i].publish.Some?
  {
    exists j | 0 <= j < |all| :: IsRival(d, all, i, j) && CouldPublish(d, all, j)
  }

  /** A pipeline that could publish loses its publication if and only if it has a rival, of whatever kind. */
  lemma LosesItsPublicationIff(d: Deployment, all: Pipelines, i: nat)
    requires i < |all| && ResolvePublish(d, all[i]).Some? && !SharesName(all, all[i].name)
    ensures RunningOf(d, all, all[i]).publish.None? <==> HasRival(d, all, i)
  {
    assert Contests(d, all[i]);
    if GroupIsContested(d, all, all[i].name) {
      var k, j :| 0 <= k < |all| && 0 <= j < |all|
        && k != j && all[k].name == all[i].name && Contests(d, all[k]) && Contests(d, all[j])
        && all[k].publish.value.group == all[j].publish.value.group;
      OnlyItsName(all, i, k);
      assert IsRival(d, all, i, j);
    }
  }

  /**
    "Only pipelines that could actually publish contest a group", of one that could and runs: so it
    is if and only if it has no rival, or one that could publish too.
  */
  lemma OnlyPublishersContestIff(d: Deployment, all: Pipelines, i: nat)
    requires i < |all| && CouldPublish(d, all, i)
    ensures (RunningOf(d, all, all[i]).publish.None? <==> HasRealRival(d, all, i)) <==>
              !HasRival(d, all, i) || HasRealRival(d, all, i)
  {
    LosesItsPublicationIff(d, all, i);
  }

  /** A rival that could not publish: held back, near-time with lookups, for another hub, or with SQL that is not valid. */
  lemma RivalCouldNotIff(d: Deployment, all: Pipelines, i: nat, j: nat)
    requires i < |all| && j < |all| && ResolvePublish(d, all[i]).Some? && IsRival(d, all, i, j)
    ensures !CouldPublish(d, all, j) <==>
              var model := all[j].publish.value;
              || Condemned(all, all[j].name) || !ResolvesAlone(d, all[j])
              || (model.nearTime && all[j].lookups != []) || model.kind != d.hub.value.kind || !model.sqlIsValid
  {
  }

  // ------------------------------------------------------------------ publishing changes nothing else

  /** A configuration without what it publishes. */
  function Silent(p: PipelineConfig): PipelineConfig {
    p.(publish := None)
  }

  function AllSilent(all: Pipelines): Pipelines {
    seq(|all|, i requires 0 <= i < |all| => Silent(all[i]))
  }

  lemma {:induction false} OwnerIsSilent(all: Pipelines, uri: string)
    ensures Owner(AllSilent(all), uri) == Owner(all, uri)
  {
    if |all| > 0 {
      assert AllSilent(all)[..|all| - 1] == AllSilent(all[..|all| - 1]);
      OwnerIsSilent(all[..|all| - 1], uri);
    }
  }

  lemma SilentIsIn(all: Pipelines, p: PipelineConfig)
    requires p in all
    ensures Silent(p) in AllSilent(all)
  {
    var i :| 0 <= i < |all| && all[i] == p;
    assert AllSilent(all)[i] == Silent(p);
  }

  lemma SilentIsFrom(all: Pipelines, s: PipelineConfig) returns (p: PipelineConfig)
    requires s in AllSilent(all)
    ensures p in all && s == Silent(p)
  {
    var i :| 0 <= i < |all| && AllSilent(all)[i] == s;
    p := all[i];
  }

  lemma StageConflictIsSilent(all: Pipelines, name: string)
    ensures StageConflict(AllSilent(all), name) <==> StageConflict(all, name)
  {
    if StageConflict(all, name) {
      var p :| p in all && p.name == name && TrespassesAnywhere(all, p);
      OwnerIsSilent(all, p.sourceUri);
      OwnerIsSilent(all, p.targetUri);
      SilentIsIn(all, p);
      assert TrespassesAnywhere(AllSilent(all), Silent(p)) && Silent(p).name == name;
    }
    if StageConflict(AllSilent(all), name) {
      var s :| s in AllSilent(all) && s.name == name && TrespassesAnywhere(AllSilent(all), s);
      var p := SilentIsFrom(all, s);
      OwnerIsSilent(all, p.sourceUri);
      OwnerIsSilent(all, p.targetUri);
      assert TrespassesAnywhere(all, p) && p.name == name;
    }
  }

  lemma CascadeConflictIsSilent(all: Pipelines, name: string)
    ensures CascadeConflict(AllSilent(all), name) <==> CascadeConflict(all, name)
  {
    if CascadeConflict(all, name) {
      var up, down :| up in all && down in all && CannotRead(up, down) && down.name == name;
      SilentIsIn(all, up);
      SilentIsIn(all, down);
      assert CannotRead(Silent(up), Silent(down)) && Silent(down).name == name;
    }
    if CascadeConflict(AllSilent(all), name) {
      var up, down :| up in AllSilent(all) && down in AllSilent(all) && CannotRead(up, down) && down.name == name;
      var u := SilentIsFrom(all, up);
      var v := SilentIsFrom(all, down);
      assert CannotRead(u, v) && v.name == name;
    }
  }

  lemma SharingIsSilent(all: Pipelines, name: string)
    ensures SharesAppId(AllSilent(all), name) <==> SharesAppId(all, name)
    ensures SharesName(AllSilent(all), name) <==> SharesName(all, name)
  {
    var silent := AllSilent(all);
    assert forall i | 0 <= i < |all| :: silent[i].name == all[i].name && silent[i].appId == all[i].appId;
  }

  /** Whoever is condemned is condemned whatever anyone publishes. */
  lemma CondemnationIsSilent(all: Pipelines, name: string)
    ensures Condemned(AllSilent(all), name) <==> Condemned(all, name)
  {
    SharingIsSilent(all, name);
    CascadeConflictIsSilent(all, name);
    StageConflictIsSilent(all, name);
  }

  lemma HalvesAreSilent(p: PipelineConfig)
    ensures Halves(Silent(p)) == AllSilent(Halves(p))
  {
    if Splits(p) {
      assert IngestHalf(Silent(p)) == Silent(IngestHalf(p)) && ApplyHalf(Silent(p)) == Silent(ApplyHalf(p));
    }
  }

  lemma SilentOfBoth(a: Pipelines, b: Pipelines)
    ensures AllSilent(a + b) == AllSilent(a) + AllSilent(b)
  {
  }

  lemma {:induction false} ExpansionIsSilent(pipelines: Pipelines)
    ensures Expanded(AllSilent(pipelines)) == AllSilent(Expanded(pipelines))
  {
    if |pipelines| > 0 {
      var (before, last) := (pipelines[..|pipelines| - 1], pipelines[|pipelines| - 1]);
      assert AllSilent(pipelines)[..|pipelines| - 1] == AllSilent(before);
      ExpansionIsSilent(before);
      HalvesAreSilent(last);
      SilentOfBoth(Expanded(before), Halves(last));
    }
  }

  lemma {:induction false} VerdictsAreSilent(d: Deployment, e: Deployment, all: Pipelines, some: Pipelines)
    requires d.maxBytes == e.maxBytes
    ensures RejectedAmong(e, AllSilent(all), AllSilent(some)) == RejectedAmong(d, all, some)
    ensures |RunningAmong(e, AllSilent(all), AllSilent(some))| == |RunningAmong(d, all, some)|
    ensures forall k | 0 <= k < |RunningAmong(d, all, some)| ::
              RunningAmong(e, AllSilent(all), AllSilent(some))[k].config == Silent(RunningAmong(d, all, some)[k].config)
  {
    if |some| > 0 {
      var (before, last) := (some[..|some| - 1], some[|some| - 1]);
      assert AllSilent(some)[..|some| - 1] == AllSilent(before);
      VerdictsAreSilent(d, e, all, before);
      CondemnationIsSilent(all, last.name);
      assert ResolvesAlone(e, Silent(last)) <==> ResolvesAlone(d, last);
    }
  }

  /**
    A publication is a leaf: two configurations that differ only in what is published, by whom and
    to what hub, accept the same pipelines and reject the same names.
  */
  lemma PublishingNeverDecidesWhoRuns(d: Deployment, e: Deployment, a: Pipelines, b: Pipelines)
    requires d.maxBytes == e.maxBytes && AllSilent(a) == AllSilent(b)
    ensures ResolvedFleet(d, a).rejected == ResolvedFleet(e, b).rejected
    ensures |ResolvedFleet(d, a).pipelines| == |ResolvedFleet(e, b).pipelines|
    ensures forall k | 0 <= k < |ResolvedFleet(d, a).pipelines| ::
              Silent(ResolvedFleet(d, a).pipelines[k].config) == Silent(ResolvedFleet(e, b).pipelines[k].config)
  {
    var (x, y) := (Expanded(a), Expanded(b));
    ExpansionIsSilent(a);
    ExpansionIsSilent(b);
    VerdictsAreSilent(d, d, x, x);
    VerdictsAreSilent(e, d, y, y);
  }

  // ------------------------------------------------------------------ where the stage check is not what it says

  /** Nothing is wrong with the pipeline at place `i`, but for what it does at the stage `uri`. */
  predicate NothingElseWrong(d: Deployment, all: Pipelines, i: nat, uri: string)
    requires i < |all|
  {
    var p := all[i];
    && ResolvesAlone(d, p)
    && !SharesAppId(all, p.name) && !SharesName(all, p.name) && !CascadeConflict(all, p.name)
    && (p.sourceUri != uri ==> !Trespasses(all, p, p.sourceUri))
    && (p.targetUri != uri ==> !Trespasses(all, p, p.targetUri))
  }

  lemma OnlyItsName(all: Pipelines, i: nat, k: nat)
    requires i < |all| && k < |all| && !SharesName(all, all[i].name)
    ensures all[k].name == all[i].name ==> k == i
  {
    SameNameIsShared(all, i, k);
  }

  /** Such a pipeline runs exactly when the stage is its own, by the rule of names. */
  lemma RunsIffMine(d: Deployment, all: Pipelines, i: nat, uri: string)
    requires i < |all| && IsStageUri(uri) && (all[i].sourceUri == uri || all[i].targetUri == uri)
    requires NothingElseWrong(d, all, i, uri)
    ensures Accepted(d, all, all[i]) <==> IsMine(all, all[i], uri)
  {
    var p := all[i];
    assert TrespassesAnywhere(all, p) <==> !IsMine(all, p, uri);
    assert p in all && (TrespassesAnywhere(all, p) ==> StageConflict(all, p.name));
    if StageConflict(all, p.name) {
      var q :| q in all && q.name == p.name && TrespassesAnywhere(all, q);
      var k :| 0 <= k < |all| && all[k] == q;
      OnlyItsName(all, i, k);
    }
  }

  /**
    Two writers of one stage, in any fleet, with nothing else wrong with either: both run if and only
    if one is the stage's last writer and the other bears the name of that one's apply half.
  */
  lemma TwoWritersRunIff(d: Deployment, all: Pipelines, i: nat, j: nat, uri: string)
    requires i < |all| && j < |all| && i != j && IsStageUri(uri) && all[i].targetUri == uri && all[j].targetUri == uri
    requires NothingElseWrong(d, all, i, uri) && NothingElseWrong(d, all, j, uri)
    ensures Accepted(d, all, all[i]) && Accepted(d, all, all[j]) <==>
              {all[i].name, all[j].name} == {Owner(all, uri), ApplyName(TrimEnd(Owner(all, uri), INGEST))}
  {
    RunsIffMine(d, all, i, uri);
    RunsIffMine(d, all, j, uri);
    OnlyItsName(all, i, j);
    TwoNames(all[i].name, all[j].name, Owner(all, uri), ApplyName(TrimEnd(Owner(all, uri), INGEST)));
  }

  lemma TwoNames(p: string, q: string, a: string, b: string)
    requires p != q
    ensures p in {a, b} && q in {a, b} <==> {p, q} == {a, b}
  {
    if {p, q} == {a, b} {
      assert p in {p, q} && q in {p, q};
    }
    if p in {a, b} && q in {a, b} {
      assert (p == a && q == b) || (p == b && q == a);
    }
  }

  /**
    Two readers of one stage, in any fleet, with nothing else wrong with either: both run if and only
    if no pipeline writes that stage and they are named "" and "__apply".
  */
  lemma TwoReadersRunIff(d: Deployment, all: Pipelines, i: nat, j: nat, uri: string)
    requires i < |all| && j < |all| && i != j && IsStageUri(uri) && all[i].sourceUri == uri && all[j].sourceUri == uri
    requires NothingElseWrong(d, all, i, uri) && NothingElseWrong(d, all, j, uri)
    ensures Accepted(d, all, all[i]) && Accepted(d, all, all[j]) <==>
              (forall p | p in all :: p.targetUri != uri) && {all[i].name, all[j].name} == {"", APPLY}
  {
    if Accepted(d, all, all[i]) && Accepted(d, all, all[j]) {
      OneReaderPerStage(d, all, i, j, uri);
    }
    OwnerWrites(all, uri);
    if (forall p | p in all :: p.targetUri != uri) && {all[i].name, all[j].name} == {"", APPLY} {
      assert Owner(all, uri) == "" && TrimEnd("", INGEST) == "" && ApplyName("") == APPLY;
      OnlyItsName(all, i, j);
      TwoNames(all[i].name, all[j].name, "", APPLY);
      RunsIffMine(d, all, i, uri);
      RunsIffMine(d, all, j, uri);
    }
  }

  /**
    The pair of a staged upsert, in any fleet where the ingest half is its stage's owner and with
    nothing else wrong with the apply half: that half runs exactly when the pair's name does not end
    in the ingest half's suffix. Otherwise the ingest half fills a stage no one reads.
  */
  lemma PairUsesItsStageIff(d: Deployment, all: Pipelines, p: PipelineConfig, i: nat)
    requires Splits(p) && i < |all| && all[i] == ApplyHalf(p) && NothingElseWrong(d, all, i, StageOf(p))
    requires Owner(all, StageOf(p)) == IngestName(p.name)
    ensures Accepted(d, all, ApplyHalf(p)) <==> !EndsWith(p.name, INGEST)
  {
    RunsIffMine(d, all, i, StageOf(p));
    PairKnowsItsOwnIff(p.name);
    SuffixesDiffer(p.name, APPLY, INGEST);
  }

  /**
    The owner is whoever writes last: a third pipeline that writes to the stage after the pair is
    taken for its owner, and the ingest half is held back in its place, unless the names are so
    chosen that it passes for the third one's apply half.
  */
  lemma ALaterWriterTakesTheStage(d: Deployment, all: Pipelines, p: PipelineConfig, i: nat, third: PipelineConfig)
    requires Splits(p) && i < |all| && all[i] == IngestHalf(p) && NothingElseWrong(d, all, i, StageOf(p))
    requires third in all && third.targetUri == StageOf(p) && Owner(all, StageOf(p)) == third.name != IngestName(p.name)
    ensures !Trespasses(all, third, StageOf(p))
    ensures Accepted(d, all, IngestHalf(p)) <==> ApplyName(TrimEnd(third.name, INGEST)) == IngestName(p.name)
  {
    RunsIffMine(d, all, i, StageOf(p));
  }

  // ------------------------------------------------------------------ such fleets there are

  /** An appending pipeline with nothing else set. */
  function Plain(name: string, appId: string, source: string, target: string): PipelineConfig {
    PipelineConfig(name, appId, source, target, Append, Fail, 0, None, [], None, None, None, [], None, None, [],
                   false, None, None, None, None, None, None, None, None, None, None, false)
  }

  const STAGE: string := "s__ddi_stage"

  lemma StageIsAStage()
    ensures IsStageUri(STAGE) && !IsStageUri("a") && !IsStageUri("b")
  {
    NoSlash(STAGE);
    NoSlash("a");
    NoSlash("b");
    assert |STAGE| == 12 && |STAGE_SUFFIX| == 11 && STAGE[1..] == STAGE_SUFFIX;
  }

  lemma PlainIsFine(d: Deployment, p: PipelineConfig, q: PipelineConfig)
    requires d.maxBytes.parses && p.appId == "i" && q.appId == "j" && p.name != q.name
    requires p == Plain(p.name, "i", p.sourceUri, p.targetUri) && q == Plain(q.name, "j", q.sourceUri, q.targetUri)
    requires p.sourceUri != p.targetUri && q.sourceUri != q.targetUri
    ensures ResolvesAlone(d, p) && ResolvesAlone(d, q)
    ensures var all := [p, q];
            forall i | 0 <= i < 2 ::
              !SharesAppId(all, all[i].name) && !SharesName(all, all[i].name) && !CascadeConflict(all, all[i].name)
  {
    assert Trim("i") == "i" && Trim("j") == "j";
    assert "i"[0] == 'i' && "j"[0] == 'j';
  }

  lemma TheirNames()
    ensures ApplyName(TrimEnd("x__ingest", INGEST)) == "x__apply" != "x__ingest"
  {
    assert "x__ingest"[1..] == INGEST && "x__ingest"[..1] == "x" && TrimEnd("x", INGEST) == "x";
    assert |"x__apply"| == 8 && |"x__ingest"| == 9;
  }

  /** A fleet whose stage has two writers, and both run. */
  lemma AStageWithTwoWriters(d: Deployment)
    requires d.maxBytes.parses
    ensures var all := [Plain("x__apply", "i", "a", STAGE), Plain("x__ingest", "j", "b", STAGE)];
            Accepted(d, all, all[0]) && Accepted(d, all, all[1])
  {
    TheirNames();
    TwoPlainWriters(d, "x__apply", "x__ingest");
  }

  lemma TwoPlainWriters(d: Deployment, first: string, last: string)
    requires d.maxBytes.parses && first != last && ApplyName(TrimEnd(last, INGEST)) == first
    ensures var all := [Plain(first, "i", "a", STAGE), Plain(last, "j", "b", STAGE)];
            Accepted(d, all, all[0]) && Accepted(d, all, all[1])
  {
    var all := [Plain(first, "i", "a", STAGE), Plain(last, "j", "b", STAGE)];
    StageIsAStage();
    assert |STAGE| == 12;
    PlainIsFine(d, all[0], all[1]);
    assert Owner(all, STAGE) == last;
    TwoWritersRunIff(d, all, 0, 1, STAGE);
  }

  /** A fleet whose stage no one writes has two readers, and both run. */
  lemma AStageWithTwoReaders(d: Deployment)
    requires d.maxBytes.parses
    ensures var all := [Plain("", "i", STAGE, "a"), Plain(APPLY, "j", STAGE, "b")];
            Accepted(d, all, all[0]) && Accepted(d, all, all[1])
  {
    var all := [Plain("", "i", STAGE, "a"), Plain(APPLY, "j", STAGE, "b")];
    StageIsAStage();
    assert |APPLY| == 7;
    PlainIsFine(d, all[0], all[1]);
    TwoReadersRunIff(d, all, 0, 1, STAGE);
  }

  /** A text with no space at either end. */
  lemma NoSpace(s: string)
    requires |s| > 0 && !IsSpace(s[0]) && !IsSpace(s[|s| - 1])
    ensures Trim(s) == s
  {
  }

  lemma NothingShared(all: Pipelines, i: nat)
    requires i < |all| <= 3
    requires forall j, k | 0 <= j < |all| && 0 <= k < |all| && j != k ::
               all[j].name != all[k].name && Trim(all[j].appId) != Trim(all[k].appId)
    requires forall j, k | 0 <= j < |all| && 0 <= k < |all| :: !CannotRead(all[j], all[k])
    ensures !SharesAppId(all, all[i].name) && !SharesName(all, all[i].name) && !CascadeConflict(all, all[i].name)
  {
  }

  lemma RunsWithoutAStage(d: Deployment, all: Pipelines, i: nat)
    requires i < |all| && ResolvesAlone(d, all[i]) && !IsStageUri(all[i].sourceUri) && !IsStageUri(all[i].targetUri)
    requires !SharesAppId(all, all[i].name) && !SharesName(all, all[i].name) && !CascadeConflict(all, all[i].name)
    ensures Accepted(d, all, all[i])
  {
  }

  /** An entry that publishes to "g", and one that asks for near-time publishing beside a lookup. */
  function Publishing(p: PipelineConfig): PipelineConfig {
    p.(publish := Some(Publish("g", false, "k", true)))
  }

  function NearTime(p: PipelineConfig): PipelineConfig {
    p.(publish := Some(Publish("g", true, "k", true)), transformSql := Some(Setting("s", true)), lookups := [Lookup("l", "z", true)])
  }

  /** Two appending pipelines with nothing in common: the first loses its group to the second, which never sends anything. */
  lemma SilentRival(d: Deployment, p: PipelineConfig, q: PipelineConfig)
    requires d.maxBytes.parses && !d.publishDisabled && d.hub == Some(Hub("k", true))
    requires p == Plain(p.name, p.appId, p.sourceUri, p.targetUri) && q == Plain(q.name, q.appId, q.sourceUri, q.targetUri)
    requires p.name != q.name && Trim(p.appId) != Trim(q.appId) && Trim(p.appId) != ""
    requires p.sourceUri != p.targetUri && !IsStageUri(p.sourceUri) && !IsStageUri(p.targetUri)
    ensures var all := [Publishing(p), NearTime(q)];
            && ResolvePublish(d, all[0]).Some? && ResolvePublish(d, all[1]).None?
            && Accepted(d, all, all[0]) && RunningOf(d, all, all[0]).publish.None?
  {
    var all := [Publishing(p), NearTime(q)];
    assert |"g"| == 1 && ValidGroup("g");
    NothingShared(all, 0);
    RunsWithoutAStage(d, all, 0);
    assert IsRival(d, all, 0, 1);
    LosesItsPublicationIff(d, all, 0);
  }

  /** Such a fleet there is. */
  lemma ASilentRivalTakesAGroup(d: Deployment) returns (all: Pipelines)
    requires d.maxBytes.parses && !d.publishDisabled && d.hub == Some(Hub("k", true))
    ensures |all| == 2 && ResolvePublish(d, all[0]).Some? && ResolvePublish(d, all[1]).None?
    ensures Accepted(d, all, all[0]) && RunningOf(d, all, all[0]).publish.None?
  {
    var (p, q) := (Plain("p", "i", "a", "b"), Plain("q", "j", "a", "b"));
    assert "p"[0] != "q"[0] && "i"[0] != "j"[0] && "a"[0] != "b"[0];
    StageIsAStage();
    NoSpace(p.appId);
    NoSpace(q.appId);
    SilentRival(d, p, q);
    all := [Publishing(p), NearTime(q)];
  }

  // ------------------------------------------------------------------ and fleets with a pair

  /** A staged upsert over STAGE. */
  function Staged(name: string, appId: string, source: string, target: string): PipelineConfig {
    Plain(name, appId, source, target).(writeMode := StagedUpsert, upsertKey := Some("k"), dedupTimestamp := Some("t"), stageUri := Some(STAGE))
  }

  /** An offset key and tables nothing is wrong with. */
  predicate Usable(appId: string, source: string, target: string) {
    |appId| > 0 && !IsSpace(appId[0]) && source != target && !IsStageUri(source) && !IsStageUri(target)
  }

  lemma StagedSplits(p: PipelineConfig)
    requires p == Staged(p.name, p.appId, p.sourceUri, p.targetUri) && Usable(p.appId, p.sourceUri, p.targetUri)
    ensures Splits(p) && StageOf(p) == STAGE && Expanded([p]) == [IngestHalf(p), ApplyHalf(p)]
  {
    assert !StagedProblem(p) by {
      StageIsAStage();
      assert !DedupPartitionProblem(p);
    }
    OneExpands(p);
  }

  lemma OneExpands(p: PipelineConfig)
    ensures Expanded([p]) == Halves(p)
  {
    assert [p][..0] == [] && Expanded([p]) == [] + Halves(p);
  }

  lemma HalvesHaveOwnKeys(p: PipelineConfig)
    requires |p.appId| > 0 && !IsSpace(p.appId[0])
    ensures Trim(IngestHalf(p).appId) == p.appId + ".ingest" && Trim(ApplyHalf(p).appId) == p.appId + ".apply"
    ensures p.appId + ".ingest" != p.appId + ".apply"
  {
    NoSpace(p.appId + ".ingest");
    NoSpace(p.appId + ".apply");
    SuffixesDiffer(p.appId, ".ingest", ".apply");
  }

  lemma HalvesResolve(d: Deployment, p: PipelineConfig)
    requires p == Staged(p.name, p.appId, p.sourceUri, p.targetUri) && d.maxBytes.parses
    requires p.sourceUri != STAGE && p.targetUri != STAGE
    requires Trim(IngestHalf(p).appId) != "" && Trim(ApplyHalf(p).appId) != ""
    ensures ResolvesAlone(d, IngestHalf(p)) && ResolvesAlone(d, ApplyHalf(p))
  {
  }

  /** Names and offset keys of their own, and nothing reads what another upserts. */
  predicate Apart(all: Pipelines) {
    && (forall j, k | 0 <= j < |all| && 0 <= k < |all| && j != k ::
          all[j].name != all[k].name && Trim(all[j].appId) != Trim(all[k].appId))
    && (forall j, k | 0 <= j < |all| && 0 <= k < |all| :: !CannotRead(all[j], all[k]))
  }

  /** A pipeline of such a fleet that uses no stage but STAGE. */
  lemma FineAt(d: Deployment, all: Pipelines, i: nat)
    requires i < |all| <= 3 && ResolvesAlone(d, all[i]) && Apart(all)
    requires all[i].sourceUri == STAGE || !IsStageUri(all[i].sourceUri)
    requires all[i].targetUri == STAGE || !IsStageUri(all[i].targetUri)
    ensures NothingElseWrong(d, all, i, STAGE)
  {
    NothingShared(all, i);
  }

  /** What two halves, or a pair and a third, need to be apart. */
  predicate AsHalves(ingest: PipelineConfig, apply: PipelineConfig) {
    && ingest.name != apply.name && Trim(ingest.appId) != Trim(apply.appId)
    && ingest.writeMode.Append? && ingest.sourceUri != apply.targetUri && apply.sourceUri == STAGE == ingest.targetUri
    && apply.targetUri != STAGE && !IsStageUri(ingest.sourceUri) && !IsStageUri(apply.targetUri)
  }

  predicate AsThird(ingest: PipelineConfig, apply: PipelineConfig, third: PipelineConfig) {
    && third.name != ingest.name && third.name != apply.name && third.writeMode.Append?
    && Trim(third.appId) != Trim(ingest.appId) && Trim(third.appId) != Trim(apply.appId)
    && third.sourceUri != apply.targetUri && third.targetUri == STAGE && !IsStageUri(third.sourceUri)
  }

  lemma PairIsFine(d: Deployment, ingest: PipelineConfig, apply: PipelineConfig)
    requires AsHalves(ingest, apply) && ResolvesAlone(d, ingest) && ResolvesAlone(d, apply)
    ensures var all := [ingest, apply];
            NothingElseWrong(d, all, 0, STAGE) && NothingElseWrong(d, all, 1, STAGE) && Owner(all, STAGE) == ingest.name
  {
    PairIsApart(ingest, apply);
    var all := [ingest, apply];
    FineAt(d, all, 0);
    FineAt(d, all, 1);
    assert all[..1] == [ingest];
  }

  lemma PairIsApart(ingest: PipelineConfig, apply: PipelineConfig)
    requires AsHalves(ingest, apply)
    ensures Apart([ingest, apply])
  {
    var all := [ingest, apply];
    forall j, k | 0 <= j < |all| && 0 <= k < |all| ensures !CannotRead(all[j], all[k]) {
      assert j == 1 || all[j].writeMode.Append?;
      assert all[k].sourceUri != apply.targetUri;
    }
  }

  lemma TrioIsFine(d: Deployment, ingest: PipelineConfig, apply: PipelineConfig, third: PipelineConfig)
    requires AsHalves(ingest, apply) && AsThird(ingest, apply, third) && ResolvesAlone(d, ingest) && ResolvesAlone(d, third)
    ensures var all := [ingest, apply, third];
            NothingElseWrong(d, all, 0, STAGE) && NothingElseWrong(d, all, 2, STAGE) && Owner(all, STAGE) == third.name
  {
    TrioIsApart(ingest, apply, third);
    var all := [ingest, apply, third];
    FineAt(d, all, 0);
    FineAt(d, all, 2);
  }

  lemma TrioIsApart(ingest: PipelineConfig, apply: PipelineConfig, third: PipelineConfig)
    requires AsHalves(ingest, apply) && AsThird(ingest, apply, third)
    ensures Apart([ingest, apply, third])
  {
    var all := [ingest, apply, third];
    forall j, k | 0 <= j < |all| && 0 <= k < |all| ensures !CannotRead(all[j], all[k]) {
      assert j == 1 || all[j].writeMode.Append?;
      assert all[k].sourceUri != apply.targetUri;
    }
  }

  lemma HalvesAreHalves(d: Deployment, p: PipelineConfig)
    requires p == Staged(p.name, p.appId, p.sourceUri, p.targetUri) && Usable(p.appId, p.sourceUri, p.targetUri)
    requires d.maxBytes.parses
    ensures AsHalves(IngestHalf(p), ApplyHalf(p))
    ensures ResolvesAlone(d, IngestHalf(p)) && ResolvesAlone(d, ApplyHalf(p))
  {
    StageIsAStage();
    HalvesHaveOwnKeys(p);
    HalvesResolve(d, p);
    SuffixesDiffer(p.name, INGEST, APPLY);
  }

  /** The pair of a staged upsert whose name ends in "__ingest": its ingest half runs, and its apply half does not. */
  lemma PairTripsOverItself(d: Deployment, p: PipelineConfig)
    requires p == Staged(p.name, p.appId, p.sourceUri, p.targetUri) && Usable(p.appId, p.sourceUri, p.targetUri)
    requires d.maxBytes.parses && EndsWith(p.name, INGEST)
    ensures Accepted(d, Expanded([p]), IngestHalf(p)) && !Accepted(d, Expanded([p]), ApplyHalf(p))
  {
    StagedSplits(p);
    HalvesAreHalves(d, p);
    PairIsFine(d, IngestHalf(p), ApplyHalf(p));
    StageIsAStage();
    RunsIffMine(d, Expanded([p]), 0, STAGE);
    PairUsesItsStageIff(d, Expanded([p]), p, 1);
  }

  /** Such a pair there is: a staged upsert named "x__ingest". */
  lemma APairThatTripsOverItself(d: Deployment) returns (p: PipelineConfig)
    requires d.maxBytes.parses
    ensures p.name == "x__ingest" && Expanded([p]) == [IngestHalf(p), ApplyHalf(p)]
    ensures Accepted(d, Expanded([p]), IngestHalf(p)) && !Accepted(d, Expanded([p]), ApplyHalf(p))
  {
    p := Staged("x__ingest", "i", "a", "b");
    StageIsAStage();
    assert "a"[0] != "b"[0] && "x__ingest"[1..] == INGEST;
    StagedSplits(p);
    PairTripsOverItself(d, p);
  }

  /** A third pipeline that writes the stage of a pair last: it runs, and the ingest half does not. */
  lemma ThirdWriterTakesOver(d: Deployment, p: PipelineConfig, third: PipelineConfig)
    requires p == Staged(p.name, p.appId, p.sourceUri, p.targetUri) && Usable(p.appId, p.sourceUri, p.targetUri)
    requires d.maxBytes.parses && ResolvesAlone(d, third) && AsThird(IngestHalf(p), ApplyHalf(p), third)
    requires ApplyName(TrimEnd(third.name, INGEST)) != IngestName(p.name)
    ensures var all := Expanded([p]) + [third];
            Accepted(d, all, third) && !Accepted(d, all, IngestHalf(p))
  {
    var all := [IngestHalf(p), ApplyHalf(p), third];
    StagedSplits(p);
    assert Expanded([p]) + [third] == all;
    HalvesAreHalves(d, p);
    TrioIsFine(d, IngestHalf(p), ApplyHalf(p), third);
    StageIsAStage();
    RunsIffMine(d, all, 2, STAGE);
    ALaterWriterTakesTheStage(d, all, p, 0, third);
  }

  /** Such a fleet there is. */
  lemma AThirdWriterTakesTheStage(d: Deployment) returns (p: PipelineConfig, third: PipelineConfig)
    requires d.maxBytes.parses
    ensures p.writeMode.StagedUpsert? && third.targetUri == StageOf(p)
    ensures var all := Expanded([p]) + [third];
            Accepted(d, all, third) && !Accepted(d, all, IngestHalf(p))
  {
    p, third := Staged("x", "i", "a", "b"), Plain("z", "j", "a", STAGE);
    StageIsAStage();
    assert "a"[0] != "b"[0] && |STAGE| == 12;
    ThirdIsThird(p, third);
    PlainResolves(d, third);
    assert TrimEnd(third.name, INGEST) == third.name && |ApplyName(third.name)| == 8 && |IngestName(p.name)| == 9;
    ThirdWriterTakesOver(d, p, third);
  }

  lemma PlainResolves(d: Deployment, p: PipelineConfig)
    requires p == Plain(p.name, p.appId, p.sourceUri, p.targetUri) && d.maxBytes.parses
    requires Trim(p.appId) != "" && p.sourceUri != p.targetUri
    ensures ResolvesAlone(d, p)
  {
  }

  /** Texts of other lengths are other texts. */
  lemma ThirdIsThird(p: PipelineConfig, third: PipelineConfig)
    requires p == Staged(p.name, p.appId, p.sourceUri, p.targetUri) && third == Plain(third.name, third.appId, third.sourceUri, STAGE)
    requires |p.name| == |p.appId| == |third.name| == |third.appId| == 1 && !IsSpace(p.appId[0]) && !IsSpace(third.appId[0])
    requires third.sourceUri != p.targetUri && !IsStageUri(third.sourceUri)
    ensures AsThird(IngestHalf(p), ApplyHalf(p), third) && Trim(third.appId) != ""
  {
    HalvesHaveOwnKeys(p);
    NoSpace(third.appId);
    assert |p.appId + ".ingest"| == 8 && |p.appId + ".apply"| == 7;
    assert |IngestName(p.name)| == 9 && |ApplyName(p.name)| == 8;
  }
}
