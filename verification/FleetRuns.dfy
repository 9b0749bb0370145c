/**
  What of a fleet does run, and what does publish: the other side of the checks, so that none refuses
  more than it says (src/config.rs).
*/
module FleetRuns {
  import opened Basics
  import opened Staging
  import opened Fleet
  import opened FleetSafety

  // ------------------------------------------------------------------ settings

  /** The settings of whatever runs fit its mode: it can merge, or it has nothing that only merging uses. */
  lemma RunningSettingsFit(d: Deployment, pipelines: Pipelines, k: nat)
    requires k < |ResolvedFleet(d, pipelines).pipelines|
    ensures var p := ResolvedFleet(d, pipelines).pipelines[k].config;
            && Trim(p.appId) != "" && !p.metaProblem
            && (p.writeMode.Upsert? ==> (p.upsertKey.Some? || p.dedupKey.Some?) && p.dedupTimestamp.Some?)
            && (p.writeMode.Append? ==> p.upsertKey.None? && p.upsertLookback.None? && p.upsertTiebreak == [])
            && (forall c | c in p.upsertTiebreak :: Trim(c) != "" && Some(c) != p.dedupTimestamp)
            && (p.dedupPartition != [] ==> p.dedupTimestamp.Some?)
            && (forall c | c in p.dedupPartition :: Trim(c) != "" && Some(c) != p.dedupTimestamp && Some(c) != p.dedupKey)
            && (forall i, j | 0 <= i < j < |p.dedupPartition| :: p.dedupPartition[i] != p.dedupPartition[j])
            && (p.lookups != [] ==> p.transformSql.Some?)
            && (forall l | l in p.lookups :: l.resolves && l.uri != p.sourceUri && l.uri != p.targetUri)
            && (forall i, j | 0 <= i < j < |p.lookups| :: p.lookups[i].name != p.lookups[j].name)
  {
    var all := Expanded(pipelines);
    PlaceOfIsItsPlace(d, all, all, k);
    var p := all[PlaceOf(d, all, all, k)];
    ModeFits(d, p);
    PartitionFits(d, p);
    LookupsFit(d, p);
  }

  lemma ModeFits(d: Deployment, p: PipelineConfig)
    requires ResolvesAlone(d, p)
    ensures Trim(p.appId) != "" && !p.metaProblem
    ensures p.writeMode.Upsert? ==> (p.upsertKey.Some? || p.dedupKey.Some?) && p.dedupTimestamp.Some?
    ensures p.writeMode.Append? ==> p.upsertKey.None? && p.upsertLookback.None? && p.upsertTiebreak == []
    ensures forall c | c in p.upsertTiebreak :: Trim(c) != "" && Some(c) != p.dedupTimestamp
  {
  }

  lemma PartitionFits(d: Deployment, p: PipelineConfig)
    requires ResolvesAlone(d, p)
    ensures p.dedupPartition != [] ==> p.dedupTimestamp.Some?
    ensures forall c | c in p.dedupPartition :: Trim(c) != "" && Some(c) != p.dedupTimestamp && Some(c) != p.dedupKey
    ensures forall i, j | 0 <= i < j < |p.dedupPartition| :: p.dedupPartition[i] != p.dedupPartition[j]
  {
  }

  lemma LookupsFit(d: Deployment, p: PipelineConfig)
    requires ResolvesAlone(d, p)
    ensures p.lookups != [] ==> p.transformSql.Some?
    ensures forall l | l in p.lookups :: l.resolves && l.uri != p.sourceUri && l.uri != p.targetUri
    ensures forall i, j | 0 <= i < j < |p.lookups| :: p.lookups[i].name != p.lookups[j].name
  {
    assert forall l | l in p.lookups :: exists i :: 0 <= i < |p.lookups| && p.lookups[i] == l;
  }

  /** A pipeline with settings of the kind its mode takes, each of which parses. */
  predicate IsSound(d: Deployment, p: PipelineConfig) {
    && d.maxBytes.parses && !p.metaProblem && Trim(p.appId) != "" && p.sourceUri != p.targetUri
    && p.dedupPartition == [] && p.upsertTiebreak == [] && p.upsertLookback.None? && p.maxBytesPerBatch.None?
    && (if p.writeMode.Upsert? then (p.upsertKey.Some? || p.dedupKey.Some?) && p.dedupTimestamp.Some?
        else p.writeMode.Append? && p.upsertKey.None?)
    && (p.lookups == [] || (|p.lookups| == 1 && p.lookups[0].resolves && p.transformSql.Some?
                             && p.lookups[0].uri != p.sourceUri && p.lookups[0].uri != p.targetUri))
    && (p.transformSql.Some? ==> p.transformSql.value.parses)
  }

  lemma SoundResolves(d: Deployment, p: PipelineConfig)
    requires IsSound(d, p)
    ensures ResolvesAlone(d, p)
  {
  }

  /** No table of the fleet is a stage, and no two of its pipelines share a name or an offset key. */
  predicate OwnTables(all: Pipelines) {
    && (forall i | 0 <= i < |all| :: !IsStageUri(all[i].sourceUri) && !IsStageUri(all[i].targetUri))
    && (forall i, j | 0 <= i < |all| && 0 <= j < |all| && i != j ::
          all[i].name != all[j].name && Trim(all[i].appId) != Trim(all[j].appId))
  }

  /**
    In such a fleet a sound pipeline runs if and only if it reads no upserted table, or merges what it
    re-reads: it ignores changes and upserts.
  */
  lemma ReaderRunsIff(d: Deployment, all: Pipelines, i: nat)
    requires OwnTables(all) && i < |all| && IsSound(d, all[i])
    ensures Accepted(d, all, all[i]) <==>
              || (forall up | up in all && up.writeMode.Upsert? :: up.targetUri != all[i].sourceUri)
              || (all[i].changePolicy == IgnoreChanges && all[i].writeMode == Upsert)
  {
    var p := all[i];
    SoundResolves(d, p);
    assert p in all && !SharesAppId(all, p.name) && !SharesName(all, p.name) && !StageConflict(all, p.name);
    assert Accepted(d, all, p) <==> !CascadeConflict(all, p.name);
    if CascadeConflict(all, p.name) {
      var up, down :| up in all && down in all && CannotRead(up, down) && down.name == p.name;
      var k :| 0 <= k < |all| && all[k] == down;
      assert k == i;
    }
    if up :| up in all && up.writeMode.Upsert? && up.targetUri == p.sourceUri {
      assert CannotRead(up, p) || (p.changePolicy == IgnoreChanges && p.writeMode == Upsert);
    }
  }

  // ------------------------------------------------------------------ publishing

  /** Whether a group's name may go into a request path. */
  predicate IsGroup(group: string) {
    && 1 <= |group| <= 128
    && ('A' <= group[0] <= 'Z' || 'a' <= group[0] <= 'z' || '0' <= group[0] <= '9')
    && forall c | c in group ::
         'A' <= c <= 'Z' || 'a' <= c <= 'z' || '0' <= c <= '9' || c == '.' || c == '_' || c == ':' || c == '-'
  }

  lemma GroupIsValidIff(group: string)
    ensures ValidGroup(group) <==> IsGroup(group)
  {
    if ValidGroup(group) {
      assert IsGroupChar(group[0]);
      forall c | c in group ensures IsGroupChar(c) {
        var i :| 0 <= i < |group| && group[i] == c;
      }
    }
    if IsGroup(group) {
      forall i | 0 <= i < |group| ensures IsGroupChar(group[i]) {
        assert group[i] in group;
      }
    }
  }

  /**
    Who publishes, and what: an appending pipeline that asks to, where the deployment may and has a usable
    hub of the kind asked for, with a group and SQL that are valid and no near-time publishing beside
    lookups; and whose group no other appending entry asks for.
  */
  lemma PublishesIff(d: Deployment, all: Pipelines, i: nat, model: Publish)
    requires i < |all| && forall k | 0 <= k < |all| && k != i :: all[k].name != all[i].name
    ensures RunningOf(d, all, all[i]).publish == Some(model) <==>
              && all[i].publish == Some(model) && all[i].writeMode == Append
              && !d.publishDisabled && d.hub == Some(Hub(model.kind, true))
              && IsGroup(model.group) && model.sqlIsValid && !(model.nearTime && all[i].lookups != [])
              && forall j | 0 <= j < |all| && j != i ::
                   all[j].publish.Some? && all[j].writeMode == Append ==> all[j].publish.value.group != model.group
  {
    var p := all[i];
    GroupIsValidIff(model.group);
    assert !SharesName(all, p.name);
    if ResolvePublish(d, p).Some? {
      LosesItsPublicationIff(d, all, i);
      if HasRival(d, all, i) {
        var j :| 0 <= j < |all| && IsRival(d, all, i, j);
      }
      if j :| 0 <= j < |all| && j != i && all[j].publish.Some? && all[j].writeMode == Append
              && all[j].publish.value.group == p.publish.value.group {
        assert IsRival(d, all, i, j);
      }
    }
  }
}
