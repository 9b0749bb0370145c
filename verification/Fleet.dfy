/**
  Which pipelines of a configuration run: the checks that condemn pipelines against each other,
  the resolution of each on its own, and what may publish (src/config.rs).
*/
module Fleet {
  import opened Basics
  import opened Staging

  type Pipelines = seq<PipelineConfig>

  // ------------------------------------------------------------------ stages

  /** Who a stage belongs to: the last pipeline that writes to it, or no one. */
  function Owner(all: Pipelines, uri: string): string {
    if |all| == 0 then ""
    else if all[|all| - 1].targetUri == uri then all[|all| - 1].name
    else Owner(all[..|all| - 1], uri)
  }

  /** The pipeline is the stage's owner, or named as the half that reads what the owner writes. */
  predicate IsMine(all: Pipelines, p: PipelineConfig, uri: string) {
    p.name == Owner(all, uri) || p.name == ApplyName(TrimEnd(Owner(all, uri), INGEST))
  }

  predicate Trespasses(all: Pipelines, p: PipelineConfig, uri: string) {
    IsStageUri(uri) && !IsMine(all, p, uri)
  }

  predicate StageConflict(all: Pipelines, name: string) {
    exists p | p in all :: p.name == name && TrespassesAnywhere(all, p)
  }

  predicate TrespassesAnywhere(all: Pipelines, p: PipelineConfig) {
    Trespasses(all, p, p.sourceUri) || Trespasses(all, p, p.targetUri)
  }

  /** The owners map is the owners, of every stage. */
  ghost predicate AreOwners(owners: map<string, string>, all: Pipelines) {
    forall uri | IsStageUri(uri) :: Owner(all, uri) == if uri in owners then owners[uri] else ""
  }

  method OwnersOf(all: Pipelines) returns (owners: map<string, string>)
    ensures AreOwners(owners, all)
  {
    owners := map[];
    for i := 0 to |all|
      invariant AreOwners(owners, all[..i])
    {
      assert all[..i + 1][..i] == all[..i];
      if IsStageUri(all[i].targetUri) {
        owners := owners[all[i].targetUri := all[i].name];
      }
    }
    assert all[..|all|] == all;
  }

  method StageConflicts(all: Pipelines) returns (out: set<string>)
    ensures forall name :: name in out <==> StageConflict(all, name)
  {
    var owners := OwnersOf(all);
    out := {};
    for i := 0 to |all|
      invariant forall name :: name in out <==> exists k | 0 <= k < i :: all[k].name == name && TrespassesAnywhere(all, all[k])
    {
      var (p, uris) := (all[i], [all[i].sourceUri, all[i].targetUri]);
      var u := 0;
      while u < 2
        invariant 0 <= u <= 2
        invariant forall k | 0 <= k < u :: !Trespasses(all, p, uris[k])
      {
        if IsStageUri(uris[u]) {
          var owner := if uris[u] in owners then owners[uris[u]] else "";
          if p.name != owner && ApplyName(TrimEnd(owner, INGEST)) != p.name {
            break;
          }
        }
        u := u + 1;
      }
      assert uris[0] == p.sourceUri && uris[1] == p.targetUri;
      assert u < 2 <==> TrespassesAnywhere(all, p);
      if u < 2 {
        out := out + {p.name};
      }
    }
    forall name ensures name in out <==> StageConflict(all, name) {
      if StageConflict(all, name) {
        var p :| p in all && p.name == name && TrespassesAnywhere(all, p);
        var k :| 0 <= k < |all| && all[k] == p;
      }
    }
  }

  // ------------------------------------------------------------------ cascades

  /** `down` reads what `up` upserts, and cannot make sense of it. */
  predicate CannotRead(up: PipelineConfig, down: PipelineConfig) {
    && up.writeMode.Upsert? && down.sourceUri == up.targetUri
    && !(down.changePolicy.IgnoreChanges? && down.writeMode.Upsert?)
  }

  predicate CascadeConflict(all: Pipelines, name: string) {
    exists up, down | up in all && down in all :: CannotRead(up, down) && down.name == name
  }

  method CascadeConflicts(all: Pipelines) returns (out: set<string>)
    ensures forall name :: name in out <==> CascadeConflict(all, name)
  {
    out := {};
    for i := 0 to |all|
      invariant forall name :: name in out <==>
                  exists k, j | 0 <= k < i && 0 <= j < |all| :: CannotRead(all[k], all[j]) && all[j].name == name
    {
      for j := 0 to |all|
        invariant forall name :: name in out <==>
                    || (exists k, l | 0 <= k < i && 0 <= l < |all| :: CannotRead(all[k], all[l]) && all[l].name == name)
                    || (exists l | 0 <= l < j :: CannotRead(all[i], all[l]) && all[l].name == name)
      {
        if all[i].writeMode.Upsert? && all[j].sourceUri == all[i].targetUri {
          var fine := all[j].changePolicy.IgnoreChanges? && all[j].writeMode.Upsert?;
          if !fine {
            out := out + {all[j].name};
          }
        }
      }
    }
    forall name ensures name in out <==> CascadeConflict(all, name) {
      if CascadeConflict(all, name) {
        var up, down :| up in all && down in all && CannotRead(up, down) && down.name == name;
        var k :| 0 <= k < |all| && all[k] == up;
        var j :| 0 <= j < |all| && all[j] == down;
      }
    }
  }

  // ------------------------------------------------------------------ who is condemned

  predicate SharesAppId(all: Pipelines, name: string) {
    exists i, j | 0 <= i < |all| && 0 <= j < |all| ::
      i != j && all[i].name == name && Trim(all[i].appId) == Trim(all[j].appId)
  }

  predicate SharesName(all: Pipelines, name: string) {
    exists i, j | 0 <= i < j < |all| :: all[i].name == name && all[j].name == name
  }

  predicate Condemned(all: Pipelines, name: string) {
    SharesAppId(all, name) || SharesName(all, name) || CascadeConflict(all, name) || StageConflict(all, name)
  }

  /** Some other place has the same text as place `i`. */
  predicate IsShared(texts: seq<string>, i: nat)
    requires i < |texts|
  {
    exists j | 0 <= j < |texts| :: j != i && texts[j] == texts[i]
  }

  /** Just the places of `t`, in rising order. */
  predicate ArePlacesOf(texts: seq<string>, t: string, users: seq<nat>) {
    && Rising(users, |texts|)
    && (forall a | 0 <= a < |users| :: texts[users[a]] == t)
    && (forall k | 0 <= k < |texts| && texts[k] == t :: k in users)
  }

  /** Each text's places. */
  ghost predicate ArePlaces(texts: seq<string>, users: map<string, seq<nat>>) {
    && (forall k | 0 <= k < |texts| :: texts[k] in users)
    && (forall t | t in users :: ArePlacesOf(texts, t, users[t]))
  }

  lemma OneMorePlaceOf(texts: seq<string>, i: nat, t: string, places: seq<nat>)
    requires i < |texts| && ArePlacesOf(texts[..i], t, places)
    ensures ArePlacesOf(texts[..i + 1], t, if texts[i] == t then places + [i] else places)
  {
    var (before, more) := (texts[..i], texts[..i + 1]);
    assert forall k | 0 <= k < i :: more[k] == before[k];
    var all := if texts[i] == t then places + [i] else places;
    forall k | 0 <= k < |more| && more[k] == t ensures k in all {
      if k < i {
        assert before[k] == t && k in places;
      } else {
        assert all[|places|] == i;
      }
    }
  }

  lemma OneMorePlace(texts: seq<string>, i: nat, users: map<string, seq<nat>>)
    requires i < |texts| && ArePlaces(texts[..i], users)
    ensures ArePlaces(texts[..i + 1], users[texts[i] := (if texts[i] in users then users[texts[i]] else []) + [i]])
  {
    var more := users[texts[i] := (if texts[i] in users then users[texts[i]] else []) + [i]];
    var upTo := texts[..i + 1];
    forall k | 0 <= k < |upTo| ensures upTo[k] in more {
      if k < i {
        assert texts[..i][k] in users;
      }
    }
    forall t | t in more ensures ArePlacesOf(texts[..i + 1], t, more[t]) {
      var places := if t in users then users[t] else [];
      OneMorePlaceOf(texts, i, t, places);
    }
  }

  method PlacesOf(texts: seq<string>) returns (users: map<string, seq<nat>>)
    ensures ArePlaces(texts, users)
  {
    users := map[];
    for i := 0 to |texts|
      invariant ArePlaces(texts[..i], users)
    {
      OneMorePlace(texts, i, users);
      users := users[texts[i] := (if texts[i] in users then users[texts[i]] else []) + [i]];
    }
    assert texts[..|texts|] == texts;
  }

  function NamesAt(names: seq<string>, places: seq<nat>): (out: set<string>)
    requires forall a | 0 <= a < |places| :: places[a] < |names|
    ensures forall name :: name in out <==> exists a | 0 <= a < |places| :: names[places[a]] == name
  {
    set a | 0 <= a < |places| :: names[places[a]]
  }

  /** The names at the places whose text is shared: an app id, a group, or the name itself. */
  method Sharers(texts: seq<string>, names: seq<string>) returns (out: set<string>)
    requires |texts| == |names|
    ensures forall name :: name in out <==> exists i | 0 <= i < |texts| :: names[i] == name && IsShared(texts, i)
  {
    var users := PlacesOf(texts);
    out := {};
    var todo := users.Keys;
    while todo != {}
      invariant todo <= users.Keys
      invariant forall name :: name in out <==>
                  exists i | 0 <= i < |texts| :: texts[i] !in todo && names[i] == name && IsShared(texts, i)
      decreases todo
    {
      var t := Any(todo);
      if |users[t]| > 1 {
        TwoUsers(texts, users[t], t);
        out := out + NamesAt(names, users[t]);
      } else {
        OneUser(texts, users[t], t);
      }
      assert forall i | 0 <= i < |texts| :: texts[i] !in todo - {t} <==> texts[i] !in todo || texts[i] == t;
      todo := todo - {t};
    }
  }

  /** In rising order, below `limit`. */
  predicate Rising(users: seq<nat>, limit: nat) {
    && (forall a | 0 <= a < |users| :: users[a] < limit)
    && forall a, b | 0 <= a < b < |users| :: users[a] < users[b]
  }

  /** Of two or more users, each has another. */
  lemma TwoUsers(texts: seq<string>, users: seq<nat>, t: string)
    requires |users| > 1 && ArePlacesOf(texts, t, users)
    ensures forall i | 0 <= i < |texts| && texts[i] == t :: i in users && IsShared(texts, i)
  {
    assert users[0] in users && users[1] in users;
    forall i | 0 <= i < |texts| && texts[i] == t ensures IsShared(texts, i) {
      var j := if i == users[0] then users[1] else users[0];
      assert j != i && texts[j] == texts[i];
    }
  }

  lemma OneUser(texts: seq<string>, users: seq<nat>, t: string)
    requires |users| <= 1 && ArePlacesOf(texts, t, users)
    ensures forall i | 0 <= i < |texts| && texts[i] == t :: !IsShared(texts, i)
  {
    forall i, j | 0 <= i < |texts| && 0 <= j < |texts| && texts[i] == t && texts[j] == t ensures i == j {
      assert i in users && j in users;
    }
  }

  method CondemnedNames(all: Pipelines) returns (out: set<string>)
    ensures forall name :: name in out <==> Condemned(all, name)
  {
    var names := seq(|all|, i requires 0 <= i < |all| => all[i].name);
    var appIds := seq(|all|, i requires 0 <= i < |all| => Trim(all[i].appId));
    var byAppId := Sharers(appIds, names);
    var byName := Sharers(names, names);
    var cascades := CascadeConflicts(all);
    var stages := StageConflicts(all);
    out := byAppId + byName + cascades + stages;
    AppIdSharers(all, appIds, names, byAppId);
    NameSharers(all, names, byName);
  }

  lemma AppIdSharers(all: Pipelines, appIds: seq<string>, names: seq<string>, out: set<string>)
    requires |appIds| == |names| == |all|
    requires forall i | 0 <= i < |all| :: names[i] == all[i].name && appIds[i] == Trim(all[i].appId)
    requires forall name :: name in out <==> exists i | 0 <= i < |appIds| :: names[i] == name && IsShared(appIds, i)
    ensures forall name :: name in out <==> SharesAppId(all, name)
  {
    forall name ensures name in out <==> SharesAppId(all, name) {
      if SharesAppId(all, name) {
        var i, j :| 0 <= i < |all| && 0 <= j < |all| && i != j && all[i].name == name && Trim(all[i].appId) == Trim(all[j].appId);
        assert appIds[j] == appIds[i] && names[i] == name && IsShared(appIds, i);
      }
      if name in out {
        var i :| 0 <= i < |appIds| && names[i] == name && IsShared(appIds, i);
        var j :| 0 <= j < |appIds| && j != i && appIds[j] == appIds[i];
        assert all[i].name == name && Trim(all[i].appId) == Trim(all[j].appId);
      }
    }
  }

  lemma NameSharers(all: Pipelines, names: seq<string>, out: set<string>)
    requires |names| == |all| && forall i | 0 <= i < |all| :: names[i] == all[i].name
    requires forall name :: name in out <==> exists i | 0 <= i < |names| :: names[i] == name && IsShared(names, i)
    ensures forall name :: name in out <==> SharesName(all, name)
  {
    forall name ensures name in out <==> SharesName(all, name) {
      if SharesName(all, name) {
        var i, j :| 0 <= i < j < |all| && all[i].name == name && all[j].name == name;
        assert names[i] == name && names[j] == names[i] && IsShared(names, i);
      }
      if name in out {
        var i :| 0 <= i < |names| && names[i] == name && IsShared(names, i);
        var j :| 0 <= j < |names| && j != i && names[j] == names[i];
        assert all[if i < j then i else j].name == name && all[if i < j then j else i].name == name;
      }
    }
  }

  // ------------------------------------------------------------------ publishing

  /** What a deployment says of publishing: whether it may, and the hub it has. */
  datatype Hub = Hub(kind: string, usable: bool)

  datatype Deployment = Deployment(publishDisabled: bool, hub: Option<Hub>, maxBytes: Setting)

  predicate PublishProblem(p: PipelineConfig) {
    p.publish.Some? && p.writeMode != Append
  }

  predicate IsGroupChar(c: char) {
    'A' <= c <= 'Z' || 'a' <= c <= 'z' || '0' <= c <= '9' || c in {'.', '_', ':', '-'}
  }

  predicate ValidGroup(group: string) {
    && 1 <= |group| <= 128 && (forall i | 0 <= i < |group| :: IsGroupChar(group[i]))
    && group[0] !in {'.', '_', ':', '-'}
  }

  /** What the pipeline publishes: nothing, at the first thing that is not right. */
  function ResolvePublish(d: Deployment, p: PipelineConfig): Option<Publish> {
    if p.publish.None? || d.publishDisabled || PublishProblem(p) then None
    else
      var model := p.publish.value;
      if model.nearTime && p.lookups != [] then None
      else if d.hub.None? || !d.hub.value.usable || d.hub.value.kind != model.kind then None
      else if !ValidGroup(model.group) || !model.sqlIsValid then None
      else Some(model)
  }

  /** Whether the pipeline is counted among its group's users. */
  predicate Contests(d: Deployment, p: PipelineConfig) {
    !d.publishDisabled && d.hub.Some? && p.publish.Some? && !PublishProblem(p)
  }

  /** Some group this name is a user of has another user. */
  predicate GroupIsContested(d: Deployment, all: Pipelines, name: string) {
    exists i, j | 0 <= i < |all| && 0 <= j < |all| ::
      && i != j && all[i].name == name && Contests(d, all[i]) && Contests(d, all[j])
      && all[i].publish.value.group == all[j].publish.value.group
  }

  method ContestedGroups(d: Deployment, all: Pipelines) returns (out: set<string>)
    ensures forall name :: name in out <==> GroupIsContested(d, all, name)
  {
    var users: seq<nat> := [];
    assert d.publishDisabled || d.hub.None? ==> forall k | 0 <= k < |all| :: !Contests(d, all[k]);
    if !d.publishDisabled && d.hub.Some? {
      for i := 0 to |all|
        invariant forall k :: k in users <==> 0 <= k < i && Contests(d, all[k])
        invariant Rising(users, i)
      {
        if all[i].publish.Some? && !PublishProblem(all[i]) {
          users := users + [i];
        }
      }
    }
    assert forall a | 0 <= a < |users| :: users[a] in users && users[a] < |all| && all[users[a]].publish.Some?;
    var groups := seq(|users|, a requires 0 <= a < |users| && users[a] < |all| && all[users[a]].publish.Some?
                                 => all[users[a]].publish.value.group);
    var names := seq(|users|, a requires 0 <= a < |users| && users[a] < |all| => all[users[a]].name);
    out := Sharers(groups, names);
    GroupSharers(d, all, users, groups, names, out);
  }

  lemma GroupSharers(d: Deployment, all: Pipelines, users: seq<nat>, groups: seq<string>, names: seq<string>, out: set<string>)
    requires Rising(users, |all|) && forall k | 0 <= k < |all| :: k in users <==> Contests(d, all[k])
    requires |groups| == |names| == |users|
    requires forall a | 0 <= a < |users| ::
               && Contests(d, all[users[a]])
               && names[a] == all[users[a]].name && groups[a] == all[users[a]].publish.value.group
    requires forall name :: name in out <==> exists a | 0 <= a < |groups| :: names[a] == name && IsShared(groups, a)
    ensures forall name :: name in out <==> GroupIsContested(d, all, name)
  {
    forall name ensures name in out <==> GroupIsContested(d, all, name) {
      if GroupIsContested(d, all, name) {
        var i, j :| 0 <= i < |all| && 0 <= j < |all|
          && i != j && all[i].name == name && Contests(d, all[i]) && Contests(d, all[j])
          && all[i].publish.value.group == all[j].publish.value.group;
        assert i in users && j in users;
        var a :| 0 <= a < |users| && users[a] == i;
        var b :| 0 <= b < |users| && users[b] == j;
        assert groups[b] == groups[a] && names[a] == name && IsShared(groups, a);
      }
      if name in out {
        var a :| 0 <= a < |groups| && names[a] == name && IsShared(groups, a);
        var b :| 0 <= b < |groups| && b != a && groups[b] == groups[a];
        assert users[a] != users[b];
        assert Contests(d, all[users[a]]) && Contests(d, all[users[b]]);
      }
    }
  }

  // ------------------------------------------------------------------ one pipeline on its own

  predicate LookupsResolve(p: PipelineConfig) {
    && (forall i | 0 <= i < |p.lookups| ::
          p.lookups[i].resolves && p.lookups[i].uri != p.sourceUri && p.lookups[i].uri != p.targetUri)
    && (forall i, j | 0 <= i < j < |p.lookups| :: p.lookups[i].name != p.lookups[j].name)
    && (p.lookups != [] ==> p.transformSql.Some?)
  }

  predicate UpsertSettingsFit(p: PipelineConfig) {
    if p.writeMode.Upsert? then (p.upsertKey.Some? || p.dedupKey.Some?) && p.dedupTimestamp.Some?
    else p.upsertKey.None? && p.upsertLookback.None? && p.upsertTiebreak == []
  }

  predicate TiebreakFits(p: PipelineConfig) {
    !Repeats(p.upsertTiebreak) && forall c | c in p.upsertTiebreak :: Trim(c) != "" && Some(c) != p.dedupTimestamp
  }

  predicate Parses(setting: Option<Setting>) {
    setting.Some? ==> setting.value.parses
  }

  /** Whether the pipeline resolves, whatever it publishes. */
  predicate ResolvesAlone(d: Deployment, p: PipelineConfig) {
    && !p.metaProblem && Trim(p.appId) != "" && p.sourceUri != p.targetUri
    && LookupsResolve(p) && Parses(p.transformSql) && !p.writeMode.StagedUpsert?
    && UpsertSettingsFit(p) && TiebreakFits(p) && !DedupPartitionProblem(p)
    && Parses(p.upsertLookback) && (if p.maxBytesPerBatch.Some? then p.maxBytesPerBatch.value else d.maxBytes).parses
  }

  // ------------------------------------------------------------------ the fleet

  datatype Running = Running(config: PipelineConfig, publish: Option<Publish>)

  datatype Resolved = Resolved(pipelines: seq<Running>, rejected: seq<string>)

  predicate Accepted(d: Deployment, all: Pipelines, p: PipelineConfig) {
    !Condemned(all, p.name) && ResolvesAlone(d, p)
  }

  function RunningOf(d: Deployment, all: Pipelines, p: PipelineConfig): Running {
    Running(p, if GroupIsContested(d, all, p.name) then None else ResolvePublish(d, p))
  }

  function RunningAmong(d: Deployment, all: Pipelines, some: Pipelines): seq<Running> {
    if |some| == 0 then []
    else
      var last := some[|some| - 1];
      RunningAmong(d, all, some[..|some| - 1]) + if Accepted(d, all, last) then [RunningOf(d, all, last)] else []
  }

  function RejectedAmong(d: Deployment, all: Pipelines, some: Pipelines): seq<string> {
    if |some| == 0 then []
    else
      var last := some[|some| - 1];
      RejectedAmong(d, all, some[..|some| - 1]) + if Accepted(d, all, last) then [] else [last.name]
  }

  function ResolvedFleet(d: Deployment, pipelines: Pipelines): Resolved {
    var all := Expanded(pipelines);
    Resolved(RunningAmong(d, all, all), RejectedAmong(d, all, all))
  }

  /** What a configuration amounts to; an error when it says nothing to run. */
  method ResolveAll(d: Deployment, pipelines: Pipelines) returns (r: Result<Resolved, Unit>)
    ensures r == if pipelines == [] then Err(Unit) else Ok(ResolvedFleet(d, pipelines))
  {
    if pipelines == [] {
      return Err(Unit);
    }
    var all := ExpandStaged(pipelines);
    var condemned := CondemnedNames(all);
    var contested := ContestedGroups(d, all);
    var running: seq<Running> := [];
    var rejected: seq<string> := [];
    for i := 0 to |all|
      invariant running == RunningAmong(d, all, all[..i])
      invariant rejected == RejectedAmong(d, all, all[..i])
    {
      assert all[..i + 1][..i] == all[..i];
      var p := all[i];
      if p.name in condemned || !ResolvesAlone(d, p) {
        rejected := rejected + [p.name];
      } else {
        running := running + [Running(p, if p.name in contested then None else ResolvePublish(d, p))];
      }
    }
    assert all[..|all|] == all;
    r := Ok(Resolved(running, rejected));
  }
}
