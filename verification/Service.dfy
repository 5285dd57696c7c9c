/** Service containers (internal/service): validating a spec, turning it into a container spec, and reconciling
    the service's container with it on a daemon that may fail at any command. */
module Service {
  import opened Options
  import opened Text
  import opened Docker
  import opened Daemon

  datatype Port = Port(hostPort: string, containerPort: string, protocol: string)
  datatype Volume = Volume(source: string, target: string, mode: string)

  datatype Spec = Spec(
    image: string,
    command: seq<string>,
    ports: seq<Port>,
    volumes: seq<Volume>,
    env: map<string, string>,
    restart: string)

  datatype SpecError = ImageRequired | PortIncomplete(i: nat) | VolumeIncomplete(i: nat)

  predicate PortComplete(p: Port) { !Blank(p.hostPort) && !Blank(p.containerPort) }

  predicate VolumeComplete(v: Volume) { !Blank(v.source) && !Blank(v.target) }

  predicate Complete(s: Spec) {
    && !Blank(s.image)
    && (forall i | 0 <= i < |s.ports| :: PortComplete(s.ports[i]))
    && (forall i | 0 <= i < |s.volumes| :: VolumeComplete(s.volumes[i]))
  }

  /** Not all white space. */
  predicate SaysSomething(s: string) { exists i | 0 <= i < |s| :: !IsSpace(s[i]) }

  method IsBlank(s: string) returns (blank: bool)
    ensures blank <==> Blank(s)
  {
    blank := TrimSpace(s) == "";
    TrimSpaceEmpty(s);
  }

  /** Spec.Validate: the first incomplete part, image before ports before volumes. (The default protocol that
      the source assigns here is assigned to a copy and lost.) */
  method Validate(s: Spec) returns (error: Option<SpecError>)
    ensures error.None? <==> Complete(s)
    ensures error.None? <==>
      && SaysSomething(s.image)
      && (forall i | 0 <= i < |s.ports| ::
            SaysSomething(s.ports[i].hostPort) && SaysSomething(s.ports[i].containerPort))
      && (forall i | 0 <= i < |s.volumes| ::
            SaysSomething(s.volumes[i].source) && SaysSomething(s.volumes[i].target))
    ensures match error
      case None => true
      case Some(ImageRequired) => Blank(s.image)
      case Some(PortIncomplete(i)) =>
        !Blank(s.image) && i < |s.ports| && !PortComplete(s.ports[i])
        && forall j | 0 <= j < i :: PortComplete(s.ports[j])
      case Some(VolumeIncomplete(i)) =>
        !Blank(s.image) && i < |s.volumes| && !VolumeComplete(s.volumes[i])
        && (forall j | 0 <= j < |s.ports| :: PortComplete(s.ports[j]))
        && forall j | 0 <= j < i :: VolumeComplete(s.volumes[j])
  {
    var noImage := IsBlank(s.image);
    if noImage { return Some(ImageRequired); }
    for i := 0 to |s.ports|
      invariant forall j | 0 <= j < i :: PortComplete(s.ports[j])
    {
      var noHost := IsBlank(s.ports[i].hostPort);
      var noContainer := IsBlank(s.ports[i].containerPort);
      if noHost || noContainer { return Some(PortIncomplete(i)); }
    }
    for i := 0 to |s.volumes|
      invariant forall j | 0 <= j < i :: VolumeComplete(s.volumes[j])
    {
      var noSource := IsBlank(s.volumes[i].source);
      var noTarget := IsBlank(s.volumes[i].target);
      if noSource || noTarget { return Some(VolumeIncomplete(i)); }
    }
    return None;
  }

  const PREFIX := "routestack-"

  function ContainerName(serviceId: string): string { PREFIX + serviceId }

  /** Different services have different container names. */
  lemma ContainerNameInjective(a: string, b: string)
    requires ContainerName(a) == ContainerName(b)
    ensures a == b
  {
    assert a == ContainerName(a)[|PREFIX|..];
    assert b == ContainerName(b)[|PREFIX|..];
  }

  // Defaults.

  function MappingOf(p: Port): PortMapping {
    PortMapping(p.hostPort, p.containerPort, if p.protocol == "" then "tcp" else p.protocol)
  }

  function MountOf(v: Volume): VolumeMount {
    VolumeMount(v.source, v.target, if v.mode == "" then "rw" else v.mode)
  }

  predicate Distinct(keys: seq<string>) {
    forall i, j | 0 <= i < j < |keys| :: keys[i] != keys[j]
  }

  /** list holds one entry key=value for every entry of env, in the order of keys. */
  predicate ListsEnv(list: seq<string>, env: map<string, string>, keys: seq<string>) {
    && |keys| == |list| && Distinct(keys)
    && (forall k | k in keys :: k in env) && (forall k | k in env :: k in keys)
    && forall i | 0 <= i < |list| :: keys[i] in env && list[i] == keys[i] + "=" + env[keys[i]]
  }

  /** c is the container spec of s: every field is carried over, with the defaults filled in, and the
      environment is in some order. */
  ghost predicate IsContainerSpec(s: Spec, serviceId: string, c: ContainerSpec) {
    && c.name == ContainerName(serviceId) && c.image == s.image && c.cmd == s.command && c.restart == s.restart
    && |c.ports| == |s.ports| && (forall i | 0 <= i < |s.ports| :: c.ports[i] == MappingOf(s.ports[i]))
    && |c.volumes| == |s.volumes| && (forall i | 0 <= i < |s.volumes| :: c.volumes[i] == MountOf(s.volumes[i]))
    && exists keys :: ListsEnv(c.env, s.env, keys)
  }

  /** The environment list, in whatever order the map is ranged over. */
  method EnvList(env: map<string, string>) returns (list: seq<string>, ghost keys: seq<string>)
    ensures ListsEnv(list, env, keys)
  {
    list, keys := [], [];
    var todo := env.Keys;
    while todo != {}
      invariant todo <= env.Keys
      invariant forall k :: k in keys <==> k in env && k !in todo
      invariant |keys| == |list| && Distinct(keys)
      invariant forall i | 0 <= i < |list| :: keys[i] in env && list[i] == keys[i] + "=" + env[keys[i]]
      decreases todo
    {
      var k :| k in todo;
      list := list + [k + "=" + env[k]];
      keys := keys + [k];
      todo := todo - {k};
    }
  }

  /** Spec.ToContainerSpec */
  method ToContainerSpec(s: Spec, serviceId: string) returns (c: ContainerSpec)
    ensures IsContainerSpec(s, serviceId, c)
    ensures c.name == "routestack-" + serviceId
    ensures c.image == s.image && c.cmd == s.command && c.restart == s.restart
    ensures |c.ports| == |s.ports| && forall i | 0 <= i < |s.ports| ::
      && c.ports[i].hostPort == s.ports[i].hostPort && c.ports[i].containerPort == s.ports[i].containerPort
      && c.ports[i].protocol == if s.ports[i].protocol == "" then "tcp" else s.ports[i].protocol
    ensures |c.volumes| == |s.volumes| && forall i | 0 <= i < |s.volumes| ::
      && c.volumes[i].source == s.volumes[i].source && c.volumes[i].target == s.volumes[i].target
      && c.volumes[i].mode == if s.volumes[i].mode == "" then "rw" else s.volumes[i].mode
  {
    var ports: seq<PortMapping> := [];
    for i := 0 to |s.ports|
      invariant |ports| == i && forall j | 0 <= j < i :: ports[j] == MappingOf(s.ports[j])
    {
      var proto := s.ports[i].protocol;
      if proto == "" { proto := "tcp"; }
      ports := ports + [PortMapping(s.ports[i].hostPort, s.ports[i].containerPort, proto)];
    }
    var volumes: seq<VolumeMount> := [];
    for i := 0 to |s.volumes|
      invariant |volumes| == i && forall j | 0 <= j < i :: volumes[j] == MountOf(s.volumes[j])
    {
      var mode := s.volumes[i].mode;
      if mode == "" { mode := "rw"; }
      volumes := volumes + [VolumeMount(s.volumes[i].source, s.volumes[i].target, mode)];
    }
    ghost var keys;
    var env;
    env, keys := EnvList(s.env);
    c := ContainerSpec(ContainerName(serviceId), s.image, ports, volumes, env, s.restart, s.command);
  }

  // Reconciliation.

  datatype ApplyError = InvalidSpec(error: SpecError) | RemoveFailed | CreateFailed | StartFailed

  /** The containers that do not carry this service's name. */
  function Others(cs: Containers, serviceId: string): Containers {
    map id | id in cs && cs[id].name != ContainerName(serviceId) :: cs[id]
  }

  /** Exactly one container carries the service's name; it runs and was built from the spec. */
  ghost predicate Converged(cs: Containers, serviceId: string, s: Spec) {
    exists id, c :: RunsOnly(cs, serviceId, s, id, c)
  }

  ghost predicate RunsOnly(cs: Containers, serviceId: string, s: Spec, id: nat, c: ContainerSpec) {
    && IsContainerSpec(s, serviceId, c)
    && id in cs && cs[id] == Container(ContainerName(serviceId), RequestOf(c), true)
    && forall i | i in cs && cs[i].name == ContainerName(serviceId) :: i == id
  }

  /** A container of the service that the daemon had before, running or not. */
  predicate IsOld(before: Containers, c: Container, id: nat) {
    id in before && before[id].name == c.name && before[id].config == c.config
  }

  predicate AllOld(before: Containers, after: Containers, serviceId: string) {
    forall id | id in after && after[id].name == ContainerName(serviceId) :: IsOld(before, after[id], id)
  }

  /** The configuration is the one for this spec. */
  ghost predicate IsBuiltFrom(config: Request, serviceId: string, spec: Spec) {
    exists c :: IsContainerSpec(spec, serviceId, c) && config == RequestOf(c)
  }

  /** Whatever carries the service's name is an old container or is built from the spec. */
  ghost predicate OldOrBuilt(before: Containers, after: Containers, serviceId: string, spec: Spec) {
    forall id | id in after && after[id].name == ContainerName(serviceId) ::
      IsOld(before, after[id], id) || IsBuiltFrom(after[id].config, serviceId, spec)
  }

  /** The first half of ApplyRevision: a container that Inspect shows is stopped, whatever comes of that, and
      then removed. */
  method RemoveExisting(d: Daemon, serviceId: string) returns (ok: bool)
    requires d.Valid()
    modifies d
    ensures d.Valid()
    ensures Others(d.containers, serviceId) == old(Others(d.containers, serviceId))
    ensures AllOld(old(d.containers), d.containers, serviceId)
    ensures d.reliable ==> ok && !Present(d.containers, ContainerName(serviceId))
  {
    var containerName := ContainerName(serviceId);
    var existing := d.Inspect(ByName(containerName));
    if existing.None? {
      assert d.reliable ==> forall id | id in d.containers :: !Denotes(d.containers, ByName(containerName), id);
      return true;
    }
    ghost var before := d.containers;
    var stopped := d.SetRunning(existing.value, false);
    RunningKeepsOthers(before, existing.value, false, serviceId);
    ghost var middle := d.containers;
    ok := d.Remove(existing.value);
    assert UniqueNames(before) && before[existing.value].name == containerName;
  }

  lemma RunningKeepsOthers(cs: Containers, id: nat, running: bool, serviceId: string)
    requires id in cs && cs[id].name == ContainerName(serviceId)
    ensures Others(WithRunning(cs, id, running), serviceId) == Others(cs, serviceId)
  {}

  /** The second half: create, then start. */
  method CreateAndStart(d: Daemon, serviceId: string, spec: Spec, containerSpec: ContainerSpec)
    returns (error: Option<ApplyError>)
    requires d.Valid() && IsContainerSpec(spec, serviceId, containerSpec)
    modifies d
    ensures d.Valid()
    ensures Others(d.containers, serviceId) == old(Others(d.containers, serviceId))
    ensures OldOrBuilt(old(d.containers), d.containers, serviceId, spec)
    ensures error.None? ==> Converged(d.containers, serviceId, spec)
    ensures error.Some? ==> !error.value.InvalidSpec?
    ensures d.reliable && !old(Present(d.containers, ContainerName(serviceId))) ==> error.None?
  {
    hide IsContainerSpec, RequestOf, Converged, Others;
    assert IsBuiltFrom(RequestOf(containerSpec), serviceId, spec);
    ghost var before := d.containers;
    NameOf(spec, serviceId, containerSpec);
    var created := CreateContainer(d, containerSpec);
    if created.None? {
      if d.containers != before {
        CreateKeepsOthers(before, d.containers, old(d.nextId), serviceId, RequestOf(containerSpec));
      }
      return Some(CreateFailed);
    }
    CreateKeepsOthers(before, d.containers, created.value, serviceId, RequestOf(containerSpec));
    var id := created.value;
    ghost var middle := d.containers;
    var started := d.SetRunning(id, true);
    RunningKeepsOthers(middle, id, true, serviceId);
    if started {
      OnlyCreated(before, d.containers, serviceId, spec, id, containerSpec);
      error := None;
    } else {
      error := Some(StartFailed);
    }
  }

  lemma CreateKeepsOthers(before: Containers, after: Containers, id: nat, serviceId: string, r: Request)
    requires Creates(before, after, id, ContainerName(serviceId), r)
    ensures Others(after, serviceId) == Others(before, serviceId)
  {}

  lemma NameOf(spec: Spec, serviceId: string, c: ContainerSpec)
    requires IsContainerSpec(spec, serviceId, c)
    ensures c.name == ContainerName(serviceId) && c.name != ""
  {}

  lemma OnlyCreated(before: Containers, after: Containers, serviceId: string, spec: Spec, id: nat, c: ContainerSpec)
    requires IsContainerSpec(spec, serviceId, c)
    requires id !in before && !Present(before, ContainerName(serviceId))
    requires after == before[id := Container(ContainerName(serviceId), RequestOf(c), true)]
    ensures Converged(after, serviceId, spec)
  {
    assert RunsOnly(after, serviceId, spec, id, c);
  }

  /** Manager.ApplyRevision. The revision number is ignored, as in the source. */
  method ApplyRevision(d: Daemon, serviceId: string, rev: int, spec: Spec) returns (error: Option<ApplyError>)
    requires d.Valid()
    modifies d
    ensures d.Valid()
    ensures Others(d.containers, serviceId) == old(Others(d.containers, serviceId))
    ensures OldOrBuilt(old(d.containers), d.containers, serviceId, spec)
    ensures error.None? ==> Converged(d.containers, serviceId, spec)
    ensures !Complete(spec) <==> error.Some? && error.value.InvalidSpec?
    ensures !Complete(spec) ==> d.containers == old(d.containers)
    ensures d.reliable && Complete(spec) ==> error.None?
  {
    hide Others, Converged, IsContainerSpec, Complete, IsBuiltFrom;
    var invalid := Validate(spec);
    if invalid.Some? { return Some(InvalidSpec(invalid.value)); }
    var removed := RemoveExisting(d, serviceId);
    if !removed { return Some(RemoveFailed); }
    var containerSpec := ToContainerSpec(spec, serviceId);
    NameOf(spec, serviceId, containerSpec);
    if containerSpec.name == "" {
      containerSpec := containerSpec.(name := ContainerName(serviceId));
    }
    error := CreateAndStart(d, serviceId, spec, containerSpec);
  }

  // Any sequence of revisions of any services.

  /** One ApplyRevision call as its contract describes it. */
  datatype Call = Call(serviceId: string, spec: Spec, ok: bool)

  ghost predicate Applied(before: Containers, call: Call, after: Containers) {
    && Others(after, call.serviceId) == Others(before, call.serviceId)
    && OldOrBuilt(before, after, call.serviceId, call.spec)
    && (call.ok ==> Converged(after, call.serviceId, call.spec))
  }

  /** The states before and after every call of a history. */
  ghost predicate History(states: seq<Containers>, calls: seq<Call>) {
    |states| == |calls| + 1 && forall i | 0 <= i < |calls| :: Applied(states[i], calls[i], states[i + 1])
  }

  lemma OtherServiceStaysConverged(before: Containers, call: Call, after: Containers, serviceId: string, s: Spec)
    requires Applied(before, call, after) && call.serviceId != serviceId && Converged(before, serviceId, s)
    ensures Converged(after, serviceId, s)
  {
    var id, c :| RunsOnly(before, serviceId, s, id, c);
    if ContainerName(call.serviceId) == ContainerName(serviceId) { ContainerNameInjective(call.serviceId, serviceId); }
    assert Others(after, call.serviceId)[id] == Others(before, call.serviceId)[id];
    forall i | i in after && after[i].name == ContainerName(serviceId) ensures i == id {
      assert i in Others(after, call.serviceId);
      assert Others(before, call.serviceId)[i] == after[i];
    }
    assert RunsOnly(after, serviceId, s, id, c);
  }

  /** Whatever faults and other revisions happen in between, a service whose last revision was applied without
      error runs exactly that revision at the end. */
  lemma {:induction false} LastRevisionWins(states: seq<Containers>, calls: seq<Call>, k: nat)
    requires History(states, calls) && k < |calls| && calls[k].ok
    requires forall j | k < j < |calls| :: calls[j].serviceId != calls[k].serviceId
    ensures Converged(states[|calls|], calls[k].serviceId, calls[k].spec)
    decreases |calls|
  {
    var n := |calls| - 1;
    assert Applied(states[n], calls[n], states[n + 1]);
    if k < n {
      LastRevisionWins(states[..n + 1], calls[..n], k);
      OtherServiceStaysConverged(states[n], calls[n], states[n + 1], calls[k].serviceId, calls[k].spec);
    }
  }

  /** Some call for the service was given a spec with this configuration. */
  ghost predicate WasAsked(calls: seq<Call>, serviceId: string, config: Request) {
    exists k | 0 <= k < |calls| :: calls[k].serviceId == serviceId && IsBuiltFrom(config, serviceId, calls[k].spec)
  }

  /** Whatever fails, a service's container is one that was there at the start, or was built from a spec that some
      revision of this very service asked for. */
  lemma {:induction false} ContainersWereAskedFor(states: seq<Containers>, calls: seq<Call>, serviceId: string, id: nat)
    requires History(states, calls)
    requires id in states[|calls|] && states[|calls|][id].name == ContainerName(serviceId)
    ensures IsOld(states[0], states[|calls|][id], id) || WasAsked(calls, serviceId, states[|calls|][id].config)
    decreases |calls|
  {
    hide IsBuiltFrom, Converged;
    if calls != [] {
      var n := |calls| - 1;
      var before, call, after := states[n], calls[n], states[n + 1];
      assert Applied(before, call, after);
      if call.serviceId == serviceId && IsBuiltFrom(after[id].config, serviceId, call.spec) {
        return;
      }
      OlderContainer(before, call, after, serviceId, id);
      ContainersWereAskedFor(states[..n + 1], calls[..n], serviceId, id);
      if WasAsked(calls[..n], serviceId, before[id].config) {
        var k :| 0 <= k < n && calls[..n][k].serviceId == serviceId
              && IsBuiltFrom(before[id].config, serviceId, calls[..n][k].spec);
        assert calls[k] == calls[..n][k];
      }
    }
  }

  lemma OlderContainer(before: Containers, call: Call, after: Containers, serviceId: string, id: nat)
    requires Applied(before, call, after) && id in after && after[id].name == ContainerName(serviceId)
    requires call.serviceId == serviceId ==> !IsBuiltFrom(after[id].config, serviceId, call.spec)
    ensures IsOld(before, after[id], id)
  {
    hide IsBuiltFrom, Converged;
    if call.serviceId != serviceId {
      if ContainerName(call.serviceId) == ContainerName(serviceId) {
        ContainerNameInjective(call.serviceId, serviceId);
      }
      assert Others(after, call.serviceId)[id] == Others(before, call.serviceId)[id];
    }
  }
}
