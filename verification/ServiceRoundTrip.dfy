/** Reading a create request back: it gives the whole service spec, defaults filled in, exactly when the spec
    keeps clear of the separators and of double bindings. */
module ServiceRoundTrip {
  import opened Options
  import opened Text
  import opened Docker
  import opened Service

  predicate Free(s: string, c: char) { forall i | 0 <= i < |s| :: s[i] != c }

  /** The text before and after the first c. */
  function Before(s: string, c: char): string { s[..IndexOf(s, c)] }

  function Behind(s: string, c: char): string {
    if IndexOf(s, c) == |s| then "" else s[IndexOf(s, c) + 1..]
  }

  /** A text joined with a separator splits again at the first one if and only if its front part is free of it. */
  lemma SplitsBack(a: string, c: char, b: string)
    ensures Before(a + [c] + b, c) == a <==> Free(a, c)
    ensures Free(a, c) ==> Behind(a + [c] + b, c) == b
    ensures Free(Before(a + [c] + b, c), c)
  {
    var s := a + [c] + b;
    if Free(a, c) {
      assert forall i | 0 <= i < |a| :: s[i] == a[i];
      assert s[|a|] == c;
      IndexOfIs(s, c, |a|);
      assert s[..|a|] == a && s[|a| + 1..] == b;
    }
  }

  // Ports.

  lemma {:induction false} BindingsHaveKeys(ports: seq<PortMapping>, k: string)
    ensures k in BindingsOf(ports) <==> exists i | 0 <= i < |ports| :: PortKey(ports[i]) == k
    decreases |ports|
  {
    if ports != [] {
      var front, last := ports[..|ports| - 1], ports[|ports| - 1];
      BindingsHaveKeys(front, k);
      if exists i | 0 <= i < |front| :: PortKey(front[i]) == k {
        var i :| 0 <= i < |front| && PortKey(front[i]) == k;
        assert PortKey(ports[i]) == k;
      }
      if PortKey(last) == k { assert PortKey(ports[|ports| - 1]) == k; }
      if exists i | 0 <= i < |ports| :: PortKey(ports[i]) == k {
        var i :| 0 <= i < |ports| && PortKey(ports[i]) == k;
        if i < |front| { assert front[i] == ports[i]; }
      }
    }
  }

  /** Of several mappings of one container port the last is bound. */
  lemma {:induction false} LastBindingWins(ports: seq<PortMapping>, i: nat)
    requires i < |ports| && forall j | i < j < |ports| :: PortKey(ports[j]) != PortKey(ports[i])
    ensures PortKey(ports[i]) in BindingsOf(ports) && BindingsOf(ports)[PortKey(ports[i])] == ports[i].hostPort
    decreases |ports|
  {
    if i < |ports| - 1 {
      LastBindingWins(ports[..|ports| - 1], i);
    }
  }

  lemma {:induction false} LastWithKey(ports: seq<PortMapping>, i: nat) returns (l: nat)
    requires i < |ports|
    ensures i <= l < |ports| && PortKey(ports[l]) == PortKey(ports[i])
    ensures forall j | l < j < |ports| :: PortKey(ports[j]) != PortKey(ports[l])
    decreases |ports| - i
  {
    if j :| i < j < |ports| && PortKey(ports[j]) == PortKey(ports[i]) {
      l := LastWithKey(ports, j);
    } else {
      l := i;
    }
  }

  predicate OneHostPortEach(ports: seq<PortMapping>) {
    forall i, j | 0 <= i < |ports| && 0 <= j < |ports| && PortKey(ports[i]) == PortKey(ports[j]) ::
      ports[i].hostPort == ports[j].hostPort
  }

  predicate Bound(bindings: map<string, string>, p: PortMapping) {
    PortKey(p) in bindings && bindings[PortKey(p)] == p.hostPort
  }

  /** Every mapping is bound if and only if no container port is mapped to two host ports. */
  lemma EveryMappingIsBound(ports: seq<PortMapping>)
    ensures (forall i | 0 <= i < |ports| :: Bound(BindingsOf(ports), ports[i])) <==> OneHostPortEach(ports)
  {
    if OneHostPortEach(ports) {
      forall i | 0 <= i < |ports| ensures Bound(BindingsOf(ports), ports[i]) {
        var l := LastWithKey(ports, i);
        LastBindingWins(ports, l);
      }
    }
  }

  // Volumes.

  /** A bind text read back at its first two colons. */
  function ReadBind(text: string): VolumeMount {
    var rest := Behind(text, ':');
    VolumeMount(Before(text, ':'), Before(rest, ':'), Behind(rest, ':'))
  }

  lemma BindReadsBack(v: VolumeMount)
    requires v.mode != ""
    ensures ReadBind(BindText(v)) == v <==> Free(v.source, ':') && Free(v.target, ':')
  {
    var rest := v.target + ":" + v.mode;
    assert BindText(v) == v.source + [':'] + rest;
    assert rest == v.target + [':'] + v.mode;
    SplitsBack(v.source, ':', rest);
    SplitsBack(v.target, ':', v.mode);
  }

  lemma {:induction false} BindsAreTexts(volumes: seq<VolumeMount>)
    ensures |BindsOf(volumes)| == |volumes|
    ensures forall i | 0 <= i < |volumes| :: BindsOf(volumes)[i] == BindText(volumes[i])
    decreases |volumes|
  {
    if volumes != [] { BindsAreTexts(volumes[..|volumes| - 1]); }
  }

  // Environment.

  /** The environment that a list of entries sets, each split at its first equals sign. */
  function ReadEnv(list: seq<string>): map<string, string> {
    if list == [] then map[] else
    var last := list[|list| - 1];
    ReadEnv(list[..|list| - 1])[Before(last, '=') := Behind(last, '=')]
  }

  predicate IsEntry(text: string, env: map<string, string>, k: string) {
    k in env && Free(k, '=') && text == k + "=" + env[k]
  }

  lemma {:induction false} ReadEnvEntry(list: seq<string>, env: map<string, string>, keys: seq<string>, k: string)
    requires |keys| == |list| && forall i | 0 <= i < |list| :: IsEntry(list[i], env, keys[i])
    ensures k in ReadEnv(list) <==> k in keys
    ensures k in keys ==> k in env && ReadEnv(list)[k] == env[k]
    decreases |list|
  {
    if list != [] {
      var n := |list| - 1;
      ReadEnvEntry(list[..n], env, keys[..n], k);
      assert IsEntry(list[n], env, keys[n]);
      EnvEntry(list, keys[n], env[keys[n]]);
      hide ReadEnv, IsEntry;
      assert keys == keys[..n] + [keys[n]];
    }
  }

  lemma ReadEnvEntries(list: seq<string>, env: map<string, string>, keys: seq<string>)
    requires |keys| == |list| && forall k | k in keys :: k in env && Free(k, '=')
    requires forall i | 0 <= i < |list| :: list[i] == keys[i] + "=" + env[keys[i]]
    ensures forall k :: k in ReadEnv(list) <==> k in keys
    ensures forall k | k in keys :: ReadEnv(list)[k] == env[k]
  {
    hide ReadEnv, Free;
    assert forall i | 0 <= i < |list| :: IsEntry(list[i], env, keys[i]);
    forall k ensures (k in ReadEnv(list) <==> k in keys) && (k in keys ==> ReadEnv(list)[k] == env[k]) {
      ReadEnvEntry(list, env, keys, k);
    }
  }

  lemma EnvEntry(list: seq<string>, k: string, v: string)
    requires list != [] && list[|list| - 1] == k + "=" + v && Free(k, '=')
    ensures ReadEnv(list) == ReadEnv(list[..|list| - 1])[k := v]
  {
    hide Free, Before, Behind;
    assert list[|list| - 1] == k + ['='] + v;
    SplitsBack(k, '=', v);
  }

  lemma {:induction false} ReadEnvKeysAreFree(list: seq<string>, k: string)
    requires k in ReadEnv(list)
    ensures Free(k, '=')
    decreases |list|
  {
    var last := list[|list| - 1];
    if k != Before(last, '=') { ReadEnvKeysAreFree(list[..|list| - 1], k); }
  }

  /** In whatever order the environment is listed, it reads back if and only if no name holds an equals sign. */
  lemma EnvReadsBack(list: seq<string>, env: map<string, string>, keys: seq<string>)
    requires ListsEnv(list, env, keys)
    ensures ReadEnv(list) == env <==> forall k | k in env :: Free(k, '=')
  {
    if forall k | k in env :: Free(k, '=') {
      ReadEnvEntries(list, env, keys);
      assert ReadEnv(list).Keys == env.Keys;
    }
    if ReadEnv(list) == env {
      forall k | k in env ensures Free(k, '=') { ReadEnvKeysAreFree(list, k); }
    }
  }

  // The whole request.

  function OrEmpty<T>(o: Option<seq<T>>): seq<T> { match o case Some(v) => v case None => [] }

  function OrNoBindings(o: Option<map<string, string>>): map<string, string> {
    match o case Some(v) => v case None => map[]
  }

  /** A port key read back at its first slash. */
  function ReadPort(key: string, hostPort: string): PortMapping {
    PortMapping(hostPort, Before(key, '/'), Behind(key, '/'))
  }

  /** Read back, the request holds every part of the spec with its defaults. */
  predicate Describes(r: Request, s: Spec) {
    && r.image == s.image
    && OrEmpty(r.cmd) == s.command
    && (match r.restartPolicy case Some(p) => p == s.restart case None => s.restart == "" || s.restart == "no")
    && (forall i | 0 <= i < |s.ports| ::
          var p := MappingOf(s.ports[i]);
          Bound(OrNoBindings(r.portBindings), p) && ReadPort(PortKey(p), p.hostPort) == p)
    && |OrEmpty(r.binds)| == |s.volumes|
    && (forall i | 0 <= i < |s.volumes| :: ReadBind(OrEmpty(r.binds)[i]) == MountOf(s.volumes[i]))
    && ReadEnv(OrEmpty(r.env)) == s.env
  }

  /** No separator inside a name that it ends, and one host port for each container port. */
  predicate Unambiguous(s: Spec) {
    && (forall i | 0 <= i < |s.ports| :: Free(s.ports[i].containerPort, '/'))
    && (forall i, j | 0 <= i < |s.ports| && 0 <= j < |s.ports|
          && PortKey(MappingOf(s.ports[i])) == PortKey(MappingOf(s.ports[j])) ::
          s.ports[i].hostPort == s.ports[j].hostPort)
    && (forall i | 0 <= i < |s.volumes| :: Free(s.volumes[i].source, ':') && Free(s.volumes[i].target, ':'))
    && (forall k | k in s.env :: Free(k, '='))
  }

  /** The exposed ports and the bound ports of a request are the same. */
  lemma ExposedIsBound(c: ContainerSpec)
    ensures RequestOf(c).exposedPorts.Some? <==> RequestOf(c).portBindings.Some?
    ensures RequestOf(c).portBindings.Some? ==>
      RequestOf(c).exposedPorts.value == RequestOf(c).portBindings.value.Keys
    ensures RequestOf(c).portBindings.Some? ==>
      forall k :: k in RequestOf(c).exposedPorts.value <==> exists i | 0 <= i < |c.ports| :: PortKey(c.ports[i]) == k
  {
    forall k: string ensures k in BindingsOf(c.ports) <==> exists i | 0 <= i < |c.ports| :: PortKey(c.ports[i]) == k {
      BindingsHaveKeys(c.ports, k);
    }
  }

  predicate PortsComeBack(r: Request, s: Spec) {
    forall i | 0 <= i < |s.ports| ::
      var p := MappingOf(s.ports[i]);
      Bound(OrNoBindings(r.portBindings), p) && ReadPort(PortKey(p), p.hostPort) == p
  }

  lemma PortsPart(s: Spec, serviceId: string, c: ContainerSpec)
    requires IsContainerSpec(s, serviceId, c)
    ensures PortsComeBack(RequestOf(c), s)
       <==> (forall i | 0 <= i < |s.ports| :: Free(s.ports[i].containerPort, '/')) && OneHostPortEach(c.ports)
  {
    hide IndexOf, BindingsOf, Before, Behind;
    EveryMappingIsBound(c.ports);
    NoPortsNoBindings();
    assert OrNoBindings(RequestOf(c).portBindings) == BindingsOf(c.ports);
    forall i | 0 <= i < |s.ports|
      ensures c.ports[i] == MappingOf(s.ports[i])
      ensures ReadPort(PortKey(c.ports[i]), c.ports[i].hostPort) == c.ports[i] <==> Free(s.ports[i].containerPort, '/')
    {
      var p := c.ports[i];
      assert PortKey(p) == p.containerPort + ['/'] + p.protocol;
      SplitsBack(p.containerPort, '/', p.protocol);
    }
  }

  lemma NoPortsNoBindings()
    ensures BindingsOf([]) == map[]
  {}

  lemma VolumesPart(s: Spec, serviceId: string, c: ContainerSpec)
    requires IsContainerSpec(s, serviceId, c)
    ensures var binds := OrEmpty(RequestOf(c).binds);
      && |binds| == |s.volumes|
      && forall i | 0 <= i < |s.volumes| ::
           var v := s.volumes[i];
           ReadBind(binds[i]) == MountOf(v) <==> Free(v.source, ':') && Free(v.target, ':')
  {
    hide ReadBind;
    BindsAreTexts(c.volumes);
    forall i | 0 <= i < |s.volumes| ensures c.volumes[i] == MountOf(s.volumes[i]) && c.volumes[i].mode != "" {}
    forall i | 0 <= i < |s.volumes|
      ensures ReadBind(OrEmpty(RequestOf(c).binds)[i]) == MountOf(s.volumes[i])
         <==> Free(s.volumes[i].source, ':') && Free(s.volumes[i].target, ':')
    {
      BindReadsBack(c.volumes[i]);
    }
  }

  lemma EnvPart(s: Spec, serviceId: string, c: ContainerSpec)
    requires IsContainerSpec(s, serviceId, c)
    ensures ReadEnv(OrEmpty(RequestOf(c).env)) == s.env <==> forall k | k in s.env :: Free(k, '=')
  {
    hide ReadEnv, Free, ListsEnv, BindingsOf, BindsOf;
    var keys :| ListsEnv(c.env, s.env, keys);
    EnvReadsBack(c.env, s.env, keys);
    assert OrEmpty(RequestOf(c).env) == c.env;
  }

  /** ToContainerSpec followed by buildCreateRequest loses nothing, exactly for the unambiguous specs. */
  lemma RequestDescribesSpec(s: Spec, serviceId: string, c: ContainerSpec)
    requires IsContainerSpec(s, serviceId, c)
    ensures Describes(RequestOf(c), s) <==> Unambiguous(s)
  {
    hide ReadBind, ReadEnv, ReadPort, Free, Bound;
    PortsPart(s, serviceId, c);
    VolumesPart(s, serviceId, c);
    EnvPart(s, serviceId, c);
    assert forall i | 0 <= i < |s.ports| :: c.ports[i].hostPort == s.ports[i].hostPort;
  }

  // What the request says, field by field.

  /** The text under which a port of a spec is exposed and bound. */
  function PortText(p: Port): string { p.containerPort + (if p.protocol == "" then "/tcp" else "/" + p.protocol) }

  lemma PortTextIs(p: Port)
    ensures PortText(p) == PortKey(MappingOf(p))
  {
    if p.protocol == "" {
      assert p.containerPort + "/tcp" == p.containerPort + "/" + "tcp";
    } else {
      assert p.containerPort + ("/" + p.protocol) == p.containerPort + "/" + p.protocol;
    }
  }

  lemma PortTextOf(p: Port)
    ensures PortText(p) == p.containerPort + (if p.protocol == "" then "/tcp" else "/" + p.protocol)
  {}

  /** A port without protocol is exposed and bound as TCP, one with a protocol under that; the last one that has
      the same text decides on the host port. */
  lemma PortInRequest(s: Spec, serviceId: string, c: ContainerSpec, i: nat)
    requires IsContainerSpec(s, serviceId, c) && i < |s.ports|
    requires forall j | i < j < |s.ports| :: PortText(s.ports[j]) != PortText(s.ports[i])
    ensures var r, p := RequestOf(c), s.ports[i];
      && r.exposedPorts.Some? && r.portBindings.Some?
      && var text := p.containerPort + (if p.protocol == "" then "/tcp" else "/" + p.protocol);
         text in r.exposedPorts.value && text in r.portBindings.value && r.portBindings.value[text] == p.hostPort
  {
    assert MappingOf(s.ports[i]).hostPort == s.ports[i].hostPort;
    hide PortKey, MappingOf, PortText;
    PortTextIs(s.ports[i]);
    forall j | i < j < |c.ports| ensures PortKey(c.ports[j]) != PortKey(c.ports[i]) { PortTextIs(s.ports[j]); }
    assert c.ports[i] == MappingOf(s.ports[i]);
    LastBindingWins(c.ports, i);
    hide BindingsOf;
    PortTextOf(s.ports[i]);
  }

  /** A volume without mode is bound for reading and writing. */
  lemma VolumeInRequest(s: Spec, serviceId: string, c: ContainerSpec, i: nat)
    requires IsContainerSpec(s, serviceId, c) && i < |s.volumes|
    ensures var r, v := RequestOf(c), s.volumes[i];
      && r.binds.Some? && |r.binds.value| == |s.volumes|
      && r.binds.value[i] == v.source + ":" + v.target + ":" + (if v.mode == "" then "rw" else v.mode)
  {
    BindsAreTexts(c.volumes);
  }

  /** The other fields; empty ones are left out, and so is the policy that Docker has anyway. */
  lemma FieldsInRequest(s: Spec, serviceId: string, c: ContainerSpec)
    requires IsContainerSpec(s, serviceId, c)
    ensures var r := RequestOf(c);
      && r.image == s.image
      && r.cmd == (if s.command == [] then None else Some(s.command))
      && r.restartPolicy == (if s.restart == "" || s.restart == "no" then None else Some(s.restart))
      && r.labels == map["managed-by" := "routestack"]
      && (s.ports == [] ==> r.exposedPorts == None && r.portBindings == None)
      && (s.volumes == [] ==> r.binds == None)
      && (s.env == map[] <==> r.env == None)
      && (forall k | k in s.env :: r.env.Some? && k + "=" + s.env[k] in r.env.value)
      && (r.env.Some? ==> |r.env.value| == |s.env|)
  {
    var keys :| ListsEnv(c.env, s.env, keys);
    EnvLength(c.env, s.env, keys);
    forall k | k in s.env ensures RequestOf(c).env.Some? && k + "=" + s.env[k] in RequestOf(c).env.value {
      var i :| 0 <= i < |keys| && keys[i] == k;
      assert c.env[i] in c.env;
    }
  }

  lemma {:induction false} DistinctCount(keys: seq<string>, domain: set<string>)
    requires Distinct(keys) && forall k :: k in domain <==> k in keys
    ensures |keys| == |domain|
    decreases |keys|
  {
    if keys == [] {
      assert domain == {};
    } else {
      var n := |keys| - 1;
      var last := keys[n];
      assert keys == keys[..n] + [last];
      DistinctCount(keys[..n], domain - {last});
    }
  }

  lemma EnvLength(list: seq<string>, env: map<string, string>, keys: seq<string>)
    requires ListsEnv(list, env, keys)
    ensures |list| == |env|
  {
    DistinctCount(keys, env.Keys);
  }
}
