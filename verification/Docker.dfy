/** The Docker client (internal/docker/client.go): building a create request through aliased nested maps, and
    looking a container up in three stages, over a daemon that may fail at any command. */
module Docker {
  import opened Options

  datatype PortMapping = PortMapping(hostPort: string, containerPort: string, protocol: string)

  datatype VolumeMount = VolumeMount(source: string, target: string, mode: string)

  datatype ContainerSpec = ContainerSpec(
    name: string,
    image: string,
    ports: seq<PortMapping>,
    volumes: seq<VolumeMount>,
    env: seq<string>,
    restart: string,
    cmd: seq<string>)

  // What a create request says.

  datatype Request = Request(
    image: string,
    cmd: Option<seq<string>>,
    exposedPorts: Option<set<string>>,
    portBindings: Option<map<string, string>>,
    binds: Option<seq<string>>,
    env: Option<seq<string>>,
    restartPolicy: Option<string>,
    labels: map<string, string>)

  function PortKey(p: PortMapping): string { p.containerPort + "/" + p.protocol }

  function BindText(v: VolumeMount): string {
    v.source + ":" + v.target + ":" + (if v.mode == "" then "rw" else v.mode)
  }

  /** The host port that each container port is bound to: of several mappings of one port, the last. */
  function BindingsOf(ports: seq<PortMapping>): map<string, string> {
    if ports == [] then map[] else
    var last := ports[|ports| - 1];
    BindingsOf(ports[..|ports| - 1])[PortKey(last) := last.hostPort]
  }

  function BindsOf(volumes: seq<VolumeMount>): seq<string> {
    if volumes == [] then [] else
    BindsOf(volumes[..|volumes| - 1]) + [BindText(volumes[|volumes| - 1])]
  }

  const LABELS := map["managed-by" := "routestack"]

  function RequestOf(spec: ContainerSpec): Request {
    Request(
      spec.image,
      if spec.cmd == [] then None else Some(spec.cmd),
      if spec.ports == [] then None else Some(BindingsOf(spec.ports).Keys),
      if spec.ports == [] then None else Some(BindingsOf(spec.ports)),
      if spec.volumes == [] then None else Some(BindsOf(spec.volumes)),
      if spec.env == [] then None else Some(spec.env),
      if spec.restart == "" || spec.restart == "no" then None else Some(spec.restart),
      LABELS)
  }

  // Building it in place.

  /** The names of the fields in a request body and in its HostConfig. */
  datatype Field = Image | Cmd | ExposedPorts | HostConfig | PortBindings | Binds | Env | RestartPolicy | Labels

  /** A value in a request body. Nested maps that are written to after they are stored are references. */
  datatype Value =
    | Text(text: string)
    | Texts(texts: seq<string>)
    | PolicyName(name: string)
    | LabelMap(labels: map<string, string>)
    | Nested(inner: JsonMap<Field, Value>)
    | NestedPorts(ports: JsonMap<string, PortValue>)

  datatype PortValue = EmptyObject | HostPortList(hostPort: string)

  class JsonMap<K(==), V> {
    var fields: map<K, V>

    constructor ()
      ensures fields == map[]
    {
      fields := map[];
    }
  }

  type Body = JsonMap<Field, Value>
  type MaybeBody = JsonMap?<Field, Value>
  type PortMap = JsonMap<string, PortValue>

  function NestedAt(fields: map<Field, Value>, key: Field): Option<Body> {
    if key in fields && fields[key].Nested? then Some(fields[key].inner) else None
  }

  function PortsAt(fields: map<Field, Value>, key: Field): Option<PortMap> {
    if key in fields && fields[key].NestedPorts? then Some(fields[key].ports) else None
  }

  function TextsAt(fields: map<Field, Value>, key: Field): Option<seq<string>> {
    if key in fields && fields[key].Texts? then Some(fields[key].texts) else None
  }

  /** Each entry of a port map with its host port. */
  function HostPorts(fields: map<string, PortValue>): map<string, string> {
    map k | k in fields && fields[k].HostPortList? :: fields[k].hostPort
  }

  /** The fields of the stored HostConfig map, or no fields if there is none. */
  ghost function HostFields(req: Body): map<Field, Value>
    reads *
  {
    var host := NestedAt(req.fields, HostConfig);
    if host.Some? then host.value.fields else map[]
  }

  ghost function ExposedKeys(req: Body): Option<set<string>>
    reads *
  {
    var exposed := PortsAt(req.fields, ExposedPorts);
    if exposed.Some? then Some(exposed.value.fields.Keys) else None
  }

  ghost function BoundPorts(req: Body): Option<map<string, string>>
    reads *
  {
    var bindings := PortsAt(HostFields(req), PortBindings);
    if bindings.Some? then Some(HostPorts(bindings.value.fields)) else None
  }

  /** What a body says, given its fields, those of its HostConfig and what its port maps hold. */
  function Assembled(fields: map<Field, Value>, host: map<Field, Value>,
                     exposed: Option<set<string>>, bindings: Option<map<string, string>>): Request {
    Request(
      if Image in fields && fields[Image].Text? then fields[Image].text else "",
      TextsAt(fields, Cmd),
      exposed,
      bindings,
      TextsAt(host, Binds),
      TextsAt(fields, Env),
      if RestartPolicy in host && host[RestartPolicy].PolicyName? then Some(host[RestartPolicy].name) else None,
      if Labels in fields && fields[Labels].LabelMap? then fields[Labels].labels else map[])
  }

  /** What the body at req says, following its nested maps. */
  ghost function Decoded(req: Body): Request
    reads *
  {
    Assembled(req.fields, HostFields(req), ExposedKeys(req), BoundPorts(req))
  }

  /** The port maps, filled entry by entry; a repeated port overwrites its entry in both. */
  method FillPorts(ports: seq<PortMapping>, exposedPorts: PortMap, portBindings: PortMap)
    requires exposedPorts != portBindings && exposedPorts.fields == map[] && portBindings.fields == map[]
    modifies exposedPorts, portBindings
    ensures exposedPorts.fields.Keys == BindingsOf(ports).Keys
    ensures HostPorts(portBindings.fields) == BindingsOf(ports)
  {
    var i := 0;
    while i < |ports|
      invariant 0 <= i <= |ports|
      invariant exposedPorts.fields.Keys == BindingsOf(ports[..i]).Keys
      invariant portBindings.fields.Keys == BindingsOf(ports[..i]).Keys
      invariant forall k | k in portBindings.fields :: portBindings.fields[k] == HostPortList(BindingsOf(ports[..i])[k])
    {
      var p := ports[i];
      var containerPort := p.containerPort + "/" + p.protocol;
      exposedPorts.fields := exposedPorts.fields[containerPort := EmptyObject];
      portBindings.fields := portBindings.fields[containerPort := HostPortList(p.hostPort)];
      assert ports[..i + 1][..i] == ports[..i];
      i := i + 1;
    }
    assert ports[..i] == ports;
  }

  method BindList(volumes: seq<VolumeMount>) returns (binds: seq<string>)
    ensures binds == BindsOf(volumes)
  {
    binds := [];
    var i := 0;
    while i < |volumes|
      invariant 0 <= i <= |volumes|
      invariant binds == BindsOf(volumes[..i])
    {
      var v := volumes[i];
      var mode := v.mode;
      if mode == "" { mode := "rw"; }
      binds := binds + [v.source + ":" + v.target + ":" + mode];
      assert volumes[..i + 1][..i] == volumes[..i];
      i := i + 1;
    }
    assert volumes[..i] == volumes;
  }

  /** The HostConfig map stored in req is host, or there is none. */
  ghost predicate HostIs(req: Body, host: MaybeBody)
    reads req
  {
    host != req &&
    if host == null then HostConfig !in req.fields
    else HostConfig in req.fields && req.fields[HostConfig] == Nested(host)
  }

  ghost function FieldsOf(host: MaybeBody): map<Field, Value>
    reads host
  {
    if host == null then map[] else host.fields
  }

  /** Writes one key of HostConfig through a reference taken from req, after storing an empty map if needed. */
  method WriteHostConfig(req: Body, key: Field, v: Value, ghost host: MaybeBody) returns (ghost host': Body)
    requires HostIs(req, host)
    modifies req, host
    ensures HostIs(req, host') && (if host == null then fresh(host') else host' == host)
    ensures FieldsOf(host') == old(FieldsOf(host))[key := v]
    ensures req.fields == old(req.fields)[HostConfig := Nested(host')]
  {
    var hostCfg: Body;
    if HostConfig in req.fields && req.fields[HostConfig].Nested? {
      hostCfg := req.fields[HostConfig].inner;
    } else {
      hostCfg := new JsonMap<Field, Value>();
      req.fields := req.fields[HostConfig := Nested(hostCfg)];
    }
    hostCfg.fields := hostCfg.fields[key := v];
    host' := hostCfg;
    assert req.fields == old(req.fields)[HostConfig := Nested(host')];
  }

  /** The port section: both port maps are stored after they are filled, the second inside HostConfig. */
  method WritePorts(req: Body, ports: seq<PortMapping>)
    returns (ghost host: MaybeBody, ghost exposed: PortMap, ghost bindings: PortMap)
    requires HostIs(req, null)
    modifies req
    ensures HostIs(req, host) && (host != null ==> fresh(host)) && fresh(exposed) && fresh(bindings)
    ensures exposed.fields.Keys == BindingsOf(ports).Keys && HostPorts(bindings.fields) == BindingsOf(ports)
    ensures forall k | k != HostConfig && k != ExposedPorts :: SameAt(req.fields, old(req.fields), k)
    ensures ports == [] ==> host == null && SameAt(req.fields, old(req.fields), ExposedPorts)
    ensures ports != [] ==> PortsAt(req.fields, ExposedPorts) == Some(exposed)
    ensures ports != [] ==> host != null && host.fields == map[PortBindings := NestedPorts(bindings)]
  {
    var portBindings := new JsonMap<string, PortValue>();
    var exposedPorts := new JsonMap<string, PortValue>();
    host, exposed, bindings := null, exposedPorts, portBindings;
    FillPorts(ports, exposedPorts, portBindings);
    if |ports| > 0 {
      req.fields := req.fields[ExposedPorts := NestedPorts(exposedPorts)];
      var hostCfg := new JsonMap<Field, Value>();
      hostCfg.fields := map[PortBindings := NestedPorts(portBindings)];
      req.fields := req.fields[HostConfig := Nested(hostCfg)];
      host := hostCfg;
    }
  }

  /** The volume, environment, restart and label sections. */
  method WriteRest(req: Body, spec: ContainerSpec, ghost host: MaybeBody) returns (ghost host': MaybeBody)
    requires HostIs(req, host)
    modifies req, host
    ensures HostIs(req, host') && (if host == null then host' == null || fresh(host') else host' == host)
    ensures FieldsOf(host') == HostAfter(spec, old(FieldsOf(host)))
    ensures forall k | k != HostConfig && k != Env && k != Labels :: SameAt(req.fields, old(req.fields), k)
    ensures spec.env == [] ==> SameAt(req.fields, old(req.fields), Env)
    ensures spec.env != [] ==> TextsAt(req.fields, Env) == Some(spec.env)
    ensures Labels in req.fields && req.fields[Labels] == LabelMap(LABELS)
  {
    host' := host;
    if |spec.volumes| > 0 {
      var binds := BindList(spec.volumes);
      host' := WriteHostConfig(req, Binds, Texts(binds), host');
    }
    if |spec.env| > 0 {
      req.fields := req.fields[Env := Texts(spec.env)];
    }
    if spec.restart != "" && spec.restart != "no" {
      host' := WriteHostConfig(req, RestartPolicy, PolicyName(spec.restart), host');
    }
    req.fields := req.fields[Labels := LabelMap(LABELS)];
  }

  /** buildCreateRequest: the body says exactly what RequestOf says, although HostConfig is written to through
      a second reference after it was stored. */
  method BuildCreateRequest(spec: ContainerSpec) returns (req: Body)
    ensures fresh(req)
    ensures Decoded(req) == RequestOf(spec)
  {
    req := WriteHead(spec);
    ghost var head := req.fields;
    ghost var host, exposed, bindings := WritePorts(req, spec.ports);
    ghost var ported := req.fields;
    assert SameAt(ported, head, Image) && SameAt(ported, head, Cmd) && SameAt(ported, head, Env);
    ghost var hostBefore := FieldsOf(host);
    host := WriteRest(req, spec, host);
    hide BindingsOf, BindsOf, HostPorts, HostAfter, LABELS;
    assert SameAt(req.fields, ported, Image) && SameAt(req.fields, ported, Cmd);
    assert SameAt(req.fields, ported, ExposedPorts);
    BodyIsRequest(spec, req, host, hostBefore, exposed, bindings);
  }

  lemma BodyIsRequest(spec: ContainerSpec, req: Body, host: MaybeBody, before: map<Field, Value>,
                      exposed: PortMap, bindings: PortMap)
    requires HostIs(req, host) && FieldsOf(host) == HostAfter(spec, before)
    requires Image in req.fields && req.fields[Image] == Text(spec.image)
    requires TextsAt(req.fields, Cmd) == RequestOf(spec).cmd && TextsAt(req.fields, Env) == RequestOf(spec).env
    requires Labels in req.fields && req.fields[Labels] == LabelMap(LABELS)
    requires PortsAt(req.fields, ExposedPorts) == if spec.ports == [] then None else Some(exposed)
    requires before == if spec.ports == [] then map[] else map[PortBindings := NestedPorts(bindings)]
    requires exposed.fields.Keys == BindingsOf(spec.ports).Keys && HostPorts(bindings.fields) == BindingsOf(spec.ports)
    ensures Decoded(req) == RequestOf(spec)
  {
    hide BindingsOf, BindsOf, HostPorts, LABELS;
    assert HostFields(req) == FieldsOf(host);
    assert PortsAt(FieldsOf(host), PortBindings) == if spec.ports == [] then None else Some(bindings);
    SectionsAreRequest(spec, req.fields, before, FieldsOf(host));
  }

  /** The image and command sections. */
  method WriteHead(spec: ContainerSpec) returns (req: Body)
    ensures fresh(req) && HostIs(req, null) && ExposedPorts !in req.fields && Env !in req.fields
    ensures Image in req.fields && req.fields[Image] == Text(spec.image)
    ensures TextsAt(req.fields, Cmd) == RequestOf(spec).cmd
  {
    req := new JsonMap<Field, Value>();
    req.fields := map[Image := Text(spec.image)];
    if |spec.cmd| > 0 {
      req.fields := req.fields[Cmd := Texts(spec.cmd)];
    }
  }

  predicate SameAt(f: map<Field, Value>, g: map<Field, Value>, k: Field) {
    (k in f <==> k in g) && (k in f ==> f[k] == g[k])
  }

  /** HostConfig after the volume and restart sections, given what it held after the port section. */
  function HostAfter(spec: ContainerSpec, f: map<Field, Value>): map<Field, Value> {
    var g := if spec.volumes == [] then f else f[Binds := Texts(BindsOf(spec.volumes))];
    if spec.restart == "" || spec.restart == "no" then g else g[RestartPolicy := PolicyName(spec.restart)]
  }

  lemma SectionsAreRequest(spec: ContainerSpec, fields: map<Field, Value>, before: map<Field, Value>,
                           host: map<Field, Value>)
    requires Image in fields && fields[Image] == Text(spec.image)
    requires TextsAt(fields, Cmd) == RequestOf(spec).cmd && TextsAt(fields, Env) == RequestOf(spec).env
    requires Labels in fields && fields[Labels] == LabelMap(LABELS)
    requires Binds !in before && RestartPolicy !in before && host == HostAfter(spec, before)
    ensures Assembled(fields, host, RequestOf(spec).exposedPorts, RequestOf(spec).portBindings) == RequestOf(spec)
  {}
}
