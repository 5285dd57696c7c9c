/** A Docker daemon as seen through the client: containers with unique names, and commands that may fail with
    or without having taken effect, unless the daemon is reliable. */
module Daemon {
  import opened Options
  import opened Docker
  import opened Text

  /** A container is addressed by its ID or by its name. */
  datatype Ref = ById(id: nat) | ByName(name: string)

  datatype Container = Container(name: string, config: Request, running: bool)

  type Containers = map<nat, Container>

  predicate Managed(c: Container) {
    "managed-by" in c.config.labels && c.config.labels["managed-by"] == "routestack"
  }

  predicate UniqueNames(cs: Containers) {
    forall i, j | i in cs && j in cs && cs[i].name == cs[j].name :: i == j
  }

  predicate Denotes(cs: Containers, ref: Ref, id: nat) {
    id in cs && match ref case ById(i) => i == id case ByName(n) => cs[id].name == n
  }

  predicate Present(cs: Containers, name: string) { exists id | id in cs :: cs[id].name == name }

  /** cs with container id stopped or started, if it exists. */
  function WithRunning(cs: Containers, id: nat, running: bool): Containers {
    if id in cs then cs[id := cs[id].(running := running)] else cs
  }

  /** A stopped container with a new ID and a name that was free is added, and nothing else changes. */
  predicate Creates(before: Containers, after: Containers, id: nat, name: string, config: Request) {
    id !in before && !Present(before, name) && after == before[id := Container(name, config, false)]
  }

  datatype ContainerInfo = ContainerInfo(id: nat, names: seq<string>)

  predicate Lists(cs: Containers, infos: seq<ContainerInfo>) {
    && (forall i | 0 <= i < |infos| :: infos[i].id in cs && infos[i].names == ["/" + cs[infos[i].id].name])
    && (forall id | id in cs && Managed(cs[id]) :: exists i | 0 <= i < |infos| :: infos[i].id == id)
  }

  class Daemon {
    const reliable: bool
    var containers: Containers
    var nextId: nat

    ghost predicate Valid()
      reads this
    {
      UniqueNames(containers) && forall id | id in containers :: id < nextId
    }

    constructor (reliable: bool)
      ensures Valid() && containers == map[] && this.reliable == reliable
    {
      this.reliable := reliable;
      containers, nextId := map[], 0;
    }

    method Fails() returns (fault: bool)
      ensures reliable ==> !fault
    {
      fault := *;
      fault := fault && !reliable;
    }

    method Find(ref: Ref) returns (found: Option<nat>)
      ensures found.Some? ==> Denotes(containers, ref, found.value)
      ensures found.None? ==> forall id :: !Denotes(containers, ref, id)
    {
      if id :| id in containers && Denotes(containers, ref, id) { found := Some(id); } else { found := None; }
    }

    /** GET /containers/{ref}/json; None is any error, among them a container that exists. */
    method Inspect(ref: Ref) returns (found: Option<nat>)
      ensures found.Some? ==> Denotes(containers, ref, found.value)
      ensures found.None? && reliable ==> forall id :: !Denotes(containers, ref, id)
    {
      var fault := Fails();
      if fault { found := None; } else { found := Find(ref); }
    }

    /** Runs a command that sets the running flag of a container. A failure may come before or after the effect. */
    method SetRunning(id: nat, running: bool) returns (ok: bool)
      requires Valid()
      modifies this`containers
      ensures Valid()
      ensures ok ==> id in old(containers) && containers == WithRunning(old(containers), id, running)
      ensures containers == old(containers) || containers == WithRunning(old(containers), id, running)
      ensures reliable && id in old(containers) ==> ok
    {
      var early := Fails();
      if early || id !in containers { return false; }
      containers := WithRunning(containers, id, running);
      var late := Fails();
      ok := !late;
    }

    /** DELETE /containers/{id}?force=true */
    method Remove(id: nat) returns (ok: bool)
      requires Valid()
      modifies this`containers
      ensures Valid()
      ensures ok ==> id in old(containers) && containers == old(containers) - {id}
      ensures containers == old(containers) || containers == old(containers) - {id}
      ensures reliable && id in old(containers) ==> ok
    {
      var early := Fails();
      if early || id !in containers { return false; }
      containers := containers - {id};
      var late := Fails();
      ok := !late;
    }

    /** POST /containers/create?name=...; the daemon refuses a name that is in use. */
    method Create(name: string, config: Request) returns (id: Option<nat>)
      requires Valid()
      modifies this
      ensures Valid()
      ensures id.Some? ==> Creates(old(containers), containers, id.value, name, config)
      ensures id.None? ==>
        containers == old(containers) || Creates(old(containers), containers, old(nextId), name, config)
      ensures reliable && !Present(old(containers), name) ==> id.Some?
    {
      var early := Fails();
      if early || Present(containers, name) { return None; }
      id := Some(nextId);
      containers := containers[nextId := Container(name, config, false)];
      nextId := nextId + 1;
      var late := Fails();
      if late { id := None; }
    }

    /** GET /containers/json?all=true for the routestack label, in any order. */
    method List() returns (infos: Option<seq<ContainerInfo>>)
      ensures infos.Some? ==> Lists(containers, infos.value)
      ensures reliable ==> infos.Some?
    {
      var fault := Fails();
      if fault { return None; }
      var todo := set id | id in containers && Managed(containers[id]);
      var list: seq<ContainerInfo> := [];
      while todo != {}
        invariant todo <= containers.Keys
        invariant forall i | 0 <= i < |list| :: list[i].id in containers
        invariant forall i | 0 <= i < |list| :: list[i].names == ["/" + containers[list[i].id].name]
        invariant forall id | id in containers && Managed(containers[id]) && id !in todo ::
          exists i | 0 <= i < |list| :: list[i].id == id
        decreases todo
      {
        var id :| id in todo;
        ghost var before := list;
        list := list + [ContainerInfo(id, ["/" + containers[id].name])];
        todo := todo - {id};
        assert list[|before|].id == id;
        forall x | x in containers && Managed(containers[x]) && x !in todo
          ensures exists i | 0 <= i < |list| :: list[i].id == x
        {
          if x != id {
            var i :| 0 <= i < |before| && before[i].id == x;
            assert list[i].id == x;
          }
        }
      }
      infos := Some(list);
    }
  }

  /** Client.Create: the body that is marshalled for the daemon says what RequestOf says. */
  method CreateContainer(d: Daemon, spec: ContainerSpec) returns (id: Option<nat>)
    requires d.Valid()
    modifies d
    ensures d.Valid()
    ensures id.Some? ==> Creates(old(d.containers), d.containers, id.value, spec.name, RequestOf(spec))
    ensures id.None? ==>
      || d.containers == old(d.containers)
      || Creates(old(d.containers), d.containers, old(d.nextId), spec.name, RequestOf(spec))
    ensures d.reliable && !Present(old(d.containers), spec.name) ==> id.Some?
  {
    var body := BuildCreateRequest(spec);
    assert Decoded(body) == RequestOf(spec);
    id := d.Create(spec.name, RequestOf(spec));
  }

  // Looking a container up.

  const KNOWN: seq<string> := ["amnezia-awg2", "amnezia-xray", "telemt"]

  datatype Lookup = Found(id: nat) | NotFound | LookupError

  /** The names that a lookup of name accepts. */
  predicate Accepts(name: string, actual: string) { actual == name || actual in KNOWN }

  /** FindContainer. Whatever fails, it never returns a container under a foreign name, and it denies that one
      exists only if no managed container has an accepted name. On a reliable daemon the third stage adds
      nothing: the result is the named container, else the first known one that exists, else none. */
  method FindContainer(d: Daemon, name: string) returns (r: Lookup)
    requires d.Valid()
    ensures r.Found? ==> r.id in d.containers && Accepts(name, d.containers[r.id].name)
    ensures r.Found? ==> d.containers[r.id].name == name || d.containers[r.id].name in KNOWN
    ensures r.NotFound? ==> forall id | id in d.containers && Managed(d.containers[id]) ::
      !Accepts(name, d.containers[id].name)
    ensures d.reliable ==> !r.LookupError?
    ensures d.reliable && Present(d.containers, name) ==> r.Found? && d.containers[r.id].name == name
    ensures d.reliable && !Present(d.containers, name) ==>
      match r
      case Found(id) => exists k | 0 <= k < |KNOWN| ::
        d.containers[id].name == KNOWN[k] && forall j | 0 <= j < k :: !Present(d.containers, KNOWN[j])
      case NotFound => forall k | 0 <= k < |KNOWN| :: !Present(d.containers, KNOWN[k])
      case LookupError => false
  {
    var exact := d.Inspect(ByName(name));
    if exact.Some? { return Found(exact.value); }
    assert d.reliable ==> forall id | id in d.containers :: !Denotes(d.containers, ByName(name), id);
    var k := 0;
    while k < |KNOWN|
      invariant 0 <= k <= |KNOWN|
      invariant d.reliable ==> !Present(d.containers, name)
      invariant d.reliable ==> forall j | 0 <= j < k :: !Present(d.containers, KNOWN[j])
    {
      if KNOWN[k] != name {
        var known := d.Inspect(ByName(KNOWN[k]));
        if known.Some? { return Found(known.value); }
        assert d.reliable ==> !Present(d.containers, KNOWN[k]) by {
          assert d.reliable ==> forall id | id in d.containers :: !Denotes(d.containers, ByName(KNOWN[k]), id);
        }
      }
      k := k + 1;
    }
    var infos := d.List();
    if infos.None? { return LookupError; }
    var i := 0;
    while i < |infos.value|
      invariant 0 <= i <= |infos.value|
      invariant forall j | 0 <= j < i :: !Accepts(name, d.containers[infos.value[j].id].name)
    {
      var info := infos.value[i];
      var clean := TrimPrefix(info.names[0], "/");
      assert clean == d.containers[info.id].name;
      if clean == name || clean in KNOWN {
        NoneLeft(d.containers, name, info.id, d.reliable);
        return Found(info.id);
      }
      i := i + 1;
    }
    return NotFound;
  }

  lemma NoneLeft(cs: Containers, name: string, id: nat, reliable: bool)
    requires id in cs && Accepts(name, cs[id].name)
    requires reliable ==> !Present(cs, name) && forall j | 0 <= j < |KNOWN| :: !Present(cs, KNOWN[j])
    ensures !reliable
  {
    if reliable {
      assert Present(cs, cs[id].name);
      assert false;
    }
  }

  /** The adoptable names, in the order in which they are tried. */
  lemma KnownNamesInFull()
    ensures KNOWN == ["amnezia-awg2", "amnezia-xray", "telemt"]
  {}

  /** What the agent creates is what the third stage of a lookup lists. */
  lemma CreatedIsManaged(name: string, spec: ContainerSpec, running: bool)
    ensures Managed(Container(name, RequestOf(spec), running))
  {}
}
