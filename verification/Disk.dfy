/** A file system whose operations may fail, and a process that may die between any two of them: the trace
    records every state that a crash could leave behind. Contents are symbolic. */
module Disk {
  import opened Options

  /** The persistent state of the agent. */
  datatype Record = Record(nodeId: string, certPath: string, keyPath: string, revisions: map<string, int>)

  /** Whole contents: the key or the certificate of an enrolment attempt, a state file, or anything else. */
  datatype Data = KeyPem(attempt: nat) | CertPem(attempt: nat) | StateJson(state: Record) | Other(text: string)

  /** A write that was cut short leaves a torn content. */
  datatype Content = Whole(data: Data) | Torn

  datatype File = File(content: Content, perm: nat)

  /** A file that others read, or a temporary file with a name of its own. */
  datatype Path = Target(name: string) | Temp(n: nat)

  type Files = map<Path, File>

  type TargetFiles = map<string, File>

  /** The files under their final names. */
  ghost function Targets(files: Files): TargetFiles {
    map p | p in files && p.Target? :: p.name := files[p]
  }

  predicate Extends(longer: seq<Files>, trace: seq<Files>) {
    |trace| <= |longer| && longer[..|trace|] == trace
  }

  /** From position start on, every crash state has one of these sets of target files. */
  ghost predicate CrashesTo(trace: seq<Files>, start: nat, ts: set<TargetFiles>) {
    forall i | start <= i < |trace| :: Targets(trace[i]) in ts
  }

  lemma CrashesToMore(trace: seq<Files>, more: seq<Files>, start: nat, ts: set<TargetFiles>, us: set<TargetFiles>)
    requires start <= |trace| && CrashesTo(trace, start, ts)
    requires Extends(more, trace) && CrashesTo(more, |trace|, us)
    ensures CrashesTo(more, start, ts + us)
  {
    forall i | start <= i < |more| ensures Targets(more[i]) in ts + us {
      if i < |trace| { assert more[i] == trace[i]; }
    }
  }

  /** The same files with one more temporary file. */
  ghost predicate LeavesTemp(before: Files, after: Files) {
    exists n: nat, f :: LeavesTempAs(before, after, n, f)
  }

  predicate LeavesTempAs(before: Files, after: Files, n: nat, f: File) {
    Temp(n) !in before && after == before[Temp(n) := f]
  }

  lemma TempIsNoTarget(files: Files, n: nat, f: File)
    ensures Targets(files[Temp(n) := f]) == Targets(files)
    ensures Targets(files - {Temp(n)}) == Targets(files)
  {}

  function Renamed(files: Files, n: nat, name: string): Files
    requires Temp(n) in files
  {
    (files - {Temp(n)})[Target(name) := files[Temp(n)]]
  }

  lemma RenamedTargets(files: Files, n: nat, name: string)
    requires Temp(n) in files
    ensures Targets(Renamed(files, n, name)) == Targets(files)[name := files[Temp(n)]]
  {
    var after := Targets(Renamed(files, n, name));
    assert forall x | x in Targets(files) && x != name :: Target(x) in Renamed(files, n, name);
    assert after.Keys == Targets(files)[name := files[Temp(n)]].Keys;
  }

  class Disk {
    var files: Files
    ghost var trace: seq<Files>
    var temps: nat
    /** On a reliable disk no operation fails; the process may still die. */
    const reliable: bool

    /** Temporary names that were not handed out yet are unused. */
    ghost predicate Valid()
      reads this
    {
      forall n: nat | Temp(n) in files :: n < temps
    }

    constructor (files: Files, temps: nat, reliable: bool)
      requires forall n: nat | Temp(n) in files :: n < temps
      ensures Valid() && this.files == files && trace == [] && this.reliable == reliable
    {
      this.files, this.temps, this.reliable, trace := files, temps, reliable, [];
    }

    method Fails() returns (fault: bool)
      ensures reliable ==> !fault
    {
      fault := *;
      fault := fault && !reliable;
    }

    method SetTemp(n: nat, f: File)
      requires Valid() && n < temps
      modifies this`files, this`trace
      ensures Valid() && files == old(files)[Temp(n) := f] && Targets(files) == Targets(old(files))
      ensures trace == old(trace) + [files]
    {
      TempIsNoTarget(files, n, f);
      files := files[Temp(n) := f];
      trace := trace + [files];
    }

    /** os.CreateTemp: a new empty file under a name that is not in use, readable by its owner only. */
    method CreateTemp() returns (tmp: Option<nat>)
      requires Valid()
      modifies this
      ensures Valid() && Extends(trace, old(trace)) && CrashesTo(trace, |old(trace)|, {Targets(old(files))})
      ensures reliable ==> tmp.Some?
      ensures match tmp
        case None => files == old(files)
        case Some(n) => Temp(n) !in old(files) && Temp(n) in files && files == old(files)[Temp(n) := files[Temp(n)]]
    {
      hide Targets;
      var fault := Fails();
      if fault { return None; }
      var n := temps;
      temps := n + 1;
      SetTemp(n, File(Torn, 0x180));
      tmp := Some(n);
    }

    /** Write, which may fail half-way, and may be interrupted half-way in any case. */
    method Write(n: nat, data: Data) returns (ok: bool)
      requires Valid() && Temp(n) in files
      modifies this
      ensures Valid() && Temp(n) in files && files == old(files)[Temp(n) := files[Temp(n)]]
      ensures Extends(trace, old(trace)) && CrashesTo(trace, |old(trace)|, {Targets(old(files))})
      ensures Targets(files) == Targets(old(files))
      ensures ok ==> files[Temp(n)].content == Whole(data)
      ensures reliable ==> ok
    {
      var perm := files[Temp(n)].perm;
      SetTemp(n, File(Torn, perm));
      var fault := Fails();
      if fault { return false; }
      SetTemp(n, File(Whole(data), perm));
      ok := true;
    }

    method Chmod(n: nat, perm: nat) returns (ok: bool)
      requires Valid() && Temp(n) in files
      modifies this
      ensures Valid() && Temp(n) in files && files == old(files)[Temp(n) := files[Temp(n)]]
      ensures Extends(trace, old(trace)) && CrashesTo(trace, |old(trace)|, {Targets(old(files))})
      ensures Targets(files) == Targets(old(files))
      ensures files[Temp(n)].content == old(files[Temp(n)].content)
      ensures ok ==> files[Temp(n)].perm == perm
      ensures reliable ==> ok
    {
      var fault := Fails();
      if fault { return false; }
      SetTemp(n, files[Temp(n)].(perm := perm));
      ok := true;
    }

    /** Close may report a delayed error and changes nothing. */
    method Close() returns (ok: bool)
      ensures reliable ==> ok
    {
      var fault := Fails();
      ok := !fault;
    }

    /** os.Rename, atomic. */
    method Rename(n: nat, name: string) returns (ok: bool)
      requires Valid() && Temp(n) in files
      modifies this
      ensures Valid() && Extends(trace, old(trace))
      ensures ok ==> files == Renamed(old(files), n, name)
      ensures ok ==> Targets(files) == Targets(old(files))[name := old(files)[Temp(n)]]
      ensures !ok ==> files == old(files)
      ensures CrashesTo(trace, |old(trace)|, {Targets(files)})
      ensures reliable ==> ok
    {
      var fault := Fails();
      if fault { return false; }
      RenamedTargets(files, n, name);
      files := Renamed(files, n, name);
      trace := trace + [files];
      ok := true;
    }

    /** os.Remove; the callers ignore its result. */
    method Remove(n: nat) returns (ok: bool)
      requires Valid() && Temp(n) in files
      modifies this
      ensures Valid() && Extends(trace, old(trace)) && CrashesTo(trace, |old(trace)|, {Targets(old(files))})
      ensures Targets(files) == Targets(old(files))
      ensures files == if ok then old(files) - {Temp(n)} else old(files)
      ensures reliable ==> ok
    {
      var fault := Fails();
      if fault { return false; }
      TempIsNoTarget(files, n, files[Temp(n)]);
      files := files - {Temp(n)};
      trace := trace + [files];
      ok := true;
    }
  }

  /** The part that Save and writeFileAtomic share: a temporary file is created, written, given its permissions
      and closed, and removed again if one of these fails. */
  method PrepareTemp(disk: Disk, data: Data, perm: nat) returns (tmp: Option<nat>, ghost removeFailed: bool)
    requires disk.Valid()
    modifies disk
    ensures disk.Valid() && Extends(disk.trace, old(disk.trace))
    ensures CrashesTo(disk.trace, |old(disk.trace)|, {Targets(old(disk.files))})
    ensures Targets(disk.files) == Targets(old(disk.files))
    ensures disk.reliable ==> tmp.Some?
    ensures tmp.Some? ==> LeavesTempAs(old(disk.files), disk.files, tmp.value, File(Whole(data), perm))
    ensures tmp.None? ==>
      if removeFailed then LeavesTemp(old(disk.files), disk.files) else disk.files == old(disk.files)
  {
    hide Targets, CrashesTo;
    ghost var before, ts, start := disk.files, {Targets(disk.files)}, |disk.trace|;
    removeFailed := false;
    tmp := disk.CreateTemp();
    if tmp.None? {
      TempOrNot(before, disk.files);
      return;
    }
    var n := tmp.value;
    ghost var trace := disk.trace;
    CreatedTargets(before, disk.files, n);
    var ok := disk.Write(n, data);
    CrashesToMore(trace, disk.trace, start, ts, ts);
    trace := disk.trace;
    if ok {
      ok := disk.Chmod(n, perm);
      CrashesToMore(trace, disk.trace, start, ts, ts);
      trace := disk.trace;
      if ok { ok := disk.Close(); }
    }
    assert ts + ts == ts;
    if !ok {
      ghost var f := disk.files[Temp(n)];
      var removed := disk.Remove(n);
      CrashesToMore(trace, disk.trace, start, ts, ts);
      removeFailed := !removed;
      if removed { assert disk.files == before; } else { assert LeavesTempAs(before, disk.files, n, f); }
      tmp := None;
    }
  }

  lemma TempOrNot(before: Files, after: Files)
    ensures before == after ==> Targets(before) == Targets(after)
  {}

  lemma CreatedTargets(before: Files, after: Files, n: nat)
    requires Temp(n) in after && after == before[Temp(n) := after[Temp(n)]]
    ensures Targets(after) == Targets(before)
  {
    TempIsNoTarget(before, n, after[Temp(n)]);
  }
}
