/** The agent's state file: loaded at start-up, and replaced as a whole by Save. */
module State {
  import opened Disk

  const EMPTY := Record("", "", "", map[])

  /** What LoadState makes of the file under a path. A missing file is an empty state. */
  datatype Reading = Readable(record: Record) | Unparsable

  function Read(ts: TargetFiles, path: string): Reading {
    if path == "" || path !in ts then
      Readable(EMPTY)
    else
      match ts[path].content
      case Whole(StateJson(record)) => Readable(record)
      case _ => Unparsable
  }

  function StateFile(record: Record): File { File(Whole(StateJson(record)), 0x180) }

  /** IsEnrolled when no stat fails by accident. */
  predicate Enrolled(ts: TargetFiles, r: Record) {
    r.nodeId != "" && r.certPath != "" && r.keyPath != "" && r.certPath in ts && r.keyPath in ts
  }

  class AgentState {
    var nodeId: string
    var certPath: string
    var keyPath: string
    var revisions: map<string, int>
    const path: string

    constructor (path: string, r: Record)
      ensures Contents() == r && this.path == path
    {
      this.path := path;
      nodeId, certPath, keyPath, revisions := r.nodeId, r.certPath, r.keyPath, r.revisions;
    }

    function Contents(): Record
      reads this
    {
      Record(nodeId, certPath, keyPath, revisions)
    }

    /** Every crash state has the old state file or the new one. An error leaves the directory as it was,
        unless removing the temporary file failed as well. */
    method Save(disk: Disk) returns (ok: bool, ghost removeFailed: bool)
      requires disk.Valid()
      modifies disk
      ensures disk.Valid() && Extends(disk.trace, old(disk.trace))
      ensures CrashesTo(disk.trace, |old(disk.trace)|,
        {Targets(old(disk.files)), Targets(old(disk.files))[path := StateFile(Contents())]})
      ensures disk.reliable ==> (ok <==> path != "")
      ensures path == "" ==> !ok && !removeFailed && disk.trace == old(disk.trace)
      ensures ok ==> disk.files == old(disk.files)[Target(path) := StateFile(Contents())]
      ensures ok ==>
        var r := Record(nodeId, certPath, keyPath, revisions);
        disk.files[Target(path)] == File(Whole(StateJson(r)), 6 * 64)
      ensures ok ==> Targets(disk.files) == Targets(old(disk.files))[path := StateFile(Contents())]
      ensures !ok ==> (disk.files == old(disk.files) <==> !removeFailed)
      ensures !ok && removeFailed ==> LeavesTemp(old(disk.files), disk.files)
      ensures !ok ==>
        Targets(disk.files) == Targets(old(disk.files)) &&
        CrashesTo(disk.trace, |old(disk.trace)|, {Targets(old(disk.files))})
    {
      hide Targets, CrashesTo;
      removeFailed := false;
      ghost var before, start := disk.files, |disk.trace|;
      ghost var file, ts := StateFile(Contents()), Targets(disk.files);
      if path == "" {
        CrashesToNothing(disk.trace, {ts, ts[path := file]});
        CrashesToNothing(disk.trace, {ts});
        return false, false;
      }
      var tmp;
      tmp, removeFailed := PrepareTemp(disk, StateJson(Contents()), 0x180);
      ghost var trace := disk.trace;
      CrashesToWider(trace, start, {ts}, {ts, ts[path := file]});
      if tmp.None? { return false, removeFailed; }
      ghost var prepared := disk.files;
      ok := disk.Rename(tmp.value, path);
      CrashesToWider(disk.trace, |trace|, {Targets(disk.files)}, {ts, ts[path := file]});
      CrashesToMore(trace, disk.trace, start, {ts, ts[path := file]}, {ts, ts[path := file]});
      assert {ts, ts[path := file]} + {ts, ts[path := file]} == {ts, ts[path := file]};
      if !ok {
        assert {ts} + {ts} == {ts};
        CrashesToMore(trace, disk.trace, start, {ts}, {ts});
        trace := disk.trace;
        var removed := disk.Remove(tmp.value);
        removeFailed := !removed;
        CrashesToMore(trace, disk.trace, start, {ts}, {ts});
        CrashesToWider(disk.trace, start, {ts}, {ts, ts[path := file]});
      }
    }

    /** Stat may fail for reasons of its own, which also counts as not enrolled. */
    method IsEnrolled(disk: Disk) returns (r: bool, ghost statFailed: bool)
      ensures r ==>
        && nodeId != "" && certPath != "" && keyPath != ""
        && certPath in Targets(disk.files) && keyPath in Targets(disk.files)
      ensures !r ==> !Enrolled(Targets(disk.files), Contents()) || statFailed
      ensures !r && !statFailed ==>
        || nodeId == "" || certPath == "" || keyPath == ""
        || certPath !in Targets(disk.files) || keyPath !in Targets(disk.files)
      ensures disk.reliable ==> !statFailed
    {
      statFailed := false;
      if nodeId == "" || certPath == "" || keyPath == "" { return false, false; }
      var found;
      found, statFailed := Stat(disk, certPath);
      if !found { return false, statFailed; }
      found, statFailed := Stat(disk, keyPath);
      r := found;
    }
  }

  method Stat(disk: Disk, name: string) returns (found: bool, ghost failed: bool)
    ensures found == (name in Targets(disk.files) && !failed)
    ensures disk.reliable ==> !failed
  {
    var fault := disk.Fails();
    found, failed := !fault && Target(name) in disk.files, fault;
  }

  /** A missing file is no error; an unreadable or malformed one is. */
  method LoadState(disk: Disk, path: string) returns (s: AgentState?, ghost readFailed: bool)
    ensures disk.reliable ==> !readFailed
    ensures s == null <==> readFailed || Read(Targets(disk.files), path).Unparsable?
    ensures s != null ==> fresh(s) && s.path == path && Readable(s.Contents()) == Read(Targets(disk.files), path)
    ensures var ts := Targets(disk.files);
      s == null && !readFailed ==>
        path != "" && path in ts && !(ts[path].content.Whole? && ts[path].content.data.StateJson?)
    ensures var ts := Targets(disk.files);
      s != null ==>
        if path == "" || path !in ts then s.nodeId == s.certPath == s.keyPath == "" && s.revisions == map[]
        else
          && ts[path].content.Whole? && ts[path].content.data.StateJson?
          && var r := ts[path].content.data.state;
             s.nodeId == r.nodeId && s.certPath == r.certPath && s.keyPath == r.keyPath && s.revisions == r.revisions
  {
    var fault := disk.Fails();
    readFailed := fault;
    if fault { return null, true; }
    if path == "" || Target(path) !in disk.files {
      s := new AgentState(path, EMPTY);
      return;
    }
    match disk.files[Target(path)].content {
      case Whole(StateJson(record)) => s := new AgentState(path, record);
      case _ => s := null;
    }
  }

  lemma CrashesToNothing(trace: seq<Files>, ts: set<TargetFiles>)
    ensures CrashesTo(trace, |trace|, ts)
  {}

  lemma CrashesToWider(trace: seq<Files>, start: nat, ts: set<TargetFiles>, us: set<TargetFiles>)
    requires CrashesTo(trace, start, ts) && ts <= us
    ensures CrashesTo(trace, start, us)
  {
    forall i | start <= i < |trace| ensures Targets(trace[i]) in us {}
  }

  /** Whatever moment Save is interrupted at, the next start reads the old state or the new one. */
  lemma CrashInSaveIsReadable(trace: seq<Files>, start: nat, before: TargetFiles, path: string, r: Record, i: nat)
    requires path != ""
    requires CrashesTo(trace, start, {before, before[path := StateFile(r)]})
    requires start <= i < |trace|
    ensures Read(Targets(trace[i]), path) == Read(before, path) || Read(Targets(trace[i]), path) == Readable(r)
  {
    hide Targets;
    var now := Targets(trace[i]);
    assert now == before || now == before[path := StateFile(r)];
    if now != before { assert now[path] == StateFile(r); }
  }
}
