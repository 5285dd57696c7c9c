/** Enrolment: the key, then the certificate, then the state file, each by a temporary file and a rename. */
module Enroll {
  import opened Options
  import opened Disk
  import opened State

  const KEY_PATH := "/etc/routestack/agent/key.pem"
  const CERT_PATH := "/etc/routestack/agent/cert.pem"

  type Stage = k: nat | k <= 3

  /** What the target files hold once attempt number id has done its first k installations:
      the key, the certificate, the state. A malformed state file stops the attempt before the last. */
  function StageAt(ts: TargetFiles, id: nat, nodeId: string, statePath: string, k: Stage): TargetFiles {
    if k == 0 then
      ts
    else
      var before := StageAt(ts, id, nodeId, statePath, k - 1);
      if k == 1 then
        before[KEY_PATH := File(Whole(KeyPem(id)), 0x180)]
      else if k == 2 then
        before[CERT_PATH := File(Whole(CertPem(id)), 0x180)]
      else
        match Read(before, statePath)
        case Unparsable => before
        case Readable(r) => before[statePath := StateFile(Record(nodeId, CERT_PATH, KEY_PATH, r.revisions))]
  }

  /** Every crash state from start on is one of the first reached stages. */
  ghost predicate CrashesToStages(trace: seq<Files>, start: nat, ts: TargetFiles, id: nat, nodeId: string,
                                  statePath: string, reached: Stage)
  {
    forall i | start <= i < |trace| :: IsStage(Targets(trace[i]), ts, id, nodeId, statePath, reached)
  }

  ghost predicate IsStage(now: TargetFiles, ts: TargetFiles, id: nat, nodeId: string, statePath: string, reached: Stage)
  {
    exists k: Stage | k <= reached :: now == StageAt(ts, id, nodeId, statePath, k)
  }

  /** writeFileAtomic. Unlike Save it leaves its temporary file behind when the rename fails. */
  method WriteFileAtomic(disk: Disk, path: string, data: Data, perm: nat)
    returns (ok: bool, ghost renameFailed: bool, ghost removeFailed: bool)
    requires disk.Valid()
    modifies disk
    ensures disk.Valid() && Extends(disk.trace, old(disk.trace))
    ensures CrashesTo(disk.trace, |old(disk.trace)|,
      {Targets(old(disk.files)), Targets(old(disk.files))[path := File(Whole(data), perm)]})
    ensures disk.reliable ==> ok
    ensures ok ==> disk.files == old(disk.files)[Target(path) := File(Whole(data), perm)]
    ensures ok ==> Targets(disk.files) == Targets(old(disk.files))[path := File(Whole(data), perm)]
    ensures !ok ==> (disk.files == old(disk.files) <==> !renameFailed && !removeFailed)
    ensures !ok && (renameFailed || removeFailed) ==> LeavesTemp(old(disk.files), disk.files)
    ensures !ok ==> Targets(disk.files) == Targets(old(disk.files))
    ensures !ok ==>
      CrashesTo(disk.trace, |old(disk.trace)|, {Targets(old(disk.files))})
  {
    hide Targets, CrashesTo;
    ghost var start, ts, file := |disk.trace|, Targets(disk.files), File(Whole(data), perm);
    renameFailed := false;
    var tmp;
    tmp, removeFailed := PrepareTemp(disk, data, perm);
    ghost var trace := disk.trace;
    CrashesToWider(trace, start, {ts}, {ts, ts[path := file]});
    if tmp.None? { return false, false, removeFailed; }
    removeFailed := false;
    ok := disk.Rename(tmp.value, path);
    renameFailed := !ok;
    CrashesToWider(disk.trace, |trace|, {Targets(disk.files)}, {ts, ts[path := file]});
    CrashesToMore(trace, disk.trace, start, {ts, ts[path := file]}, {ts, ts[path := file]});
    assert {ts, ts[path := file]} + {ts, ts[path := file]} == {ts, ts[path := file]};
    if !ok {
      CrashesToMore(trace, disk.trace, start, {ts}, {ts});
      assert {ts} + {ts} == {ts};
    }
  }

  lemma InStages(trace: seq<Files>, more: seq<Files>, start: nat, ts: TargetFiles, id: nat, nodeId: string,
                 statePath: string, k: Stage, j: Stage, us: set<TargetFiles>)
    requires start <= |trace| && Extends(more, trace) && k <= j
    requires CrashesToStages(trace, start, ts, id, nodeId, statePath, k)
    requires CrashesTo(more, |trace|, us)
    requires us <= {StageAt(ts, id, nodeId, statePath, k), StageAt(ts, id, nodeId, statePath, j)}
    ensures CrashesToStages(more, start, ts, id, nodeId, statePath, j)
  {
    hide StageAt, Targets;
    forall i | start <= i < |more| ensures IsStage(Targets(more[i]), ts, id, nodeId, statePath, j) {
      if i < |trace| {
        assert more[i] == trace[i];
        assert IsStage(Targets(trace[i]), ts, id, nodeId, statePath, k);
      } else {
        assert Targets(more[i]) in us;
      }
    }
  }

  /** Enroll after key generation: the controller's reply is None when the request failed. */
  method EnrollNode(disk: Disk, id: nat, reply: Option<string>, ghost statePath: string)
    returns (resp: Option<string>, ghost reached: Stage)
    requires disk.Valid()
    modifies disk
    ensures disk.Valid() && Extends(disk.trace, old(disk.trace))
    ensures reached <= 2 && (reply.None? ==> reached == 0) && (disk.reliable && reply.Some? ==> reached == 2)
    ensures resp == if reached == 2 then reply else None
    ensures var nodeId := if reply.Some? then reply.value else "";
      && Targets(disk.files) == StageAt(Targets(old(disk.files)), id, nodeId, statePath, reached)
      && CrashesToStages(disk.trace, |old(disk.trace)|, Targets(old(disk.files)), id, nodeId, statePath, reached)
  {
    hide Targets, CrashesTo, LeavesTemp;
    ghost var ts, start, nodeId := Targets(disk.files), |disk.trace|, if reply.Some? then reply.value else "";
    resp, reached := None, 0;
    if reply.None? { return; }
    ghost var trace := disk.trace;
    assert CrashesToStages(trace, start, ts, id, nodeId, statePath, 0);
    var ok, _, _ := WriteFileAtomic(disk, KEY_PATH, KeyPem(id), 0x180);
    reached := if ok then 1 else 0;
    ghost var now := StageAt(ts, id, nodeId, statePath, 1);
    assert StageAt(ts, id, nodeId, statePath, 0) == ts;
    InStages(trace, disk.trace, start, ts, id, nodeId, statePath, 0, reached, if ok then {ts, now} else {ts});
    if !ok { return; }
    trace := disk.trace;
    var ok', _, _ := WriteFileAtomic(disk, CERT_PATH, CertPem(id), 0x180);
    reached := if ok' then 2 else 1;
    ghost var next := StageAt(ts, id, nodeId, statePath, 2);
    InStages(trace, disk.trace, start, ts, id, nodeId, statePath, 1, reached, if ok' then {now, next} else {now});
    if ok' { resp := reply; }
  }

  /** cmdEnroll from the request on: an attempt that may fail or be interrupted anywhere moves the target files
      to one of its stages, and succeeds exactly when it reaches the last. */
  method CmdEnroll(disk: Disk, id: nat, reply: Option<string>, statePath: string)
    returns (ok: bool, ghost reached: Stage)
    requires disk.Valid()
    modifies disk
    ensures disk.Valid() && Extends(disk.trace, old(disk.trace))
    ensures (ok <==> reached == 3) && (reply.None? ==> reached == 0)
    ensures var nodeId := if reply.Some? then reply.value else "";
      && Targets(disk.files) == StageAt(Targets(old(disk.files)), id, nodeId, statePath, reached)
      && CrashesToStages(disk.trace, |old(disk.trace)|, Targets(old(disk.files)), id, nodeId, statePath, reached)
    ensures disk.reliable ==>
      (ok <==>
        && reply.Some? && statePath != ""
        && Read(StageAt(Targets(old(disk.files)), id, reply.value, statePath, 2), statePath).Readable?)
    ensures ok ==>
      var r, before := Read(Targets(disk.files), statePath), Read(Targets(old(disk.files)), statePath);
      && r.Readable? && before.Readable? && r.record.revisions == before.record.revisions
      && IsOwnRecord(Targets(disk.files), r.record, id, reply.value)
    ensures ok ==> (ReportsEnrolled(Targets(disk.files), statePath) <==> reply.value != "")
  {
    hide Targets, CrashesTo, LeavesTemp;
    ghost var ts, start, nodeId := Targets(disk.files), |disk.trace|, if reply.Some? then reply.value else "";
    var resp;
    resp, reached := EnrollNode(disk, id, reply, statePath);
    if resp.None? { return false, reached; }
    var st, _ := LoadState(disk, statePath);
    if st == null { return false, reached; }
    ghost var trace := disk.trace;
    st.nodeId, st.certPath, st.keyPath := resp.value, CERT_PATH, KEY_PATH;
    var saved, _ := st.Save(disk);
    ok := saved;
    reached := if ok then 3 else 2;
    ghost var now, next := StageAt(ts, id, nodeId, statePath, 2), StageAt(ts, id, nodeId, statePath, 3);
    InStages(trace, disk.trace, start, ts, id, nodeId, statePath, 2, reached, if ok then {now, next} else {now});
    if ok {
      LastStageIsReported(ts, id, nodeId, statePath);
      LastStageNamesItsFiles(ts, id, nodeId, statePath);
    }
  }

  // ---- Many attempts -----------------------------------------------------------------------------------------

  /** The state file, read by a later process, claims an enrolment whose files are both there. */
  predicate ReportsEnrolled(ts: TargetFiles, statePath: string) {
    var r := Read(ts, statePath);
    r.Readable? && Enrolled(ts, r.record)
  }

  /** A readable state that names no node, no certificate or no key: a machine that was never enrolled. */
  predicate NeverEnrolled(ts: TargetFiles, statePath: string) {
    var r := Read(ts, statePath);
    r.Readable? ==> r.record.nodeId == "" || r.record.certPath == "" || r.record.keyPath == ""
  }

  predicate HoldsKey(ts: TargetFiles, id: nat) {
    KEY_PATH in ts && ts[KEY_PATH].content == Whole(KeyPem(id))
  }

  predicate HoldsCert(ts: TargetFiles, id: nat) {
    CERT_PATH in ts && ts[CERT_PATH].content == Whole(CertPem(id))
  }

  /** Key and certificate are both complete and come from the same attempt. */
  ghost predicate Paired(ts: TargetFiles) {
    exists id: nat :: HoldsKey(ts, id) && HoldsCert(ts, id)
  }

  /** One attempt: the node ID the controller handed out, and how many installations it got to. */
  datatype Attempt = Attempt(nodeId: string, reached: Stage)

  /** The target files after some attempts, the i-th of which is attempt number first + i. */
  function After(ts: TargetFiles, first: nat, statePath: string, attempts: seq<Attempt>): TargetFiles {
    if attempts == [] then
      ts
    else
      var k := |attempts| - 1;
      StageAt(After(ts, first, statePath, attempts[..k]), first + k, attempts[k].nodeId, statePath, attempts[k].reached)
  }

  predicate InstallsKey(attempts: seq<Attempt>) {
    exists a :: a in attempts && a.reached >= 1
  }

  /** The last attempt that installed a key also installed its certificate. */
  predicate LastKeyHasItsCert(attempts: seq<Attempt>) {
    attempts != [] &&
    var last := attempts[|attempts| - 1];
    if last.reached == 0 then LastKeyHasItsCert(attempts[..|attempts| - 1]) else last.reached >= 2
  }

  /** Certificates are issued to attempts in turn: the one on disk is not of a later attempt. */
  ghost predicate CertsBefore(ts: TargetFiles, bound: nat) {
    forall id: nat | HoldsCert(ts, id) :: id < bound
  }

  lemma StageFiles(ts: TargetFiles, id: nat, nodeId: string, statePath: string, k: Stage)
    ensures var now := StageAt(ts, id, nodeId, statePath, k);
      && (k >= 1 ==> HoldsKey(now, id)) && (k >= 2 ==> HoldsCert(now, id))
      && (k <= 1 ==> forall n: nat :: HoldsCert(now, n) <==> HoldsCert(ts, n))
      && (k == 1 ==> now == ts[KEY_PATH := File(Whole(KeyPem(id)), 0x180)])
    ensures (k <= 2 || nodeId == "") && NeverEnrolled(ts, statePath) ==>
      NeverEnrolled(StageAt(ts, id, nodeId, statePath, k), statePath)
  {
    assert KEY_PATH != CERT_PATH by { assert |KEY_PATH| != |CERT_PATH|; }
    if k == 3 {
      var before := StageAt(ts, id, nodeId, statePath, 2);
      StageFiles(ts, id, nodeId, statePath, 2);
      if statePath == KEY_PATH || statePath == CERT_PATH { assert Read(before, statePath).Unparsable?; }
    } else if k > 0 {
      StageFiles(ts, id, nodeId, statePath, k - 1);
    }
  }

  /** The stages in full: the key file, the certificate file and the state file, readable by the owner only, and
      every other file as it was. The state names the node, the two files just installed, and the old revisions. */
  lemma StagesInFull(ts: TargetFiles, id: nat, nodeId: string, statePath: string)
    ensures var key, cert := "/etc/routestack/agent/key.pem", "/etc/routestack/agent/cert.pem";
      && key != cert
      && var one := ts[key := File(Whole(KeyPem(id)), 6 * 64)];
         var two := one[cert := File(Whole(CertPem(id)), 6 * 64)];
         && StageAt(ts, id, nodeId, statePath, 0) == ts
         && StageAt(ts, id, nodeId, statePath, 1) == one
         && StageAt(ts, id, nodeId, statePath, 2) == two
         && (statePath == "" || statePath !in two ==>
               StageAt(ts, id, nodeId, statePath, 3)
               == two[statePath := File(Whole(StateJson(Record(nodeId, cert, key, map[]))), 6 * 64)])
         && (statePath != "" && statePath in two && two[statePath].content.Whole?
             && two[statePath].content.data.StateJson? ==>
               && statePath != key && statePath != cert
               && var was := two[statePath].content.data.state;
                  StageAt(ts, id, nodeId, statePath, 3)
                  == two[statePath := File(Whole(StateJson(Record(nodeId, cert, key, was.revisions))), 6 * 64)])
  {
    assert KEY_PATH != CERT_PATH by { assert |KEY_PATH| != |CERT_PATH|; }
    assert StageAt(ts, id, nodeId, statePath, 1) == ts[KEY_PATH := File(Whole(KeyPem(id)), 0x180)];
    assert StageAt(ts, id, nodeId, statePath, 2)
        == StageAt(ts, id, nodeId, statePath, 1)[CERT_PATH := File(Whole(CertPem(id)), 0x180)];
  }

  /** The record is that of the attempt, and both files that it names are the attempt's own. */
  ghost predicate IsOwnRecord(ts: TargetFiles, r: Record, id: nat, nodeId: string) {
    && r.nodeId == nodeId
    && r.keyPath in ts && ts[r.keyPath] == File(Whole(KeyPem(id)), 6 * 64)
    && r.certPath in ts && ts[r.certPath] == File(Whole(CertPem(id)), 6 * 64)
  }

  lemma LastStageNamesItsFiles(ts: TargetFiles, id: nat, nodeId: string, statePath: string)
    requires statePath != "" && Read(StageAt(ts, id, nodeId, statePath, 2), statePath).Readable?
    ensures var now := StageAt(ts, id, nodeId, statePath, 3);
      && Read(now, statePath).Readable? && IsOwnRecord(now, Read(now, statePath).record, id, nodeId)
      && Read(now, statePath).record.revisions
         == Read(StageAt(ts, id, nodeId, statePath, 2), statePath).record.revisions
    ensures Read(StageAt(ts, id, nodeId, statePath, 2), statePath) == Read(ts, statePath)
  {
    StagesInFull(ts, id, nodeId, statePath);
    hide StageAt;
    assert KEY_PATH != CERT_PATH by { assert |KEY_PATH| != |CERT_PATH|; }
  }

  /** Whatever happened before, an attempt that succeeds is reported after a restart, unless the controller
      handed out an empty node ID. */
  lemma LastStageIsReported(ts: TargetFiles, id: nat, nodeId: string, statePath: string)
    requires statePath != "" && Read(StageAt(ts, id, nodeId, statePath, 2), statePath).Readable?
    ensures ReportsEnrolled(StageAt(ts, id, nodeId, statePath, 3), statePath) <==> nodeId != ""
  {
    StageFiles(ts, id, nodeId, statePath, 2);
    StageFiles(ts, id, nodeId, statePath, 3);
  }

  lemma {:induction false} PairOrOlderCert(ts: TargetFiles, first: nat, statePath: string, attempts: seq<Attempt>)
    requires CertsBefore(ts, first)
    ensures var now := After(ts, first, statePath, attempts);
      && CertsBefore(now, first + |attempts|)
      && (LastKeyHasItsCert(attempts) ==> Paired(now))
      && (InstallsKey(attempts) && !LastKeyHasItsCert(attempts) ==>
            exists id: nat :: HoldsKey(now, id) && CertsBefore(now, id))
  {
    if attempts != [] {
      var k := |attempts| - 1;
      var front, last := attempts[..k], attempts[k];
      assert attempts == front + [last];
      PairOrOlderCert(ts, first, statePath, front);
      var before := After(ts, first, statePath, front);
      StageFiles(before, first + k, last.nodeId, statePath, last.reached);
      var now := After(ts, first, statePath, attempts);
      if last.reached == 1 { assert HoldsKey(now, first + k) && CertsBefore(now, first + k); }
    }
  }

  /** Key and certificate match exactly when the last attempt to install a key got as far as its certificate. */
  lemma PairedExactlyWhenCertFollowed(ts: TargetFiles, first: nat, statePath: string, attempts: seq<Attempt>)
    requires CertsBefore(ts, first) && InstallsKey(attempts)
    ensures Paired(After(ts, first, statePath, attempts)) <==> LastKeyHasItsCert(attempts)
  {
    PairOrOlderCert(ts, first, statePath, attempts);
  }

  /** The attempt runs to the end and saves a state that names a node. */
  predicate Commits(a: Attempt) { a.reached == 3 && a.nodeId != "" }

  lemma {:induction false} StillNotEnrolled(ts: TargetFiles, first: nat, statePath: string, attempts: seq<Attempt>)
    requires NeverEnrolled(ts, statePath) && forall a | a in attempts :: !Commits(a)
    ensures NeverEnrolled(After(ts, first, statePath, attempts), statePath)
  {
    if attempts != [] {
      var k := |attempts| - 1;
      var last := attempts[k];
      assert last in attempts && !Commits(last);
      StillNotEnrolled(ts, first, statePath, attempts[..k]);
      StageFiles(After(ts, first, statePath, attempts[..k]), first + k, last.nodeId, statePath, last.reached);
    }
  }

  /** First enrolment: however many attempts were cut short anywhere or got no node ID, once a restart reports
      enrolment the last attempt ran to the end, and both files are whole and its own. */
  lemma FirstEnrolmentIsConsistent(ts: TargetFiles, first: nat, statePath: string, attempts: seq<Attempt>)
    requires NeverEnrolled(ts, statePath)
    requires forall i | 0 <= i < |attempts| - 1 :: !Commits(attempts[i])
    requires ReportsEnrolled(After(ts, first, statePath, attempts), statePath)
    ensures attempts != [] && Commits(attempts[|attempts| - 1])
    ensures HoldsKey(After(ts, first, statePath, attempts), first + |attempts| - 1)
    ensures HoldsCert(After(ts, first, statePath, attempts), first + |attempts| - 1)
    ensures var now, n := After(ts, first, statePath, attempts), |attempts| - 1;
      IsOwnRecord(now, Read(now, statePath).record, first + n, attempts[n].nodeId)
  {
    if attempts == [] || !Commits(attempts[|attempts| - 1]) {
      StillNotEnrolled(ts, first, statePath, attempts);
    } else {
      var k := |attempts| - 1;
      var before := After(ts, first, statePath, attempts[..k]);
      StageFiles(before, first + k, attempts[k].nodeId, statePath, 3);
      ReportedStageIsReadable(before, first + k, attempts[k].nodeId, statePath);
      LastStageNamesItsFiles(before, first + k, attempts[k].nodeId, statePath);
    }
  }

  lemma ReportedStageIsReadable(ts: TargetFiles, id: nat, nodeId: string, statePath: string)
    requires ReportsEnrolled(StageAt(ts, id, nodeId, statePath, 3), statePath)
    ensures statePath != "" && Read(StageAt(ts, id, nodeId, statePath, 2), statePath).Readable?
  {}

  /** Re-enrolment has no such guarantee: cut short between key and certificate, it leaves a machine that still
      reports enrolment and whose two files belong to different attempts. */
  lemma ReenrolmentCanBreakThePair(ts: TargetFiles, id: nat, nodeId: string, statePath: string)
    requires ReportsEnrolled(ts, statePath) && Paired(ts) && CertsBefore(ts, id)
    ensures ReportsEnrolled(StageAt(ts, id, nodeId, statePath, 1), statePath)
    ensures !Paired(StageAt(ts, id, nodeId, statePath, 1))
  {
    StageFiles(ts, id, nodeId, statePath, 1);
    PairedExactlyWhenCertFollowed(ts, id, statePath, [Attempt(nodeId, 1)]);
  }

  /** A crash inside cmdEnroll, wherever it strikes, extends the run by one attempt. */
  lemma InterruptedAttemptExtendsTheRun(ts: TargetFiles, first: nat, statePath: string, attempts: seq<Attempt>,
                                        nodeId: string, now: TargetFiles, reached: Stage) returns (k: Stage)
    requires IsStage(now, After(ts, first, statePath, attempts), first + |attempts|, nodeId, statePath, reached)
    ensures k <= reached && now == After(ts, first, statePath, attempts + [Attempt(nodeId, k)])
  {
    var before := After(ts, first, statePath, attempts);
    k :| k <= reached && now == StageAt(before, first + |attempts|, nodeId, statePath, k);
    assert (attempts + [Attempt(nodeId, k)])[..|attempts|] == attempts;
  }
}
