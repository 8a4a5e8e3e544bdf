/**
 The artifact store as a system of concurrent processes. Each file-system call and each database transaction of
 `put` and `collect` is one atomic step; steps of any number of processes interleave freely, a process may fail
 while it owns a temporary file, and a crash may come between any two steps. After a crash the store restarts
 and reconciles before anything else runs. Another process may also open the store at any time; its reconciliation then
 goes step by step beside the running puts and collections: list, look up, verify, move, mark, and close.
 */
module ArtifactProtocol {
  import opened Prelude
  import opened ArtifactRows
  import opened Storage

  datatype PutRequest = PutRequest(content: Bytes, cls: string, media: string, pinned: bool, retention: Option<int>) {
    function Id(): ArtifactId { Sha256(content) }
    function Destination(): Path { Stored(cls, Id()) }
    function Temporary(stamp: nat): Path { Incoming(cls, Id(), stamp) }
  }

  datatype Candidate = Candidate(id: ArtifactId, path: Path)

  /** The control point of a process, named after the step it takes next. */
  datatype Proc =
    | PutLookup(q: PutRequest)                    // read the row
    | PutCheckStored(q: PutRequest, path: Path)   // a matching row exists: verify its file
    | PutProbe(q: PutRequest)                     // no row: does the destination exist?
    | PutCheckDestination(q: PutRequest)          // it does: verify it
    | PutWrite(q: PutRequest, stamp: nat, written: nat)
    | PutLink(q: PutRequest, stamp: nat)          // the temporary file is complete and verified
    | PutCheckLinked(q: PutRequest, stamp: nat)   // the link found the destination taken: verify it
    | PutUnlink(q: PutRequest, stamp: nat)
    | PutRegister(q: PutRequest, path: Path)
    | PutReturned(q: PutRequest)
    | GcNext(todo: seq<Candidate>)
    | GcDelete(id: ArtifactId, path: Path, held: QName, todo: seq<Candidate>)
    | GcRestore(id: ArtifactId, path: Path, held: QName)
    | GcUnlink(held: QName, todo: seq<Candidate>)
    | OpenWalk(due: set<Path>, seen: set<ArtifactId>)  // `due`: listed and not visited yet
    | OpenVerify(due: set<Path>, seen: set<ArtifactId>, path: Path, id: ArtifactId, size: nat)
    | OpenMove(due: set<Path>, seen: set<ArtifactId>, path: Path, reason: string, owner: Option<ArtifactId>)
    | OpenMark(due: set<Path>, seen: set<ArtifactId>, id: ArtifactId)
    | OpenClose(lost: set<ArtifactId>)            // live rows whose file the walk has not seen
    | Stopped                                     // returned without effect, or raised
  {
    predicate Idle() { PutReturned? || Stopped? }
    predicate Putting() {
      PutLookup? || PutCheckStored? || PutProbe? || PutCheckDestination? || PutWrite? || PutLink? || PutCheckLinked?
      || PutUnlink? || PutRegister?
    }
    predicate Collecting() { GcNext? || GcDelete? || GcRestore? || GcUnlink? }
    predicate Opening() { OpenWalk? || OpenVerify? || OpenMove? || OpenMark? || OpenClose? }
    /** Has taken the file at `p` out of the root and may still bring it back. */
    predicate Holds(p: Path) { (GcDelete? || GcRestore?) && path == p }
  }

  datatype System = System(rows: Rows, disk: Disk, procs: map<nat, Proc>)

  const Start := System(Rows(map[], {}), Disk(map[], map[], 0), map[])

  datatype Action =
    | StartPut(pid: nat, q: PutRequest)
    | StartCollect(pid: nat, now: int, todo: seq<Candidate>)
    | Step(pid: nat, accepted: nat)  // `accepted`: how many bytes the operating system takes from one write
    | Fault(pid: nat)
    | Refer(ref: Ref)
    | StartOpen(pid: nat)
    | Visit(pid: nat, path: Path)     // the walk of an opening process comes to this path
    | Settle(pid: nat, id: ArtifactId) // its closing loop comes to this row
    | Crash                            // everything stops, and the store is opened again

  function At(s: System, pid: nat, p: Proc): System { s.(procs := s.procs[pid := p]) }

  function WithRoot(s: System, root: map<Path, Node>): System { s.(disk := s.disk.(root := root)) }

  /** What an open temporary file holds changes, under its own name or under the one it was moved to. */
  function Rewrite(d: Disk, temporary: Path, node: Node): Disk {
    if temporary in d.root then d.(root := d.root[temporary := node])
    else d.(quarantine := map q | q in d.quarantine :: if q.base == temporary then node else d.quarantine[q])
  }

  /** A failing put moves its temporary file to quarantine. */
  function Abandon(s: System, pid: nat, temporary: Path): System {
    if temporary in s.disk.root then
      At(s.(disk := Disk(s.disk.root - {temporary},
                         s.disk.quarantine[QName("put", s.disk.clock, temporary) := s.disk.root[temporary]],
                         s.disk.clock + 1)), pid, Stopped)
    else At(s, pid, Stopped)
  }

  function PutStep(s: System, pid: nat, accepted: nat): System
    requires pid in s.procs && s.procs[pid].Putting()
  {
    var root := s.disk.root;
    var p := s.procs[pid];
    var q := p.q;
    var id, size, dest := q.Id(), |q.content|, q.Destination();
    match p
    case PutLookup(_) =>
      if id !in s.rows.artifacts then At(s, pid, PutProbe(q))
      else
        var row := s.rows.artifacts[id];
        if row.cls != q.cls || row.media != q.media || row.size != size || !row.Live() then At(s, pid, Stopped)
        else At(s, pid, PutCheckStored(q, row.path))
    case PutCheckStored(_, path) =>
      At(s, pid, if VerifiesAt(root, path, id, size) then PutRegister(q, path) else Stopped)
    case PutProbe(_) =>
      if dest in root then At(s, pid, PutCheckDestination(q))
      else
        var stamp := s.disk.clock;
        At(s.(disk := s.disk.(root := root[q.Temporary(stamp) := Regular([], true)], clock := stamp + 1)),
           pid, PutWrite(q, stamp, 0))
    case PutCheckDestination(_) =>
      At(s, pid, if VerifiesAt(root, dest, id, size) then PutRegister(q, dest) else Stopped)
    case PutWrite(_, stamp, written) =>
      if written < size then
        var n := if accepted < 1 then 1 else if accepted > size - written then size - written else accepted;
        At(s.(disk := Rewrite(s.disk, q.Temporary(stamp), Regular(q.content[..written + n], true))), pid,
          PutWrite(q, stamp, written + n))
      else if VerifiesAt(root, q.Temporary(stamp), id, size) then At(s, pid, PutLink(q, stamp))
      else Abandon(s, pid, q.Temporary(stamp))
    case PutLink(_, stamp) =>
      if q.Temporary(stamp) !in root then At(s, pid, Stopped)
      else if dest in root then At(s, pid, PutCheckLinked(q, stamp))
      else At(WithRoot(s, root[dest := root[q.Temporary(stamp)]]), pid, PutUnlink(q, stamp))
    case PutCheckLinked(_, stamp) =>
      if VerifiesAt(root, dest, id, size) then At(s, pid, PutUnlink(q, stamp)) else Abandon(s, pid, q.Temporary(stamp))
    case PutUnlink(_, stamp) =>
      if q.Temporary(stamp) !in root then At(s, pid, Stopped)
      else At(WithRoot(s, root - {q.Temporary(stamp)}), pid, PutRegister(q, dest))
    case PutRegister(_, path) =>
      match Register(s.rows, id, q.cls, q.media, size, path, q.pinned, q.retention)
      case Ok(rows) => At(s.(rows := rows), pid, PutReturned(q))
      case Err(_) => At(s, pid, Stopped)
  }

  function GcStep(s: System, pid: nat): System
    requires pid in s.procs && s.procs[pid].Collecting()
  {
    var d := s.disk;
    match s.procs[pid]
    case GcNext(todo) =>
      if todo == [] then At(s, pid, Stopped)
      else if todo[0].path !in d.root then At(s, pid, Stopped)
      else
        var held := QName("gc", d.clock, todo[0].path);
        At(s.(disk := Disk(d.root - {todo[0].path}, d.quarantine[held := d.root[todo[0].path]], d.clock + 1)),
           pid, GcDelete(todo[0].id, todo[0].path, held, todo[1..]))
    case GcDelete(id, path, held, todo) =>
      (match DeleteRow(s.rows, id)
       case Ok(rows) => At(s.(rows := rows), pid, GcUnlink(held, todo))
       case Err(_) => At(s, pid, GcRestore(id, path, held)))
    case GcRestore(id, path, held) =>
      if held in d.quarantine then
        At(s.(disk := d.(root := d.root[path := d.quarantine[held]], quarantine := d.quarantine - {held})), pid,
          Stopped)
      else At(s, pid, Stopped)
    case GcUnlink(held, todo) =>
      At(s.(disk := d.(quarantine := d.quarantine - {held})), pid, GcNext(todo))
  }

  /** artifact_record_by_path */
  ghost function RecordAt(rows: Rows, p: Path): Option<ArtifactId> {
    if exists id :: id in rows.artifacts && rows.artifacts[id].path == p then
      var id :| id in rows.artifacts && rows.artifacts[id].path == p;
      Some(id)
    else None
  }

  /** The walk comes to `p`: skip what is gone or a directory, and decide by what the record says at this moment. */
  ghost function VisitStep(s: System, pid: nat, p: Path): System
    requires pid in s.procs && s.procs[pid].OpenWalk?
  {
    var due, seen := s.procs[pid].due - {p}, s.procs[pid].seen;
    if p !in s.disk.root || s.disk.root[p] == Directory then At(s, pid, OpenWalk(due, seen))
    else
      var record := RecordAt(s.rows, p);
      if s.disk.root[p] == Irregular || record.None? then At(s, pid, OpenMove(due, seen, p, "orphan", None))
      else
        var id := record.value;
        var row := s.rows.artifacts[id];
        if !row.Live() || p.Top() != row.cls then At(s, pid, OpenMove(due, seen, p, "invalid", Some(id)))
        else At(s, pid, OpenVerify(due, seen, p, id, row.size))
  }

  /** The other steps of an opening process. */
  function OpenStep(s: System, pid: nat): System
    requires pid in s.procs && s.procs[pid].Opening()
  {
    match s.procs[pid]
    case OpenWalk(due, seen) =>
      if due != {} then s
      else At(s, pid, OpenClose(set id | id in s.rows.artifacts && s.rows.artifacts[id].Live() && id !in seen))
    case OpenVerify(due, seen, p, id, size) =>
      if p !in s.disk.root then At(s, pid, Stopped)
      else if Verifies(s.disk.root[p], id, size) then At(s, pid, OpenWalk(due, seen + {id}))
      else At(s, pid, OpenMove(due, seen, p, "tampered", Some(id)))
    case OpenMove(due, seen, p, reason, owner) =>
      if p !in s.disk.root then At(s, pid, Stopped)
      else
        At(s.(disk := MoveOne(s.disk, p, reason)), pid,
           if owner.None? then OpenWalk(due, seen) else OpenMark(due, seen, owner.value))
    case OpenMark(due, seen, id) =>
      (match Quarantine(s.rows, id)
       case Ok(rows) => At(s.(rows := rows), pid, OpenWalk(due, seen))
       case Err(_) => At(s, pid, Stopped))
    case OpenClose(lost) => if lost == {} then At(s, pid, Stopped) else s
  }

  function SettleStep(s: System, pid: nat, id: ArtifactId): System
    requires pid in s.procs && s.procs[pid].OpenClose?
  {
    match Quarantine(s.rows, id)
    case Ok(rows) => At(s.(rows := rows), pid, OpenClose(s.procs[pid].lost - {id}))
    case Err(_) => At(s, pid, Stopped)
  }

  predicate MayStart(s: System, pid: nat) { pid !in s.procs || s.procs[pid].Idle() }

  /** `todo` is an answer of the candidate query. */
  predicate Candidates(rows: Rows, now: int, todo: seq<Candidate>) {
    forall i :: 0 <= i < |todo| ==>
      Collectable(rows, todo[i].id, now) && todo[i].path == rows.artifacts[todo[i].id].path
  }

  ghost predicate Next(s: System, a: Action, s': System) {
    match a
    case StartPut(pid, q) => MayStart(s, pid) && s' == At(s, pid, PutLookup(q))
    case StartCollect(pid, now, todo) => MayStart(s, pid) && Candidates(s.rows, now, todo)
      && s' == At(s, pid, GcNext(todo))
    case StartOpen(pid) => MayStart(s, pid) && s' == At(s, pid, OpenWalk(s.disk.root.Keys, {}))
    case Step(pid, accepted) =>
      && pid in s.procs
      && (s.procs[pid].Putting() || s.procs[pid].Collecting() || s.procs[pid].Opening())
      && s' == if s.procs[pid].Putting() then PutStep(s, pid, accepted)
               else if s.procs[pid].Collecting() then GcStep(s, pid)
               else OpenStep(s, pid)
    case Visit(pid, path) => pid in s.procs && s.procs[pid].OpenWalk? && s' == VisitStep(s, pid, path)
    case Settle(pid, id) =>
      pid in s.procs && s.procs[pid].OpenClose? && id in s.procs[pid].lost && s' == SettleStep(s, pid, id)
    case Fault(pid) =>
      && pid in s.procs
      && (if s.procs[pid].Opening() then s' == At(s, pid, Stopped)
          else
            && OwnStamp(s.procs[pid]).Some?
            && s' == Abandon(s, pid, s.procs[pid].q.Temporary(s.procs[pid].stamp)))
    case Refer(ref) => s' == (match AddRef(s.rows, ref) case Ok(rows) => s.(rows := rows) case Err(_) => s)
    case Crash => s'.procs == map[] && Reconciled(s.rows, s.disk, s'.rows, s'.disk)
  }

  // ---------------------------------------------------------------- what every step keeps

  ghost predicate RowsSound(rows: Rows) {
    && rows.Constrained()
    && forall id :: id in rows.artifacts ==>
         var row := rows.artifacts[id];
         row.path == Stored(row.cls, id) && row.size == |id.preimage| && row.complete == !row.quarantined
  }

  /** Only complete files are ever visible under a final name. */
  ghost predicate RootSound(d: Disk) {
    forall p :: p in d.root ==>
      match p
      case Stored(_, id) => d.root[p] == Regular(id.preimage, true)
      case Incoming(_, _, stamp) => stamp < d.clock && d.root[p].Regular?
      case Foreign(_, _) => false
  }

  ghost predicate ProcSound(d: Disk, p: Proc) {
    match p
    case PutCheckStored(q, path) => path == q.Destination()
    case PutWrite(q, stamp, written) =>
      && written <= |q.content| && stamp < d.clock
      && (q.Temporary(stamp) in d.root ==> d.root[q.Temporary(stamp)] == Regular(q.content[..written], true))
    case PutLink(q, stamp) => stamp < d.clock
      && (q.Temporary(stamp) in d.root ==> d.root[q.Temporary(stamp)] == Regular(q.content, true))
    case PutCheckLinked(q, stamp) => stamp < d.clock
    case PutUnlink(q, stamp) => stamp < d.clock
    case PutRegister(q, path) => path == q.Destination()
    case GcNext(todo) => CandidatesSound(todo)
    case GcDelete(id, path, held, todo) => path.Stored? && path.id == id && HeldSound(d, path, held)
      && CandidatesSound(todo)
    case GcRestore(id, path, held) => path.Stored? && path.id == id && HeldSound(d, path, held)
    case GcUnlink(held, todo) => CandidatesSound(todo) && held.stamp < d.clock
    case OpenVerify(_, _, path, id, size) => path.Stored? && path.id == id && size == |id.preimage|
    case _ => true
  }

  ghost predicate CandidatesSound(todo: seq<Candidate>) {
    forall i :: 0 <= i < |todo| ==> todo[i].path.Stored? && todo[i].path.id == todo[i].id
  }

  ghost predicate HeldSound(d: Disk, path: Path, held: QName) {
    path.Stored? && held.base == path && held in d.quarantine && d.quarantine[held] == Regular(path.id.preimage, true)
  }

  function HeldName(p: Proc): Option<QName> {
    match p
    case GcDelete(_, _, held, _) => Some(held)
    case GcRestore(_, _, held) => Some(held)
    case GcUnlink(held, _) => Some(held)
    case _ => None
  }

  function OwnStamp(p: Proc): Option<nat> {
    match p
    case PutWrite(_, stamp, _) => Some(stamp)
    case PutLink(_, stamp) => Some(stamp)
    case PutCheckLinked(_, stamp) => Some(stamp)
    case PutUnlink(_, stamp) => Some(stamp)
    case _ => None
  }

  /** No two processes own the same temporary file or hold the same quarantined file. */
  ghost predicate Separate(procs: map<nat, Proc>) {
    forall i, j :: i in procs && j in procs && i != j ==>
      && (HeldName(procs[i]).Some? ==> HeldName(procs[i]) != HeldName(procs[j]))
      && (OwnStamp(procs[i]).Some? ==> OwnStamp(procs[i]) != OwnStamp(procs[j]))
  }

  ghost predicate ProcsSound(s: System) {
    Separate(s.procs) && forall i :: i in s.procs ==> ProcSound(s.disk, s.procs[i])
  }

  ghost predicate Sound(s: System) {
    RowsSound(s.rows) && RootSound(s.disk) && StampsPast(s.disk) && ProcsSound(s)
  }

  /** The disk changed only where process `was` has a claim, under final names, or under names never used before. */
  ghost predicate Confined(d: Disk, d': Disk, was: Proc) {
    && d.clock <= d'.clock
    && (forall p: Path :: p.Incoming? && p.stamp < d.clock && Some(p.stamp) != OwnStamp(was) && p in d'.root ==>
          p in d.root && d'.root[p] == d.root[p])
    && (forall q: QName :: q.stamp < d.clock && q.base.Stored? && Some(q) != HeldName(was) ==>
          (q in d'.quarantine <==> q in d.quarantine) && (q in d.quarantine ==> d'.quarantine[q] == d.quarantine[q]))
  }

  /** What `now` claims, `was` already claimed, or nobody could have. */
  ghost predicate ClaimsFresh(d: Disk, was: Proc, now: Proc) {
    && (OwnStamp(now).Some? ==> OwnStamp(now) == OwnStamp(was) || OwnStamp(now).value >= d.clock)
    && (HeldName(now).Some? ==> HeldName(now) == HeldName(was) || HeldName(now).value.stamp >= d.clock)
  }

  /** A process is not disturbed by another one's confined change. */
  lemma Undisturbed(d: Disk, d': Disk, was: Proc, p: Proc)
    requires StampsPast(d) && ProcSound(d, p) && Confined(d, d', was)
    requires OwnStamp(p).Some? ==> OwnStamp(p) != OwnStamp(was)
    requires HeldName(p).Some? ==> HeldName(p) != HeldName(was)
    ensures ProcSound(d', p)
    ensures OwnStamp(p).Some? ==> OwnStamp(p).value < d.clock
    ensures HeldName(p).Some? ==> HeldName(p).value.stamp < d.clock
  {
  }

  lemma ReplaceSound(s: System, pid: nat, was: Proc, now: Proc, d': Disk)
    requires ProcsSound(s) && StampsPast(s.disk) && Confined(s.disk, d', was) && ClaimsFresh(s.disk, was, now)
             && ProcSound(d', now)
    requires if pid in s.procs then was == s.procs[pid] else was == Stopped
    ensures ProcsSound(System(s.rows, d', s.procs[pid := now]))
  {
    hide ProcSound, Confined;
    forall i | i in s.procs && i != pid
      ensures ProcSound(d', s.procs[i])
      ensures OwnStamp(s.procs[i]).Some? ==> OwnStamp(s.procs[i]).value < s.disk.clock
      ensures HeldName(s.procs[i]).Some? ==> HeldName(s.procs[i]).value.stamp < s.disk.clock
    {
      Undisturbed(s.disk, d', was, s.procs[i]);
    }
  }

  lemma OwnSound(s: System, pid: nat)
    requires ProcsSound(s) && pid in s.procs
    ensures ProcSound(s.disk, s.procs[pid])
  {
    hide ProcSound, Separate;
  }

  /** Steps that leave the disk alone. */
  lemma QuietSound(s: System, pid: nat, now: Proc)
    requires Sound(s) && ProcSound(s.disk, now)
    requires OwnStamp(now).Some? ==> pid in s.procs && OwnStamp(now) == OwnStamp(s.procs[pid])
    requires HeldName(now).Some? ==> pid in s.procs && HeldName(now) == HeldName(s.procs[pid])
    ensures Sound(At(s, pid, now))
  {
    ReplaceSound(s, pid, if pid in s.procs then s.procs[pid] else Stopped, now, s.disk);
  }

  lemma AbandonSound(s: System, pid: nat)
    requires Sound(s) && pid in s.procs && OwnStamp(s.procs[pid]).Some?
    ensures Sound(Abandon(s, pid, s.procs[pid].q.Temporary(s.procs[pid].stamp)))
  {
    hide ProcsSound, RowsSound;
    OwnSound(s, pid);
    var s' := Abandon(s, pid, s.procs[pid].q.Temporary(s.procs[pid].stamp));
    ReplaceSound(s, pid, s.procs[pid], Stopped, s'.disk);
  }

  lemma PutProbeSound(s: System, pid: nat, accepted: nat)
    requires Sound(s) && pid in s.procs && s.procs[pid].PutProbe?
    ensures Sound(PutStep(s, pid, accepted))
  {
    hide ProcsSound, RowsSound;
    OwnSound(s, pid);
    var s' := PutStep(s, pid, accepted);
    assert ProcSound(s'.disk, s'.procs[pid]);
    ReplaceSound(s, pid, s.procs[pid], s'.procs[pid], s'.disk);
  }

  lemma PutWriteSound(s: System, pid: nat, accepted: nat)
    requires Sound(s) && pid in s.procs && s.procs[pid].PutWrite?
    ensures Sound(PutStep(s, pid, accepted))
  {
    hide ProcsSound, RowsSound;
    OwnSound(s, pid);
    var p := s.procs[pid];
    if p.written < |p.q.content| {
      var s' := PutStep(s, pid, accepted);
      ReplaceSound(s, pid, p, s'.procs[pid], s'.disk);
    } else {
      assert p.q.content[..p.written] == p.q.content;
      if p.q.Temporary(p.stamp) in s.disk.root {
        QuietSound(s, pid, PutLink(p.q, p.stamp));
      } else {
        AbandonSound(s, pid);
      }
    }
  }

  lemma PutLinkSound(s: System, pid: nat, accepted: nat)
    requires Sound(s) && pid in s.procs && (s.procs[pid].PutLink? || s.procs[pid].PutUnlink?)
    ensures Sound(PutStep(s, pid, accepted))
  {
    hide ProcsSound, RowsSound;
    OwnSound(s, pid);
    var s' := PutStep(s, pid, accepted);
    ReplaceSound(s, pid, s.procs[pid], s'.procs[pid], s'.disk);
  }

  lemma RegisterRowsSound(rows: Rows, q: PutRequest)
    requires RowsSound(rows)
    ensures var r := Register(rows, q.Id(), q.cls, q.media, |q.content|, q.Destination(), q.pinned, q.retention);
            r.Ok? ==> RowsSound(r.value)
  {
  }

  lemma PutRegisterSound(s: System, pid: nat, accepted: nat)
    requires Sound(s) && pid in s.procs && s.procs[pid].PutRegister?
    ensures Sound(PutStep(s, pid, accepted))
  {
    hide Register, RowsSound, RootSound, StampsPast, Separate;
    var s' := PutStep(s, pid, accepted);
    RegisterRowsSound(s.rows, s.procs[pid].q);
    ReplaceSound(s, pid, s.procs[pid], s'.procs[pid], s'.disk);
  }

  lemma PutStepSound(s: System, pid: nat, accepted: nat)
    requires Sound(s) && pid in s.procs && s.procs[pid].Putting()
    ensures Sound(PutStep(s, pid, accepted))
  {
    var p := s.procs[pid];
    var s' := PutStep(s, pid, accepted);
    if p.PutProbe? {
      PutProbeSound(s, pid, accepted);
    } else if p.PutWrite? {
      PutWriteSound(s, pid, accepted);
    } else if p.PutLink? || p.PutUnlink? {
      PutLinkSound(s, pid, accepted);
    } else if p.PutRegister? {
      PutRegisterSound(s, pid, accepted);
    } else if p.PutCheckLinked? && !VerifiesAt(s.disk.root, p.q.Destination(), p.q.Id(), |p.q.content|) {
      AbandonSound(s, pid);
    } else {
      QuietSound(s, pid, s'.procs[pid]);
    }
  }

  lemma GcNextSound(s: System, pid: nat)
    requires Sound(s) && pid in s.procs && s.procs[pid].GcNext?
    ensures Sound(GcStep(s, pid))
  {
    hide ProcsSound, RowsSound;
    OwnSound(s, pid);
    var s' := GcStep(s, pid);
    assert ProcSound(s'.disk, s'.procs[pid]);
    ReplaceSound(s, pid, s.procs[pid], s'.procs[pid], s'.disk);
  }

  lemma GcDeleteSound(s: System, pid: nat)
    requires Sound(s) && pid in s.procs && s.procs[pid].GcDelete?
    ensures Sound(GcStep(s, pid))
  {
    hide Separate, RowsSound, RootSound, DeleteRow;
    OwnSound(s, pid);
    var s' := GcStep(s, pid);
    DeleteRowsSound(s.rows, s.procs[pid].id);
    ReplaceSound(s, pid, s.procs[pid], s'.procs[pid], s'.disk);
  }

  lemma DeleteRowsSound(rows: Rows, id: ArtifactId)
    requires RowsSound(rows)
    ensures DeleteRow(rows, id).Ok? ==> RowsSound(DeleteRow(rows, id).value)
  {
  }

  lemma GcReleaseSound(s: System, pid: nat)
    requires Sound(s) && pid in s.procs && (s.procs[pid].GcRestore? || s.procs[pid].GcUnlink?)
    ensures Sound(GcStep(s, pid))
  {
    hide ProcsSound, RowsSound;
    OwnSound(s, pid);
    var s' := GcStep(s, pid);
    ReplaceSound(s, pid, s.procs[pid], s'.procs[pid], s'.disk);
  }

  lemma GcStepSound(s: System, pid: nat)
    requires Sound(s) && pid in s.procs && s.procs[pid].Collecting()
    ensures Sound(GcStep(s, pid))
  {
    hide Sound;
    if s.procs[pid].GcNext? {
      GcNextSound(s, pid);
    } else if s.procs[pid].GcDelete? {
      GcDeleteSound(s, pid);
    } else {
      GcReleaseSound(s, pid);
    }
  }

  lemma CrashSound(s: System, s': System)
    requires Sound(s) && Next(s, Crash, s')
    ensures Sound(s')
  {
  }

  /** An opening process moves a file away; whose it was does not matter. */
  lemma OpenMoveSound(s: System, pid: nat)
    requires Sound(s) && pid in s.procs && s.procs[pid].OpenMove?
    ensures Sound(OpenStep(s, pid))
  {
    hide ProcsSound, RowsSound;
    var s' := OpenStep(s, pid);
    ReplaceSound(s, pid, s.procs[pid], s'.procs[pid], s'.disk);
  }

  lemma QuarantineRowsSound(rows: Rows, id: ArtifactId)
    requires RowsSound(rows)
    ensures Quarantine(rows, id).Ok? ==> RowsSound(Quarantine(rows, id).value)
  {
  }

  /** A step that changes rows and its own control point only. */
  lemma RowStepSound(s: System, pid: nat, rows: Rows, now: Proc)
    requires Sound(s) && RowsSound(rows) && ProcSound(s.disk, now) && pid in s.procs
    requires OwnStamp(now).None? && HeldName(now).None?
    ensures Sound(At(s.(rows := rows), pid, now))
  {
    hide RowsSound, RootSound, StampsPast;
    ReplaceSound(s, pid, s.procs[pid], now, s.disk);
  }

  lemma OpenStepSound(s: System, pid: nat)
    requires Sound(s) && pid in s.procs && s.procs[pid].Opening()
    ensures Sound(OpenStep(s, pid))
  {
    hide Quarantine, RowsSound, RootSound, StampsPast, ProcsSound, MoveOne;
    var p, s' := s.procs[pid], OpenStep(s, pid);
    if p.OpenMove? {
      OpenMoveSound(s, pid);
    } else if p.OpenMark? && Quarantine(s.rows, p.id).Ok? {
      QuarantineRowsSound(s.rows, p.id);
      RowStepSound(s, pid, s'.rows, s'.procs[pid]);
    } else if s' != s {
      QuietSound(s, pid, s'.procs[pid]);
    }
  }

  lemma SettleSound(s: System, pid: nat, id: ArtifactId)
    requires Sound(s) && pid in s.procs && s.procs[pid].OpenClose?
    ensures Sound(SettleStep(s, pid, id))
  {
    hide Quarantine, RowsSound, RootSound, StampsPast, ProcsSound;
    var s' := SettleStep(s, pid, id);
    if Quarantine(s.rows, id).Ok? {
      QuarantineRowsSound(s.rows, id);
      RowStepSound(s, pid, s'.rows, s'.procs[pid]);
    } else {
      QuietSound(s, pid, Stopped);
    }
  }

  /** The record of a path is that of the identifier the path spells. */
  lemma RecordIsOwn(rows: Rows, p: Path)
    requires RowsSound(rows)
    ensures RecordAt(rows, p).Some? <==> p.Stored? && p.id in rows.artifacts && rows.artifacts[p.id].path == p
    ensures RecordAt(rows, p).Some? ==> RecordAt(rows, p) == Some(p.id) && p.Top() == rows.artifacts[p.id].cls
  {
  }

  lemma VisitSound(s: System, pid: nat, path: Path)
    requires Sound(s) && pid in s.procs && s.procs[pid].OpenWalk?
    ensures Sound(VisitStep(s, pid, path))
  {
    RecordIsOwn(s.rows, path);
    hide RecordAt, RootSound, StampsPast, ProcsSound;
    QuietSound(s, pid, VisitStep(s, pid, path).procs[pid]);
  }

  lemma StartSound(s: System, a: Action, s': System)
    requires Sound(s) && Next(s, a, s') && (a.StartPut? || a.StartCollect? || a.StartOpen?)
    ensures Sound(s')
  {
    QuietSound(s, a.pid, s'.procs[a.pid]);
  }

  lemma ReferSound(s: System, ref: Ref, s': System)
    requires Sound(s) && Next(s, Refer(ref), s')
    ensures Sound(s')
  {
  }

  /** Every step of every process, every fault and every crash keeps the system sound. */
  lemma NextSound(s: System, a: Action, s': System)
    requires Sound(s) && Next(s, a, s')
    ensures Sound(s')
  {
    hide Sound, VisitStep, SettleStep, OpenStep, PutStep, GcStep;
    match a
    case Step(pid, accepted) =>
      if s.procs[pid].Putting() {
        PutStepSound(s, pid, accepted);
      } else if s.procs[pid].Collecting() {
        GcStepSound(s, pid);
      } else {
        OpenStepSound(s, pid);
      }
    case Visit(pid, path) => VisitSound(s, pid, path);
    case Settle(pid, id) => SettleSound(s, pid, id);
    case Fault(pid) =>
      if s.procs[pid].Opening() {
        QuietSound(s, pid, Stopped);
      } else {
        AbandonSound(s, pid);
      }
    case Crash => CrashSound(s, s');
    case Refer(ref) => ReferSound(s, ref, s');
    case _ => StartSound(s, a, s');
  }
}
