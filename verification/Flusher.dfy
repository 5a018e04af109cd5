/** The storage protocol as a state machine: ingesters append WAL entries, any number of flushers turn entries into
    content-addressed segments and commit them to branch manifests by compare-and-swap, and forks copy manifests.
    Every store call is one action; a process may be interrupted, crash or restart between any two. */
module Flusher {
  import opened Options
  import opened Mutations

  // ---- Shared storage

  /** SHA-256 as an injective function: the digest of a segment determines its content. */
  datatype SegmentId = Digest(content: seq<Mutation>)

  datatype SegmentRef = SegmentRef(id: SegmentId, docCount: nat)

  datatype Manifest = Manifest(checkpoint: nat, segments: seq<SegmentRef>)

  datatype Versioned = Versioned(manifest: Manifest, generation: nat)

  /** Where a branch came from: created by a flusher, or forked from a parent at a checkpoint of that parent. */
  datatype Lineage = Root | Forked(parent: string, parentLineage: Lineage, base: nat)

  /** The WAL (entry n is wal[n - 1]), the segments, the manifests and the last generation issued. `lineage` is
      history: a step may copy it into a branch's history, and none acts on it. */
  datatype Shared = Shared(
    wal: seq<Entry>,
    segments: map<SegmentId, seq<Mutation>>,
    manifests: map<string, Versioned>,
    generations: nat,
    lineage: map<string, Lineage>)

  // ---- Processes

  datatype FlusherState =
    | Stopped
    | Listing                                          // initCheckpoints: about to list the branches
    | Initialising(todo: seq<string>, least: Option<nat>) // initCheckpoints: manifests still to read
    | At(seqNo: nat)                                   // about to read this WAL entry
    | Uploading(seqNo: nat, branch: string, batch: seq<Mutation>)
    | Reading(seqNo: nat, branch: string, batch: seq<Mutation>)
    | Writing(seqNo: nat, branch: string, batch: seq<Mutation>, read: Manifest, generation: Option<nat>)
    | Cataloguing(seqNo: nat, branch: string, checkpoint: nat)

  /** A stream flusher: where it stands, and its branchCheckpoints. */
  datatype Process = Process(state: FlusherState, memory: Checkpoints)

  datatype Forker =
    | NoFork
    | HasParent(source: string, target: string, read: Manifest, history: Lineage)
    | TargetAbsent(source: string, target: string, read: Manifest, history: Lineage)
    | Written(source: string, target: string)

  datatype System = System(shared: Shared, flushers: map<nat, Process>, forkers: map<nat, Forker>)

  /** How a conditional write answers: success, an ordinary error after committing, or a conflict reported although
      the write itself had committed. */
  datatype Reply = Acknowledged | ErrorAfterCommit | ConflictAfterCommit

  datatype Action =
    | Append(entry: Entry)
    | Start(p: nat)
    | ListBranches(p: nat, branches: seq<string>)
    | ReadCheckpoint(p: nat)
    | ReadEntry(p: nat)
    | UploadSegment(p: nat)
    | ReadManifest(p: nat)
    | WriteManifest(p: nat, reply: Reply)
    | AddBranch(p: nat)
    | Interrupt(p: nat)
    | Crash(p: nat)
    | ForkReadSource(q: nat, source: string, target: string)
    | ForkReadTarget(q: nat)
    | ForkWrite(q: nat, reply: Reply)
    | ForkAnnounce(q: nat)

  // ---- Steps

  function Get(sh: Shared, branch: string): Option<Versioned> {
    if branch in sh.manifests then Some(sh.manifests[branch]) else None
  }

  /** manifest.Write: no generation means the object must be absent. */
  predicate WriteAllowed(sh: Shared, branch: string, generation: Option<nat>) {
    match generation
    case None => branch !in sh.manifests
    case Some(g) => branch in sh.manifests && sh.manifests[branch].generation == g
  }

  function Commit(sh: Shared, branch: string, m: Manifest, history: Lineage): Shared {
    var g := sh.generations + 1;
    sh.(manifests := sh.manifests[branch := Versioned(m, g)], generations := g,
        lineage := sh.lineage[branch := history])
  }

  function WithFlusher(s: System, p: nat, state: FlusherState): System
    requires p in s.flushers
  {
    s.(flushers := s.flushers[p := s.flushers[p].(state := state)])
  }

  /** processRecords on entry seqNo: nothing to flush moves on, two branches stop the flusher. */
  function ProcessEntry(s: System, p: nat, seqNo: nat): System
    requires p in s.flushers && 1 <= seqNo <= |s.shared.wal|
  {
    var f := s.flushers[p];
    match Collect(s.shared.wal[seqNo - 1], f.memory, seqNo)
    case TwoBranches => WithFlusher(s, p, Stopped)
    case Collected(branch, batch, memory) =>
      var next := if batch == [] then At(seqNo + 1) else Uploading(seqNo, branch, batch);
      s.(flushers := s.flushers[p := Process(next, memory)])
  }

  /** flushBranch, one turn of the retry loop up to the write: what it does with the manifest it read. */
  function AfterRead(f: FlusherState, got: Option<Versioned>): FlusherState
    requires f.Reading?
  {
    var m := if got.Some? then got.value.manifest else Manifest(0, []);
    if m.checkpoint >= f.seqNo then Cataloguing(f.seqNo, f.branch, m.checkpoint)
    else Writing(f.seqNo, f.branch, f.batch, m, if got.Some? then Some(got.value.generation) else None)
  }

  /** The manifest a flusher writes over the one it read. */
  function Extend(f: FlusherState): Manifest
    requires f.Writing?
  {
    Manifest(f.seqNo, f.read.segments + [SegmentRef(Digest(f.batch), |f.batch|)])
  }

  /** The lineage after a flusher's commit: an existing branch keeps its own, a new one is a root. */
  function KeepLineage(sh: Shared, branch: string): Lineage {
    if branch in sh.lineage then sh.lineage[branch] else Root
  }

  /** Where an interrupted flusher resumes, with its memory kept: the shutdown drain starts again at the entry in
      progress, or from the checkpoints if there was none. */
  function Resume(f: FlusherState): FlusherState {
    match f
    case Stopped => Stopped
    case Listing => Listing
    case Initialising(_, _) => Listing
    case At(n) => At(n)
    case Uploading(n, _, _) => At(n)
    case Reading(n, _, _) => At(n)
    case Writing(n, _, _, _, _) => At(n)
    case Cataloguing(n, _, _) => At(n)
  }

  /** One action of the whole system; an action that is not enabled changes nothing. */
  function Step(s: System, a: Action): System {
    match a
    case Append(entry) => s.(shared := s.shared.(wal := s.shared.wal + [entry]))
    case Start(p) => s.(flushers := s.flushers[p := Process(Listing, map[])])
    case ListBranches(p, branches) =>
      if p in s.flushers && s.flushers[p].state == Listing
      then WithFlusher(s, p, Initialising(branches, None)) else s
    case ReadCheckpoint(p) =>
      if p in s.flushers && s.flushers[p].state.Initialising? then StepReadCheckpoint(s, p) else s
    case ReadEntry(p) =>
      if p in s.flushers && s.flushers[p].state.At? && 1 <= s.flushers[p].state.seqNo <= |s.shared.wal|
      then ProcessEntry(s, p, s.flushers[p].state.seqNo) else s
    case UploadSegment(p) =>
      if p in s.flushers && s.flushers[p].state.Uploading? then StepUpload(s, p) else s
    case ReadManifest(p) =>
      if p in s.flushers && s.flushers[p].state.Reading?
      then WithFlusher(s, p, AfterRead(s.flushers[p].state, Get(s.shared, s.flushers[p].state.branch))) else s
    case WriteManifest(p, reply) =>
      if p in s.flushers && s.flushers[p].state.Writing? then StepWrite(s, p, reply) else s
    case AddBranch(p) =>
      if p in s.flushers && s.flushers[p].state.Cataloguing? then
        var f := s.flushers[p];
        s.(flushers := s.flushers[p := Process(At(f.state.seqNo + 1), f.memory[f.state.branch := f.state.checkpoint])])
      else s
    case Interrupt(p) =>
      if p in s.flushers then WithFlusher(s, p, Resume(s.flushers[p].state)) else s
    case Crash(p) =>
      if p in s.flushers then WithFlusher(s, p, Stopped) else s
    case ForkReadSource(q, source, target) =>
      if source in s.shared.manifests
      then
        var parent := HasParent(source, target, s.shared.manifests[source].manifest, KeepLineage(s.shared, source));
        s.(forkers := s.forkers[q := parent])
      else s.(forkers := s.forkers[q := NoFork])
    case ForkReadTarget(q) =>
      if q in s.forkers && s.forkers[q].HasParent? then
        var k := s.forkers[q];
        s.(forkers := s.forkers[q := if k.target in s.shared.manifests then NoFork
                                     else TargetAbsent(k.source, k.target, k.read, k.history)])
      else s
    case ForkWrite(q, reply) =>
      if q in s.forkers && s.forkers[q].TargetAbsent? then StepForkWrite(s, q, reply) else s
    case ForkAnnounce(q) =>
      if q in s.forkers && s.forkers[q].Written? then
        var k := s.forkers[q];
        s.(shared := s.shared.(wal := s.shared.wal + [ForkEntry(k.source, k.target)]),
           forkers := s.forkers[q := NoFork])
      else s
  }

  /** initCheckpoints: read the next manifest; a missing one is passed over; the last one gives the start. */
  function StepReadCheckpoint(s: System, p: nat): System
    requires p in s.flushers && s.flushers[p].state.Initialising?
  {
    var f := s.flushers[p];
    if f.state.todo == [] then
      WithFlusher(s, p, At((if f.state.least.Some? then f.state.least.value else 0) + 1))
    else
      var branch := f.state.todo[0];
      match Get(s.shared, branch)
      case None => WithFlusher(s, p, Initialising(f.state.todo[1..], f.state.least))
      case Some(v) =>
        var c := v.manifest.checkpoint;
        var least := if f.state.least.None? || c < f.state.least.value then Some(c) else f.state.least;
        s.(flushers := s.flushers[p := Process(Initialising(f.state.todo[1..], least), f.memory[branch := c])])
  }

  /** Conditional create of the segment; one that exists already is as good. */
  function StepUpload(s: System, p: nat): System
    requires p in s.flushers && s.flushers[p].state.Uploading?
  {
    var f := s.flushers[p].state;
    var id := Digest(f.batch);
    var segments := if id in s.shared.segments then s.shared.segments else s.shared.segments[id := f.batch];
    WithFlusher(s.(shared := s.shared.(segments := segments)), p, Reading(f.seqNo, f.branch, f.batch))
  }

  function StepWrite(s: System, p: nat, reply: Reply): System
    requires p in s.flushers && s.flushers[p].state.Writing?
  {
    var f := s.flushers[p].state;
    var again := Reading(f.seqNo, f.branch, f.batch);
    if !WriteAllowed(s.shared, f.branch, f.generation) then WithFlusher(s, p, again)
    else
      var s' := s.(shared := Commit(s.shared, f.branch, Extend(f), KeepLineage(s.shared, f.branch)));
      match reply
      case Acknowledged => WithFlusher(s', p, Cataloguing(f.seqNo, f.branch, f.seqNo))
      case ErrorAfterCommit => WithFlusher(s', p, Stopped)
      case ConflictAfterCommit => WithFlusher(s', p, again)
  }

  function StepForkWrite(s: System, q: nat, reply: Reply): System
    requires q in s.forkers && s.forkers[q].TargetAbsent?
  {
    var k := s.forkers[q];
    if !WriteAllowed(s.shared, k.target, None) then s.(forkers := s.forkers[q := NoFork])
    else
      var sh := Commit(s.shared, k.target, k.read, Forked(k.source, k.history, k.read.checkpoint));
      s.(shared := sh, forkers := s.forkers[q := if reply == Acknowledged then Written(k.source, k.target) else NoFork])
  }

  function Init(): System {
    System(Shared([], map[], map[], 0, map[]), map[], map[])
  }

  /** The state after a run; every state of every run is Run(actions) for some actions. */
  function Run(actions: seq<Action>): System {
    if actions == [] then Init() else Step(Run(actions[..|actions| - 1]), actions[|actions| - 1])
  }

  /** The ingesters of the run write only well-shaped entries. */
  ghost predicate WellShapedRun(actions: seq<Action>) {
    forall i :: 0 <= i < |actions| && actions[i].Append? ==> WellShaped(actions[i].entry)
  }

  // ---- What a branch should hold

  /** The batches of branch b among entries lo + 1 .. hi, one per entry, in order. */
  function Own(wal: seq<Entry>, b: string, lo: nat, hi: nat): seq<seq<Mutation>>
    requires hi <= |wal|
  {
    if hi <= lo then []
    else Own(wal, b, lo, hi - 1) + if b != "" && BatchBranch(wal[hi - 1]) == b then [Batch(wal[hi - 1])] else []
  }

  /** Every base in a lineage lies within the log and no later than c. */
  predicate LineageWithin(l: Lineage, c: nat) {
    match l
    case Root => true
    case Forked(_, pl, base) => base <= c && LineageWithin(pl, base)
  }

  /** What branch b holds at checkpoint c: what its parent held at the fork, then its own entries since. */
  function Batches(wal: seq<Entry>, l: Lineage, b: string, c: nat): seq<seq<Mutation>>
    requires c <= |wal| && LineageWithin(l, c)
    decreases l
  {
    match l
    case Root => Own(wal, b, 0, c)
    case Forked(parent, pl, base) => Batches(wal, pl, parent, base) + Own(wal, b, base, c)
  }

  /** What a manifest's segment list decodes to. */
  function Contents(segments: seq<SegmentRef>): seq<seq<Mutation>> {
    seq(|segments|, i requires 0 <= i < |segments| => segments[i].id.content)
  }
}
