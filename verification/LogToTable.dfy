/** The WAL protocol under the flushers: one system whose log is the objects that Append calls create. What a loader
    publishes is the replay of those objects, and an acknowledged batch is among them. */
module LogToTable {
  import opened Options
  import opened Bytes
  import opened Crc32c
  import opened FramedStream
  import opened RecordIo
  import opened Mutations
  import opened Index
  import Wal = WalProtocol
  import Flusher
  import LoaderModel
  import EndToEnd

  /** How the bytes of an object become an entry: the checksum of the stream and the parser of one record. */
  datatype Codec = Codec(sum: Checksum, parse: Record -> WalRecord)

  function Parsed(parse: Record -> WalRecord, rs: seq<Record>): Entry {
    seq(|rs|, i requires 0 <= i < |rs| => parse(rs[i]))
  }

  /** What reading an object gives. */
  function EntryOf(c: Codec, payload: seq<byte>): Entry {
    Parsed(c.parse, ScanAll(Scanner(c.sum, DEFAULT_MAX_RECORD_SIZE), payload).records)
  }

  /** A batch that was written reads as its records, parsed one by one. */
  lemma EntryOfBatch(c: Codec, batch: seq<Record>)
    requires Fit(batch, Fits(DEFAULT_MAX_RECORD_SIZE))
    ensures var e := EntryOf(c, Encode(Writer(c.sum), batch));
            |e| == |batch| && forall i :: 0 <= i < |e| ==> e[i] == c.parse(batch[i])
  {
    ScanInvertsEncode(c.sum, batch, DEFAULT_MAX_RECORD_SIZE);
  }

  /** A batch as an ingester hands it over: an intact stream of records that make a well-shaped entry. */
  ghost predicate IsBatch(c: Codec, payload: seq<byte>) {
    ScanAll(Scanner(c.sum, DEFAULT_MAX_RECORD_SIZE), payload).fault == None && WellShaped(EntryOf(c, payload))
  }

  function EntriesOf(c: Codec, payloads: seq<seq<byte>>): seq<Entry> {
    seq(|payloads|, i requires 0 <= i < |payloads| => EntryOf(c, payloads[i]))
  }

  /** An action of the log, or of the flushers, forks and manifests above it. A fork is announced by an Append like any
      other entry. */
  datatype Action = OnLog(log: Wal.Action) | Above(above: Flusher.Action)

  function LogActions(actions: seq<Action>): seq<Wal.Action> {
    if actions == [] then []
    else LogActions(actions[..|actions| - 1]) + match actions[|actions| - 1] case OnLog(a) => [a] case Above(_) => []
  }

  /** The run that the flushers see: an entry is appended when its object is created, and in no other way. */
  ghost function Seen(prefix: string, c: Codec, actions: seq<Action>): seq<Flusher.Action> {
    if actions == [] then []
    else
      var before := actions[..|actions| - 1];
      Seen(prefix, c, before) + Shows(Wal.Run(prefix, LogActions(before)), c, actions[|actions| - 1])
  }

  ghost function Shows(s: Wal.Wal, c: Codec, a: Action): seq<Flusher.Action> {
    match a
    case OnLog(l) => if Wal.Creates(s, l) then [Flusher.Append(EntryOf(c, s.calls[l.p].payload))] else []
    case Above(f) => if f.Append? || f.ForkAnnounce? then [] else [f]
  }

  lemma OnlyAppendsExtend(s: Flusher.System, a: Flusher.Action)
    requires !a.Append? && !a.ForkAnnounce?
    ensures Flusher.Step(s, a).shared.wal == s.shared.wal
  {
  }

  lemma RunSnoc(actions: seq<Flusher.Action>, a: Flusher.Action)
    ensures Flusher.Run(actions + [a]) == Flusher.Step(Flusher.Run(actions), a)
  {
    assert (actions + [a])[..|actions|] == actions;
  }

  lemma AppendedSnoc(prefix: string, actions: seq<Wal.Action>, a: Wal.Action)
    ensures var s := Wal.Run(prefix, actions);
            Wal.Appended(prefix, actions + [a])
            == Wal.Appended(prefix, actions) + if Wal.Creates(s, a) then [s.calls[a.p].payload] else []
  {
    assert (actions + [a])[..|actions|] == actions;
  }

  lemma OneMoreShown(prefix: string, c: Codec, log: seq<Wal.Action>, seen: seq<Flusher.Action>, a: Action)
    requires Flusher.Run(seen).shared.wal == EntriesOf(c, Wal.Appended(prefix, log))
    ensures var s := Wal.Run(prefix, log);
            var log' := log + match a case OnLog(l) => [l] case Above(_) => [];
            Flusher.Run(seen + Shows(s, c, a)).shared.wal == EntriesOf(c, Wal.Appended(prefix, log'))
  {
    hide Wal.Run, Wal.Appended, Flusher.Run, EntryOf;
    var s := Wal.Run(prefix, log);
    assert seen + [] == seen && log + [] == log;
    match a {
      case OnLog(l) =>
        AppendedSnoc(prefix, log, l);
        if Wal.Creates(s, l) {
          RunSnoc(seen, Flusher.Append(EntryOf(c, s.calls[l.p].payload)));
        } else {
          assert Wal.Appended(prefix, log) + [] == Wal.Appended(prefix, log);
        }
      case Above(f) =>
        if !f.Append? && !f.ForkAnnounce? {
          RunSnoc(seen, f);
          OnlyAppendsExtend(Flusher.Run(seen), f);
        }
    }
  }

  /** The flushers' log is what the objects created say, in the order of their creation. */
  lemma {:induction false} SeenIsAppended(prefix: string, c: Codec, actions: seq<Action>)
    ensures Flusher.Run(Seen(prefix, c, actions)).shared.wal == EntriesOf(c, Wal.Appended(prefix, LogActions(actions)))
  {
    hide Wal.Run, Shows, Flusher.Step;
    if actions != [] {
      var n := |actions| - 1;
      SeenIsAppended(prefix, c, actions[..n]);
      OneMoreShown(prefix, c, LogActions(actions[..n]), Seen(prefix, c, actions[..n]), actions[n]);
    }
  }

  // ---- Every entry is a batch

  ghost predicate OnlyBatches(c: Codec, actions: seq<Wal.Action>) {
    forall i :: 0 <= i < |actions| && actions[i].Append? ==> IsBatch(c, actions[i].payload)
  }

  ghost predicate HoldBatches(c: Codec, s: Wal.Wal) {
    forall p :: p in s.calls ==> IsBatch(c, s.calls[p].payload)
  }

  lemma StepHoldsBatches(c: Codec, s: Wal.Wal, a: Wal.Action)
    requires HoldBatches(c, s) && (a.Append? ==> IsBatch(c, a.payload))
    ensures HoldBatches(c, Wal.Step(s, a))
  {
    hide IsBatch;
  }

  lemma {:induction false} RunHoldsBatches(prefix: string, c: Codec, actions: seq<Wal.Action>)
    requires OnlyBatches(c, actions)
    ensures HoldBatches(c, Wal.Run(prefix, actions))
  {
    hide Wal.Step, IsBatch;
    if actions != [] {
      var n := |actions| - 1;
      RunHoldsBatches(prefix, c, actions[..n]);
      StepHoldsBatches(c, Wal.Run(prefix, actions[..n]), actions[n]);
    }
  }

  lemma ShowsWellShaped(c: Codec, s: Wal.Wal, a: Action)
    requires HoldBatches(c, s)
    ensures Flusher.WellShapedRun(Shows(s, c, a))
  {
    hide EntryOf, WellShaped;
  }

  lemma {:induction false} SeenIsWellShaped(prefix: string, c: Codec, actions: seq<Action>)
    requires OnlyBatches(c, LogActions(actions))
    ensures Flusher.WellShapedRun(Seen(prefix, c, actions))
  {
    hide Wal.Run, Shows, IsBatch, HoldBatches, WellShaped;
    if actions != [] {
      var n := |actions| - 1;
      var log := LogActions(actions[..n]);
      assert log <= LogActions(actions);
      SeenIsWellShaped(prefix, c, actions[..n]);
      RunHoldsBatches(prefix, c, log);
      ShowsWellShaped(c, Wal.Run(prefix, log), actions[n]);
    }
  }

  // ---- The theorems

  /** The log as its readers see it: object n as entry n. */
  ghost function Log(prefix: string, c: Codec, actions: seq<Action>): seq<Entry>
    requires Wal.Contiguous(Wal.Run(prefix, LogActions(actions)))
  {
    EntriesOf(c, Wal.Entries(Wal.Run(prefix, LogActions(actions))))
  }

  /** In every run of Append calls, flushers and forks together, the log that the flushers work on is the WAL objects 1,
      2, ... in order. */
  lemma LogIsObjects(prefix: string, c: Codec, actions: seq<Action>)
    requires Wal.NeverOverfull(prefix, LogActions(actions))
    ensures Wal.Contiguous(Wal.Run(prefix, LogActions(actions)))
    ensures Flusher.Run(Seen(prefix, c, actions)).shared.wal == Log(prefix, c, actions)
  {
    SeenIsAppended(prefix, c, actions);
    Wal.LogIsAppended(prefix, LogActions(actions));
  }

  /** An acknowledged Append is in that log, under the number it was told. */
  lemma AcknowledgedIsInLog(prefix: string, c: Codec, actions: seq<Action>, p: nat)
    requires Wal.NeverOverfull(prefix, LogActions(actions))
    requires var s := Wal.Run(prefix, LogActions(actions)); p in s.calls && s.calls[p].call.Acked?
    ensures var s := Wal.Run(prefix, LogActions(actions));
            var n, wal := s.calls[p].call.seqNo, Flusher.Run(Seen(prefix, c, actions)).shared.wal;
            1 <= n <= |wal| && wal[n - 1] == EntryOf(c, s.calls[p].payload)
  {
    hide Wal.Run, Wal.NeverOverfull, LogActions, Seen, EntryOf, Flusher.Run;
    LogIsObjects(prefix, c, actions);
    Wal.AcknowledgedIsUnique(prefix, LogActions(actions), p, p);
  }

  /** From the objects of the WAL to the table: after any passes and then an error-free one over the manifest as it
      stands, the index of the table is the replay, record by record, of the WAL objects up to that manifest's
      checkpoint. */
  lemma TableIsReplayOfObjects(k: Kernels, prefix: string, c: Codec, actions: seq<Action>, name: nat -> string,
                               b: string, rs: seq<EndToEnd.Glance>, open: nat -> LoaderModel.Opened)
    requires Wal.NeverOverfull(prefix, LogActions(actions)) && OnlyBatches(c, LogActions(actions))
             && EndToEnd.Spells(name)
    requires var seen := Seen(prefix, c, actions);
             var h, n := EndToEnd.HistoryOf(seen), |seen|;
             && b in h(n).manifests
             && (forall i :: 0 <= i < |rs| ==> EndToEnd.Plausible(h, n, b, rs[i]))
             && EndToEnd.Plausible(h, n, b, EndToEnd.Glance(Some(n), open))
             && LoaderModel.Sync(k, EndToEnd.Loaded(k, h, name, b, rs), EndToEnd.ReadManifest(h, name, b, Some(n)),
                                 open).err == None
    ensures Wal.Contiguous(Wal.Run(prefix, LogActions(actions)))
    ensures var seen, log := Seen(prefix, c, actions), Log(prefix, c, actions);
            var h, sh := EndToEnd.HistoryOf(seen), Flusher.Run(seen).shared;
            && b in sh.manifests && b in sh.lineage
            && var at := sh.manifests[b].manifest.checkpoint;
            && at <= |log| && Flusher.LineageWithin(sh.lineage[b], at)
            && EndToEnd.ReplayBranch(k, log, sh.lineage[b], b, at)
               == Some(LoaderModel.Sync(k, EndToEnd.Loaded(k, h, name, b, rs),
                                        EndToEnd.ReadManifest(h, name, b, Some(|seen|)), open).state.index)
  {
    hide Wal.NeverOverfull, Wal.Contiguous, OnlyBatches, EndToEnd.Plausible, LoaderModel.Sync, EndToEnd.ReplayBranch;
    SeenIsWellShaped(prefix, c, actions);
    LogIsObjects(prefix, c, actions);
    EndToEnd.TableIsLogReplay(k, Seen(prefix, c, actions), name, b, rs, open);
  }
}
