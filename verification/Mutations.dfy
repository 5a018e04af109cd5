/** Document mutations, the records of a WAL entry, and how the ingester writes and the flusher reads them. */
module Mutations {

  /** An attribute value; two values are equal when their messages are. */
  type Attribute = string

  /** The document of a PUT: named vectors and named attributes. */
  datatype Document = Document(id: string, vectors: map<string, seq<real>>, attributes: map<string, Attribute>)

  datatype Op = Put | Delete | Unspecified

  datatype Mutation = Mutation(branch: string, docId: string, op: Op, payload: Document)

  datatype EventType = Fork | OtherEvent

  /** One record of a WAL entry; `Blank` has neither member of the oneof set. */
  datatype WalRecord =
    | MutationRecord(mutation: Mutation)
    | BranchEvent(eventType: EventType, branch: string, parent: string)
    | Blank

  type Entry = seq<WalRecord>

  // ---- What the ingester appends

  /** The entry of one Upsert call. */
  function UpsertEntry(branch: string, docs: seq<Document>): Entry {
    seq(|docs|, i requires 0 <= i < |docs| => MutationRecord(Mutation(branch, docs[i].id, Put, docs[i])))
  }

  /** The entry of one Delete call. */
  function DeleteEntry(branch: string, ids: seq<string>): Entry {
    seq(|ids|, i requires 0 <= i < |ids| =>
      MutationRecord(Mutation(branch, ids[i], Delete, Document("", map[], map[]))))
  }

  function ForkEntry(source: string, target: string): Entry {
    [BranchEvent(Fork, target, source)]
  }

  // ---- What an entry means

  /** A mutation the flusher acts on; one without a branch is ignored. */
  predicate Effective(r: WalRecord) {
    r.MutationRecord? && r.mutation.branch != ""
  }

  predicate IsFork(r: WalRecord, branch: string) {
    r.BranchEvent? && r.eventType == Fork && r.branch == branch
  }

  /** The effective mutations of an entry, in order. */
  function Batch(e: Entry): seq<Mutation> {
    if e == [] then [] else Batch(e[..|e| - 1]) + (if Effective(e[|e| - 1]) then [e[|e| - 1].mutation] else [])
  }

  /** The branch of an entry's last effective mutation, or "" if it has none. */
  function BatchBranch(e: Entry): (b: string)
    ensures b != "" <==> Batch(e) != []
  {
    if e == [] then ""
    else if Effective(e[|e| - 1]) then e[|e| - 1].mutation.branch
    else BatchBranch(e[..|e| - 1])
  }

  /** All effective mutations are on one branch, and the entry does not also fork that branch. Every entry the
      ingester writes is of this shape. */
  ghost predicate WellShaped(e: Entry) {
    && SingleBranch(e)
    && (forall i :: 0 <= i < |e| && BatchBranch(e) != "" ==> !IsFork(e[i], BatchBranch(e)))
  }

  lemma {:induction false} SameBranch(e: Entry, branch: string)
    requires forall i :: 0 <= i < |e| ==> e[i].MutationRecord? && e[i].mutation.branch == branch
    ensures |e| > 0 ==> BatchBranch(e) == branch
    ensures branch != "" ==> Batch(e) == seq(|e|, i requires 0 <= i < |e| => e[i].mutation)
    ensures branch == "" ==> Batch(e) == []
  {
    if e != [] {
      var init := e[..|e| - 1];
      SameBranch(init, branch);
      if branch != "" {
        assert Batch(e) == Batch(init) + [e[|e| - 1].mutation];
      }
    }
  }

  /** What the ingester writes is well shaped and means exactly the call it records. */
  lemma IngesterEntries(branch: string, docs: seq<Document>, ids: seq<string>, source: string, target: string)
    ensures WellShaped(UpsertEntry(branch, docs)) && WellShaped(DeleteEntry(branch, ids))
            && WellShaped(ForkEntry(source, target))
    ensures branch != "" ==> Batch(UpsertEntry(branch, docs))
                             == seq(|docs|, i requires 0 <= i < |docs| => Mutation(branch, docs[i].id, Put, docs[i]))
    ensures branch != "" ==> |Batch(DeleteEntry(branch, ids))| == |ids|
                             && forall i :: 0 <= i < |ids| ==> var m := Batch(DeleteEntry(branch, ids))[i];
                                                               m.branch == branch && m.docId == ids[i] && m.op == Delete
    ensures Batch(ForkEntry(source, target)) == []
  {
    SameBranch(UpsertEntry(branch, docs), branch);
    SameBranch(DeleteEntry(branch, ids), branch);
    assert ForkEntry(source, target)[..0] == [];
  }

  /** The loop of Upsert: the entry is well shaped, and what it means to the flusher is one put per document, in order;
      nothing if the branch has no name. */
  method FillUpsert(branch: string, docs: seq<Document>) returns (records: Entry)
    ensures records == UpsertEntry(branch, docs) && WellShaped(records)
    ensures branch == "" || docs == [] <==> Batch(records) == []
    ensures branch != "" ==> |Batch(records)| == |docs| && (docs != [] ==> BatchBranch(records) == branch)
    ensures forall i :: 0 <= i < |Batch(records)| ==>
                          var m := Batch(records)[i];
                          m.branch == branch && m.docId == docs[i].id && m.op == Put && m.payload == docs[i]
  {
    records := [];
    for i := 0 to |docs|
      invariant records == UpsertEntry(branch, docs)[..i]
    {
      records := records + [MutationRecord(Mutation(branch, docs[i].id, Put, docs[i]))];
    }
    IngesterEntries(branch, docs, [], "", "");
    SameBranch(records, branch);
  }

  /** The loop of Delete: one deletion per id, likewise. */
  method FillDelete(branch: string, ids: seq<string>) returns (records: Entry)
    ensures records == DeleteEntry(branch, ids) && WellShaped(records)
    ensures branch == "" || ids == [] <==> Batch(records) == []
    ensures branch != "" ==> |Batch(records)| == |ids| && (ids != [] ==> BatchBranch(records) == branch)
    ensures forall i :: 0 <= i < |Batch(records)| ==>
                          var m := Batch(records)[i]; m.branch == branch && m.docId == ids[i] && m.op == Delete
  {
    records := [];
    for i := 0 to |ids|
      invariant records == DeleteEntry(branch, ids)[..i]
    {
      records := records + [MutationRecord(Mutation(branch, ids[i], Delete, Document("", map[], map[])))];
    }
    IngesterEntries(branch, [], ids, "", "");
    SameBranch(records, branch);
  }

  // ---- processRecords: what the flusher collects from an entry

  /** In-memory checkpoints by branch. */
  type Checkpoints = map<string, nat>

  /** An entry with mutations for two branches is an error; otherwise the branch and the mutations to flush, and the
      checkpoints after its fork events. */
  datatype Collected = TwoBranches | Collected(branch: string, mutations: seq<Mutation>, checkpoints: Checkpoints)

  predicate Skips(checkpoints: Checkpoints, branch: string, seqNo: nat) {
    branch in checkpoints && seqNo <= checkpoints[branch]
  }

  /** One turn of the loop over the records of entry seqNo. */
  function CollectRecord(c: Collected, r: WalRecord, seqNo: nat): Collected
    requires c.Collected?
  {
    match r
    case BranchEvent(eventType, branch, _) =>
      if eventType == Fork && !Skips(c.checkpoints, branch, seqNo)
      then c.(checkpoints := c.checkpoints[branch := seqNo])
      else c
    case Blank => c
    case MutationRecord(m) =>
      if m.branch == "" then c
      else if c.branch != "" && m.branch != c.branch then TwoBranches
      else if Skips(c.checkpoints, m.branch, seqNo) then c.(branch := m.branch)
      else c.(branch := m.branch, mutations := c.mutations + [m])
  }

  function Collect(e: Entry, checkpoints: Checkpoints, seqNo: nat): Collected {
    if e == [] then Collected("", [], checkpoints)
    else
      var c := Collect(e[..|e| - 1], checkpoints, seqNo);
      if c.TwoBranches? then c else CollectRecord(c, e[|e| - 1], seqNo)
  }

  /** The loop of processRecords. */
  method CollectMutations(e: Entry, checkpoints: Checkpoints, seqNo: nat) returns (c: Collected)
    ensures c == Collect(e, checkpoints, seqNo)
  {
    var branch, mutations, memory := "", [], checkpoints;
    for i := 0 to |e|
      invariant Collect(e[..i], checkpoints, seqNo) == Collected(branch, mutations, memory)
    {
      assert e[..i + 1][..i] == e[..i];
      match e[i] {
        case BranchEvent(eventType, b, _) =>
          if eventType == Fork && !(b in memory && seqNo <= memory[b]) {
            memory := memory[b := seqNo];
          }
        case Blank =>
        case MutationRecord(m) =>
          if m.branch != "" {
            if branch != "" && m.branch != branch {
              CollectStaysFailed(e, i + 1, checkpoints, seqNo);
              return TwoBranches;
            }
            branch := m.branch;
            if !(m.branch in memory && seqNo <= memory[m.branch]) {
              mutations := mutations + [m];
            }
          }
      }
    }
    assert e[..|e|] == e;
    c := Collected(branch, mutations, memory);
  }

  lemma {:induction false} CollectStaysFailed(e: Entry, i: nat, checkpoints: Checkpoints, seqNo: nat)
    requires i <= |e| && Collect(e[..i], checkpoints, seqNo).TwoBranches?
    ensures Collect(e, checkpoints, seqNo).TwoBranches?
    decreases |e| - i
  {
    if i == |e| {
      assert e[..i] == e;
    } else {
      assert e[..i + 1][..i] == e[..i];
      CollectStaysFailed(e, i + 1, checkpoints, seqNo);
    }
  }

  /** All effective mutations of the entry are on one branch. */
  ghost predicate SingleBranch(e: Entry) {
    forall i :: 0 <= i < |e| && Effective(e[i]) ==> e[i].mutation.branch == BatchBranch(e)
  }

  /** All effective mutations are on branch b. */
  ghost predicate OnlyOn(e: Entry, b: string) {
    forall i :: 0 <= i < |e| && Effective(e[i]) ==> e[i].mutation.branch == b
  }

  /** One of the first i records forks branch b. */
  ghost predicate ForkedBefore(e: Entry, i: nat, b: string)
    requires i <= |e|
  {
    exists k :: 0 <= k < i && IsFork(e[k], b)
  }

  /** The flusher leaves out no mutation: none is covered by the checkpoint, and none follows a fork of the branch. */
  ghost predicate AllKept(e: Entry, b: string, covered: bool) {
    forall j :: 0 <= j < |e| && Effective(e[j]) ==> !covered && !ForkedBefore(e, j, b)
  }

  lemma PrefixStep(e: Entry, i: nat, checkpoints: Checkpoints, seqNo: nat)
    requires i < |e|
    ensures Batch(e[..i + 1]) == Batch(e[..i]) + (if Effective(e[i]) then [e[i].mutation] else [])
    ensures BatchBranch(e[..i + 1]) == (if Effective(e[i]) then e[i].mutation.branch else BatchBranch(e[..i]))
    ensures var c := Collect(e[..i], checkpoints, seqNo);
            Collect(e[..i + 1], checkpoints, seqNo) == if c.TwoBranches? then c else CollectRecord(c, e[i], seqNo)
  {
    assert e[..i + 1][..i] == e[..i];
  }

  /** A checkpoint that an entry changes is set to that entry. */
  lemma {:induction false} CollectValues(e: Entry, i: nat, checkpoints: Checkpoints, seqNo: nat)
    requires i <= |e|
    ensures var c := Collect(e[..i], checkpoints, seqNo);
            c.Collected? ==>
              forall b :: b in c.checkpoints ==>
                c.checkpoints[b] == seqNo || (b in checkpoints && c.checkpoints[b] == checkpoints[b])
  {
    if i == 0 {
      assert e[..0] == [];
    } else {
      CollectValues(e, i - 1, checkpoints, seqNo);
      PrefixStep(e, i - 1, checkpoints, seqNo);
    }
  }

  /** Some record forks branch b. */
  ghost predicate Forks(e: Entry, b: string) {
    exists k :: 0 <= k < |e| && IsFork(e[k], b)
  }

  /** Exactly the branches that an entry forks are marked with its number, unless they were at or past it already. */
  lemma {:induction false} CollectMarksForks(e: Entry, checkpoints: Checkpoints, seqNo: nat, b: string)
    requires Collect(e, checkpoints, seqNo).Collected?
    ensures var c := Collect(e, checkpoints, seqNo).checkpoints;
            if Forks(e, b) && !(b in checkpoints && seqNo <= checkpoints[b]) then b in c && c[b] == seqNo
            else (b in c <==> b in checkpoints) && (b in c ==> c[b] == checkpoints[b])
  {
    if e != [] {
      var n := |e| - 1;
      CollectMarksForks(e[..n], checkpoints, seqNo, b);
      assert Forks(e, b) <==> Forks(e[..n], b) || IsFork(e[n], b) by {
        assert forall k :: 0 <= k < n ==> e[..n][k] == e[k];
      }
    }
  }

  /** Two effective mutations of the entry are on different branches. */
  ghost predicate MixesBranches(e: Entry) {
    exists i, j :: 0 <= i < j < |e| && Effective(e[i]) && Effective(e[j])
                   && e[i].mutation.branch != e[j].mutation.branch
  }

  /** An entry is refused exactly when it mixes branches; otherwise its branch is that of its mutations, if any. */
  lemma {:induction false} RefusedIffMixed(e: Entry, checkpoints: Checkpoints, seqNo: nat)
    ensures var c := Collect(e, checkpoints, seqNo);
            && (c.TwoBranches? <==> MixesBranches(e))
            && (c.Collected? ==>
                  && (forall i :: 0 <= i < |e| && Effective(e[i]) ==> e[i].mutation.branch == c.branch)
                  && (c.branch != "" ==> exists i :: 0 <= i < |e| && Effective(e[i])))
  {
    if e != [] {
      var n := |e| - 1;
      RefusedIffMixed(e[..n], checkpoints, seqNo);
      var c := Collect(e[..n], checkpoints, seqNo);
      assert forall i :: 0 <= i < n ==> e[..n][i] == e[i];
      if c.TwoBranches? {
        var i, j :| 0 <= i < j < n && Effective(e[..n][i]) && Effective(e[..n][j])
                    && e[..n][i].mutation.branch != e[..n][j].mutation.branch;
        assert e[i].mutation.branch != e[j].mutation.branch;
      } else if Effective(e[n]) && c.branch != "" && c.branch != e[n].mutation.branch {
        var i :| 0 <= i < n && Effective(e[..n][i]);
        assert e[i].mutation.branch != e[n].mutation.branch;
      } else if c.branch != "" {
        var i :| 0 <= i < n && Effective(e[..n][i]);
        assert Effective(e[i]);
      }
    }
  }

  /** What the flusher makes of a fork's announcement: nothing to flush, and the target, not the source, is marked. */
  lemma ForkMarksTarget(source: string, target: string, checkpoints: Checkpoints, seqNo: nat)
    ensures Collect(ForkEntry(source, target), checkpoints, seqNo)
            == Collected("", [], if target in checkpoints && seqNo <= checkpoints[target] then checkpoints
                                 else checkpoints[target := seqNo])
  {
    assert ForkEntry(source, target)[..0] == [];
  }

  lemma RecordStep(c: Collected, r: WalRecord, seqNo: nat, b: string)
    requires c.Collected? && c.branch in {"", b} && (Effective(r) ==> r.mutation.branch == b)
    ensures CollectRecord(c, r, seqNo).Collected?
    ensures CollectRecord(c, r, seqNo).branch == if Effective(r) then b else c.branch
    ensures CollectRecord(c, r, seqNo).mutations
            == c.mutations + if Effective(r) && !Skips(c.checkpoints, b, seqNo) then [r.mutation] else []
    ensures Skips(CollectRecord(c, r, seqNo).checkpoints, b, seqNo) <==> Skips(c.checkpoints, b, seqNo) || IsFork(r, b)
  {
  }

  lemma ForkedSnoc(e: Entry, init: Entry, r: WalRecord, b: string)
    requires e == init + [r]
    ensures ForkedBefore(e, |e|, b) <==> ForkedBefore(init, |init|, b) || IsFork(r, b)
  {
    assert e[|init|] == r && forall k :: 0 <= k < |init| ==> e[k] == init[k];
  }

  lemma KeptSnoc(e: Entry, init: Entry, r: WalRecord, b: string, covered: bool)
    requires e == init + [r]
    ensures AllKept(e, b, covered) <==>
            AllKept(init, b, covered) && (Effective(r) ==> !covered && !ForkedBefore(init, |init|, b))
  {
    assert e[|init|] == r && forall k :: 0 <= k < |init| ==> e[k] == init[k];
    forall j | 0 <= j <= |init| ensures ForkedBefore(e, j, b) <==> ForkedBefore(init, j, b) {}
  }

  /** What is collected is the batch when nothing is left out, shorter when something is, and nothing when covered. */
  ghost predicate KeptOk(collected: seq<Mutation>, batch: seq<Mutation>, all: bool, covered: bool) {
    && |collected| <= |batch| && (all ==> collected == batch) && (!all ==> |collected| < |batch|)
    && (covered ==> collected == [])
  }

  lemma KeptStep(collected: seq<Mutation>, batch: seq<Mutation>, all: bool, covered: bool, r: WalRecord, skips: bool)
    requires KeptOk(collected, batch, all, covered) && (covered ==> skips)
    ensures KeptOk(collected + if Effective(r) && !skips then [r.mutation] else [],
                   batch + if Effective(r) then [r.mutation] else [],
                   all && (Effective(r) ==> !skips), covered)
  {
  }

  /** After the records of an entry on one branch, that branch is skipped exactly when its checkpoint already covered
      the entry or a record forked it, and what is collected is what no skip left out. */
  ghost predicate CollectedOk(c: Collected, e: Entry, b: string, covered: bool, seqNo: nat) {
    && c.Collected? && c.branch == BatchBranch(e) && c.branch in {"", b}
    && (Skips(c.checkpoints, b, seqNo) <==> covered || ForkedBefore(e, |e|, b))
    && KeptOk(c.mutations, Batch(e), AllKept(e, b, covered), covered)
  }

  lemma CollectStep(c: Collected, e: Entry, init: Entry, r: WalRecord, b: string, covered: bool, seqNo: nat)
    requires CollectedOk(c, init, b, covered, seqNo) && e == init + [r] && (Effective(r) ==> r.mutation.branch == b)
    requires Batch(e) == Batch(init) + (if Effective(r) then [r.mutation] else [])
    requires BatchBranch(e) == if Effective(r) then r.mutation.branch else BatchBranch(init)
    ensures CollectedOk(CollectRecord(c, r, seqNo), e, b, covered, seqNo)
  {
    RecordStep(c, r, seqNo, b);
    ForkedSnoc(e, init, r, b);
    KeptSnoc(e, init, r, b, covered);
    KeptStep(c.mutations, Batch(init), AllKept(init, b, covered), covered, r, Skips(c.checkpoints, b, seqNo));
  }

  lemma {:induction false} CollectIsOk(e: Entry, b: string, checkpoints: Checkpoints, seqNo: nat)
    requires OnlyOn(e, b)
    ensures CollectedOk(Collect(e, checkpoints, seqNo), e, b, Skips(checkpoints, b, seqNo), seqNo)
  {
    if e != [] {
      var init, r := e[..|e| - 1], e[|e| - 1];
      CollectIsOk(init, b, checkpoints, seqNo);
      CollectStep(Collect(init, checkpoints, seqNo), e, init, r, b, Skips(checkpoints, b, seqNo), seqNo);
    }
  }

  lemma {:induction false} NoBatch(e: Entry)
    requires BatchBranch(e) == ""
    ensures Batch(e) == []
  {
    if e != [] { NoBatch(e[..|e| - 1]); }
  }

  /** From a well-shaped entry the flusher collects the whole batch or, when its checkpoint for that branch covers the
      entry, nothing; and a checkpoint it changes is set to this entry. */
  lemma CollectWellShaped(e: Entry, checkpoints: Checkpoints, seqNo: nat)
    requires WellShaped(e)
    ensures var c := Collect(e, checkpoints, seqNo);
            && c.Collected? && c.branch == BatchBranch(e)
            && c.mutations == (if Skips(checkpoints, BatchBranch(e), seqNo) then [] else Batch(e))
            && (forall b :: b in c.checkpoints ==>
                  c.checkpoints[b] == seqNo || (b in checkpoints && c.checkpoints[b] == checkpoints[b]))
            && (BatchBranch(e) != "" && Skips(c.checkpoints, BatchBranch(e), seqNo)
                ==> Skips(checkpoints, BatchBranch(e), seqNo))
  {
    CollectIsOk(e, BatchBranch(e), checkpoints, seqNo);
    CollectValues(e, |e|, checkpoints, seqNo);
    assert e[..|e|] == e;
    if BatchBranch(e) == "" { NoBatch(e); }
  }

  /** Without the shape condition mutations can be lost: an entry that forks its own branch and then changes it. */
  lemma ForkThenMutationIsSkipped(m: Mutation, seqNo: nat)
    requires m.branch != ""
    ensures var e := [BranchEvent(Fork, m.branch, "main"), MutationRecord(m)];
            && Batch(e) == [m]
            && Collect(e, map[], seqNo) == Collected(m.branch, [], map[m.branch := seqNo])
  {
    var e := [BranchEvent(Fork, m.branch, "main"), MutationRecord(m)];
    assert e[..1] == [e[0]] && [e[0]][..0] == [];
    assert Batch([e[0]]) == [];
    assert Collect([e[0]], map[], seqNo) == Collected("", [], map[m.branch := seqNo]);
  }

  /** Exactly when a single-branch entry is collected whole: the checkpoint must not cover it, and no record may fork
      the branch before one of its mutations. */
  lemma CollectsWholeBatch(e: Entry, checkpoints: Checkpoints, seqNo: nat)
    requires SingleBranch(e)
    ensures Collect(e, checkpoints, seqNo).Collected?
    ensures Collect(e, checkpoints, seqNo).mutations == Batch(e) <==>
            (forall i :: 0 <= i < |e| && Effective(e[i]) ==>
               !Skips(checkpoints, BatchBranch(e), seqNo) && forall k :: 0 <= k < i ==> !IsFork(e[k], BatchBranch(e)))
  {
    CollectIsOk(e, BatchBranch(e), checkpoints, seqNo);
  }
}
