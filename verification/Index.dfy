/** The logical index that a table of documents implements: a map of documents and the dimension of each vector column,
    changed by mutations. */
module Index {
  import opened Options
  import opened Mutations

  /** The bits of one stored vector component, 32 or 16 wide. */
  type Word = int

  /** The numeric parts, as functions: the storage codec (which refuses values it cannot hold), decoding, the inverse
      norm (0 for the zero vector) and the kernels of a query against a stored vector. */
  datatype Kernels = Kernels(
    encode: seq<real> -> Option<seq<Word>>,
    decode: seq<Word> -> seq<real>,
    invNorm: seq<real> -> real,
    dot: (seq<real>, seq<Word>) -> real,
    l2: (seq<real>, seq<Word>) -> real)

  ghost predicate KernelsOk(k: Kernels) {
    forall v :: k.encode(v).Some? ==> |k.encode(v).value| == |v|
  }

  /** A stored vector with its precomputed inverse norm. */
  datatype Vector = Vector(words: seq<Word>, invNorm: real)

  /** A stored document. */
  datatype Doc = Doc(vectors: map<string, Vector>, attributes: map<string, Attribute>)

  datatype Index = Index(docs: map<string, Doc>, dims: map<string, nat>)

  const EMPTY := Index(map[], map[])

  /** The vectors of a put that are stored: empty ones are ignored. */
  function Stored(vectors: map<string, seq<real>>): set<string> {
    set c | c in vectors && vectors[c] != []
  }

  function Dim(dims: map<string, nat>, column: string): Option<nat> {
    if column in dims then Some(dims[column]) else None
  }

  /** A vector that a column of this dimension, or a new column, can store. */
  predicate Storable(k: Kernels, dim: Option<nat>, v: seq<real>) {
    (dim.Some? ==> |v| == dim.value) && k.encode(v).Some?
  }

  /** Every stored vector has its column's dimension, if the column exists, and can be encoded. */
  predicate Accepts(k: Kernels, dims: map<string, nat>, vectors: map<string, seq<real>>) {
    forall c :: c in Stored(vectors) ==> Storable(k, Dim(dims, c), vectors[c])
  }

  function Staged(k: Kernels, vectors: map<string, seq<real>>): (s: map<string, Vector>)
    requires forall c :: c in Stored(vectors) ==> k.encode(vectors[c]).Some?
  {
    map c | c in Stored(vectors) :: Vector(k.encode(vectors[c]).value, k.invNorm(vectors[c]))
  }

  function StagedDims(vectors: map<string, seq<real>>): map<string, nat> {
    map c | c in Stored(vectors) :: |vectors[c]|
  }

  /** The later document's columns over the earlier one's. */
  function Merge(d: Doc, e: Doc): Doc {
    Doc(d.vectors + e.vectors, d.attributes + e.attributes)
  }

  const NO_DOC := Doc(map[], map[])

  function Lookup(docs: map<string, Doc>, id: string): Doc {
    if id in docs then docs[id] else NO_DOC
  }

  predicate PutAllowed(k: Kernels, x: Index, d: Document) {
    d.id != "" && Accepts(k, x.dims, d.vectors)
  }

  /** A put merges into a live document, column by column, and starts a new one otherwise. */
  function PutDoc(k: Kernels, x: Index, d: Document): Index
    requires PutAllowed(k, x, d)
  {
    Index(x.docs[d.id := Merge(Lookup(x.docs, d.id), Doc(Staged(k, d.vectors), d.attributes))],
          x.dims + StagedDims(d.vectors))
  }

  function DeleteDoc(x: Index, id: string): Index {
    x.(docs := x.docs - {id})
  }

  /** Applying one mutation of a segment; a mutation that cannot be applied is an error. */
  function Apply(k: Kernels, x: Index, m: Mutation): Option<Index> {
    match m.op
    case Put => if PutAllowed(k, x, m.payload) then Some(PutDoc(k, x, m.payload)) else None
    case Delete => Some(DeleteDoc(x, m.docId))
    case Unspecified => None
  }

  // ---- What one mutation means

  /** The put stores a vector in column c. */
  predicate PutsVector(d: Document, c: string) {
    c in d.vectors && d.vectors[c] != []
  }

  /** y is x after a put of d: the document holds each non-empty vector encoded, with its norm, and each attribute; what
      it held in other columns it keeps if it was live; no other document changes; and a new column has the dimension of
      its first vector. */
  ghost predicate IsPut(k: Kernels, x: Index, d: Document, y: Index) {
    && d.id in y.docs
    && (forall id :: id != d.id ==> (id in y.docs <==> id in x.docs) && (id in x.docs ==> y.docs[id] == x.docs[id]))
    && (forall c :: PutsVector(d, c) ==>
          && k.encode(d.vectors[c]).Some? && c in y.docs[d.id].vectors
          && y.docs[d.id].vectors[c] == Vector(k.encode(d.vectors[c]).value, k.invNorm(d.vectors[c])))
    && (forall c :: !PutsVector(d, c) ==>
          && (c in y.docs[d.id].vectors <==> d.id in x.docs && c in x.docs[d.id].vectors)
          && (c in y.docs[d.id].vectors ==> y.docs[d.id].vectors[c] == x.docs[d.id].vectors[c]))
    && (forall a :: a in d.attributes ==>
          a in y.docs[d.id].attributes && y.docs[d.id].attributes[a] == d.attributes[a])
    && (forall a :: a !in d.attributes ==>
          && (a in y.docs[d.id].attributes <==> d.id in x.docs && a in x.docs[d.id].attributes)
          && (a in y.docs[d.id].attributes ==> y.docs[d.id].attributes[a] == x.docs[d.id].attributes[a]))
    && (forall c :: c in y.dims <==> c in x.dims || PutsVector(d, c))
    && (forall c :: c in y.dims ==> y.dims[c] == if PutsVector(d, c) then |d.vectors[c]| else x.dims[c])
  }

  /** y is x without the document. */
  ghost predicate IsDelete(x: Index, id: string, y: Index) {
    && id !in y.docs && y.dims == x.dims
    && (forall i :: i != id ==> (i in y.docs <==> i in x.docs) && (i in x.docs ==> y.docs[i] == x.docs[i]))
  }

  /** When a put is allowed. */
  ghost predicate CanPut(k: Kernels, x: Index, d: Document) {
    && d.id != ""
    && forall c :: PutsVector(d, c) ==> k.encode(d.vectors[c]).Some? && (c in x.dims ==> |d.vectors[c]| == x.dims[c])
  }

  lemma PutAllowedIff(k: Kernels, x: Index, d: Document)
    ensures PutAllowed(k, x, d) <==> CanPut(k, x, d)
  {
    if CanPut(k, x, d) {
      forall c | c in Stored(d.vectors) ensures Storable(k, Dim(x.dims, c), d.vectors[c]) { assert PutsVector(d, c); }
    }
    if PutAllowed(k, x, d) {
      forall c | PutsVector(d, c) ensures Storable(k, Dim(x.dims, c), d.vectors[c]) { assert c in Stored(d.vectors); }
    }
  }

  lemma PutMeans(k: Kernels, x: Index, d: Document)
    requires PutAllowed(k, x, d)
    ensures IsPut(k, x, d, PutDoc(k, x, d))
  {
    assert forall c :: c in Stored(d.vectors) <==> PutsVector(d, c);
    forall c | PutsVector(d, c) ensures Storable(k, Dim(x.dims, c), d.vectors[c]) { assert c in Stored(d.vectors); }
  }

  lemma DeleteMeans(x: Index, id: string)
    ensures IsDelete(x, id, DeleteDoc(x, id))
  {
  }

  /** Exactly when a mutation can be applied, and everything that it changes. */
  lemma ApplyMeans(k: Kernels, x: Index, m: Mutation)
    ensures Apply(k, x, m).Some? <==> m.op == Delete || (m.op == Put && CanPut(k, x, m.payload))
    ensures Apply(k, x, m).Some? && m.op == Put ==> IsPut(k, x, m.payload, Apply(k, x, m).value)
    ensures Apply(k, x, m).Some? && m.op == Delete ==> IsDelete(x, m.docId, Apply(k, x, m).value)
  {
    hide PutAllowed, PutDoc, DeleteDoc, IsPut, IsDelete, CanPut;
    PutAllowedIff(k, x, m.payload);
    if m.op == Put && PutAllowed(k, x, m.payload) { PutMeans(k, x, m.payload); }
    DeleteMeans(x, m.docId);
  }

  /** Applying a list of mutations in order, up to the first error. */
  function ApplyAll(k: Kernels, x: Index, ms: seq<Mutation>): Option<Index> {
    if ms == [] then Some(x)
    else
      var y := ApplyAll(k, x, ms[..|ms| - 1]);
      if y.None? then None else Apply(k, y.value, ms[|ms| - 1])
  }

  lemma ApplyAllSnoc(k: Kernels, x: Index, ms: seq<Mutation>, m: Mutation)
    ensures ApplyAll(k, x, ms + [m]) == if ApplyAll(k, x, ms).None? then None else Apply(k, ApplyAll(k, x, ms).value, m)
  {
    assert (ms + [m])[..|ms|] == ms;
  }

  lemma {:induction false} ApplyAllConcat(k: Kernels, x: Index, a: seq<Mutation>, b: seq<Mutation>)
    ensures ApplyAll(k, x, a + b)
            == if ApplyAll(k, x, a).None? then None else ApplyAll(k, ApplyAll(k, x, a).value, b)
  {
    if b == [] {
      assert a + b == a;
    } else {
      assert (a + b)[..|a + b| - 1] == a + b[..|b| - 1];
      ApplyAllConcat(k, x, a, b[..|b| - 1]);
    }
  }

  // ---- What a list of mutations does to one document

  /** What it does: lay columns over whatever was there, or decide the outcome regardless of what was there. */
  datatype Effect = Over(delta: Option<Doc>) | Fixed(doc: Option<Doc>)

  function Then(e: Effect, m: Mutation, k: Kernels, id: string): Effect
    requires m.op == Put ==> forall c :: c in Stored(m.payload.vectors) ==> k.encode(m.payload.vectors[c]).Some?
  {
    match m.op
    case Put =>
      if m.payload.id != id then e
      else
        var d := Doc(Staged(k, m.payload.vectors), m.payload.attributes);
        (match e
         case Over(None) => Over(Some(d))
         case Over(Some(x)) => Over(Some(Merge(x, d)))
         case Fixed(None) => Fixed(Some(d))
         case Fixed(Some(x)) => Fixed(Some(Merge(x, d))))
    case Delete => if m.docId == id then Fixed(None) else e
    case Unspecified => e
  }

  ghost predicate Encodable(k: Kernels, ms: seq<Mutation>) {
    forall i :: 0 <= i < |ms| && ms[i].op == Put ==>
      forall c :: c in Stored(ms[i].payload.vectors) ==> k.encode(ms[i].payload.vectors[c]).Some?
  }

  function EffectOf(k: Kernels, ms: seq<Mutation>, id: string): Effect
    requires Encodable(k, ms)
  {
    if ms == [] then Over(None) else Then(EffectOf(k, ms[..|ms| - 1], id), ms[|ms| - 1], k, id)
  }

  function Get(docs: map<string, Doc>, id: string): Option<Doc> {
    if id in docs then Some(docs[id]) else None
  }

  function Perform(e: Effect, before: Option<Doc>): Option<Doc> {
    match e
    case Over(None) => before
    case Over(Some(d)) => Some(if before.Some? then Merge(before.value, d) else d)
    case Fixed(doc) => doc
  }

  /** The dimension that a list of mutations gives a column, if it stores a vector there. */
  function DimGiven(ms: seq<Mutation>, c: string): Option<nat> {
    if ms == [] then None
    else
      var m := ms[|ms| - 1];
      if m.op == Put && c in Stored(m.payload.vectors) then Some(|m.payload.vectors[c]|)
      else DimGiven(ms[..|ms| - 1], c)
  }

  function DimAfter(dims: map<string, nat>, ms: seq<Mutation>, c: string): Option<nat> {
    if DimGiven(ms, c).Some? then DimGiven(ms, c) else Dim(dims, c)
  }

  /** A mutation that can be applied after `earlier`, given the dimensions fixed before that. */
  ghost predicate ApplicableAfter(k: Kernels, dims: map<string, nat>, earlier: seq<Mutation>, m: Mutation) {
    match m.op
    case Put => m.payload.id != ""
                && forall c :: c in Stored(m.payload.vectors) ==>
                     Storable(k, DimAfter(dims, earlier, c), m.payload.vectors[c])
    case Delete => true
    case Unspecified => false
  }

  ghost predicate Applicable(k: Kernels, dims: map<string, nat>, ms: seq<Mutation>) {
    forall i :: 0 <= i < |ms| ==> ApplicableAfter(k, dims, ms[..i], ms[i])
  }

  lemma ApplicableIsEncodable(k: Kernels, dims: map<string, nat>, ms: seq<Mutation>)
    requires Applicable(k, dims, ms)
    ensures Encodable(k, ms)
  {
    forall i | 0 <= i < |ms| && ms[i].op == Put
      ensures forall c :: c in Stored(ms[i].payload.vectors) ==> k.encode(ms[i].payload.vectors[c]).Some?
    {
      assert ApplicableAfter(k, dims, ms[..i], ms[i]);
    }
  }

  lemma MergeAssociative(a: Doc, b: Doc, c: Doc)
    ensures Merge(Merge(a, b), c) == Merge(a, Merge(b, c))
  {
    assert a.vectors + b.vectors + c.vectors == a.vectors + (b.vectors + c.vectors);
    assert a.attributes + b.attributes + c.attributes == a.attributes + (b.attributes + c.attributes);
  }

  lemma MergeWithNothing(d: Doc)
    ensures Merge(NO_DOC, d) == d
  {
    assert map[] + d.vectors == d.vectors && map[] + d.attributes == d.attributes;
  }

  /** What one mutation does to one document. */
  function One(k: Kernels, m: Mutation, id: string, before: Option<Doc>): Option<Doc>
    requires m.op == Put ==> forall c :: c in Stored(m.payload.vectors) ==> k.encode(m.payload.vectors[c]).Some?
  {
    match m.op
    case Put =>
      if m.payload.id != id then before
      else
        var d := Doc(Staged(k, m.payload.vectors), m.payload.attributes);
        Some(if before.Some? then Merge(before.value, d) else d)
    case Delete => if m.docId == id then None else before
    case Unspecified => before
  }

  lemma ThenIsOne(k: Kernels, e: Effect, m: Mutation, id: string, before: Option<Doc>)
    requires m.op == Put ==> forall c :: c in Stored(m.payload.vectors) ==> k.encode(m.payload.vectors[c]).Some?
    ensures Perform(Then(e, m, k, id), before) == One(k, m, id, Perform(e, before))
  {
    if m.op == Put && m.payload.id == id && e.Over? && e.delta.Some? && before.Some? {
      MergeAssociative(before.value, e.delta.value, Doc(Staged(k, m.payload.vectors), m.payload.attributes));
    }
  }

  lemma ApplyIsOne(k: Kernels, x: Index, m: Mutation, id: string)
    requires Apply(k, x, m).Some?
    ensures Get(Apply(k, x, m).value.docs, id) == One(k, m, id, Get(x.docs, id))
  {
    if m.op == Put { MergeWithNothing(Doc(Staged(k, m.payload.vectors), m.payload.attributes)); }
  }

  lemma ApplyDim(k: Kernels, x: Index, m: Mutation, c: string)
    requires Apply(k, x, m).Some?
    ensures Dim(Apply(k, x, m).value.dims, c)
            == if m.op == Put && c in Stored(m.payload.vectors) then Some(|m.payload.vectors[c]|) else Dim(x.dims, c)
  {
  }

  lemma ApplySucceeds(k: Kernels, dims: map<string, nat>, earlier: seq<Mutation>, x: Index, m: Mutation)
    requires forall c :: Dim(x.dims, c) == DimAfter(dims, earlier, c)
    ensures Apply(k, x, m).Some? <==> ApplicableAfter(k, dims, earlier, m)
  {
    if m.op == Put {
      assert Accepts(k, x.dims, m.payload.vectors) <==>
             forall c :: c in Stored(m.payload.vectors) ==>
               Storable(k, DimAfter(dims, earlier, c), m.payload.vectors[c]);
    }
  }

  lemma ApplicableSnoc(k: Kernels, dims: map<string, nat>, ms: seq<Mutation>)
    requires ms != []
    ensures Applicable(k, dims, ms) <==>
            Applicable(k, dims, ms[..|ms| - 1]) && ApplicableAfter(k, dims, ms[..|ms| - 1], ms[|ms| - 1])
  {
    var n := |ms| - 1;
    assert forall i :: 0 <= i <= n ==> ms[..n][..i] == ms[..i];
  }

  /** Replaying a list succeeds exactly when each mutation is applicable, and fixes dimensions and changes documents one
      by one. */
  lemma {:induction false} ApplyAllDims(k: Kernels, x: Index, ms: seq<Mutation>)
    ensures ApplyAll(k, x, ms).Some? <==> Applicable(k, x.dims, ms)
    ensures ApplyAll(k, x, ms).Some? ==> forall c :: Dim(ApplyAll(k, x, ms).value.dims, c) == DimAfter(x.dims, ms, c)
  {
    if ms != [] {
      var n := |ms| - 1;
      var init, m := ms[..n], ms[n];
      ApplyAllDims(k, x, init);
      ApplicableSnoc(k, x.dims, ms);
      if ApplyAll(k, x, init).Some? {
        var y := ApplyAll(k, x, init).value;
        ApplySucceeds(k, x.dims, init, y, m);
        if Apply(k, y, m).Some? {
          forall c ensures Dim(Apply(k, y, m).value.dims, c) == DimAfter(x.dims, ms, c) { ApplyDim(k, y, m, c); }
        }
      }
    }
  }

  /** Replaying a list is its effect on every document. */
  lemma {:induction false} ApplyAllIsEffect(k: Kernels, x: Index, ms: seq<Mutation>, id: string)
    requires ApplyAll(k, x, ms).Some?
    ensures Encodable(k, ms)
    ensures Get(ApplyAll(k, x, ms).value.docs, id) == Perform(EffectOf(k, ms, id), Get(x.docs, id))
  {
    ApplyAllDims(k, x, ms);
    ApplicableIsEncodable(k, x.dims, ms);
    if ms != [] {
      var n := |ms| - 1;
      var init, m := ms[..n], ms[n];
      ApplyAllIsEffect(k, x, init, id);
      ApplyIsOne(k, ApplyAll(k, x, init).value, m, id);
      ThenIsOne(k, EffectOf(k, init, id), m, id, Get(x.docs, id));
    }
  }

  // ---- Replaying a prefix first changes nothing

  lemma {:induction false} DimGivenConcat(a: seq<Mutation>, b: seq<Mutation>, c: string)
    ensures DimGiven(a + b, c) == if DimGiven(b, c).Some? then DimGiven(b, c) else DimGiven(a, c)
  {
    if b == [] {
      assert a + b == a;
    } else {
      assert (a + b)[..|a + b| - 1] == a + b[..|b| - 1];
      DimGivenConcat(a, b[..|b| - 1], c);
    }
  }

  /** Applicable mutations never change a dimension once it is fixed. */
  lemma {:induction false} DimFixed(k: Kernels, dims: map<string, nat>, ms: seq<Mutation>, i: nat, c: string)
    requires Applicable(k, dims, ms) && i <= |ms|
    requires DimAfter(dims, ms[..i], c).Some?
    ensures DimAfter(dims, ms, c) == DimAfter(dims, ms[..i], c)
    decreases |ms|
  {
    if i == |ms| {
      assert ms[..i] == ms;
    } else {
      var n := |ms| - 1;
      ApplicableSnoc(k, dims, ms);
      assert ms[..n][..i] == ms[..i];
      DimFixed(k, dims, ms[..n], i, c);
    }
  }

  /** A put of an applicable list is accepted again after the whole list. */
  lemma AcceptedAgain(k: Kernels, dims: map<string, nat>, after: map<string, nat>, p: seq<Mutation>, i: nat)
    requires Applicable(k, dims, p) && i < |p|
    requires forall c :: Dim(after, c) == DimAfter(dims, p, c)
    ensures ApplicableAfter(k, dims, p[..i], p[i])
    ensures ApplicableAfter(k, after, p[..i], p[i])
  {
    if p[i].op == Put {
      forall c | c in Stored(p[i].payload.vectors)
        ensures Storable(k, DimAfter(after, p[..i], c), p[i].payload.vectors[c])
      {
        assert p[..i + 1][..i] == p[..i];
        assert DimGiven(p[..i + 1], c) == Some(|p[i].payload.vectors[c]|);
        DimFixed(k, dims, p, i + 1, c);
        if DimAfter(dims, p[..i], c).Some? { DimFixed(k, dims, p, i, c); }
      }
    }
  }

  /** With the dimensions of a prefix fixed beforehand, exactly the same lists are applicable. */
  lemma PrefixDimsApplicable(k: Kernels, dims: map<string, nat>, after: map<string, nat>, p: seq<Mutation>,
                             q: seq<Mutation>)
    requires Applicable(k, dims, p)
    requires forall c :: Dim(after, c) == DimAfter(dims, p, c)
    ensures Applicable(k, after, p + q) <==> Applicable(k, dims, p + q)
    ensures forall c :: DimAfter(after, p + q, c) == DimAfter(dims, p + q, c)
  {
    var ms := p + q;
    forall i, c | |p| <= i <= |ms| ensures DimAfter(after, ms[..i], c) == DimAfter(dims, ms[..i], c) {
      assert ms[..i] == p + q[..i - |p|];
      DimGivenConcat(p, q[..i - |p|], c);
    }
    assert ms[..|ms|] == ms;
    forall i | 0 <= i < |ms|
      ensures ApplicableAfter(k, after, ms[..i], ms[i]) <==> ApplicableAfter(k, dims, ms[..i], ms[i])
    {
      if i < |p| {
        assert ms[..i] == p[..i] && ms[i] == p[i];
        AcceptedAgain(k, dims, after, p, i);
      }
    }
  }

  /** Laying the same columns over a document twice is laying them once. */
  lemma PerformTwice(e: Effect, before: Option<Doc>)
    ensures Perform(e, Perform(e, before)) == Perform(e, before)
  {
    if e.Over? && e.delta.Some? {
      var d := e.delta.value;
      assert d.vectors + d.vectors == d.vectors && d.attributes + d.attributes == d.attributes;
      if before.Some? {
        MergeAssociative(before.value, d, d);
      }
    }
  }

  /** The effect of a list absorbs the effect of any of its prefixes performed first. */
  lemma {:induction false} EffectAbsorbsPrefix(k: Kernels, p: seq<Mutation>, q: seq<Mutation>, id: string,
                                               before: Option<Doc>)
    requires Encodable(k, p + q)
    ensures Encodable(k, p)
    ensures Perform(EffectOf(k, p + q, id), Perform(EffectOf(k, p, id), before))
            == Perform(EffectOf(k, p + q, id), before)
    decreases |q|
  {
    assert forall i :: 0 <= i < |p| ==> (p + q)[i] == p[i];
    if q == [] {
      assert p + q == p;
      PerformTwice(EffectOf(k, p, id), before);
    } else {
      var n := |q| - 1;
      var ms := p + q;
      assert ms[..|ms| - 1] == p + q[..n] && ms[|ms| - 1] == q[n];
      EffectAbsorbsPrefix(k, p, q[..n], id, before);
      var e := EffectOf(k, p + q[..n], id);
      ThenIsOne(k, e, q[n], id, before);
      ThenIsOne(k, e, q[n], id, Perform(EffectOf(k, p, id), before));
    }
  }

  /** Healing: replaying any part of a list and then the whole list succeeds exactly when replaying the list once does,
      and gives the same documents and dimensions. */
  lemma ReplayAfterPrefix(k: Kernels, x: Index, p: seq<Mutation>, q: seq<Mutation>)
    requires ApplyAll(k, x, p).Some?
    ensures ApplyAll(k, ApplyAll(k, x, p).value, p + q) == ApplyAll(k, x, p + q)
  {
    var xp := ApplyAll(k, x, p).value;
    ApplyAllDims(k, x, p);
    ApplyAllDims(k, x, p + q);
    ApplyAllDims(k, xp, p + q);
    PrefixDimsApplicable(k, x.dims, xp.dims, p, q);
    if ApplyAll(k, x, p + q).Some? {
      var y, z := ApplyAll(k, x, p + q).value, ApplyAll(k, xp, p + q).value;
      forall id ensures Get(y.docs, id) == Get(z.docs, id) {
        ApplyAllIsEffect(k, x, p, id);
        ApplyAllIsEffect(k, x, p + q, id);
        ApplyAllIsEffect(k, xp, p + q, id);
        EffectAbsorbsPrefix(k, p, q, id, Get(x.docs, id));
      }
      SameIndex(y, z);
    }
  }

  lemma SameIndex(y: Index, z: Index)
    requires forall id :: Get(y.docs, id) == Get(z.docs, id)
    requires forall c :: Dim(y.dims, c) == Dim(z.dims, c)
    ensures y == z
  {
    assert forall id :: id in y.docs <==> Get(y.docs, id).Some?;
    assert forall id :: id in z.docs <==> Get(z.docs, id).Some?;
    assert forall c :: c in y.dims <==> Dim(y.dims, c).Some?;
    assert forall c :: c in z.dims <==> Dim(z.dims, c).Some?;
    assert y.docs == z.docs;
    assert y.dims == z.dims;
  }

  // ---- When a replay changes nothing

  /** Every column of the one is in the other, with the same contents. */
  predicate Holds(d: Doc, e: Doc) {
    && (forall c :: c in e.vectors ==> c in d.vectors && d.vectors[c] == e.vectors[c])
    && (forall a :: a in e.attributes ==> a in d.attributes && d.attributes[a] == e.attributes[a])
  }

  /** A document that an effect leaves as it is: what is laid over it is there already, or it is what is decided. */
  predicate Unmoved(e: Effect, before: Option<Doc>) {
    match e
    case Over(None) => true
    case Over(Some(d)) => before.Some? && Holds(before.value, d)
    case Fixed(doc) => before == doc
  }

  /** A list that leaves every document as it is, and stores vectors only in columns of their dimension. */
  ghost predicate Idle(k: Kernels, x: Index, ms: seq<Mutation>)
    requires Encodable(k, ms)
  {
    && (forall id :: Unmoved(EffectOf(k, ms, id), Get(x.docs, id)))
    && (forall c :: DimGiven(ms, c).Some? ==> DimGiven(ms, c) == Dim(x.dims, c))
  }

  lemma MergeHeld(d: Doc, e: Doc)
    ensures Merge(d, e) == d <==> Holds(d, e)
  {
    var m := Merge(d, e);
    if Holds(d, e) {
      assert m.vectors == d.vectors;
      assert m.attributes == d.attributes;
    }
    if m == d {
      assert forall c :: c in e.vectors ==> c in m.vectors && m.vectors[c] == e.vectors[c];
      assert forall a :: a in e.attributes ==> a in m.attributes && m.attributes[a] == e.attributes[a];
    }
  }

  lemma PerformUnmoved(e: Effect, before: Option<Doc>)
    ensures Perform(e, before) == before <==> Unmoved(e, before)
  {
    if e.Over? && e.delta.Some? && before.Some? { MergeHeld(before.value, e.delta.value); }
  }

  /** A replay leaves the index as it was exactly when the list is idle there. */
  lemma ReplayIsIdle(k: Kernels, x: Index, ms: seq<Mutation>)
    requires ApplyAll(k, x, ms).Some?
    ensures Encodable(k, ms)
    ensures ApplyAll(k, x, ms) == Some(x) <==> Idle(k, x, ms)
  {
    hide ApplyAll, Perform, Unmoved, Encodable, EffectOf;
    var y := ApplyAll(k, x, ms).value;
    ApplyAllDims(k, x, ms);
    ApplicableIsEncodable(k, x.dims, ms);
    forall id
      ensures Get(y.docs, id) == Get(x.docs, id) <==> Unmoved(EffectOf(k, ms, id), Get(x.docs, id))
    {
      ApplyAllIsEffect(k, x, ms, id);
      PerformUnmoved(EffectOf(k, ms, id), Get(x.docs, id));
    }
    if Idle(k, x, ms) { SameIndex(y, x); }
  }
}
