/** Exact top-k search: what a search over the rows returns, and that it depends only on the logical index. */
module Search {
  import opened Options
  import opened Mutations
  import opened Index
  import opened Columns
  import opened TableRefinement
  import opened TopK
  import Lexicographic

  datatype Metric = Cosine | EuclideanSquared | DotProduct | UnknownMetric

  datatype Filter = Filter(field: string, value: Attribute)

  datatype Query = Query(column: string, vector: seq<real>, topK: int, metric: Metric, filter: Option<Filter>)

  datatype SearchError = DimensionMismatch | ZeroVector | BadMetric

  datatype Scored = Scored(id: string, doc: Doc, score: real)

  datatype Answer = Found(hits: seq<Scored>) | Refused(error: SearchError)

  /** A candidate during the scan. */
  datatype SearchHit = SearchHit(row: nat, id: string, score: real)

  // ---- The order

  /** cmpAsc, or cmpDesc for the dot product: by score, then by id. */
  predicate RanksBefore(metric: Metric, score: real, id: string, score': real, id': string) {
    if score != score' then (if metric == DotProduct then score > score' else score < score')
    else Lexicographic.Less(id, id')
  }

  function HitOrder(metric: Metric): Comparison<SearchHit> {
    (a: SearchHit, b: SearchHit) => RanksBefore(metric, a.score, a.id, b.score, b.id)
  }

  lemma HitOrderIsStrictWeak(metric: Metric)
    ensures StrictWeak(HitOrder(metric))
  {
    var before := HitOrder(metric);
    forall a ensures !before(a, a) { Lexicographic.Irreflexive(a.id); }
    forall a, b, c | before(a, b) && before(b, c) ensures before(a, c) {
      if a.score == b.score == c.score { Lexicographic.Transitive(a.id, b.id, c.id); }
    }
    forall a, b, c | !before(a, b) && !before(b, c) ensures !before(a, c) {
      if a.score == b.score == c.score && before(a, c) {
        Lexicographic.Total(a.id, b.id);
        Lexicographic.Total(b.id, c.id);
        Lexicographic.Asymmetric(a.id, c.id);
        if Lexicographic.Less(b.id, a.id) { Lexicographic.Transitive(b.id, a.id, c.id); }
      }
    }
  }

  /** A worse score alone decides. */
  predicate WorseScore(metric: Metric, a: SearchHit, b: SearchHit) {
    if metric == DotProduct then a.score < b.score else a.score > b.score
  }

  ghost predicate ScoreDecides(before: Comparison<SearchHit>, metric: Metric) {
    forall a, b :: WorseScore(metric, a, b) ==> !before(a, b)
  }

  // ---- Scores

  function Clamp(x: real): real {
    if x > 1.0 then 1.0 else if x < -1.0 then -1.0 else x
  }

  function Similarity(dot: real, invQ: real, invNorm: real): real {
    dot * invQ * invNorm
  }

  function Score(k: Kernels, q: Query, v: Vector): real {
    match q.metric
    case Cosine => 1.0 - Clamp(Similarity(k.dot(q.vector, v.words), k.invNorm(q.vector), v.invNorm))
    case EuclideanSquared => k.l2(q.vector, v.words)
    case DotProduct => k.dot(q.vector, v.words)
    case UnknownMetric => 0.0
  }

  /** A document that a query ranks: it has the vector, matches the filter and, under cosine, has a non-zero norm. */
  predicate Eligible(q: Query, d: Doc) {
    && q.column in d.vectors
    && (q.filter.Some? ==>
          && q.filter.value.field in d.attributes
          && d.attributes[q.filter.value.field] == q.filter.value.value)
    && (q.metric == Cosine ==> d.vectors[q.column].invNorm != 0.0)
  }

  // ---- Over the rows

  /** The hit of a row, if the query ranks its document. */
  function RowHit(k: Kernels, t: Rows, q: Query): nat -> Option<SearchHit>
    requires Ready(t)
  {
    (r: nat) =>
      if r < t.numRows && !t.tombstones[r] && Eligible(q, DocAt(t, r))
      then Some(SearchHit(r, t.docIDs[r], Score(k, q, DocAt(t, r).vectors[q.column])))
      else None
  }

  function Gather(hit: nat -> Option<SearchHit>, n: nat): seq<SearchHit> {
    if n == 0 then [] else Gather(hit, n - 1) + if hit(n - 1).Some? then [hit(n - 1).value] else []
  }

  /** The hits among the first n rows, in row order. */
  function HitsUpTo(k: Kernels, t: Rows, q: Query, n: nat): seq<SearchHit>
    requires Ready(t)
  {
    Gather(RowHit(k, t, q), n)
  }

  ghost predicate ByRow(hit: nat -> Option<SearchHit>) {
    forall r: nat :: hit(r).Some? ==> hit(r).value.row == r
  }

  /** The hits gathered are those of the rows that have one, in row order. */
  lemma {:induction false} GatherIsExact(hit: nat -> Option<SearchHit>, n: nat, s: seq<SearchHit>)
    requires ByRow(hit) && s == Gather(hit, n)
    ensures forall i :: 0 <= i < |s| ==> s[i].row < n && hit(s[i].row) == Some(s[i])
    ensures forall i, j :: 0 <= i < j < |s| ==> s[i].row < s[j].row
    ensures forall r :: 0 <= r < n && hit(r).Some? ==> hit(r).value in s
  {
    if n > 0 { GatherIsExact(hit, n - 1, Gather(hit, n - 1)); }
  }

  /** Each hit is a live row of the table with its document's id and score. */
  lemma HitsAreRows(k: Kernels, t: Rows, q: Query)
    requires Ready(t)
    ensures var s := HitsUpTo(k, t, q, t.numRows);
            && (forall i :: 0 <= i < |s| ==> s[i].row < t.numRows && HitOfRow(k, t, q, s[i]))
            && (forall i, j :: 0 <= i < j < |s| ==> s[i].row < s[j].row)
  {
    var hit := RowHit(k, t, q);
    var s := Gather(hit, t.numRows);
    GatherIsExact(hit, t.numRows, s);
  }

  predicate HitOfRow(k: Kernels, t: Rows, q: Query, h: SearchHit)
    requires Ready(t)
  {
    && h.row < t.numRows && h.id == t.docIDs[h.row] && !t.tombstones[h.row]
    && Eligible(q, DocAt(t, h.row)) && h.score == Score(k, q, DocAt(t, h.row).vectors[q.column])
  }

  function Materialize(t: Rows, hits: seq<SearchHit>): seq<Scored>
    requires Ready(t) && forall i :: 0 <= i < |hits| ==> hits[i].row < t.numRows
  {
    seq(|hits|, i requires 0 <= i < |hits| => Scored(hits[i].id, DocAt(t, hits[i].row), hits[i].score))
  }

  /** The checks of a search before it scans, given each column's dimension: an answer, or none yet. */
  function Checks(k: Kernels, dims: map<string, nat>, q: Query): Option<Answer> {
    if q.topK <= 0 then Some(Found([]))
    else if q.column !in dims then Some(Found([]))
    else if |q.vector| != dims[q.column] then Some(Refused(DimensionMismatch))
    else if q.metric == Cosine && k.invNorm(q.vector) == 0.0 then Some(Refused(ZeroVector))
    else if q.metric == UnknownMetric then Some(Refused(BadMetric))
    else None
  }

  lemma FirstKeepsRows(t: Rows, metric: Metric, s: seq<SearchHit>, k: nat)
    requires forall i :: 0 <= i < |s| ==> s[i].row < t.numRows
    ensures forall i :: 0 <= i < |First(HitOrder(metric), s, k)| ==> First(HitOrder(metric), s, k)[i].row < t.numRows
  {
    var before := HitOrder(metric);
    HitOrderIsStrictWeak(metric);
    SortIsSorted(before, s);
    forall i | 0 <= i < |First(before, s, k)| ensures First(before, s, k)[i].row < t.numRows {
      assert Sort(before, s)[i] in multiset(Sort(before, s));
      assert Sort(before, s)[i] in s;
    }
  }

  /** The answer of a search: the first topK of all hits, sorted by score and then id. */
  function SearchRows(k: Kernels, t: Rows, q: Query): Answer
    requires Ready(t)
  {
    var checked := Checks(k, Dims(t), q);
    if checked.Some? then checked.value
    else
      var hits := HitsUpTo(k, t, q, t.numRows);
      HitsAreRows(k, t, q);
      FirstKeepsRows(t, q.metric, hits, q.topK);
      Found(Materialize(t, First(HitOrder(q.metric), hits, q.topK)))
  }

  /** The hit of a row from its cells. */
  function HitAt(k: Kernels, q: Query, r: nat, id: string, deleted: bool, cell: Option<Vector>,
                 attr: Option<Attribute>): Option<SearchHit> {
    if deleted || cell.None? then None
    else if q.filter.Some? && attr != Some(q.filter.value.value) then None
    else if q.metric == Cosine && cell.value.invNorm == 0.0 then None
    else Some(SearchHit(r, id, Score(k, q, cell.value)))
  }

  function FilterField(q: Query): string {
    if q.filter.Some? then q.filter.value.field else ""
  }

  lemma RowHitFromCells(k: Kernels, t: Rows, q: Query, r: nat)
    requires Ready(t) && r < t.numRows
    ensures RowHit(k, t, q)(r)
            == HitAt(k, q, r, t.docIDs[r], t.tombstones[r], VecAt(t, q.column, r), AttrAt(t, FilterField(q), r))
  {
    DocAtLift(t, r);
    var d := DocAt(t, r);
    assert Lift(d.vectors, q.column) == VecAt(t, q.column, r);
    assert Lift(d.attributes, FilterField(q)) == AttrAt(t, FilterField(q), r);
  }

  /** `hits` gives the hit of every row. */
  ghost predicate HitsAre(k: Kernels, t: Rows, q: Query, hits: nat -> Option<SearchHit>)
    requires Ready(t)
  {
    forall r: nat {:trigger RowHit(k, t, q)(r)} :: hits(r) == RowHit(k, t, q)(r)
  }

  /** A filter on an attribute that no document has matches nothing. */
  lemma {:induction false} UnknownFieldMatchesNothing(k: Kernels, t: Rows, q: Query, n: nat)
    requires Ready(t) && n <= t.numRows && q.filter.Some? && q.filter.value.field !in t.attrs
    ensures HitsUpTo(k, t, q, n) == []
  {
    if n > 0 {
      UnknownFieldMatchesNothing(k, t, q, n - 1);
      RowHitFromCells(k, t, q, n - 1);
    }
  }

  /** The record that a document is returned as. */
  function Record(k: Kernels, id: string, d: Doc): Document {
    Document(id, map c | c in d.vectors :: k.decode(d.vectors[c].words), d.attributes)
  }

  /** `cells` and `attrCells` give the cells of a row. */
  ghost predicate CellsAre(t: Rows, r: nat, cells: string -> Option<Vector>)
    requires Ready(t) && r < t.numRows
  {
    forall c {:trigger VecAt(t, c, r)} :: cells(c) == VecAt(t, c, r)
  }

  ghost predicate AttrCellsAre(t: Rows, r: nat, cells: string -> Option<Attribute>)
    requires Ready(t) && r < t.numRows
  {
    forall k {:trigger AttrAt(t, k, r)} :: cells(k) == AttrAt(t, k, r)
  }

  lemma RecordFromCells(k: Kernels, t: Rows, r: nat, rec: Document, cells: string -> Option<Vector>,
                        attrCells: string -> Option<Attribute>)
    requires Ready(t) && r < t.numRows && CellsAre(t, r, cells) && AttrCellsAre(t, r, attrCells)
    requires forall c :: c in rec.vectors <==> c in t.vectors && cells(c).Some?
    requires forall c :: c in rec.vectors ==> rec.vectors[c] == k.decode(cells(c).value.words)
    requires forall a :: a in rec.attributes <==> a in t.attrs && attrCells(a).Some?
    requires forall a :: a in rec.attributes ==> rec.attributes[a] == attrCells(a).value
    ensures rec == Record(k, rec.id, DocAt(t, r))
  {
    var d := DocAt(t, r);
    DocAtLift(t, r);
    forall c ensures c in d.vectors <==> c in t.vectors && cells(c).Some? {
      assert Lift(d.vectors, c) == VecAt(t, c, r);
    }
    forall a ensures a in d.attributes <==> a in t.attrs && attrCells(a).Some? {
      assert Lift(d.attributes, a) == AttrAt(t, a, r);
    }
    assert rec.vectors == Record(k, rec.id, d).vectors;
    assert rec.attributes == d.attributes;
  }

  datatype ScoredRecord = ScoredRecord(record: Document, score: real)

  function Records(k: Kernels, hits: seq<Scored>): seq<ScoredRecord> {
    seq(|hits|, i requires 0 <= i < |hits| => ScoredRecord(Record(k, hits[i].id, hits[i].doc), hits[i].score))
  }

  /** How an answer is returned. */
  predicate Delivers(k: Kernels, a: Answer, hits: seq<ScoredRecord>, err: Option<SearchError>) {
    match a
    case Found(s) => err == None && hits == Records(k, s)
    case Refused(e) => err == Some(e) && hits == []
  }

  // ---- In terms of the logical index

  function ScoredOrder(metric: Metric): Comparison<Scored> {
    (a: Scored, b: Scored) => RanksBefore(metric, a.score, a.id, b.score, b.id)
  }

  /** s lists every document that the query ranks, once, with its score. */
  ghost predicate Enumerates(k: Kernels, x: Index, q: Query, s: seq<Scored>) {
    && (forall i, j :: 0 <= i < j < |s| ==> s[i].id != s[j].id)
    && (forall i :: 0 <= i < |s| ==> Ranks(k, x, q, s[i]))
    && (forall id :: id in x.docs && Eligible(q, x.docs[id]) ==>
          Scored(id, x.docs[id], Score(k, q, x.docs[id].vectors[q.column])) in s)
  }

  predicate Ranks(k: Kernels, x: Index, q: Query, h: Scored) {
    h.id in x.docs && h.doc == x.docs[h.id] && Eligible(q, h.doc) && h.score == Score(k, q, h.doc.vectors[q.column])
  }

  function MapSeq<S, T>(f: S -> T, s: seq<S>): seq<T> {
    seq(|s|, i requires 0 <= i < |s| => f(s[i]))
  }

  lemma {:induction false} InsertMaps<S, T>(before: Comparison<S>, before': Comparison<T>, f: S -> T, s: seq<S>, x: S)
    requires forall a, b :: before(a, b) == before'(f(a), f(b))
    ensures MapSeq(f, Insert(before, s, x)) == Insert(before', MapSeq(f, s), f(x))
  {
    if s != [] && !before(x, s[0]) {
      InsertMaps(before, before', f, s[1..], x);
      assert MapSeq(f, s)[1..] == MapSeq(f, s[1..]);
    }
  }

  /** Sorting commutes with a map that keeps the order. */
  lemma {:induction false} SortMaps<S, T>(before: Comparison<S>, before': Comparison<T>, f: S -> T, s: seq<S>)
    requires forall a, b :: before(a, b) == before'(f(a), f(b))
    ensures MapSeq(f, Sort(before, s)) == Sort(before', MapSeq(f, s))
  {
    if s != [] {
      var n := |s| - 1;
      SortMaps(before, before', f, s[..n]);
      InsertMaps(before, before', f, Sort(before, s[..n]), s[n]);
      assert MapSeq(f, s)[..n] == MapSeq(f, s[..n]);
    }
  }

  lemma FirstMaps<S, T>(before: Comparison<S>, before': Comparison<T>, f: S -> T, s: seq<S>, k: nat)
    requires forall a, b :: before(a, b) == before'(f(a), f(b))
    ensures MapSeq(f, First(before, s, k)) == First(before', MapSeq(f, s), k)
  {
    SortMaps(before, before', f, s);
    assert |MapSeq(f, Sort(before, s))| == |Sort(before, s)|;
  }

  function ToScored(t: Rows): SearchHit -> Scored
    requires Ready(t)
  {
    (h: SearchHit) => Scored(h.id, if h.row < t.numRows then DocAt(t, h.row) else NO_DOC, h.score)
  }

  lemma ScanEnumerates(k: Kernels, t: Rows, q: Query)
    requires Ready(t)
    ensures Enumerates(k, ToIndex(t), q, MapSeq(ToScored(t), HitsUpTo(k, t, q, t.numRows)))
  {
    var hits := HitsUpTo(k, t, q, t.numRows);
    var s := MapSeq(ToScored(t), hits);
    HitsAreRows(k, t, q);
    forall i, j | 0 <= i < j < |s| ensures s[i].id != s[j].id {
      assert t.index[hits[i].id] == hits[i].row && t.index[hits[j].id] == hits[j].row;
    }
    forall i | 0 <= i < |s| ensures Ranks(k, ToIndex(t), q, s[i]) { HitRanks(k, t, q, hits[i]); }
    forall id | id in Docs(t) && Eligible(q, Docs(t)[id])
      ensures Scored(id, Docs(t)[id], Score(k, q, Docs(t)[id].vectors[q.column])) in s
    {
      DocIsHit(k, t, q, id);
      var i :| 0 <= i < |hits| && hits[i] == SearchHit(t.index[id], id, Score(k, q, Docs(t)[id].vectors[q.column]));
      assert s[i] == ToScored(t)(hits[i]);
    }
  }

  lemma HitRanks(k: Kernels, t: Rows, q: Query, h: SearchHit)
    requires Ready(t) && HitOfRow(k, t, q, h)
    ensures Ranks(k, ToIndex(t), q, ToScored(t)(h))
  {
    assert t.index[h.id] == h.row && Live(t, h.id);
  }

  lemma DocIsHit(k: Kernels, t: Rows, q: Query, id: string)
    requires Ready(t) && id in Docs(t) && Eligible(q, Docs(t)[id])
    ensures SearchHit(t.index[id], id, Score(k, q, Docs(t)[id].vectors[q.column])) in HitsUpTo(k, t, q, t.numRows)
  {
    GatherIsExact(RowHit(k, t, q), t.numRows, HitsUpTo(k, t, q, t.numRows));
    assert RowHit(k, t, q)(t.index[id]).Some?;
  }

  lemma MaterializeIsMap(t: Rows, hits: seq<SearchHit>)
    requires Ready(t) && forall i :: 0 <= i < |hits| ==> hits[i].row < t.numRows
    ensures Materialize(t, hits) == MapSeq(ToScored(t), hits)
  {
  }

  /** A search that passes its checks returns the first min(topK, n) of the n documents the query ranks, by score and
      then id. */
  lemma SearchIsSortThenTruncate(k: Kernels, t: Rows, q: Query) returns (s: seq<Scored>)
    requires Ready(t) && Checks(k, Dims(t), q).None?
    ensures Enumerates(k, ToIndex(t), q, s)
    ensures SearchRows(k, t, q) == Found(First(ScoredOrder(q.metric), s, q.topK))
  {
    var hits := HitsUpTo(k, t, q, t.numRows);
    s := MapSeq(ToScored(t), hits);
    ScanEnumerates(k, t, q);
    HitsAreRows(k, t, q);
    FirstKeepsRows(t, q.metric, hits, q.topK);
    MaterializeIsMap(t, First(HitOrder(q.metric), hits, q.topK));
    OrdersAgree(t, q.metric);
    FirstMaps(HitOrder(q.metric), ScoredOrder(q.metric), ToScored(t), hits, q.topK);
  }

  lemma OrdersAgree(t: Rows, metric: Metric)
    requires Ready(t)
    ensures forall a, b :: HitOrder(metric)(a, b) == ScoredOrder(metric)(ToScored(t)(a), ToScored(t)(b))
  {
  }

  // ---- The answer does not depend on the layout

  lemma {:induction false} Multiplicity(s: seq<Scored>, x: Scored)
    requires forall i, j :: 0 <= i < j < |s| ==> s[i] != s[j]
    ensures multiset(s)[x] == if x in s then 1 else 0
  {
    if s != [] {
      assert s == [s[0]] + s[1..];
      Multiplicity(s[1..], x);
    }
  }

  lemma EnumerationsPermute(k: Kernels, x: Index, q: Query, s: seq<Scored>, t: seq<Scored>)
    requires Enumerates(k, x, q, s) && Enumerates(k, x, q, t)
    ensures multiset(s) == multiset(t)
  {
    forall h: Scored ensures multiset(s)[h] == multiset(t)[h] {
      Multiplicity(s, h);
      Multiplicity(t, h);
      assert h in s <==> Ranks(k, x, q, h);
      assert h in t <==> Ranks(k, x, q, h);
    }
  }

  lemma ScoredOrderIsStrictWeak(metric: Metric)
    ensures StrictWeak(ScoredOrder(metric))
  {
    HitOrderIsStrictWeak(metric);
    var f := (h: Scored) => SearchHit(0, h.id, h.score);
    var before, before' := ScoredOrder(metric), HitOrder(metric);
    assert forall a, b :: before(a, b) == before'(f(a), f(b));
  }

  lemma EnumerationIsDecisive(k: Kernels, x: Index, q: Query, s: seq<Scored>)
    requires Enumerates(k, x, q, s)
    ensures Decisive(ScoredOrder(q.metric), s)
  {
    forall i, j | 0 <= i < |s| && 0 <= j < |s|
      ensures ScoredOrder(q.metric)(s[i], s[j]) || ScoredOrder(q.metric)(s[j], s[i]) || s[i] == s[j]
    {
      Lexicographic.Total(s[i].id, s[j].id);
    }
  }

  /** Two tables with the same documents and dimensions, however their rows and tombstones lie, give the same answer to
      every query. */
  lemma SearchDependsOnlyOnIndex(k: Kernels, t: Rows, u: Rows, q: Query)
    requires Ready(t) && Ready(u) && ToIndex(t) == ToIndex(u)
    ensures SearchRows(k, t, q) == SearchRows(k, u, q)
  {
    if Checks(k, Dims(t), q).None? {
      var a := SearchIsSortThenTruncate(k, t, q);
      var b := SearchIsSortThenTruncate(k, u, q);
      EnumerationsPermute(k, ToIndex(t), q, a, b);
      ScoredOrderIsStrictWeak(q.metric);
      EnumerationIsDecisive(k, ToIndex(t), q, a);
      SortPermutes(ScoredOrder(q.metric), a, b);
    }
  }

  // ---- What an answer means, in plain comparisons

  /** One minus the cosine, which rounding may have taken out of -1 .. 1. */
  ghost predicate IsCosineDistance(dot: real, invQ: real, invNorm: real, score: real) {
    var sim := dot * invQ * invNorm;
    && (-1.0 <= sim <= 1.0 ==> score == 1.0 - sim)
    && (sim > 1.0 ==> score == 0.0)
    && (sim < -1.0 ==> score == 2.0)
  }

  /** The query asks for this document, and this is its score. */
  ghost predicate IsHit(k: Kernels, q: Query, d: Doc, score: real) {
    && q.column in d.vectors
    && (q.filter.Some? ==>
          && q.filter.value.field in d.attributes
          && d.attributes[q.filter.value.field] == q.filter.value.value)
    && var v := d.vectors[q.column];
       match q.metric
       case Cosine =>
         v.invNorm != 0.0 && IsCosineDistance(k.dot(q.vector, v.words), k.invNorm(q.vector), v.invNorm, score)
       case EuclideanSquared => score == k.l2(q.vector, v.words)
       case DotProduct => score == k.dot(q.vector, v.words)
       case UnknownMetric => false
  }

  /** The record is this document, every vector decoded. */
  ghost predicate IsRecord(k: Kernels, d: Doc, r: Document) {
    && r.attributes == d.attributes && r.vectors.Keys == d.vectors.Keys
    && forall c :: c in r.vectors ==> r.vectors[c] == k.decode(d.vectors[c].words)
  }

  /** The ids of the documents that the query asks for. */
  ghost function Wanted(k: Kernels, x: Index, q: Query): set<string> {
    set id | id in x.docs && exists score :: IsHit(k, q, x.docs[id], score)
  }

  /** Exact search: as many hits as are wanted, up to topK; each a document of the index with its score; smaller scores
      first, or larger ones under the dot product, and smaller ids first among equal scores; and no document left out
      has a better score than one returned, or the same with a smaller id. */
  ghost predicate IsAnswer(k: Kernels, x: Index, q: Query, hits: seq<ScoredRecord>) {
    && |hits| == (if |Wanted(k, x, q)| < q.topK then |Wanted(k, x, q)| else q.topK)
    && (forall i :: 0 <= i < |hits| ==>
          && hits[i].record.id in x.docs && IsRecord(k, x.docs[hits[i].record.id], hits[i].record)
          && IsHit(k, q, x.docs[hits[i].record.id], hits[i].score))
    && (forall i, j :: 0 <= i < j < |hits| ==>
          && (q.metric == DotProduct ==> hits[i].score >= hits[j].score)
          && (q.metric != DotProduct ==> hits[i].score <= hits[j].score)
          && (hits[i].score == hits[j].score ==> Lexicographic.Less(hits[i].record.id, hits[j].record.id)))
    && (forall id, score, i ::
          id in x.docs && IsHit(k, q, x.docs[id], score) && 0 <= i < |hits|
          && (forall j :: 0 <= j < |hits| ==> hits[j].record.id != id) ==>
            && (q.metric == DotProduct ==> score <= hits[i].score)
            && (q.metric != DotProduct ==> score >= hits[i].score)
            && (score == hits[i].score ==> Lexicographic.Less(hits[i].record.id, id)))
  }

  lemma HitIff(k: Kernels, q: Query, d: Doc, score: real)
    requires q.metric != UnknownMetric
    ensures IsHit(k, q, d, score) <==> Eligible(q, d) && score == Score(k, q, d.vectors[q.column])
  {
    hide Clamp, Similarity, IsCosineDistance;
    if q.column in d.vectors {
      var v := d.vectors[q.column];
      CosineIs(k.dot(q.vector, v.words), k.invNorm(q.vector), v.invNorm, score);
    }
  }

  lemma CosineIs(dot: real, invQ: real, invNorm: real, score: real)
    ensures IsCosineDistance(dot, invQ, invNorm, score) <==> score == 1.0 - Clamp(Similarity(dot, invQ, invNorm))
  {
    var sim := dot * invQ * invNorm;
    assert sim == Similarity(dot, invQ, invNorm);
  }

  lemma RecordIs(k: Kernels, id: string, d: Doc)
    ensures IsRecord(k, d, Record(k, id, d)) && Record(k, id, d).id == id
  {
  }

  lemma RanksMeans(metric: Metric, a: Scored, b: Scored)
    requires a.id != b.id && !RanksBefore(metric, b.score, b.id, a.score, a.id)
    ensures metric == DotProduct ==> a.score >= b.score
    ensures metric != DotProduct ==> a.score <= b.score
    ensures a.score == b.score ==> Lexicographic.Less(a.id, b.id)
  {
    Lexicographic.Total(a.id, b.id);
  }

  /** As many documents are wanted as an enumeration lists. */
  lemma {:induction false} DistinctIds(s: seq<Scored>, ids: set<string>)
    requires forall i, j :: 0 <= i < j < |s| ==> s[i].id != s[j].id
    requires forall id :: id in ids <==> exists i :: 0 <= i < |s| && s[i].id == id
    ensures |ids| == |s|
  {
    if s == [] {
      assert ids == {};
    } else {
      var n := |s| - 1;
      assert s[n].id in ids;
      forall id ensures id in ids - {s[n].id} <==> exists i :: 0 <= i < |s[..n]| && s[..n][i].id == id {
        if id in ids - {s[n].id} {
          var i :| 0 <= i < |s| && s[i].id == id;
          assert s[..n][i].id == id;
        }
      }
      DistinctIds(s[..n], ids - {s[n].id});
    }
  }

  lemma EnumerationCounts(k: Kernels, x: Index, q: Query, s: seq<Scored>)
    requires Enumerates(k, x, q, s) && q.metric != UnknownMetric
    ensures |Wanted(k, x, q)| == |s|
  {
    hide Eligible, Score, IsHit;
    forall id ensures id in Wanted(k, x, q) <==> exists i :: 0 <= i < |s| && s[i].id == id {
      if id in Wanted(k, x, q) {
        var score :| IsHit(k, q, x.docs[id], score);
        HitIff(k, q, x.docs[id], score);
        var i :| 0 <= i < |s| && s[i] == Scored(id, x.docs[id], score);
      }
      if i :| 0 <= i < |s| && s[i].id == id {
        assert Ranks(k, x, q, s[i]);
        HitIff(k, q, x.docs[id], s[i].score);
      }
    }
    DistinctIds(s, Wanted(k, x, q));
  }

  /** The hits of an answer are hits, in order. */
  lemma HitsMean(k: Kernels, x: Index, q: Query, s: seq<Scored>, f: seq<Scored>, i: nat, j: nat)
    requires Enumerates(k, x, q, s) && q.metric != UnknownMetric && i < |f| && j < |f|
    requires Sorted(ScoredOrder(q.metric), f) && forall h :: h in f ==> h in s
    requires forall a, b :: 0 <= a < b < |f| ==> f[a].id != f[b].id
    ensures f[i].id in x.docs && f[i].doc == x.docs[f[i].id] && IsHit(k, q, f[i].doc, f[i].score)
    ensures i < j ==>
              && (q.metric == DotProduct ==> f[i].score >= f[j].score)
              && (q.metric != DotProduct ==> f[i].score <= f[j].score)
              && (f[i].score == f[j].score ==> Lexicographic.Less(f[i].id, f[j].id))
  {
    hide Eligible, Score, IsHit, RanksBefore;
    assert f[i] in s;
    assert Ranks(k, x, q, f[i]);
    HitIff(k, q, f[i].doc, f[i].score);
    if i < j { RanksMeans(q.metric, f[i], f[j]); }
  }

  lemma LeftOutMeans(k: Kernels, x: Index, q: Query, s: seq<Scored>, f: seq<Scored>, id: string, score: real, i: nat)
    requires Enumerates(k, x, q, s) && q.metric != UnknownMetric && i < |f|
    requires forall h, g :: h in s && h !in f && g in f ==> !ScoredOrder(q.metric)(h, g)
    requires id in x.docs && IsHit(k, q, x.docs[id], score) && forall j :: 0 <= j < |f| ==> f[j].id != id
    ensures q.metric == DotProduct ==> score <= f[i].score
    ensures q.metric != DotProduct ==> score >= f[i].score
    ensures score == f[i].score ==> Lexicographic.Less(f[i].id, id)
  {
    hide Eligible, Score, IsHit, RanksBefore;
    HitIff(k, q, x.docs[id], score);
    var h := Scored(id, x.docs[id], score);
    assert h in s && h !in f && f[i] in f;
    assert !ScoredOrder(q.metric)(h, f[i]);
    RanksMeans(q.metric, f[i], h);
  }

  lemma OccursTwice(t: seq<Scored>, i: nat, j: nat)
    requires i < j < |t| && t[i] == t[j]
    ensures multiset(t)[t[i]] >= 2
  {
    var a, b := t[..j], t[j..];
    assert t == a + b && a[i] == t[i] && b[0] == t[i];
    assert t[i] in multiset(a) && t[i] in multiset(b);
  }

  lemma FirstIds(before: Comparison<Scored>, s: seq<Scored>, k: nat)
    requires StrictWeak(before) && forall i, j :: 0 <= i < j < |s| ==> s[i].id != s[j].id
    ensures var f := First(before, s, k); forall i, j :: 0 <= i < j < |f| ==> f[i].id != f[j].id
  {
    var t := Sort(before, s);
    SortIsSorted(before, s);
    forall i, j | 0 <= i < j < |t| ensures t[i].id != t[j].id {
      assert t[i] in multiset(t) && t[j] in multiset(t);
      assert t[i] in s && t[j] in s;
      if t[i].id == t[j].id {
        Multiplicity(s, t[i]);
        OccursTwice(t, i, j);
        assert false;
      }
    }
  }

  /** The hits that a search returns, whatever the layout of the rows, are the answer over the logical index. */
  lemma FoundIsAnswer(k: Kernels, t: Rows, q: Query, f: seq<Scored>)
    requires Ready(t) && Checks(k, Dims(t), q).None? && SearchRows(k, t, q) == Found(f)
    ensures IsAnswer(k, ToIndex(t), q, Records(k, f))
  {
    hide SearchRows, Ready, Dims, Docs, IsHit, IsRecord, Record, First, Enumerates, Wanted;
    var x := ToIndex(t);
    var s := SearchIsSortThenTruncate(k, t, q);
    var before := ScoredOrder(q.metric);
    ScoredOrderIsStrictWeak(q.metric);
    FirstIsBest(before, s, q.topK);
    assert Enumerates(k, x, q, s);
    EnumerationCounts(k, x, q, s);
    DistinctOf(k, x, q, s);
    FirstIds(before, s, q.topK);
    var hits := Records(k, f);
    forall i | 0 <= i < |hits|
      ensures hits[i].record.id == f[i].id && hits[i].score == f[i].score && IsRecord(k, f[i].doc, hits[i].record)
    {
      RecordIs(k, f[i].id, f[i].doc);
    }
    forall i, j | 0 <= i < |f| && 0 <= j < |f|
      ensures f[i].id in x.docs && f[i].doc == x.docs[f[i].id] && IsHit(k, q, f[i].doc, f[i].score)
      ensures i < j && q.metric == DotProduct ==> f[i].score >= f[j].score
      ensures i < j && q.metric != DotProduct ==> f[i].score <= f[j].score
      ensures i < j && f[i].score == f[j].score ==> Lexicographic.Less(f[i].id, f[j].id)
    {
      HitsMean(k, x, q, s, f, i, j);
    }
    forall id, score, i | id in x.docs && IsHit(k, q, x.docs[id], score) && 0 <= i < |hits|
                          && forall j :: 0 <= j < |hits| ==> hits[j].record.id != id
      ensures q.metric == DotProduct ==> score <= hits[i].score
      ensures q.metric != DotProduct ==> score >= hits[i].score
      ensures score == hits[i].score ==> Lexicographic.Less(hits[i].record.id, id)
    {
      forall j | 0 <= j < |f| ensures f[j].id != id { assert hits[j].record.id != id; }
      LeftOutMeans(k, x, q, s, f, id, score, i);
    }
  }

  lemma DistinctOf(k: Kernels, x: Index, q: Query, s: seq<Scored>)
    requires Enumerates(k, x, q, s)
    ensures forall i, j :: 0 <= i < j < |s| ==> s[i].id != s[j].id
  {
  }

  /** When a search refuses a query, and why; it asks for the column, the dimension, the norm and the metric in turn. */
  ghost predicate IsRefused(k: Kernels, x: Index, q: Query, err: Option<SearchError>) {
    var asked := q.topK > 0 && q.column in x.dims;
    && (err == Some(DimensionMismatch) <==> asked && |q.vector| != x.dims[q.column])
    && (err == Some(ZeroVector) <==>
        asked && |q.vector| == x.dims[q.column] && q.metric == Cosine && k.invNorm(q.vector) == 0.0)
    && (err == Some(BadMetric) <==> asked && |q.vector| == x.dims[q.column] && q.metric == UnknownMetric)
  }

  /** Everything a search returns: the refusals exactly when they are due, nothing for a column that nobody stored or
      for topK <= 0, and otherwise the answer. */
  lemma SearchMeans(k: Kernels, t: Rows, q: Query, hits: seq<ScoredRecord>, err: Option<SearchError>)
    requires Ready(t) && Delivers(k, SearchRows(k, t, q), hits, err)
    ensures IsRefused(k, ToIndex(t), q, err)
    ensures err != None || q.topK <= 0 || q.column !in ToIndex(t).dims ==> hits == []
    ensures err == None && q.topK > 0 && q.column in ToIndex(t).dims ==> IsAnswer(k, ToIndex(t), q, hits)
  {
    hide IsAnswer, Ready, Docs, HitsUpTo, Materialize, First;
    if Checks(k, Dims(t), q).None? { FoundIsAnswer(k, t, q, SearchRows(k, t, q).hits); }
  }
}
