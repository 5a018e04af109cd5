/** The flat columnar layout as values: what the rows of a table hold and how each step of an upsert changes them. */
module Columns {
  import opened Options
  import opened Mutations
  import opened Index

  /** A vector column: row r occupies data[r * dim .. (r + 1) * dim]. */
  datatype Column = Column(dim: nat, data: seq<Word>, hasVec: seq<bool>, invNorms: seq<real>)

  type AttrCells = seq<Option<Attribute>>

  datatype Rows = Rows(
    numRows: nat,
    docIDs: seq<string>,
    index: map<string, nat>,
    tombstones: seq<bool>,
    vectors: map<string, Column>,
    attrs: map<string, AttrCells>)

  ghost predicate ColumnOk(c: Column, n: nat) {
    c.dim > 0 && |c.data| == n * c.dim && |c.hasVec| == n && |c.invNorms| == n
  }

  /** All columns are numRows long, and index and docIDs are mutual inverses. */
  ghost predicate Ready(t: Rows) {
    && |t.docIDs| == t.numRows && |t.tombstones| == t.numRows
    && (forall r :: 0 <= r < t.numRows ==> t.docIDs[r] in t.index && t.index[t.docIDs[r]] == r && t.docIDs[r] != "")
    && (forall id :: id in t.index ==> t.index[id] < t.numRows && t.docIDs[t.index[id]] == id)
    && (forall c :: c in t.vectors ==> ColumnOk(t.vectors[c], t.numRows))
    && (forall k :: k in t.attrs ==> |t.attrs[k]| == t.numRows)
  }

  /** And a table without rows has no columns. */
  ghost predicate RowsOk(t: Rows) {
    Ready(t) && (t.numRows == 0 ==> t.vectors == map[] && t.attrs == map[])
  }

  // ---- One cell

  lemma RowBounds(r: nat, n: nat, dim: nat)
    requires r < n
    ensures r * dim + dim <= n * dim
  {
    assert (r + 1) * dim <= n * dim;
  }

  function RowWords(c: Column, n: nat, r: nat): (w: seq<Word>)
    requires ColumnOk(c, n) && r < n
    ensures |w| == c.dim
  {
    RowBounds(r, n, c.dim);
    c.data[r * c.dim..r * c.dim + c.dim]
  }

  function Cell(c: Column, n: nat, r: nat): Option<Vector>
    requires ColumnOk(c, n) && r < n
  {
    if c.hasVec[r] then Some(Vector(RowWords(c, n, r), c.invNorms[r])) else None
  }

  function FreshColumn(dim: nat, n: nat): Column {
    Column(dim, seq(n * dim, _ => 0), seq(n, _ => false), seq(n, _ => 0.0))
  }

  function SetCell(c: Column, n: nat, r: nat, v: Vector): Column
    requires ColumnOk(c, n) && r < n
  {
    RowBounds(r, n, c.dim);
    Column(c.dim, c.data[..r * c.dim] + v.words + c.data[r * c.dim + c.dim..], c.hasVec[r := true],
           c.invNorms[r := v.invNorm])
  }

  function ClearCell(c: Column, r: nat): Column
    requires r < |c.hasVec| == |c.invNorms|
  {
    c.(hasVec := c.hasVec[r := false], invNorms := c.invNorms[r := 0.0])
  }

  function AppendCell(c: Column, v: Option<Vector>): Column {
    match v
    case None => Column(c.dim, c.data + seq(c.dim, _ => 0), c.hasVec + [false], c.invNorms + [0.0])
    case Some(w) => Column(c.dim, c.data + w.words, c.hasVec + [true], c.invNorms + [w.invNorm])
  }

  lemma FreshCell(dim: nat, n: nat)
    requires dim > 0
    ensures ColumnOk(FreshColumn(dim, n), n)
    ensures forall r :: 0 <= r < n ==> Cell(FreshColumn(dim, n), n, r) == None
  {
  }

  lemma SetCellAt(c: Column, n: nat, r: nat, v: Vector, q: nat)
    requires ColumnOk(c, n) && r < n && q < n && |v.words| == c.dim
    ensures ColumnOk(SetCell(c, n, r, v), n)
    ensures Cell(SetCell(c, n, r, v), n, q) == if q == r then Some(v) else Cell(c, n, q)
  {
    var d := SetCell(c, n, r, v);
    RowBounds(r, n, c.dim);
    RowBounds(q, n, c.dim);
    if q < r {
      RowBounds(q, r, c.dim);
    } else if q > r {
      RowBounds(r, q, c.dim);
    }
    assert RowWords(d, n, q) == if q == r then v.words else RowWords(c, n, q);
  }

  lemma AppendCellAt(c: Column, n: nat, v: Option<Vector>, q: nat)
    requires ColumnOk(c, n) && q <= n && (v.Some? ==> |v.value.words| == c.dim)
    ensures ColumnOk(AppendCell(c, v), n + 1)
    ensures Cell(AppendCell(c, v), n + 1, q) == if q == n then v else Cell(c, n, q)
  {
    var d := AppendCell(c, v);
    assert (n + 1) * c.dim == n * c.dim + c.dim;
    assert ColumnOk(d, n + 1);
    if q < n {
      AppendKeepsRow(c, d, n, q);
    } else if v.Some? {
      assert d.data[n * c.dim..n * c.dim + c.dim] == v.value.words;
    }
  }

  lemma AppendKeepsRow(c: Column, d: Column, n: nat, q: nat)
    requires ColumnOk(c, n) && q < n && d.dim == c.dim && ColumnOk(d, n + 1) && c.data <= d.data
    ensures RowWords(d, n + 1, q) == RowWords(c, n, q)
  {
    RowBounds(q, n, c.dim);
    RowBounds(q, n + 1, c.dim);
  }

  // ---- The steps of an upsert

  type Vectors = map<string, Vector>
  type Attributes = map<string, Attribute>

  /** Staged vectors have their column's dimension, if the column exists. */
  ghost predicate Fits(t: Rows, staged: Vectors) {
    forall c :: c in staged ==> |staged[c].words| > 0 && (c in t.vectors ==> |staged[c].words| == t.vectors[c].dim)
  }

  /** Columns for vectors the table has not seen, without a value in any row. */
  function AddColumns(t: Rows, staged: Vectors): Rows {
    t.(vectors := map c | c in t.vectors.Keys + staged.Keys ::
         if c in t.vectors then t.vectors[c] else FreshColumn(|staged[c].words|, t.numRows))
  }

  function AddAttrColumns(t: Rows, attrs: Attributes): Rows {
    t.(attrs := map k | k in t.attrs.Keys + attrs.Keys ::
                  if k in t.attrs then t.attrs[k] else seq(t.numRows, _ => None))
  }

  /** Forgets what a deleted row held, except in the columns about to be written. */
  function ClearRow(t: Rows, r: nat, staged: Vectors, attrs: Attributes): Rows
    requires RowsOk(t) && r < t.numRows
  {
    t.(vectors := map c | c in t.vectors :: if c in staged then t.vectors[c] else ClearCell(t.vectors[c], r),
       attrs := map k | k in t.attrs :: if k in attrs then t.attrs[k] else t.attrs[k][r := None])
  }

  function FillRow(t: Rows, r: nat, staged: Vectors, attrs: Attributes): Rows
    requires RowsOk(t) && r < t.numRows
  {
    t.(tombstones := t.tombstones[r := false],
       vectors := map c | c in t.vectors ::
                    if c in staged then SetCell(t.vectors[c], t.numRows, r, staged[c]) else t.vectors[c],
       attrs := map k | k in t.attrs :: if k in attrs then t.attrs[k][r := Some(attrs[k])] else t.attrs[k])
  }

  function Lift<T>(m: map<string, T>, c: string): Option<T> {
    if c in m then Some(m[c]) else None
  }

  function AppendRow(t: Rows, id: string, staged: Vectors, attrs: Attributes): Rows {
    Rows(t.numRows + 1, t.docIDs + [id], t.index[id := t.numRows], t.tombstones + [false],
         map c | c in t.vectors :: AppendCell(t.vectors[c], Lift(staged, c)),
         map k | k in t.attrs :: t.attrs[k] + [Lift(attrs, k)])
  }

  /** An upsert that has passed its checks. */
  function Upsert(t: Rows, id: string, staged: Vectors, attrs: Attributes): Rows
    requires RowsOk(t) && Fits(t, staged)
  {
    var t1 := AddAttrColumns(AddColumns(t, staged), attrs);
    AddColumnsOk(t, staged, attrs);
    if id !in t.index then AppendRow(t1, id, staged, attrs)
    else
      var r := t.index[id];
      assert t1.index == t.index;
      var t2 := if t1.tombstones[r] then ClearRow(t1, r, staged, attrs) else t1;
      ClearRowOk(t1, r, staged, attrs);
      FillRow(t2, r, staged, attrs)
  }

  /** A delete only marks the row. */
  function Delete(t: Rows, id: string): Rows
    requires RowsOk(t)
  {
    if id in t.index then t.(tombstones := t.tombstones[t.index[id] := true]) else t
  }

  lemma AddColumnsOk(t: Rows, staged: Vectors, attrs: Attributes)
    requires RowsOk(t) && Fits(t, staged)
    ensures Ready(AddAttrColumns(AddColumns(t, staged), attrs))
  {
    forall c | c in staged ensures ColumnOk(FreshColumn(|staged[c].words|, t.numRows), t.numRows) {
      FreshCell(|staged[c].words|, t.numRows);
    }
  }

  lemma ClearRowOk(t: Rows, r: nat, staged: Vectors, attrs: Attributes)
    requires Ready(t) && r < t.numRows
    ensures RowsOk(t) && RowsOk(ClearRow(t, r, staged, attrs))
  {
  }
}
