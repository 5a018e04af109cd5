/** The columnar rows refine the logical index: every upsert and delete of rows is the put and delete of documents. */
module TableRefinement {
  import opened Options
  import opened Mutations
  import opened Index
  import opened Columns

  /** The value of one column in one row. */
  function VecAt(t: Rows, c: string, r: nat): Option<Vector>
    requires Ready(t) && r < t.numRows
  {
    if c in t.vectors then Cell(t.vectors[c], t.numRows, r) else None
  }

  function AttrAt(t: Rows, k: string, r: nat): Option<Attribute>
    requires Ready(t) && r < t.numRows
  {
    if k in t.attrs then t.attrs[k][r] else None
  }

  /** The document of a row: recordAt. */
  function DocAt(t: Rows, r: nat): Doc
    requires Ready(t) && r < t.numRows
  {
    Doc(map c | c in t.vectors && VecAt(t, c, r).Some? :: VecAt(t, c, r).value,
        map k | k in t.attrs && AttrAt(t, k, r).Some? :: AttrAt(t, k, r).value)
  }

  predicate Live(t: Rows, id: string)
    requires Ready(t)
  {
    id in t.index && !t.tombstones[t.index[id]]
  }

  function Docs(t: Rows): map<string, Doc>
    requires Ready(t)
  {
    map id | id in t.index && Live(t, id) :: DocAt(t, t.index[id])
  }

  function Dims(t: Rows): map<string, nat> {
    map c | c in t.vectors :: t.vectors[c].dim
  }

  /** The logical index of a table. */
  function ToIndex(t: Rows): Index
    requires Ready(t)
  {
    Index(Docs(t), Dims(t))
  }

  // ---- What each step changes, cell by cell

  /** Everything but the cells: same rows, same documents, same marks. */
  predicate SameRows(t: Rows, u: Rows) {
    t.numRows == u.numRows && t.docIDs == u.docIDs && t.index == u.index && t.tombstones == u.tombstones
  }

  /** u is t with columns for the given values and no other change. */
  ghost predicate Added(t: Rows, u: Rows, staged: Vectors, attrs: Attributes) {
    && Ready(t) && Ready(u) && SameRows(t, u)
    && u.vectors.Keys == t.vectors.Keys + staged.Keys && u.attrs.Keys == t.attrs.Keys + attrs.Keys
    && (forall c :: c in u.vectors ==>
          u.vectors[c].dim == if c in t.vectors then t.vectors[c].dim else |staged[c].words|)
    && (forall c, r :: 0 <= r < t.numRows ==> VecAt(u, c, r) == VecAt(t, c, r))
    && (forall k, r :: 0 <= r < t.numRows ==> AttrAt(u, k, r) == AttrAt(t, k, r))
  }

  lemma AddColumnsAdds(t: Rows, staged: Vectors, attrs: Attributes)
    requires RowsOk(t) && Columns.Fits(t, staged)
    ensures Added(t, AddAttrColumns(AddColumns(t, staged), attrs), staged, attrs)
  {
    AddColumnsOk(t, staged, attrs);
    var u := AddAttrColumns(AddColumns(t, staged), attrs);
    forall c, r | 0 <= r < t.numRows ensures VecAt(u, c, r) == VecAt(t, c, r) {
      if c in staged && c !in t.vectors { FreshCell(|staged[c].words|, t.numRows); }
    }
  }

  /** u is t with the columns of one row that are not about to be written emptied. */
  ghost predicate Cleared(t: Rows, u: Rows, row: nat, staged: Vectors, attrs: Attributes) {
    && Ready(t) && Ready(u) && SameRows(t, u) && Dims(u) == Dims(t) && u.attrs.Keys == t.attrs.Keys
    && (forall c, r :: 0 <= r < t.numRows ==>
          VecAt(u, c, r) == if r == row && c !in staged then None else VecAt(t, c, r))
    && (forall k, r :: 0 <= r < t.numRows ==>
          AttrAt(u, k, r) == if r == row && k !in attrs then None else AttrAt(t, k, r))
  }

  lemma ClearRowClears(t: Rows, row: nat, staged: Vectors, attrs: Attributes)
    requires Ready(t) && row < t.numRows
    ensures RowsOk(t) && Cleared(t, ClearRow(t, row, staged, attrs), row, staged, attrs)
  {
    ClearRowOk(t, row, staged, attrs);
    var u := ClearRow(t, row, staged, attrs);
    forall c, r | 0 <= r < t.numRows
      ensures VecAt(u, c, r) == if r == row && c !in staged then None else VecAt(t, c, r)
    {
    }
    forall k, r | 0 <= r < t.numRows
      ensures AttrAt(u, k, r) == if r == row && k !in attrs then None else AttrAt(t, k, r)
    {
    }
    assert Dims(u) == Dims(t);
  }

  /** u is t with the given values in one row, which is live. */
  ghost predicate Filled(t: Rows, u: Rows, row: nat, staged: Vectors, attrs: Attributes) {
    && Ready(t) && Ready(u) && row < t.numRows
    && t.numRows == u.numRows && t.docIDs == u.docIDs && t.index == u.index
       && u.tombstones == t.tombstones[row := false]
    && Dims(u) == Dims(t) && u.attrs.Keys == t.attrs.Keys
    && (forall c, r :: 0 <= r < t.numRows ==>
          VecAt(u, c, r) == if r == row && c in staged then Some(staged[c]) else VecAt(t, c, r))
    && (forall k, r :: 0 <= r < t.numRows ==>
          AttrAt(u, k, r) == if r == row && k in attrs then Some(attrs[k]) else AttrAt(t, k, r))
  }

  lemma FillRowReady(t: Rows, row: nat, staged: Vectors, attrs: Attributes)
    requires RowsOk(t) && row < t.numRows && Columns.Fits(t, staged)
    ensures Ready(FillRow(t, row, staged, attrs))
  {
    var u := FillRow(t, row, staged, attrs);
    forall c | c in t.vectors ensures ColumnOk(u.vectors[c], u.numRows) {
      if c in staged { SetCellAt(t.vectors[c], t.numRows, row, staged[c], row); }
    }
  }

  lemma FillRowFills(t: Rows, row: nat, staged: Vectors, attrs: Attributes)
    requires RowsOk(t) && row < t.numRows && Columns.Fits(t, staged)
    requires staged.Keys <= t.vectors.Keys && attrs.Keys <= t.attrs.Keys
    ensures Filled(t, FillRow(t, row, staged, attrs), row, staged, attrs)
  {
    FillRowReady(t, row, staged, attrs);
    var u := FillRow(t, row, staged, attrs);
    forall c, r | 0 <= r < t.numRows
      ensures VecAt(u, c, r) == if r == row && c in staged then Some(staged[c]) else VecAt(t, c, r)
    {
      if c in staged { SetCellAt(t.vectors[c], t.numRows, row, staged[c], r); }
    }
    forall k, r | 0 <= r < t.numRows
      ensures AttrAt(u, k, r) == if r == row && k in attrs then Some(attrs[k]) else AttrAt(t, k, r)
    {
    }
    assert Dims(u) == Dims(t);
  }

  /** u is t with one more row, live, for a new document of the given values. */
  ghost predicate Appended(t: Rows, u: Rows, id: string, staged: Vectors, attrs: Attributes) {
    && Ready(t) && Ready(u)
    && u.numRows == t.numRows + 1 && u.index == t.index[id := t.numRows] && u.tombstones == t.tombstones + [false]
    && Dims(u) == Dims(t) && u.attrs.Keys == t.attrs.Keys
    && (forall c, r :: 0 <= r <= t.numRows ==>
          VecAt(u, c, r) == if r == t.numRows then Lift(staged, c) else VecAt(t, c, r))
    && (forall k, r :: 0 <= r <= t.numRows ==>
          AttrAt(u, k, r) == if r == t.numRows then Lift(attrs, k) else AttrAt(t, k, r))
  }

  lemma AppendRowReady(t: Rows, id: string, staged: Vectors, attrs: Attributes)
    requires Ready(t) && id !in t.index && id != "" && Columns.Fits(t, staged)
    ensures Ready(AppendRow(t, id, staged, attrs))
  {
    var u := AppendRow(t, id, staged, attrs);
    forall c | c in t.vectors ensures ColumnOk(u.vectors[c], u.numRows) {
      AppendCellAt(t.vectors[c], t.numRows, Lift(staged, c), t.numRows);
    }
  }

  lemma AppendedVec(t: Rows, id: string, staged: Vectors, attrs: Attributes, c: string, r: nat)
    requires Ready(t) && Columns.Fits(t, staged) && staged.Keys <= t.vectors.Keys && r <= t.numRows
    requires Ready(AppendRow(t, id, staged, attrs))
    ensures VecAt(AppendRow(t, id, staged, attrs), c, r) == if r == t.numRows then Lift(staged, c) else VecAt(t, c, r)
  {
    if c in t.vectors { AppendCellAt(t.vectors[c], t.numRows, Lift(staged, c), r); }
  }

  lemma AppendRowAppends(t: Rows, id: string, staged: Vectors, attrs: Attributes)
    requires Ready(t) && id !in t.index && id != "" && Columns.Fits(t, staged)
    requires staged.Keys <= t.vectors.Keys && attrs.Keys <= t.attrs.Keys
    ensures Appended(t, AppendRow(t, id, staged, attrs), id, staged, attrs)
  {
    hide VecAt, Columns.Fits;
    AppendRowReady(t, id, staged, attrs);
    var u := AppendRow(t, id, staged, attrs);
    forall c, r | 0 <= r <= t.numRows
      ensures VecAt(u, c, r) == if r == t.numRows then Lift(staged, c) else VecAt(t, c, r)
    {
      AppendedVec(t, id, staged, attrs, c, r);
    }
    forall k, r | 0 <= r <= t.numRows
      ensures AttrAt(u, k, r) == if r == t.numRows then Lift(attrs, k) else AttrAt(t, k, r)
    {}
    assert Dims(u) == Dims(t);
  }

  // ---- A whole upsert, cell by cell

  function RowOf(t: Rows, id: string): nat {
    if id in t.index then t.index[id] else t.numRows
  }

  /** What a cell holds after an upsert: in the document's row a value written, else the old value if the document was
      live, else nothing; in any other row the old value. */
  function After<T>(mine: bool, live: bool, written: Option<T>, before: Option<T>): Option<T> {
    if mine && written.Some? then written else if mine && !live then None else before
  }

  ghost predicate Upserted(t: Rows, u: Rows, id: string, staged: Vectors, attrs: Attributes) {
    && Ready(t) && Ready(u) && u.numRows > 0
    && u.index == t.index[id := RowOf(t, id)]
    && u.tombstones == (if id in t.index then t.tombstones[t.index[id] := false] else t.tombstones + [false])
    && Dims(u) == Dims(t) + StagedWidths(staged)
    && (forall c, r :: 0 <= r < u.numRows ==>
          VecAt(u, c, r)
          == After(r == RowOf(t, id), Live(t, id), Lift(staged, c),
                   if r < t.numRows then VecAt(t, c, r) else None))
    && (forall k, r :: 0 <= r < u.numRows ==>
          AttrAt(u, k, r)
          == After(r == RowOf(t, id), Live(t, id), Lift(attrs, k),
                   if r < t.numRows then AttrAt(t, k, r) else None))
  }

  function StagedWidths(staged: Vectors): map<string, nat> {
    map c | c in staged :: |staged[c].words|
  }

  lemma AddedDims(t: Rows, t1: Rows, staged: Vectors, attrs: Attributes)
    requires Added(t, t1, staged, attrs) && Columns.Fits(t, staged)
    ensures Dims(t1) == Dims(t) + StagedWidths(staged) && Columns.Fits(t1, staged)
  {
  }

  lemma NewRowUpserts(t: Rows, t1: Rows, u: Rows, id: string, staged: Vectors, attrs: Attributes)
    requires Added(t, t1, staged, attrs) && Appended(t1, u, id, staged, attrs) && id !in t.index
    requires Dims(t1) == Dims(t) + StagedWidths(staged)
    ensures Upserted(t, u, id, staged, attrs)
  {
    forall c, r | 0 <= r < u.numRows
      ensures VecAt(u, c, r)
              == After(r == RowOf(t, id), Live(t, id), Lift(staged, c),
                       if r < t.numRows then VecAt(t, c, r) else None)
    {
    }
    forall k, r | 0 <= r < u.numRows
      ensures AttrAt(u, k, r)
              == After(r == RowOf(t, id), Live(t, id), Lift(attrs, k),
                       if r < t.numRows then AttrAt(t, k, r) else None)
    {
    }
  }

  lemma LiveRowUpserts(t: Rows, t1: Rows, u: Rows, id: string, staged: Vectors, attrs: Attributes)
    requires Added(t, t1, staged, attrs) && Live(t, id)
    requires Filled(t1, u, t.index[id], staged, attrs)
    requires Dims(t1) == Dims(t) + StagedWidths(staged)
    ensures Upserted(t, u, id, staged, attrs)
  {
    forall c, r | 0 <= r < u.numRows
      ensures VecAt(u, c, r)
              == After(r == RowOf(t, id), Live(t, id), Lift(staged, c),
                       if r < t.numRows then VecAt(t, c, r) else None)
    {
    }
    forall k, r | 0 <= r < u.numRows
      ensures AttrAt(u, k, r)
              == After(r == RowOf(t, id), Live(t, id), Lift(attrs, k),
                       if r < t.numRows then AttrAt(t, k, r) else None)
    {
    }
  }

  lemma DeadRowUpserts(t: Rows, t1: Rows, t2: Rows, u: Rows, id: string, staged: Vectors, attrs: Attributes)
    requires Added(t, t1, staged, attrs) && id in t.index && !Live(t, id)
    requires Cleared(t1, t2, t.index[id], staged, attrs)
    requires Filled(t2, u, t.index[id], staged, attrs)
    requires Dims(t1) == Dims(t) + StagedWidths(staged)
    ensures Upserted(t, u, id, staged, attrs)
  {
    forall c, r | 0 <= r < u.numRows
      ensures VecAt(u, c, r)
              == After(r == RowOf(t, id), Live(t, id), Lift(staged, c),
                       if r < t.numRows then VecAt(t, c, r) else None)
    {
    }
    forall k, r | 0 <= r < u.numRows
      ensures AttrAt(u, k, r)
              == After(r == RowOf(t, id), Live(t, id), Lift(attrs, k),
                       if r < t.numRows then AttrAt(t, k, r) else None)
    {
    }
  }

  lemma UpsertUpserts(t: Rows, id: string, staged: Vectors, attrs: Attributes)
    requires RowsOk(t) && Columns.Fits(t, staged) && id != ""
    ensures Upserted(t, Upsert(t, id, staged, attrs), id, staged, attrs)
  {
    hide Upserted, Filled, Cleared, Appended;
    var t1 := AddAttrColumns(AddColumns(t, staged), attrs);
    AddColumnsAdds(t, staged, attrs);
    AddedDims(t, t1, staged, attrs);
    if id !in t.index {
      AppendRowAppends(t1, id, staged, attrs);
      NewRowUpserts(t, t1, AppendRow(t1, id, staged, attrs), id, staged, attrs);
    } else {
      var row := t.index[id];
      ClearRowClears(t1, row, staged, attrs);
      var t2 := if t1.tombstones[row] then ClearRow(t1, row, staged, attrs) else t1;
      FillCleared(t1, t2, row, staged, attrs);
      if Live(t, id) {
        LiveRowUpserts(t, t1, FillRow(t2, row, staged, attrs), id, staged, attrs);
      } else {
        DeadRowUpserts(t, t1, t2, FillRow(t2, row, staged, attrs), id, staged, attrs);
      }
    }
  }

  lemma FillCleared(t1: Rows, t2: Rows, row: nat, staged: Vectors, attrs: Attributes)
    requires RowsOk(t1) && row < t1.numRows && Columns.Fits(t1, staged)
    requires staged.Keys <= t1.vectors.Keys && attrs.Keys <= t1.attrs.Keys
    requires t2 == t1 || t2 == ClearRow(t1, row, staged, attrs)
    ensures RowsOk(t2) && Filled(t2, FillRow(t2, row, staged, attrs), row, staged, attrs)
  {
    ClearRowOk(t1, row, staged, attrs);
    FillRowFills(t2, row, staged, attrs);
  }

  // ---- The refinement

  lemma SameDoc(d: Doc, e: Doc)
    requires forall c :: Lift(d.vectors, c) == Lift(e.vectors, c)
    requires forall k :: Lift(d.attributes, k) == Lift(e.attributes, k)
    ensures d == e
  {
    assert forall c :: c in d.vectors <==> Lift(d.vectors, c).Some?;
    assert forall c :: c in e.vectors <==> Lift(e.vectors, c).Some?;
    assert forall c :: c in d.attributes <==> Lift(d.attributes, c).Some?;
    assert forall c :: c in e.attributes <==> Lift(e.attributes, c).Some?;
    assert d.vectors == e.vectors;
    assert d.attributes == e.attributes;
  }

  lemma DocAtLift(t: Rows, r: nat)
    requires Ready(t) && r < t.numRows
    ensures forall c :: Lift(DocAt(t, r).vectors, c) == VecAt(t, c, r)
    ensures forall k :: Lift(DocAt(t, r).attributes, k) == AttrAt(t, k, r)
  {
  }

  lemma MergeLift(d: Doc, e: Doc)
    ensures forall c :: Lift(Merge(d, e).vectors, c)
                         == if c in e.vectors then Some(e.vectors[c]) else Lift(d.vectors, c)
    ensures forall k :: Lift(Merge(d, e).attributes, k)
                         == if k in e.attributes then Some(e.attributes[k]) else Lift(d.attributes, k)
  {
  }

  /** Rows of other documents keep their documents. */
  lemma OtherDocAt(t: Rows, u: Rows, id: string, staged: Vectors, attrs: Attributes, r: nat)
    requires Upserted(t, u, id, staged, attrs) && r < u.numRows && r < t.numRows && r != RowOf(t, id)
    ensures DocAt(u, r) == DocAt(t, r)
  {
    DocAtLift(u, r);
    DocAtLift(t, r);
    SameDoc(DocAt(u, r), DocAt(t, r));
  }

  lemma IsMerge(d: Doc, base: Doc, e: Doc)
    requires forall c :: Lift(d.vectors, c) == if c in e.vectors then Some(e.vectors[c]) else Lift(base.vectors, c)
    requires forall k :: Lift(d.attributes, k)
                          == if k in e.attributes then Some(e.attributes[k]) else Lift(base.attributes, k)
    ensures d == Merge(base, e)
  {
    MergeLift(base, e);
    SameDoc(d, Merge(base, e));
  }

  /** The row of the upserted document holds the merge. */
  lemma MergedDocAt(t: Rows, u: Rows, id: string, staged: Vectors, attrs: Attributes, r: nat)
    requires Upserted(t, u, id, staged, attrs) && r == RowOf(t, id) < u.numRows
    ensures DocAt(u, r) == Merge(if Live(t, id) then DocAt(t, r) else NO_DOC, Doc(staged, attrs))
  {
    DocAtLift(u, r);
    if Live(t, id) {
      DocAtLift(t, r);
      IsMerge(DocAt(u, r), DocAt(t, r), Doc(staged, attrs));
    } else {
      IsMerge(DocAt(u, r), NO_DOC, Doc(staged, attrs));
    }
  }

  lemma UpsertedDocs(t: Rows, u: Rows, id: string, staged: Vectors, attrs: Attributes, x: string)
    requires Upserted(t, u, id, staged, attrs)
    ensures var expected := Docs(t)[id := Merge(Lookup(Docs(t), id), Doc(staged, attrs))];
            && (x in Docs(u) <==> x in expected)
            && (x in Docs(u) ==> Docs(u)[x] == expected[x])
  {
    if x in u.index {
      if x == id {
        MergedDocAt(t, u, id, staged, attrs, u.index[x]);
      } else {
        assert t.docIDs[t.index[x]] == x;
        OtherDocAt(t, u, id, staged, attrs, u.index[x]);
      }
    }
  }

  /** The put of encoded vectors and attributes. */
  function PutStaged(x: Index, id: string, staged: Vectors, attrs: Attributes): Index {
    Index(x.docs[id := Merge(Lookup(x.docs, id), Doc(staged, attrs))], x.dims + StagedWidths(staged))
  }

  lemma PutStagedIsPut(k: Kernels, x: Index, d: Document)
    requires KernelsOk(k) && PutAllowed(k, x, d)
    ensures PutStaged(x, d.id, Staged(k, d.vectors), d.attributes) == PutDoc(k, x, d)
  {
    forall c | c in Stored(d.vectors) ensures |k.encode(d.vectors[c]).value| == |d.vectors[c]| {
      assert Storable(k, Dim(x.dims, c), d.vectors[c]);
    }
    assert StagedWidths(Staged(k, d.vectors)) == StagedDims(d.vectors);
  }

  /** An upsert of rows is the put of a document, and keeps the layout in order. */
  lemma UpsertRefines(t: Rows, id: string, staged: Vectors, attrs: Attributes)
    requires RowsOk(t) && Columns.Fits(t, staged) && id != ""
    ensures RowsOk(Upsert(t, id, staged, attrs))
    ensures ToIndex(Upsert(t, id, staged, attrs)) == PutStaged(ToIndex(t), id, staged, attrs)
  {
    UpsertUpserts(t, id, staged, attrs);
    UpsertedRefines(t, Upsert(t, id, staged, attrs), id, staged, attrs);
  }

  lemma UpsertedRefines(t: Rows, u: Rows, id: string, staged: Vectors, attrs: Attributes)
    requires Upserted(t, u, id, staged, attrs)
    ensures Docs(u) == Docs(t)[id := Merge(Lookup(Docs(t), id), Doc(staged, attrs))]
  {
    hide Docs, Merge, Lookup;
    forall x
      ensures var expected := Docs(t)[id := Merge(Lookup(Docs(t), id), Doc(staged, attrs))];
              (x in Docs(u) <==> x in expected) && (x in Docs(u) ==> Docs(u)[x] == expected[x])
    {
      UpsertedDocs(t, u, id, staged, attrs, x);
    }
  }

  /** A delete of a row is the removal of a document. */
  lemma DeleteRefines(t: Rows, id: string)
    requires RowsOk(t)
    ensures RowsOk(Columns.Delete(t, id))
    ensures ToIndex(Columns.Delete(t, id)) == DeleteDoc(ToIndex(t), id)
  {
    hide DocAt, RowsOk, Columns.Delete;
    var u := Columns.Delete(t, id);
    DeleteKeepsRows(t, id);
    forall x ensures (x in Docs(u) <==> x in Docs(t) - {id}) && (x in Docs(u) ==> Docs(u)[x] == Docs(t)[x]) {
      if x in t.index { SameCellsSameDoc(t, u, t.index[x]); }
    }
    assert Docs(u) == Docs(t) - {id};
  }

  /** A deletion keeps the layout and every cell, and leaves exactly the other documents live. */
  lemma DeleteKeepsRows(t: Rows, id: string)
    requires RowsOk(t)
    ensures var u := Columns.Delete(t, id);
            && RowsOk(u) && Ready(t) && Ready(u)
            && u.numRows == t.numRows && u.vectors == t.vectors && u.attrs == t.attrs && u.index == t.index
            && forall x :: Live(u, x) <==> Live(t, x) && x != id
  {
  }

  lemma SameCellsSameDoc(t: Rows, u: Rows, r: nat)
    requires Ready(t) && Ready(u) && r < t.numRows == u.numRows && t.vectors == u.vectors && t.attrs == u.attrs
    ensures DocAt(u, r) == DocAt(t, r)
  {
    DocAtLift(u, r);
    DocAtLift(t, r);
    SameDoc(DocAt(u, r), DocAt(t, r));
  }
}
