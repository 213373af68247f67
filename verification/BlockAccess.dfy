/**
 * Block-wise column reads (columnar/src/block_accessor.rs): caches of the values of a block of
 * documents, optionally filled up with a default for the documents that have none.
 */
module BlockAccess {
  import opened Results

  // ---- columns ----

  datatype Cardinality = IsFull | IsOptional | IsMultivalued

  /** The rank and range lookups of the sparse indexes are part of the column. */
  datatype Index =
    | Empty(numDocs: nat)
    | Full
    | Optional(rank: nat -> Option<nat>)
    | Multivalued(range: nat -> (nat, nat))
  {
    function Cardinality(): (r: Cardinality)
      ensures r == IsFull <==> Full? || (Empty? && numDocs == 0)
      ensures r == IsMultivalued <==> Multivalued?
    {
      match this
      case Empty(n) => if n == 0 then IsFull else IsOptional
      case Full => IsFull
      case Optional(_) => IsOptional
      case Multivalued(_) => IsMultivalued
    }

    /** First and last-plus-one row of a document. */
    function RowIds(doc: nat): (nat, nat) {
      match this
      case Empty(_) => (0, 0)
      case Full => (doc, doc + 1)
      case Optional(rank) => var r := rank(doc); if r.Some? then (r.value, r.value + 1) else (0, 0)
      case Multivalued(range) => range(doc)
    }
  }

  datatype Column<T> = Column(index: Index, values: seq<T>) {
    /** Every document's rows hold values. */
    ghost predicate Valid() {
      && (index.Empty? ==> values == [])
      && (!index.Full? ==> forall doc: nat :: index.RowIds(doc).0 <= index.RowIds(doc).1 <= |values|)
    }

    /** The documents a caller may ask for: a full column is indexed directly. */
    predicate Readable(docs: seq<nat>) {
      index.Cardinality() == IsFull ==> forall i | 0 <= i < |docs| :: docs[i] < |values|
    }

    function ValuesForDoc(doc: nat): seq<T>
      requires index.RowIds(doc).0 <= index.RowIds(doc).1 <= |values|
    {
      values[index.RowIds(doc).0..index.RowIds(doc).1]
    }
  }

  /** The reference result: each document with each of its values, in order. */
  ghost function Pairs<T>(col: Column<T>, docs: seq<nat>): seq<(nat, T)>
    requires col.Valid() && col.Readable(docs)
  {
    if docs == [] then []
    else
      var doc := docs[|docs| - 1];
      Pairs(col, docs[..|docs| - 1]) + Tagged(doc, col.ValuesForDoc(doc))
  }

  function Tagged<T>(doc: nat, values: seq<T>): seq<(nat, T)> {
    seq(|values|, i requires 0 <= i < |values| => (doc, values[i]))
  }

  /** The documents without a value, in order. */
  function Missing(index: Index, docs: seq<nat>): seq<nat> {
    if docs == [] then []
    else
      var missing, doc := Missing(index, docs[..|docs| - 1]), docs[|docs| - 1];
      if index.RowIds(doc).0 >= index.RowIds(doc).1 then missing + [doc] else missing
  }

  function Filled<T>(docs: seq<nat>, value: T): seq<(nat, T)> {
    seq(|docs|, i requires 0 <= i < |docs| => (docs[i], value))
  }

  function Zip<T>(docs: seq<nat>, values: seq<T>): seq<(nat, T)> {
    seq(if |docs| <= |values| then |docs| else |values|,
        i requires 0 <= i < |docs| && i < |values| => (docs[i], values[i]))
  }

  function Firsts<T>(pairs: seq<(nat, T)>): seq<nat> {
    seq(|pairs|, i requires 0 <= i < |pairs| => pairs[i].0)
  }

  function Seconds<T>(pairs: seq<(nat, T)>): seq<T> {
    seq(|pairs|, i requires 0 <= i < |pairs| => pairs[i].1)
  }

  /** Pairs in step with two sequences of the same length are these sequences, zipped. */
  lemma ZipOf<T>(pairs: seq<(nat, T)>, docs: seq<nat>, values: seq<T>)
    requires |docs| == |values| == |pairs| && Firsts(pairs) <= docs && Seconds(pairs) <= values
    ensures pairs == Zip(docs, values)
  {
    forall i | 0 <= i < |pairs|
      ensures pairs[i] == Zip(docs, values)[i]
    {
      assert Firsts(pairs)[i] == docs[i] && Seconds(pairs)[i] == values[i];
    }
  }

  // ---- rows of a block ----

  function Rows(lo: nat, hi: nat): seq<nat>
    decreases hi - lo
  {
    if lo >= hi then [] else Rows(lo, hi - 1) + [hi - 1]
  }

  function Repeat(doc: nat, n: nat): seq<nat> {
    if n == 0 then [] else Repeat(doc, n - 1) + [doc]
  }

  function Width(index: Index, doc: nat): nat {
    var (lo, hi) := index.RowIds(doc);
    if lo < hi then hi - lo else 0
  }

  function FlatDocs(index: Index, docs: seq<nat>): seq<nat> {
    if docs == [] then []
    else
      var doc := docs[|docs| - 1];
      FlatDocs(index, docs[..|docs| - 1]) + Repeat(doc, Width(index, doc))
  }

  function FlatRows(index: Index, docs: seq<nat>): seq<nat> {
    if docs == [] then []
    else
      var (lo, hi) := index.RowIds(docs[|docs| - 1]);
      FlatRows(index, docs[..|docs| - 1]) + Rows(lo, hi)
  }

  // ---- what the listing holds ----

  /** The document reads this row: its own number, its rank, or one of its range. */
  ghost predicate ReadsRow(index: Index, doc: nat, row: nat) {
    match index
    case Empty(_) => false
    case Full => row == doc
    case Optional(rank) => rank(doc) == Some(row)
    case Multivalued(range) => range(doc).0 <= row < range(doc).1
  }

  /** Entry `k` stands for document `docs[at[k]]`; entries are ordered by document, then by row. */
  ghost predicate InRowOrder(docs: seq<nat>, outDocs: seq<nat>, outRows: seq<nat>, at: seq<nat>) {
    && |outDocs| == |outRows| == |at|
    && (forall k | 0 <= k < |at| :: at[k] < |docs| && outDocs[k] == docs[at[k]])
    && forall a, b | 0 <= a < b < |at| :: at[a] < at[b] || (at[a] == at[b] && outRows[a] < outRows[b])
  }

  ghost predicate Lists(outRows: seq<nat>, at: seq<nat>, i: nat, row: nat) {
    exists k | 0 <= k < |at| && k < |outRows| :: at[k] == i && outRows[k] == row
  }

  /** For every document asked for, exactly the rows it reads are listed. */
  ghost predicate ListsRows(index: Index, docs: seq<nat>, outRows: seq<nat>, at: seq<nat>) {
    forall i: nat, row: nat | i < |docs| :: Lists(outRows, at, i, row) <==> ReadsRow(index, docs[i], row)
  }

  lemma RowsRead(index: Index, doc: nat, row: nat)
    ensures ReadsRow(index, doc, row) <==> row in Rows(index.RowIds(doc).0, index.RowIds(doc).1)
  {
    var (lo, hi) := index.RowIds(doc);
    RowsInRange(lo, hi);
    if lo <= row < hi {
      assert Rows(lo, hi)[row - lo] == row;
    }
  }

  lemma ListedBefore(outRows: seq<nat>, at: seq<nat>, rows: seq<nat>, last: seq<nat>, n: nat, i: nat, row: nat)
    requires |outRows| == |at| && |rows| == |last| && i != n && forall k | 0 <= k < |last| :: last[k] == n
    ensures Lists(outRows + rows, at + last, i, row) <==> Lists(outRows, at, i, row)
  {
    if k :| 0 <= k < |at| && at[k] == i && outRows[k] == row {
      assert (at + last)[k] == i && (outRows + rows)[k] == row;
    }
  }

  lemma ListedLast(outRows: seq<nat>, at: seq<nat>, rows: seq<nat>, last: seq<nat>, n: nat, row: nat)
    requires |outRows| == |at| && |rows| == |last|
    requires (forall k | 0 <= k < |at| :: at[k] < n) && forall k | 0 <= k < |last| :: last[k] == n
    ensures Lists(outRows + rows, at + last, n, row) <==> row in rows
  {
    if k :| 0 <= k < |rows| && rows[k] == row {
      assert (at + last)[|at| + k] == n && (outRows + rows)[|at| + k] == row;
    }
  }

  lemma ListsMore(index: Index, docs: seq<nat>, outRows: seq<nat>, at: seq<nat>, doc: nat, rows: seq<nat>)
    requires |outRows| == |at| && ListsRows(index, docs, outRows, at) && forall k | 0 <= k < |at| :: at[k] < |docs|
    requires forall row :: row in rows <==> ReadsRow(index, doc, row)
    ensures ListsRows(index, docs + [doc], outRows + rows, at + Repeat(|docs|, |rows|))
  {
    var n, last := |docs|, Repeat(|docs|, |rows|);
    Repeats(n, |rows|);
    forall i: nat, row: nat | i < n + 1
      ensures Lists(outRows + rows, at + last, i, row) <==> ReadsRow(index, (docs + [doc])[i], row)
    {
      if i < n {
        ListedBefore(outRows, at, rows, last, n, i, row);
      } else {
        ListedLast(outRows, at, rows, last, n, row);
      }
    }
  }

  lemma OrderMore(docs: seq<nat>, outDocs: seq<nat>, outRows: seq<nat>, at: seq<nat>, doc: nat, same: seq<nat>,
                  rows: seq<nat>, last: seq<nat>)
    requires InRowOrder(docs, outDocs, outRows, at) && |same| == |rows| == |last|
    requires forall k | 0 <= k < |rows| :: same[k] == doc && last[k] == |docs|
    requires forall a, b | 0 <= a < b < |rows| :: rows[a] < rows[b]
    ensures InRowOrder(docs + [doc], outDocs + same, outRows + rows, at + last)
  {
    var n, rows', at' := |at|, outRows + rows, at + last;
    forall a, b | 0 <= a < b < |at'|
      ensures at'[a] < at'[b] || (at'[a] == at'[b] && rows'[a] < rows'[b])
    {
      if n <= a {
        assert rows'[a] == rows[a - n] && rows'[b] == rows[b - n];
      }
    }
  }

  /** The flat lists hold exactly the rows of each document, in order. */
  lemma {:induction false} FlatLists(index: Index, docs: seq<nat>) returns (at: seq<nat>)
    ensures InRowOrder(docs, FlatDocs(index, docs), FlatRows(index, docs), at)
    ensures ListsRows(index, docs, FlatRows(index, docs), at)
  {
    at := [];
    if docs != [] {
      var init, doc := docs[..|docs| - 1], docs[|docs| - 1];
      var (lo, hi) := index.RowIds(doc);
      var before := FlatLists(index, init);
      RowsInRange(lo, hi);
      forall row
        ensures row in Rows(lo, hi) <==> ReadsRow(index, doc, row)
      {
        RowsRead(index, doc, row);
      }
      ListsMore(index, init, FlatRows(index, init), before, doc, Rows(lo, hi));
      Repeats(doc, Width(index, doc));
      Repeats(|init|, |Rows(lo, hi)|);
      OrderMore(init, FlatDocs(index, init), FlatRows(index, init), before, doc, Repeat(doc, Width(index, doc)),
                Rows(lo, hi), Repeat(|init|, |Rows(lo, hi)|));
      at := before + Repeat(|init|, |Rows(lo, hi)|);
      assert docs == init + [doc];
    }
  }

  /** Appends each document once per row of it, and the rows. */
  method DocidsToRowids(index: Index, docs: seq<nat>, docsIn: seq<nat>, rowsIn: seq<nat>)
    returns (docsOut: seq<nat>, rowsOut: seq<nat>, ghost at: seq<nat>)
    ensures docsOut == docsIn + FlatDocs(index, docs) && rowsOut == rowsIn + FlatRows(index, docs)
    ensures InRowOrder(docs, docsOut[|docsIn|..], rowsOut[|rowsIn|..], at)
    ensures ListsRows(index, docs, rowsOut[|rowsIn|..], at)
  {
    at := FlatLists(index, docs);
    docsOut, rowsOut := RowidsOf(index, docs, docsIn, rowsIn);
    assert docsOut[|docsIn|..] == FlatDocs(index, docs) && rowsOut[|rowsIn|..] == FlatRows(index, docs);
  }

  method RowidsOf(index: Index, docs: seq<nat>, docsIn: seq<nat>, rowsIn: seq<nat>)
    returns (docsOut: seq<nat>, rowsOut: seq<nat>)
    ensures docsOut == docsIn + FlatDocs(index, docs) && rowsOut == rowsIn + FlatRows(index, docs)
  {
    docsOut, rowsOut := docsIn, rowsIn;
    match index
    case Empty(_) =>
      EmptyIsFlat(index, docs);
    case Full =>
      FullIsFlat(docs);
      docsOut, rowsOut := docsOut + docs, rowsOut + docs;
    case Optional(rank) =>
      docsOut, rowsOut := OptionalRows(index, docs, docsOut, rowsOut);
    case Multivalued(range) =>
      docsOut, rowsOut := MultivaluedRows(index, docs, docsOut, rowsOut);
  }

  method OptionalRows(index: Index, docs: seq<nat>, docsIn: seq<nat>, rowsIn: seq<nat>)
    returns (docsOut: seq<nat>, rowsOut: seq<nat>)
    requires index.Optional?
    ensures docsOut == docsIn + FlatDocs(index, docs) && rowsOut == rowsIn + FlatRows(index, docs)
  {
    docsOut, rowsOut := docsIn, rowsIn;
    for i := 0 to |docs|
      invariant docsOut == docsIn + FlatDocs(index, docs[..i]) && rowsOut == rowsIn + FlatRows(index, docs[..i])
    {
      assert docs[..i + 1][..i] == docs[..i];
      var row := index.rank(docs[i]);
      if row.Some? {
        SingleRow(docs[i], row.value);
        docsOut, rowsOut := docsOut + [docs[i]], rowsOut + [row.value];
      }
    }
    assert docs[..|docs|] == docs;
  }

  method MultivaluedRows(index: Index, docs: seq<nat>, docsIn: seq<nat>, rowsIn: seq<nat>)
    returns (docsOut: seq<nat>, rowsOut: seq<nat>)
    requires index.Multivalued?
    ensures docsOut == docsIn + FlatDocs(index, docs) && rowsOut == rowsIn + FlatRows(index, docs)
  {
    docsOut, rowsOut := docsIn, rowsIn;
    for i := 0 to |docs|
      invariant docsOut == docsIn + FlatDocs(index, docs[..i]) && rowsOut == rowsIn + FlatRows(index, docs[..i])
    {
      assert docs[..i + 1][..i] == docs[..i];
      var (lo, hi) := index.range(docs[i]);
      docsOut, rowsOut := AppendRows(docs[i], lo, hi, docsOut, rowsOut);
    }
    assert docs[..|docs|] == docs;
  }

  method AppendRows(doc: nat, lo: nat, hi: nat, docsIn: seq<nat>, rowsIn: seq<nat>)
    returns (docsOut: seq<nat>, rowsOut: seq<nat>)
    ensures docsOut == docsIn + Repeat(doc, if lo < hi then hi - lo else 0) && rowsOut == rowsIn + Rows(lo, hi)
  {
    docsOut, rowsOut := docsIn, rowsIn;
    var row := lo;
    while row < hi
      invariant lo <= row && (row <= hi || row == lo)
      invariant docsOut == docsIn + Repeat(doc, row - lo) && rowsOut == rowsIn + Rows(lo, row)
    {
      docsOut, rowsOut := docsOut + [doc], rowsOut + [row];
      row := row + 1;
    }
  }

  lemma SingleRow(doc: nat, row: nat)
    ensures Repeat(doc, 1) == [doc] && Rows(row, row + 1) == [row]
  {
    assert Repeat(doc, 0) + [doc] == [doc];
    assert Rows(row, row) + [row] == [row];
  }

  lemma {:induction false} EmptyIsFlat(index: Index, docs: seq<nat>)
    requires index.Empty?
    ensures FlatDocs(index, docs) == [] && FlatRows(index, docs) == []
  {
    if docs != [] {
      EmptyIsFlat(index, docs[..|docs| - 1]);
    }
  }

  lemma {:induction false} FullIsFlat(docs: seq<nat>)
    ensures FlatDocs(Full, docs) == docs && FlatRows(Full, docs) == docs
  {
    if docs != [] {
      var doc := docs[|docs| - 1];
      FullIsFlat(docs[..|docs| - 1]);
      SingleRow(doc, doc);
    }
  }

  // ---- values of a block ----

  function Gather<T>(values: seq<T>, indexes: seq<nat>): seq<T>
    requires forall i | 0 <= i < |indexes| :: indexes[i] < |values|
  {
    seq(|indexes|, i requires 0 <= i < |indexes| => values[indexes[i]])
  }

  /** Four values at a time, then the remainder. */
  method GetVals<T>(values: seq<T>, indexes: seq<nat>, output: array<T>)
    requires |indexes| == output.Length && forall i | 0 <= i < |indexes| :: indexes[i] < |values|
    modifies output
    ensures output[..] == Gather(values, indexes)
  {
    var i := 0;
    while i + 4 <= |indexes|
      invariant i <= |indexes|
      invariant forall k | 0 <= k < i :: output[k] == values[indexes[k]]
    {
      output[i] := values[indexes[i]];
      output[i + 1] := values[indexes[i + 1]];
      output[i + 2] := values[indexes[i + 2]];
      output[i + 3] := values[indexes[i + 3]];
      i := i + 4;
    }
    while i < |indexes|
      invariant i <= |indexes|
      invariant forall k | 0 <= k < i :: output[k] == values[indexes[k]]
    {
      output[i] := values[indexes[i]];
      i := i + 1;
    }
  }

  lemma {:induction false} RowsInRange(lo: nat, hi: nat)
    ensures |Rows(lo, hi)| == if lo < hi then hi - lo else 0
    ensures forall i | 0 <= i < |Rows(lo, hi)| :: Rows(lo, hi)[i] == lo + i
    decreases hi - lo
  {
    if lo < hi {
      RowsInRange(lo, hi - 1);
    }
  }

  lemma {:induction false} Repeats(doc: nat, n: nat)
    ensures |Repeat(doc, n)| == n && forall i | 0 <= i < n :: Repeat(doc, n)[i] == doc
  {
    if n > 0 {
      Repeats(doc, n - 1);
    }
  }

  lemma OneDoc<T>(col: Column<T>, doc: nat)
    requires col.index.RowIds(doc).0 <= col.index.RowIds(doc).1 <= |col.values|
    ensures var (lo, hi) := col.index.RowIds(doc);
            && (forall i | 0 <= i < |Rows(lo, hi)| :: Rows(lo, hi)[i] < |col.values|)
            && |Repeat(doc, Width(col.index, doc))| == |Rows(lo, hi)|
            && Zip(Repeat(doc, Width(col.index, doc)), Gather(col.values, Rows(lo, hi))) ==
                 Tagged(doc, col.ValuesForDoc(doc))
  {
    var (lo, hi) := col.index.RowIds(doc);
    RowsInRange(lo, hi);
    Repeats(doc, Width(col.index, doc));
  }

  /** Documents and values gathered row by row are the documents with their own values. */
  lemma {:induction false} FlatPairs<T>(col: Column<T>, docs: seq<nat>)
    requires col.Valid() && col.Readable(docs)
    ensures forall i | 0 <= i < |FlatRows(col.index, docs)| :: FlatRows(col.index, docs)[i] < |col.values|
    ensures |FlatDocs(col.index, docs)| == |FlatRows(col.index, docs)|
    ensures Zip(FlatDocs(col.index, docs), Gather(col.values, FlatRows(col.index, docs))) == Pairs(col, docs)
  {
    if docs != [] {
      var init, doc := docs[..|docs| - 1], docs[|docs| - 1];
      FlatPairs(col, init);
      OneDoc(col, doc);
      var (lo, hi) := col.index.RowIds(doc);
      GatherConcat(col.values, FlatDocs(col.index, init), FlatRows(col.index, init),
                   Repeat(doc, Width(col.index, doc)), Rows(lo, hi));
    }
  }

  lemma GatherConcat<T>(values: seq<T>, docs: seq<nat>, rows: seq<nat>, docs': seq<nat>, rows': seq<nat>)
    requires |docs| == |rows|
    requires forall i | 0 <= i < |rows| :: rows[i] < |values|
    requires forall i | 0 <= i < |rows'| :: rows'[i] < |values|
    ensures forall i | 0 <= i < |rows + rows'| :: (rows + rows')[i] < |values|
    ensures Zip(docs + docs', Gather(values, rows + rows')) ==
              Zip(docs, Gather(values, rows)) + Zip(docs', Gather(values, rows'))
  {
    assert Gather(values, rows + rows') == Gather(values, rows) + Gather(values, rows');
    ZipConcat(docs, Gather(values, rows), docs', Gather(values, rows'));
  }

  lemma ZipConcat<T>(docs: seq<nat>, values: seq<T>, docs': seq<nat>, values': seq<T>)
    requires |docs| == |values|
    ensures Zip(docs + docs', values + values') == Zip(docs, values) + Zip(docs', values')
  {
  }

  // ---- missing documents ----

  predicate Sorted(s: seq<nat>) {
    forall i, j | 0 <= i < j < |s| :: s[i] <= s[j]
  }

  /** The merge from the two cursors on. */
  function Merge(docs: seq<nat>, hits: seq<nat>): seq<nat>
    decreases |docs| + |hits|
  {
    if docs == [] || hits == [] then docs
    else if docs[0] < hits[0] then [docs[0]] + Merge(docs[1..], hits)
    else if docs[0] == hits[0] then Merge(docs[1..], hits[1..])
    else Merge(docs, hits[1..])
  }

  lemma ReportDoc(docs: seq<nat>, hits: seq<nat>)
    requires docs != [] && forall k | 0 <= k < |hits| :: docs[0] < hits[k]
    ensures multiset(docs) - multiset(hits) == multiset{docs[0]} + (multiset(docs[1..]) - multiset(hits))
  {
    assert docs == [docs[0]] + docs[1..];
    assert docs[0] !in hits;
  }

  lemma SkipBoth(docs: seq<nat>, hits: seq<nat>)
    requires docs != [] && hits != [] && docs[0] == hits[0]
    ensures multiset(docs[1..]) - multiset(hits[1..]) == multiset(docs) - multiset(hits)
  {
    assert docs == [docs[0]] + docs[1..] && hits == [hits[0]] + hits[1..];
  }

  lemma SkipHit(docs: seq<nat>, hits: seq<nat>)
    requires hits != [] && forall k | 0 <= k < |docs| :: hits[0] < docs[k]
    ensures multiset(docs) - multiset(hits[1..]) == multiset(docs) - multiset(hits)
  {
    assert hits == [hits[0]] + hits[1..];
    assert hits[0] !in docs;
  }

  /** With repetitions on either side the merge is multiset difference. */
  lemma {:induction false} MergeIsDifference(docs: seq<nat>, hits: seq<nat>)
    requires Sorted(docs) && Sorted(hits)
    ensures multiset(Merge(docs, hits)) == multiset(docs) - multiset(hits)
    decreases |docs| + |hits|
  {
    if docs != [] && hits != [] {
      if docs[0] < hits[0] {
        ReportDoc(docs, hits);
        MergeIsDifference(docs[1..], hits);
      } else if docs[0] == hits[0] {
        SkipBoth(docs, hits);
        MergeIsDifference(docs[1..], hits[1..]);
      } else {
        SkipHit(docs, hits);
        MergeIsDifference(docs, hits[1..]);
      }
    }
  }

  lemma {:induction false} MergeSorted(docs: seq<nat>, hits: seq<nat>)
    requires Sorted(docs)
    ensures Sorted(Merge(docs, hits)) && forall x | x in Merge(docs, hits) :: x in docs
    decreases |docs| + |hits|
  {
    if docs != [] && hits != [] {
      if docs[0] < hits[0] {
        MergeSorted(docs[1..], hits);
        var rest := Merge(docs[1..], hits);
        assert forall k | 0 <= k < |rest| :: rest[k] in docs[1..];
        assert Merge(docs, hits) == [docs[0]] + rest;
      } else if docs[0] == hits[0] {
        MergeSorted(docs[1..], hits[1..]);
      } else {
        MergeSorted(docs, hits[1..]);
      }
    }
  }

  lemma MergeAt(docs: seq<nat>, hits: seq<nat>, i: nat, j: nat)
    requires i < |docs| && j <= |hits|
    ensures j < |hits| && docs[i] > hits[j] ==> Merge(docs[i..], hits[j..]) == Merge(docs[i..], hits[j + 1..])
    ensures j < |hits| && docs[i] == hits[j] ==> Merge(docs[i..], hits[j..]) == Merge(docs[i + 1..], hits[j + 1..])
    ensures j == |hits| || docs[i] < hits[j] ==>
              Merge(docs[i..], hits[j..]) == [docs[i]] + Merge(docs[i + 1..], hits[j..])
  {
    assert docs[i..][1..] == docs[i + 1..];
    assert j < |hits| ==> hits[j..][1..] == hits[j + 1..];
    assert docs[i..] == [docs[i]] + docs[i + 1..];
  }

  method MergeLists(docs: seq<nat>, hits: seq<nat>) returns (missing: seq<nat>)
    ensures missing == Merge(docs, hits)
  {
    var i, j := 0, 0;
    missing := [];
    assert docs[0..] == docs && hits[0..] == hits;
    while i < |docs| && j < |hits|
      invariant i <= |docs| && j <= |hits|
      invariant missing + Merge(docs[i..], hits[j..]) == Merge(docs, hits)
      decreases |docs| - i + |hits| - j
    {
      MergeAt(docs, hits, i, j);
      if docs[i] < hits[j] {
        missing := missing + [docs[i]];
        i := i + 1;
      } else if docs[i] == hits[j] {
        i, j := i + 1, j + 1;
      } else {
        j := j + 1;
      }
    }
    while i < |docs|
      invariant i <= |docs| && j <= |hits| && (i < |docs| ==> j == |hits|)
      invariant missing + Merge(docs[i..], hits[j..]) == Merge(docs, hits)
    {
      MergeAt(docs, hits, i, j);
      missing := missing + [docs[i]];
      i := i + 1;
    }
    assert Merge(docs[i..], hits[j..]) == [];
  }

  /** Reports a document for each occurrence of it that no hit accounts for. */
  method FindMissingDocs(docs: seq<nat>, hits: seq<nat>) returns (missing: seq<nat>)
    requires Sorted(docs) && Sorted(hits)
    ensures Sorted(missing) && multiset(missing) == multiset(docs) - multiset(hits)
  {
    MergeSorted(docs, hits);
    MergeIsDifference(docs, hits);
    missing := MergeLists(docs, hits);
  }

  /** "All docs that are not in `hits`" holds exactly when no document occurs more often than its hits. */
  lemma ReportedAsDocumented(docs: seq<nat>, hits: seq<nat>)
    requires Sorted(docs) && Sorted(hits)
    ensures (forall x: nat :: multiset(Merge(docs, hits))[x] == if x in hits then 0 else multiset(docs)[x])
            <==> forall x: nat | x in hits :: multiset(docs)[x] <= multiset(hits)[x]
  {
    MergeIsDifference(docs, hits);
    forall x: nat
      ensures multiset(Merge(docs, hits))[x] == (multiset(docs) - multiset(hits))[x]
      ensures x !in hits ==> multiset(hits)[x] == 0
    {
    }
  }

  lemma FirstIsLeast(s: seq<nat>, x: nat)
    requires Sorted(s) && x in multiset(s)
    ensures s != [] && s[0] <= x
  {
    assert x in s;
  }

  lemma SameFirst(a: seq<nat>, b: seq<nat>)
    requires Sorted(a) && Sorted(b) && multiset(a) == multiset(b) && a != []
    ensures b != [] && a[0] == b[0]
  {
    assert a[0] in multiset(a);
    FirstIsLeast(b, a[0]);
    assert b[0] in multiset(b);
    FirstIsLeast(a, b[0]);
  }

  lemma Tail(s: seq<nat>)
    requires s != []
    ensures multiset(s) == multiset{s[0]} + multiset(s[1..])
  {
    assert s == [s[0]] + s[1..];
  }

  lemma SameTail(a: seq<nat>, b: seq<nat>)
    requires a != [] && b != [] && a[0] == b[0] && multiset(a) == multiset(b)
    ensures multiset(a[1..]) == multiset(b[1..])
  {
    Tail(a);
    Tail(b);
    assert multiset(a[1..]) == multiset(a) - multiset{a[0]};
    assert multiset(b[1..]) == multiset(b) - multiset{b[0]};
  }

  lemma HeadAndTail(a: seq<nat>, b: seq<nat>)
    requires a != [] && b != [] && a[0] == b[0] && a[1..] == b[1..]
    ensures a == b
  {
    assert a == [a[0]] + a[1..] && b == [b[0]] + b[1..];
  }

  lemma NoElements(s: seq<nat>)
    requires multiset(s) == multiset{}
    ensures s == []
  {
    assert |multiset(s)| == |s|;
  }

  /** A sorted sequence is determined by its elements. */
  lemma {:induction false} SortedUnique(a: seq<nat>, b: seq<nat>)
    requires Sorted(a) && Sorted(b) && multiset(a) == multiset(b)
    ensures a == b
    decreases |a|
  {
    if a == [] {
      NoElements(b);
    } else {
      SameFirst(a, b);
      SameTail(a, b);
      SortedUnique(a[1..], b[1..]);
      HeadAndTail(a, b);
    }
  }

  function Count(s: seq<nat>, x: nat): nat {
    if s == [] then 0 else Count(s[..|s| - 1], x) + if s[|s| - 1] == x then 1 else 0
  }

  lemma {:induction false} CountIsMultiplicity(s: seq<nat>, x: nat)
    ensures Count(s, x) == multiset(s)[x]
  {
    if s != [] {
      CountIsMultiplicity(s[..|s| - 1], x);
      assert s == s[..|s| - 1] + [s[|s| - 1]];
    }
  }

  lemma CountSnoc(s: seq<nat>, last: nat, x: nat)
    ensures Count(s + [last], x) == Count(s, x) + if last == x then 1 else 0
  {
    assert (s + [last])[..|s|] == s;
  }

  lemma AppendAgain(s: seq<nat>, doc: nat, n: nat)
    requires n > 0
    ensures s + Repeat(doc, n) == s + Repeat(doc, n - 1) + [doc]
  {
    var before := Repeat(doc, n - 1);
    assert s + (before + [doc]) == s + before + [doc];
  }

  lemma {:induction false} CountRepeat(s: seq<nat>, doc: nat, n: nat, x: nat)
    ensures Count(s + Repeat(doc, n), x) == Count(s, x) + if x == doc then n else 0
  {
    if n == 0 {
      assert s + [] == s;
    } else {
      CountRepeat(s, doc, n - 1, x);
      AppendAgain(s, doc, n);
      CountSnoc(s + Repeat(doc, n - 1), doc, x);
    }
  }

  /** A document occurs among the rows' documents at least as often as asked for, or never. */
  lemma {:induction false} FlatCounts(index: Index, docs: seq<nat>, x: nat)
    ensures Width(index, x) == 0 ==> Count(FlatDocs(index, docs), x) == 0
    ensures Width(index, x) > 0 ==> Count(FlatDocs(index, docs), x) >= Count(docs, x)
  {
    if docs != [] {
      var init, doc := docs[..|docs| - 1], docs[|docs| - 1];
      FlatCounts(index, init, x);
      CountRepeat(FlatDocs(index, init), doc, Width(index, doc), x);
    }
  }

  lemma {:induction false} MissingCounts(index: Index, docs: seq<nat>, x: nat)
    ensures Count(Missing(index, docs), x) == if Width(index, x) == 0 then Count(docs, x) else 0
  {
    if docs != [] {
      var init, doc := docs[..|docs| - 1], docs[|docs| - 1];
      MissingCounts(index, init, x);
      CountSnoc(Missing(index, init), doc, x);
    }
  }

  lemma MissingIsDifference(index: Index, docs: seq<nat>, x: nat)
    ensures multiset(Missing(index, docs))[x] == (multiset(docs) - multiset(FlatDocs(index, docs)))[x]
  {
    FlatCounts(index, docs, x);
    MissingCounts(index, docs, x);
    CountIsMultiplicity(docs, x);
    CountIsMultiplicity(FlatDocs(index, docs), x);
    CountIsMultiplicity(Missing(index, docs), x);
  }

  lemma {:induction false} FlatSorted(index: Index, docs: seq<nat>)
    requires Sorted(docs)
    ensures Sorted(FlatDocs(index, docs)) && Sorted(Missing(index, docs))
    ensures forall i | 0 <= i < |FlatDocs(index, docs)| :: FlatDocs(index, docs)[i] in docs
    ensures forall i | 0 <= i < |Missing(index, docs)| :: Missing(index, docs)[i] in docs
  {
    if docs != [] {
      var init, doc := docs[..|docs| - 1], docs[|docs| - 1];
      FlatSorted(index, init);
      Repeats(doc, Width(index, doc));
      SortedMore(docs, FlatDocs(index, init), Repeat(doc, Width(index, doc)));
      SortedMore(docs, Missing(index, init), [doc]);
    }
  }

  lemma SortedMore(docs: seq<nat>, s: seq<nat>, t: seq<nat>)
    requires docs != [] && Sorted(docs) && Sorted(s) && forall i | 0 <= i < |s| :: s[i] in docs[..|docs| - 1]
    requires forall i | 0 <= i < |t| :: t[i] == docs[|docs| - 1]
    ensures Sorted(s + t) && forall i | 0 <= i < |s + t| :: (s + t)[i] in docs
  {
  }

  /** Scanning the hits of a column reports exactly the documents without a value. */
  lemma ScanFindsMissing(index: Index, docs: seq<nat>, found: seq<nat>)
    requires Sorted(docs) && Sorted(found)
    requires multiset(found) == multiset(docs) - multiset(FlatDocs(index, docs))
    ensures found == Missing(index, docs)
  {
    FlatSorted(index, docs);
    forall x: nat
      ensures multiset(found)[x] == multiset(Missing(index, docs))[x]
    {
      MissingIsDifference(index, docs, x);
    }
    SortedUnique(found, Missing(index, docs));
  }

  method FindMissing(index: Index, docs: seq<nat>, hits: seq<nat>) returns (found: seq<nat>)
    requires Sorted(docs) && hits == FlatDocs(index, docs)
    ensures found == Missing(index, docs)
  {
    FlatSorted(index, docs);
    found := FindMissingDocs(docs, hits);
    ScanFindsMissing(index, docs, found);
  }

  /** With at most one value per document, equal lengths mean that nothing is missing. */
  lemma {:induction false} EqualLengths(index: Index, docs: seq<nat>)
    requires !index.Multivalued?
    ensures |FlatDocs(index, docs)| + |Missing(index, docs)| == |docs|
  {
    if docs != [] {
      var doc := docs[|docs| - 1];
      EqualLengths(index, docs[..|docs| - 1]);
      Repeats(doc, Width(index, doc));
    }
  }

  // ---- the accessor ----

  function Resize<T>(s: seq<T>, n: nat, fill: T): seq<T> {
    if n <= |s| then s[..n] else s + seq(n - |s|, _ => fill)
  }

  function Copies<T>(value: T, n: nat): seq<T> { seq(n, _ => value) }

  class ColumnBlockAccessor<T> {
    const zero: T
    var valCache: seq<T>
    var docidCache: seq<nat>
    var missingDocidsCache: seq<nat>
    var rowIdCache: seq<nat>

    constructor (zero: T)
      ensures valCache == [] && docidCache == [] && missingDocidsCache == [] && rowIdCache == []
    {
      this.zero, valCache, docidCache, missingDocidsCache, rowIdCache := zero, [], [], [], [];
    }

    function Docs(col: Column<T>, docs: seq<nat>): seq<nat>
      reads this
    {
      if col.index.Cardinality() == IsFull then docs else docidCache
    }

    /** The caches are aligned and list these pairs. */
    ghost predicate Holds(col: Column<T>, docs: seq<nat>, pairs: seq<(nat, T)>)
      reads this
    {
      |Docs(col, docs)| == |valCache| && Zip(Docs(col, docs), valCache) == pairs
    }

    method Fill(values: seq<T>, rows: seq<nat>)
      requires forall i | 0 <= i < |rows| :: rows[i] < |values|
      modifies this`valCache
      ensures valCache == Gather(values, rows)
    {
      valCache := Resize(valCache, |rows|, zero);
      var output := new T[|rows|](i requires 0 <= i < |rows| && |valCache| == |rows| reads this => valCache[i]);
      GetVals(values, rows, output);
      valCache := output[..];
    }

    method FetchBlock(docs: seq<nat>, col: Column<T>)
      requires col.Valid() && col.Readable(docs)
      modifies this
      ensures Holds(col, docs, Pairs(col, docs))
      ensures col.index.Cardinality() != IsFull ==> docidCache == FlatDocs(col.index, docs)
    {
      FlatPairs(col, docs);
      if col.index.Cardinality() == IsFull {
        FullRows(col, docs);
        Fill(col.values, docs);
      } else {
        docidCache, rowIdCache := [], [];
        ghost var at;
        docidCache, rowIdCache, at := DocidsToRowids(col.index, docs, docidCache, rowIdCache);
        Fill(col.values, rowIdCache);
      }
    }

    method AddMissing(docs: seq<nat>, index: Index, value: T)
      requires Sorted(docs) && docidCache == FlatDocs(index, docs)
      modifies this
      ensures docidCache == old(docidCache) + Missing(index, docs)
      ensures valCache == old(valCache) + Copies(value, |Missing(index, docs)|)
    {
      missingDocidsCache := [];
      var found := FindMissing(index, docs, docidCache);
      for i := 0 to |found|
        invariant missingDocidsCache == found[..i] && docidCache == old(docidCache)
        invariant valCache == old(valCache) + Copies(value, i)
      {
        missingDocidsCache := missingDocidsCache + [found[i]];
        valCache := valCache + [value];
      }
      docidCache := docidCache + missingDocidsCache;
    }

    method FetchBlockWithMissing(docs: seq<nat>, col: Column<T>, missing: Option<T>)
      requires col.Valid() && col.Readable(docs)
      requires missing.Some? && col.index.Cardinality() != IsFull ==> Sorted(docs)
      modifies this
      ensures Holds(col, docs, Pairs(col, docs) +
                               if missing.Some? then Filled(Missing(col.index, docs), missing.value) else [])
    {
      FetchBlock(docs, col);
      if col.index.Cardinality() == IsFull {
        FullRows(col, docs);
        return;
      }
      if missing.None? {
        return;
      }
      ghost var fetched := valCache;
      if col.index.Cardinality() == IsMultivalued || |docs| != |docidCache| {
        AddMissing(docs, col.index, missing.value);
        ghost var found := Missing(col.index, docs);
        ZipConcat(FlatDocs(col.index, docs), fetched, found, Copies(missing.value, |found|));
      } else {
        EqualLengths(col.index, docs);
      }
    }

    /** The documents and the values come out in step, as far as both go. */
    method IterDocidVals(docs: seq<nat>, col: Column<T>) returns (r: seq<(nat, T)>)
      ensures |r| == |Docs(col, docs)| || |r| == |valCache|
      ensures Firsts(r) <= Docs(col, docs) && Seconds(r) <= valCache
    {
      if col.index.Cardinality() == IsFull {
        r := Zip(docs, valCache);
      } else {
        r := Zip(docidCache, valCache);
      }
    }

    /** What a caller sees: fetch a block, then iterate over it. */
    method FetchThenIterate(docs: seq<nat>, col: Column<T>, missing: Option<T>) returns (r: seq<(nat, T)>)
      requires col.Valid() && col.Readable(docs)
      requires missing.Some? && col.index.Cardinality() != IsFull ==> Sorted(docs)
      modifies this
      ensures r == Pairs(col, docs) + if missing.Some? then Filled(Missing(col.index, docs), missing.value) else []
    {
      FetchBlockWithMissing(docs, col, missing);
      r := IterDocidVals(docs, col);
      ZipOf(r, Docs(col, docs), valCache);
    }
  }

  lemma FullRows<T>(col: Column<T>, docs: seq<nat>)
    requires col.Valid() && col.Readable(docs) && col.index.Cardinality() == IsFull
    ensures FlatDocs(col.index, docs) == docs == FlatRows(col.index, docs) && Missing(col.index, docs) == []
  {
    if col.index.Full? {
      FullIsFlat(docs);
      EqualLengths(col.index, docs);
    }
  }
}
