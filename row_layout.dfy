/** Vertical layout of the dictionary drawer: a header line, then, when the
    list is expanded, one line per row as tall as the taller of its key and
    value editors.  Heights are measured by the host and taken as naturals. */
module RowLayout {

  /** The host-measured heights of one row's key and value editors. */
  datatype RowSize = RowSize(keyHeight: nat, valueHeight: nat)

  /** A row is as tall as the taller of its two editors. */
  function LineHeight(r: RowSize): (h: nat)
    ensures h >= r.keyHeight && h >= r.valueHeight
    ensures h == r.keyHeight || h == r.valueHeight
  {
    if r.keyHeight >= r.valueHeight then r.keyHeight else r.valueHeight
  }

  /** The summed line heights of the rows. */
  function RowsHeight(sizes: seq<RowSize>): nat
    decreases |sizes|
  {
    if sizes == [] then 0
    else RowsHeight(sizes[..|sizes| - 1]) + LineHeight(sizes[|sizes| - 1])
  }

  /** The drawer's total height: the header line alone when collapsed, the
      header plus every row when expanded. */
  function PropertyHeight(expanded: bool, singleLineHeight: nat, sizes: seq<RowSize>): nat {
    if expanded then singleLineHeight + RowsHeight(sizes) else singleLineHeight
  }

  /** Where row `i` starts, measured from the top of the drawer: below the
      header and every earlier row. */
  function RowTop(singleLineHeight: nat, sizes: seq<RowSize>, i: nat): nat
    requires i <= |sizes|
  {
    singleLineHeight + RowsHeight(sizes[..i])
  }

  /** The height of a concatenation is the sum of the heights. */
  lemma {:induction false} RowsHeightAppend(a: seq<RowSize>, b: seq<RowSize>)
    ensures RowsHeight(a + b) == RowsHeight(a) + RowsHeight(b)
    decreases |b|
  {
    if b == [] {
      assert a + b == a;
    } else {
      var n := |b| - 1;
      assert (a + b)[..|a + b| - 1] == a + b[..n];
      RowsHeightAppend(a, b[..n]);
    }
  }

  /** Adding rows never makes the list shorter: the rows of any prefix take
      at most the height of all rows. */
  lemma RowsHeightMonotone(sizes: seq<RowSize>, n: nat)
    requires n <= |sizes|
    ensures RowsHeight(sizes[..n]) <= RowsHeight(sizes)
  {
    assert sizes == sizes[..n] + sizes[n..];
    RowsHeightAppend(sizes[..n], sizes[n..]);
  }

  /** When expanded, the total height is non-decreasing in the number of
      rows; when collapsed it does not depend on the rows at all. */
  lemma PropertyHeightGrowsWithRows(expanded: bool, singleLineHeight: nat, sizes: seq<RowSize>, more: seq<RowSize>)
    ensures PropertyHeight(expanded, singleLineHeight, sizes) <= PropertyHeight(expanded, singleLineHeight, sizes + more)
    ensures !expanded ==> PropertyHeight(expanded, singleLineHeight, sizes) == PropertyHeight(expanded, singleLineHeight, more)
  {
    RowsHeightAppend(sizes, more);
  }

  /** Rows tile the drawer: row `i + 1` starts where row `i` ends, and every
      row ends within the total height reported for the expanded drawer. */
  lemma {:induction false} RowsTile(singleLineHeight: nat, sizes: seq<RowSize>, i: nat)
    requires i < |sizes|
    ensures RowTop(singleLineHeight, sizes, i + 1) == RowTop(singleLineHeight, sizes, i) + LineHeight(sizes[i])
    ensures RowTop(singleLineHeight, sizes, i) + LineHeight(sizes[i]) <= PropertyHeight(true, singleLineHeight, sizes)
  {
    assert sizes[..i + 1][..i] == sizes[..i];
    RowsHeightMonotone(sizes, i + 1);
  }

  /** The rows span the drawer below its header: the first row starts under
      the header line and the last one ends at the total expanded height;
      with no rows both are the header line. */
  lemma RowsSpanDrawer(singleLineHeight: nat, sizes: seq<RowSize>)
    ensures RowTop(singleLineHeight, sizes, 0) == singleLineHeight
    ensures RowTop(singleLineHeight, sizes, |sizes|) == PropertyHeight(true, singleLineHeight, sizes)
  {
    assert sizes[..0] == [];
    assert sizes[..|sizes|] == sizes;
  }
}
