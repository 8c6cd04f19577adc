/** One editor pass over a serializable dictionary and the drawer's height
    query.  The key and value arrays are the host's serialized arrays, given
    here as sequences; the pass returns the arrays after its edit, the
    duplicate-key reports it logged and where it placed each row. */
module PropertyDrawer {
  import Results
  import opened PropertyValues
  import opened RowEdits
  import opened RowLayout

  /** The rows other than `i` whose key equals the key of row `i`. */
  function DuplicatesOf(keys: seq<Property>, i: nat): set<nat>
    requires i < |keys|
  {
    set j: nat | j < |keys| && j != i && EqualsValue(keys[j], keys[i]) == Results.Ok(true)
  }

  /** Duplicate detection is symmetric: row `j` is reported for a change of
      row `i` exactly when row `i` would be reported for a change of row `j`. */
  lemma DuplicatesSymmetric(keys: seq<Property>, i: nat, j: nat)
    requires i < |keys| && j < |keys|
    ensures j in DuplicatesOf(keys, i) <==> i in DuplicatesOf(keys, j)
  {
  }

  /** Scanning for duplicates of row `i` throws: some other row has the same
      kind, and that kind has no entry in the accessor table. */
  predicate ScanFails(keys: seq<Property>, i: nat)
    requires i < |keys|
  {
    keys[i].kind !in ValueAccessors
    && exists j :: 0 <= j < |keys| && j != i && keys[j].kind == keys[i].kind
  }

  /** The advisory scan run when the key of row `i` changed: compare it with
      every other row and report those that hold an equal key.  It never
      reports `i` itself and leaves both arrays alone; it fails exactly when a
      comparison needs a missing table entry. */
  method ScanDuplicates(keys: seq<Property>, i: nat) returns (r: Results.Result<set<nat>, LookupError>)
    requires i < |keys|
    ensures r.Err? <==> ScanFails(keys, i)
    ensures r.Ok? ==> r.value == DuplicatesOf(keys, i)
    ensures r.Ok? ==> i !in r.value
    ensures r.Ok? ==> forall j :: j in r.value ==> j < |keys| && keys[j].kind == keys[i].kind
  {
    var found: set<nat> := {};
    var n := |keys|;
    for j := 0 to n
      invariant found == set j': nat | j' < j && j' != i && EqualsValue(keys[j'], keys[i]) == Results.Ok(true)
      invariant forall j' :: 0 <= j' < j && j' != i ==> keys[j'].kind != keys[i].kind || keys[i].kind in ValueAccessors
    {
      if j != i {
        var eq := EqualsValue(keys[j], keys[i]);
        if eq.Err? {
          return Results.Err(eq.error);
        }
        if eq.value {
          found := found + {j};
        }
      }
    }
    return Results.Ok(found);
  }

  /** The (changed row, equal row) pairs logged for the rows before `upto`
      whose key changed. */
  function Reported(keys: seq<Property>, rows: seq<RowInput>, upto: nat): set<(nat, nat)>
    requires |keys| == |rows| && upto <= |rows|
  {
    set a: nat, b: nat | a < upto && b < |keys| && rows[a].keyChanged && b in DuplicatesOf(keys, a) :: (a, b)
  }

  /** What a pass that did not throw leaves behind. */
  datatype PassResult<V> = PassResult(
    keys: seq<Property>,
    values: seq<V>,
    reported: set<(nat, nat)>,
    rowTops: seq<nat>)

  /** One pass of the drawer.  While expanded it walks the rows in order:
      it places each row below the previous one, runs the duplicate scan for
      a row whose key changed, and records the add button and then every
      remove click, a later one overwriting an earlier one.  After the walk
      the one recorded edit is applied to keys and values together, with the
      inserted key and value supplied by the host.  A failing scan throws out
      of the pass, which then edits nothing. */
  method OnGUI<V>(
    expanded: bool, addClicked: bool, rows: seq<RowInput>, sizes: seq<RowSize>,
    keys: seq<Property>, values: seq<V>, singleLineHeight: nat,
    newKey: Property, newValue: V)
    returns (r: Results.Result<PassResult<V>, LookupError>)
    requires |keys| == |values| == |rows| == |sizes|
    ensures r.Err? <==>
      expanded && exists i :: 0 <= i < |keys| && rows[i].keyChanged && ScanFails(keys, i)
    ensures r.Ok? ==>
      var e := SelectEdit(expanded, addClicked, rows);
      && r.value.keys == ApplyEdit(e, keys, newKey)
      && r.value.values == ApplyEdit(e, values, newValue)
      && |r.value.keys| == |r.value.values|
      && r.value.reported == (if expanded then Reported(keys, rows, |rows|) else {})
      && |r.value.rowTops| == (if expanded then |keys| else 0)
      && forall i :: 0 <= i < |r.value.rowTops| ==> r.value.rowTops[i] == RowTop(singleLineHeight, sizes, i)
  {
    var action := Action.None;
    var index := 0;
    var reported: set<(nat, nat)> := {};
    var tops: seq<nat> := [];
    if expanded {
      var n := |keys|;
      if addClicked {
        action, index := Add, n;
      }
      var y := singleLineHeight;
      for i := 0 to n
        invariant LastRemoveClick(rows[..i]).None? ==>
          if addClicked then action == Add && index == n else action == Action.None && index == 0
        invariant LastRemoveClick(rows[..i]).Some? ==>
          action == Remove && index == LastRemoveClick(rows[..i]).value
        invariant y == RowTop(singleLineHeight, sizes, i)
        invariant |tops| == i
        invariant forall j :: 0 <= j < i ==> tops[j] == RowTop(singleLineHeight, sizes, j)
        invariant reported == Reported(keys, rows, i)
        invariant forall j :: 0 <= j < i && rows[j].keyChanged ==> !ScanFails(keys, j)
      {
        assert rows[..i + 1][..i] == rows[..i];
        assert sizes[..i + 1][..i] == sizes[..i];
        tops := tops + [y];
        if rows[i].keyChanged {
          var scan := ScanDuplicates(keys, i);
          if scan.Err? {
            return Results.Err(scan.error);
          }
          reported := reported + set b | b in scan.value :: (i, b);
        }
        assert reported == Reported(keys, rows, i + 1);
        if rows[i].removeClicked {
          action, index := Remove, i;
        }
        y := y + LineHeight(sizes[i]);
      }
      assert rows[..n] == rows;
    }
    var e := Edit(action, index);
    return Results.Ok(PassResult(ApplyEdit(e, keys, newKey), ApplyEdit(e, values, newValue), reported, tops));
  }

  /** What the edit a pass selects does to either array: nothing without an
      action, an append for the add button, and for a remove click the
      deletion of that row with the later rows moving down by one. */
  lemma SelectedEditEffect<T>(expanded: bool, addClicked: bool, rows: seq<RowInput>, s: seq<T>, fill: T)
    requires |s| == |rows|
    ensures var e := SelectEdit(expanded, addClicked, rows);
      var r := ApplyEdit(e, s, fill);
      && (e.action == Action.None ==> r == s)
      && (e.action == Add ==> r == s + [fill])
      && (e.action == Remove ==>
            && |r| == |s| - 1
            && (forall j :: 0 <= j < e.index ==> r[j] == s[j])
            && (forall j :: e.index <= j < |r| ==> r[j] == s[j + 1]))
  {
  }

  /** The drawer's height query, accumulated row by row as the host asks for
      it; it agrees with the layout the pass uses. */
  method GetPropertyHeight(expanded: bool, singleLineHeight: nat, sizes: seq<RowSize>) returns (h: nat)
    ensures h == PropertyHeight(expanded, singleLineHeight, sizes)
  {
    h := singleLineHeight;
    if expanded {
      var n := |sizes|;
      for i := 0 to n
        invariant h == singleLineHeight + RowsHeight(sizes[..i])
      {
        assert sizes[..i + 1][..i] == sizes[..i];
        h := h + LineHeight(sizes[i]);
      }
      assert sizes[..n] == sizes;
    }
  }
}
