/** The drawer's edit model: the key and value arrays are shown as rows, and
    one pass of the editor records at most one button action which it then
    applies to both arrays together. */
module RowEdits {
  import Results

  /** `s` with `x` inserted at `index`: what inserting an array element at an
      index does, with the new element's contents supplied by the host. */
  function InsertAt<T>(s: seq<T>, index: nat, x: T): (r: seq<T>)
    requires index <= |s|
    ensures |r| == |s| + 1
    ensures r[index] == x
    ensures forall j :: 0 <= j < index ==> r[j] == s[j]
    ensures forall j :: index < j < |r| ==> r[j] == s[j - 1]
  {
    s[..index] + [x] + s[index..]
  }

  /** `s` without its element at `index`; later elements move down by one. */
  function DeleteAt<T>(s: seq<T>, index: nat): (r: seq<T>)
    requires index < |s|
    ensures |r| == |s| - 1
    ensures forall j :: 0 <= j < index ==> r[j] == s[j]
    ensures forall j :: index <= j < |r| ==> r[j] == s[j + 1]
  {
    s[..index] + s[index + 1..]
  }

  /** Deleting the element just inserted restores the sequence. */
  lemma DeleteAfterInsert<T>(s: seq<T>, index: nat, x: T)
    requires index <= |s|
    ensures DeleteAt(InsertAt(s, index, x), index) == s
  {
  }

  /** Inserting at the current length appends. */
  lemma InsertAtEndAppends<T>(s: seq<T>, x: T)
    ensures InsertAt(s, |s|, x) == s + [x]
  {
  }

  /** The button actions a pass can record. */
  datatype Action = None | Add | Remove

  /** The action recorded by a pass and the row it applies to. */
  datatype Edit = Edit(action: Action, index: nat)

  /** The host's report for one row in one pass: whether its key widget
      changed and whether its remove button was clicked. */
  datatype RowInput = RowInput(keyChanged: bool, removeClicked: bool)

  /** The last row whose remove button was clicked, if any. */
  function LastRemoveClick(rows: seq<RowInput>): (r: Results.Option<nat>)
    ensures r.Some? ==>
      && r.value < |rows|
      && rows[r.value].removeClicked
      && forall j :: r.value < j < |rows| ==> !rows[j].removeClicked
    ensures r.None? ==> forall j :: 0 <= j < |rows| ==> !rows[j].removeClicked
    decreases |rows|
  {
    if rows == [] then Results.None
    else if rows[|rows| - 1].removeClicked then Results.Some(|rows| - 1)
    else LastRemoveClick(rows[..|rows| - 1])
  }

  /** The edit a pass records.  Nothing is recorded while the list is
      collapsed.  The add button is looked at first and sets `Add` at the
      current row count; every remove click on a later-drawn row overwrites
      what was recorded before, so the last clicked row wins. */
  function SelectEdit(expanded: bool, addClicked: bool, rows: seq<RowInput>): (e: Edit)
    ensures !expanded ==> e.action == None
    ensures e.action == Add ==> expanded && addClicked && e.index == |rows|
    ensures e.action == Remove ==>
      && expanded && e.index < |rows| && rows[e.index].removeClicked
      && forall j :: e.index < j < |rows| ==> !rows[j].removeClicked
    ensures expanded && (exists j :: 0 <= j < |rows| && rows[j].removeClicked)
      ==> e.action == Remove
    ensures expanded && (addClicked || exists j :: 0 <= j < |rows| && rows[j].removeClicked)
      ==> e.action != None
  {
    if !expanded then Edit(None, 0)
    else match LastRemoveClick(rows)
      case Some(i) => Edit(Remove, i)
      case None => if addClicked then Edit(Add, |rows|) else Edit(None, 0)
  }

  /** An edit is applicable to a sequence of `n` rows. */
  predicate Applicable(e: Edit, n: nat) {
    match e.action
    case None => true
    case Add => e.index <= n
    case Remove => e.index < n
  }

  /** Applying a recorded edit to one of the two arrays.  The change in length
      depends only on the action, so the keys and the values, edited
      together, stay equally long. */
  function ApplyEdit<T>(e: Edit, s: seq<T>, fill: T): (r: seq<T>)
    requires Applicable(e, |s|)
    ensures |r| == match e.action
      case None => |s|
      case Add => |s| + 1
      case Remove => |s| - 1
  {
    match e.action
    case None => s
    case Add => InsertAt(s, e.index, fill)
    case Remove => DeleteAt(s, e.index)
  }

  /** A selected edit always fits the arrays it is applied to. */
  lemma SelectedEditIsApplicable(expanded: bool, addClicked: bool, rows: seq<RowInput>)
    ensures Applicable(SelectEdit(expanded, addClicked, rows), |rows|)
  {
  }

  /** Editing both arrays with the same edit keeps them equally long. */
  lemma ApplyEditKeepsPairing<K, V>(e: Edit, keys: seq<K>, values: seq<V>, k: K, v: V)
    requires |keys| == |values| && Applicable(e, |keys|)
    ensures |ApplyEdit(e, keys, k)| == |ApplyEdit(e, values, v)|
  {
  }

  /** Keys ["a", "b"] and values ["x", "y"]: inserting a blank row at 1 and
      then removing row 0 leaves ["", "b"] and ["", "y"]. */
  lemma InsertThenRemoveExample()
    ensures InsertAt(["a", "b"], 1, "") == ["a", "", "b"]
    ensures InsertAt(["x", "y"], 1, "") == ["x", "", "y"]
    ensures DeleteAt(["a", "", "b"], 0) == ["", "b"]
    ensures DeleteAt(["x", "", "y"], 0) == ["", "y"]
  {
  }
}
