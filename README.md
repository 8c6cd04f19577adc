# Serializable dictionary and its editor drawer, modelled in Dafny

The system is a Unity `Dictionary<TKey, TValue>` that can be persisted by an
engine which only stores flat arrays, together with an inspector drawer that
edits the same arrays as a list of key/value rows.

- `serialization.dfy` (module `Serialization`): the dictionary as a class
  `SerializableDictionary` with the live map `dict` and the two serialized
  arrays `keys` (`m_keys`) and `values` (`m_values`), `None` standing for
  `null`.  `OnBeforeSerialize` fills two fresh arrays from the map in the
  dictionary's enumeration order, which is left arbitrary (the loop picks any
  key not yet written).  `OnAfterDeserialize` clears the map, refills it row by
  row (a repeated key keeps its last value) and drops both arrays.  The pure
  function `FromFlat` specifies the refill; `IsFlatOf` says what a correct
  flat projection of a map is.  The round trip and its idempotence are lemmas
  and two client methods.
- `property_values.dfy` (module `PropertyValues`): serialized property kinds,
  value accessors, the kind-to-accessor table the drawer builds once, and the
  type-directed `EqualsValue`, which fails (`Err`) when the kind has no table
  entry, as the dictionary lookup in the source throws.
- `row_edits.dfy` (module `RowEdits`): inserting and deleting an array element,
  the button actions `None`/`Add`/`Remove`, which edit a pass records, and how
  it is applied to an array.
- `row_layout.dfy` (module `RowLayout`): row heights (the larger of the key and
  value editor heights), the drawer's total height and the top of each row.
- `property_drawer.dfy` (module `PropertyDrawer`): the advisory duplicate-key
  scan, one whole `OnGUI` pass over the rows (layout, scan, action selection,
  edit applied to both arrays), and `GetPropertyHeight`.
- `results.dfy` (module `Results`): `Option` for null and `Result` for a call
  that throws.

When either array is null or their lengths differ, `OnAfterDeserialize`
does nothing at all: the map keeps its entries, both arrays stay, and the map
is not emptied.

## Model

| member | source | states |
|---|---|---|
| `Serialization.FromFlat` | Assets/SerializableDictionary.cs:15-22 | the rebuilt map's key set is exactly the set of elements of `m_keys`, and it has at most as many entries as there are rows |
| `Serialization.FromFlatLastWins` | Assets/SerializableDictionary.cs:19-22 | the value stored under a key is `m_values[j]` for the last index `j` holding that key (last write wins) |
| `Serialization.FlatLength` | Assets/SerializableDictionary.cs:32-42 | a flat projection of a map has `m_keys.Length == m_values.Length == Count` |
| `Serialization.RoundTrip` | Assets/SerializableDictionary.cs:15-42 | rebuilding the map from any flat projection of it gives back the same map |
| `Serialization.ReloadIsFixedPoint` | Assets/SerializableDictionary.cs:15-42 | once a load has collapsed duplicate keys, saving and loading again yields the same map |
| `Serialization.DuplicateKeyExample` | Assets/SerializableDictionary.cs:17-22 | rows `a,a,b` with values `1,2,3` load as the two-entry map `{a:2, b:3}` |
| `Serialization.SerializableDictionary.constructor` | Assets/SerializableDictionary.cs:6-11 | a new dictionary is empty and both arrays are null |
| `Serialization.SerializableDictionary.OnAfterDeserialize` | Assets/SerializableDictionary.cs:13-28 | with both arrays present and equally long, the map becomes exactly `FromFlat` of the arrays (old entries discarded) and both arrays become null; otherwise the map and both arrays are unchanged |
| `Serialization.SerializableDictionary.OnBeforeSerialize` | Assets/SerializableDictionary.cs:30-43 | the map is unchanged; two fresh arrays of length `Count` hold every key once, exactly the map's keys, each paired with its value |
| `Serialization.Flatten` | Assets/SerializableDictionary.cs:32-42 | filling the arrays while enumerating the map in any order produces a flat projection of the map |
| `Serialization.SaveThenLoad` | Assets/SerializableDictionary.cs:13-43 | `OnBeforeSerialize` then `OnAfterDeserialize` leaves the map as it was and both arrays null |
| `Serialization.LoadSaveLoad` | Assets/SerializableDictionary.cs:13-43 | load, save, load ends with the map the first load produced |
| `PropertyValues.EqualsValue` | Assets/Editor/SerializableDictionaryPropertyDrawer.cs:187-194 | different kinds are never equal (even `LayerMask` and `Integer`, which share `intValue`); the lookup fails exactly when the kinds agree and the kind has no table entry; a result of true implies the same, tabled kind; a property equals itself |
| `PropertyValues.EqualsValueSymmetric` | Assets/Editor/SerializableDictionaryPropertyDrawer.cs:187-194 | swapping the two properties gives the same answer, including the same failure |
| `PropertyValues.EqualsValueTransitive` | Assets/Editor/SerializableDictionaryPropertyDrawer.cs:187-194 | equality of values is transitive |
| `PropertyValues.KindsSharingAnAccessorDiffer` | Assets/Editor/SerializableDictionaryPropertyDrawer.cs:156-194 | the table maps `LayerMask` and `Integer` to the same accessor, yet equal numbers of those two kinds compare unequal |
| `RowEdits.InsertAt` | Assets/Editor/SerializableDictionaryPropertyDrawer.cs:115-119 | inserting at an index adds exactly one element there; earlier elements keep their positions, later ones move up by one |
| `RowEdits.DeleteAt` | Assets/Editor/SerializableDictionaryPropertyDrawer.cs:120-124 | deleting at an index removes exactly that element; earlier elements are unchanged, later ones move down by one in order |
| `RowEdits.DeleteAfterInsert` | Assets/Editor/SerializableDictionaryPropertyDrawer.cs:115-124 | inserting at `i` and then deleting at `i` restores the sequence |
| `RowEdits.InsertAtEndAppends` | Assets/Editor/SerializableDictionaryPropertyDrawer.cs:56-59 | inserting at `dictSize`, the current length, appends |
| `RowEdits.LastRemoveClick` | Assets/Editor/SerializableDictionaryPropertyDrawer.cs:103-107 | the row found is clicked and no later row is; without a result, no row is clicked |
| `RowEdits.SelectEdit` | Assets/Editor/SerializableDictionaryPropertyDrawer.cs:25-107 | a collapsed list records nothing; `Add` comes only from the add button and sits at `dictSize`; `Remove` names a clicked row in `[0, dictSize)` with no later click; any remove click while expanded overrides the add button; any click while expanded records an action |
| `RowEdits.ApplyEdit` | Assets/Editor/SerializableDictionaryPropertyDrawer.cs:115-124 | the change in an array's length depends only on the action: none, one more, one fewer |
| `RowEdits.SelectedEditIsApplicable` | Assets/Editor/SerializableDictionaryPropertyDrawer.cs:51-107 | the recorded index is always valid for the edit it is applied with |
| `RowEdits.ApplyEditKeepsPairing` | Assets/Editor/SerializableDictionaryPropertyDrawer.cs:115-124 | applying the edit to keys and to values keeps their lengths equal |
| `RowEdits.InsertThenRemoveExample` | Assets/Editor/SerializableDictionaryPropertyDrawer.cs:115-124 | keys `a,b` / values `x,y`: insert a blank row at 1, then remove row 0, gives `"",b` / `"",y` |
| `RowLayout.LineHeight` | Assets/Editor/SerializableDictionaryPropertyDrawer.cs:70-73 | a row is as tall as the taller of its key and value editors |
| `RowLayout.RowsHeightAppend` | Assets/Editor/SerializableDictionaryPropertyDrawer.cs:138-146 | the rows' height is additive over a split of the rows |
| `RowLayout.RowsHeightMonotone` | Assets/Editor/SerializableDictionaryPropertyDrawer.cs:138-146 | any prefix of the rows is at most as tall as all of them |
| `RowLayout.PropertyHeightGrowsWithRows` | Assets/Editor/SerializableDictionaryPropertyDrawer.cs:129-150 | the expanded height never decreases when rows are added; the collapsed height does not depend on the rows |
| `RowLayout.RowsTile` | Assets/Editor/SerializableDictionaryPropertyDrawer.cs:63-109 | each row starts where the previous ends and ends within the reported height |
| `RowLayout.RowsSpanDrawer` | Assets/Editor/SerializableDictionaryPropertyDrawer.cs:63-109 | for any number of rows, including none, the first row starts under the header line and the last row ends exactly at the reported expanded height |
| `PropertyDrawer.DuplicatesSymmetric` | Assets/Editor/SerializableDictionaryPropertyDrawer.cs:80-92 | row `j` is reported for a change of row `i` exactly when row `i` would be for a change of row `j` |
| `PropertyDrawer.ScanDuplicates` | Assets/Editor/SerializableDictionaryPropertyDrawer.cs:80-92 | reports exactly the rows `j != i` whose key equals row `i`'s, never `i` itself and only keys of the same kind; fails exactly when another row has the same kind and that kind has no table entry; takes the arrays by value and changes neither |
| `PropertyDrawer.OnGUI` | Assets/Editor/SerializableDictionaryPropertyDrawer.cs:21-127 | the pass fails exactly when the list is expanded and some changed row's scan fails; otherwise keys and values both receive the one selected edit (so they stay equally long), the reports are the (changed row, equal row) pairs, and row `i` is placed at the header height plus the heights of the rows before it |
| `PropertyDrawer.SelectedEditEffect` | Assets/Editor/SerializableDictionaryPropertyDrawer.cs:115-124 | with no action both arrays are unchanged; `Add` appends the host's element; `Remove` at `i` keeps earlier rows and moves later ones down by one |
| `PropertyDrawer.GetPropertyHeight` | Assets/Editor/SerializableDictionaryPropertyDrawer.cs:129-150 | the loop's sum equals the header line when collapsed and the header plus the sum over rows of the larger editor height when expanded |

## Left out

- Rendering: labels, buttons, icons, rectangle x-positions and widths, `indentLevel`, and `BeginProperty`/`EndProperty` are host UI; only the rows' vertical offsets are modelled.
- The reflection that finds the dictionary field and its `m_keys`/`m_values` fields in `OnGUI`: its results are never used, but it can throw (the field lookup by property path returns null for a dictionary that is not a direct field of the script, such as one nested in another class or in an array, and the pass then fails before any row is drawn); the model's `OnGUI` never fails there.
- The reflection in the static constructor: the accessor table is a constant and reading an accessor is a map lookup.
- Floating point: editor heights are naturals, and float, colour, vector, rectangle and quaternion values are reals compared by mathematical equality, not `object.Equals` on IEEE values (NaN, signed zero).
- `Debug.Log`: the scan's messages are modelled as the set of reported (changed row, equal row) pairs.
- The persistence engine and when it invokes the two callbacks: they are explicit method calls here.
- Unity's in-place key edit inside the pass: the keys given to `OnGUI` are the values after this pass's widget edits, and `keyChanged` flags the rows whose widget reported a change.
- The contents of the element that `InsertArrayElementAtIndex` inserts are decided by the host and are parameters; Unity's special case of deleting a non-null object reference (which first clears it instead of removing the row) is not modelled.
- `PropertyDrawer.OnGUI`: when a scan fails the result carries no reports, although messages for rows scanned earlier in that pass were already logged.
- Null keys: a null reference key makes the source's dictionary indexer throw part-way through `OnAfterDeserialize`; keys in the model have no null value.
- The operations `SerializableDictionary` inherits from `Dictionary` (indexer, `Add`, `Remove`, ...) are not part of the source; the model lets callers assign `dict` directly.
- C# `int` limits on array lengths and counts are not modelled.
- The drawer subclasses that bind concrete type pairs are host registration only.
