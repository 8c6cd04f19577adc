/** The editor's view of one serialized key or value slot, and the
    type-directed equality the drawer uses to spot repeated keys.  A slot is a
    tagged variant: its kind selects, through a fixed table, the accessor whose
    reading is compared. */
module PropertyValues {
  import opened Results

  /** The kinds a serialized property can report. */
  datatype PropertyType =
    | Generic | Integer | Boolean | Float | String | Color | ObjectReference
    | LayerMask | Enum | Vector2 | Vector3 | Vector4 | Rect | ArraySize
    | Character | AnimationCurve | Bounds | Gradient | Quaternion
    | ExposedReference | FixedBufferSize | Vector2Int | Vector3Int | RectInt
    | BoundsInt | ManagedReference | Hash128

  /** The value accessors of a serialized property. */
  datatype Accessor =
    | IntValue | BoolValue | FloatValue | StringValue | ColorValue
    | ObjectReferenceValue | Vector2Value | Vector3Value | Vector4Value
    | RectValue | AnimationCurveValue | BoundsValue | QuaternionValue

  /** What an accessor yields.  Floating-point components are abstracted as
      reals; object and curve references by an identity. */
  datatype Scalar =
    | IntScalar(i: int)
    | BoolScalar(b: bool)
    | RealScalar(r: real)
    | StringScalar(s: string)
    | RealsScalar(components: seq<real>)
    | Reference(id: nat)

  /** A serialized property: its kind and the readings of its accessors.  An
      accessor without a reading reads as null. */
  datatype Property = Property(kind: PropertyType, readings: map<Accessor, Scalar>)

  /** Reading accessor `a` of `p`; `None` stands for null. */
  function Read(p: Property, a: Accessor): Option<Scalar> {
    if a in p.readings then Some(p.readings[a]) else None
  }

  /** The accessor table built once by the drawer's static constructor: which
      accessor holds the value of a property of each kind.  Kinds that are not
      listed have no entry. */
  const ValueAccessors: map<PropertyType, Accessor> := map[
    Integer := IntValue,
    Boolean := BoolValue,
    Float := FloatValue,
    String := StringValue,
    Color := ColorValue,
    ObjectReference := ObjectReferenceValue,
    LayerMask := IntValue,
    Enum := IntValue,
    Vector2 := Vector2Value,
    Vector3 := Vector3Value,
    Vector4 := Vector4Value,
    Rect := RectValue,
    ArraySize := IntValue,
    Character := IntValue,
    AnimationCurve := AnimationCurveValue,
    Bounds := BoundsValue,
    Quaternion := QuaternionValue
  ]

  /** The failed dictionary lookup of a kind missing from the table. */
  datatype LookupError = KeyNotFound(kind: PropertyType)

  /** Type-directed value equality: properties of different kinds are never
      equal; for one kind the table picks the accessor whose readings are
      compared, and a kind absent from the table makes the lookup fail. */
  function EqualsValue(p1: Property, p2: Property): (r: Result<bool, LookupError>)
    ensures p1.kind != p2.kind ==> r == Ok(false)
    ensures r.Err? <==> p1.kind == p2.kind && p1.kind !in ValueAccessors
    ensures r.Err? ==> r.error == KeyNotFound(p1.kind)
    ensures r == Ok(true) ==> p1.kind == p2.kind && p1.kind in ValueAccessors
    ensures p1 == p2 && p1.kind in ValueAccessors ==> r == Ok(true)
  {
    if p1.kind != p2.kind then Ok(false)
    else if p1.kind !in ValueAccessors then Err(KeyNotFound(p1.kind))
    else
      var a := ValueAccessors[p1.kind];
      Ok(Read(p1, a) == Read(p2, a))
  }

  /** The relation is symmetric: swapping the operands gives the same answer,
      including the same failure. */
  lemma EqualsValueSymmetric(p1: Property, p2: Property)
    ensures EqualsValue(p1, p2) == EqualsValue(p2, p1)
  {
  }

  /** On kinds listed in the table the relation is transitive, so together
      with reflexivity and symmetry it is an equivalence. */
  lemma EqualsValueTransitive(p1: Property, p2: Property, p3: Property)
    requires EqualsValue(p1, p2) == Ok(true) && EqualsValue(p2, p3) == Ok(true)
    ensures EqualsValue(p1, p3) == Ok(true)
  {
  }

  /** Two kinds that share the `intValue` accessor are still told apart: a
      layer mask and an integer with the same number are not equal. */
  lemma KindsSharingAnAccessorDiffer(n: int)
    ensures ValueAccessors[LayerMask] == ValueAccessors[Integer] == IntValue
    ensures EqualsValue(Property(LayerMask, map[IntValue := IntScalar(n)]),
                        Property(Integer, map[IntValue := IntScalar(n)])) == Ok(false)
  {
  }
}
