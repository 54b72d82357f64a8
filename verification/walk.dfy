/** The two recursive walks of options.go, `setStruct` and `stripStruct`.

    Both run over a target struct and a default struct in lockstep, pairing
    fields by index.  Unexported fields are skipped before classification; an
    exported field the classifier resolves to a struct is walked into, and any
    other exported field is a leaf handled by the walk's leaf policy.  The
    walks are pure here: they return the updated target instead of writing
    through reflection. */
module Walk {
  import opened Wrappers
  import opened Values

  /** The walk over target struct `v` against the classifier's result `d` on
      the default side cannot panic.  `defStr.Field(i)` is evaluated for every
      index of the target, exported or not, so whenever the target has a field
      the default side must be a struct with at least as many fields.  Every
      exported target field must pair with an exported default of the same
      kind: a leaf is read through `Interface` or written with `Set`, both of
      which panic on a field read from an unexported one or of another type.
      Every field that is walked into must pair with a default that is safe in
      turn. */
  predicate WalkSafe(v: Val, d: Option<Val>)
    decreases v, 1
  {
    && v.Struct?
    && (|v.fields| > 0 ==>
          && d.Some?
          && d.value.Struct?
          && |d.value.fields| >= |v.fields|
          && forall i :: 0 <= i < |v.fields| ==> FieldSafe(v.fields[i], d.value.fields[i]))
  }

  predicate FieldSafe(f: Field, df: Field)
    decreases f, 0
  {
    && (f.exported ==> df.exported && SameKind(f.v, df.v))
    && (f.exported && AsStruct(f.v).Some? ==> WalkSafe(AsStruct(f.v).value, AsStruct(df.v)))
  }

  /** A field the walk treats as a leaf: exported, and not a struct or a
      non-nil pointer to one. */
  predicate IsLeaf(f: Field) {
    f.exported && AsStruct(f.v).None?
  }

  /** A field the walk descends into. */
  predicate IsBranch(f: Field) {
    f.exported && AsStruct(f.v).Some?
  }

  /** Two struct values agree on everything the walks never write: the struct
      name, the field names and export flags, and every unexported field. */
  predicate SameFrame(a: Val, b: Val) {
    && a.Struct? && b.Struct?
    && a.name == b.name
    && |a.fields| == |b.fields|
    && forall i :: 0 <= i < |a.fields| ==>
         && a.fields[i].name == b.fields[i].name
         && a.fields[i].exported == b.fields[i].exported
         && (!a.fields[i].exported ==> a.fields[i] == b.fields[i])
  }

  // ---------------------------------------------------------------- setStruct

  /** `setStruct`: fill every zero leaf of `v` from the paired field of `d`. */
  function SetStruct(v: Val, d: Option<Val>): (r: Val)
    requires WalkSafe(v, d)
    ensures SameFrame(v, r)
    ensures forall i :: 0 <= i < |v.fields| && IsBranch(v.fields[i]) ==>
              IsBranch(r.fields[i]) && SameFrame(AsStruct(v.fields[i].v).value, AsStruct(r.fields[i].v).value)
    ensures forall i :: 0 <= i < |v.fields| && IsLeaf(v.fields[i]) && !IsZero(v.fields[i].v) ==>
              r.fields[i] == v.fields[i]
    ensures forall i :: 0 <= i < |v.fields| && IsLeaf(v.fields[i]) && IsZero(v.fields[i].v) ==>
              r.fields[i].v == d.value.fields[i].v
    decreases v, 1
  {
    if |v.fields| == 0 then v
    else
      Struct(v.name, seq(|v.fields|, i requires 0 <= i < |v.fields| => SetField(v.fields[i], d.value.fields[i])))
  }

  /** One iteration of the `setStruct` loop. */
  function SetField(f: Field, df: Field): (r: Field)
    requires FieldSafe(f, df)
    ensures r.name == f.name && r.exported == f.exported
    ensures !f.exported ==> r == f
    ensures IsBranch(f) ==> IsBranch(r) && SameFrame(AsStruct(f.v).value, AsStruct(r.v).value)
    ensures IsLeaf(f) && !IsZero(f.v) ==> r == f
    ensures IsLeaf(f) && IsZero(f.v) ==> r.v == df.v
    ensures IsLeaf(f) ==> (IsZero(r.v) <==> IsZero(f.v) && IsZero(df.v))
    ensures f.exported && f.v == Ptr(None) ==> r.v == df.v
    ensures f.exported ==> SameKind(f.v, r.v)
    decreases f, 0
  {
    if !f.exported then f
    else match AsStruct(f.v)
      case Some(s) => f.(v := Rewrap(f.v, SetStruct(s, AsStruct(df.v))))
      case None => if IsZero(f.v) then f.(v := df.v) else f
  }

  // -------------------------------------------------------------- stripStruct

  /** `stripStruct`: reset every leaf of `v` that deep-equals the paired field
      of `d` to the zero value of its type. */
  function StripStruct(v: Val, d: Option<Val>): (r: Val)
    requires WalkSafe(v, d)
    ensures SameFrame(v, r)
    ensures forall i :: 0 <= i < |v.fields| ==> (IsBranch(v.fields[i]) <==> IsBranch(r.fields[i]))
    ensures forall i :: 0 <= i < |v.fields| && IsBranch(v.fields[i]) ==>
              IsBranch(r.fields[i]) && SameFrame(AsStruct(v.fields[i].v).value, AsStruct(r.fields[i].v).value)
    ensures forall i :: 0 <= i < |v.fields| && IsLeaf(v.fields[i]) && v.fields[i].v != d.value.fields[i].v ==>
              r.fields[i] == v.fields[i]
    ensures forall i :: 0 <= i < |v.fields| && IsLeaf(v.fields[i]) && v.fields[i].v == d.value.fields[i].v ==>
              r.fields[i].v == ZeroOf(v.fields[i].v)
    decreases v, 1
  {
    if |v.fields| == 0 then v
    else
      Struct(v.name, seq(|v.fields|, i requires 0 <= i < |v.fields| => StripField(v.fields[i], d.value.fields[i])))
  }

  /** One iteration of the `stripStruct` loop. */
  function StripField(f: Field, df: Field): (r: Field)
    requires FieldSafe(f, df)
    ensures r.name == f.name && r.exported == f.exported
    ensures !f.exported ==> r == f
    ensures IsBranch(f) <==> IsBranch(r)
    ensures IsBranch(f) ==> SameFrame(AsStruct(f.v).value, AsStruct(r.v).value)
    ensures IsLeaf(f) && f.v != df.v ==> r == f
    ensures IsLeaf(f) && f.v == df.v ==> r.v == ZeroOf(f.v) && IsZero(r.v)
    ensures IsLeaf(f) && r.v == df.v ==> IsZero(df.v)
    ensures f.v == Ptr(None) ==> r.v == Ptr(None)
    ensures f.exported ==> SameKind(f.v, r.v)
    decreases f, 0
  {
    if !f.exported then f
    else match AsStruct(f.v)
      case Some(s) => f.(v := Rewrap(f.v, StripStruct(s, AsStruct(df.v))))
      case None =>
        ZeroOfIsZero(f.v);
        if f.v == df.v then f.(v := ZeroOf(f.v)) else f
  }
}
