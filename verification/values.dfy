/** Runtime values as the reflection walk of options.go sees them.

    A value is either a primitive (anything that is neither a struct nor a
    pointer), a struct with its fields in declaration order, or a pointer that
    may be nil.  Types below the top level are not represented separately: the
    constructor of a value stands for its kind, and two fields paired by index
    in structs of one type always agree on it. */
module Values {
  import opened Wrappers

  /** Leaf data that is neither a struct nor a pointer.  Nil slices and nil
      maps are kept apart from empty ones, as deep equality and the zero test
      keep them apart. */
  datatype Scalar =
    | Int(i: int)
    | Bool(b: bool)
    | Str(s: string)
    | Slice(items: Option<seq<Scalar>>)
    | Dict(entries: Option<map<Scalar, Scalar>>)

  datatype Val =
    | Prim(p: Scalar)
    | Struct(name: string, fields: seq<Field>)
    | Ptr(to: Option<Val>)

  /** A struct field; `exported` stands for the field being settable and
      interfaceable through reflection. */
  datatype Field = Field(name: string, exported: bool, v: Val)

  /** The zero value of the type of `v`, as `reflect.Zero` produces it. */
  function ZeroOf(v: Val): (z: Val)
    decreases v
  {
    match v
    case Prim(p) => Prim(ZeroScalar(p))
    case Ptr(_) => Ptr(None)
    case Struct(n, fs) =>
      Struct(n, seq(|fs|, i requires 0 <= i < |fs| => Field(fs[i].name, fs[i].exported, ZeroOf(fs[i].v))))
  }

  function ZeroScalar(p: Scalar): Scalar {
    match p
    case Int(_) => Int(0)
    case Bool(_) => Bool(false)
    case Str(_) => Str("")
    case Slice(_) => Slice(None)
    case Dict(_) => Dict(None)
  }

  /** `Value.IsZero` kind by kind: numbers are 0, booleans false, strings
      empty, slices, maps and pointers nil, structs zero in every field. */
  predicate IsZero(v: Val)
    decreases v
  {
    match v
    case Prim(Int(i)) => i == 0
    case Prim(Bool(b)) => !b
    case Prim(Str(s)) => s == ""
    case Prim(Slice(items)) => items.None?
    case Prim(Dict(entries)) => entries.None?
    case Ptr(to) => to.None?
    case Struct(_, fs) => forall i :: 0 <= i < |fs| ==> IsZero(fs[i].v)
  }

  /** The kind-by-kind zero test agrees with "equals the zero of its type",
      so a type has exactly one zero value. */
  lemma {:induction false} IsZeroIffZeroOf(v: Val)
    ensures IsZero(v) <==> v == ZeroOf(v)
    decreases v
  {
    match v
    case Prim(p) =>
    case Ptr(_) =>
    case Struct(n, fs) =>
      var z := ZeroOf(v);
      forall i | 0 <= i < |fs|
        ensures IsZero(fs[i].v) <==> fs[i].v == z.fields[i].v
      {
        IsZeroIffZeroOf(fs[i].v);
      }
      if IsZero(v) {
        assert fs == z.fields;
      }
      if v == z {
        assert forall i :: 0 <= i < |fs| ==> fs[i].v == z.fields[i].v;
      }
  }

  /** The zero value is zero, of the same kind, and zeroing is idempotent. */
  lemma {:induction false} ZeroOfIsZero(v: Val)
    ensures IsZero(ZeroOf(v))
    ensures ZeroOf(ZeroOf(v)) == ZeroOf(v)
    ensures SameKind(ZeroOf(v), v) && SameKind(v, ZeroOf(v))
    decreases v
  {
    match v
    case Prim(p) =>
    case Ptr(_) =>
    case Struct(n, fs) =>
      var z := ZeroOf(v);
      forall i | 0 <= i < |fs|
        ensures IsZero(z.fields[i].v)
      {
        ZeroOfIsZero(fs[i].v);
      }
      IsZeroIffZeroOf(z);
  }

  /** Two values of the same kind: both structs, both pointers, or both
      primitives built the same way.  This is as much of Go's type identity as
      the value model keeps below the top level. */
  predicate SameKind(a: Val, b: Val) {
    match a
    case Struct(_, _) => b.Struct?
    case Ptr(_) => b.Ptr?
    case Prim(p) =>
      b.Prim? &&
      match p
      case Int(_) => b.p.Int?
      case Bool(_) => b.p.Bool?
      case Str(_) => b.p.Str?
      case Slice(_) => b.p.Slice?
      case Dict(_) => b.p.Dict?
  }

  /** The classifier `toStructOrStructPointer`: a struct is itself, a non-nil
      pointer to a struct is its pointee, anything else (a nil pointer, a
      pointer to a non-struct, a primitive) is not a struct. */
  function AsStruct(v: Val): (r: Option<Val>)
    ensures r.Some? ==> r.value.Struct?
    ensures r.Some? <==> v.Struct? || (v.Ptr? && v.to.Some? && v.to.value.Struct?)
    ensures r.Some? ==> r.value == v || (v.Ptr? && v.to.Some? && r.value == v.to.value)
    ensures v.Struct? ==> r == Some(v)
  {
    match v
    case Struct(_, _) => Some(v)
    case Ptr(Some(s)) => if s.Struct? then Some(s) else None
    case _ => None
  }

  /** Writing a struct back through the place the classifier found it: into
      the field itself, or into the pointee of a non-nil pointer. */
  function Rewrap(v: Val, s: Val): (r: Val)
    requires AsStruct(v).Some? && s.Struct?
    ensures AsStruct(r) == Some(s)
    ensures SameKind(r, v) && SameKind(v, r)
    ensures s == AsStruct(v).value ==> r == v
  {
    if v.Struct? then s else Ptr(Some(s))
  }

  /** Rewrapping is injective in the struct written back. */
  lemma RewrapInjective(v: Val, s: Val, t: Val)
    requires AsStruct(v).Some? && s.Struct? && t.Struct?
    ensures Rewrap(v, s) == Rewrap(v, t) <==> s == t
  {
  }
}
