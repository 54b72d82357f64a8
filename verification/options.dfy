/** The two public entry points of options.go, `SetDefaults` and
    `StripDefaults`, with the validation they share.

    A Go `interface{}` argument is either nil or holds a value.  The target is
    passed as a pointer to the caller's struct; the model returns the pointer
    with its pointee replaced, which is what the in-place writes amount to. */
module Options {
  import opened Wrappers
  import opened Values
  import opened Walk

  datatype Iface = Nil | Boxed(v: Val)

  datatype Error = ValueNotStructPointer | DefNotStructValue | DifferentStructTypes

  /** The text of the error `errors.New` builds for each failure. */
  function Message(e: Error): string {
    match e
    case ValueNotStructPointer => "value must be a struct pointer"
    case DefNotStructValue => "def must be a struct value"
    case DifferentStructTypes => "value and def have different struct types"
  }

  /** What a call leaves behind: the target argument after the call, and the
      returned error, `None` standing for a nil error. */
  datatype Outcome = Outcome(target: Iface, err: Option<Error>)

  /** A non-nil pointer to a struct. */
  predicate IsStructPointer(x: Iface) {
    x.Boxed? && x.v.Ptr? && x.v.to.Some? && x.v.to.value.Struct?
  }

  predicate IsStructValue(x: Iface) {
    x.Boxed? && x.v.Struct?
  }

  function Pointee(x: Iface): (s: Val)
    requires IsStructPointer(x)
    ensures s.Struct?
  {
    x.v.to.value
  }

  /** The checks both entry points run before walking, in source order; the
      type check compares type names only. */
  function Validate(v: Iface, def: Iface): (e: Option<Error>)
    ensures e == Some(ValueNotStructPointer) <==> !IsStructPointer(v)
    ensures e == Some(DefNotStructValue) <==> IsStructPointer(v) && !IsStructValue(def)
    ensures e == Some(DifferentStructTypes) <==>
              IsStructPointer(v) && IsStructValue(def) && Pointee(v).name != def.v.name
    ensures e.None? <==> IsStructPointer(v) && IsStructValue(def) && Pointee(v).name == def.v.name
  {
    if v.Nil? || !v.v.Ptr? then Some(ValueNotStructPointer)
    else if v.v.to.None? || !v.v.to.value.Struct? then Some(ValueNotStructPointer)
    else if def.Nil? || !def.v.Struct? then Some(DefNotStructValue)
    else if v.v.to.value.name != def.v.name then Some(DifferentStructTypes)
    else None
  }

  /** A call that passes validation walks without panicking. */
  predicate CanWalk(v: Iface, def: Iface) {
    Validate(v, def).None? ==> WalkSafe(Pointee(v), Some(def.v))
  }

  /** `SetDefaults`: validate, then fill the zero leaves of `*v` from `def`. */
  function SetDefaults(v: Iface, def: Iface): (r: Outcome)
    requires CanWalk(v, def)
    ensures r.err == Validate(v, def)
    ensures r.err.Some? ==> r.target == v
    ensures r.err.None? ==> IsStructPointer(r.target) && SameFrame(Pointee(v), Pointee(r.target))
    ensures r.err.None? ==> forall i :: 0 <= i < |Pointee(v).fields| && IsLeaf(Pointee(v).fields[i]) ==>
              Pointee(r.target).fields[i].v ==
                (if IsZero(Pointee(v).fields[i].v) then def.v.fields[i].v else Pointee(v).fields[i].v)
  {
    match Validate(v, def)
    case Some(e) => Outcome(v, Some(e))
    case None => Outcome(Boxed(Ptr(Some(SetStruct(Pointee(v), Some(def.v))))), None)
  }

  /** `StripDefaults`: validate, then reset the leaves of `*v` that equal
      `def`'s to their zero values. */
  function StripDefaults(v: Iface, def: Iface): (r: Outcome)
    requires CanWalk(v, def)
    ensures r.err == Validate(v, def)
    ensures r.err.Some? ==> r.target == v
    ensures r.err.None? ==> IsStructPointer(r.target) && SameFrame(Pointee(v), Pointee(r.target))
    ensures r.err.None? ==> forall i :: 0 <= i < |Pointee(v).fields| && IsLeaf(Pointee(v).fields[i]) ==>
              Pointee(r.target).fields[i].v ==
                (if Pointee(v).fields[i].v == def.v.fields[i].v then ZeroOf(Pointee(v).fields[i].v)
                 else Pointee(v).fields[i].v)
  {
    match Validate(v, def)
    case Some(e) => Outcome(v, Some(e))
    case None => Outcome(Boxed(Ptr(Some(StripStruct(Pointee(v), Some(def.v))))), None)
  }
}
