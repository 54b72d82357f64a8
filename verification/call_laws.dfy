/** The walk laws lifted to the public entry points: idempotence of each
    call and the strip-then-set round trip, including the validation step. */
module CallLaws {
  import opened Wrappers
  import opened Values
  import opened Walk
  import opened Options
  import opened Laws
  import opened Paths

  /** A call that succeeded leaves a target that passes validation against the
      same defaults again. */
  lemma SucceededStaysValid(v: Iface, def: Iface, r: Outcome)
    requires Validate(v, def).None?
    requires IsStructPointer(r.target) && SameFrame(Pointee(v), Pointee(r.target))
    ensures Validate(r.target, def).None?
  {
  }

  /** Calling `SetDefaults` twice with the same `def` has the effect of one
      call, errors included. */
  lemma SetDefaultsIdempotent(v: Iface, def: Iface)
    requires CanWalk(v, def)
    ensures CanWalk(SetDefaults(v, def).target, def)
    ensures SetDefaults(SetDefaults(v, def).target, def) == SetDefaults(v, def)
  {
    var r := SetDefaults(v, def);
    if r.err.None? {
      SucceededStaysValid(v, def, r);
      SetIdempotent(Pointee(v), Some(def.v));
    }
  }

  /** Calling `StripDefaults` twice with the same `def` has the effect of one
      call, errors included. */
  lemma StripDefaultsIdempotent(v: Iface, def: Iface)
    requires CanWalk(v, def)
    ensures CanWalk(StripDefaults(v, def).target, def)
    ensures StripDefaults(StripDefaults(v, def).target, def) == StripDefaults(v, def)
  {
    var r := StripDefaults(v, def);
    if r.err.None? {
      SucceededStaysValid(v, def, r);
      StripIdempotent(Pointee(v), Some(def.v));
    }
  }

  /** Serialising only the non-default fields and filling the defaults back
      in restores the target, exactly when none of its zero leaves differs
      from its default. */
  lemma StripThenSetDefaults(v: Iface, def: Iface)
    requires CanWalk(v, def) && Validate(v, def).None?
    ensures CanWalk(StripDefaults(v, def).target, def)
    ensures SetDefaults(StripDefaults(v, def).target, def) == Outcome(v, None) <==>
              Recoverable(Pointee(v), Some(def.v))
  {
    var r := StripDefaults(v, def);
    SucceededStaysValid(v, def, r);
    StripThenSet(Pointee(v), Some(def.v));
  }

  /** A successful `SetDefaults` fills every zero leaf of the caller's struct,
      at any depth, from the defaults' field at the same path, and leaves
      non-zero leaves and unexported fields as they were; every field keeps
      its name and export flag and every nested struct its frame. */
  lemma SetDefaultsAtPath(v: Iface, def: Iface, p: seq<nat>)
    requires CanWalk(v, def) && Validate(v, def).None? && Reached(Pointee(v), p)
    ensures IsStructPointer(SetDefaults(v, def).target)
    ensures At(def.v, p).Some? && Reached(Pointee(SetDefaults(v, def).target), p)
    ensures var f := At(Pointee(v), p).value; var r := At(Pointee(SetDefaults(v, def).target), p).value;
      && r.name == f.name && r.exported == f.exported
      && (IsLeaf(f) && IsZero(f.v) ==> r.v == At(def.v, p).value.v)
      && (IsLeaf(f) && !IsZero(f.v) ==> r == f)
      && (!f.exported ==> r == f)
      && (f.exported ==> SameKind(f.v, r.v))
      && (IsBranch(f) ==> IsBranch(r) && SameFrame(AsStruct(f.v).value, AsStruct(r.v).value))
  {
    SetAtPath(Pointee(v), Some(def.v), p);
  }

  /** A successful `StripDefaults` resets every leaf of the caller's struct
      that equals the defaults' field at the same path, at any depth, and
      leaves every other leaf and every unexported field as it was; every
      field keeps its name and export flag and every nested struct its
      frame. */
  lemma StripDefaultsAtPath(v: Iface, def: Iface, p: seq<nat>)
    requires CanWalk(v, def) && Validate(v, def).None? && Reached(Pointee(v), p)
    ensures IsStructPointer(StripDefaults(v, def).target)
    ensures At(def.v, p).Some? && Reached(Pointee(StripDefaults(v, def).target), p)
    ensures var f := At(Pointee(v), p).value; var r := At(Pointee(StripDefaults(v, def).target), p).value;
      && r.name == f.name && r.exported == f.exported
      && (IsLeaf(f) && f.v == At(def.v, p).value.v ==> r.v == ZeroOf(f.v))
      && (IsLeaf(f) && f.v != At(def.v, p).value.v ==> r == f)
      && (!f.exported ==> r == f)
      && (f.exported ==> SameKind(f.v, r.v))
      && (IsBranch(f) <==> IsBranch(r))
      && (IsBranch(f) ==> SameFrame(AsStruct(f.v).value, AsStruct(r.v).value))
  {
    StripAtPath(Pointee(v), Some(def.v), p);
  }
}
