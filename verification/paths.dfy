/** A second, independent view of the walks: what happens at one field
    anywhere in the tree, named by the path of field indices leading to it.

    `At` follows a path through fields the classifier resolves to structs,
    exactly as the default side is followed; `Reached` additionally demands
    that every field passed through is exported, which is when the target-side
    walk gets to the field at the end of the path. */
module Paths {
  import opened Wrappers
  import opened Values
  import opened Walk

  /** The field at path `p` below struct `v`, following structs and non-nil
      pointers to structs. */
  function At(v: Val, p: seq<nat>): Option<Field>
    decreases |p|
  {
    if |p| == 0 || !v.Struct? || p[0] >= |v.fields| then None
    else if |p| == 1 then Some(v.fields[p[0]])
    else match AsStruct(v.fields[p[0]].v)
      case None => None
      case Some(s) => At(s, p[1..])
  }

  /** The walk over `v` visits the field at path `p`. */
  predicate Reached(v: Val, p: seq<nat>)
    ensures Reached(v, p) ==> At(v, p).Some?
    decreases |p|
  {
    && |p| >= 1
    && v.Struct?
    && p[0] < |v.fields|
    && (|p| == 1 || (IsBranch(v.fields[p[0]]) && Reached(AsStruct(v.fields[p[0]].v).value, p[1..])))
  }

  /** Zero-fill: at every field the walk visits, the field keeps its name,
      export flag and kind, a zero leaf takes the default's field, a non-zero
      leaf and an unexported field stay as they are, and a struct or non-nil
      pointer to a struct is walked into rather than replaced. */
  lemma {:induction false} SetAtPath(v: Val, d: Option<Val>, p: seq<nat>)
    requires WalkSafe(v, d) && Reached(v, p)
    ensures d.Some? && At(d.value, p).Some?
    ensures Reached(SetStruct(v, d), p)
    ensures var f := At(v, p).value; var r := At(SetStruct(v, d), p).value;
      && r.name == f.name && r.exported == f.exported
      && (IsLeaf(f) && IsZero(f.v) ==> r.v == At(d.value, p).value.v)
      && (IsLeaf(f) && !IsZero(f.v) ==> r == f)
      && (!f.exported ==> r == f)
      && (f.exported ==> SameKind(f.v, r.v))
      && (IsBranch(f) ==> IsBranch(r) && SameFrame(AsStruct(f.v).value, AsStruct(r.v).value))
    decreases |p|
  {
    var r := SetStruct(v, d);
    var i := p[0];
    assert r.fields[i] == SetField(v.fields[i], d.value.fields[i]);
    if |p| > 1 {
      var f := v.fields[i];
      var df := d.value.fields[i];
      var s := AsStruct(f.v).value;
      var ds := AsStruct(df.v);
      assert r.fields[i].v == Rewrap(f.v, SetStruct(s, ds));
      SetAtPath(s, ds, p[1..]);
    }
  }

  /** Equality-strip: at every field the walk visits, the field keeps its
      name, export flag and kind, a leaf equal to the default's field becomes
      the zero of its type, any other leaf and any unexported field stay as
      they are, and struct-valued fields are walked into rather than
      replaced, keeping their frame. */
  lemma {:induction false} StripAtPath(v: Val, d: Option<Val>, p: seq<nat>)
    requires WalkSafe(v, d) && Reached(v, p)
    ensures d.Some? && At(d.value, p).Some?
    ensures Reached(StripStruct(v, d), p)
    ensures var f := At(v, p).value; var r := At(StripStruct(v, d), p).value;
      && r.name == f.name && r.exported == f.exported
      && (IsLeaf(f) && f.v == At(d.value, p).value.v ==> r.v == ZeroOf(f.v))
      && (IsLeaf(f) && f.v != At(d.value, p).value.v ==> r == f)
      && (!f.exported ==> r == f)
      && (f.exported ==> SameKind(f.v, r.v))
      && (IsBranch(f) <==> IsBranch(r))
      && (IsBranch(f) ==> SameFrame(AsStruct(f.v).value, AsStruct(r.v).value))
    decreases |p|
  {
    var r := StripStruct(v, d);
    var i := p[0];
    assert r.fields[i] == StripField(v.fields[i], d.value.fields[i]);
    if |p| > 1 {
      var f := v.fields[i];
      var df := d.value.fields[i];
      var s := AsStruct(f.v).value;
      var ds := AsStruct(df.v);
      assert r.fields[i].v == Rewrap(f.v, StripStruct(s, ds));
      StripAtPath(s, ds, p[1..]);
    }
  }

  /** What walk-safety buys at every field the walk visits: the defaults have
      a field at the same path, and an exported target field pairs with an
      exported default field of the same kind, so it can be read and written
      without a panic. */
  lemma {:induction false} DefaultsCover(v: Val, d: Option<Val>, p: seq<nat>)
    requires WalkSafe(v, d) && Reached(v, p)
    ensures d.Some? && At(d.value, p).Some?
    ensures var f := At(v, p).value; var df := At(d.value, p).value;
      f.exported ==> df.exported && SameKind(f.v, df.v)
    decreases |p|
  {
    var i := p[0];
    assert FieldSafe(v.fields[i], d.value.fields[i]);
    if |p| > 1 {
      DefaultsCover(AsStruct(v.fields[i].v).value, AsStruct(d.value.fields[i].v), p[1..]);
    }
  }

  /** A field behind an unexported field is never visited, however deep the
      unexported field is: an unexported struct is not walked into. */
  lemma {:induction false} HiddenStopsWalk(v: Val, p: seq<nat>, q: seq<nat>)
    requires Reached(v, p) && !At(v, p).value.exported && |q| > 0
    ensures !Reached(v, p + q)
    decreases |p|
  {
    assert (p + q)[0] == p[0];
    if |p| > 1 {
      assert (p + q)[1..] == p[1..] + q;
      HiddenStopsWalk(AsStruct(v.fields[p[0]].v).value, p[1..], q);
    }
  }

  /** No exported leaf the walk reaches is zero while differing from the
      default's field at the same path. */
  ghost predicate NoLossyLeaf(v: Val, d: Option<Val>) {
    forall p :: Reached(v, p) && IsLeaf(At(v, p).value) && IsZero(At(v, p).value.v) ==>
      d.Some? && At(d.value, p).Some? && At(v, p).value.v == At(d.value, p).value.v
  }

  /** Paths below a branch field are the paths of the struct it resolves to. */
  lemma ThroughBranch(v: Val, d: Option<Val>, i: nat, q: seq<nat>)
    requires WalkSafe(v, d) && i < |v.fields| && IsBranch(v.fields[i]) && |q| >= 1
    ensures Reached(v, [i] + q) <==> Reached(AsStruct(v.fields[i].v).value, q)
    ensures At(v, [i] + q) == At(AsStruct(v.fields[i].v).value, q)
    ensures d.Some? && At(d.value, [i] + q) ==
              (match AsStruct(d.value.fields[i].v) case None => None case Some(s) => At(s, q))
  {
    assert ([i] + q)[0] == i && ([i] + q)[1..] == q;
  }
}
