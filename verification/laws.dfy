/** Laws relating several calls of the walks: a struct defaults to itself,
    each walk leaves its input safe to walk again, both walks are idempotent,
    and stripping then setting gives back exactly the targets whose zero leaves
    all agree with the defaults. */
module Laws {
  import opened Wrappers
  import opened Values
  import opened Walk
  import opened Paths

  lemma RewrapTwice(v: Val, s: Val, t: Val)
    requires AsStruct(v).Some? && s.Struct? && t.Struct?
    ensures Rewrap(Rewrap(v, s), t) == Rewrap(v, t)
  {
  }

  /** Any struct can be walked against itself. */
  lemma {:induction false} SelfSafe(x: Val)
    requires x.Struct?
    ensures WalkSafe(x, Some(x))
    decreases x
  {
    forall i | 0 <= i < |x.fields|
      ensures FieldSafe(x.fields[i], x.fields[i])
    {
      if IsBranch(x.fields[i]) {
        SelfSafe(AsStruct(x.fields[i].v).value);
      }
    }
  }

  /** Setting a struct's defaults from itself changes nothing. */
  lemma {:induction false} SetFromSelf(x: Val)
    requires x.Struct?
    ensures WalkSafe(x, Some(x))
    ensures SetStruct(x, Some(x)) == x
    decreases x
  {
    SelfSafe(x);
    var r := SetStruct(x, Some(x));
    forall i | 0 <= i < |x.fields|
      ensures r.fields[i] == x.fields[i]
    {
      var f := x.fields[i];
      assert r.fields[i] == SetField(f, f);
      if IsBranch(f) {
        SetFromSelf(AsStruct(f.v).value);
      }
    }
    assert r.fields == x.fields;
  }

  /** The result of `setStruct` can be walked against the same defaults again.
      A nil pointer that took the default's pointer pairs with that very
      pointer, which is safe by `SelfSafe`. */
  lemma {:induction false} SetKeepsSafe(v: Val, d: Option<Val>)
    requires WalkSafe(v, d)
    ensures WalkSafe(SetStruct(v, d), d)
    decreases v
  {
    var r := SetStruct(v, d);
    forall i | 0 <= i < |r.fields|
      ensures FieldSafe(r.fields[i], d.value.fields[i])
    {
      var f := v.fields[i];
      var df := d.value.fields[i];
      assert r.fields[i] == SetField(f, df);
      if IsBranch(f) {
        SetKeepsSafe(AsStruct(f.v).value, AsStruct(df.v));
      } else if IsLeaf(f) && IsZero(f.v) && AsStruct(df.v).Some? {
        SelfSafe(AsStruct(df.v).value);
      }
    }
  }

  /** `SetDefaults` is idempotent: a second call with the same defaults finds
      no zero leaf it would fill differently. */
  lemma {:induction false} SetIdempotent(v: Val, d: Option<Val>)
    requires WalkSafe(v, d)
    ensures WalkSafe(SetStruct(v, d), d)
    ensures SetStruct(SetStruct(v, d), d) == SetStruct(v, d)
    decreases v
  {
    SetKeepsSafe(v, d);
    var r1 := SetStruct(v, d);
    var r2 := SetStruct(r1, d);
    forall i | 0 <= i < |v.fields|
      ensures r2.fields[i] == r1.fields[i]
    {
      var f := v.fields[i];
      var df := d.value.fields[i];
      assert r1.fields[i] == SetField(f, df);
      assert r2.fields[i] == SetField(r1.fields[i], df);
      if IsBranch(f) {
        SetIdempotent(AsStruct(f.v).value, AsStruct(df.v));
      } else if IsLeaf(f) && IsZero(f.v) && AsStruct(df.v).Some? {
        SetFromSelf(AsStruct(df.v).value);
      }
    }
    assert r2.fields == r1.fields;
  }

  /** The result of `stripStruct` can be walked against the same defaults
      again: stripping turns no leaf into a struct and no struct into a leaf. */
  lemma {:induction false} StripKeepsSafe(v: Val, d: Option<Val>)
    requires WalkSafe(v, d)
    ensures WalkSafe(StripStruct(v, d), d)
    decreases v
  {
    var r := StripStruct(v, d);
    forall i | 0 <= i < |r.fields|
      ensures FieldSafe(r.fields[i], d.value.fields[i])
    {
      var f := v.fields[i];
      var df := d.value.fields[i];
      assert r.fields[i] == StripField(f, df);
      if IsBranch(f) {
        StripKeepsSafe(AsStruct(f.v).value, AsStruct(df.v));
      }
    }
  }

  /** `StripDefaults` is idempotent: a stripped leaf is the zero of its type,
      and stripping a zero again leaves it zero. */
  lemma {:induction false} StripIdempotent(v: Val, d: Option<Val>)
    requires WalkSafe(v, d)
    ensures WalkSafe(StripStruct(v, d), d)
    ensures StripStruct(StripStruct(v, d), d) == StripStruct(v, d)
    decreases v
  {
    StripKeepsSafe(v, d);
    var r1 := StripStruct(v, d);
    var r2 := StripStruct(r1, d);
    forall i | 0 <= i < |v.fields|
      ensures r2.fields[i] == r1.fields[i]
    {
      var f := v.fields[i];
      var df := d.value.fields[i];
      assert r1.fields[i] == StripField(f, df);
      assert r2.fields[i] == StripField(r1.fields[i], df);
      if IsBranch(f) {
        StripIdempotent(AsStruct(f.v).value, AsStruct(df.v));
      } else if IsLeaf(f) {
        ZeroOfIsZero(f.v);
      }
    }
    assert r2.fields == r1.fields;
  }

  /** No exported leaf the walk reaches is zero while differing from its
      default: the condition under which stripping loses nothing. */
  predicate Recoverable(v: Val, d: Option<Val>)
    requires WalkSafe(v, d)
    decreases v, 1
  {
    forall i :: 0 <= i < |v.fields| ==> FieldRecoverable(v.fields[i], d.value.fields[i])
  }

  predicate FieldRecoverable(f: Field, df: Field)
    requires FieldSafe(f, df)
    decreases f, 0
  {
    && (IsLeaf(f) && IsZero(f.v) ==> f.v == df.v)
    && (IsBranch(f) ==> Recoverable(AsStruct(f.v).value, AsStruct(df.v)))
  }

  /** The field-by-field condition of the round trip is the path-wise one:
      every zero leaf the walk reaches equals the default's leaf there. */
  lemma {:induction false} RecoverableAtPaths(v: Val, d: Option<Val>)
    requires WalkSafe(v, d)
    ensures Recoverable(v, d) <==> NoLossyLeaf(v, d)
    decreases v
  {
    if Recoverable(v, d) {
      forall p | Reached(v, p) && IsLeaf(At(v, p).value) && IsZero(At(v, p).value.v)
        ensures d.Some? && At(d.value, p).Some? && At(v, p).value.v == At(d.value, p).value.v
      {
        var i := p[0];
        assert FieldRecoverable(v.fields[i], d.value.fields[i]);
        if |p| > 1 {
          var s := AsStruct(v.fields[i].v).value;
          var ds := AsStruct(d.value.fields[i].v);
          RecoverableAtPaths(s, ds);
          assert [i] + p[1..] == p;
          ThroughBranch(v, d, i, p[1..]);
          assert Reached(s, p[1..]) && At(s, p[1..]) == At(v, p);
        }
      }
    }
    if NoLossyLeaf(v, d) {
      forall i | 0 <= i < |v.fields|
        ensures FieldRecoverable(v.fields[i], d.value.fields[i])
      {
        var f := v.fields[i];
        if IsLeaf(f) && IsZero(f.v) {
          assert Reached(v, [i]) && At(v, [i]) == Some(f);
        }
        if IsBranch(f) {
          var s := AsStruct(f.v).value;
          var ds := AsStruct(d.value.fields[i].v);
          forall q | Reached(s, q) && IsLeaf(At(s, q).value) && IsZero(At(s, q).value.v)
            ensures ds.Some? && At(ds.value, q).Some? && At(s, q).value.v == At(ds.value, q).value.v
          {
            ThroughBranch(v, d, i, q);
          }
          RecoverableAtPaths(s, ds);
        }
      }
    }
  }

  /** Round trip: setting the defaults of a stripped struct gives the original
      back exactly when no zero leaf of it differs from its default. */
  lemma {:induction false} StripThenSet(v: Val, d: Option<Val>)
    requires WalkSafe(v, d)
    ensures WalkSafe(StripStruct(v, d), d)
    ensures SetStruct(StripStruct(v, d), d) == v <==> Recoverable(v, d)
    decreases v
  {
    StripKeepsSafe(v, d);
    var s := StripStruct(v, d);
    var r := SetStruct(s, d);
    forall i | 0 <= i < |v.fields|
      ensures r.fields[i] == v.fields[i] <==> FieldRecoverable(v.fields[i], d.value.fields[i])
    {
      var f := v.fields[i];
      var df := d.value.fields[i];
      assert s.fields[i] == StripField(f, df);
      assert r.fields[i] == SetField(s.fields[i], df);
      if IsBranch(f) {
        var x := AsStruct(f.v).value;
        var dx := AsStruct(df.v);
        StripThenSet(x, dx);
        RewrapTwice(f.v, StripStruct(x, dx), SetStruct(StripStruct(x, dx), dx));
        RewrapInjective(f.v, SetStruct(StripStruct(x, dx), dx), x);
      } else if IsLeaf(f) {
        ZeroOfIsZero(f.v);
      }
    }
    if r == v {
      assert forall i :: 0 <= i < |v.fields| ==> r.fields[i] == v.fields[i];
    }
    if Recoverable(v, d) {
      assert r.fields == v.fields;
    }
  }
}
