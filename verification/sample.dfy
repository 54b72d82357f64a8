/** The option structs of the demonstration program sample/sample.go as
    concrete test vectors.  Its float32 field `F` of `NestedOptions` is not
    represented (floats are not modelled); every other field is. */
module Sample {
  import opened Wrappers
  import opened Values
  import opened Walk
  import opened Options

  function NestedOptions(i: int): Val {
    Struct("NestedOptions", [Field("I", true, Prim(Int(i)))])
  }

  function Inline(ss: string): Val {
    Struct("NestedInlineOptions", [Field("SS", true, Prim(Str(ss)))])
  }

  /** An `Options` value; `pointer` is the `PointerTest` field. */
  function MakeOptions(s: string, i: int, ints: Scalar, mis: Scalar, no: Val, ss: string, pointer: Option<Val>): Val {
    Struct("Options", [
      Field("S", true, Prim(Str(s))),
      Field("I", true, Prim(Int(i))),
      Field("IS", true, Prim(ints)),
      Field("MIS", true, Prim(mis)),
      Field("NO", true, no),
      Field("NestedInlineOptions", true, Inline(ss)),
      Field("PointerTest", true, Ptr(pointer))
    ])
  }

  function DefaultMap(): Scalar {
    Dict(Some(map[Int(1) := Str("first"), Int(2) := Str("second"), Int(3) := Str("third")]))
  }

  function DefaultOptions(): Val {
    MakeOptions("hello", 8, Slice(Some([Int(1), Int(2), Int(3)])), DefaultMap(), NestedOptions(1), "test", None)
  }

  /** Both calls of the demonstration program pair a non-nil `PointerTest`
      with the defaults' nil one, so the walk would index into an invalid
      default struct: neither call meets the walk-safety condition. */
  lemma SampleCallsCannotWalk()
    ensures var o := MakeOptions("something-different", 8, Slice(Some([Int(1), Int(2), Int(3)])), DefaultMap(), NestedOptions(1), "test",
                                 Some(NestedOptions(0)));
            !CanWalk(Boxed(Ptr(Some(o))), Boxed(DefaultOptions()))
    ensures var o := MakeOptions("", 5, Slice(Some([Int(-1)])), Dict(None), NestedOptions(0), "", Some(NestedOptions(0)));
            !CanWalk(Boxed(Ptr(Some(o))), Boxed(DefaultOptions()))
  {
    var d := Some(DefaultOptions());
    var o1 := MakeOptions("something-different", 8, Slice(Some([Int(1), Int(2), Int(3)])), DefaultMap(), NestedOptions(1), "test",
                          Some(NestedOptions(0)));
    assert !FieldSafe(o1.fields[6], d.value.fields[6]);
    var o2 := MakeOptions("", 5, Slice(Some([Int(-1)])), Dict(None), NestedOptions(0), "", Some(NestedOptions(0)));
    assert !FieldSafe(o2.fields[6], d.value.fields[6]);
  }

  function StripTarget(): Val {
    MakeOptions("something-different", 8, Slice(Some([Int(1), Int(2), Int(3)])), DefaultMap(), NestedOptions(1), "test", None)
  }

  function Stripped(): Val {
    MakeOptions("something-different", 0, Slice(None), Dict(None), NestedOptions(0), "", None)
  }

  /** With `PointerTest` left nil, stripping the first target keeps only the
      changed string; every field equal to its default, nested ones included,
      becomes zero. */
  lemma SampleStrip()
    ensures CanWalk(Boxed(Ptr(Some(StripTarget()))), Boxed(DefaultOptions()))
    ensures StripDefaults(Boxed(Ptr(Some(StripTarget()))), Boxed(DefaultOptions())) ==
              Outcome(Boxed(Ptr(Some(Stripped()))), None)
  {
    var d := DefaultOptions();
    var o := StripTarget();
    assert WalkSafe(NestedOptions(1), Some(NestedOptions(1)));
    assert WalkSafe(Inline("test"), Some(Inline("test")));
    assert WalkSafe(o, Some(d));
    assert StripStruct(NestedOptions(1), Some(NestedOptions(1))).fields == NestedOptions(0).fields;
    assert StripStruct(Inline("test"), Some(Inline("test"))).fields == Inline("").fields;
    var r := StripStruct(o, Some(d));
    forall i | 0 <= i < 7
      ensures r.fields[i] == Stripped().fields[i]
    {
      assert r.fields[i] == StripField(o.fields[i], d.fields[i]);
    }
    assert r.fields == Stripped().fields;
  }

  /** Setting the defaults of the stripped struct restores the first target. */
  lemma SampleRestore()
    ensures CanWalk(Boxed(Ptr(Some(Stripped()))), Boxed(DefaultOptions()))
    ensures SetDefaults(Boxed(Ptr(Some(Stripped()))), Boxed(DefaultOptions())) ==
              Outcome(Boxed(Ptr(Some(StripTarget()))), None)
  {
    var d := DefaultOptions();
    var o := Stripped();
    assert WalkSafe(NestedOptions(0), Some(NestedOptions(1)));
    assert WalkSafe(Inline(""), Some(Inline("test")));
    assert WalkSafe(o, Some(d));
    assert SetStruct(NestedOptions(0), Some(NestedOptions(1))).fields == NestedOptions(1).fields;
    assert SetStruct(Inline(""), Some(Inline("test"))).fields == Inline("test").fields;
    var r := SetStruct(o, Some(d));
    forall i | 0 <= i < 7
      ensures r.fields[i] == StripTarget().fields[i]
    {
      assert r.fields[i] == SetField(o.fields[i], d.fields[i]);
    }
    assert r.fields == StripTarget().fields;
  }

  /** With `PointerTest` left nil, setting the defaults of the second target
      fills the zero fields, including the nested `NO.I`, and keeps the set
      ones, including a slice that differs from the default slice. */
  lemma SampleSetDefaults()
    ensures var o := MakeOptions("", 5, Slice(Some([Int(-1)])), Dict(None), NestedOptions(0), "", None);
            var filled := MakeOptions("hello", 5, Slice(Some([Int(-1)])), DefaultMap(), NestedOptions(1), "test", None);
            var p := Boxed(Ptr(Some(o)));
            && CanWalk(p, Boxed(DefaultOptions()))
            && SetDefaults(p, Boxed(DefaultOptions())) == Outcome(Boxed(Ptr(Some(filled))), None)
  {
    var d := DefaultOptions();
    var o := MakeOptions("", 5, Slice(Some([Int(-1)])), Dict(None), NestedOptions(0), "", None);
    var filled := MakeOptions("hello", 5, Slice(Some([Int(-1)])), DefaultMap(), NestedOptions(1), "test", None);
    assert WalkSafe(NestedOptions(0), Some(NestedOptions(1)));
    assert WalkSafe(Inline(""), Some(Inline("test")));
    assert WalkSafe(o, Some(d));
    assert SetStruct(NestedOptions(0), Some(NestedOptions(1))).fields == NestedOptions(1).fields;
    assert SetStruct(Inline(""), Some(Inline("test"))).fields == Inline("test").fields;
    var r := SetStruct(o, Some(d));
    forall i | 0 <= i < 7
      ensures r.fields[i] == filled.fields[i]
    {
      assert r.fields[i] == SetField(o.fields[i], d.fields[i]);
    }
    assert r.fields == filled.fields;
  }

  /** Passing the struct itself instead of a pointer to it, a pointer as the
      defaults, or defaults of another struct type is refused before any
      write. */
  lemma SampleValidation()
    ensures SetDefaults(Boxed(DefaultOptions()), Boxed(DefaultOptions())) ==
              Outcome(Boxed(DefaultOptions()), Some(ValueNotStructPointer))
    ensures StripDefaults(Boxed(Ptr(None)), Boxed(DefaultOptions())) ==
              Outcome(Boxed(Ptr(None)), Some(ValueNotStructPointer))
    ensures SetDefaults(Boxed(Ptr(Some(DefaultOptions()))), Boxed(Ptr(Some(DefaultOptions())))) ==
              Outcome(Boxed(Ptr(Some(DefaultOptions()))), Some(DefNotStructValue))
    ensures StripDefaults(Boxed(Ptr(Some(DefaultOptions()))), Boxed(NestedOptions(1))) ==
              Outcome(Boxed(Ptr(Some(DefaultOptions()))), Some(DifferentStructTypes))
  {
  }

  /** Validation compares type names only, so two anonymous structs with
      different fields pass it.  The walk-safety condition still refuses the
      pair: the target's integer field would be filled from a string. */
  lemma SampleNameOnlyCheck()
    ensures var v := Boxed(Ptr(Some(Struct("", [Field("X", true, Prim(Int(0)))]))));
            var def := Boxed(Struct("", [Field("Y", true, Prim(Str("a")))]));
            Validate(v, def).None? && !CanWalk(v, def)
  {
    var t := Struct("", [Field("X", true, Prim(Int(0)))]);
    var d := Struct("", [Field("Y", true, Prim(Str("a")))]);
    assert !FieldSafe(t.fields[0], d.fields[0]);
  }
}
