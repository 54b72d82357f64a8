# options: defaults filling and stripping for Go option structs

This is a Dafny model of the Go package `options` (file `options.go`). The package has two entry
points that walk a target struct and a "defaults" struct of the same type in lockstep:

- `SetDefaults(v, def)` fills every zero-valued exported leaf field of `*v` with the matching field of `def`.
- `StripDefaults(v, def)` resets every exported leaf field of `*v` that deep-equals the matching field of
  `def` to the zero value of its type.

Together they let a configuration struct be serialised with only its non-default fields, and then
be filled in again.

## How the model is built

- `Values` holds the runtime values the reflection walk sees.
  - `Val` is a primitive (`Scalar`: integers, booleans, strings, and slices and maps of those), a struct with its
    fields in declaration order, or a pointer that may be nil.
  - `Field` carries an `exported` flag. It stands for `CanSet() && CanInterface()`.
  - `ZeroOf` is `reflect.Zero` and `IsZero` is `Value.IsZero`, kind by kind. Nil slices and maps
    are kept apart from empty ones.
  - `AsStruct` is the classifier `toStructOrStructPointer`.
- `Walk` holds `setStruct` and `stripStruct` as pure functions. Each returns the updated struct
  instead of writing through reflection.
  - Fields are paired by index.
  - Unexported fields are skipped before classification, so an unexported struct is never walked into.
  - A field the classifier resolves (a struct, or a non-nil pointer to a struct) is walked into.
    Anything else exported is a leaf. In particular a nil pointer is a leaf, so `SetDefaults` copies
    the default's pointer into it, and `StripDefaults` resets it only when the default is nil too.
- `Walk.WalkSafe` is the condition under which the model lets the walk run. It rules out every
  panic the value model can express.
  - `defStr.Field(i)` is evaluated for every index of the target struct, so whenever the target has
    a field, the default side must be a struct with at least as many fields. For this index panic
    the condition is exact.
  - It fails when a target's non-nil pointer-to-struct pairs with a nil default pointer and the
    pointee has at least one field. The classifier then returns an invalid value, and `Field`
    panics on it. For a pointee without fields the loop never runs and there is no panic.
  - Every exported target field must pair with an exported default field of the same kind.
    `vf.Set(df)` panics on a default of another type or one read from an unexported field, and so
    does `df.Interface()` on the latter. Validation compares type names only, so two distinct
    types with one name (two anonymous structs, say) pass it and reach this case
    (`Sample.SampleNameOnlyCheck`).
  - A target field that is walked into must pair with a default that is safe in turn.
  - The walks take `WalkSafe` as a precondition instead of modelling the panic.
- `Options` holds the entry points. A Go `interface{}` argument is `Nil` or `Boxed(v)`.
  - Validation runs in source order: target not a non-nil pointer to a struct, then defaults not a
    struct value, then differing type names. Only type names are compared.
  - The result is the target after the call together with the returned error. On error the target
    is the input, unchanged.
  - The walks cannot produce an error: `err` is only ever assigned from recursive calls. So the
    returned error is exactly the validation result.
- `Paths` states the walks field by field anywhere in the tree. A field is named by the path of
  field indices leading to it.
- `Laws` and `CallLaws` relate several calls: idempotence of both operations, and the
  strip-then-set round trip.
- `Sample` encodes the option structs of `sample/sample.go` as test vectors, without the float field.

Behaviour the code fixes, stated here because a reader of the package's purpose might expect otherwise:

- The walks never report an error for nested structs. An error can only come from validation.
- A default-side pointer that is nil where the target's is not is not handled: the Go code panics.
  Both calls in `sample/sample.go` pair a non-nil `PointerTest` with the defaults' nil one.
  `Sample.SampleCallsCannotWalk` shows that neither call meets `WalkSafe`.
- A nil target pointer is a leaf. It is filled with the default's pointer, not allocated and
  walked into.
- Stripping a target built from the defaults resets every field still equal to its default to zero,
  `I` and `IS` of the sample included (`Sample.SampleStrip`).

## Model

| member | source | states |
|---|---|---|
| Values.IsZeroIffZeroOf | options.go:81-82 | the kind-by-kind zero test holds exactly when a value equals the zero of its type, so each type has exactly one zero |
| Values.ZeroOfIsZero | options.go:144 | the value written by a strip is zero, and zeroing it again changes nothing |
| Values.Rewrap | options.go:71-73 | writing the walked struct back through the place the classifier found it (the field itself, or the pointee of the field's pointer) keeps the field's kind, makes it classify as the written struct, and writing back the unchanged struct changes nothing |
| Values.AsStruct | options.go:155-166 | a struct classifies as itself and a non-nil pointer to a struct as its pointee; nil pointers, pointers to non-structs and primitives do not classify as structs |
| Walk.SetStruct | options.go:59-87 | keeps the struct name, field names and export flags and every unexported field; walked-into fields stay struct-valued with the same frame; a non-zero leaf is unchanged and a zero leaf takes the default's field |
| Walk.SetField | options.go:62-83 | one loop step: unexported fields untouched; an exported field keeps its kind, so a walked-into struct stays a struct and a pointer a pointer; a nil pointer takes the default's pointer; after the step a leaf is zero only if both it and the default were zero |
| Walk.StripStruct | options.go:119-149 | keeps the frame and unexported fields; no leaf turns into a struct or the reverse; a leaf equal to the default becomes its zero, any other leaf is unchanged |
| Walk.StripField | options.go:122-145 | one loop step: an exported field keeps its kind; a leaf still equal to the default afterwards means the default is zero; a nil pointer stays nil |
| Options.Validate | options.go:35-54 | each error occurs exactly when its check is the first to fail, in the order target kind, defaults kind, type name; validation passes exactly when all three hold |
| Options.SetDefaults | options.go:34-57 | the returned error is the validation result, so the walk adds none; on error nothing is written; on success the frame is kept and top-level zero leaves are filled |
| Options.StripDefaults | options.go:92-115 | the returned error is the validation result; on error nothing is written; on success the frame is kept and top-level leaves equal to the default are zeroed |
| Paths.SetAtPath | options.go:70-83 | at every field the walk reaches, however deep: name, export flag and kind are kept, a zero leaf takes the default's field at the same path, a non-zero leaf and an unexported field are unchanged, a struct-valued field is walked into and not replaced |
| Paths.StripAtPath | options.go:130-145 | at every field the walk reaches: name, export flag and kind are kept, a leaf equal to the default's field at that path becomes zero, any other leaf and any unexported field are unchanged, branch fields stay branch fields with the same frame |
| Walk.WalkSafe | options.go:61-63 | the default side is a struct with at least as many fields wherever the target has a field, every exported target field pairs with an exported default field of the same kind, and every field walked into pairs with a default that is safe in turn |
| Paths.DefaultsCover | options.go:61-63 | under `Walk.WalkSafe`, every field the walk visits at any depth has a field at the same path in the defaults, and an exported one pairs with an exported default field of the same kind |
| Paths.HiddenStopsWalk | options.go:65-68 | no field below an unexported field is ever visited: unexported structs are not walked into |
| Laws.SetFromSelf | options.go:80-83 | filling a struct's defaults from itself changes nothing |
| Laws.SetKeepsSafe | options.go:80-83 | after a fill, the target can be walked against the same defaults again, including where a nil pointer took the default's pointer |
| Laws.SetIdempotent | options.go:80-83 | filling twice with the same defaults gives the same struct as filling once |
| Laws.StripKeepsSafe | options.go:140-145 | after a strip, the target can be walked against the same defaults again |
| Laws.StripIdempotent | options.go:140-145 | stripping twice with the same defaults gives the same struct as stripping once |
| Laws.RecoverableAtPaths | options.go:140-145 | the field-by-field round-trip condition is equivalent to the path-wise one: every reached zero leaf equals the default's leaf at the same path |
| Laws.StripThenSet | options.go:89-91 | filling the defaults of a stripped struct gives the original back if and only if none of its reached zero leaves differs from its default |
| CallLaws.SetDefaultsIdempotent | options.go:34-57 | a second `SetDefaults` call with the same defaults has the same outcome as the first, errors included |
| CallLaws.StripDefaultsIdempotent | options.go:92-115 | a second `StripDefaults` call with the same defaults has the same outcome as the first, errors included |
| CallLaws.StripThenSetDefaults | options.go:117-118 | `SetDefaults` after a successful `StripDefaults` restores the caller's struct, with no error, exactly when the round-trip condition holds |
| CallLaws.SetDefaultsAtPath | options.go:80-83 | after a successful `SetDefaults`, every zero leaf of the caller's struct at any depth holds the defaults' field at the same path; non-zero leaves and unexported fields are unchanged; every field keeps its kind and nested structs keep their frame |
| CallLaws.StripDefaultsAtPath | options.go:140-145 | after a successful `StripDefaults`, every leaf at any depth that equalled the defaults' field at the same path is zero; other leaves and unexported fields are unchanged; every field keeps its kind and nested structs keep their frame |
| Sample.SampleCallsCannotWalk | sample/sample.go:74-76 | both calls of the demonstration program pair a non-nil pointer-to-struct with a nil default pointer and fail the walk-safety condition |
| Sample.SampleStrip | sample/sample.go:58-76 | with the pointer field left nil, stripping the modified defaults keeps only the changed string and zeroes every other field, nested ones included |
| Sample.SampleRestore | sample/sample.go:58-67 | filling the stripped struct from the defaults restores the modified defaults |
| Sample.SampleSetDefaults | sample/sample.go:90-97 | with the pointer field left nil, filling the second target keeps `I` and `IS` and fills `S`, `MIS`, the nested `NO.I` and the embedded struct |
| Sample.SampleNameOnlyCheck | options.go:51-54 | two anonymous structs with different fields pass validation, which compares names only, yet fail the walk-safety condition |
| Sample.SampleValidation | options.go:35-54 | a struct instead of a pointer, a nil pointer, a pointer as defaults and defaults of another type are each refused with their own error and nothing written |

## Left out

- Pointer aliasing: `vf.Set(df)` makes target and defaults share a pointee. A value model copies it instead, so later writes through one are not seen through the other.
- Shared pointees within the target: the model assumes the target is a tree, so no pointee is reachable along two field paths. In Go, two exported pointer fields that point to one struct make the walk visit and write that struct twice, in place (options.go:71-73, 82, 133, 144). The second visit sees the first visit's writes and is walked against the other field's default.
- Paths.SetAtPath, Paths.StripAtPath, CallLaws.SetDefaultsAtPath and CallLaws.StripDefaultsAtPath hold in Go only for a target without shared pointees. With a shared zero leaf, `SetDefaults` leaves the first path's default at both paths.
- Paths.SetAtPath, Paths.StripAtPath, CallLaws.SetDefaultsAtPath and CallLaws.StripDefaultsAtPath also hold in Go only when no pointee of the target is reachable from the defaults along a different path, even for a tree-shaped target. Take `T{A, B *N}` with `N{X int}`, a shared `D := &N{0}`, target `{A: D, B: &N{0}}` and defaults `{A: &N{1}, B: D}`. Walking `A` writes `D.X = 1` (options.go:82), so `B.X` is then filled with 1 (options.go:73, 163), not with the 0 the defaults held at that path. Stripping breaks the same way: a shared pointee zeroed at one path no longer equals the target's leaf at the other.
- Laws.StripThenSet and CallLaws.StripThenSetDefaults hold in Go only for a target without shared pointees. A pointee shared by two fields with different defaults can be zeroed against one default and refilled from the other.
- Laws.SetIdempotent, Laws.StripThenSet and their CallLaws counterparts hold in Go only when target and defaults share no pointee. Filling a nil pointer creates such sharing (options.go:82). A later `StripDefaults` then zeroes fields of the defaults' own pointee (options.go:133, 144), which the value model does not see.
- Reflection mechanics (`reflect.Value`, addressability, `CanSet`/`CanInterface`) are abstracted to the `exported` flag of a field.
- Slices and maps hold scalars only. A slice or map of structs or pointers is a leaf that `DeepEqual` compares in depth, and the value model cannot represent it.
- Floats, functions, channels, interfaces and arrays as leaf kinds are not modelled. For example, `DeepEqual` is false for NaN and for non-nil funcs, and the zero test does not count −0.0 as zero. Leaves compare with Dafny equality.
- Cyclic pointer structures are not modelled: values are finite trees.
- The `!v.IsValid()` branch of `toStructOrStructPointer` (options.go:156-158) is not modelled: the walk only classifies field values, which are always valid.
- Types below the top level are not represented. The constructor of a value stands for its kind, so two nil pointers (or two nil slices) of different element types compare equal. Fields paired by index in structs of one type never differ in type.
- The panics of the walk are excluded by the `WalkSafe` / `CanWalk` preconditions instead of being modelled.
- Walk.WalkSafe: for leaves it compares kinds, not types. A pointer, slice or map default whose element type differs passes it, although `vf.Set(df)` panics on it in Go.
- Walk.WalkSafe: it asks more than Go needs for two distinct types sharing a name. `SetDefaults` reads a leaf's default only when the leaf is zero, and `StripDefaults` compares leaves of different types without a panic. The condition demands an exported default of the same kind for every exported target field regardless. For a target and defaults of one type it asks nothing extra.
- Output: the YAML marshalling and printing in sample/sample.go are not modelled.
- Options.SetDefaults: its own contract states leaf behaviour for top-level fields only. Deeper levels are stated by CallLaws.SetDefaultsAtPath.
- Options.StripDefaults: its own contract states leaf behaviour for top-level fields only. Deeper levels are stated by CallLaws.StripDefaultsAtPath.
