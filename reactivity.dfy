/**
  The values the runtime wraps in reactive proxies, the choice `$reactive`
  makes among them, and the write trap of a reactive primitive.
*/
module Reactivity {

  /** The primitives `$reactivePrimitive` accepts. Numbers are integers
      plus `NaN`, the one number that is not strictly equal to itself. */
  datatype Primitive = Str(s: string) | Num(n: int) | NaN | Bool(b: bool) | Null | Undefined

  /** A JavaScript value as `$reactive` sees it; `Opaque` is a function, a
      symbol or a bigint. */
  datatype JsVal = Prim(p: Primitive) | Arr(items: seq<JsVal>) | Obj(fields: map<string, JsVal>) | Opaque

  /** Which of `$reactiveArray`, `$reactiveObject`, `$reactivePrimitive`
      built a wrapper. */
  datatype Shape = ArrayShape | ObjectShape | PrimitiveShape

  /** What `$reactive(val, name)` does: return `undefined` (no branch
      matched), return `val` itself (empty name), return a fresh wrapper,
      or throw the TypeError of a nested `null`. */
  datatype Wrapping = NotWrapped | Unchanged | Wrapped(shape: Shape) | Fails

  /** Some element or field, at any depth through arrays and objects, is
      `null`. */
  predicate HoldsNull(v: JsVal) {
    match v
    case Arr(items) => exists i :: 0 <= i < |items| && (items[i] == Prim(Null) || HoldsNull(items[i]))
    case Obj(fields) => exists k :: k in fields && (fields[k] == Prim(Null) || HoldsNull(fields[k]))
    case _ => false
  }

  /** `$reactive`'s dispatch, then the empty-name check of the chosen
      builder. `null` is not a non-null object, so at the top it is boxed
      as a primitive; an array or object builder, though, re-wraps every
      nested value whose `typeof` is `"object"`, and on a nested `null`
      `$defineRwcProperties(null, name)` throws. */
  function WrapKind(v: JsVal, name: string): (r: Wrapping)
    ensures r == NotWrapped <==> v.Opaque?
    ensures r == Unchanged <==> !v.Opaque? && name == ""
    ensures r == Fails <==> name != "" && HoldsNull(v)
    ensures r.Wrapped? ==> (r.shape == ArrayShape <==> v.Arr?) && (r.shape == ObjectShape <==> v.Obj?)
  {
    match v
    case Arr(_) => if name == "" then Unchanged else if HoldsNull(v) then Fails else Wrapped(ArrayShape)
    case Obj(_) => if name == "" then Unchanged else if HoldsNull(v) then Fails else Wrapped(ObjectShape)
    case Prim(_) => if name == "" then Unchanged else Wrapped(PrimitiveShape)
    case Opaque => NotWrapped
  }

  /** `null` is boxed at the top, and makes the builders throw one level
      down. */
  lemma NullWrapping(name: string)
    requires name != ""
    ensures WrapKind(Prim(Null), name) == Wrapped(PrimitiveShape)
    ensures WrapKind(Arr([Prim(Null)]), name) == Fails
    ensures WrapKind(Obj(map["k" := Prim(Null)]), name) == Fails
    ensures WrapKind(Arr([Prim(Undefined)]), name) == Wrapped(ArrayShape)
  {
    assert Arr([Prim(Null)]).items[0] == Prim(Null);
    assert "k" in Obj(map["k" := Prim(Null)]).fields;
  }

  /** `!==` on primitives. */
  predicate StrictlyEqual(a: Primitive, b: Primitive) {
    !a.NaN? && a == b
  }

  /** The `value` and `prev` properties of a primitive box. */
  datatype Cell = Cell(value: Primitive, prev: Primitive)

  /** A write through the box's `set` trap: the new fields, whether the
      consumers were scheduled, and what `Reflect.set` answered; or the
      TypeError raised before anything is set. */
  datatype Written = Written(cell: Cell, notified: bool, result: bool) | Threw

  /** `Reflect.set(target, property, value)`: `$reactive` is read-only,
      and properties other than `value` and `prev` do not touch the two. */
  function Assigned(c: Cell, property: string, v: Primitive): Cell {
    if property == "value" then c.(value := v)
    else if property == "prev" then c.(prev := v)
    else c
  }

  /** The `set` trap of `$reactivePrimitive`. A `null` is an object to
      `typeof`, so the trap hands it to `$reactiveObject`, whose
      `$defineRwcProperties(null, name)` throws (the box's name is never
      empty): whatever the property, nothing is set and nobody is
      notified. */
  function Write(c: Cell, property: string, v: Primitive): (r: Written)
    ensures r.Threw? <==> v == Null
    ensures r.Written? ==> (r.result <==> property != "$reactive")
    ensures r.Written? ==> r.cell.value == Assigned(c, property, v).value
    ensures r.Written? ==> (r.notified <==> !StrictlyEqual(Assigned(c, property, v).value, Assigned(c, property, v).prev))
    ensures r.Written? && !r.notified ==> r.cell == Assigned(c, property, v)
    ensures r.Written? ==> r.cell.prev == r.cell.value
  {
    if v == Null then Threw else
    var a := Assigned(c, property, v);
    var changed := !StrictlyEqual(a.value, a.prev);
    Written(if changed then a.(prev := a.value) else a, changed, property != "$reactive")
  }

  /** A box whose `value` is strictly equal to its `prev`. */
  predicate Settled(c: Cell) {
    StrictlyEqual(c.value, c.prev)
  }

  /** Writing `value` to a settled box throws for `null`, and otherwise
      notifies exactly when the new value differs from the old one. */
  lemma WriteNotifiesIffChanged(c: Cell, v: Primitive)
    requires Settled(c)
    ensures Write(c, "value", v).Threw? <==> v == Null
    ensures v != Null ==> (Write(c, "value", v).notified <==> !StrictlyEqual(v, c.value))
  {
  }

  /** Writing the same value twice notifies the second time only for
      `NaN`; `null` throws the first time already. */
  lemma WriteTwice(c: Cell, v: Primitive)
    ensures v == Null ==> Write(c, "value", v).Threw?
    ensures v != Null ==> var c1 := Write(c, "value", v).cell;
                          Write(c1, "value", v).Written? &&
                          (Write(c1, "value", v).notified <==> v.NaN?)
  {
    if v != Null {
      var c1 := Write(c, "value", v).cell;
      assert c1.value == v && c1.prev == v;
    }
  }

  /** Writing `prev` to a settled box is undone by the change check: the
      fields are as before, and the consumers are scheduled iff the written
      value differed; writing `null` throws. */
  lemma WritePrevRestores(c: Cell, v: Primitive)
    requires Settled(c)
    ensures Write(c, "prev", v).Threw? <==> v == Null
    ensures v != Null ==> Write(c, "prev", v).cell == c
    ensures v != Null ==> (Write(c, "prev", v).notified <==> !StrictlyEqual(c.value, v))
  {
  }

  /** A thrown write is the same on every property and every box. */
  lemma WriteNullThrows(c: Cell, property: string)
    ensures Write(c, property, Null) == Threw
  {
  }
}
