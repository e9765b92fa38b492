/**
  The runtime base class `RwcElement` that every generated component
  extends: its update registry, its properties with their reactive
  wrappers, and the clean-up of removed nodes.
*/
module Runtime {
  import opened Names
  import opened Registry
  import opened Reactivity

  /** An entry of a wrapper's `$rwcs`: the callback `$defineRwcProperties`
      installs (`owner.$doUpdate(key)`), or the one `$setProp` pushes to
      forward changes of an adopted wrapper to `owner`'s `name`. */
  datatype Consumer = Dispatch(owner: RwcElement, key: string) | Forward(owner: RwcElement, name: string)

  /** A property value: plain, or a reactive wrapper (`$reactive === true`). */
  datatype Value = Plain(v: JsVal) | Boxed(box: Reactive)

  function BoxOf(v: Value): set<object> {
    if v.Boxed? then {v.box} else {}
  }

  predicate IsReactive(current: Option<Value>) {
    current.Some? && current.value.Boxed?
  }

  /** The three branches of `$setProp`, and the TypeError of its second
      test. */
  datatype Case = Adopt | Rewrap | Assign | Throws

  /** `$setProp`'s choice as written: `val.$reactive` is read without `?.`,
      so a `null` or `undefined` value given to a reactive property throws. */
  function SetPropCaseAsWritten(current: Option<Value>, val: Value): (r: Case)
    ensures r == Throws <==> IsReactive(current) && val in {Plain(Prim(Null)), Plain(Prim(Undefined))}
  {
    if IsReactive(current) then
      if val.Boxed? then Adopt
      else if val.v == Prim(Null) || val.v == Prim(Undefined) then Throws
      else Rewrap
    else Assign
  }

  /** `$setProp`'s choice with `val?.$reactive`: every plain value given to
      a reactive property, `null` and `undefined` included, is wrapped. */
  function SetPropCase(current: Option<Value>, val: Value): (r: Case)
    ensures r != Throws
    ensures r == Adopt <==> IsReactive(current) && val.Boxed?
    ensures r == Rewrap <==> IsReactive(current) && val.Plain?
    ensures r == Assign <==> !IsReactive(current)
  {
    if IsReactive(current) then (if val.Boxed? then Adopt else Rewrap) else Assign
  }

  /** The two choices differ exactly on the values that throw. */
  lemma NullIntoReactiveThrows(b: Reactive, v: Primitive)
    requires v == Null || v == Undefined
    ensures SetPropCaseAsWritten(Some(Boxed(b)), Plain(Prim(v))) == Throws
    ensures SetPropCase(Some(Boxed(b)), Plain(Prim(v))) == Rewrap
  {
  }

  /** `self[name]`; `None` is `undefined`. */
  function Get(fields: map<string, Value>, name: string): Option<Value> {
    if name in fields then Some(fields[name]) else None
  }

  /** `r` is what `$reactive(v, name, immediately)` on `owner` returns. */
  predicate WrapsAs(r: Value, v: JsVal, name: string, owner: RwcElement, immediately: bool)
    reads BoxOf(r)
  {
    match WrapKind(v, name)
    case NotWrapped => r == Plain(Prim(Undefined))
    case Unchanged => r == Plain(v)
    case Fails => false
    case Wrapped(shape) =>
      r.Boxed? && r.box.key == name && r.box.shape == shape &&
      r.box.rwcs == [Dispatch(owner, name)] && r.box.props == [] &&
      r.box.notifications == (if immediately then 1 else 0) &&
      (v.Prim? ==> r.box.cell == Cell(v.p, v.p))
  }

  /** `$nullifyNode`'s change to `$forremove`: only `false` becomes `true`. */
  function Marked(f: Option<bool>): Option<bool> {
    if f == Some(false) then Some(true) else f
  }

  /** The proxy wrapping a value: the markers of `$defineRwcProperties`
      and, for a primitive, the boxed `value` and `prev`. A call of
      `$runRwcs` on it schedules its consumers; the model counts them. */
  class Reactive {
    const key: string
    const shape: Shape
    var cell: Cell
    var rwcs: seq<Consumer>
    var props: seq<string>
    var notifications: nat

    /** The builder's wrapper after `$defineRwcProperties(obj, key)`, and
        the `$runRwcs` of `updateImmediately`. */
    constructor(owner: RwcElement, key: string, shape: Shape, init: Primitive, immediately: bool)
      ensures this.key == key && this.shape == shape && cell == Cell(init, init)
      ensures rwcs == [Dispatch(owner, key)] && props == []
      ensures notifications == (if immediately then 1 else 0)
    {
      this.key := key;
      this.shape := shape;
      cell := Cell(init, init);
      rwcs := [Dispatch(owner, key)];
      props := [];
      notifications := 0;
      new;
      if immediately {
        RunRwcs();
      }
    }

    /** `$runRwcs(p)`: the consumers are scheduled for the next frame. */
    method RunRwcs()
      modifies this`notifications
      ensures notifications == old(notifications) + 1
    {
      notifications := notifications + 1;
    }

    /** The `set` trap of a primitive box; `ok` is false when it throws. */
    method Set(property: string, v: Primitive) returns (ok: bool, res: bool)
      requires shape == PrimitiveShape
      modifies this`cell, this`notifications
      ensures var w := Write(old(cell), property, v);
              (ok <==> w.Written?) &&
              (w.Threw? ==> cell == old(cell) && notifications == old(notifications)) &&
              (w.Written? ==> cell == w.cell && res == w.result &&
                              notifications == old(notifications) + (if w.notified then 1 else 0))
    {
      if v == Null {
        return false, false;
      }
      ok := true;
      res := property != "$reactive";
      if property == "value" {
        cell := cell.(value := v);
      } else if property == "prev" {
        cell := cell.(prev := v);
      }
      if !StrictlyEqual(cell.value, cell.prev) {
        cell := cell.(prev := cell.value);
        RunRwcs();
      }
    }
  }

  /** A node of the page as `$nullifyNode` walks it: its children and the
      element `$el` a placeholder stands for are fixed during the walk;
      `height` bounds the depth, so the links hold no cycle. */
  class DomNode {
    const childNodes: seq<DomNode>
    const el: Option<DomNode>
    ghost const height: nat
    var remove: bool
    var forremove: Option<bool>

    ghost predicate Wf()
      decreases height
    {
      (forall c :: c in childNodes ==> c.height < height) &&
      (el.Some? ==> el.value.height < height) &&
      (forall c :: c in childNodes ==> c.Wf()) &&
      (el.Some? ==> el.value.Wf())
    }

    /** The nodes reachable through `childNodes` and `$el`. */
    ghost function Reach(): set<DomNode>
      requires Wf()
      decreases height, |childNodes| + 1
    {
      {this} + ReachAll(childNodes, height) + (if el.Some? then el.value.Reach() else {})
    }

    constructor(childNodes: seq<DomNode>, el: Option<DomNode>, remove: bool, forremove: Option<bool>)
      requires forall c :: c in childNodes ==> c.Wf()
      requires el.Some? ==> el.value.Wf()
      ensures Wf() && this.childNodes == childNodes && this.el == el
      ensures this.remove == remove && this.forremove == forremove
    {
      this.childNodes := childNodes;
      this.el := el;
      this.height := 1 + MaxHeight(childNodes) + (if el.Some? then el.value.height else 0);
      this.remove := remove;
      this.forremove := forremove;
    }
  }

  ghost function MaxHeight(cs: seq<DomNode>): (r: nat)
    ensures forall c :: c in cs ==> c.height <= r
  {
    if cs == [] then 0
    else
      var m := MaxHeight(cs[..|cs| - 1]);
      assert forall c :: c in cs ==> c in cs[..|cs| - 1] || c == cs[|cs| - 1] by {
        assert cs == cs[..|cs| - 1] + [cs[|cs| - 1]];
      }
      if cs[|cs| - 1].height > m then cs[|cs| - 1].height else m
  }

  /** The nodes reachable from the nodes `cs`, all lower than `h`. */
  ghost function ReachAll(cs: seq<DomNode>, h: nat): set<DomNode>
    requires forall c :: c in cs ==> c.height < h && c.Wf()
    decreases h, |cs|
  {
    if cs == [] then {} else ReachAll(cs[..|cs| - 1], h) + cs[|cs| - 1].Reach()
  }

  lemma {:induction false} ReachAllHolds(cs: seq<DomNode>, h: nat, i: nat)
    requires forall c :: c in cs ==> c.height < h && c.Wf()
    requires i < |cs|
    ensures cs[i].Reach() <= ReachAll(cs, h)
    decreases |cs|
  {
    if i < |cs| - 1 {
      ReachAllHolds(cs[..|cs| - 1], h, i);
    }
  }

  lemma ReachAllPrefix(cs: seq<DomNode>, h: nat, i: nat)
    requires forall c :: c in cs ==> c.height < h && c.Wf()
    requires i < |cs|
    ensures ReachAll(cs[..i + 1], h) == ReachAll(cs[..i], h) + cs[i].Reach()
  {
    assert cs[..i + 1][..i] == cs[..i];
  }

  /** The element base class. `log` is the sequence of update actions run,
      in order. */
  class RwcElement {
    var updates: Updates
    var log: seq<nat>
    var fields: map<string, Value>

    /** After `constructor`: no updates, no conditionals. */
    constructor()
      ensures updates == map[] && log == [] && fields == map[]
    {
      updates := map[];
      log := [];
      fields := map[];
    }

    /** `$getUpdates`. */
    method GetUpdates(proxyName: string) returns (r: seq<Update>)
      modifies this`updates
      ensures updates == Installed(old(updates), proxyName) && r == updates[proxyName]
    {
      if proxyName !in updates {
        updates := updates[proxyName := []];
      }
      r := updates[proxyName];
    }

    /** `$onUpdate`; an absent `isValid` is `() => true`. */
    method OnUpdate(proxyName: string, action: nat, isValid: Option<Guard>)
      modifies this`updates
      ensures updates == old(updates)[proxyName := Lookup(old(updates), proxyName) +
                                      [Update(if isValid.Some? then isValid.value else Always, action)]]
    {
      var list := GetUpdates(proxyName);
      var guard := if isValid.Some? then isValid.value else Always;
      updates := updates[proxyName := list + [Update(guard, action)]];
    }

    /** `$doUpdate`: drop the entries no longer valid, then run the rest in
        order. */
    method DoUpdate(proxyName: string, world: nat -> bool)
      modifies this`updates, this`log
      ensures updates == old(updates)[proxyName := Valid(Lookup(old(updates), proxyName), world)]
      ensures log == old(log) + Actions(updates[proxyName])
    {
      if proxyName !in updates {
        updates := updates[proxyName := []];
      }
      updates := updates[proxyName := Valid(updates[proxyName], world)];
      RunAll(updates[proxyName]);
    }

    /** The loop of `$doUpdate` over the kept entries. */
    method RunAll(list: seq<Update>)
      modifies this`log
      ensures log == old(log) + Actions(list)
    {
      var log0 := log;
      for i := 0 to |list|
        invariant log == log0 + Actions(list[..i])
      {
        assert list[..i + 1][..i] == list[..i];
        log := log + [list[i].action];
      }
      assert list[..|list|] == list;
    }

    /** `$filterUpdates`: each key in turn. */
    method FilterUpdates(world: nat -> bool)
      modifies this`updates
      ensures updates == FilterAll(old(updates), world)
    {
      ghost var u0 := updates;
      var keys := updates.Keys;
      while keys != {}
        invariant keys <= u0.Keys && updates.Keys == u0.Keys
        invariant forall k :: k in u0 ==> updates[k] == if k in keys then u0[k] else Valid(u0[k], world)
        decreases keys
      {
        var k :| k in keys;
        updates := updates[k := Valid(updates[k], world)];
        keys := keys - {k};
      }
      assert updates == FilterAll(u0, world);
    }

    /** `$reactive(val, name, updateImmediately)`; `None` is the TypeError
        of a nested `null`. */
    method MakeReactive(val: JsVal, name: string, updateImmediately: bool) returns (r: Option<Value>)
      ensures r.None? <==> WrapKind(val, name) == Fails
      ensures r.Some? ==> WrapsAs(r.value, val, name, this, updateImmediately)
      ensures r.Some? && r.value.Boxed? ==> fresh(r.value.box)
    {
      if val.Arr? {
        r := Build(val, name, ArrayShape, updateImmediately);
      } else if val.Obj? {
        r := Build(val, name, ObjectShape, updateImmediately);
      } else if val.Prim? {
        r := Build(val, name, PrimitiveShape, updateImmediately);
      } else {
        r := Some(Plain(Prim(Undefined)));
      }
    }

    /** The common part of the three builders: the empty-name check, the
        re-wrapping of the nested values, which throws at a nested `null`,
        then a fresh wrapper. */
    method Build(val: JsVal, name: string, shape: Shape, updateImmediately: bool) returns (r: Option<Value>)
      requires WrapKind(val, name) == Unchanged || WrapKind(val, name) == Wrapped(shape) || WrapKind(val, name) == Fails
      ensures r.None? <==> WrapKind(val, name) == Fails
      ensures r.Some? ==> WrapsAs(r.value, val, name, this, updateImmediately)
      ensures r.Some? && r.value.Boxed? ==> fresh(r.value.box)
    {
      if name == "" {
        return Some(Plain(val));
      }
      if HoldsNull(val) {
        return None;
      }
      var init := if val.Prim? then val.p else Undefined;
      var b := new Reactive(this, name, shape, init, updateImmediately);
      r := Some(Boxed(b));
    }

    /** `$setProp(name, val, doUpdate)`, with `val?.$reactive`; `ok` is false
        when `$reactive` throws. */
    method SetProp(name: string, val: Value, doUpdate: bool, world: nat -> bool) returns (ok: bool)
      modifies this, BoxOf(val)
      ensures val.Boxed? ==> val.box.cell == old(val.box.cell) && val.box.notifications == old(val.box.notifications)
      ensures SetPropCase(Get(old(fields), name), val) == Adopt ==>
                fields == old(fields)[name := val] &&
                val.box.props == AddName(old(val.box.props), name) &&
                val.box.rwcs == old(val.box.rwcs) + [Forward(this, name)] &&
                updates == old(updates) && log == old(log)
      ensures ok <==> !(SetPropCase(Get(old(fields), name), val) == Rewrap && WrapKind(val.v, name) == Fails)
      ensures SetPropCase(Get(old(fields), name), val) == Rewrap && ok ==>
                name in fields && fields == old(fields)[name := fields[name]] &&
                WrapsAs(fields[name], val.v, name, this, false) &&
                (fields[name].Boxed? ==> fresh(fields[name].box)) &&
                updates == old(updates) && log == old(log)
      ensures !ok ==> fields == old(fields) && updates == old(updates) && log == old(log)
      ensures SetPropCase(Get(old(fields), name), val) == Assign ==>
                fields == old(fields)[name := val] &&
                (val.Boxed? ==> val.box.rwcs == old(val.box.rwcs) && val.box.props == old(val.box.props)) &&
                (doUpdate ==> updates == old(updates)[name := Valid(Lookup(old(updates), name), world)] &&
                              log == old(log) + Actions(updates[name])) &&
                (!doUpdate ==> updates == old(updates) && log == old(log))
    {
      ok := true;
      if name in fields && fields[name].Boxed? {
        if val.Boxed? {
          fields := fields[name := val];
          var box := val.box;
          if name !in box.props {
            box.props := box.props + [name];
          }
          box.rwcs := box.rwcs + [Forward(this, name)];
        } else {
          var w := MakeReactive(val.v, name, false);
          if w.None? {
            return false;
          }
          fields := fields[name := w.value];
        }
      } else {
        fields := fields[name := val];
        if doUpdate {
          DoUpdate(name, world);
        }
      }
    }

    /** `$nullifyNode`: every node reachable through `childNodes` and `$el`
        is marked removed, and a `$forremove` of `false` becomes `true`. */
    method NullifyNode(node: DomNode)
      requires node.Wf() && forall n :: n in node.Reach() ==> allocated(n)
      modifies node.Reach()
      decreases node.height, 1
      ensures forall n :: n in node.Reach() ==> n.remove && n.forremove == Marked(old(n.forremove))
    {
      NullifyChildren(node);
      if node.forremove == Some(false) {
        node.forremove := Some(true);
      }
      node.remove := true;
      if node.el.Some? {
        NullifyNode(node.el.value);
      }
    }

    /** The loop of `$nullifyNode` over `childNodes`. */
    method NullifyChildren(node: DomNode)
      requires node.Wf() && forall n :: n in node.Reach() ==> allocated(n)
      modifies node.Reach()
      decreases node.height, 0
      ensures forall n :: n in node.Reach() ==> Marked(n.forremove) == Marked(old(n.forremove))
      ensures forall n :: n in ReachAll(node.childNodes, node.height) ==> n.remove && n.forremove == Marked(old(n.forremove))
    {
      var cs := node.childNodes;
      for i := 0 to |cs|
        invariant ReachAll(cs[..i], node.height) <= node.Reach()
        invariant forall n :: n in node.Reach() ==> Marked(n.forremove) == Marked(old(n.forremove))
        invariant forall n :: n in ReachAll(cs[..i], node.height) ==> n.remove && n.forremove == Marked(old(n.forremove))
      {
        ReachAllHolds(cs, node.height, i);
        ReachAllPrefix(cs, node.height, i);
        NullifyNode(cs[i]);
      }
      assert cs[..|cs|] == cs;
    }
  }
}
