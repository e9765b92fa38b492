/**
  Reference collection of the compiler (`getReferencedProxyNames` with the
  method lookup `findMethodAstNode`). A full walk of a start node adds the
  name of every `this.<name>` whose name is a known proxy and, for every
  call `<receiver>.<method>(...)`, walks the definition the lookup finds
  for `<method>` with the same accumulator.

  The walk has no cycle detection: a method that calls itself is walked
  again and again. The model carries a `fuel` bound on the nesting of
  inlined method walks and returns `None` when the bound is reached; a
  `Some` result is the one the walk terminates with.
*/
module References {
  import opened Names
  import opened Ast

  /** `<receiver>.<m>(...)` with an identifier `m`: the called method name. */
  function CalledName(n: Node): Option<string> {
    if n.Call? && n.callee.Member? && n.callee.property.Ident? then Some(n.callee.property.name)
    else None
  }

  /** The walk callback on the node sequence of a walk, in visiting order. */
  function Collect(fuel: nat, ast: Node, proxies: seq<string>, nodes: seq<Node>, acc: seq<string>)
    : Option<seq<string>>
    decreases fuel, |nodes|
  {
    if nodes == [] then Some(acc)
    else
      match Visit(fuel, ast, proxies, nodes[0], acc)
      case None => None
      case Some(acc1) => Collect(fuel, ast, proxies, nodes[1..], acc1)
  }

  /** The callback on one node. */
  function Visit(fuel: nat, ast: Node, proxies: seq<string>, n: Node, acc: seq<string>)
    : Option<seq<string>>
    decreases fuel, 0
  {
    if n.Member? && n.obj.This? && n.property.Ident? then
      Some(if n.property.name in proxies then AddName(acc, n.property.name) else acc)
    else if CalledName(n).Some? then
      match FindMethod(ast, CalledName(n).value)
      case None => Some(acc)
      case Some(md) => if fuel == 0 then None else Collect(fuel - 1, ast, proxies, PostOrder(md), acc)
    else Some(acc)
  }

  /** `getReferencedProxyNames(start, acc)` against the class tree `ast`. */
  function Refs(fuel: nat, ast: Node, proxies: seq<string>, start: Node, acc: seq<string>)
    : Option<seq<string>>
  {
    Collect(fuel, ast, proxies, PostOrder(start), acc)
  }

  // ---------------------------------------------------------------------------
  // Reference definition: the nodes the walk reaches

  /** Every node the walk over `nodes` visits, inlined method bodies
      included, where inlining is bounded by `fuel`. */
  ghost function Reach(fuel: nat, ast: Node, nodes: seq<Node>): set<Node>
    decreases fuel, |nodes|
  {
    if nodes == [] then {}
    else {nodes[0]} + ReachFrom(fuel, ast, nodes[0]) + Reach(fuel, ast, nodes[1..])
  }

  ghost function ReachFrom(fuel: nat, ast: Node, n: Node): set<Node>
    decreases fuel, 0
  {
    if n.Member? && n.obj.This? && n.property.Ident? then {}
    else if CalledName(n).Some? && FindMethod(ast, CalledName(n).value).Some? && fuel > 0 then
      Reach(fuel - 1, ast, PostOrder(FindMethod(ast, CalledName(n).value).value))
    else {}
  }

  /** What the collection adds to `acc`: the known proxies referenced as
      `this.<name>` somewhere in the reached nodes. */
  ghost predicate CollectsExactly(acc: seq<string>, r: seq<string>, proxies: seq<string>, reach: set<Node>) {
    acc <= r &&
    (Distinct(acc) ==> Distinct(r)) &&
    forall x :: x in r <==> x in acc || (x in proxies && Member(This, Ident(x)) in reach)
  }

  /** A terminating collection extends its accumulator by exactly the known
      proxies referenced in the walked nodes or the bodies of the methods
      they call, each once. */
  lemma {:induction false} CollectSpec(fuel: nat, ast: Node, proxies: seq<string>, nodes: seq<Node>, acc: seq<string>)
    requires Collect(fuel, ast, proxies, nodes, acc).Some?
    ensures CollectsExactly(acc, Collect(fuel, ast, proxies, nodes, acc).value, proxies, Reach(fuel, ast, nodes))
    decreases fuel, |nodes|
  {
    if nodes != [] {
      var acc1 := Visit(fuel, ast, proxies, nodes[0], acc).value;
      VisitSpec(fuel, ast, proxies, nodes[0], acc);
      CollectSpec(fuel, ast, proxies, nodes[1..], acc1);
    }
  }

  lemma {:induction false} VisitSpec(fuel: nat, ast: Node, proxies: seq<string>, n: Node, acc: seq<string>)
    requires Visit(fuel, ast, proxies, n, acc).Some?
    ensures CollectsExactly(acc, Visit(fuel, ast, proxies, n, acc).value, proxies, {n} + ReachFrom(fuel, ast, n))
    decreases fuel, 0
  {
    if n.Member? && n.obj.This? && n.property.Ident? {
      assert n == Member(This, Ident(n.property.name));
    } else if CalledName(n).Some? && FindMethod(ast, CalledName(n).value).Some? {
      var md := FindMethod(ast, CalledName(n).value).value;
      CollectSpec(fuel - 1, ast, proxies, PostOrder(md), acc);
    }
  }

  /** `getReferencedProxyNames` returns a superset of its accumulator,
      adds only known proxies, and never adds a name twice. */
  lemma RefsExtendsAccumulator(fuel: nat, ast: Node, proxies: seq<string>, start: Node, acc: seq<string>)
    requires Refs(fuel, ast, proxies, start, acc).Some?
    ensures acc <= Refs(fuel, ast, proxies, start, acc).value
    ensures forall x :: x in Refs(fuel, ast, proxies, start, acc).value ==> x in acc || x in proxies
    ensures Distinct(acc) ==> Distinct(Refs(fuel, ast, proxies, start, acc).value)
  {
    CollectSpec(fuel, ast, proxies, PostOrder(start), acc);
  }

  /** Every `this.<name>` under the start node whose name is a known proxy
      ends up in the result. */
  lemma RefsFindsDirectReferences(fuel: nat, ast: Node, proxies: seq<string>, start: Node, x: string)
    requires Refs(fuel, ast, proxies, start, []).Some?
    requires x in proxies && Member(This, Ident(x)) in PostOrder(start)
    ensures x in Refs(fuel, ast, proxies, start, []).value
  {
    CollectSpec(fuel, ast, proxies, PostOrder(start), []);
    ReachContainsNodes(fuel, ast, PostOrder(start));
  }

  lemma {:induction false} ReachContainsNodes(fuel: nat, ast: Node, nodes: seq<Node>)
    ensures forall n :: n in nodes ==> n in Reach(fuel, ast, nodes)
    decreases |nodes|
  {
    if nodes != [] {
      ReachContainsNodes(fuel, ast, nodes[1..]);
      assert forall n :: n in nodes ==> n == nodes[0] || n in nodes[1..];
    }
  }

  // ---------------------------------------------------------------------------
  // Fuel

  /** More fuel never changes a result that was reached. */
  lemma {:induction false} CollectFuelMonotone(fuel: nat, ast: Node, proxies: seq<string>, nodes: seq<Node>, acc: seq<string>)
    requires Collect(fuel, ast, proxies, nodes, acc).Some?
    ensures Collect(fuel + 1, ast, proxies, nodes, acc) == Collect(fuel, ast, proxies, nodes, acc)
    decreases fuel, |nodes|
  {
    if nodes != [] {
      VisitFuelMonotone(fuel, ast, proxies, nodes[0], acc);
      var acc1 := Visit(fuel, ast, proxies, nodes[0], acc).value;
      CollectFuelMonotone(fuel, ast, proxies, nodes[1..], acc1);
    }
  }

  lemma {:induction false} VisitFuelMonotone(fuel: nat, ast: Node, proxies: seq<string>, n: Node, acc: seq<string>)
    requires Visit(fuel, ast, proxies, n, acc).Some?
    ensures Visit(fuel + 1, ast, proxies, n, acc) == Visit(fuel, ast, proxies, n, acc)
    decreases fuel, 0
  {
    if !(n.Member? && n.obj.This? && n.property.Ident?) && CalledName(n).Some? {
      match FindMethod(ast, CalledName(n).value)
      case None =>
      case Some(md) =>
        CollectFuelMonotone(fuel - 1, ast, proxies, PostOrder(md), acc);
    }
  }

  lemma RefsFuelMonotone(fuel: nat, more: nat, ast: Node, proxies: seq<string>, start: Node, acc: seq<string>)
    requires Refs(fuel, ast, proxies, start, acc).Some? && fuel <= more
    ensures Refs(more, ast, proxies, start, acc) == Refs(fuel, ast, proxies, start, acc)
    decreases more - fuel
  {
    if fuel < more {
      CollectFuelMonotone(fuel, ast, proxies, PostOrder(start), acc);
      RefsFuelMonotone(fuel + 1, more, ast, proxies, start, acc);
    }
  }

  /** A walk that meets no method call needs no fuel. */
  lemma {:induction false} NoCallsNoFuel(ast: Node, proxies: seq<string>, nodes: seq<Node>, acc: seq<string>)
    requires forall k :: 0 <= k < |nodes| ==> CalledName(nodes[k]).None?
    ensures Collect(0, ast, proxies, nodes, acc).Some?
    decreases |nodes|
  {
    if nodes != [] {
      NoCallsNoFuel(ast, proxies, nodes[1..], Visit(0, ast, proxies, nodes[0], acc).value);
    }
  }

  /** A method `m` whose body calls `m` again sends the walk of any call of
      `m` into endless inlining: no fuel is enough. */
  lemma {:induction false} SelfCallExhaustsFuel(fuel: nat, ast: Node, proxies: seq<string>, md: Node, call: Node, acc: seq<string>)
    requires CalledName(call).Some?
    requires FindMethod(ast, CalledName(call).value) == Some(md)
    requires call in PostOrder(md)
    ensures Visit(fuel, ast, proxies, call, acc).None?
    decreases fuel, 0, 0
  {
    if fuel > 0 {
      CollectNoneIfVisitNone(fuel - 1, ast, proxies, PostOrder(md), call, acc);
    }
  }

  lemma {:induction false} CollectNoneIfVisitNone(fuel: nat, ast: Node, proxies: seq<string>, nodes: seq<Node>, call: Node, acc: seq<string>)
    requires CalledName(call).Some?
    requires FindMethod(ast, CalledName(call).value).Some?
    requires call in PostOrder(FindMethod(ast, CalledName(call).value).value)
    requires call in nodes
    ensures Collect(fuel, ast, proxies, nodes, acc).None?
    decreases fuel, 1, |nodes|
  {
    var md := FindMethod(ast, CalledName(call).value).value;
    if nodes[0] == call {
      SelfCallExhaustsFuel(fuel, ast, proxies, md, call, acc);
    } else {
      match Visit(fuel, ast, proxies, nodes[0], acc)
      case None =>
      case Some(acc1) =>
        CollectNoneIfVisitNone(fuel, ast, proxies, nodes[1..], call, acc1);
    }
  }
}
