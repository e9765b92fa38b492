/**
  What the compiler extracts from a component file before it emits code:
  the sections of the markup document (`generateWebComponent`'s loop over
  the document's top-level nodes) and the proxy walk over the class tree
  (`parseComponentSrc`).
*/
module Sections {
  import opened Names
  import opened MarkupTree

  /** The compiler fields the section loop writes: the component name, the
      `<component>` text, the `<style>` text and the `<view>` element. */
  datatype Parts = Parts(name: string, src: Option<string>, style: Option<string>, view: Option<Markup>)

  /** Whether the loop ran to the end (`false`: it returned null at a
      `<component>` without `name`), and the fields at that moment. */
  datatype Selection = Selection(ok: bool, sections: Parts)

  predicate Tagged(m: Markup, tag: string) {
    m.Element? && m.tag == tag
  }

  /** A `<component>` element that has no `name` attribute. */
  predicate Nameless(m: Markup) {
    Tagged(m, "component") && !HasAttr(m.attrs, "name")
  }

  /** The effect of one top-level node. Nodes that are not elements have no
      name and match no case. */
  function SelectOne(s: Parts, m: Markup): (r: Selection)
    ensures !r.ok <==> Nameless(m)
  {
    if Tagged(m, "component") then
      if HasAttr(m.attrs, "name") then Selection(true, s.(name := AttrValue(m.attrs, "name"), src := Some(TextContent(m))))
      else Selection(false, s)
    else if Tagged(m, "style") then Selection(true, s.(style := Some(TextContent(m))))
    else if Tagged(m, "view") then Selection(true, s.(view := Some(m)))
    else Selection(true, s)
  }

  /** The loop over the top-level nodes `doc`, starting from the fields `s`. */
  function Select(s: Parts, doc: seq<Markup>): Selection {
    if doc == [] then Selection(true, s)
    else
      var p := Select(s, doc[..|doc| - 1]);
      if !p.ok then p else SelectOne(p.sections, doc[|doc| - 1])
  }

  /** The index of the last element with the given tag, or -1. */
  function LastTagged(doc: seq<Markup>, tag: string): (r: int)
    ensures -1 <= r < |doc|
    ensures r >= 0 ==> Tagged(doc[r], tag)
    ensures forall k :: r < k < |doc| ==> !Tagged(doc[k], tag)
  {
    if doc == [] then -1
    else if Tagged(doc[|doc| - 1], tag) then |doc| - 1
    else LastTagged(doc[..|doc| - 1], tag)
  }

  /** The loop returns null exactly when some top-level `<component>` has
      no `name`. */
  lemma {:induction false} SelectFailsIffNameless(s: Parts, doc: seq<Markup>)
    ensures !Select(s, doc).ok <==> exists k :: 0 <= k < |doc| && Nameless(doc[k])
  {
    if doc != [] {
      var init := doc[..|doc| - 1];
      SelectFailsIffNameless(s, init);
      if exists k :: 0 <= k < |init| && Nameless(init[k]) {
        var k :| 0 <= k < |init| && Nameless(init[k]);
        assert doc[k] == init[k];
      }
      if exists k :: 0 <= k < |doc| && Nameless(doc[k]) {
        var k :| 0 <= k < |doc| && Nameless(doc[k]);
        if k < |init| { assert init[k] == doc[k]; }
      }
    }
  }

  /** When the loop runs to the end, each field holds what the last element
      with its tag gave, or its earlier value when there is none: later
      sections override earlier ones. */
  lemma {:induction false} SelectPicksLast(s: Parts, doc: seq<Markup>)
    requires Select(s, doc).ok
    ensures var r := Select(s, doc).sections;
            var v := LastTagged(doc, "view");
            r.view == if v < 0 then s.view else Some(doc[v])
    ensures var r := Select(s, doc).sections;
            var t := LastTagged(doc, "style");
            r.style == if t < 0 then s.style else Some(TextContent(doc[t]))
    ensures var r := Select(s, doc).sections;
            var c := LastTagged(doc, "component");
            (c < 0 ==> r.name == s.name && r.src == s.src) &&
            (c >= 0 ==> HasAttr(doc[c].attrs, "name") && r.name == AttrValue(doc[c].attrs, "name") &&
                        r.src == Some(TextContent(doc[c])))
  {
    if doc != [] {
      var init := doc[..|doc| - 1];
      assert Select(s, init).ok;
      SelectPicksLast(s, init);
      var last := doc[|doc| - 1];
      assert SelectOne(Select(s, init).sections, last).ok;
      if !Tagged(last, "view") {
        assert LastTagged(doc, "view") == LastTagged(init, "view");
      }
      if !Tagged(last, "style") {
        assert LastTagged(doc, "style") == LastTagged(init, "style");
      }
      if !Tagged(last, "component") {
        assert LastTagged(doc, "component") == LastTagged(init, "component");
      }
    }
  }
}

module Analysis {
  import opened Names
  import opened Ast
  import opened References
  import opened Code

  /** What the proxy walk has produced so far: the proxy set and the
      registrations destined for the constructor. */
  datatype Found = Found(proxies: seq<string>, registrations: seq<Instr>)

  /** One recompute registration per referenced proxy, in order. */
  function Recomputes(ps: seq<string>, name: string, init: Node): (r: seq<Instr>)
    ensures |r| == |ps| && forall k :: 0 <= k < |ps| ==> r[k] == Recompute(ps[k], name, init)
  {
    if ps == [] then [] else Recomputes(ps[..|ps| - 1], name, init) + [Recompute(ps[|ps| - 1], name, init)]
  }

  /** The walk callback on one node of the class tree `ast`: a recognised
      assignment adds its name to the proxies, and then registers one
      recompute per known proxy its initializer references. */
  function AnalyseNode(fuel: nat, ast: Node, f: Found, n: Node): Option<Found> {
    match ReactiveAssignmentData(n)
    case None => Some(f)
    case Some(d) =>
      var proxies := AddName(f.proxies, d.name);
      var init := InitializerAfterPush(d);
      match Refs(fuel, ast, proxies, init, [])
      case None => None
      case Some(ps) => Some(Found(proxies, f.registrations + Recomputes(ps, d.name, init)))
  }

  /** The callback over the walk's node sequence; `None` when reference
      collection ran out of fuel. */
  function Analyse(fuel: nat, ast: Node, f: Found, nodes: seq<Node>): Option<Found> {
    if nodes == [] then Some(f)
    else
      match Analyse(fuel, ast, f, nodes[..|nodes| - 1])
      case None => None
      case Some(g) => AnalyseNode(fuel, ast, g, nodes[|nodes| - 1])
  }

  /** `n` is a reactive assignment to `this.<x>`. */
  predicate Declares(n: Node, x: string) {
    ReactiveAssignmentData(n).Some? && ReactiveAssignmentData(n).value.name == x
  }

  /** For one recognised assignment: its name joins the proxies before the
      scan, and exactly one registration is appended per distinct known
      proxy the initializer reaches as `this.<p>`, inlined method bodies
      included. */
  lemma AssignmentEffects(fuel: nat, ast: Node, f: Found, n: Node)
    requires ReactiveAssignmentData(n).Some? && AnalyseNode(fuel, ast, f, n).Some?
    ensures var d := ReactiveAssignmentData(n).value;
            var g := AnalyseNode(fuel, ast, f, n).value;
            var init := InitializerAfterPush(d);
            g.proxies == AddName(f.proxies, d.name) &&
            exists ps :: Refs(fuel, ast, g.proxies, init, []) == Some(ps) &&
                         g.registrations == f.registrations + Recomputes(ps, d.name, init) &&
                         Distinct(ps) &&
                         forall x :: x in ps <==> x in g.proxies &&
                                                  Member(This, Ident(x)) in Reach(fuel, ast, PostOrder(init))
  {
    var d := ReactiveAssignmentData(n).value;
    var proxies := AddName(f.proxies, d.name);
    var init := InitializerAfterPush(d);
    CollectSpec(fuel, ast, proxies, PostOrder(init), []);
  }

  /** An initializer that reads its own property registers a recompute of
      itself, since the name is already a proxy when the scan runs. */
  lemma SelfReferenceRegisters(fuel: nat, ast: Node, f: Found, n: Node)
    requires ReactiveAssignmentData(n).Some? && AnalyseNode(fuel, ast, f, n).Some?
    requires var d := ReactiveAssignmentData(n).value;
             Member(This, Ident(d.name)) in PostOrder(InitializerAfterPush(d))
    ensures var d := ReactiveAssignmentData(n).value;
            Recompute(d.name, d.name, InitializerAfterPush(d)) in AnalyseNode(fuel, ast, f, n).value.registrations
  {
    var d := ReactiveAssignmentData(n).value;
    var proxies := AddName(f.proxies, d.name);
    var init := InitializerAfterPush(d);
    RefsFindsDirectReferences(fuel, ast, proxies, init, d.name);
    var ps := Refs(fuel, ast, proxies, init, []).value;
    var k :| 0 <= k < |ps| && ps[k] == d.name;
    var regs := AnalyseNode(fuel, ast, f, n).value.registrations;
    assert regs[|f.registrations| + k] == Recompute(d.name, d.name, init);
  }

  /** After the walk the proxies are the earlier ones plus exactly the
      names of the recognised assignments, without repetition, and the
      registrations only grow. */
  lemma {:induction false} AnalyseProxies(fuel: nat, ast: Node, f: Found, nodes: seq<Node>)
    requires Analyse(fuel, ast, f, nodes).Some?
    ensures var g := Analyse(fuel, ast, f, nodes).value;
            (Distinct(f.proxies) ==> Distinct(g.proxies)) &&
            f.registrations <= g.registrations &&
            forall x :: x in g.proxies <==> x in f.proxies || exists k :: 0 <= k < |nodes| && Declares(nodes[k], x)
  {
    if nodes != [] {
      var init := nodes[..|nodes| - 1];
      var last := nodes[|nodes| - 1];
      AnalyseProxies(fuel, ast, f, init);
      var h := Analyse(fuel, ast, f, init).value;
      var g := Analyse(fuel, ast, f, nodes).value;
      assert g == AnalyseNode(fuel, ast, h, last).value;
      forall x | true
        ensures x in g.proxies <==> x in f.proxies || exists k :: 0 <= k < |nodes| && Declares(nodes[k], x)
      {
        if exists k :: 0 <= k < |nodes| && Declares(nodes[k], x) {
          var k :| 0 <= k < |nodes| && Declares(nodes[k], x);
          if k < |init| { assert Declares(init[k], x); }
        }
        if exists k :: 0 <= k < |init| && Declares(init[k], x) {
          var k :| 0 <= k < |init| && Declares(init[k], x);
          assert Declares(nodes[k], x);
        }
      }
    }
  }

  /** Nodes other than reactive assignments leave the walk's result alone. */
  lemma {:induction false} OnlyAssignmentsMatter(fuel: nat, ast: Node, f: Found, nodes: seq<Node>)
    requires forall k :: 0 <= k < |nodes| ==> ReactiveAssignmentData(nodes[k]).None?
    ensures Analyse(fuel, ast, f, nodes) == Some(f)
  {
    if nodes != [] {
      OnlyAssignmentsMatter(fuel, ast, f, nodes[..|nodes| - 1]);
    }
  }
}
