/**
  The compiler object (`RwcCompiler`): its fields, the phases of
  `generateWebComponent` as methods that update them, and the pipeline
  these methods are proved to follow.

  The class statement the compiler builds is held as a syntax tree
  (`ast`); the statements the phases append to the class constructor are
  kept apart, in order, as `ctorCode`. They are dropped when the class has
  no constructor, as `appendCodeToConstructor` does.
*/
module Compiler {
  import opened Names
  import opened Ast
  import opened MarkupTree
  import opened Code
  import opened View
  import opened ViewLaws
  import opened Sections
  import opened Analysis
  import References
  import Interpolation
  import TagName
  import Trim
  import opened Seqs

  // ---------------------------------------------------------------------------
  // The pipeline

  /** The compiler's fields: the sections, the class tree (parsed lazily and
      then kept), the proxy set and the code appended to the constructor. */
  datatype State = State(sections: Parts, ast: Option<Node>, proxies: seq<string>, ctorCode: seq<Instr>)

  /** The fields of a new compiler. */
  const Initial: State := State(Parts("", None, None, None), None, [], [])

  /** The generated module: the rewritten class, the statements appended to
      its constructor, and the `customElements.define(tag, className)`
      statement after it. */
  datatype Component = Component(program: Node, constructorCode: seq<Instr>, tag: string, className: string)

  /** A generated component, null, or the divergence of reference
      collection (out of fuel). */
  datatype Outcome = Generated(component: Component) | NoComponent | FuelExhausted

  datatype Compilation = Compilation(outcome: Outcome, state: State)

  const ClassKeyword := "class "
  const ClassHeritage := " extends rwc.RwcElement {\n            "
  const ClassEnd := "\n        }"

  /** The class statement the `<component>` text is wrapped in; a missing
      text is interpolated as `null`. */
  function ClassSource(name: string, src: Option<string>): string {
    ClassKeyword + name + ClassHeritage + (if src.Some? then src.value else "null") + ClassEnd
  }

  /** `getConstructorNode() !== null`. */
  predicate HasCtor(st: State) {
    st.ast.Some? && FindConstructor(st.ast.value).Some?
  }

  /** `parseComponentSrc`: wrap the text, parse it unless a tree is cached,
      run the proxy walk, and rewrite the tree with the name literals. */
  function ParsePhase(parse: string -> Node, fuel: nat, st: State): Option<State> {
    var wrapped := ClassSource(st.sections.name, st.sections.src);
    var ast0 := if st.ast.Some? then st.ast.value else parse(wrapped);
    match Analyse(fuel, ast0, Found(st.proxies, []), PostOrder(ast0))
    case None => None
    case Some(f) =>
      Some(State(st.sections.(src := Some(wrapped)), Some(AddNameLiterals(ast0)), f.proxies,
                 st.ctorCode + (if FindConstructor(ast0).Some? then f.registrations else [])))
  }

  /** `appendStyle`. */
  function StylePhase(st: State): State {
    if st.sections.style.Some? && HasCtor(st)
    then st.(ctorCode := st.ctorCode + [Style(Trim.Trim(st.sections.style.value))])
    else st
  }

  /** `appendView`. */
  function ViewPhase(parse: string -> Node, fuel: nat, st: State): Option<State> {
    if st.sections.view.None? || !HasCtor(st) then Some(st)
    else
      match ViewCode(Ctx(parse, fuel, st.ast.value, st.proxies), st.sections.view.value, st.ctorCode)
      case None => None
      case Some(c) => Some(st.(ctorCode := c))
  }

  /** `generateComponent`. */
  function Output(st: State): Outcome {
    if st.ast.None? then NoComponent
    else Generated(Component(st.ast.value, st.ctorCode, TagName.TagName(st.sections.name), st.sections.name))
  }

  /** `generateWebComponent` on the top-level nodes `doc` of the parsed
      file, from the fields `st0`. After running out of fuel the fields are
      those after the section loop. */
  function Compile(parse: string -> Node, fuel: nat, st0: State, doc: seq<Markup>): Compilation {
    var sel := Select(st0.sections, doc);
    var st1 := st0.(sections := sel.sections);
    if !sel.ok then Compilation(NoComponent, st1)
    else
      match ParsePhase(parse, fuel, st1)
      case None => Compilation(FuelExhausted, st1)
      case Some(st2) =>
        var st3 := StylePhase(st2);
        match ViewPhase(parse, fuel, st3)
        case None => Compilation(FuelExhausted, st3)
        case Some(st4) => Compilation(Output(st4), st4)
  }

  /** The class tree the pipeline parses, or finds cached. */
  function ParsedTree(parse: string -> Node, st0: State, doc: seq<Markup>): Node {
    var s := Select(st0.sections, doc).sections;
    if st0.ast.Some? then st0.ast.value else parse(ClassSource(s.name, s.src))
  }

  // ---------------------------------------------------------------------------
  // What the pipeline promises

  /** A generated component went through every phase. */
  lemma GeneratedPhases(parse: string -> Node, fuel: nat, st0: State, doc: seq<Markup>)
    requires Compile(parse, fuel, st0, doc).outcome.Generated?
    ensures Select(st0.sections, doc).ok
    ensures var st1 := st0.(sections := Select(st0.sections, doc).sections);
            ParsePhase(parse, fuel, st1).Some? &&
            var st3 := StylePhase(ParsePhase(parse, fuel, st1).value);
            ViewPhase(parse, fuel, st3).Some? &&
            Compile(parse, fuel, st0, doc).state == ViewPhase(parse, fuel, st3).value &&
            Compile(parse, fuel, st0, doc).outcome == Output(ViewPhase(parse, fuel, st3).value)
  {
  }

  /** The result is null exactly when a top-level `<component>` has no
      `name`; a missing `<component>` is not detected. */
  lemma NullIffNameless(parse: string -> Node, fuel: nat, st0: State, doc: seq<Markup>)
    ensures Compile(parse, fuel, st0, doc).outcome == NoComponent <==>
            exists k :: 0 <= k < |doc| && Nameless(doc[k])
  {
    SelectFailsIffNameless(st0.sections, doc);
  }

  /** A generated component's class is the parsed tree with the name
      literals pushed, its tag is the kebab-case form of its class name, and
      the class name is the last `<component>`'s `name`. */
  lemma GeneratedShape(parse: string -> Node, fuel: nat, st0: State, doc: seq<Markup>)
    requires Compile(parse, fuel, st0, doc).outcome.Generated?
    ensures var c := Compile(parse, fuel, st0, doc).outcome.component;
            c.program == AddNameLiterals(ParsedTree(parse, st0, doc)) &&
            c.tag == TagName.Kebab(c.className) &&
            c.className == Select(st0.sections, doc).sections.name
    ensures var c := Compile(parse, fuel, st0, doc).outcome.component;
            var i := LastTagged(doc, "component");
            i >= 0 ==> HasAttr(doc[i].attrs, "name") && c.className == AttrValue(doc[i].attrs, "name")
  {
    GeneratedPhases(parse, fuel, st0, doc);
    var st1 := st0.(sections := Select(st0.sections, doc).sections);
    var st2 := ParsePhase(parse, fuel, st1).value;
    var st3 := StylePhase(st2);
    var st4 := ViewPhase(parse, fuel, st3).value;
    ParsePhaseFields(parse, fuel, st1);
    assert TreeOf(parse, st1) == ParsedTree(parse, st0, doc);
    LaterPhasesKeepFields(parse, fuel, st2);
    var c := Compile(parse, fuel, st0, doc).outcome.component;
    assert c == Component(st4.ast.value, st4.ctorCode, TagName.TagName(st4.sections.name), st4.sections.name);
    TagName.TagNameIsKebab(c.className);
    SelectPicksLast(st0.sections, doc);
  }

  /** Without a constructor nothing is appended anywhere. */
  lemma NoConstructorNoCode(parse: string -> Node, fuel: nat, st0: State, doc: seq<Markup>)
    requires Compile(parse, fuel, st0, doc).outcome.Generated?
    requires FindConstructor(ParsedTree(parse, st0, doc)).None?
    ensures Compile(parse, fuel, st0, doc).outcome.component.constructorCode == st0.ctorCode
  {
    GeneratedPhases(parse, fuel, st0, doc);
    var st1 := st0.(sections := Select(st0.sections, doc).sections);
    var st2 := ParsePhase(parse, fuel, st1).value;
    RewriteKeepsConstructor(ParsedTree(parse, st0, doc));
    assert st2.ctorCode == st0.ctorCode;
    assert !HasCtor(st2);
  }

  /** With a constructor, the appended statements are, in order: the
      recompute registrations of the proxy walk, the style element if there
      is a `<style>`, and, if there is a `<view>`, the cursor declaration
      followed by the view's code. */
  lemma ConstructorCodeOrder(parse: string -> Node, fuel: nat, st0: State, doc: seq<Markup>)
    requires Compile(parse, fuel, st0, doc).outcome.Generated?
    requires FindConstructor(ParsedTree(parse, st0, doc)).Some?
    ensures var s := Select(st0.sections, doc).sections;
            var ast0 := ParsedTree(parse, st0, doc);
            var f := Analyse(fuel, ast0, Found(st0.proxies, []), PostOrder(ast0));
            var style := if s.style.Some? then [Style(Trim.Trim(s.style.value))] else [];
            var cursor := if s.view.Some? then [DeclareCursor] else [];
            f.Some? &&
            st0.ctorCode + f.value.registrations + style + cursor
              <= Compile(parse, fuel, st0, doc).outcome.component.constructorCode
  {
    GeneratedPhases(parse, fuel, st0, doc);
    var s := Select(st0.sections, doc).sections;
    var ast0 := ParsedTree(parse, st0, doc);
    var f := Analyse(fuel, ast0, Found(st0.proxies, []), PostOrder(ast0));
    var st1 := st0.(sections := s);
    var st2 := ParsePhase(parse, fuel, st1).value;
    RewriteKeepsConstructor(ast0);
    assert f.Some? && st2.ctorCode == st0.ctorCode + f.value.registrations;
    assert HasCtor(st2) && st2.sections.style == s.style && st2.sections.view == s.view;
    var st3 := StylePhase(st2);
    var style := if s.style.Some? then [Style(Trim.Trim(s.style.value))] else [];
    assert st3.ctorCode == st2.ctorCode + style;
    var st4 := ViewPhase(parse, fuel, st3).value;
    assert Compile(parse, fuel, st0, doc).outcome.component.constructorCode == st4.ctorCode;
    if s.view.Some? {
      ViewCodeExtendsCtor(Ctx(parse, fuel, st3.ast.value, st3.proxies), s.view.value, st3.ctorCode);
    } else {
      assert st4 == st3;
    }
  }

  /** The class tree `parseComponentSrc` works on: the cached one, or the
      parse of the wrapped text. */
  function TreeOf(parse: string -> Node, st: State): Node {
    if st.ast.Some? then st.ast.value else parse(ClassSource(st.sections.name, st.sections.src))
  }

  /** `parseComponentSrc` succeeds with the walk; the proxies and the tree
      are the walk's, and registrations reach the constructor only if there
      is one. */
  lemma ParsePhaseFields(parse: string -> Node, fuel: nat, st: State)
    ensures var ast0 := TreeOf(parse, st);
            var f := Analyse(fuel, ast0, Found(st.proxies, []), PostOrder(ast0));
            var p := ParsePhase(parse, fuel, st);
            (p.Some? <==> f.Some?) &&
            (p.Some? ==> p.value.proxies == f.value.proxies && p.value.ast == Some(AddNameLiterals(ast0)) &&
                         p.value.ctorCode == st.ctorCode + (if FindConstructor(ast0).Some? then f.value.registrations else []) &&
                         p.value.sections == st.sections.(src := Some(ClassSource(st.sections.name, st.sections.src))))
  {
  }

  /** The style and view phases only append to the constructor. */
  lemma LaterPhasesKeepFields(parse: string -> Node, fuel: nat, st2: State)
    ensures var st3 := StylePhase(st2);
            st3.ast == st2.ast && st3.sections == st2.sections && st3.proxies == st2.proxies &&
            (ViewPhase(parse, fuel, st3).Some? ==>
               var st4 := ViewPhase(parse, fuel, st3).value;
               st4.ast == st2.ast && st4.sections == st2.sections && st4.proxies == st2.proxies)
  {
  }

  /** The proxy set after compilation is the one the proxy walk built. */
  lemma CompileProxies(parse: string -> Node, fuel: nat, st0: State, doc: seq<Markup>)
    requires Compile(parse, fuel, st0, doc).outcome.Generated?
    ensures var ast0 := ParsedTree(parse, st0, doc);
            var f := Analyse(fuel, ast0, Found(st0.proxies, []), PostOrder(ast0));
            f.Some? && Compile(parse, fuel, st0, doc).state.proxies == f.value.proxies
  {
    GeneratedPhases(parse, fuel, st0, doc);
    var st1 := st0.(sections := Select(st0.sections, doc).sections);
    ParsePhaseFields(parse, fuel, st1);
    assert TreeOf(parse, st1) == ParsedTree(parse, st0, doc);
    LaterPhasesKeepFields(parse, fuel, ParsePhase(parse, fuel, st1).value);
  }

  /** The proxy set after compilation is the earlier one plus the names of
      all reactive assignments of the class, each once. */
  lemma ProxiesAreDeclaredNames(parse: string -> Node, fuel: nat, st0: State, doc: seq<Markup>)
    requires Compile(parse, fuel, st0, doc).outcome.Generated?
    requires Distinct(st0.proxies)
    ensures var ps := Compile(parse, fuel, st0, doc).state.proxies;
            var nodes := PostOrder(ParsedTree(parse, st0, doc));
            Distinct(ps) &&
            forall x :: x in ps <==> x in st0.proxies || exists k :: 0 <= k < |nodes| && Declares(nodes[k], x)
  {
    CompileProxies(parse, fuel, st0, doc);
    var ast0 := ParsedTree(parse, st0, doc);
    AnalyseProxies(fuel, ast0, Found(st0.proxies, []), PostOrder(ast0));
  }

  // ---------------------------------------------------------------------------
  // The view emitter's steps

  /** The registrations of one expression: one per proxy it references. */
  method EmitUpdates(st: ViewState, ps: seq<string>, target: UpdateTarget, template: string, inLoop: bool)
    returns (r: ViewState)
    ensures r == Emit(st, UpdatesFor(ps, target, template, inLoop))
  {
    r := st;
    EmitNothing(st);
    for j := 0 to |ps|
      invariant r == Emit(st, UpdatesFor(ps[..j], target, template, inLoop))
    {
      assert ps[..j + 1][..j] == ps[..j];
      EmitTwice(st, UpdatesFor(ps[..j], target, template, inLoop), [RegisterUpdate(ps[j], target, template, inLoop)]);
      r := Emit(r, [RegisterUpdate(ps[j], target, template, inLoop)]);
    }
    assert ps[..|ps|] == ps;
  }

  /** `handleAttributeOrTextNode`: render the template once, then one update
      registration per proxy each expression references. */
  method HandleAttributeOrTextNode(ctx: Ctx, st: ViewState, target: UpdateTarget, filtered: string,
                                   expressions: seq<string>)
    returns (ok: bool, r: ViewState)
    ensures var c := RenderCode(ctx, target, Interpolation.Extracted(filtered, expressions), st.currFor.Some?);
            (ok <==> c.Some?) && (ok ==> r == Emit(st, c.value))
  {
    var inLoop := st.currFor.Some?;
    var render := [Render(target, filtered, inLoop)];
    r := Emit(st, render);
    ghost var done: seq<Instr> := [];
    assert render + done == render;
    for i := 0 to |expressions|
      invariant ExpressionUpdates(ctx, expressions[..i], target, filtered, inLoop) == Some(done)
      invariant r == Emit(st, render + done)
    {
      var ok1;
      ok1, r, done := HandleExpression(ctx, st, target, filtered, inLoop, expressions, i, render, done, r);
      if !ok1 {
        ExpressionUpdatesStayNone(ctx, expressions, i + 1, target, filtered, inLoop);
        assert expressions[..|expressions|] == expressions;
        return false, r;
      }
    }
    assert expressions[..|expressions|] == expressions;
    return true, r;
  }

  /** One turn of the expression loop of `handleAttributeOrTextNode`: the
      registrations of the `i`-th expression's proxies follow the earlier
      ones. */
  method HandleExpression(ctx: Ctx, st: ViewState, target: UpdateTarget, filtered: string, inLoop: bool,
                          expressions: seq<string>, i: nat, render: seq<Instr>, ghost done: seq<Instr>,
                          r0: ViewState)
    returns (ok: bool, r: ViewState, ghost done': seq<Instr>)
    requires i < |expressions| && ExpressionUpdates(ctx, expressions[..i], target, filtered, inLoop) == Some(done)
    requires r0 == Emit(st, render + done)
    ensures !ok ==> ExpressionUpdates(ctx, expressions[..i + 1], target, filtered, inLoop).None?
    ensures ok ==> ExpressionUpdates(ctx, expressions[..i + 1], target, filtered, inLoop) == Some(done') &&
                   r == Emit(st, render + done')
  {
    var ps := RefsOf(ctx, expressions[i]);
    ExpressionUpdatesStep(ctx, expressions, i, target, filtered, inLoop, done);
    if ps.None? {
      return false, r0, done;
    }
    var updates := UpdatesFor(ps.value, target, filtered, inLoop);
    r := EmitUpdates(r0, ps.value, target, filtered, inLoop);
    EmitTwice(st, render + done, updates);
    Associate(render, done, updates);
    done' := done + updates;
    ok := true;
  }

  /** One more expression adds the registrations of its proxies, or runs
      out of fuel. */
  lemma ExpressionUpdatesStep(ctx: Ctx, exprs: seq<string>, i: nat, target: UpdateTarget,
                              template: string, inLoop: bool, done: seq<Instr>)
    requires i < |exprs| && ExpressionUpdates(ctx, exprs[..i], target, template, inLoop) == Some(done)
    ensures ExpressionUpdates(ctx, exprs[..i + 1], target, template, inLoop) ==
            match RefsOf(ctx, exprs[i])
            case None => None
            case Some(ps) => Some(done + UpdatesFor(ps, target, template, inLoop))
  {
    assert exprs[..i + 1][..i] == exprs[..i];
  }

  /** Once an expression prefix has run out of fuel, every longer prefix has. */
  lemma {:induction false} ExpressionUpdatesStayNone(ctx: Ctx, exprs: seq<string>, i: nat, target: UpdateTarget,
                                                     template: string, inLoop: bool)
    requires i <= |exprs| && ExpressionUpdates(ctx, exprs[..i], target, template, inLoop).None?
    ensures ExpressionUpdates(ctx, exprs[..|exprs|], target, template, inLoop).None?
    decreases |exprs| - i
  {
    if i < |exprs| {
      assert exprs[..i + 1][..i] == exprs[..i];
      ExpressionUpdatesStayNone(ctx, exprs, i + 1, target, template, inLoop);
    }
  }

  /** `handleAttribute`: a plain attribute's value with interpolation. */
  method HandleAttribute(ctx: Ctx, st: ViewState, a: Attr) returns (ok: bool, r: ViewState)
    ensures var c := RenderCode(ctx, AttributeNamed(a.name), Interpolation.Extract(a.value), st.currFor.Some?);
            (ok <==> c.Some?) && (ok ==> r == Emit(st, c.value))
  {
    var filtered, expressions := Interpolation.FilterTextContent(a.value);
    ok, r := HandleAttributeOrTextNode(ctx, st, AttributeNamed(a.name), filtered, expressions);
  }

  /** `handleTextNode`. */
  method HandleTextNode(ctx: Ctx, st: ViewState, data: string) returns (ok: bool, r: ViewState)
    ensures var c := TextStep(ctx, st, data);
            (ok <==> c.Some?) && (ok ==> r == c.value)
  {
    var filtered, expressions := Interpolation.FilterTextContent(data);
    ok, r := HandleAttributeOrTextNode(ctx, st, TextNode, filtered, expressions);
  }

  /** The routing of one attribute, in the order the emitter tests it. */
  method RouteAttribute(ctx: Ctx, st: ViewState, a: Attr) returns (ok: bool, r: ViewState)
    ensures var c := AttrCode(ctx, a, st.currFor.Some?);
            (ok <==> c.Some?) && (ok ==> r == Emit(st, c.value))
  {
    var inLoop := st.currFor.Some?;
    if IsEventName(a.name) {
      r := Emit(st, [Listen(a.name[1..|a.name| - 1], a.value)]);
      ok := true;
    } else if a.name == IfAttribute {
      var head := [IfBody(a.value, inLoop)];
      r := Emit(st, head);
      var ps := RefsOf(ctx, a.value);
      if ps.None? {
        return false, r;
      }
      assert head + ConditionalRegistrations(ps.value[..0]) == head;
      for j := 0 to |ps.value|
        invariant r == Emit(st, head + ConditionalRegistrations(ps.value[..j]))
      {
        EmitTwice(st, head + ConditionalRegistrations(ps.value[..j]), [RegisterConditional(ps.value[j])]);
        assert ps.value[..j + 1][..j] == ps.value[..j];
        assert head + ConditionalRegistrations(ps.value[..j]) + [RegisterConditional(ps.value[j])]
            == head + ConditionalRegistrations(ps.value[..j + 1]);
        r := Emit(r, [RegisterConditional(ps.value[j])]);
      }
      assert ps.value[..|ps.value|] == ps.value;
      EmitTwice(st, [IfBody(a.value, inLoop)] + ConditionalRegistrations(ps.value), [ClearConditionals]);
      r := Emit(r, [ClearConditionals]);
      ok := true;
    } else if a.name == ForAttribute {
      EmitNothing(st);
      r := st;
      ok := true;
    } else if |a.name| > 0 && a.name[0] == PropPrefix {
      r := Emit(st, [PollProp(a.name[1..], a.value)]);
      ok := true;
    } else {
      ok, r := HandleAttribute(ctx, st, a);
    }
  }

  /** The second attribute loop of an element. */
  method RouteAttributes(ctx: Ctx, st: ViewState, attrs: seq<Attr>) returns (ok: bool, r: ViewState)
    ensures var e := EmitAttrs(ctx, st, attrs);
            (ok <==> e.Some?) && (ok ==> r == e.value)
  {
    r := st;
    for i := 0 to |attrs|
      invariant EmitAttrs(ctx, st, attrs[..i]) == Some(r)
    {
      assert attrs[..i + 1][..i] == attrs[..i];
      var ok1, r1 := RouteAttribute(ctx, r, attrs[i]);
      if !ok1 {
        EmitAttrsStayNone(ctx, st, attrs, i + 1);
        assert attrs[..|attrs|] == attrs;
        return false, r1;
      }
      r := r1;
    }
    assert attrs[..|attrs|] == attrs;
    ok := true;
  }

  lemma {:induction false} EmitAttrsStayNone(ctx: Ctx, st: ViewState, attrs: seq<Attr>, i: nat)
    requires i <= |attrs| && EmitAttrs(ctx, st, attrs[..i]).None?
    ensures EmitAttrs(ctx, st, attrs[..|attrs|]).None?
    decreases |attrs| - i
  {
    if i < |attrs| {
      assert attrs[..i + 1][..i] == attrs[..i];
      EmitAttrsStayNone(ctx, st, attrs, i + 1);
    }
  }

  /** The first attribute loop of an element: a `ForNode` per `*for`, with
      the proxies its header references. */
  method OpenFors(ctx: Ctx, st: ViewState, attrs: seq<Attr>) returns (ok: bool, r: ViewState)
    ensures var p := PushFors(ctx, st, attrs);
            (ok <==> p.Some?) && (ok ==> r == p.value)
  {
    r := st;
    for i := 0 to |attrs|
      invariant PushFors(ctx, st, attrs[..i]) == Some(r)
    {
      assert attrs[..i + 1][..i] == attrs[..i];
      if attrs[i].name == ForAttribute {
        var ps := RefsOf(ctx, ForProbe(attrs[i].value));
        if ps.None? {
          PushForsStayNone(ctx, st, attrs, i + 1);
          assert attrs[..|attrs|] == attrs;
          return false, r;
        }
        r := Push(r, NewFrame(attrs[i].value, ps.value));
      }
    }
    assert attrs[..|attrs|] == attrs;
    ok := true;
  }

  lemma {:induction false} PushForsStayNone(ctx: Ctx, st: ViewState, attrs: seq<Attr>, i: nat)
    requires i <= |attrs| && PushFors(ctx, st, attrs[..i]).None?
    ensures PushFors(ctx, st, attrs[..|attrs|]).None?
    decreases |attrs| - i
  {
    if i < |attrs| {
      assert attrs[..i + 1][..i] == attrs[..i];
      PushForsStayNone(ctx, st, attrs, i + 1);
    }
  }

  /** A node taken from the queue: the parent check, the element or text
      code, and the descent into its children. */
  method VisitNode(ctx: Ctx, st: ViewState, m: Markup, parent: seq<nat>, path: seq<nat>) returns (ok: bool, r: ViewState)
    ensures var o := OpenStep(ctx, st, m, parent, path);
            (ok <==> o.Some?) && (ok ==> r == o.value)
  {
    r := st;
    if parent != r.currParent {
      r := r.(currParent := parent);
      if !r.prevWasCloseFor {
        r := Emit(r, [Ascend]);
      } else {
        r := r.(prevWasCloseFor := false);
      }
    }
    assert r == ParentChange(st, parent);
    if m.Element? {
      var ok1, r1 := OpenFors(ctx, r, m.attrs);
      if !ok1 {
        return false, r1;
      }
      r := Emit(r1, [CreateElement(m.tag, r1.currFor.Some?)]);
      ok, r := RouteAttributes(ctx, r, m.attrs);
      if !ok {
        return;
      }
    } else if m.Text? {
      ok, r := HandleTextNode(ctx, r, m.data);
      if !ok {
        return;
      }
    }
    var children := Children(m);
    if HasForAttribute(m) && |children| > 0 && r.currFor.Some? && r.currFor.value < |r.stack| {
      var i := r.currFor.value;
      r := r.(stack := r.stack[i := r.stack[i].(hasChildren := true)]);
    }
    if |children| > 0 {
      r := Emit(r, [Descend]);
      r := r.(currParent := path);
    }
    ok := true;
  }

  /** A `'CLOSE_FOR'` taken from the queue: ignored without a current loop;
      otherwise the loop is finished, popped, and its block lands in the
      new target. */
  method CloseFor(st: ViewState) returns (r: ViewState)
    ensures r == CloseStep(st)
  {
    if st.currFor.None? || st.currFor.value >= |st.stack| {
      return st;
    }
    var i := st.currFor.value;
    var f := FinishFrame(st.stack[i], |st.stack|);
    var s := st.(stack := st.stack[i := f], prevWasCloseFor := st.stack[i].hasChildren);
    var top := s.stack[|s.stack| - 1];
    var rest := s.stack[..|s.stack| - 1];
    s := s.(stack := rest, currFor := if |rest| > 0 then Some(|rest| - 1) else None);
    r := Emit(s, [Block(top)]);
  }

  /** The loop frame at its close marker: the ascend out of
      its children, one rebuild registration per proxy of the header, and,
      for an outermost loop with proxies, the loop statement taken out. */
  method FinishFrame(f0: Frame, depth: nat) returns (f: Frame)
    ensures f == CloseFrame(f0, depth)
  {
    f := f0;
    if f.hasChildren {
      f := f.(forBody := f.forBody + [Ascend]);
    }
    if |f.proxies| > 0 {
      var rebuilds := RebuildsFor(f.proxies, f.header, f.forBody);
      f := f.(rebuilds := f.rebuilds + rebuilds, loopKept := if depth == 1 then false else f.loopKept);
    }
  }

  /** The loop that registers one rebuild per proxy of the loop header. */
  method RebuildsFor(ps: seq<string>, header: string, body: seq<Instr>) returns (rebuilds: seq<Instr>)
    ensures rebuilds == Rebuilds(ps, header, body)
  {
    rebuilds := [];
    for j := 0 to |ps|
      invariant rebuilds == Rebuilds(ps[..j], header, body)
    {
      assert ps[..j + 1][..j] == ps[..j];
      rebuilds := rebuilds + [RegisterRebuild(ps[j], header, body)];
    }
    assert ps[..|ps|] == ps;
  }

  /** One turn of the emitter's loop: the queue's front entry is shifted
      and handled; a node's children, and its close marker, are put back
      in front. The events the queue stands for lose exactly their first. */
  method TakeItem(ctx: Ctx, st: ViewState, queue: seq<QItem>) returns (ok: bool, r: ViewState, q: seq<QItem>)
    requires queue != [] && CurrIsTop(st)
    ensures ok ==> CurrIsTop(r) && |Flatten(q)| < |Flatten(queue)| &&
                   Run(ctx, Some(r), Flatten(q)) == Run(ctx, Some(st), Flatten(queue))
    ensures !ok ==> Run(ctx, Some(st), Flatten(queue)) == None
  {
    var item := queue[0];
    var rest := queue[1..];
    assert queue == [item] + rest;
    match item
    case CloseMarker =>
      QueueClose(rest);
      RunCons(ctx, st, Close, Flatten(rest));
      StepKeepsTop(ctx, st, Close);
      r := CloseFor(st);
      return true, r, rest;
    case Visit(m, parent, path) =>
      ok, r, q := TakeVisit(ctx, st, m, parent, path, rest);
  }

  /** The turn of the loop that shifts a node. */
  method TakeVisit(ctx: Ctx, st: ViewState, m: Markup, parent: seq<nat>, path: seq<nat>, rest: seq<QItem>)
    returns (ok: bool, r: ViewState, q: seq<QItem>)
    requires CurrIsTop(st)
    ensures var queue := [Visit(m, parent, path)] + rest;
            ok ==> CurrIsTop(r) && |Flatten(q)| < |Flatten(queue)| &&
                   Run(ctx, Some(r), Flatten(q)) == Run(ctx, Some(st), Flatten(queue))
    ensures !ok ==> Run(ctx, Some(st), Flatten([Visit(m, parent, path)] + rest)) == None
  {
    QueueVisit(m, parent, path, rest);
    var after := ChildItems(Children(m), path, 0) + (if HasForAttribute(m) then [CloseMarker] else []) + rest;
    RunCons(ctx, st, Open(m, parent, path), Flatten(after));
    ok, r := VisitNode(ctx, st, m, parent, path);
    if !ok {
      RunNone(ctx, Flatten(after));
      return false, r, [];
    }
    StepKeepsTop(ctx, st, Open(m, parent, path));
    var rest' := if HasForAttribute(m) then [CloseMarker] + rest else rest;
    q := ChildItems(Children(m), path, 0) + rest';
    assert q == after;
  }

  // ---------------------------------------------------------------------------
  // The compiler object

  class RwcCompiler {
    /** `toAst`, as a total function. */
    const parse: string -> Node
    /** The bound on nested method inlining in reference collection. */
    const fuel: nat

    var componentName: string
    var componentSrc: Option<string>
    var styleSrc: Option<string>
    var viewRoot: Option<Markup>
    var ast: Option<Node>
    var proxies: seq<string>
    var ctorCode: seq<Instr>

    function Snapshot(): State
      reads this
    {
      State(Parts(componentName, componentSrc, styleSrc, viewRoot), ast, proxies, ctorCode)
    }

    constructor(parse: string -> Node, fuel: nat)
      ensures this.parse == parse && this.fuel == fuel
      ensures Snapshot() == Initial
    {
      this.parse := parse;
      this.fuel := fuel;
      componentName := "";
      componentSrc := None;
      styleSrc := None;
      viewRoot := None;
      ast := None;
      proxies := [];
      ctorCode := [];
    }

    /** `getConstructorNode() !== null`. */
    predicate HasConstructor()
      reads this`ast
    {
      ast.Some? && FindConstructor(ast.value).Some?
    }

    /** `appendCodeToConstructor`: dropped when there is no constructor. */
    method AppendCodeToConstructor(code: seq<Instr>)
      modifies this`ctorCode
      ensures ctorCode == old(ctorCode) + (if HasConstructor() then code else [])
    {
      if !HasConstructor() {
        return;
      }
      ctorCode := ctorCode + code;
    }

    /** `generateWebComponent` on the top-level nodes of the parsed file. */
    method GenerateWebComponent(doc: seq<Markup>) returns (r: Outcome)
      modifies this
      ensures r == Compile(parse, fuel, old(Snapshot()), doc).outcome
      ensures r != FuelExhausted ==> Snapshot() == Compile(parse, fuel, old(Snapshot()), doc).state
    {
      ghost var st0 := Snapshot();
      for i := 0 to |doc|
        invariant Select(st0.sections, doc[..i]) == Selection(true, Snapshot().sections)
        invariant Snapshot() == st0.(sections := Snapshot().sections)
      {
        assert doc[..i + 1][..i] == doc[..i];
        var m := doc[i];
        if m.Element? && m.tag == "component" {
          if HasAttr(m.attrs, "name") {
            componentName := AttrValue(m.attrs, "name");
            componentSrc := Some(TextContent(m));
          } else {
            SelectStaysFailed(st0.sections, doc, i + 1);
            assert doc[..|doc|] == doc;
            return NoComponent;
          }
        } else if m.Element? && m.tag == "style" {
          styleSrc := Some(TextContent(m));
        } else if m.Element? && m.tag == "view" {
          viewRoot := Some(m);
        }
      }
      assert doc[..|doc|] == doc;
      ghost var st1 := Snapshot();
      var ok := ParseComponentSrc();
      if !ok {
        return FuelExhausted;
      }
      AppendStyle();
      ok := AppendView();
      if !ok {
        return FuelExhausted;
      }
      r := GenerateComponent();
    }

    /** `parseComponentSrc`. */
    method ParseComponentSrc() returns (ok: bool)
      modifies this`componentSrc, this`ast, this`proxies, this`ctorCode
      ensures var p := ParsePhase(parse, fuel, old(Snapshot()));
              (ok <==> p.Some?) && (ok ==> Snapshot() == p.value)
    {
      ghost var st := Snapshot();
      ParsePhaseFields(parse, fuel, st);
      componentSrc := Some(ClassSource(componentName, componentSrc));
      if ast.None? {
        ast := Some(parse(componentSrc.value));
      }
      var ast0 := ast.value;
      assert ast0 == TreeOf(parse, st);
      ghost var found;
      ok, found := ProxyWalk(ast0);
      if !ok {
        return;
      }
      ast := Some(AddNameLiterals(ast0));
      RewriteKeepsConstructor(ast0);
    }

    /** The walk of `parseComponentSrc` over the class tree `ast0`, which is
        the cached tree, node after node in walk order. */
    method ProxyWalk(ast0: Node) returns (ok: bool, ghost found: Found)
      requires ast == Some(ast0)
      modifies this`proxies, this`ctorCode
      ensures var f := Analyse(fuel, ast0, Found(old(proxies), []), PostOrder(ast0));
              (ok <==> f.Some?) &&
              (ok ==> found == f.value && proxies == found.proxies &&
                      ctorCode == old(ctorCode) + (if FindConstructor(ast0).Some? then found.registrations else []))
    {
      var nodes := PostOrder(ast0);
      ghost var start := Found(proxies, []);
      found := start;
      ghost var code0 := ctorCode;
      for i := 0 to |nodes|
        modifies this`proxies, this`ctorCode
        invariant Analyse(fuel, ast0, start, nodes[..i]) == Some(found)
        invariant found.proxies == proxies
        invariant ctorCode == code0 + (if HasConstructor() then found.registrations else [])
      {
        var ok1;
        ok1, found := ProxyWalkStep(ast0, start, nodes, i, code0, found);
        if !ok1 {
          AnalyseStaysNone(fuel, ast0, start, nodes, i + 1);
          assert nodes[..|nodes|] == nodes;
          return false, found;
        }
      }
      assert nodes[..|nodes|] == nodes;
      ok := true;
    }

    /** One turn of the walk: the callback on the `i`-th node extends the
        walk over the nodes before it. */
    method ProxyWalkStep(ast0: Node, ghost start: Found, nodes: seq<Node>, i: nat, ghost code0: seq<Instr>, ghost before: Found)
      returns (ok: bool, ghost found: Found)
      requires ast == Some(ast0) && i < |nodes|
      requires Analyse(fuel, ast0, start, nodes[..i]) == Some(before) && before.proxies == proxies
      requires ctorCode == code0 + (if HasConstructor() then before.registrations else [])
      modifies this`proxies, this`ctorCode
      ensures !ok ==> Analyse(fuel, ast0, start, nodes[..i + 1]).None?
      ensures ok ==> Analyse(fuel, ast0, start, nodes[..i + 1]) == Some(found) && found.proxies == proxies &&
                     ctorCode == code0 + (if HasConstructor() then found.registrations else [])
    {
      ok, found := ProxyWalkCallback(ast0, nodes[i], before);
      if !ok {
        AnalyseStepNone(fuel, ast0, start, nodes, i, before);
        return;
      }
      AnalyseStep(fuel, ast0, start, nodes, i, before, found);
      assert before.registrations + found.registrations[|before.registrations|..] == found.registrations;
      Associate(code0, before.registrations, found.registrations[|before.registrations|..]);
    }

    /** The walk callback of `parseComponentSrc` on one node: a reactive
        assignment's name joins the proxies, then one recompute per proxy
        its initializer references goes to the constructor. */
    method ProxyWalkCallback(ast0: Node, n: Node, ghost f: Found) returns (ok: bool, ghost g: Found)
      requires ast == Some(ast0) && f.proxies == proxies
      modifies this`proxies, this`ctorCode
      ensures ok <==> AnalyseNode(fuel, ast0, f, n).Some?
      ensures ok ==> g == AnalyseNode(fuel, ast0, f, n).value && proxies == g.proxies &&
                     f.registrations <= g.registrations &&
                     ctorCode == old(ctorCode) + (if HasConstructor() then g.registrations[|f.registrations|..] else [])
    {
      var data := ReactiveAssignmentData(n);
      if data.None? {
        return true, f;
      }
      var name := data.value.name;
      proxies := AddName(proxies, name);
      var init := InitializerAfterPush(data.value);
      var ps := References.Refs(fuel, ast0, proxies, init, []);
      if ps.None? {
        return false, f;
      }
      AppendRecomputes(ps.value, name, init);
      g := Found(proxies, f.registrations + Recomputes(ps.value, name, init));
      assert g.registrations[|f.registrations|..] == Recomputes(ps.value, name, init);
      ok := true;
    }

    /** The registrations of one assignment, appended one by one. */
    method AppendRecomputes(ps: seq<string>, name: string, init: Node)
      modifies this`ctorCode
      ensures ctorCode == old(ctorCode) + (if HasConstructor() then Recomputes(ps, name, init) else [])
    {
      var code0 := ctorCode;
      for j := 0 to |ps|
        invariant ctorCode == code0 + (if HasConstructor() then Recomputes(ps[..j], name, init) else [])
      {
        assert ps[..j + 1][..j] == ps[..j];
        Associate(code0, Recomputes(ps[..j], name, init), [Recompute(ps[j], name, init)]);
        AppendCodeToConstructor([Recompute(ps[j], name, init)]);
      }
      assert ps[..|ps|] == ps;
    }

    /** `appendStyle`. */
    method AppendStyle()
      modifies this`ctorCode
      ensures Snapshot() == StylePhase(old(Snapshot()))
    {
      if styleSrc.None? {
        return;
      }
      AppendCodeToConstructor([Style(Trim.Trim(styleSrc.value))]);
    }

    /** `appendView`: the queue of nodes and `'CLOSE_FOR'` markers, consumed
      from the front, with a node's children and marker put back in front. */
    method AppendView() returns (ok: bool)
      modifies this`ctorCode
      ensures var v := ViewPhase(parse, fuel, old(Snapshot()));
              (ok <==> v.Some?) && (ok ==> Snapshot() == v.value)
    {
      if viewRoot.None? {
        return true;
      }
      if !HasConstructor() {
        return true;
      }
      var root := viewRoot.value;
      var ctx := Ctx(parse, fuel, ast.value, proxies);
      var queue := ChildItems(Children(root), [], 0);
      InitialQueue(root);
      var st := Start(ctorCode);
      ghost var goal := Run(ctx, Some(st), Events(root));
      while queue != []
        invariant CurrIsTop(st)
        invariant Run(ctx, Some(st), Flatten(queue)) == goal
        decreases |Flatten(queue)|
      {
        var ok1, st1, queue1 := TakeItem(ctx, st, queue);
        if !ok1 {
          return false;
        }
        st, queue := st1, queue1;
      }
      ctorCode := FlushAll(st).ctorCode;
      ok := true;
    }

    /** `generateComponent`. */
    method GenerateComponent() returns (r: Outcome)
      ensures r == Output(Snapshot())
    {
      if ast.None? {
        return NoComponent;
      }
      var tag := TagName.TagName(componentName);
      r := Generated(Component(ast.value, ctorCode, tag, componentName));
    }
  }

  lemma {:induction false} SelectStaysFailed(s: Parts, doc: seq<Markup>, i: nat)
    requires i <= |doc| && !Select(s, doc[..i]).ok
    ensures !Select(s, doc[..|doc|]).ok && Select(s, doc[..|doc|]) == Select(s, doc[..i])
    decreases |doc| - i
  {
    if i < |doc| {
      assert doc[..i + 1][..i] == doc[..i];
      SelectStaysFailed(s, doc, i + 1);
    }
  }

  /** One more node of the walk order is one more callback. */
  lemma AnalyseStep(fuel: nat, ast: Node, start: Found, nodes: seq<Node>, i: nat, before: Found, after: Found)
    requires i < |nodes|
    requires Analyse(fuel, ast, start, nodes[..i]) == Some(before)
    requires AnalyseNode(fuel, ast, before, nodes[i]) == Some(after)
    ensures Analyse(fuel, ast, start, nodes[..i + 1]) == Some(after)
  {
    assert nodes[..i + 1][..i] == nodes[..i];
  }

  /** A callback that runs out of fuel ends the walk. */
  lemma AnalyseStepNone(fuel: nat, ast: Node, start: Found, nodes: seq<Node>, i: nat, before: Found)
    requires i < |nodes|
    requires Analyse(fuel, ast, start, nodes[..i]) == Some(before)
    requires AnalyseNode(fuel, ast, before, nodes[i]).None?
    ensures Analyse(fuel, ast, start, nodes[..i + 1]).None?
  {
    assert nodes[..i + 1][..i] == nodes[..i];
  }

  lemma {:induction false} AnalyseStaysNone(fuel: nat, ast: Node, f: Found, nodes: seq<Node>, i: nat)
    requires i <= |nodes| && Analyse(fuel, ast, f, nodes[..i]).None?
    ensures Analyse(fuel, ast, f, nodes[..|nodes|]).None?
    decreases |nodes| - i
  {
    if i < |nodes| {
      assert nodes[..i + 1][..i] == nodes[..i];
      AnalyseStaysNone(fuel, ast, f, nodes, i + 1);
    }
  }
}
