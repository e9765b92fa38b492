/**
  The view emitter (`appendView`) as a state machine over the events of a
  depth-first walk of the `<view>` tree. An element is visited before its
  children; an element carrying `*for` produces a close event after all its
  descendants. The compiler's loop realises that event order with a queue
  (see `Compiler.RwcCompiler.AppendView`); this module states what each
  event does.

  A loop (`ForNode`) is a frame on a stack. Code goes into the body of the
  current loop, or into the constructor when no loop is open. The source
  appends a loop's block to its enclosing target when the loop opens and
  keeps filling it through the object reference; nothing else reaches the
  enclosing target while the loop is open, so the model appends the
  finished block when the loop closes, at the same position.
*/
module View {
  import opened Names
  import opened Ast
  import opened MarkupTree
  import opened References
  import opened Code
  import Interpolation
  import opened Seqs

  /** What the emitter reads but never changes: the tree parser, the
      inlining bound, the class tree and the known proxies. */
  datatype Ctx = Ctx(parse: string -> Node, fuel: nat, ast: Node, proxies: seq<string>)

  /** `getReferencedProxyNames(toAst(text))`. */
  function RefsOf(ctx: Ctx, text: string): Option<seq<string>> {
    Refs(ctx.fuel, ctx.ast, ctx.proxies, ctx.parse(text), [])
  }

  /** The statement parsed to find the proxies a loop header uses. */
  function ForProbe(header: string): string {
    "for (" + header + ") {}"
  }

  /** A `ForNode`: its header, the proxies the header references, whether the
      element has children, the loop body, whether the loop statement stays
      in the block, and the rebuild registrations at the block's end. */
  datatype Frame = Frame(header: string, proxies: seq<string>, hasChildren: bool,
                         forBody: seq<Instr>, loopKept: bool, rebuilds: seq<Instr>)

  function NewFrame(header: string, proxies: seq<string>): Frame {
    Frame(header, proxies, false, [], true, [])
  }

  function Block(f: Frame): Instr {
    ForBlock(f.header, f.forBody, f.loopKept, f.rebuilds)
  }

  /** The emitter's working state. `currFor` is the index of the current
      loop frame; `currParent` is the path of the markup node new elements
      are appended under. */
  datatype ViewState = ViewState(ctorCode: seq<Instr>, stack: seq<Frame>, currFor: Option<nat>,
                                 currParent: seq<nat>, prevWasCloseFor: bool)

  /** The current loop is the top of the stack, or there is none. */
  predicate CurrIsTop(st: ViewState) {
    st.currFor == (if |st.stack| == 0 then None else Some(|st.stack| - 1))
  }

  function Start(ctorCode: seq<Instr>): ViewState {
    ViewState(ctorCode + [DeclareCursor], [], None, [], false)
  }

  /** `appendCodeToMethod(currForNode || ctor, code)`. */
  function Emit(st: ViewState, code: seq<Instr>): (r: ViewState)
    ensures |r.stack| == |st.stack| && r.currFor == st.currFor
    ensures r.currParent == st.currParent && r.prevWasCloseFor == st.prevWasCloseFor
  {
    match st.currFor
    case Some(i) =>
      if i < |st.stack| then st.(stack := st.stack[i := st.stack[i].(forBody := st.stack[i].forBody + code)])
      else st.(ctorCode := st.ctorCode + code)
    case None => st.(ctorCode := st.ctorCode + code)
  }

  /** Code goes to the constructor when no loop is open and to the body of
      the top loop otherwise; nothing else changes. */
  lemma EmitTarget(st: ViewState, code: seq<Instr>)
    requires CurrIsTop(st)
    ensures |st.stack| == 0 ==> Emit(st, code) == st.(ctorCode := st.ctorCode + code)
    ensures |st.stack| > 0 ==>
              var t := |st.stack| - 1;
              Emit(st, code) == st.(stack := st.stack[..t] + [st.stack[t].(forBody := st.stack[t].forBody + code)])
  {
    if |st.stack| > 0 {
      var t := |st.stack| - 1;
      assert st.stack[t := st.stack[t].(forBody := st.stack[t].forBody + code)]
          == st.stack[..t] + [st.stack[t].(forBody := st.stack[t].forBody + code)];
    }
  }

  lemma EmitNothing(st: ViewState)
    ensures Emit(st, []) == st
  {
    match st.currFor
    case Some(i) =>
      if i < |st.stack| {
        assert st.stack[i].(forBody := st.stack[i].forBody + []) == st.stack[i];
        assert st.stack[i := st.stack[i]] == st.stack;
      } else {
        assert st.ctorCode + [] == st.ctorCode;
      }
    case None =>
      assert st.ctorCode + [] == st.ctorCode;
  }

  lemma EmitTwice(st: ViewState, a: seq<Instr>, b: seq<Instr>)
    ensures Emit(Emit(st, a), b) == Emit(st, a + b)
  {
    match st.currFor
    case Some(i) =>
      if i < |st.stack| {
        Associate(st.stack[i].forBody, a, b);
      } else {
        Associate(st.ctorCode, a, b);
      }
    case None =>
      Associate(st.ctorCode, a, b);
  }

  // ---------------------------------------------------------------------------
  // Emitted code of attributes and text

  /** One update registration per proxy, in the proxies' order. */
  function UpdatesFor(ps: seq<string>, target: UpdateTarget, template: string, inLoop: bool): (r: seq<Instr>)
    ensures |r| == |ps| && forall k :: 0 <= k < |ps| ==> r[k] == RegisterUpdate(ps[k], target, template, inLoop)
  {
    if ps == [] then []
    else UpdatesFor(ps[..|ps| - 1], target, template, inLoop) + [RegisterUpdate(ps[|ps| - 1], target, template, inLoop)]
  }

  /** For each expression in order, one registration per proxy it references. */
  function ExpressionUpdates(ctx: Ctx, exprs: seq<string>, target: UpdateTarget, template: string, inLoop: bool)
    : Option<seq<Instr>>
  {
    if exprs == [] then Some([])
    else
      match ExpressionUpdates(ctx, exprs[..|exprs| - 1], target, template, inLoop)
      case None => None
      case Some(c) =>
        match RefsOf(ctx, exprs[|exprs| - 1])
        case None => None
        case Some(ps) => Some(c + UpdatesFor(ps, target, template, inLoop))
  }

  /** `handleAttributeOrTextNode`: render once, then register the updates. */
  function RenderCode(ctx: Ctx, target: UpdateTarget, x: Interpolation.Extracted, inLoop: bool): Option<seq<Instr>> {
    match ExpressionUpdates(ctx, x.expressions, target, x.filtered, inLoop)
    case None => None
    case Some(c) => Some([Render(target, x.filtered, inLoop)] + c)
  }

  function ConditionalRegistrations(ps: seq<string>): (r: seq<Instr>)
    ensures |r| == |ps| && forall k :: 0 <= k < |ps| ==> r[k] == RegisterConditional(ps[k])
  {
    if ps == [] then [] else ConditionalRegistrations(ps[..|ps| - 1]) + [RegisterConditional(ps[|ps| - 1])]
  }

  /** The code one attribute of an element produces, by its routing. */
  function AttrCode(ctx: Ctx, a: Attr, inLoop: bool): Option<seq<Instr>> {
    match Classify(a.name)
    case Event(e) => Some([Listen(e, a.value)])
    case Conditional =>
      (match RefsOf(ctx, a.value)
       case None => None
       case Some(ps) => Some([IfBody(a.value, inLoop)] + ConditionalRegistrations(ps) + [ClearConditionals]))
    case Loop => Some([])
    case Prop(p) => Some([PollProp(p, a.value)])
    case Plain => RenderCode(ctx, AttributeNamed(a.name), Interpolation.Extract(a.value), inLoop)
  }

  /** The routing loop over an element's attributes. */
  function EmitAttrs(ctx: Ctx, st: ViewState, attrs: seq<Attr>): Option<ViewState> {
    if attrs == [] then Some(st)
    else
      match EmitAttrs(ctx, st, attrs[..|attrs| - 1])
      case None => None
      case Some(s) =>
        match AttrCode(ctx, attrs[|attrs| - 1], s.currFor.Some?)
        case None => None
        case Some(c) => Some(Emit(s, c))
  }

  /** Opening a loop: a new frame on top, which becomes the current one. */
  function Push(st: ViewState, f: Frame): ViewState {
    st.(stack := st.stack + [f], currFor := Some(|st.stack|))
  }

  /** The first attribute loop of an element: one frame per `*for`. */
  function PushFors(ctx: Ctx, st: ViewState, attrs: seq<Attr>): Option<ViewState> {
    if attrs == [] then Some(st)
    else
      match PushFors(ctx, st, attrs[..|attrs| - 1])
      case None => None
      case Some(s) =>
        var a := attrs[|attrs| - 1];
        if a.name != ForAttribute then Some(s)
        else
          match RefsOf(ctx, ForProbe(a.value))
          case None => None
          case Some(ps) => Some(Push(s, NewFrame(a.value, ps)))
  }

  // ---------------------------------------------------------------------------
  // Events

  datatype Ev = Open(node: Markup, parent: seq<nat>, path: seq<nat>) | Close

  /** A node whose parent is not the current parent: one step up, or, right
      after a loop that had children, none (the loop already stepped up). */
  function ParentChange(st: ViewState, parent: seq<nat>): ViewState {
    if parent == st.currParent then st
    else if !st.prevWasCloseFor then Emit(st.(currParent := parent), [Ascend])
    else st.(currParent := parent, prevWasCloseFor := false)
  }

  function ElementStep(ctx: Ctx, st: ViewState, m: Markup): Option<ViewState>
    requires m.Element?
  {
    match PushFors(ctx, st, m.attrs)
    case None => None
    case Some(s) => EmitAttrs(ctx, Emit(s, [CreateElement(m.tag, s.currFor.Some?)]), m.attrs)
  }

  function TextStep(ctx: Ctx, st: ViewState, data: string): Option<ViewState> {
    match RenderCode(ctx, TextNode, Interpolation.Extract(data), st.currFor.Some?)
    case None => None
    case Some(c) => Some(Emit(st, c))
  }

  /** After the node itself: mark the loop as having children, and descend
      into the children if there are any. */
  function AfterNode(st: ViewState, m: Markup, path: seq<nat>): ViewState {
    var s := if HasForAttribute(m) && |Children(m)| > 0 && st.currFor.Some? && st.currFor.value < |st.stack|
             then st.(stack := st.stack[st.currFor.value := st.stack[st.currFor.value].(hasChildren := true)])
             else st;
    if |Children(m)| > 0 then Emit(s, [Descend]).(currParent := path) else s
  }

  /** The node itself: an element's code, a text node's code, or nothing. */
  function NodeStep(ctx: Ctx, st: ViewState, m: Markup): Option<ViewState> {
    if m.Element? then ElementStep(ctx, st, m)
    else if m.Text? then TextStep(ctx, st, m.data)
    else Some(st)
  }

  function OpenStep(ctx: Ctx, st: ViewState, m: Markup, parent: seq<nat>, path: seq<nat>): Option<ViewState> {
    match NodeStep(ctx, ParentChange(st, parent), m)
    case None => None
    case Some(s3) => Some(AfterNode(s3, m, path))
  }

  /** One rebuild registration per proxy of the loop header. */
  function Rebuilds(ps: seq<string>, header: string, body: seq<Instr>): (r: seq<Instr>)
    ensures |r| == |ps| && forall k :: 0 <= k < |ps| ==> r[k] == RegisterRebuild(ps[k], header, body)
  {
    if ps == [] then [] else Rebuilds(ps[..|ps| - 1], header, body) + [RegisterRebuild(ps[|ps| - 1], header, body)]
  }

  /** Finishing the current loop frame at its close marker. An outermost
      loop whose header references proxies loses its inline loop statement:
      only the rebuild registrations run it. */
  function CloseFrame(f: Frame, depth: nat): Frame {
    var f1 := if f.hasChildren then f.(forBody := f.forBody + [Ascend]) else f;
    if |f1.proxies| > 0 then
      f1.(rebuilds := f1.rebuilds + Rebuilds(f1.proxies, f1.header, f1.forBody),
          loopKept := if depth == 1 then false else f1.loopKept)
    else f1
  }

  /** Removing the top frame; its block goes to the new target. */
  function Pop(st: ViewState): ViewState
    requires |st.stack| > 0
  {
    var rest := st.stack[..|st.stack| - 1];
    var s := st.(stack := rest, currFor := if |rest| > 0 then Some(|rest| - 1) else None);
    Emit(s, [Block(st.stack[|st.stack| - 1])])
  }

  function CloseStep(st: ViewState): ViewState {
    match st.currFor
    case None => st
    case Some(i) =>
      if i >= |st.stack| then st
      else
        var f := st.stack[i];
        Pop(st.(stack := st.stack[i := CloseFrame(f, |st.stack|)], prevWasCloseFor := f.hasChildren))
  }

  function Step(ctx: Ctx, st: ViewState, ev: Ev): Option<ViewState> {
    match ev
    case Open(m, parent, path) => OpenStep(ctx, st, m, parent, path)
    case Close => Some(CloseStep(st))
  }

  /** The state after a sequence of events; `None` once reference collection
      ran out of fuel. */
  function Run(ctx: Ctx, st: Option<ViewState>, evs: seq<Ev>): Option<ViewState>
    decreases |evs|
  {
    if evs == [] then st
    else
      match st
      case None => None
      case Some(s) => Run(ctx, Step(ctx, s, evs[0]), evs[1..])
  }

  /** Frames still open at the end (only with a repeated `*for`) have their
      blocks in their targets already in the source: close them in order. */
  function FlushAll(st: ViewState): ViewState
    decreases |st.stack|
  {
    if |st.stack| == 0 then st else FlushAll(Pop(st))
  }

  // ---------------------------------------------------------------------------
  // The walk order

  /** The events of the subtree of `m`, the node at `path` under `parent`:
      the node, the events of its children in order, then the close marker
      if it carries `*for`. */
  function Trace(m: Markup, parent: seq<nat>, path: seq<nat>): seq<Ev> {
    [Open(m, parent, path)] + (if m.Element? then TracesFrom(m.children, path, 0) else [])
      + (if HasForAttribute(m) then [Close] else [])
  }

  function TracesFrom(cs: seq<Markup>, parent: seq<nat>, i: nat): seq<Ev>
    decreases cs, |cs| - i
  {
    if i >= |cs| then [] else Trace(cs[i], parent, parent + [i]) + TracesFrom(cs, parent, i + 1)
  }

  /** The events of a whole view, whose root is at the empty path. */
  function Events(root: Markup): seq<Ev> {
    TracesFrom(Children(root), [], 0)
  }

  /** The code of the constructor after the view: `None` when reference
      collection ran out of fuel. */
  function ViewCode(ctx: Ctx, root: Markup, ctorCode: seq<Instr>): Option<seq<Instr>> {
    match Run(ctx, Some(Start(ctorCode)), Events(root))
    case None => None
    case Some(s) => Some(FlushAll(s).ctorCode)
  }
}
