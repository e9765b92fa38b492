/**
  The work queue of the view emitter and the laws of its state machine:
  the queue yields exactly the depth-first event order, the current loop
  is always the top of the loop stack, every `*for` element pushes one
  frame that its close marker pops again, and a close marker without an
  open loop is ignored.
*/
module ViewLaws {
  import opened Names
  import opened MarkupTree
  import opened Code
  import opened View
  import Interpolation
  import opened Seqs

  // ---------------------------------------------------------------------------
  // The queue of `appendView`

  /** A queue entry: a markup node with the paths of its parent and of
      itself, or the `'CLOSE_FOR'` marker. */
  datatype QItem = Visit(node: Markup, parent: seq<nat>, path: seq<nat>) | CloseMarker

  /** The entries for the children `cs[i..]` of the node at `parent`. */
  function ChildItems(cs: seq<Markup>, parent: seq<nat>, i: nat): (r: seq<QItem>)
    ensures |r| == if i <= |cs| then |cs| - i else 0
    decreases |cs| - i
  {
    if i >= |cs| then [] else [Visit(cs[i], parent, parent + [i])] + ChildItems(cs, parent, i + 1)
  }

  function ItemTrace(q: QItem): seq<Ev> {
    match q
    case Visit(m, parent, path) => Trace(m, parent, path)
    case CloseMarker => [Close]
  }

  /** The events a queue stands for: each entry's in turn. */
  function Flatten(queue: seq<QItem>): seq<Ev> {
    if queue == [] then [] else ItemTrace(queue[0]) + Flatten(queue[1..])
  }

  lemma {:induction false} FlattenAppend(a: seq<QItem>, b: seq<QItem>)
    ensures Flatten(a + b) == Flatten(a) + Flatten(b)
    decreases |a|
  {
    if a == [] {
      assert a + b == b;
    } else {
      assert (a + b)[0] == a[0];
      assert (a + b)[1..] == a[1..] + b;
      FlattenAppend(a[1..], b);
    }
  }

  lemma {:induction false} FlattenChildItems(cs: seq<Markup>, parent: seq<nat>, i: nat)
    ensures Flatten(ChildItems(cs, parent, i)) == TracesFrom(cs, parent, i)
    decreases |cs| - i
  {
    if i < |cs| {
      var q := ChildItems(cs, parent, i);
      assert q[0] == Visit(cs[i], parent, parent + [i]);
      assert q[1..] == ChildItems(cs, parent, i + 1);
      FlattenChildItems(cs, parent, i + 1);
    }
  }

  /** The queue the emitter starts with stands for the events of the view. */
  lemma InitialQueue(root: Markup)
    ensures Flatten(ChildItems(Children(root), [], 0)) == Events(root)
  {
    FlattenChildItems(Children(root), [], 0);
  }

  /** Shifting a node and unshifting its children and, for a `*for` element,
      the close marker before them leaves exactly the events after the
      node's own: children go depth first and the marker follows all the
      node's descendants, before its next sibling. */
  lemma QueueVisit(m: Markup, parent: seq<nat>, path: seq<nat>, rest: seq<QItem>)
    ensures Flatten([Visit(m, parent, path)] + rest) ==
            [Open(m, parent, path)] +
            Flatten(ChildItems(Children(m), path, 0) + (if HasForAttribute(m) then [CloseMarker] else []) + rest)
  {
    var closeEv: seq<Ev> := if HasForAttribute(m) then [Close] else [];
    var kidsEv := TracesFrom(Children(m), path, 0);
    FlattenCons(Visit(m, parent, path), rest);
    TraceOfChildren(m, parent, path);
    QueueAfterVisit(m, path, rest);
    Associate([Open(m, parent, path)] + kidsEv, closeEv, Flatten(rest));
    Associate([Open(m, parent, path)], kidsEv, closeEv + Flatten(rest));
  }

  /** The entries a visit puts back stand for the children's events, then
      the close event, then the rest. */
  lemma QueueAfterVisit(m: Markup, path: seq<nat>, rest: seq<QItem>)
    ensures Flatten(ChildItems(Children(m), path, 0) + (if HasForAttribute(m) then [CloseMarker] else []) + rest) ==
            TracesFrom(Children(m), path, 0) + ((if HasForAttribute(m) then [Close] else []) + Flatten(rest))
  {
    var close: seq<QItem> := if HasForAttribute(m) then [CloseMarker] else [];
    var kids := ChildItems(Children(m), path, 0);
    FlattenAppend(kids + close, rest);
    FlattenAppend(kids, close);
    FlattenChildItems(Children(m), path, 0);
    FlattenClose(HasForAttribute(m));
    Associate(Flatten(kids), Flatten(close), Flatten(rest));
  }

  lemma FlattenCons(q: QItem, rest: seq<QItem>)
    ensures Flatten([q] + rest) == ItemTrace(q) + Flatten(rest)
  {
    assert ([q] + rest)[1..] == rest;
  }

  lemma TraceOfChildren(m: Markup, parent: seq<nat>, path: seq<nat>)
    ensures Trace(m, parent, path) ==
            [Open(m, parent, path)] + TracesFrom(Children(m), path, 0) + (if HasForAttribute(m) then [Close] else [])
  {
  }

  lemma FlattenClose(hasFor: bool)
    ensures Flatten(if hasFor then [CloseMarker] else []) == if hasFor then [Close] else []
  {
    if hasFor {
      assert [CloseMarker][1..] == [];
    }
  }

  lemma QueueClose(rest: seq<QItem>)
    ensures Flatten([CloseMarker] + rest) == [Close] + Flatten(rest)
  {
    assert ([CloseMarker] + rest)[1..] == rest;
  }

  /** Every entry stands for at least one event, so the queue's events
      shrink by one per shifted entry. */
  lemma {:induction false} FlattenNonEmpty(queue: seq<QItem>)
    requires queue != []
    ensures |Flatten(queue)| > 0
  {
    match queue[0]
    case Visit(m, parent, path) =>
      assert Flatten(queue) == Trace(m, parent, path) + Flatten(queue[1..]);
    case CloseMarker =>
  }

  lemma {:induction false} RunAppend(ctx: Ctx, st: Option<ViewState>, a: seq<Ev>, b: seq<Ev>)
    ensures Run(ctx, st, a + b) == Run(ctx, Run(ctx, st, a), b)
    decreases |a|
  {
    if a == [] {
      assert a + b == b;
    } else if st.None? {
      RunNone(ctx, a + b);
      RunNone(ctx, b);
    } else {
      assert (a + b)[0] == a[0];
      assert (a + b)[1..] == a[1..] + b;
      RunAppend(ctx, Step(ctx, st.value, a[0]), a[1..], b);
    }
  }

  /** One event, then the rest. */
  lemma RunCons(ctx: Ctx, st: ViewState, ev: Ev, evs: seq<Ev>)
    ensures Run(ctx, Some(st), [ev] + evs) == Run(ctx, Step(ctx, st, ev), evs)
  {
    assert ([ev] + evs)[0] == ev;
    assert ([ev] + evs)[1..] == evs;
  }

  lemma {:induction false} RunNone(ctx: Ctx, evs: seq<Ev>)
    ensures Run(ctx, None, evs) == None
  {
  }

  // ---------------------------------------------------------------------------
  // `currForNode` is the top of `forStack`

  lemma {:induction false} PushForsKeepTop(ctx: Ctx, st: ViewState, attrs: seq<Attr>)
    requires CurrIsTop(st) && PushFors(ctx, st, attrs).Some?
    ensures CurrIsTop(PushFors(ctx, st, attrs).value)
    ensures |PushFors(ctx, st, attrs).value.stack| == |st.stack| + ForCount(attrs)
    ensures PushFors(ctx, st, attrs).value.stack[..|st.stack|] == st.stack
    ensures PushFors(ctx, st, attrs).value.ctorCode == st.ctorCode
    decreases |attrs|
  {
    if attrs != [] {
      PushForsKeepTop(ctx, st, attrs[..|attrs| - 1]);
      var s := PushFors(ctx, st, attrs[..|attrs| - 1]).value;
      assert (s.stack + [NewFrame("", [])])[..|st.stack|] == s.stack[..|st.stack|];
      if attrs[|attrs| - 1].name == ForAttribute {
        var ps := RefsOf(ctx, ForProbe(attrs[|attrs| - 1].value)).value;
        var f := NewFrame(attrs[|attrs| - 1].value, ps);
        assert (s.stack + [f])[..|st.stack|] == s.stack[..|st.stack|];
      }
    }
  }

  /** Emission that touches at most the top frame. */
  predicate TopOnly(a: ViewState, b: ViewState) {
    |b.stack| == |a.stack| && b.currFor == a.currFor &&
    (|a.stack| > 0 ==> b.stack[..|a.stack| - 1] == a.stack[..|a.stack| - 1])
  }

  lemma EmitTopOnly(st: ViewState, code: seq<Instr>)
    requires CurrIsTop(st)
    ensures TopOnly(st, Emit(st, code))
    ensures Emit(st, code).currParent == st.currParent
  {
    EmitTarget(st, code);
    if |st.stack| > 0 {
      var t := |st.stack| - 1;
      assert (st.stack[..t] + [st.stack[t].(forBody := st.stack[t].forBody + code)])[..t] == st.stack[..t];
    }
  }

  lemma {:induction false} EmitAttrsTopOnly(ctx: Ctx, st: ViewState, attrs: seq<Attr>)
    requires CurrIsTop(st) && EmitAttrs(ctx, st, attrs).Some?
    ensures TopOnly(st, EmitAttrs(ctx, st, attrs).value)
    decreases |attrs|
  {
    if attrs != [] {
      EmitAttrsTopOnly(ctx, st, attrs[..|attrs| - 1]);
      var s := EmitAttrs(ctx, st, attrs[..|attrs| - 1]).value;
      var c := AttrCode(ctx, attrs[|attrs| - 1], s.currFor.Some?).value;
      EmitTopOnly(s, c);
    }
  }

  lemma TopOnlyTrans(a: ViewState, b: ViewState, c: ViewState)
    requires TopOnly(a, b) && TopOnly(b, c)
    ensures TopOnly(a, c)
  {
  }

  lemma ParentChangeTopOnly(st: ViewState, parent: seq<nat>)
    requires CurrIsTop(st)
    ensures TopOnly(st, ParentChange(st, parent)) && CurrIsTop(ParentChange(st, parent))
  {
    if parent != st.currParent && !st.prevWasCloseFor {
      EmitTopOnly(st.(currParent := parent), [Ascend]);
    }
  }

  /** The element part of opening a node: one frame per `*for` attribute on
      top, and no frame below the old top changes. */
  lemma ElementStepShape(ctx: Ctx, st: ViewState, m: Markup)
    requires m.Element? && CurrIsTop(st) && ElementStep(ctx, st, m).Some?
    ensures var r := ElementStep(ctx, st, m).value;
            CurrIsTop(r) && |r.stack| == |st.stack| + ForCount(m.attrs) &&
            (|st.stack| > 0 ==> r.stack[..|st.stack| - 1] == st.stack[..|st.stack| - 1])
  {
    var d := |st.stack|;
    PushForsKeepTop(ctx, st, m.attrs);
    var s := PushFors(ctx, st, m.attrs).value;
    var e := Emit(s, [CreateElement(m.tag, s.currFor.Some?)]);
    EmitTopOnly(s, [CreateElement(m.tag, s.currFor.Some?)]);
    EmitAttrsTopOnly(ctx, e, m.attrs);
    var r := EmitAttrs(ctx, e, m.attrs).value;
    TopOnlyTrans(s, e, r);
    if d > 0 {
      assert s.stack[..d] == st.stack;
      assert r.stack[..|s.stack| - 1] == s.stack[..|s.stack| - 1];
      assert r.stack[..d - 1] == r.stack[..|s.stack| - 1][..d - 1];
      assert st.stack[..d - 1] == s.stack[..|s.stack| - 1][..d - 1];
    }
  }

  lemma AfterNodeTopOnly(st: ViewState, m: Markup, path: seq<nat>)
    requires CurrIsTop(st)
    ensures TopOnly(st, AfterNode(st, m, path)) && CurrIsTop(AfterNode(st, m, path))
  {
    var s := if HasForAttribute(m) && |Children(m)| > 0 && st.currFor.Some? && st.currFor.value < |st.stack|
             then st.(stack := st.stack[st.currFor.value := st.stack[st.currFor.value].(hasChildren := true)])
             else st;
    assert TopOnly(st, s);
    if |Children(m)| > 0 {
      EmitTopOnly(s, [Descend]);
    }
  }

  /** Opening a node: a `*for` element pushes one frame per `*for` attribute
      on top, every other node leaves the depth alone, and no frame below
      the old top changes. */
  lemma OpenStepShape(ctx: Ctx, st: ViewState, m: Markup, parent: seq<nat>, path: seq<nat>)
    requires CurrIsTop(st) && OpenStep(ctx, st, m, parent, path).Some?
    ensures var r := OpenStep(ctx, st, m, parent, path).value;
            CurrIsTop(r) &&
            |r.stack| == |st.stack| + (if m.Element? then ForCount(m.attrs) else 0) &&
            (|st.stack| > 0 ==> r.stack[..|st.stack| - 1] == st.stack[..|st.stack| - 1])
  {
    var s1 := ParentChange(st, parent);
    ParentChangeTopOnly(st, parent);
    NodeStepShape(ctx, s1, m);
    var s3 := NodeStep(ctx, s1, m).value;
    AfterNodeTopOnly(s3, m, path);
    var r := AfterNode(s3, m, path);
    if |st.stack| > 0 && m.Element? && ForCount(m.attrs) > 0 {
      var d := |st.stack|;
      assert r.stack[..|s3.stack| - 1] == s3.stack[..|s3.stack| - 1];
      assert r.stack[..d - 1] == r.stack[..|s3.stack| - 1][..d - 1];
      assert s3.stack[..d - 1] == s3.stack[..|s3.stack| - 1][..d - 1];
    }
  }

  /** The node's own code grows the stack by its `*for` count and leaves
      the frames below the current one alone. */
  lemma NodeStepShape(ctx: Ctx, st: ViewState, m: Markup)
    requires CurrIsTop(st) && NodeStep(ctx, st, m).Some?
    ensures var r := NodeStep(ctx, st, m).value;
            CurrIsTop(r) &&
            |r.stack| == |st.stack| + (if m.Element? then ForCount(m.attrs) else 0) &&
            (|st.stack| > 0 ==> r.stack[..|st.stack| - 1] == st.stack[..|st.stack| - 1])
  {
    if m.Element? {
      ElementStepShape(ctx, st, m);
    } else if m.Text? {
      var c := RenderCode(ctx, TextNode, Interpolation.Extract(m.data), st.currFor.Some?).value;
      EmitTopOnly(st, c);
    }
  }

  lemma PopShape(st: ViewState)
    requires |st.stack| > 0
    ensures CurrIsTop(Pop(st))
    ensures |Pop(st).stack| == |st.stack| - 1
    ensures |st.stack| > 1 ==> Pop(st).stack[..|st.stack| - 2] == st.stack[..|st.stack| - 2]
  {
    var rest := st.stack[..|st.stack| - 1];
    var s := st.(stack := rest, currFor := if |rest| > 0 then Some(|rest| - 1) else None);
    EmitTopOnly(s, [Block(st.stack[|st.stack| - 1])]);
  }

  /** A close marker with an open loop pops exactly its frame, and only the
      new top frame (which receives the loop's block) changes below it. */
  lemma CloseStepShape(st: ViewState)
    requires CurrIsTop(st) && |st.stack| > 0
    ensures CurrIsTop(CloseStep(st))
    ensures |CloseStep(st).stack| == |st.stack| - 1
    ensures |st.stack| > 1 ==> CloseStep(st).stack[..|st.stack| - 2] == st.stack[..|st.stack| - 2]
  {
    var i := |st.stack| - 1;
    var s := st.(stack := st.stack[i := CloseFrame(st.stack[i], |st.stack|)], prevWasCloseFor := st.stack[i].hasChildren);
    PopShape(s);
    if |st.stack| > 1 {
      assert s.stack[..|st.stack| - 2] == st.stack[..|st.stack| - 2];
    }
  }

  /** A close marker while no loop is open is ignored. */
  lemma CloseWithoutLoopIgnored(ctx: Ctx, st: ViewState)
    requires st.currFor.None?
    ensures Step(ctx, st, Close) == Some(st)
  {
  }

  lemma StepKeepsTop(ctx: Ctx, st: ViewState, ev: Ev)
    requires CurrIsTop(st) && Step(ctx, st, ev).Some?
    ensures CurrIsTop(Step(ctx, st, ev).value)
  {
    match ev
    case Open(m, parent, path) => OpenStepShape(ctx, st, m, parent, path);
    case Close => if |st.stack| > 0 { CloseStepShape(st); }
  }

  /** Along any run of events the current loop stays the top of the stack. */
  lemma {:induction false} RunKeepsTop(ctx: Ctx, st: ViewState, evs: seq<Ev>)
    requires CurrIsTop(st) && Run(ctx, Some(st), evs).Some?
    ensures CurrIsTop(Run(ctx, Some(st), evs).value)
    decreases |evs|
  {
    if evs != [] {
      if Step(ctx, st, evs[0]).None? {
        RunNone(ctx, evs[1..]);
      } else {
        StepKeepsTop(ctx, st, evs[0]);
        RunKeepsTop(ctx, Step(ctx, st, evs[0]).value, evs[1..]);
      }
    }
  }

  /** Flushing closes every frame still open. */
  lemma {:induction false} FlushAllEmpties(st: ViewState)
    requires CurrIsTop(st)
    ensures |FlushAll(st).stack| == 0 && FlushAll(st).currFor.None?
    ensures |st.stack| == 0 ==> FlushAll(st) == st
    decreases |st.stack|
  {
    if |st.stack| > 0 {
      PopShape(st);
      FlushAllEmpties(Pop(st));
    } else {
      assert FlushAll(st) == st;
    }
  }

  // ---------------------------------------------------------------------------
  // Stack discipline

  /** Attribute names are unique on every element of the subtree. */
  predicate DeepUnique(m: Markup) {
    m.Element? ==> UniqueAttrNames(m.attrs) && forall k :: 0 <= k < |m.children| ==> DeepUnique(m.children[k])
  }

  /** The depth comes back, and frames below the top stay as they were,
      after the whole event sequence of a subtree. */
  predicate Balanced(a: ViewState, b: ViewState) {
    CurrIsTop(b) && |b.stack| == |a.stack| &&
    (|a.stack| > 0 ==> b.stack[..|a.stack| - 1] == a.stack[..|a.stack| - 1])
  }

  /** With unique attribute names, the events of a subtree leave the loop
      stack as deep as they found it: each `*for` element's close marker
      pops the one frame the element pushed. */
  lemma {:induction false} TraceBalanced(ctx: Ctx, st: ViewState, m: Markup, parent: seq<nat>, path: seq<nat>)
    requires CurrIsTop(st) && DeepUnique(m)
    requires Run(ctx, Some(st), Trace(m, parent, path)).Some?
    ensures Balanced(st, Run(ctx, Some(st), Trace(m, parent, path)).value)
    decreases m, 1
  {
    var kids := if m.Element? then TracesFrom(m.children, path, 0) else [];
    var close := if HasForAttribute(m) then [Close] else [];
    assert Trace(m, parent, path) == [Open(m, parent, path)] + kids + close;
    RunAppend(ctx, Some(st), [Open(m, parent, path)] + kids, close);
    RunAppend(ctx, Some(st), [Open(m, parent, path)], kids);
    var r2 := Run(ctx, Some(st), [Open(m, parent, path)] + kids);
    if r2.None? {
      RunNone(ctx, close);
      assert false;
    }
    var o := Run(ctx, Some(st), [Open(m, parent, path)]);
    assert o == Step(ctx, st, Open(m, parent, path)) by {
      assert [Open(m, parent, path)][1..] == [];
    }
    if o.None? {
      RunNone(ctx, kids);
      assert false;
    }
    var s1 := o.value;
    OpenStepShape(ctx, st, m, parent, path);
    var h := if HasForAttribute(m) then 1 else 0;
    if m.Element? {
      ForCountUnique(m.attrs);
    }
    assert |s1.stack| == |st.stack| + h;
    var s2 := r2.value;
    if m.Element? {
      TracesBalanced(ctx, s1, m.children, path, 0);
    }
    assert Balanced(s1, s2);
    if HasForAttribute(m) {
      assert Run(ctx, Some(s2), close) == Some(CloseStep(s2)) by {
        assert close[1..] == [];
      }
    } else {
      assert Run(ctx, Some(s2), close) == Some(s2);
    }
    ClosesBalanced(st, s1, s2, HasForAttribute(m));
  }

  /** The close marker of a `*for` element pops the frame its open step
      pushed, so the subtree as a whole is balanced. */
  lemma ClosesBalanced(st: ViewState, s1: ViewState, s2: ViewState, hasFor: bool)
    requires CurrIsTop(st)
    requires |s1.stack| == |st.stack| + (if hasFor then 1 else 0)
    requires |st.stack| > 0 ==> s1.stack[..|st.stack| - 1] == st.stack[..|st.stack| - 1]
    requires Balanced(s1, s2)
    ensures Balanced(st, if hasFor then CloseStep(s2) else s2)
  {
    if hasFor {
      CloseStepShape(s2);
      var s3 := CloseStep(s2);
      if |st.stack| > 0 {
        assert s2.stack[..|st.stack| - 1] == s1.stack[..|st.stack| - 1];
        assert s3.stack[..|st.stack| - 1] == s2.stack[..|st.stack| - 1];
      }
    }
  }

  lemma {:induction false} TracesBalanced(ctx: Ctx, st: ViewState, cs: seq<Markup>, parent: seq<nat>, i: nat)
    requires CurrIsTop(st) && forall k :: 0 <= k < |cs| ==> DeepUnique(cs[k])
    requires Run(ctx, Some(st), TracesFrom(cs, parent, i)).Some?
    ensures Balanced(st, Run(ctx, Some(st), TracesFrom(cs, parent, i)).value)
    decreases cs, |cs| - i
  {
    if i >= |cs| {
      assert Run(ctx, Some(st), TracesFrom(cs, parent, i)) == Some(st);
    } else {
      var t := Trace(cs[i], parent, parent + [i]);
      RunAppend(ctx, Some(st), t, TracesFrom(cs, parent, i + 1));
      var r1 := Run(ctx, Some(st), t);
      if r1.None? {
        RunNone(ctx, TracesFrom(cs, parent, i + 1));
        assert false;
      }
      TraceBalanced(ctx, st, cs[i], parent, parent + [i]);
      TracesBalanced(ctx, r1.value, cs, parent, i + 1);
    }
  }

  /** A whole view with unique attribute names ends with no loop open, so
      nothing is left to flush. */
  lemma ViewEndsWithEmptyStack(ctx: Ctx, root: Markup, ctorCode: seq<Instr>)
    requires forall k :: 0 <= k < |Children(root)| ==> DeepUnique(Children(root)[k])
    requires Run(ctx, Some(Start(ctorCode)), Events(root)).Some?
    ensures |Run(ctx, Some(Start(ctorCode)), Events(root)).value.stack| == 0
    ensures ViewCode(ctx, root, ctorCode) == Some(Run(ctx, Some(Start(ctorCode)), Events(root)).value.ctorCode)
  {
    TracesBalanced(ctx, Start(ctorCode), Children(root), [], 0);
    FlushAllEmpties(Run(ctx, Some(Start(ctorCode)), Events(root)).value);
  }

  /** The constructor code of a view begins with what was there, followed
      by the cursor declaration. */
  lemma {:induction false} RunKeepsCtorPrefix(ctx: Ctx, st: ViewState, evs: seq<Ev>)
    requires CurrIsTop(st) && Run(ctx, Some(st), evs).Some?
    ensures st.ctorCode <= Run(ctx, Some(st), evs).value.ctorCode
    decreases |evs|
  {
    if evs != [] {
      if Step(ctx, st, evs[0]).None? {
        RunNone(ctx, evs[1..]);
      } else {
        StepKeepsCtorPrefix(ctx, st, evs[0]);
        StepKeepsTop(ctx, st, evs[0]);
        RunKeepsCtorPrefix(ctx, Step(ctx, st, evs[0]).value, evs[1..]);
      }
    }
  }

  lemma EmitKeepsCtorPrefix(st: ViewState, code: seq<Instr>)
    ensures st.ctorCode <= Emit(st, code).ctorCode
  {
  }

  lemma {:induction false} EmitAttrsKeepsCtorPrefix(ctx: Ctx, st: ViewState, attrs: seq<Attr>)
    requires EmitAttrs(ctx, st, attrs).Some?
    ensures st.ctorCode <= EmitAttrs(ctx, st, attrs).value.ctorCode
    decreases |attrs|
  {
    if attrs != [] {
      EmitAttrsKeepsCtorPrefix(ctx, st, attrs[..|attrs| - 1]);
      var s := EmitAttrs(ctx, st, attrs[..|attrs| - 1]).value;
      EmitKeepsCtorPrefix(s, AttrCode(ctx, attrs[|attrs| - 1], s.currFor.Some?).value);
    }
  }

  lemma StepKeepsCtorPrefix(ctx: Ctx, st: ViewState, ev: Ev)
    requires CurrIsTop(st) && Step(ctx, st, ev).Some?
    ensures st.ctorCode <= Step(ctx, st, ev).value.ctorCode
  {
    match ev
    case Open(m, parent, path) => OpenKeepsCtorPrefix(ctx, st, m, parent, path);
    case Close => CloseKeepsCtorPrefix(st);
  }

  lemma OpenKeepsCtorPrefix(ctx: Ctx, st: ViewState, m: Markup, parent: seq<nat>, path: seq<nat>)
    requires CurrIsTop(st) && OpenStep(ctx, st, m, parent, path).Some?
    ensures st.ctorCode <= OpenStep(ctx, st, m, parent, path).value.ctorCode
  {
    var s1 := ParentChange(st, parent);
    assert st.ctorCode <= s1.ctorCode && CurrIsTop(s1);
    NodeKeepsCtorPrefix(ctx, s1, m);
    var s2 := NodeStep(ctx, s1, m).value;
    assert s2.ctorCode <= AfterNode(s2, m, path).ctorCode;
  }

  lemma NodeKeepsCtorPrefix(ctx: Ctx, st: ViewState, m: Markup)
    requires CurrIsTop(st) && NodeStep(ctx, st, m).Some?
    ensures st.ctorCode <= NodeStep(ctx, st, m).value.ctorCode
  {
    if m.Element? {
      ElementKeepsCtorPrefix(ctx, st, m);
    }
  }

  lemma CloseKeepsCtorPrefix(st: ViewState)
    requires CurrIsTop(st)
    ensures st.ctorCode <= CloseStep(st).ctorCode
  {
    if st.currFor.Some? && st.currFor.value < |st.stack| {
      var i := st.currFor.value;
      var s := st.(stack := st.stack[i := CloseFrame(st.stack[i], |st.stack|)], prevWasCloseFor := st.stack[i].hasChildren);
      assert s.ctorCode == st.ctorCode;
      assert s.ctorCode <= Pop(s).ctorCode;
    }
  }

  lemma ElementKeepsCtorPrefix(ctx: Ctx, st: ViewState, m: Markup)
    requires m.Element? && CurrIsTop(st) && ElementStep(ctx, st, m).Some?
    ensures st.ctorCode <= ElementStep(ctx, st, m).value.ctorCode
  {
    PushForsKeepTop(ctx, st, m.attrs);
    var s := PushFors(ctx, st, m.attrs).value;
    var e := Emit(s, [CreateElement(m.tag, s.currFor.Some?)]);
    EmitAttrsKeepsCtorPrefix(ctx, e, m.attrs);
  }

  lemma ViewCodeExtendsCtor(ctx: Ctx, root: Markup, ctorCode: seq<Instr>)
    requires ViewCode(ctx, root, ctorCode).Some?
    ensures ctorCode + [DeclareCursor] <= ViewCode(ctx, root, ctorCode).value
  {
    RunKeepsCtorPrefix(ctx, Start(ctorCode), Events(root));
    FlushKeepsCtorPrefix(Run(ctx, Some(Start(ctorCode)), Events(root)).value);
  }

  lemma {:induction false} FlushKeepsCtorPrefix(st: ViewState)
    ensures st.ctorCode <= FlushAll(st).ctorCode
    decreases |st.stack|
  {
    if |st.stack| > 0 {
      FlushKeepsCtorPrefix(Pop(st));
    }
  }
}
