/**
  Insertion-ordered sets of names, the shape a JavaScript `Set<string>`
  has when it is only ever added to and iterated.
*/
module Names {

  datatype Option<T> = None | Some(value: T)

  predicate Distinct(s: seq<string>) {
    forall i, j :: 0 <= i < j < |s| ==> s[i] != s[j]
  }

  /** `set.add(x)`: appends `x` unless it is already present. */
  function AddName(s: seq<string>, x: string): (r: seq<string>)
    ensures x in r
    ensures x in s ==> r == s
    ensures x !in s ==> r == s + [x]
    ensures forall y :: y in r <==> y in s || y == x
    ensures Distinct(s) ==> Distinct(r)
  {
    if x in s then s else s + [x]
  }
}

/**
  The shapes of an ECMAScript syntax tree that the compiler inspects. A
  `PrivateIdentifier` (`#x`) and an `Identifier` (`x`) are both `Ident`
  carrying the bare name, because the compiler reads only `.name` of
  either. Every statement or expression the compiler does not look into is
  `Other` with its sub-trees in the order the tree walker visits them.
*/
module Ast {
  import opened Names

  datatype MethodKind = Constructor | Method | Getter | Setter

  datatype Node =
    | This
    | Ident(name: string)
    | Literal(value: string)
    | Member(obj: Node, property: Node)
    | Call(callee: Node, arguments: seq<Node>)
    | Assign(left: Node, right: Node)
      /** A class element. `parse` places the parameter patterns first in
          `body`, then the statements of the function body, the order in
          which acorn-walk visits them; a default value such as
          `m(a = this.x)` is thus walked before the body. */
    | MethodDef(kind: MethodKind, key: Node, body: seq<Node>)
    | Other(children: seq<Node>)

  // ---------------------------------------------------------------------------
  // Tree walk

  /** The order in which a full walk calls its callback: every sub-tree
      first, left to right, then the node itself. */
  function PostOrder(n: Node): seq<Node> {
    match n
    case This => [n]
    case Ident(_) => [n]
    case Literal(_) => [n]
    case Member(o, p) => PostOrder(o) + PostOrder(p) + [n]
    case Call(c, args) => PostOrder(c) + PostOrderAll(args) + [n]
    case Assign(l, r) => PostOrder(l) + PostOrder(r) + [n]
    case MethodDef(_, k, b) => PostOrder(k) + PostOrderAll(b) + [n]
    case Other(cs) => PostOrderAll(cs) + [n]
  }

  function PostOrderAll(ns: seq<Node>): seq<Node> {
    if ns == [] then [] else PostOrder(ns[0]) + PostOrderAll(ns[1..])
  }

  lemma {:induction false} PostOrderEndsWithRoot(n: Node)
    ensures |PostOrder(n)| > 0 && PostOrder(n)[|PostOrder(n)| - 1] == n
  {
  }

  // ---------------------------------------------------------------------------
  // Method lookup

  predicate IsMethodNamed(n: Node, name: string) {
    n.MethodDef? && n.kind == Method && n.key.Ident? && n.key.name == name
  }

  predicate IsConstructor(n: Node) {
    n.MethodDef? && n.kind == Constructor
  }

  /** Index of the last method definition called `name` among `nodes`, or -1. */
  function LastMethodIndex(nodes: seq<Node>, name: string): (r: int)
    ensures -1 <= r < |nodes|
    ensures r >= 0 ==> IsMethodNamed(nodes[r], name)
    ensures forall k :: r < k < |nodes| ==> !IsMethodNamed(nodes[k], name)
  {
    if nodes == [] then -1
    else if IsMethodNamed(nodes[|nodes| - 1], name) then |nodes| - 1
    else LastMethodIndex(nodes[..|nodes| - 1], name)
  }

  /** Index of the last constructor definition among `nodes`, or -1. */
  function LastConstructorIndex(nodes: seq<Node>): (r: int)
    ensures -1 <= r < |nodes|
    ensures r >= 0 ==> IsConstructor(nodes[r])
    ensures forall k :: r < k < |nodes| ==> !IsConstructor(nodes[k])
  {
    if nodes == [] then -1
    else if IsConstructor(nodes[|nodes| - 1]) then |nodes| - 1
    else LastConstructorIndex(nodes[..|nodes| - 1])
  }

  /** The method definition named `name` that a simple walk of `ast`
      meets last: the callback overwrites its result on every match. */
  function FindMethod(ast: Node, name: string): (r: Option<Node>)
    ensures r.Some? <==> exists k :: 0 <= k < |PostOrder(ast)| && IsMethodNamed(PostOrder(ast)[k], name)
    ensures r.Some? ==> IsMethodNamed(r.value, name) && r.value in PostOrder(ast)
  {
    var i := LastMethodIndex(PostOrder(ast), name);
    if i < 0 then None else Some(PostOrder(ast)[i])
  }

  /** The last constructor definition of `ast` in walk order. */
  function FindConstructor(ast: Node): (r: Option<Node>)
    ensures r.Some? <==> exists k :: 0 <= k < |PostOrder(ast)| && IsConstructor(PostOrder(ast)[k])
    ensures r.Some? ==> IsConstructor(r.value) && r.value in PostOrder(ast)
  {
    var i := LastConstructorIndex(PostOrder(ast));
    if i < 0 then None else Some(PostOrder(ast)[i])
  }

  /** A method named `name` that occurs after every other one in walk order
      is the one found. */
  lemma FindMethodIsLast(ast: Node, name: string, k: nat)
    requires k < |PostOrder(ast)| && IsMethodNamed(PostOrder(ast)[k], name)
    requires forall j :: k < j < |PostOrder(ast)| ==> !IsMethodNamed(PostOrder(ast)[j], name)
    ensures FindMethod(ast, name) == Some(PostOrder(ast)[k])
  {
    var i := LastMethodIndex(PostOrder(ast), name);
    assert !(k < i);
    assert !(i < k);
  }

  // ---------------------------------------------------------------------------
  // Reactive assignments `this.<name> = <receiver>.reactive(<args>)`

  datatype ReactiveData = ReactiveData(name: string, args: seq<Node>)

  /** The node `this.<name> = <receiver>.reactive(<args>)`. */
  function ReactiveShape(name: string, receiver: Node, args: seq<Node>): Node {
    Assign(Member(This, Ident(name)), Call(Member(receiver, Ident("reactive")), args))
  }

  function ReactiveAssignmentData(n: Node): (r: Option<ReactiveData>) {
    if !n.Assign? then None
    else if !n.left.Member? then None
    else if !n.left.obj.This? then None
    else if !n.left.property.Ident? then None
    else if !n.right.Call? then None
    else if !n.right.callee.Member? then None
    else if !n.right.callee.property.Ident? then None
    else if n.right.callee.property.name != "reactive" then None
    else Some(ReactiveData(n.left.property.name, n.right.arguments))
  }

  /** Every node of the reactive-assignment shape is recognised, with the
      assigned property as name and the call's argument list as args. */
  lemma ReactiveShapeRecognised(name: string, receiver: Node, args: seq<Node>)
    ensures ReactiveAssignmentData(ReactiveShape(name, receiver, args)) == Some(ReactiveData(name, args))
  {
  }

  /** Only nodes of that shape are recognised. */
  lemma RecognisedHasReactiveShape(n: Node)
    requires ReactiveAssignmentData(n).Some?
    ensures n == ReactiveShape(ReactiveAssignmentData(n).value.name, n.right.callee.obj,
                               ReactiveAssignmentData(n).value.args)
  {
  }

  // ---------------------------------------------------------------------------
  // The name literals pushed onto the `.reactive(...)` arguments

  /** The tree after the proxy walk: each recognised assignment's call gets
      the literal of the assigned name as its last argument. The walk is
      post-order, so a node is rewritten after everything below it. */
  function AddNameLiterals(n: Node): Node {
    match n
    case This => n
    case Ident(_) => n
    case Literal(_) => n
    case Member(o, p) => Member(AddNameLiterals(o), AddNameLiterals(p))
    case Call(c, args) => Call(AddNameLiterals(c), AddNameLiteralsAll(args))
    case Assign(l, r) =>
      var n' := Assign(AddNameLiterals(l), AddNameLiterals(r));
      (match ReactiveAssignmentData(n')
       case Some(d) => Assign(n'.left, Call(n'.right.callee, n'.right.arguments + [Literal(d.name)]))
       case None => n')
    case MethodDef(kd, k, b) => MethodDef(kd, AddNameLiterals(k), AddNameLiteralsAll(b))
    case Other(cs) => Other(AddNameLiteralsAll(cs))
  }

  function AddNameLiteralsAll(ns: seq<Node>): (r: seq<Node>)
    ensures |r| == |ns|
  {
    if ns == [] then [] else [AddNameLiterals(ns[0])] + AddNameLiteralsAll(ns[1..])
  }

  lemma {:induction false} AddNameLiteralsAllAt(ns: seq<Node>, i: nat)
    requires i < |ns|
    ensures AddNameLiteralsAll(ns)[i] == AddNameLiterals(ns[i])
    decreases |ns|
  {
    if i > 0 {
      AddNameLiteralsAllAt(ns[1..], i - 1);
    }
  }

  /** The rewrite keeps every assignment recognised or not as it was, with
      the same name, and its argument list is the rewritten list followed
      by the name's literal. */
  lemma AddNameLiteralsRecognition(n: Node)
    ensures ReactiveAssignmentData(AddNameLiterals(n)).Some? == ReactiveAssignmentData(n).Some?
    ensures ReactiveAssignmentData(n).Some? ==>
              ReactiveAssignmentData(AddNameLiterals(n)) ==
              Some(ReactiveData(ReactiveAssignmentData(n).value.name,
                                AddNameLiteralsAll(ReactiveAssignmentData(n).value.args)
                                + [Literal(ReactiveAssignmentData(n).value.name)]))
  {
    if n.Assign? {
      var n' := Assign(AddNameLiterals(n.left), AddNameLiterals(n.right));
      SameShape(n.left);
      SameShape(n.right);
      if n.left.Member? { SameShape(n.left.obj); SameShape(n.left.property); }
      if n.right.Call? {
        SameShape(n.right.callee);
        if n.right.callee.Member? { SameShape(n.right.callee.property); }
      }
      assert ReactiveAssignmentData(n').Some? == ReactiveAssignmentData(n).Some?;
    } else {
      SameShape(n);
    }
  }

  /** The rewrite keeps every node's kind, and leaves leaves alone. */
  lemma SameShape(n: Node)
    ensures AddNameLiterals(n).This? == n.This? && AddNameLiterals(n).Ident? == n.Ident?
    ensures AddNameLiterals(n).Member? == n.Member? && AddNameLiterals(n).Call? == n.Call?
    ensures AddNameLiterals(n).Assign? == n.Assign?
    ensures n.This? || n.Ident? || n.Literal? ==> AddNameLiterals(n) == n
    ensures n.Member? ==> AddNameLiterals(n) == Member(AddNameLiterals(n.obj), AddNameLiterals(n.property))
    ensures n.Call? ==> AddNameLiterals(n) == Call(AddNameLiterals(n.callee), AddNameLiteralsAll(n.arguments))
  {
  }

  /** The argument list the recogniser reports once the literal is pushed:
      the first of them is the initializer the dependency scan reads. */
  function InitializerAfterPush(d: ReactiveData): Node {
    if |d.args| > 0 then AddNameLiterals(d.args[0]) else Literal(d.name)
  }

  lemma InitializerIsFirstPushedArgument(n: Node)
    requires ReactiveAssignmentData(n).Some?
    ensures ReactiveAssignmentData(AddNameLiterals(n)).Some?
    ensures ReactiveAssignmentData(AddNameLiterals(n)).value.args[0]
            == InitializerAfterPush(ReactiveAssignmentData(n).value)
  {
    AddNameLiteralsRecognition(n);
    var d := ReactiveAssignmentData(n).value;
    if |d.args| > 0 {
      AddNameLiteralsAllAt(d.args, 0);
    }
  }

  /** Number of recognised assignments among `nodes`. */
  function CountRecognised(nodes: seq<Node>): nat {
    if nodes == [] then 0
    else (if ReactiveAssignmentData(nodes[0]).Some? then 1 else 0) + CountRecognised(nodes[1..])
  }

  lemma {:induction false} CountRecognisedAppend(a: seq<Node>, b: seq<Node>)
    ensures CountRecognised(a + b) == CountRecognised(a) + CountRecognised(b)
    decreases |a|
  {
    if a != [] {
      assert (a + b)[0] == a[0];
      assert (a + b)[1..] == a[1..] + b;
      CountRecognisedAppend(a[1..], b);
    } else {
      assert a + b == b;
    }
  }

  /** The rewrite adds exactly one node, the literal, per recognised
      assignment and nothing else. */
  lemma {:induction false} AddNameLiteralsSize(n: Node)
    ensures |PostOrder(AddNameLiterals(n))| == |PostOrder(n)| + CountRecognised(PostOrder(n))
  {
    match n
    case This =>
    case Ident(_) =>
    case Literal(_) =>
    case Member(o, p) =>
      AddNameLiteralsSize(o);
      AddNameLiteralsSize(p);
      CountRecognisedAppend(PostOrder(o), PostOrder(p));
      CountRecognisedAppend(PostOrder(o) + PostOrder(p), [n]);
    case Call(c, args) =>
      AddNameLiteralsSize(c);
      AddNameLiteralsSizeAll(args);
      CountRecognisedAppend(PostOrder(c), PostOrderAll(args));
      CountRecognisedAppend(PostOrder(c) + PostOrderAll(args), [n]);
    case Assign(l, r) =>
      AddNameLiteralsSize(l);
      AddNameLiteralsSize(r);
      CountRecognisedAppend(PostOrder(l), PostOrder(r));
      CountRecognisedAppend(PostOrder(l) + PostOrder(r), [n]);
      AssignRewriteSize(n);
    case MethodDef(_, k, b) =>
      AddNameLiteralsSize(k);
      AddNameLiteralsSizeAll(b);
      CountRecognisedAppend(PostOrder(k), PostOrderAll(b));
      CountRecognisedAppend(PostOrder(k) + PostOrderAll(b), [n]);
    case Other(cs) =>
      AddNameLiteralsSizeAll(cs);
      CountRecognisedAppend(PostOrderAll(cs), [n]);
  }

  /** An assignment's rewrite is its rewritten sides, the assignment and,
      when it is recognised, the pushed literal. */
  lemma AssignRewriteSize(n: Node)
    requires n.Assign?
    ensures |PostOrder(AddNameLiterals(n))| ==
            |PostOrder(AddNameLiterals(n.left))| + |PostOrder(AddNameLiterals(n.right))| + 1 +
            (if ReactiveAssignmentData(n).Some? then 1 else 0)
  {
    var l', r' := AddNameLiterals(n.left), AddNameLiterals(n.right);
    AddNameLiteralsRecognition(n);
    if ReactiveAssignmentData(n).Some? {
      var lit := Literal(n.left.property.name);
      var c' := Call(r'.callee, r'.arguments + [lit]);
      assert AddNameLiterals(n) == Assign(l', c');
      PostOrderAllAppend(r'.arguments, [lit]);
      assert |PostOrderAll([lit])| == 1;
    }
  }

  lemma {:induction false} AddNameLiteralsSizeAll(ns: seq<Node>)
    ensures |PostOrderAll(AddNameLiteralsAll(ns))| == |PostOrderAll(ns)| + CountRecognised(PostOrderAll(ns))
  {
    if ns != [] {
      AddNameLiteralsSize(ns[0]);
      AddNameLiteralsSizeAll(ns[1..]);
      CountRecognisedAppend(PostOrder(ns[0]), PostOrderAll(ns[1..]));
      assert AddNameLiteralsAll(ns)[1..] == AddNameLiteralsAll(ns[1..]);
    }
  }

  lemma {:induction false} PostOrderAllAppend(a: seq<Node>, b: seq<Node>)
    ensures PostOrderAll(a + b) == PostOrderAll(a) + PostOrderAll(b)
    decreases |a|
  {
    if a != [] {
      assert (a + b)[0] == a[0];
      assert (a + b)[1..] == a[1..] + b;
      PostOrderAllAppend(a[1..], b);
    } else {
      assert a + b == b;
    }
  }

  /** Number of constructor definitions among `nodes`. */
  function CountConstructors(nodes: seq<Node>): nat {
    if nodes == [] then 0
    else (if IsConstructor(nodes[0]) then 1 else 0) + CountConstructors(nodes[1..])
  }

  lemma {:induction false} CountConstructorsAppend(a: seq<Node>, b: seq<Node>)
    ensures CountConstructors(a + b) == CountConstructors(a) + CountConstructors(b)
    decreases |a|
  {
    if a != [] {
      assert (a + b)[0] == a[0];
      assert (a + b)[1..] == a[1..] + b;
      CountConstructorsAppend(a[1..], b);
    } else {
      assert a + b == b;
    }
  }

  lemma {:induction false} CountConstructorsPositive(nodes: seq<Node>)
    ensures CountConstructors(nodes) > 0 <==> exists k :: 0 <= k < |nodes| && IsConstructor(nodes[k])
    decreases |nodes|
  {
    if nodes != [] {
      CountConstructorsPositive(nodes[1..]);
      if exists k :: 0 <= k < |nodes| && IsConstructor(nodes[k]) {
        var k :| 0 <= k < |nodes| && IsConstructor(nodes[k]);
        if k > 0 { assert IsConstructor(nodes[1..][k - 1]); }
      }
      if exists k :: 0 <= k < |nodes[1..]| && IsConstructor(nodes[1..][k]) {
        var k :| 0 <= k < |nodes[1..]| && IsConstructor(nodes[1..][k]);
        assert nodes[k + 1] == nodes[1..][k];
      }
    }
  }

  lemma CountConstructorsOf3(a: seq<Node>, b: seq<Node>, x: Node)
    ensures CountConstructors(a + b + [x]) == CountConstructors(a) + CountConstructors(b) + (if IsConstructor(x) then 1 else 0)
  {
    CountConstructorsAppend(a, b);
    CountConstructorsAppend(a + b, [x]);
  }

  /** The rewrite adds no constructor and removes none. */
  lemma {:induction false} AddNameLiteralsConstructors(n: Node)
    ensures CountConstructors(PostOrder(AddNameLiterals(n))) == CountConstructors(PostOrder(n))
  {
    match n
    case This =>
    case Ident(_) =>
    case Literal(_) =>
    case Member(o, p) =>
      AddNameLiteralsConstructors(o);
      AddNameLiteralsConstructors(p);
      CountConstructorsOf3(PostOrder(o), PostOrder(p), n);
      CountConstructorsOf3(PostOrder(AddNameLiterals(o)), PostOrder(AddNameLiterals(p)), AddNameLiterals(n));
    case Call(c, args) =>
      AddNameLiteralsConstructors(c);
      AddNameLiteralsConstructorsAll(args);
      CountConstructorsOf3(PostOrder(c), PostOrderAll(args), n);
      CountConstructorsOf3(PostOrder(AddNameLiterals(c)), PostOrderAll(AddNameLiteralsAll(args)), AddNameLiterals(n));
    case Assign(l, r) =>
      AddNameLiteralsConstructors(l);
      AddNameLiteralsConstructors(r);
      CountConstructorsOf3(PostOrder(l), PostOrder(r), n);
      AssignRewriteConstructors(n);
    case MethodDef(_, k, b) =>
      AddNameLiteralsConstructors(k);
      AddNameLiteralsConstructorsAll(b);
      CountConstructorsOf3(PostOrder(k), PostOrderAll(b), n);
      CountConstructorsOf3(PostOrder(AddNameLiterals(k)), PostOrderAll(AddNameLiteralsAll(b)), AddNameLiterals(n));
    case Other(cs) =>
      AddNameLiteralsConstructorsAll(cs);
      CountConstructorsAppend(PostOrderAll(cs), [n]);
      CountConstructorsAppend(PostOrderAll(AddNameLiteralsAll(cs)), [AddNameLiterals(n)]);
  }

  /** An assignment's rewrite counts the constructors of its rewritten
      sides; the pushed literal is not one. */
  lemma AssignRewriteConstructors(n: Node)
    requires n.Assign?
    ensures CountConstructors(PostOrder(AddNameLiterals(n))) ==
            CountConstructors(PostOrder(AddNameLiterals(n.left))) + CountConstructors(PostOrder(AddNameLiterals(n.right)))
  {
    var l', r' := AddNameLiterals(n.left), AddNameLiterals(n.right);
    AddNameLiteralsRecognition(n);
    if ReactiveAssignmentData(n).Some? {
      var lit := Literal(n.left.property.name);
      var c' := Call(r'.callee, r'.arguments + [lit]);
      assert AddNameLiterals(n) == Assign(l', c');
      PostOrderAllAppend(r'.arguments, [lit]);
      CountConstructorsAppend(PostOrderAll(r'.arguments), PostOrderAll([lit]));
      CountConstructorsOf3(PostOrder(r'.callee), PostOrderAll(r'.arguments), r');
      CountConstructorsOf3(PostOrder(r'.callee), PostOrderAll(r'.arguments + [lit]), c');
      CountConstructorsOf3(PostOrder(l'), PostOrder(c'), AddNameLiterals(n));
    } else {
      CountConstructorsOf3(PostOrder(l'), PostOrder(r'), AddNameLiterals(n));
    }
  }

  lemma {:induction false} AddNameLiteralsConstructorsAll(ns: seq<Node>)
    ensures CountConstructors(PostOrderAll(AddNameLiteralsAll(ns))) == CountConstructors(PostOrderAll(ns))
  {
    if ns != [] {
      AddNameLiteralsConstructors(ns[0]);
      AddNameLiteralsConstructorsAll(ns[1..]);
      CountConstructorsAppend(PostOrder(ns[0]), PostOrderAll(ns[1..]));
      assert AddNameLiteralsAll(ns)[1..] == AddNameLiteralsAll(ns[1..]);
      CountConstructorsAppend(PostOrder(AddNameLiterals(ns[0])), PostOrderAll(AddNameLiteralsAll(ns[1..])));
    }
  }

  /** The class has a constructor after the rewrite exactly when it had one
      before, so the lazily cached constructor lookup does not depend on
      when it first runs. */
  lemma RewriteKeepsConstructor(n: Node)
    ensures FindConstructor(AddNameLiterals(n)).Some? == FindConstructor(n).Some?
  {
    AddNameLiteralsConstructors(n);
    CountConstructorsPositive(PostOrder(n));
    CountConstructorsPositive(PostOrder(AddNameLiterals(n)));
  }
}
