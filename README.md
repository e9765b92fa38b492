# rwc-js in Dafny

rwc-js compiles a `.rwc` file into a reactive JavaScript web component. The
file holds a `<component name="…">` section with a class body, an optional
`<style>` and an optional `<view>` template. This project models both halves
of the system.

**The compiler** (`RwcCompiler`) does the following:

* It selects the file's sections.
* It wraps the class body in `class <name> extends rwc.RwcElement { … }` and
  parses it.
* It finds the reactive assignments `this.x = <expr>.reactive(…)`, which make
  `x` a proxy. It appends the name literal to each call, and for every proxy an
  initializer reads it registers a recompute in the constructor.
* It appends the trimmed style.
* It turns the view into constructor code. It walks the markup tree depth
  first with a queue and a stack of `*for` loops. Attributes are routed to
  event listeners, `*if` conditionals, `@` props and plain attributes, and
  `{{ … }}` spans are turned into template holes.
* It derives the custom-element tag from the class name.

**The runtime** (`RwcElement`) holds the following:

* The per-proxy registry of `{isValid, update}` entries, with lazy filtering.
* `$setProp`'s three-way handling of reactive and plain values.
* The reactive wrappers, including the primitive box with change
  suppression.
* The recursive `$nullifyNode` marking.

Modules, in dependency order:

* `Names`, `Ast` (ast.dfy): the syntax-tree shapes the compiler inspects, its
  post-order walk, the method and constructor lookups, the reactive-assignment
  recogniser and the name-literal rewrite.
* `References` (refs.dfy): `getReferencedProxyNames` with a fuel bound on
  method inlining.
* `MarkupTree` (markup.dfy): the markup tree and the attribute classifier.
* `Interpolation` (interpolation.dfy): `filterTextContent` as a loop, proved
  against a scanner function.
* `TagName` (tag_name.dfy) and `Trim` (trim.dfy): tag derivation and
  `String.prototype.trim`.
* `Code` (code.dfy): the emitted statements, as abstract instructions.
* `View`, `ViewLaws` (view.dfy, view_laws.dfy): `appendView` as a state
  machine over walk events, and its laws.
* `Sections`, `Analysis` (analysis.dfy): section selection and the proxy walk.
* `Compiler` (compiler.dfy): the pipeline as functions, and the class
  `RwcCompiler` with methods proved against them.
* `Registry`, `Reactivity`, `Runtime` (registry.dfy, reactivity.dfy,
  runtime.dfy): the runtime.

How foreign code is represented:

* The JavaScript parser `toAst` is a total function `parse: string -> Node`,
  held by the compiler.
* Markup is given already parsed, as the sequence of top-level nodes.
* `isValid` closures are judged against a `world: nat -> bool` passed in by
  the caller.
* Update actions are numbers appended to a log.
* Notifying a wrapper's consumers (`$runRwcs`) is a counter.

Behaviours of the code that the model keeps as written:

* A `.reactive()` call with no arguments registers no dependency. The scan
  reads `args[0]`, which is then the pushed name literal.
* Giving a component the same reactive prop twice pushes two forwarding
  consumers onto the wrapper's `$rwcs`. The push is unconditional; only the
  `$props` set avoids duplicates.
* The check at rwccompiler.ts line 130 compares the method
  `this.getComponentSrc` with `null`, so it never fires. Without `<component>`
  the code hands the class text `class  extends … { null }` to `acorn.parse`,
  which throws a SyntaxError: a class declaration needs a name and `null` is
  not a class element. The model's total `parse` returns a tree for it
  instead; this is one of the syntax errors in embedded code that the model
  leaves out.
* Writing `null` through a primitive box, and wrapping an array or object
  that holds a `null` at any depth, throw a TypeError:
  `$defineRwcProperties(null, name)` is reached through `typeof null ===
  "object"`.

## Model

| member | source | states |
|---|---|---|
| Interpolation.FilterTextContent | rwc/compiler/rwccompiler.ts:664-705 | the loop's `filtered` and `expressions` are exactly those of the scanner `Extract` on the text; `filtered` starts and ends with a backtick |
| Interpolation.NoInterpolationNoChange | rwc/compiler/rwccompiler.ts:664-705 | a text with no `{{` comes back wrapped in backticks, unchanged, with no expressions (stray `}}` included) |
| Interpolation.ScanWithoutOpen | rwc/compiler/rwccompiler.ts:670-700 | at depth 0 or below and with no `{{` ahead, the rest of the text is copied verbatim and no expression is pushed |
| Interpolation.ScanLiteral | rwc/compiler/rwccompiler.ts:692-695 | literal text at depth 0 with no `{{`/`}}` pair and no brace at its end, single braces included, is copied to the template as is |
| Interpolation.ScanSpanBody | rwc/compiler/rwccompiler.ts:692-695 | inside a span, each character goes to both the template and the current expression until the closing `}}` |
| Interpolation.ScanSpan | rwc/compiler/rwccompiler.ts:674-690 | `{{e}}` becomes `${e}` in the template and pushes exactly `e` |
| Interpolation.ScanSegments | rwc/compiler/rwccompiler.ts:670-700 | a text made of literal pieces (single braces allowed) and spans scans to the template with each span replaced by a hole, and to the list of the span bodies in order |
| Interpolation.SpansBecomeTemplateHoles | rwc/compiler/rwccompiler.ts:664-705 | the same for the whole function, including the backticks |
| Interpolation.HelloExample | rwc/compiler/rwccompiler.ts:664-705 | `"Hello {{ name }}!"` gives `` `Hello ${ name }!` `` and `[" name "]` |
| Interpolation.NestedBracesExample | rwc/compiler/rwccompiler.ts:674-691 | `"{{ {a:1} }}"` keeps the inner braces inside one expression |
| Interpolation.SingleBracesExample | rwc/compiler/rwccompiler.ts:664-705 | `"a {b} {{ c }}"` copies the single braces and still finds the span: `` `a {b} ${ c }` `` and `[" c "]` |
| Interpolation.EarlyCloseExample | rwc/compiler/rwccompiler.ts:664-705 | single braces are not counted: `"{{ {a:{b:1}} }}"` closes its span at `1}}`, giving `` `${ {a:{b:1} }}` `` and `[" {a:{b:1"]` |
| Interpolation.StrayCloseTail | rwc/compiler/rwccompiler.ts:682-697 | a `}}` read at depth 0 is copied and lowers the depth to -1 |
| TagName.Lower | rwc/compiler/rwccompiler.ts:744 | lower-casing maps `A`–`Z` to `a`–`z` and leaves every other character alone |
| TagName.LowerAllShape | rwc/compiler/rwccompiler.ts:744 | a string is lower-cased character by character, keeping its length |
| TagName.SplitShape | rwc/compiler/rwccompiler.ts:743 | `split(/(?=[A-Z])/)` yields non-empty pieces that concatenate to the name; every piece but the first starts with an uppercase letter and holds no other |
| TagName.PiecesAreKebab | rwc/compiler/rwccompiler.ts:743-745 | joining the lower-cased pieces with `-` equals the lower-cased first piece followed by a `-` before each later uppercase letter |
| TagName.TagNameIsKebab | rwc/compiler/rwccompiler.ts:743-745 | the split/lower/join tag equals the independent kebab-case definition |
| TagName.KebabTailShape | rwc/compiler/rwccompiler.ts:743-745 | the kebab tail holds no uppercase letter and is longer by one per uppercase letter |
| TagName.TagNameShape | rwc/compiler/rwccompiler.ts:743-745 | the tag holds no uppercase ASCII letter; its length is the name's plus one per uppercase letter after the first character; an empty name gives an empty tag |
| TagName.MyWidgetExample | rwc/compiler/rwccompiler.ts:743-745 | `"MyWidget"` gives `"my-widget"` |
| TagName.CounterExample | rwc/compiler/rwccompiler.ts:743-745 | `"Counter"` gives `"counter"` |
| Trim.TrimStartShape | rwc/compiler/rwccompiler.ts:374 | the result is a suffix of the input, all of the dropped prefix is white space, and the result does not start with white space |
| Trim.TrimEndShape | rwc/compiler/rwccompiler.ts:374 | the mirror image for the end |
| Trim.TrimShape | rwc/compiler/rwccompiler.ts:374 | `trim()` returns a slice with only white space before and after it, and the slice neither starts nor ends with white space |
| Trim.TrimIdempotent | rwc/compiler/rwccompiler.ts:374 | trimming twice is trimming once |
| Trim.TrimKeepsTrimmed | rwc/compiler/rwccompiler.ts:374 | a string without white space at its ends is its own trim |
| MarkupTree.AttrValue | rwc/compiler/rwccompiler.ts:114 | the value read is that of the first attribute with the name |
| MarkupTree.Classify | rwc/compiler/rwccompiler.ts:529-568 | the routing precedence: `(…)` without any line terminator is an event with the parentheses stripped; otherwise `*if` is a conditional, `*for` a loop, an `@` prefix a prop with the `@` stripped, anything else plain |
| MarkupTree.EventRoundTrip | rwc/compiler/rwccompiler.ts:530-535 | `(event)` is routed as the event `event` |
| MarkupTree.PropRoundTrip | rwc/compiler/rwccompiler.ts:553-555 | `@prop` is routed as the prop `prop` |
| MarkupTree.PlainOtherwise | rwc/compiler/rwccompiler.ts:565-567 | an attribute in no other class is handled as a plain attribute |
| MarkupTree.ForCountUnique | rwc/compiler/rwccompiler.ts:509-519 | with distinct attribute names an element opens one loop if it has `*for`, and none otherwise |
| Names.AddName | rwc/compiler/rwccompiler.ts:74-76 | `Set.add`: insertion-ordered, the element is present afterwards, the other elements are kept, and no duplicate is created |
| Ast.PostOrderEndsWithRoot | rwc/compiler/rwccompiler.ts:166 | the full walk visits the start node last, after its sub-trees |
| Ast.LastMethodIndex | rwc/compiler/rwccompiler.ts:284-294 | the index of the last plain method named `name` in walk order, or -1 |
| Ast.FindMethod | rwc/compiler/rwccompiler.ts:278-296 | `findMethodAstNode` finds a method exactly when the tree has a `kind == 'method'` definition with that name, and what it finds is one |
| Ast.FindMethodIsLast | rwc/compiler/rwccompiler.ts:284-294 | when there are several, the last in walk order wins |
| Ast.LastConstructorIndex | rwc/compiler/rwccompiler.ts:310-318 | the index of the last constructor in walk order, or -1 |
| Ast.FindConstructor | rwc/compiler/rwccompiler.ts:304-320 | `findConstructorNode` finds a constructor exactly when the tree has one |
| Ast.ReactiveShapeRecognised | rwc/compiler/rwccompiler.ts:328-363 | every `this.<name> = <receiver>.reactive(args)` is recognised, with that name and that argument list |
| Ast.RecognisedHasReactiveShape | rwc/compiler/rwccompiler.ts:328-363 | and only those: a recognised node has exactly that shape |
| Ast.AddNameLiteralsRecognition | rwc/compiler/rwccompiler.ts:175-181 | after `args.push(literal)` an assignment is still recognised, with the same name and the name literal as last argument |
| Ast.SameShape | rwc/compiler/rwccompiler.ts:175-181 | the rewrite changes no node's kind and touches only argument lists of recognised calls |
| Ast.InitializerIsFirstPushedArgument | rwc/compiler/rwccompiler.ts:181-183 | the node scanned for references is `args[0]` after the push, so the name literal when there were no arguments |
| Ast.AddNameLiteralsSize | rwc/compiler/rwccompiler.ts:175-181 | the rewrite adds exactly one node per recognised assignment |
| Ast.AddNameLiteralsConstructors | rwc/compiler/rwccompiler.ts:62-67 | the rewrite keeps the number of constructors |
| Ast.RewriteKeepsConstructor | rwc/compiler/rwccompiler.ts:62-67 | the rewritten tree has a constructor exactly when the parsed one had, so the cached constructor lookup agrees with a fresh one |
| References.CollectSpec | rwc/compiler/rwccompiler.ts:245-269 | the walk adds, without duplicates and after the accumulator, exactly the known proxies read as `this.<p>` anywhere in the start nodes and in the method bodies their calls inline |
| References.VisitSpec | rwc/compiler/rwccompiler.ts:246-266 | the same for one visited node |
| References.RefsExtendsAccumulator | rwc/compiler/rwccompiler.ts:245-269 | the result extends the accumulator, adds only known proxies, and keeps a duplicate-free accumulator duplicate-free |
| References.RefsFindsDirectReferences | rwc/compiler/rwccompiler.ts:248-256 | a known proxy read as `this.<p>` in the start node is in the result |
| References.RefsFuelMonotone | rwc/compiler/rwccompiler.ts:260-263 | once the inlining bound suffices, a larger bound gives the same result |
| References.NoCallsNoFuel | rwc/compiler/rwccompiler.ts:257-265 | without method calls the walk needs no inlining |
| References.SelfCallExhaustsFuel | rwc/compiler/rwccompiler.ts:260-263 | a method whose body calls itself makes the walk diverge (no bound suffices) |
| References.CollectNoneIfVisitNone | rwc/compiler/rwccompiler.ts:246-267 | such a call anywhere in the start nodes makes the whole walk diverge |
| Sections.SelectOne | rwc/compiler/rwccompiler.ts:110-127 | one top-level node stops the loop exactly when it is a `<component>` without `name` |
| Sections.SelectFailsIffNameless | rwc/compiler/rwccompiler.ts:109-128 | the loop returns null exactly when some top-level `<component>` lacks `name` |
| Sections.SelectPicksLast | rwc/compiler/rwccompiler.ts:109-128 | after the loop, the name and text, the style and the view are those of the last element with each tag, or unchanged where there is none |
| Analysis.Recomputes | rwc/compiler/rwccompiler.ts:184-193 | one recompute registration per referenced proxy, in order |
| Analysis.AssignmentEffects | rwc/compiler/rwccompiler.ts:166-193 | an assignment adds its name to the proxies before the scan, then appends exactly one registration per distinct known proxy its initializer reaches |
| Analysis.SelfReferenceRegisters | rwc/compiler/rwccompiler.ts:173-193 | an initializer that reads its own property registers its own recompute |
| Analysis.AnalyseProxies | rwc/compiler/rwccompiler.ts:166-194 | after the walk the proxies are the earlier ones plus the names of the recognised assignments, each once, and registrations only grow |
| Analysis.OnlyAssignmentsMatter | rwc/compiler/rwccompiler.ts:166-171 | nodes that are not reactive assignments leave the walk's result alone |
| View.Emit | rwc/compiler/rwccompiler.ts:210-236 | appending code changes neither the stack's height nor the current loop, the parent or the close flag |
| View.EmitTarget | rwc/compiler/rwccompiler.ts:210-236 | code goes to the current loop's body, or to the constructor when no loop is open (`currForNode \|\| ctor`) |
| View.EmitTwice | rwc/compiler/rwccompiler.ts:234 | two appends are one append of both, in order |
| View.UpdatesFor | rwc/compiler/rwccompiler.ts:621-637 | one update registration per referenced proxy, in order |
| View.ConditionalRegistrations | rwc/compiler/rwccompiler.ts:539-547 | one registration of the last conditional per proxy of the `*if` expression |
| View.Rebuilds | rwc/compiler/rwccompiler.ts:417-480 | one rebuild registration per proxy of the loop header |
| ViewLaws.InitialQueue | rwc/compiler/rwccompiler.ts:390 | the initial queue stands for exactly the walk events of the view |
| ViewLaws.QueueVisit | rwc/compiler/rwccompiler.ts:575-592 | shifting a node and putting back its children and its close marker in front keeps the queue's events: depth-first pre-order with the marker after all descendants |
| ViewLaws.QueueAfterVisit | rwc/compiler/rwccompiler.ts:575-592 | the children queued in front of the close marker and the rest of the queue stand for the children's walks, then the close event, then the rest |
| ViewLaws.QueueClose | rwc/compiler/rwccompiler.ts:408-494 | shifting a close marker consumes exactly a close event |
| ViewLaws.PushForsKeepTop | rwc/compiler/rwccompiler.ts:509-519 | each `*for` pushes one frame that becomes the current loop; lower frames and the constructor are untouched |
| ViewLaws.EmitTopOnly | rwc/compiler/rwccompiler.ts:210-236 | an append touches only the current loop's frame or the constructor |
| ViewLaws.EmitAttrsTopOnly | rwc/compiler/rwccompiler.ts:529-568 | the same for all of an element's attributes |
| ViewLaws.ParentChangeTopOnly | rwc/compiler/rwccompiler.ts:496-505 | a parent change emits at most an ascend into the current target and keeps the current loop on top |
| ViewLaws.ElementStepShape | rwc/compiler/rwccompiler.ts:507-569 | an element pushes one frame per `*for` and changes no frame below the current one |
| ViewLaws.NodeStepShape | rwc/compiler/rwccompiler.ts:507-614 | an element, a text node or any other node grows the stack only by the element's `*for` count and changes no frame below the current one |
| ViewLaws.AfterNodeTopOnly | rwc/compiler/rwccompiler.ts:575-592 | the child bookkeeping emits only into the current target |
| ViewLaws.OpenStepShape | rwc/compiler/rwccompiler.ts:496-592 | a node's visit keeps the current loop on top, grows the stack by its `*for` count, and leaves lower frames alone |
| ViewLaws.PopShape | rwc/compiler/rwccompiler.ts:486-492 | popping a frame makes the one below current (or none) and keeps the frames under it |
| ViewLaws.CloseStepShape | rwc/compiler/rwccompiler.ts:408-494 | a close marker with an open loop pops exactly one frame |
| ViewLaws.CloseWithoutLoopIgnored | rwc/compiler/rwccompiler.ts:409-411 | a close marker with no open loop is ignored |
| ViewLaws.StepKeepsTop | rwc/compiler/rwccompiler.ts:402-593 | every step keeps `currForNode` equal to the stack top, or null on an empty stack |
| ViewLaws.RunKeepsTop | rwc/compiler/rwccompiler.ts:402-593 | so does the whole loop |
| ViewLaws.FlushAllEmpties | rwc/compiler/rwccompiler.ts:512 | loops still open at the end have their blocks placed in their targets, leaving no open frame |
| ViewLaws.TraceBalanced | rwc/compiler/rwccompiler.ts:575-592 | a subtree's events, attribute names being distinct, leave the stack as they found it |
| ViewLaws.ViewEndsWithEmptyStack | rwc/compiler/rwccompiler.ts:380-594 | under that condition the loop ends with every frame popped, and the view's code is the constructor after the last event |
| ViewLaws.RunKeepsCtorPrefix | rwc/compiler/rwccompiler.ts:402-593 | the loop only appends to the constructor |
| ViewLaws.OpenKeepsCtorPrefix | rwc/compiler/rwccompiler.ts:496-592 | a node's visit only appends to the constructor |
| ViewLaws.ViewCodeExtendsCtor | rwc/compiler/rwccompiler.ts:393-396 | the view's code begins with the earlier constructor code followed by the cursor declarations |
| Compiler.NullIffNameless | rwc/compiler/rwccompiler.ts:106-140 | `generateWebComponent` returns null exactly when a top-level `<component>` lacks `name` |
| Compiler.GeneratedShape | rwc/compiler/rwccompiler.ts:742-757 | the program is the parsed class with the name literals; the tag is the kebab form of the class name; the class name comes from the last `<component>` |
| Compiler.NoConstructorNoCode | rwc/compiler/rwccompiler.ts:202-208 | a class without a constructor receives no code |
| Compiler.ConstructorCodeOrder | rwc/compiler/rwccompiler.ts:135-139 | the constructor receives the recomputes, then the style, then the cursor declarations, in that order |
| Compiler.CompileProxies | rwc/compiler/rwccompiler.ts:154-195 | the proxy set after compilation is the one the walk built |
| Compiler.ProxiesAreDeclaredNames | rwc/compiler/rwccompiler.ts:166-194 | the proxy set is the earlier one plus the names of all reactive assignments of the class, each once |
| Compiler.EmitUpdates | rwc/compiler/rwccompiler.ts:621-637 | the inner loop appends one registration per proxy to the current target |
| Compiler.HandleExpression | rwc/compiler/rwccompiler.ts:621-637 | one turn of the expression loop appends the `i`-th expression's registrations after the earlier ones, or fails with the walk |
| Compiler.HandleAttributeOrTextNode | rwc/compiler/rwccompiler.ts:616-639 | the render statement, then the registrations of each expression's proxies, go to the current target |
| Compiler.HandleAttribute | rwc/compiler/rwccompiler.ts:596-604 | a plain attribute renders its interpolated value and registers its updates |
| Compiler.HandleTextNode | rwc/compiler/rwccompiler.ts:606-614 | a text node renders its interpolated text and registers its updates |
| Compiler.RouteAttribute | rwc/compiler/rwccompiler.ts:529-568 | the if-chain emits the classifier's code for one attribute |
| Compiler.RouteAttributes | rwc/compiler/rwccompiler.ts:529-569 | the attribute loop emits each attribute's code in order |
| Compiler.OpenFors | rwc/compiler/rwccompiler.ts:509-519 | the first attribute loop opens one loop frame per `*for`, with the proxies of its header |
| Compiler.VisitNode | rwc/compiler/rwccompiler.ts:496-592 | the handling of a shifted node is the visit step of the state machine |
| Compiler.CloseFor | rwc/compiler/rwccompiler.ts:408-494 | the handling of a close marker is the close step |
| Compiler.FinishFrame | rwc/compiler/rwccompiler.ts:417-485 | a closed loop frame gets the ascend out of its children, one rebuild per header proxy, and an outermost loop with proxies is taken out |
| Compiler.RebuildsFor | rwc/compiler/rwccompiler.ts:417-480 | the rebuild loop registers one rebuild per header proxy, in order |
| Compiler.TakeItem | rwc/compiler/rwccompiler.ts:402-494 | one turn of the queue loop consumes exactly the first pending event, keeping the rest of the run unchanged |
| Compiler.TakeVisit | rwc/compiler/rwccompiler.ts:496-592 | the same for a shifted node |
| Compiler.RwcCompiler.constructor | rwc/compiler/rwccompiler.ts:17-25 | the fields start empty: no sections, no tree, no proxies, no code |
| Compiler.RwcCompiler.AppendCodeToConstructor | rwc/compiler/rwccompiler.ts:202-208 | code reaches the constructor only when the class has one |
| Compiler.RwcCompiler.GenerateWebComponent | rwc/compiler/rwccompiler.ts:106-140 | the method returns, and leaves the fields as, the pipeline `Compile` says |
| Compiler.RwcCompiler.ParseComponentSrc | rwc/compiler/rwccompiler.ts:154-195 | the fields after the method are those of the parse phase |
| Compiler.RwcCompiler.ProxyWalk | rwc/compiler/rwccompiler.ts:166-194 | the walk's proxy set and constructor code are those of the walk function over the nodes in walk order |
| Compiler.RwcCompiler.ProxyWalkStep | rwc/compiler/rwccompiler.ts:166-194 | one callback of the walk advances the proxy set and constructor code exactly as the walk function does for the next node |
| Compiler.RwcCompiler.ProxyWalkCallback | rwc/compiler/rwccompiler.ts:166-194 | one callback adds the assignment's name and appends its recomputes |
| Compiler.RwcCompiler.AppendRecomputes | rwc/compiler/rwccompiler.ts:184-193 | the recomputes of one assignment are appended in order |
| Compiler.RwcCompiler.AppendStyle | rwc/compiler/rwccompiler.ts:368-378 | a style adds one style statement with the trimmed text; no style, no code |
| Compiler.RwcCompiler.AppendView | rwc/compiler/rwccompiler.ts:380-594 | the queue loop produces the state machine's constructor code; no view or no constructor, no code |
| Compiler.RwcCompiler.GenerateComponent | rwc/compiler/rwccompiler.ts:742-757 | the output is the rewritten program with its tag and class name |
| Registry.Valid | rwc/runtime/rwcruntime.ts:265 | filtering keeps exactly the entries whose `isValid` holds, and no more of them than there were |
| Registry.Actions | rwc/runtime/rwcruntime.ts:266-268 | the updates run are those of the list, in order |
| Registry.Installed | rwc/runtime/rwcruntime.ts:26-31 | `$getUpdates` makes the key present, keeps an existing list and every other key, so a second call changes nothing |
| Registry.ValidIsSubsequence | rwc/runtime/rwcruntime.ts:265 | filtering keeps the order of the entries it keeps |
| Registry.ValidIdempotent | rwc/runtime/rwcruntime.ts:264-265 | filtering twice against the same page is filtering once |
| Registry.ValidAppend | rwc/runtime/rwcruntime.ts:277-282 | an entry appended last is kept last, if it is valid |
| Registry.DefaultEntryRunsLast | rwc/runtime/rwcruntime.ts:277-282 | an entry registered with the default `isValid` runs at the next dispatch, after the earlier valid entries |
| Registry.ActionsOfValid | rwc/runtime/rwcruntime.ts:260-269 | a dispatch runs an action exactly when a valid entry carries it |
| Registry.FilterAllLaws | rwc/runtime/rwcruntime.ts:271-275 | `$filterUpdates` keeps the set of keys, turns each list into a subsequence, and is idempotent |
| Reactivity.WrapKind | rwc/runtime/rwcruntime.ts:103-163 | functions, symbols and bigints give `undefined`; otherwise an empty name returns the value itself; with a name, an array or object holding `null` at any depth throws, other arrays and non-null objects get their own wrappers, and a top-level `null` is boxed as a primitive |
| Reactivity.NullWrapping | rwc/runtime/rwcruntime.ts:103-163 | `null` is boxed at the top, an array or object holding `null` one level down throws, and `undefined` inside an array does not |
| Reactivity.Write | rwc/runtime/rwcruntime.ts:203-219 | writing `null` throws, whatever the property, before anything is set; otherwise the trap notifies exactly when `value !== prev` after the assignment, leaves `prev` equal to `value`, and `Reflect.set` fails only on the read-only `$reactive` |
| Reactivity.WriteNotifiesIffChanged | rwc/runtime/rwcruntime.ts:205-217 | writing `value` to a settled box throws exactly for `null`, and otherwise notifies exactly when the new value differs |
| Reactivity.WriteTwice | rwc/runtime/rwcruntime.ts:205-217 | `null` throws the first time; any other value written again notifies only for `NaN` |
| Reactivity.WritePrevRestores | rwc/runtime/rwcruntime.ts:205-217 | writing `null` to `prev` throws; any other value is undone by the change check, and notifies iff it differed |
| Reactivity.WriteNullThrows | rwc/runtime/rwcruntime.ts:208-211 | a `null` write throws on every property of every box |
| Runtime.SetPropCaseAsWritten | rwc/runtime/rwcruntime.ts:70-71 | as written, a reactive property given `null` or `undefined` throws, and nothing else does |
| Runtime.SetPropCase | rwc/runtime/rwcruntime.ts:68-93 | the three branches: reactive to reactive adopts, plain to reactive re-wraps, otherwise assigns; nothing throws |
| Runtime.NullIntoReactiveThrows | rwc/runtime/rwcruntime.ts:71 | the two choices differ on `null` and `undefined` |
| Runtime.Reactive.constructor | rwc/runtime/rwcruntime.ts:233-249 | a wrapper starts with `$rwcs` holding the one callback that dispatches its key, an empty `$props`, and `value == prev == val` |
| Runtime.Reactive.RunRwcs | rwc/runtime/rwcruntime.ts:251-258 | each call schedules the consumers once |
| Runtime.Reactive.Set | rwc/runtime/rwcruntime.ts:203-219 | the trap throws exactly when `Write` does, leaving `value`, `prev` and the notifications alone; otherwise its effect is `Write`'s |
| Runtime.RwcElement.constructor | rwc/runtime/rwcruntime.ts:6-14 | a new element has no updates |
| Runtime.RwcElement.GetUpdates | rwc/runtime/rwcruntime.ts:26-31 | returns the key's list after installing an empty one if absent |
| Runtime.RwcElement.OnUpdate | rwc/runtime/rwcruntime.ts:277-282 | appends exactly one entry at the end of the key's list, with `isValid` defaulting to always |
| Runtime.RwcElement.DoUpdate | rwc/runtime/rwcruntime.ts:260-269 | replaces the key's list by its valid entries, judged before any update runs, then runs each once in order; a missing key ends with an empty list |
| Runtime.RwcElement.RunAll | rwc/runtime/rwcruntime.ts:266-268 | the loop runs the list's updates in order |
| Runtime.RwcElement.FilterUpdates | rwc/runtime/rwcruntime.ts:271-275 | every key's list becomes its valid entries, and no update runs |
| Runtime.RwcElement.MakeReactive | rwc/runtime/rwcruntime.ts:103-111 | `$reactive` throws exactly when `WrapKind` says so; otherwise it returns what `WrapKind` chose, a fresh wrapper with one own-key callback, notified once iff `updateImmediately` |
| Runtime.RwcElement.Build | rwc/runtime/rwcruntime.ts:113-202 | the builders' empty-name check, the TypeError of a nested `null`, then a fresh wrapper |
| Runtime.RwcElement.SetProp | rwc/runtime/rwcruntime.ts:68-93 | adoption stores the wrapper, adds the name to `$props` once and pushes one forwarding consumer per call; re-wrapping stores a fresh wrapper, or throws with nothing changed when `$reactive` does; assignment stores the value and dispatches once iff `doUpdate` |
| Runtime.RwcElement.NullifyNode | rwc/runtime/rwcruntime.ts:49-60 | every node reachable through `childNodes` and `$el` ends removed; `$forremove` turns from `false` to `true` and is otherwise unchanged |
| Runtime.RwcElement.NullifyChildren | rwc/runtime/rwcruntime.ts:50-52 | after the loop over `childNodes` every node reachable from a child ends removed with `$forremove` marked, and no node loses a mark |

## Left out

- View.NodeStep: directives inside `<view>` (`<!doctype …>`, `<?…?>`) are not modelled. htmlparser2 gives them `nodeType` 1, so the code's element branch (rwccompiler.ts:507-509) iterates their missing `attributes` and throws a TypeError; the markup tree has no such node, and `Compiler.VisitNode` and `Compiler.RwcCompiler.AppendView` inherit the gap.
- Registry.Installed, Runtime.RwcElement.GetUpdates, Runtime.RwcElement.OnUpdate, Runtime.RwcElement.DoUpdate: proxy names that collide with members `Object.prototype` gives the plain `{}` of `$updates` (`constructor`, `toString`, `valueOf`, `hasOwnProperty`, `__proto__`, …) are not modelled. For them the code's `in` tests (rwcruntime.ts:27, 261) are true from the start, so `$getUpdates` returns the inherited member, and the `.push` of `$onUpdate` or the `.filter` of `$doUpdate` throws a TypeError; the model's `map` installs an empty list instead.
- Reading and writing files and the command line (bin/generate.mjs, build.mjs) are not part of this model.
- The parsers and printers (acorn, acorn-walk, astring, htmlparser2) are replaced by datatypes and a total `parse` function. Syntax errors in embedded code are not modelled.
- The generated JavaScript text is modelled as abstract instructions (`Code.Instr`). What the strings do in a browser is not modelled: DOM calls, `replaceWith`, `customElements.define`, `connectedCallback` and `$render`.
- The `setInterval` poll of `@` props and `requestAnimationFrame` scheduling are reduced to an instruction and a counter. What the consumers do when the frame runs is not modelled.
- The Proxy traps of reactive arrays and objects, and the deep re-wrapping of nested values, are left out. They depend on the full `typeof`/`Reflect` semantics. Only their markers and their consumer lists are modelled.
- Non-primitive values other than `null` written through a primitive box, and writes of `$rwcs` or `$props` through it, are left out.
- Runtime.RwcElement.Build: before a nested `null` throws, the builders have already re-wrapped the values before it; those wrappers, their notifications under `updateImmediately`, and the fields of an object already replaced are not modelled.
- Runtime.RwcElement.DoUpdate: update actions are assumed not to change `$updates`. In the code a loop rebuild (rwccompiler.ts:439-475) re-runs the loop body, which pushes new entries with `this.$getUpdates(p).push` onto the array that `$doUpdate`'s `for … of` (rwcruntime.ts:266) is walking, so entries registered during a dispatch of the same key also run in that dispatch.
- Numbers are integers plus `NaN`. Floating point and `+0`/`-0` are not modelled.
- `$checkAwaitingProps` is left out. It runs in the constructor over a record initialised to `{}` just before, so it never does anything.
- Plain objects that carry their own `$reactive: true` are treated as plain.
- `References.Refs`: a walk that does not terminate (a method calling itself) is modelled as exhaustion of a `fuel` bound, so the model does not reproduce the divergence itself.
- Interpolation.ScanSegments: the general lemma covers only texts whose literal pieces hold no `{{`/`}}` pair and do not end in a brace, and whose span bodies hold no `{{`/`}}` pair and do not end in `}`. Left outside it are: balanced nesting such as `{{ {{a}} }}`, which the depth counter keeps in one span (`` `${ {{a}} }` `` and `[" {{a}} "]`); a stray `}}` in literal text, which drives the depth below 0 so that a later `{{` no longer opens a span (covered only by `NoInterpolationNoChange`, for texts without `{{`); and texts where a span closes at the first `}}` back at depth 1, shown on one text by `EarlyCloseExample`.
- Interpolation.SpansBecomeTemplateHoles: the same restrictions on literal pieces and span bodies, for the whole extractor.
- Strings are sequences of Unicode scalar values, while JavaScript strings index UTF-16 code units. The scanners in `Interpolation`, `TagName` and `Trim` examine only ASCII characters and white space, so the only difference is lone surrogates, which are not modelled.
- Lower-casing covers ASCII only. `toLocaleLowerCase` on other letters is not modelled.
- `Compiler.RwcCompiler.GenerateWebComponent`: after fuel runs out, the fields are left unspecified.
- Recomputes: statements that the walk appends to the constructor are not walked again during the same walk. The callback runs on the tree as parsed, with name literals pushed only into the argument lists they were pushed to.
- `View`: the block of a `*for` is placed in its target when the loop closes, not when it opens. Nothing else reaches that target while the loop is open, so the order is the same.
- Ascending through several levels after a deep subtree: each change of parent emits one ascend, as the code does. Whether that reaches the right DOM parent at run time is not stated.
- `Runtime.DomNode`: `childNodes` and `$el` are fixed during `$nullifyNode` and form no cycle. A cyclic `$el` link, which the code would follow for ever, is not modelled.
- `Runtime.RwcElement.SetProp` has no row for the code's TypeError. It follows the corrected choice `Runtime.SetPropCase`, and the behaviour as written is kept in `Runtime.SetPropCaseAsWritten` (see Findings).

## Findings

| source | as written | input that shows it | evidently intended | confidence | as-written member | corrected member |
|---|---|---|---|---|---|---|
| rwc/runtime/rwcruntime.ts:71 | `val.$reactive` is read without `?.`, unlike `self[name]?.$reactive` one line above | `$setProp("x", null)` while `this.x` holds a reactive wrapper: reading `null.$reactive` throws a TypeError | `null` and `undefined` are plain values like the others and get a fresh wrapper through `$reactive`, which handles both | medium, not executed | Runtime.SetPropCaseAsWritten, Runtime.NullIntoReactiveThrows | Runtime.SetPropCase |
