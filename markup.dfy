/**
  The markup tree the compiler reads a component file into, and the
  routing of element attributes in the view.
*/
module MarkupTree {

  datatype Attr = Attr(name: string, value: string)

  /** A document node: an element with its attributes in source order, a
      text node, or a comment. Directives (`<!doctype …>`, `<?…?>`) are
      not represented. */
  datatype Markup =
    | Element(tag: string, attrs: seq<Attr>, children: seq<Markup>)
    | Text(data: string)
    | Comment(data: string)

  /** `getChildren`: only elements have children. */
  function Children(m: Markup): seq<Markup> {
    if m.Element? then m.children else []
  }

  /** `textContent`: the text nodes below `m` glued together in document
      order; comments contribute nothing. */
  function TextContent(m: Markup): string {
    match m
    case Element(_, _, cs) => TextContentAll(cs)
    case Text(d) => d
    case Comment(_) => ""
  }

  function TextContentAll(ms: seq<Markup>): string {
    if ms == [] then "" else TextContent(ms[0]) + TextContentAll(ms[1..])
  }

  /** `hasAttrib`. */
  predicate HasAttr(attrs: seq<Attr>, name: string) {
    exists k :: 0 <= k < |attrs| && attrs[k].name == name
  }

  /** `getAttributeValue`: the value of the first attribute called `name`. */
  function AttrValue(attrs: seq<Attr>, name: string): (r: string)
    requires HasAttr(attrs, name)
    ensures exists k :: 0 <= k < |attrs| && attrs[k].name == name && attrs[k].value == r &&
                        forall j :: 0 <= j < k ==> attrs[j].name != name
  {
    if attrs[0].name == name then attrs[0].value
    else
      assert HasAttr(attrs[1..], name) by {
        var k :| 0 <= k < |attrs| && attrs[k].name == name;
        assert attrs[1..][k - 1].name == name;
      }
      var r := AttrValue(attrs[1..], name);
      assert exists k :: 1 <= k < |attrs| && attrs[k].name == name && attrs[k].value == r &&
                         forall j :: 0 <= j < k ==> attrs[j].name != name by {
        var k :| 0 <= k < |attrs[1..]| && attrs[1..][k].name == name && attrs[1..][k].value == r &&
                 forall j :: 0 <= j < k ==> attrs[1..][j].name != name;
        assert attrs[k + 1].name == name && attrs[k + 1].value == r;
        assert forall j :: 0 <= j < k + 1 ==> attrs[j].name != name by {
          forall j | 0 <= j < k + 1 ensures attrs[j].name != name {
            if j > 0 { assert attrs[j] == attrs[1..][j - 1]; }
          }
        }
      }
      r
  }

  // ---------------------------------------------------------------------------
  // Attribute routing

  const ForAttribute := "*for"
  const IfAttribute := "*if"
  const PropPrefix := '@'

  datatype AttrClass =
    | Event(event: string)     // `(click)`: an event listener
    | Conditional              // `*if`
    | Loop                     // `*for`, handled before the element is created
    | Prop(prop: string)       // `@name`: a property forwarded to a child component
    | Plain                    // any other attribute, with `{{ }}` interpolation

  /** The characters a regular-expression `.` does not match. */
  predicate IsLineTerminator(c: char) {
    c == '\n' || c == '\r' || c == '\U{2028}' || c == '\U{2029}'
  }

  /** `name` matches `^\(.*\)$`. */
  predicate IsEventName(name: string) {
    |name| >= 2 && name[0] == '(' && name[|name| - 1] == ')' &&
    forall k :: 1 <= k < |name| - 1 ==> !IsLineTerminator(name[k])
  }

  /** The routing of one attribute, in the precedence order the view
      emitter tests them. */
  function Classify(name: string): (r: AttrClass)
    ensures r.Event? <==> IsEventName(name)
    ensures r.Event? ==> "(" + r.event + ")" == name
    ensures r == Conditional <==> name == IfAttribute
    ensures r == Loop <==> name == ForAttribute
    ensures r.Prop? <==> !IsEventName(name) && |name| > 0 && name[0] == PropPrefix
    ensures r.Prop? ==> [PropPrefix] + r.prop == name
  {
    if IsEventName(name) then Event(name[1..|name| - 1])
    else if name == IfAttribute then Conditional
    else if name == ForAttribute then Loop
    else if |name| > 0 && name[0] == PropPrefix then Prop(name[1..])
    else Plain
  }

  /** Wrapping an event name in parentheses routes it as that event. */
  lemma EventRoundTrip(event: string)
    requires forall k :: 0 <= k < |event| ==> !IsLineTerminator(event[k])
    ensures Classify("(" + event + ")") == Event(event)
  {
    var name := "(" + event + ")";
    assert forall k :: 1 <= k < |name| - 1 ==> name[k] == event[k - 1];
    assert name[1..|name| - 1] == event;
  }

  /** Prefixing `@` routes a name as that prop. */
  lemma PropRoundTrip(prop: string)
    ensures Classify([PropPrefix] + prop) == Prop(prop)
  {
    var name := [PropPrefix] + prop;
    assert name[1..] == prop;
  }

  /** A name that is neither parenthesised, `*if`, `*for` nor `@`-prefixed
      is a plain attribute. */
  lemma PlainOtherwise(name: string)
    requires !IsEventName(name) && name != IfAttribute && name != ForAttribute
    requires |name| == 0 || name[0] != PropPrefix
    ensures Classify(name) == Plain
  {
  }

  /** `nodeHasForAttribute`. */
  predicate HasForAttribute(m: Markup) {
    m.Element? && exists k :: 0 <= k < |m.attrs| && m.attrs[k].name == ForAttribute
  }

  /** Attribute names of an element are unique, as the markup parser keeps
      only the first of repeated attributes. */
  predicate UniqueAttrNames(attrs: seq<Attr>) {
    forall i, j :: 0 <= i < j < |attrs| ==> attrs[i].name != attrs[j].name
  }

  /** The number of `*for` attributes of a node. */
  function ForCount(attrs: seq<Attr>): nat {
    if attrs == [] then 0
    else ForCount(attrs[..|attrs| - 1]) + (if attrs[|attrs| - 1].name == ForAttribute then 1 else 0)
  }

  /** With unique names, a node carries one `*for` exactly when it has the
      attribute, and none otherwise. */
  lemma {:induction false} ForCountUnique(attrs: seq<Attr>)
    requires UniqueAttrNames(attrs)
    ensures ForCount(attrs) == (if exists k :: 0 <= k < |attrs| && attrs[k].name == ForAttribute then 1 else 0)
    decreases |attrs|
  {
    if attrs != [] {
      var init := attrs[..|attrs| - 1];
      assert UniqueAttrNames(init);
      ForCountUnique(init);
      if attrs[|attrs| - 1].name == ForAttribute {
        assert forall k :: 0 <= k < |init| ==> init[k].name != ForAttribute;
      }
      assert (exists k :: 0 <= k < |attrs| && attrs[k].name == ForAttribute) <==>
             (exists k :: 0 <= k < |init| && init[k].name == ForAttribute) || attrs[|attrs| - 1].name == ForAttribute by {
        if exists k :: 0 <= k < |attrs| && attrs[k].name == ForAttribute {
          var k :| 0 <= k < |attrs| && attrs[k].name == ForAttribute;
          if k < |init| { assert init[k] == attrs[k]; }
        }
        if exists k :: 0 <= k < |init| && init[k].name == ForAttribute {
          var k :| 0 <= k < |init| && init[k].name == ForAttribute;
          assert attrs[k] == init[k];
        }
      }
    }
  }
}
