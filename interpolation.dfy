/**
  The interpolation extractor of the compiler (`filterTextContent`).

  It scans a text or attribute value once, left to right, looking at two
  characters at a time. A `{{` that raises the brace depth to 1 opens an
  interpolation span and becomes `${`; a `}}` that brings the depth back to 0
  closes it, becomes `}`, and hands the characters collected in between to
  the list of raw expressions. Everything else is copied. The result is then
  wrapped in backticks so that it can be embedded as a template literal.
*/
module Interpolation {
  import opened Seqs

  /** State of the scanner: brace depth, template text so far, the expression
      being collected and the expressions already closed. */
  datatype ScanState = ScanState(depth: int, filtered: string, expression: string, expressions: seq<string>)

  /** What the extractor returns: the backtick literal and the raw expressions. */
  datatype Extracted = Extracted(filtered: string, expressions: seq<string>)

  const Initial: ScanState := ScanState(0, "", "", [])

  predicate IsOpen(c: char, n: char) { c == '{' && n == '{' }
  predicate IsClose(c: char, n: char) { c == '}' && n == '}' }

  /** The scanner run on the unread suffix `rest` of the text. While two or
      more characters remain it inspects the leading pair; the single last
      character, when the scan reaches it, is copied to the template only. */
  function Scan(rest: string, st: ScanState): ScanState
    decreases |rest|
  {
    if |rest| == 0 then st
    else if |rest| == 1 then st.(filtered := st.filtered + rest)
    else
      var c, n := rest[0], rest[1];
      var d := if IsOpen(c, n) then st.depth + 1 else st.depth;
      if IsOpen(c, n) && d == 1 then
        Scan(rest[2..], ScanState(d, st.filtered + "${", st.expression, st.expressions))
      else if IsClose(c, n) && d - 1 == 0 then
        Scan(rest[2..], ScanState(0, st.filtered + "}", "", st.expressions + [st.expression]))
      else
        var d' := if IsClose(c, n) then d - 1 else d;
        Scan(rest[1..], ScanState(d', st.filtered + [c],
                                  if d' > 0 then st.expression + [c] else st.expression,
                                  st.expressions))
  }

  /** Specification of the extractor on a whole text. */
  function Extract(text: string): Extracted {
    var st := Scan(text, Initial);
    Extracted("`" + st.filtered + "`", st.expressions)
  }

  /** The scanner loop of the compiler, proved to compute `Extract`. */
  method FilterTextContent(text: string) returns (filtered: string, expressions: seq<string>)
    ensures Extracted(filtered, expressions) == Extract(text)
    ensures |filtered| >= 2 && filtered[0] == '`' && filtered[|filtered| - 1] == '`'
  {
    var depth := 0;
    var acc := "";
    var expression := "";
    expressions := [];
    var i := 0;
    while i < |text| - 1
      invariant 0 <= i <= |text|
      invariant Scan(text[i..], ScanState(depth, acc, expression, expressions)) == Scan(text, Initial)
    {
      var curr, next := text[i], text[i + 1];
      if curr == '{' && next == '{' {
        depth := depth + 1;
        if depth == 1 {
          acc := acc + "${";
          i := i + 2;
          continue;
        }
      }
      if curr == '}' && next == '}' {
        depth := depth - 1;
        if depth == 0 {
          acc := acc + "}";
          expressions := expressions + [expression];
          expression := "";
          i := i + 2;
          continue;
        }
      }
      if depth > 0 {
        expression := expression + [curr];
      }
      acc := acc + [curr];
      i := i + 1;
    }
    if i == |text| - 1 {
      assert text[i..] == [text[i]];
      acc := acc + [text[i]];
    }
    filtered := "`" + acc + "`";
  }

  // ---------------------------------------------------------------------------
  // Text without interpolation

  /** No `{{` anywhere in `s`. */
  predicate NoOpen(s: string) {
    forall k :: 0 <= k < |s| - 1 ==> !IsOpen(s[k], s[k + 1])
  }

  lemma {:induction false} ScanWithoutOpen(rest: string, st: ScanState)
    requires st.depth <= 0 && NoOpen(rest)
    ensures Scan(rest, st).filtered == st.filtered + rest
    ensures Scan(rest, st).expressions == st.expressions
    ensures Scan(rest, st).expression == st.expression
    decreases |rest|
  {
    if |rest| >= 2 {
      var c, n := rest[0], rest[1];
      var d' := if IsClose(c, n) then st.depth - 1 else st.depth;
      var st' := ScanState(d', st.filtered + [c], st.expression, st.expressions);
      assert !IsOpen(c, n);
      assert Scan(rest, st) == Scan(rest[1..], st');
      assert NoOpen(rest[1..]) by {
        forall k | 0 <= k < |rest[1..]| - 1 ensures !IsOpen(rest[1..][k], rest[1..][k + 1]) {
          assert rest[1..][k] == rest[k + 1] && rest[1..][k + 1] == rest[k + 2];
        }
      }
      ScanWithoutOpen(rest[1..], st');
      assert [c] + rest[1..] == rest;
      Associate(st.filtered, [c], rest[1..]);
    }
  }

  /** Text without `{{` comes back unchanged between backticks and yields no
      expression; an unmatched `}}` only lowers the depth and is copied. */
  lemma NoInterpolationNoChange(text: string)
    requires NoOpen(text)
    ensures Extract(text) == Extracted("`" + text + "`", [])
  {
    ScanWithoutOpen(text, Initial);
  }

  // ---------------------------------------------------------------------------
  // Interpolation spans

  /** A text described as literal pieces and `{{ e }}` spans. */
  datatype Segment = Lit(text: string) | Span(expr: string)

  /** Literal text may hold single braces as long as it has no `{{`/`}}`
      pair and does not end in a brace, which could pair with the next
      segment's first character. */
  predicate LitBody(s: string) {
    && (forall k :: 0 <= k < |s| - 1 ==> !IsOpen(s[k], s[k + 1]) && !IsClose(s[k], s[k + 1]))
    && (|s| > 0 ==> s[|s| - 1] != '{' && s[|s| - 1] != '}')
  }

  /** An expression may hold single braces (an object literal, say) as long
      as it has no `{{`/`}}` pair and does not end in `}`. */
  predicate SpanBody(e: string) {
    && (forall k :: 0 <= k < |e| - 1 ==> !IsOpen(e[k], e[k + 1]) && !IsClose(e[k], e[k + 1]))
    && (|e| > 0 ==> e[|e| - 1] != '}')
  }

  predicate WellFormed(segs: seq<Segment>) {
    forall k :: 0 <= k < |segs| ==>
      match segs[k]
      case Lit(s) => LitBody(s)
      case Span(e) => SpanBody(e)
  }

  /** The source text the segments stand for. */
  function Source(segs: seq<Segment>): string {
    if segs == [] then ""
    else
      (match segs[0]
       case Lit(s) => s
       case Span(e) => "{{" + e + "}}") + Source(segs[1..])
  }

  /** The template-literal body the segments should turn into. */
  function Template(segs: seq<Segment>): string {
    if segs == [] then ""
    else
      (match segs[0]
       case Lit(s) => s
       case Span(e) => "${" + e + "}") + Template(segs[1..])
  }

  /** The raw expressions of the spans, in order. */
  function Expressions(segs: seq<Segment>): seq<string> {
    if segs == [] then []
    else
      (match segs[0]
       case Lit(_) => []
       case Span(e) => [e]) + Expressions(segs[1..])
  }

  lemma {:induction false} ScanLiteral(s: string, tail: string, st: ScanState)
    requires st.depth == 0 && LitBody(s)
    ensures Scan(s + tail, st) == Scan(tail, st.(filtered := st.filtered + s))
    decreases |s|
  {
    if |s| > 0 {
      var rest := s + tail;
      var c := s[0];
      assert rest[0] == c;
      if |rest| == 1 {
        assert tail == [] && rest == s;
      } else {
        var st' := ScanState(0, st.filtered + [c], st.expression, st.expressions);
        assert rest[1] == if |s| > 1 then s[1] else tail[0];
        assert !IsOpen(c, rest[1]) && !IsClose(c, rest[1]);
        assert LitBody(s[1..]) by {
          forall k | 0 <= k < |s[1..]| - 1
            ensures !IsOpen(s[1..][k], s[1..][k + 1]) && !IsClose(s[1..][k], s[1..][k + 1])
          {
            assert s[1..][k] == s[k + 1] && s[1..][k + 1] == s[k + 2];
          }
        }
        assert Scan(rest, st) == Scan(rest[1..], st');
        assert rest[1..] == s[1..] + tail;
        ScanLiteral(s[1..], tail, st');
        assert [c] + s[1..] == s;
        Associate(st.filtered, [c], s[1..]);
        assert st'.(filtered := st'.filtered + s[1..]) == st.(filtered := st.filtered + s);
      }
    } else {
      assert s + tail == tail && st.(filtered := st.filtered + s) == st;
    }
  }

  lemma {:induction false} ScanSpanBody(e: string, tail: string, st: ScanState)
    requires st.depth == 1 && SpanBody(e)
    requires |tail| >= 2 && tail[0] == '}' && tail[1] == '}'
    ensures Scan(e + tail, st) ==
            Scan(tail, st.(filtered := st.filtered + e, expression := st.expression + e))
    decreases |e|
  {
    if |e| > 0 {
      var rest := e + tail;
      var c := e[0];
      assert rest[0] == c;
      assert rest[1] == if |e| > 1 then e[1] else '}';
      assert !IsOpen(c, rest[1]) && !IsClose(c, rest[1]);
      var st' := ScanState(1, st.filtered + [c], st.expression + [c], st.expressions);
      assert Scan(rest, st) == Scan(rest[1..], st');
      assert rest[1..] == e[1..] + tail;
      ScanSpanBody(e[1..], tail, st');
      assert [c] + e[1..] == e;
      Associate(st.filtered, [c], e[1..]);
      assert [c] + e[1..] == e;
      Associate(st.expression, [c], e[1..]);
      assert st'.(filtered := st'.filtered + e[1..], expression := st'.expression + e[1..])
          == st.(filtered := st.filtered + e, expression := st.expression + e);
    } else {
      assert e + tail == tail && st.(filtered := st.filtered + e, expression := st.expression + e) == st;
    }
  }

  lemma {:induction false} ScanSegments(segs: seq<Segment>, st: ScanState)
    requires WellFormed(segs) && st.depth == 0 && st.expression == ""
    ensures Scan(Source(segs), st) ==
            st.(filtered := st.filtered + Template(segs), expressions := st.expressions + Expressions(segs))
    decreases |segs|
  {
    if segs != [] {
      var more := segs[1..];
      assert WellFormed(more) by {
        forall k | 0 <= k < |more| ensures match more[k] case Lit(s) => LitBody(s) case Span(e) => SpanBody(e) {
          assert more[k] == segs[k + 1];
        }
      }
      assert match segs[0] case Lit(s) => LitBody(s) case Span(e) => SpanBody(e);
      match segs[0]
      case Lit(s) =>
        ScanLiteral(s, Source(more), st);
        ScanSegments(more, st.(filtered := st.filtered + s));
        Associate(st.filtered, s, Template(more));
      case Span(e) =>
        assert Source(segs) == "{{" + e + "}}" + Source(more);
        ScanSpan(e, Source(more), st);
        var st3 := ScanState(0, st.filtered + "${" + e + "}", "", st.expressions + [e]);
        ScanSegments(more, st3);
        Associate(st.filtered, "${", e);
        Associate(st.filtered, "${" + e, "}");
        Associate(st.filtered, "${" + e + "}", Template(more));
        Associate(st.expressions, [e], Expressions(more));
    }
  }

  /** One whole `{{ e }}` span, read at depth 0. */
  lemma ScanSpan(e: string, tail: string, st: ScanState)
    requires st.depth == 0 && st.expression == "" && SpanBody(e)
    ensures Scan("{{" + e + "}}" + tail, st) ==
            Scan(tail, ScanState(0, st.filtered + "${" + e + "}", "", st.expressions + [e]))
  {
    var rest := "{{" + e + "}}" + tail;
    var close := "}}" + tail;
    assert rest[0] == '{' && rest[1] == '{';
    assert rest[2..] == e + close;
    var st1 := ScanState(1, st.filtered + "${", "", st.expressions);
    assert Scan(rest, st) == Scan(e + close, st1);
    ScanSpanBody(e, close, st1);
    var st2 := ScanState(1, st.filtered + "${" + e, e, st.expressions);
    assert st1.(filtered := st1.filtered + e, expression := st1.expression + e) == st2;
    assert close[0] == '}' && close[1] == '}' && close[2..] == tail;
    assert Scan(close, st2) == Scan(tail, ScanState(0, st2.filtered + "}", "", st.expressions + [e]));
  }

  /** Every `{{ e }}` span becomes `${ e }` and contributes exactly `e`, in
      order; literal text between spans is copied unchanged. */
  lemma SpansBecomeTemplateHoles(segs: seq<Segment>)
    requires WellFormed(segs)
    ensures Extract(Source(segs)) == Extracted("`" + Template(segs) + "`", Expressions(segs))
  {
    ScanSegments(segs, Initial);
  }

  /** The segments of the worked example `Hello {{ name }}!`. */
  function HelloSegments(): seq<Segment> {
    [Lit("Hello "), Span(" name "), Lit("!")]
  }

  lemma HelloSegmentsShape()
    ensures Source(HelloSegments()) == "Hello {{ name }}!"
    ensures Template(HelloSegments()) == "Hello ${ name }!"
    ensures Expressions(HelloSegments()) == [" name "]
    ensures WellFormed(HelloSegments())
  {
    HelloSource();
    HelloTemplate();
    HelloExpressions();
    HelloWellFormed();
  }

  lemma HelloExpressions()
    ensures Expressions(HelloSegments()) == [" name "]
  {
    var segs := HelloSegments();
    assert segs[1..] == [Span(" name ")] + [Lit("!")];
    assert segs[1..][1..] == [Lit("!")];
    assert Expressions([Lit("!")]) == [];
  }

  lemma HelloWellFormed()
    ensures WellFormed(HelloSegments())
  {
    var segs := HelloSegments();
    HelloLitBodies();
    NameSpanBody();
    assert segs[0] == Lit("Hello ") && segs[1] == Span(" name ") && segs[2] == Lit("!");
  }

  lemma HelloLitBodies()
    ensures LitBody("Hello ") && LitBody("!")
  {
  }

  lemma NameSpanBody()
    ensures SpanBody(" name ")
  {
  }

  lemma HelloSource()
    ensures Source(HelloSegments()) == "Hello {{ name }}!"
  {
    var segs := HelloSegments();
    assert segs[1..] == [Span(" name ")] + [Lit("!")];
    assert segs[1..][1..] == [Lit("!")];
    assert Source([Lit("!")]) == "!";
  }

  lemma HelloTemplate()
    ensures Template(HelloSegments()) == "Hello ${ name }!"
  {
    var segs := HelloSegments();
    assert segs[1..] == [Span(" name ")] + [Lit("!")];
    assert segs[1..][1..] == [Lit("!")];
    assert Template([Lit("!")]) == "!";
  }

  /** A worked example: one span in a sentence. */
  lemma HelloExample(text: string)
    requires text == "Hello {{ name }}!"
    ensures Extract(text) == Extracted("`Hello ${ name }!`", [" name "])
  {
    HelloSegmentsShape();
    SpansBecomeTemplateHoles(HelloSegments());
    HelloBackticks();
  }

  lemma HelloBackticks()
    ensures "`" + "Hello ${ name }!" + "`" == "`Hello ${ name }!`"
  {
  }

  lemma ObjectLiteralSegmentsShape()
    ensures Source([Span(" {a:1} ")]) == "{{ {a:1} }}"
    ensures Template([Span(" {a:1} ")]) == "${ {a:1} }"
    ensures Expressions([Span(" {a:1} ")]) == [" {a:1} "]
    ensures WellFormed([Span(" {a:1} ")])
  {
    ObjectLiteralWellFormed();
  }

  lemma ObjectLiteralWellFormed()
    ensures WellFormed([Span(" {a:1} ")])
  {
    ObjectLiteralSpanBody();
    assert [Span(" {a:1} ")][0] == Span(" {a:1} ");
  }

  lemma ObjectLiteralSpanBody()
    ensures SpanBody(" {a:1} ")
  {
  }

  /** Single braces in literal text are copied, and a span after them is
      still found. */
  lemma SingleBracesExample(text: string)
    requires text == "a {b} {{ c }}"
    ensures Extract(text) == Extracted("`a {b} ${ c }`", [" c "])
  {
    var segs := [Lit("a {b} "), Span(" c ")];
    SingleBracesSegmentsShape(segs);
    SpansBecomeTemplateHoles(segs);
  }

  lemma SingleBracesSegmentsShape(segs: seq<Segment>)
    requires segs == [Lit("a {b} "), Span(" c ")]
    ensures Source(segs) == "a {b} {{ c }}"
    ensures Template(segs) == "a {b} ${ c }"
    ensures Expressions(segs) == [" c "]
    ensures WellFormed(segs)
  {
    SingleBracesSource(segs);
    SingleBracesTemplate(segs);
    SingleBracesExpressions(segs);
    SingleBracesLitBody();
    assert SpanBody(" c ");
  }

  lemma SingleBracesSource(segs: seq<Segment>)
    requires segs == [Lit("a {b} "), Span(" c ")]
    ensures Source(segs) == "a {b} {{ c }}"
  {
    var more := segs[1..];
    assert more == [Span(" c ")] && more[1..] == [];
    assert Source(more) == "{{" + " c " + "}}" + Source([]);
  }

  lemma SingleBracesTemplate(segs: seq<Segment>)
    requires segs == [Lit("a {b} "), Span(" c ")]
    ensures Template(segs) == "a {b} ${ c }"
  {
    var more := segs[1..];
    assert more == [Span(" c ")] && more[1..] == [];
    assert Template(more) == "${" + " c " + "}" + Template([]);
  }

  lemma SingleBracesExpressions(segs: seq<Segment>)
    requires segs == [Lit("a {b} "), Span(" c ")]
    ensures Expressions(segs) == [" c "]
  {
    var more := segs[1..];
    assert more == [Span(" c ")] && more[1..] == [];
    assert Expressions(more) == [" c "] + Expressions([]);
  }

  lemma SingleBracesLitBody()
    ensures LitBody("a {b} ")
  {
  }

  /** Single braces are not counted: a nested object literal whose braces
      end in `}}` closes the span there, and the rest is copied. */
  lemma EarlyCloseExample(text: string)
    requires text == "{{ {a:{b:1}} }}"
    ensures Extract(text) == Extracted("`${ {a:{b:1} }}`", [" {a:{b:1"])
  {
    var e := " {a:{b:1";
    var f := "${" + e + "}" + " }}";
    EarlyCloseScan(text, e);
    assert Scan(text, Initial) == ScanState(-1, f, "", [e]);
    EarlyCloseTemplate(e);
  }

  lemma EarlyCloseScan(text: string, e: string)
    requires text == "{{ {a:{b:1}} }}" && e == " {a:{b:1"
    ensures Scan(text, Initial) == ScanState(-1, "${" + e + "}" + " }}", "", [e])
  {
    EarlyCloseSource(text, e);
    EarlyCloseSpanBody(e);
    ScanSpan(e, " }}", Initial);
    var st := ScanState(0, "${" + e + "}", "", [e]);
    assert Initial.filtered + "${" + e + "}" == st.filtered;
    assert Initial.expressions + [e] == st.expressions;
    StrayCloseTail(st);
  }

  lemma EarlyCloseSource(text: string, e: string)
    requires text == "{{ {a:{b:1}} }}" && e == " {a:{b:1"
    ensures text == "{{" + e + "}}" + " }}"
  {
  }

  lemma EarlyCloseSpanBody(e: string)
    requires e == " {a:{b:1"
    ensures SpanBody(e)
  {
  }

  lemma EarlyCloseTemplate(e: string)
    requires e == " {a:{b:1"
    ensures "`" + ("${" + e + "}" + " }}") + "`" == "`${ {a:{b:1} }}`"
  {
  }

  /** After a span, ` }}` is copied: the stray `}}` only lowers the depth. */
  lemma StrayCloseTail(st: ScanState)
    requires st.depth == 0
    ensures Scan(" }}", st) == st.(depth := -1, filtered := st.filtered + " }}")
  {
    var r := " }}";
    assert r[0] == ' ' && r[1] == '}' && r[1..] == "}}";
    var st1 := st.(filtered := st.filtered + " ");
    assert Scan(r, st) == Scan("}}", st1);
    assert "}}"[1..] == "}";
    assert Scan("}}", st1) == Scan("}", st1.(depth := -1, filtered := st1.filtered + "}"));
    Associate(st.filtered, " ", "}");
    Associate(st.filtered, " }", "}");
  }

  /** Inner braces of an object literal stay inside one expression. */
  lemma NestedBracesExample(text: string)
    requires text == "{{ {a:1} }}"
    ensures Extract(text) == Extracted("`${ {a:1} }`", [" {a:1} "])
  {
    ObjectLiteralSegmentsShape();
    SpansBecomeTemplateHoles([Span(" {a:1} ")]);
  }
}
