/**
  Custom-element tag derivation of the code emitter (`generateComponent`):
  the component name is split before every upper-case letter, each piece is
  lower-cased, and the pieces are joined with `-` ("MyWidget" gives
  "my-widget").
*/
module TagName {
  import opened Seqs

  predicate IsUpper(c: char) { 'A' <= c <= 'Z' }

  function Lower(c: char): (r: char)
    ensures !IsUpper(r)
    ensures IsUpper(c) ==> r as int == c as int + 32
    ensures !IsUpper(c) ==> r == c
  {
    if IsUpper(c) then (c as int + 32) as char else c
  }

  /** Lower-casing of a whole string. */
  function LowerAll(s: string): string {
    if s == [] then [] else [Lower(s[0])] + LowerAll(s[1..])
  }

  /** Lower-casing keeps the length and works character by character. */
  lemma {:induction false} LowerAllShape(s: string)
    ensures |LowerAll(s)| == |s| && forall k :: 0 <= k < |s| ==> LowerAll(s)[k] == Lower(s[k])
  {
    if s != [] {
      LowerAllShape(s[1..]);
    }
  }

  /** `s.split(/(?=[A-Z])/)`: a piece ends right before every upper-case
      letter that is not the first character. The empty string gives one
      empty piece. */
  function SplitBeforeUpper(s: string): seq<string> {
    if s == [] then [""] else Pieces(s[..1], s[1..])
  }

  /** Splitting the unread `rest` while the current piece is `cur`. */
  function Pieces(cur: string, rest: string): (r: seq<string>)
    ensures |r| > 0
    decreases |rest|
  {
    if rest == [] then [cur]
    else if IsUpper(rest[0]) then [cur] + Pieces(rest[..1], rest[1..])
    else Pieces(cur + rest[..1], rest[1..])
  }

  function LowerPieces(pieces: seq<string>): (r: seq<string>)
    ensures |r| == |pieces| && forall k :: 0 <= k < |r| ==> r[k] == LowerAll(pieces[k])
  {
    if pieces == [] then [] else [LowerAll(pieces[0])] + LowerPieces(pieces[1..])
  }

  function Join(pieces: seq<string>, sep: string): string {
    if |pieces| == 0 then ""
    else if |pieces| == 1 then pieces[0]
    else pieces[0] + sep + Join(pieces[1..], sep)
  }

  function Concat(pieces: seq<string>): string {
    if pieces == [] then "" else pieces[0] + Concat(pieces[1..])
  }

  /** The tag the emitter registers the component under. */
  function TagName(name: string): string {
    Join(LowerPieces(SplitBeforeUpper(name)), "-")
  }

  // ---------------------------------------------------------------------------
  // Independent reference: a character-by-character rewrite

  /** Every upper-case letter after the first character becomes `-` and its
      lower-case form; every other character is lower-cased in place. */
  function Kebab(s: string): string {
    if s == [] then "" else [Lower(s[0])] + KebabTail(s[1..])
  }

  function KebabTail(r: string): string {
    if r == [] then ""
    else (if IsUpper(r[0]) then "-" + [Lower(r[0])] else [Lower(r[0])]) + KebabTail(r[1..])
  }

  function CountUpper(s: string): nat {
    if s == [] then 0 else (if IsUpper(s[0]) then 1 else 0) + CountUpper(s[1..])
  }

  lemma {:induction false} LowerAllAppend(a: string, b: string)
    ensures LowerAll(a + b) == LowerAll(a) + LowerAll(b)
    decreases |a|
  {
    if a == [] {
      assert a + b == b;
    } else {
      assert (a + b)[1..] == a[1..] + b;
      LowerAllAppend(a[1..], b);
    }
  }

  lemma {:induction false} PiecesAreKebab(cur: string, rest: string)
    ensures Join(LowerPieces(Pieces(cur, rest)), "-") == LowerAll(cur) + KebabTail(rest)
    decreases |rest|
  {
    if rest == [] {
    } else if IsUpper(rest[0]) {
      PiecesAreKebab(rest[..1], rest[1..]);
      PiecesBeforeUpper(cur, rest);
    } else {
      PiecesAreKebab(cur + rest[..1], rest[1..]);
      PiecesExtend(cur, rest);
    }
  }

  /** An upper-case letter starts a new piece, which the join precedes
      with `-`. */
  lemma PiecesBeforeUpper(cur: string, rest: string)
    requires rest != [] && IsUpper(rest[0])
    requires Join(LowerPieces(Pieces(rest[..1], rest[1..])), "-") == LowerAll(rest[..1]) + KebabTail(rest[1..])
    ensures Join(LowerPieces(Pieces(cur, rest)), "-") == LowerAll(cur) + KebabTail(rest)
  {
    var tail := Pieces(rest[..1], rest[1..]);
    assert Pieces(cur, rest) == [cur] + tail;
    assert LowerPieces([cur] + tail) == [LowerAll(cur)] + LowerPieces(tail);
    JoinCons(LowerAll(cur), LowerPieces(tail), "-");
    assert LowerAll(rest[..1]) == [Lower(rest[0])];
    assert KebabTail(rest) == "-" + [Lower(rest[0])] + KebabTail(rest[1..]);
    Associate(LowerAll(cur), "-", [Lower(rest[0])] + KebabTail(rest[1..]));
    Associate("-", [Lower(rest[0])], KebabTail(rest[1..]));
  }

  /** Any other character extends the current piece. */
  lemma PiecesExtend(cur: string, rest: string)
    requires rest != [] && !IsUpper(rest[0])
    requires Join(LowerPieces(Pieces(cur + rest[..1], rest[1..])), "-") == LowerAll(cur + rest[..1]) + KebabTail(rest[1..])
    ensures Join(LowerPieces(Pieces(cur, rest)), "-") == LowerAll(cur) + KebabTail(rest)
  {
    var c := rest[0];
    var r1 := rest[1..];
    assert rest == [c] + r1;
    assert Pieces(cur, rest) == Pieces(cur + [c], r1);
    LowerAllAppend(cur, [c]);
    assert LowerAll([c]) == [Lower(c)];
    assert KebabTail(rest) == [Lower(c)] + KebabTail(r1);
    Associate(LowerAll(cur), [Lower(c)], KebabTail(r1));
  }

  lemma JoinCons(p: string, ps: seq<string>, sep: string)
    requires |ps| > 0
    ensures Join([p] + ps, sep) == p + sep + Join(ps, sep)
  {
    assert ([p] + ps)[1..] == ps;
  }

  /** The split/lower/join pipeline is the character-wise rewrite. */
  lemma TagNameIsKebab(name: string)
    ensures TagName(name) == Kebab(name)
  {
    if name != [] {
      PiecesAreKebab(name[..1], name[1..]);
      assert LowerAll(name[..1]) == [Lower(name[0])];
    }
  }

  lemma {:induction false} KebabTailShape(r: string)
    ensures forall k :: 0 <= k < |KebabTail(r)| ==> !IsUpper(KebabTail(r)[k])
    ensures |KebabTail(r)| == |r| + CountUpper(r)
  {
    if r != [] {
      KebabTailShape(r[1..]);
      var head := if IsUpper(r[0]) then "-" + [Lower(r[0])] else [Lower(r[0])];
      assert KebabTail(r) == head + KebabTail(r[1..]);
      assert forall k :: 0 <= k < |head| ==> !IsUpper(head[k]);
    }
  }

  /** The tag holds no upper-case letter and is longer than the name by one
      hyphen per upper-case letter after the first character. */
  lemma TagNameShape(name: string)
    ensures forall k :: 0 <= k < |TagName(name)| ==> !IsUpper(TagName(name)[k])
    ensures name != [] ==> |TagName(name)| == |name| + CountUpper(name[1..])
    ensures name == [] ==> TagName(name) == ""
  {
    TagNameIsKebab(name);
    if name != [] {
      KebabTailShape(name[1..]);
    }
  }

  // ---------------------------------------------------------------------------
  // The split itself

  /** Gluing the pieces back together gives the name again; the first piece
      keeps its first character and every later piece starts with an
      upper-case letter and holds no other one. */
  lemma {:induction false} PiecesShape(cur: string, rest: string)
    requires |cur| > 0 && forall k :: 1 <= k < |cur| ==> !IsUpper(cur[k])
    ensures Concat(Pieces(cur, rest)) == cur + rest
    ensures forall i :: 0 <= i < |Pieces(cur, rest)| ==>
              |Pieces(cur, rest)[i]| > 0 &&
              (forall k :: 1 <= k < |Pieces(cur, rest)[i]| ==> !IsUpper(Pieces(cur, rest)[i][k]))
    ensures Pieces(cur, rest)[0][..1] == cur[..1]
    ensures forall i :: 1 <= i < |Pieces(cur, rest)| ==> IsUpper(Pieces(cur, rest)[i][0])
    decreases |rest|
  {
    if rest == [] {
    } else if IsUpper(rest[0]) {
      var tail := Pieces(rest[..1], rest[1..]);
      PiecesShape(rest[..1], rest[1..]);
      assert Pieces(cur, rest) == [cur] + tail;
      assert Concat([cur] + tail) == cur + Concat(tail);
      assert rest[..1] + rest[1..] == rest;
      assert tail[0][..1] == rest[..1];
    } else {
      var cur' := cur + rest[..1];
      PiecesShape(cur', rest[1..]);
      assert cur' + rest[1..] == cur + rest;
      assert cur'[..1] == cur[..1];
    }
  }

  lemma SplitShape(name: string)
    requires name != []
    ensures Concat(SplitBeforeUpper(name)) == name
    ensures forall i :: 0 <= i < |SplitBeforeUpper(name)| ==> |SplitBeforeUpper(name)[i]| > 0
    ensures forall i :: 1 <= i < |SplitBeforeUpper(name)| ==> IsUpper(SplitBeforeUpper(name)[i][0])
    ensures forall i, k :: 0 <= i < |SplitBeforeUpper(name)| && 1 <= k < |SplitBeforeUpper(name)[i]| ==>
              !IsUpper(SplitBeforeUpper(name)[i][k])
  {
    PiecesShape(name[..1], name[1..]);
    assert name[..1] + name[1..] == name;
  }

  // ---------------------------------------------------------------------------
  // Worked examples

  lemma MyWidgetExample(name: string)
    requires name == "MyWidget"
    ensures TagName(name) == "my-widget"
  {
    TagNameIsKebab(name);
    assert Kebab("MyWidget") == "my-widget";
  }

  lemma CounterExample(name: string)
    requires name == "Counter"
    ensures TagName(name) == "counter"
  {
    TagNameIsKebab(name);
    assert Kebab("Counter") == "counter";
  }
}
