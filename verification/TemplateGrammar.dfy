/** The HTTP template grammar of http_template.cc: syntax trees, their printed form,
    what they mean to the matcher, and a recursive-descent reading of the grammar that is
    proved to be the exact inverse of printing. */
module TemplateGrammar {
  import opened Wrappers

  /** Field(f) is a variable without a sub-template, {f}; Var(f, xs) is {f=xs}. */
  datatype Segment =
    | Star
    | Deep
    | Lit(text: string)
    | Field(field: seq<string>)
    | Var(field: seq<string>, sub: seq<Segment>)

  /** A template; an empty verb stands for no verb. */
  datatype Template = Template(segments: seq<Segment>, verb: string)

  const LITERAL_STOP: set<char> := {'/', ':', '}'}
  const IDENT_STOP: set<char> := {'.', '}', '='}

  // ---------- well-formed trees

  predicate Avoids(s: string, stop: set<char>) {
    forall i :: 0 <= i < |s| ==> s[i] !in stop
  }

  predicate IsLiteral(s: string) {
    s != "" && Avoids(s, LITERAL_STOP)
  }

  predicate IsIdent(s: string) {
    s != "" && Avoids(s, IDENT_STOP)
  }

  predicate IsField(field: seq<string>) {
    field != [] && forall i :: 0 <= i < |field| ==> IsIdent(field[i])
  }

  /** Variables do not nest; a literal segment does not start like a wildcard or a variable. */
  predicate WellFormedSegment(x: Segment, inVariable: bool)
    decreases x, 1
  {
    match x
    case Star => true
    case Deep => true
    case Lit(text) => IsLiteral(text) && text[0] != '*' && text[0] != '{'
    case Field(field) => !inVariable && IsField(field)
    case Var(field, sub) => !inVariable && IsField(field) && sub != [] && WellFormedSegments(sub, true)
  }

  predicate WellFormedSegments(xs: seq<Segment>, inVariable: bool)
    decreases xs, 0
  {
    xs == [] || (WellFormedSegment(xs[0], inVariable) && WellFormedSegments(xs[1..], inVariable))
  }

  predicate WellFormed(t: Template) {
    && t.segments != [] && WellFormedSegments(t.segments, false)
    && (t.verb != "" ==> IsLiteral(t.verb))
  }

  // ---------- printing

  function PrintField(field: seq<string>): string {
    if field == [] then ""
    else if |field| == 1 then field[0]
    else field[0] + "." + PrintField(field[1..])
  }

  function PrintSegment(x: Segment): string
    decreases x, 1
  {
    match x
    case Star => "*"
    case Deep => "**"
    case Lit(text) => text
    case Field(field) => "{" + PrintField(field) + "}"
    case Var(field, sub) => "{" + PrintField(field) + "=" + PrintSegments(sub) + "}"
  }

  function PrintSegments(xs: seq<Segment>): string
    decreases xs, 0
  {
    if xs == [] then ""
    else if |xs| == 1 then PrintSegment(xs[0])
    else PrintSegment(xs[0]) + "/" + PrintSegments(xs[1..])
  }

  function Print(t: Template): string {
    "/" + PrintSegments(t.segments) + (if t.verb == "" then "" else ":" + t.verb)
  }

  // ---------- reading

  /** The length of the longest prefix without a stop character. */
  function Span(s: string, stop: set<char>): (n: nat)
    ensures n <= |s|
  {
    if s == "" || s[0] in stop then 0 else 1 + Span(s[1..], stop)
  }

  predicate StartsWith(s: string, c: char) {
    s != "" && s[0] == c
  }

  function ReadField(s: string): Option<(seq<string>, string)>
    decreases |s|
  {
    var n := Span(s, IDENT_STOP);
    if n == 0 then None
    else if !StartsWith(s[n..], '.') then Some(([s[..n]], s[n..]))
    else
      var more := ReadField(s[n + 1..]);
      if more.None? then None else Some(([s[..n]] + more.value.0, more.value.1))
  }

  function ReadVariable(s: string): (r: Option<(Segment, string)>)
    ensures r.Some? ==> |r.value.1| < |s|
    decreases |s|, 0
  {
    var field := ReadField(s);
    if field.None? then None
    else
      assert |field.value.1| < |s| by { ReadFieldShrinks(s); }
      var rest := field.value.1;
      if StartsWith(rest, '=') then
        var sub := ReadSegments(rest[1..], true);
        if sub.None? || !StartsWith(sub.value.1, '}') then None
        else Some((Var(field.value.0, sub.value.0), sub.value.1[1..]))
      else if StartsWith(rest, '}') then Some((Field(field.value.0), rest[1..]))
      else None
  }

  function ReadSegment(s: string, inVariable: bool): (r: Option<(Segment, string)>)
    ensures r.Some? ==> |r.value.1| < |s|
    decreases |s|, 1
  {
    if s == "" then None
    else if s[0] == '*' then
      if StartsWith(s[1..], '*') then Some((Deep, s[2..])) else Some((Star, s[1..]))
    else if s[0] == '{' then
      if inVariable then None else ReadVariable(s[1..])
    else
      var n := Span(s, LITERAL_STOP);
      if n == 0 then None else Some((Lit(s[..n]), s[n..]))
  }

  /** Reads the segments after a first one: each is announced by a '/'. */
  function ReadMore(s: string, inVariable: bool): (r: Option<(seq<Segment>, string)>)
    ensures r.Some? ==> |r.value.1| <= |s|
    decreases |s|, 0
  {
    if StartsWith(s, '/') then ReadSegments(s[1..], inVariable) else Some(([], s))
  }

  function ReadSegments(s: string, inVariable: bool): (r: Option<(seq<Segment>, string)>)
    ensures r.Some? ==> |r.value.1| < |s|
    decreases |s|, 2
  {
    var first := ReadSegment(s, inVariable);
    if first.None? then None
    else
      var more := ReadMore(first.value.1, inVariable);
      if more.None? then None else Some(([first.value.0] + more.value.0, more.value.1))
  }

  function ReadVerb(s: string): Option<string> {
    if s == "" then Some("")
    else if s[0] != ':' then None
    else if |s| == 1 || Span(s[1..], LITERAL_STOP) < |s| - 1 then None
    else Some(s[1..])
  }

  function Read(s: string): Option<Template> {
    if !StartsWith(s, '/') then None
    else
      var segments := ReadSegments(s[1..], false);
      if segments.None? then None
      else
        var verb := ReadVerb(segments.value.1);
        if verb.None? then None else Some(Template(segments.value.0, verb.value))
  }

  // ---------- Span

  lemma {:induction false} SpanStops(s: string, stop: set<char>)
    ensures Avoids(s[..Span(s, stop)], stop)
    ensures Span(s, stop) < |s| ==> s[Span(s, stop)] in stop
  {
    if s != "" && s[0] !in stop {
      SpanStops(s[1..], stop);
      assert s[..Span(s, stop)] == [s[0]] + s[1..][..Span(s[1..], stop)];
    }
  }

  lemma {:induction false} SpanOf(x: string, r: string, stop: set<char>)
    requires Avoids(x, stop)
    requires r == "" || r[0] in stop
    ensures Span(x + r, stop) == |x|
  {
    if x == "" {
      assert x + r == r;
    } else {
      assert x[0] !in stop;
      assert (x + r)[1..] == x[1..] + r;
      SpanOf(x[1..], r, stop);
    }
  }

  lemma {:induction false} ReadFieldShrinks(s: string)
    ensures ReadField(s).Some? ==> |ReadField(s).value.1| < |s|
    decreases |s|
  {
    var n := Span(s, IDENT_STOP);
    if n > 0 && StartsWith(s[n..], '.') {
      ReadFieldShrinks(s[n + 1..]);
    }
  }

  // ---------- what is read is what was printed

  lemma FieldText(id: string, more: string, r: string)
    ensures id + ("." + (more + r)) == id + "." + more + r
  {
  }

  lemma {:induction false} ReadFieldSound(s: string)
    requires ReadField(s).Some?
    ensures var (field, r) := ReadField(s).value; IsField(field) && s == PrintField(field) + r
    decreases |s|
  {
    var n := Span(s, IDENT_STOP);
    SpanStops(s, IDENT_STOP);
    assert s == s[..n] + s[n..];
    if StartsWith(s[n..], '.') {
      ReadFieldSound(s[n + 1..]);
      var (more, r) := ReadField(s[n + 1..]).value;
      assert ([s[..n]] + more)[1..] == more;
      assert s[n..] == "." + s[n + 1..];
      FieldText(s[..n], PrintField(more), r);
    }
  }

  lemma {:induction false} ReadSegmentSound(s: string, inVariable: bool)
    requires ReadSegment(s, inVariable).Some?
    ensures var (x, r) := ReadSegment(s, inVariable).value;
            WellFormedSegment(x, inVariable) && s == PrintSegment(x) + r
    decreases |s|, 1
  {
    if s[0] == '*' {
      if StartsWith(s[1..], '*') { assert s == "**" + s[2..]; } else { assert s == "*" + s[1..]; }
    } else if s[0] == '{' {
      ReadVariableSound(s[1..]);
      var (x, r) := ReadSegment(s, inVariable).value;
      assert s == "{" + s[1..];
    } else {
      SpanStops(s, LITERAL_STOP);
    }
  }

  lemma VariableText(field: string, sub: string, r: string)
    ensures "{" + (field + ("=" + (sub + ("}" + r)))) == "{" + field + "=" + sub + "}" + r
    ensures "{" + (field + ("}" + r)) == "{" + field + "}" + r
  {
  }

  lemma {:induction false} ReadVariableSound(s: string)
    requires ReadVariable(s).Some?
    ensures var (x, r) := ReadVariable(s).value;
            WellFormedSegment(x, false) && "{" + s == PrintSegment(x) + r
    decreases |s|, 0
  {
    var (field, rest) := ReadField(s).value;
    ReadFieldSound(s);
    ReadFieldShrinks(s);
    var (x, r) := ReadVariable(s).value;
    if StartsWith(rest, '=') {
      var (sub, end) := ReadSegments(rest[1..], true).value;
      ReadSegmentsSound(rest[1..], true);
      assert end == "}" + r;
      assert rest == "=" + rest[1..];
      VariableText(PrintField(field), PrintSegments(sub), r);
    } else {
      assert rest == "}" + r;
      VariableText(PrintField(field), "", r);
    }
  }

  lemma SegmentsText(x: string, xs: string, r: string)
    ensures x + ("/" + (xs + r)) == x + "/" + xs + r
  {
  }

  lemma {:induction false} ReadSegmentsSound(s: string, inVariable: bool)
    requires ReadSegments(s, inVariable).Some?
    ensures var (xs, r) := ReadSegments(s, inVariable).value;
            && xs != [] && WellFormedSegments(xs, inVariable)
            && s == PrintSegments(xs) + r
    decreases |s|, 2
  {
    var (x, rest) := ReadSegment(s, inVariable).value;
    ReadSegmentSound(s, inVariable);
    var (more, r) := ReadMore(rest, inVariable).value;
    assert ([x] + more)[1..] == more;
    if StartsWith(rest, '/') {
      ReadSegmentsSound(rest[1..], inVariable);
      assert rest == "/" + rest[1..];
      SegmentsText(PrintSegment(x), PrintSegments(more), r);
    }
  }

  // ---------- what is printed is read back

  lemma ReadFieldLast(id: string, r: string)
    requires IsIdent(id) && (r == "" || r[0] == '=' || r[0] == '}')
    ensures ReadField(id + r) == Some(([id], r))
  {
    SpanOf(id, r, IDENT_STOP);
    assert (id + r)[..|id|] == id && (id + r)[|id|..] == r;
  }

  lemma ReadFieldOneMore(id: string, rest: string)
    requires IsIdent(id) && ReadField(rest).Some?
    ensures ReadField(id + ("." + rest)) == Some(([id] + ReadField(rest).value.0, ReadField(rest).value.1))
  {
    var s := id + ("." + rest);
    assert Span(s, IDENT_STOP) == |id| by { SpanOf(id, "." + rest, IDENT_STOP); }
    DotText(id, rest);
  }

  lemma DotText(id: string, rest: string)
    ensures var s := id + ("." + rest);
            s[..|id|] == id && s[|id|..] == "." + rest && s[|id| + 1..] == rest && ("." + rest)[1..] == rest
  {
  }

  lemma PrintFieldMore(id: string, rest: seq<string>, r: string)
    requires rest != []
    ensures PrintField([id] + rest) + r == id + ("." + (PrintField(rest) + r))
  {
    assert ([id] + rest)[1..] == rest;
    FieldText(id, PrintField(rest), r);
  }

  lemma ReadFieldLonger(id: string, rest: seq<string>, r: string)
    requires IsIdent(id) && rest != [] && ReadField(PrintField(rest) + r) == Some((rest, r))
    ensures ReadField(PrintField([id] + rest) + r) == Some(([id] + rest, r))
  {
    PrintFieldMore(id, rest, r);
    ReadFieldOneMore(id, PrintField(rest) + r);
  }

  lemma {:induction false} ReadFieldComplete(field: seq<string>, r: string)
    requires IsField(field)
    requires r == "" || r[0] == '=' || r[0] == '}'
    ensures ReadField(PrintField(field) + r) == Some((field, r))
    decreases |field|
  {
    var id, rest := field[0], field[1..];
    assert IsIdent(id) && field == [id] + rest;
    if |field| == 1 {
      ReadFieldLast(id, r);
      assert field == [id] && PrintField(field) == id;
    } else {
      assert forall i :: 0 <= i < |rest| ==> rest[i] == field[i + 1];
      ReadFieldComplete(rest, r);
      ReadFieldLonger(id, rest, r);
    }
  }

  /** What may follow a list of segments: the end, a verb or the end of a variable. */
  predicate EndsSegments(r: string) {
    r == "" || r[0] == ':' || r[0] == '}'
  }

  lemma {:induction false} ReadSegmentComplete(x: Segment, inVariable: bool, r: string)
    requires WellFormedSegment(x, inVariable)
    requires EndsSegments(r) || r[0] == '/'
    ensures ReadSegment(PrintSegment(x) + r, inVariable) == Some((x, r))
    decreases x, 1
  {
    match x
    case Star => assert ("*" + r)[1..] == r;
    case Deep => assert ("**" + r)[1..] == "*" + r; assert ("**" + r)[2..] == r;
    case Lit(text) => SpanOf(text, r, LITERAL_STOP); assert text[0] !in LITERAL_STOP;
    case Field(field) => ReadFieldVariable(field, r);
    case Var(field, sub) =>
      ReadSegmentsComplete(sub, true, "}" + r);
      ReadSubVariable(field, sub, r);
  }

  lemma ReadFieldVariable(field: seq<string>, r: string)
    requires IsField(field)
    ensures ReadSegment(PrintSegment(Field(field)) + r, false) == Some((Field(field), r))
  {
    VariableText(PrintField(field), "", r);
    var s := PrintField(field) + ("}" + r);
    assert ("{" + s)[1..] == s;
    ReadFieldComplete(field, "}" + r);
    assert ("}" + r)[1..] == r;
  }

  /** The text of a variable after its '{'. */
  lemma ReadVariableComplete(field: seq<string>, sub: seq<Segment>, r: string)
    requires IsField(field)
    requires ReadSegments(PrintSegments(sub) + ("}" + r), true) == Some((sub, "}" + r))
    ensures ReadVariable(PrintField(field) + ("=" + (PrintSegments(sub) + ("}" + r)))) == Some((Var(field, sub), r))
  {
    var inner := PrintSegments(sub) + ("}" + r);
    ReadFieldComplete(field, "=" + inner);
    assert ("=" + inner)[1..] == inner;
    assert ("}" + r)[1..] == r;
  }

  lemma ReadSubVariable(field: seq<string>, sub: seq<Segment>, r: string)
    requires IsField(field)
    requires ReadSegments(PrintSegments(sub) + ("}" + r), true) == Some((sub, "}" + r))
    ensures ReadSegment(PrintSegment(Var(field, sub)) + r, false) == Some((Var(field, sub), r))
  {
    VariableText(PrintField(field), PrintSegments(sub), r);
    var s := PrintField(field) + ("=" + (PrintSegments(sub) + ("}" + r)));
    assert ("{" + s)[1..] == s;
    ReadVariableComplete(field, sub, r);
  }

  lemma {:induction false} ReadSegmentsComplete(xs: seq<Segment>, inVariable: bool, r: string)
    requires xs != [] && WellFormedSegments(xs, inVariable)
    requires EndsSegments(r)
    ensures ReadSegments(PrintSegments(xs) + r, inVariable) == Some((xs, r))
    decreases xs, 0
  {
    if |xs| == 1 {
      ReadSegmentComplete(xs[0], inVariable, r);
      assert xs == [xs[0]] + [];
    } else {
      var tail := "/" + (PrintSegments(xs[1..]) + r);
      SegmentsText(PrintSegment(xs[0]), PrintSegments(xs[1..]), r);
      ReadSegmentComplete(xs[0], inVariable, tail);
      assert tail[1..] == PrintSegments(xs[1..]) + r;
      ReadSegmentsComplete(xs[1..], inVariable, r);
      assert xs == [xs[0]] + xs[1..];
    }
  }

  lemma ReadVerbSound(r: string)
    requires ReadVerb(r).Some?
    ensures var verb := ReadVerb(r).value;
            (verb != "" ==> IsLiteral(verb)) && r == if verb == "" then "" else ":" + verb
  {
    if r != "" {
      SpanStops(r[1..], LITERAL_STOP);
      assert r == ":" + r[1..] && r[1..][..|r| - 1] == r[1..];
    }
  }

  lemma ReadVerbComplete(verb: string)
    requires verb != "" ==> IsLiteral(verb)
    ensures ReadVerb(if verb == "" then "" else ":" + verb) == Some(verb)
  {
    if verb != "" {
      assert (":" + verb)[1..] == verb && verb + "" == verb;
      SpanOf(verb, "", LITERAL_STOP);
    }
  }

  lemma ReadSound(s: string)
    requires Read(s).Some?
    ensures WellFormed(Read(s).value) && Print(Read(s).value) == s
  {
    ReadSegmentsSound(s[1..], false);
    var (xs, r) := ReadSegments(s[1..], false).value;
    ReadVerbSound(r);
    assert s == "/" + s[1..];
    TemplateText(PrintSegments(xs), r);
  }

  lemma TemplateText(xs: string, r: string)
    ensures "/" + (xs + r) == "/" + xs + r
  {
  }

  lemma ReadComplete(t: Template)
    requires WellFormed(t)
    ensures Read(Print(t)) == Some(t)
  {
    var r := if t.verb == "" then "" else ":" + t.verb;
    assert Print(t)[1..] == PrintSegments(t.segments) + r;
    ReadSegmentsComplete(t.segments, false, r);
    ReadVerbComplete(t.verb);
  }

  /** Reading accepts exactly the printed forms of well-formed templates, and returns the
      template that was printed; so no text has two readings. */
  lemma ReadIsInverseOfPrint(s: string, t: Template)
    ensures Read(s) == Some(t) <==> WellFormed(t) && Print(t) == s
  {
    if Read(s).Some? { ReadSound(s); }
    if WellFormed(t) { ReadComplete(t); }
  }
}
