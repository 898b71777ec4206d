/** The hand-written parser of http_template.cc, proved to read the grammar of module
    TemplateGrammar, and the matcher's view of a parsed template. */
module HttpTemplate {
  import opened Wrappers
  import opened PathTrie
  import opened TemplateGrammar

  /** A variable binds the segments [start, end); a negative end counts from the end of the
      request path, -1 being the end itself. */
  datatype Variable = Variable(start: int, end: int, field: seq<string>, hasDeep: bool)

  datatype HttpTemplate = HttpTemplate(segments: Path, verb: string, variables: seq<Variable>)

  // ---------- the meaning of a syntax tree

  function KeysOfSegment(x: Segment): Path
    decreases x, 1
  {
    match x
    case Star => [STAR]
    case Deep => [DEEP]
    case Lit(text) => [text]
    case Field(_) => [STAR]
    case Var(_, sub) => KeysOf(sub)
  }

  /** The keys of the trie path, variables flattened. */
  function KeysOf(xs: seq<Segment>): Path
    decreases xs, 0
  {
    if xs == [] then [] else KeysOfSegment(xs[0]) + KeysOf(xs[1..])
  }

  function VariablesOfSegment(x: Segment, base: nat): seq<Variable> {
    match x
    case Field(field) => [Variable(base, base + 1, field, false)]
    case Var(field, sub) => [Variable(base, base + |KeysOf(sub)|, field, Deep in sub)]
    case _ => []
  }

  /** The variables with the ranges of keys they span, base keys coming before. */
  function VariablesOf(xs: seq<Segment>, base: nat): seq<Variable> {
    if xs == [] then []
    else VariablesOfSegment(xs[0], base) + VariablesOf(xs[1..], base + |KeysOfSegment(xs[0])|)
  }

  /** The range of a variable that contains "**" is given relative to the end, where a verb
      takes one more request part. */
  function Relative(v: Variable, keys: nat, verb: string): Variable {
    if v.hasDeep then v.(end := v.end - keys - 1 - (if verb != "" then 1 else 0)) else v
  }

  function RelativeAll(vs: seq<Variable>, keys: nat, verb: string): (r: seq<Variable>)
    ensures |r| == |vs| && forall i :: 0 <= i < |vs| ==> r[i] == Relative(vs[i], keys, verb)
  {
    seq(|vs|, i requires 0 <= i < |vs| => Relative(vs[i], keys, verb))
  }

  function Compile(t: Template): HttpTemplate {
    var keys := KeysOf(t.segments);
    HttpTemplate(keys, t.verb, RelativeAll(VariablesOf(t.segments, 0), |keys|, t.verb))
  }

  /** What HttpTemplate::Parse returns. */
  function ParseTemplate(s: string): Option<HttpTemplate> {
    var t := Read(s);
    if t.None? || !ConstantsAfterDeep(KeysOf(t.value.segments)) then None else Some(Compile(t.value))
  }

  lemma {:induction false} KeysOfAppend(xs: seq<Segment>, x: Segment)
    ensures KeysOf(xs + [x]) == KeysOf(xs) + KeysOfSegment(x)
  {
    if xs == [] {
      assert [] + [x] == [x] && [x][1..] == [];
    } else {
      assert (xs + [x])[1..] == xs[1..] + [x];
      KeysOfAppend(xs[1..], x);
    }
  }

  lemma VariablesOfMore(first: Segment, rest: seq<Segment>, base: nat)
    ensures VariablesOf([first] + rest, base) ==
            VariablesOfSegment(first, base) + VariablesOf(rest, base + |KeysOfSegment(first)|)
    ensures |KeysOf([first] + rest)| == |KeysOfSegment(first)| + |KeysOf(rest)|
  {
    assert ([first] + rest)[1..] == rest;
  }

  lemma {:induction false} VariablesOfAppend(xs: seq<Segment>, x: Segment, base: nat)
    ensures VariablesOf(xs + [x], base) == VariablesOf(xs, base) + VariablesOfSegment(x, base + |KeysOf(xs)|)
    decreases |xs|
  {
    if xs == [] {
      assert [] + [x] == [x];
      VariablesOfOne(x, base);
    } else {
      var first, rest := xs[0], xs[1..];
      var next := base + |KeysOfSegment(first)|;
      assert xs == [first] + rest && xs + [x] == [first] + (rest + [x]);
      VariablesOfMore(first, rest, base);
      VariablesOfMore(first, rest + [x], base);
      VariablesOfAppend(rest, x, next);
      ConcatAssoc(VariablesOfSegment(first, base), VariablesOf(rest, next),
                  VariablesOfSegment(x, next + |KeysOf(rest)|));
    }
  }

  // ---------- the parser

  /** In a variable, a "**" marks the variable being read. */
  function Marked(vs: seq<Variable>, deep: bool): seq<Variable>
    requires vs != []
  {
    if deep then vs[|vs| - 1 := vs[|vs| - 1].(hasDeep := true)] else vs
  }

  /** The variables after reading one segment. */
  function UpdatedBy(vs: seq<Variable>, x: Segment, base: nat, inVariable: bool): seq<Variable>
    requires inVariable ==> vs != []
  {
    if inVariable then Marked(vs, x == Deep) else vs + VariablesOfSegment(x, base)
  }

  /** The variables after reading segments. */
  function Updated(vs: seq<Variable>, xs: seq<Segment>, base: nat, inVariable: bool): seq<Variable>
    requires inVariable ==> vs != []
  {
    if inVariable then Marked(vs, Deep in xs) else vs + VariablesOf(xs, base)
  }

  class Parser {
    const input: string
    var tb: nat
    var te: nat
    var inVariable: bool
    var segments: Path
    var verb: string
    var variables: seq<Variable>

    /** One character of lookahead, never past the end. */
    ghost predicate Valid()
      reads this
    {
      && tb <= te <= tb + 1 && te <= |input|
      && (inVariable ==> variables != [])
    }

    ghost function Rest(): string
      requires Valid()
      reads this
    {
      input[tb..]
    }

    constructor (s: string)
      ensures Valid() && input == s && Rest() == s
      ensures !inVariable && segments == [] && variables == [] && verb == ""
    {
      input, tb, te, inVariable := s, 0, 0, false;
      segments, verb, variables := [], "", [];
    }

    // ---------- characters

    method NextChar() returns (ok: bool)
      requires Valid() && tb == te
      modifies this`te
      ensures Valid() && ok == (Rest() != "") && (ok ==> te == tb + 1) && (!ok ==> te == tb)
    {
      ok := te < |input|;
      if ok { te := te + 1; }
    }

    method EnsureCurrent() returns (ok: bool)
      requires Valid()
      modifies this`te
      ensures Valid() && ok == (Rest() != "") && (ok ==> tb < te)
    {
      ok := true;
      if tb >= te { ok := NextChar(); }
    }

    function CurrentChar(): (c: char)
      requires Valid() && tb < te
      reads this
      ensures c == Rest()[0]
    {
      input[te - 1]
    }

    method Consume(c: char) returns (ok: bool)
      requires Valid()
      modifies this`tb, this`te
      ensures Valid() && ok == StartsWith(old(Rest()), c)
      ensures ok ==> tb == te && Rest() == old(Rest())[1..] && tb == old(tb) + 1
      ensures !ok ==> tb == old(tb)
    {
      if tb >= te {
        ok := NextChar();
        if !ok { return; }
      }
      ok := CurrentChar() == c;
      if ok { tb := tb + 1; }
    }

    // ---------- tokens

    method ParseLiteral() returns (ok: bool, lit: string)
      requires Valid()
      modifies this`tb, this`te
      ensures Valid() && old(tb) <= tb
      ensures ok == (Span(old(Rest()), LITERAL_STOP) > 0)
      ensures ok ==> var n := Span(old(Rest()), LITERAL_STOP); lit == old(Rest())[..n] && Rest() == old(Rest())[n..]
    {
      lit := "";
      ok := EnsureCurrent();
      if !ok { return; }
      ok := false;
      ghost var start := Rest();
      while true
        invariant Valid() && old(tb) <= tb && tb < te && start == old(Rest())
        invariant Reading(start, lit, Rest(), LITERAL_STOP) && ok == (lit != "")
        decreases |input| - tb
      {
        var c := CurrentChar();
        if c in LITERAL_STOP {
          ReadingEnds(start, lit, Rest(), LITERAL_STOP);
          return;
        }
        ReadingStep(start, lit, Rest(), LITERAL_STOP);
        var _ := Consume(c);
        lit := lit + [c];
        ok := true;
        var more := NextChar();
        if !more {
          ReadingEnds(start, lit, Rest(), LITERAL_STOP);
          return;
        }
      }
    }

    method ParseIdentifier() returns (ok: bool)
      requires Valid() && inVariable && tb == te
      modifies this`tb, this`te, this`variables
      ensures Valid() && old(tb) <= tb
      ensures ok == (Span(old(Rest()), IDENT_STOP) > 0)
      ensures ok ==> var n := Span(old(Rest()), IDENT_STOP);
                     && Rest() == old(Rest())[n..]
                     && variables == WithIdent(old(variables), old(Rest())[..n])
    {
      var idf := ScanIdentifier();
      ok := idf != "";
      if ok {
        variables := WithIdent(variables, idf);
      }
    }

    /** The loop of ParseIdentifier. */
    method ScanIdentifier() returns (idf: string)
      requires Valid() && tb == te
      modifies this`tb, this`te
      ensures Valid() && old(tb) <= tb
      ensures var n := Span(old(Rest()), IDENT_STOP);
              idf == old(Rest())[..n] && |idf| == n && Rest() == old(Rest())[n..]
    {
      idf := "";
      ghost var start := Rest();
      while true
        invariant Valid() && old(tb) <= tb == te && start == old(Rest())
        invariant Reading(start, idf, Rest(), IDENT_STOP)
        decreases |input| - tb
      {
        var more := NextChar();
        if !more {
          ReadingEnds(start, idf, Rest(), IDENT_STOP);
          return;
        }
        var c := CurrentChar();
        if c in IDENT_STOP {
          ReadingEnds(start, idf, Rest(), IDENT_STOP);
          return;
        }
        ReadingStep(start, idf, Rest(), IDENT_STOP);
        var _ := Consume(c);
        idf := idf + [c];
      }
    }

    // ---------- the grammar

    method ParseFieldPath() returns (ok: bool)
      requires Valid() && inVariable && tb == te
      requires variables[|variables| - 1].field == []
      modifies this`tb, this`te, this`variables
      ensures Valid() && old(tb) <= tb
      ensures ok == ReadField(old(Rest())).Some?
      ensures ok ==> var (field, r) := ReadField(old(Rest())).value;
                     Rest() == r && variables == WithField(old(variables), field)
    {
      ghost var start := Rest();
      ReadFieldStep(start);
      ok := ParseIdentifier();
      if !ok { return; }
      ghost var done := [start[..Span(start, IDENT_STOP)]];
      WithIdentAfterField(old(variables), [], done[0]);
      assert [] + done == done && WithField(old(variables), []) == old(variables);
      while true
        invariant Valid() && old(tb) <= tb
        invariant variables == WithField(old(variables), done)
        invariant ReadField(start) == JoinField(done, ReadFieldMore(Rest()))
        decreases |input| - tb
      {
        var dot := Consume('.');
        if !dot { break; }
        ghost var here := Rest();
        ReadFieldStep(here);
        ok := ParseIdentifier();
        if !ok { return; }
        WithIdentAfterField(old(variables), done, here[..Span(here, IDENT_STOP)]);
        JoinFieldAssoc(done, here[..Span(here, IDENT_STOP)], ReadFieldMore(Rest()));
        done := done + [here[..Span(here, IDENT_STOP)]];
      }
      assert done + [] == done;
    }

    method StartVariable() returns (ok: bool)
      requires Valid()
      modifies this`variables, this`inVariable
      ensures Valid() && ok == !old(inVariable)
      ensures ok ==> inVariable && variables == old(variables) + [Variable(|segments|, 0, [], false)]
    {
      ok := !inVariable;
      if ok {
        variables := variables + [Variable(|segments|, 0, [], false)];
        inVariable := true;
      }
    }

    method EndVariable() returns (ok: bool)
      requires Valid() && inVariable
      modifies this`variables, this`inVariable
      ensures Valid() && !inVariable
      ensures var last := old(variables)[|old(variables)| - 1];
              && variables == old(variables)[..|old(variables)| - 1] + [last.(end := |segments|)]
              && ok == (last.field != [] && last.start < |segments|)
    {
      var last := variables[|variables| - 1].(end := |segments|);
      variables := variables[..|variables| - 1] + [last];
      inVariable := false;
      ok := last.field != [] && last.start < last.end <= |segments|;
    }

    /** The first part of ParseVariable: '{' and the field path. */
    method OpenVariable() returns (ok: bool)
      requires Valid() && StartsWith(Rest(), '{')
      modifies this`tb, this`te, this`variables, this`inVariable
      ensures Valid() && old(tb) < tb
      ensures ok == (!old(inVariable) && ReadField(old(Rest())[1..]).Some?)
      ensures ok ==> var (field, r) := ReadField(old(Rest())[1..]).value;
                     && Rest() == r && inVariable && field != []
                     && variables == old(variables) + [Variable(|segments|, 0, field, false)]
    {
      var _ := Consume('{');
      ok := StartVariable();
      if !ok { return; }
      ghost var start := Rest();
      ok := ParseFieldPath();
      if !ok { return; }
      ReadFieldSound(start);
    }

    /** The second part of ParseVariable: the sub-template, "*" when there is none. */
    method ParseSubTemplate() returns (ok: bool)
      requires Valid() && inVariable
      modifies this
      ensures Valid() && old(tb) <= tb
      ensures ok == ReadSub(old(Rest())).Some?
      ensures ok ==> var (keys, deep, r) := ReadSub(old(Rest())).value;
                     && Rest() == r && inVariable && verb == old(verb)
                     && segments == old(segments) + keys && variables == Marked(old(variables), deep)
      decreases |input| - tb, 4
    {
      var hasSub := Consume('=');
      if !hasSub {
        segments := segments + [STAR];
        return true;
      }
      ok := ParseSegments();
    }

    /** Reads a variable at '{'; one inside another is rejected. */
    method ParseVariable() returns (ok: bool)
      requires Valid() && StartsWith(Rest(), '{')
      modifies this
      ensures Valid() && old(tb) <= tb
      ensures ok == (!old(inVariable) && ReadVariable(old(Rest())[1..]).Some?)
      ensures ok ==> var (x, r) := ReadVariable(old(Rest())[1..]).value;
                     && Rest() == r && !inVariable && verb == old(verb)
                     && segments == old(segments) + KeysOfSegment(x)
                     && variables == old(variables) + VariablesOfSegment(x, |old(segments)|)
      decreases |input| - tb, 1
    {
      ReadVariableParts(Rest()[1..], |segments|);
      ok := OpenAndFill();
      if !ok { return; }
      ok := CloseVariable(old(variables), variables[|variables| - 1]);
    }

    method OpenAndFill() returns (ok: bool)
      requires Valid() && StartsWith(Rest(), '{')
      modifies this
      ensures Valid() && old(tb) <= tb
      ensures var field := ReadField(old(Rest())[1..]);
              && ok == (!old(inVariable) && field.Some? && ReadSub(field.value.1).Some?)
              && (ok ==> var (keys, deep, r) := ReadSub(field.value.1).value;
                         && Rest() == r && inVariable && verb == old(verb) && field.value.0 != []
                         && segments == old(segments) + keys
                         && variables == old(variables) + [Variable(|old(segments)|, 0, field.value.0, deep)])
      decreases |input| - tb, 0
    {
      ok := OpenVariable();
      if !ok { return; }
      ok := ParseSubTemplate();
    }

    /** The last part of ParseVariable: the end of the open variable and '}'. */
    method CloseVariable(ghost before: seq<Variable>, ghost last: Variable) returns (ok: bool)
      requires Valid() && inVariable && variables == before + [last]
      requires last.field != [] && last.start < |segments|
      modifies this`tb, this`te, this`variables, this`inVariable
      ensures Valid() && old(tb) <= tb && !inVariable
      ensures variables == before + [last.(end := |segments|)]
      ensures ok == StartsWith(old(Rest()), '}') && (ok ==> Rest() == old(Rest())[1..])
    {
      assert variables[|variables| - 1] == last && variables[..|variables| - 1] == before;
      var _ := EndVariable();
      ok := Consume('}');
    }

    method ParseSegment() returns (ok: bool)
      requires Valid()
      modifies this
      ensures Valid() && old(tb) <= tb
      ensures ok == ReadSegment(old(Rest()), old(inVariable)).Some?
      ensures ok ==> var (x, r) := ReadSegment(old(Rest()), old(inVariable)).value;
                     && Rest() == r && inVariable == old(inVariable) && verb == old(verb)
                     && segments == old(segments) + KeysOfSegment(x)
                     && variables == UpdatedBy(old(variables), x, |old(segments)|, inVariable)
      decreases |input| - tb, 2
    {
      ok := EnsureCurrent();
      if !ok { return; }
      match CurrentChar() {
        case '*' =>
          var _ := Consume('*');
          var second := Consume('*');
          if second {
            segments := segments + [DEEP];
            if inVariable {
              variables := Marked(variables, true);
            }
          } else {
            segments := segments + [STAR];
          }
        case '{' =>
          ok := ParseVariable();
        case _ =>
          var lit;
          ok, lit := ParseLiteral();
          if ok {
            segments := segments + [lit];
          }
      }
    }

    method ParseSegments() returns (ok: bool)
      requires Valid()
      modifies this
      ensures Valid() && old(tb) <= tb
      ensures ok == ReadSegments(old(Rest()), old(inVariable)).Some?
      ensures ok ==> var (xs, r) := ReadSegments(old(Rest()), old(inVariable)).value;
                     && Rest() == r && inVariable == old(inVariable) && verb == old(verb)
                     && segments == old(segments) + KeysOf(xs)
                     && variables == Updated(old(variables), xs, |old(segments)|, inVariable)
      decreases |input| - tb, 3
    {
      ok := ParseSegment();
      if !ok { return; }
      ghost var x := ReadSegment(old(Rest()), old(inVariable)).value.0;
      KeysOfAppend([], x);
      UpdatedOne(old(variables), x, |old(segments)|, old(inVariable));
      assert [] + [x] == [x];
      ok := ParseMoreSegments(old(segments), old(variables), [x]);
    }

    /** The loop of ParseSegments: segments as long as a '/' announces one. */
    method ParseMoreSegments(ghost segs: Path, ghost vars: seq<Variable>, ghost read: seq<Segment>) returns (ok: bool)
      requires Valid() && (inVariable ==> vars != [])
      requires segments == segs + KeysOf(read) && variables == Updated(vars, read, |segs|, inVariable)
      modifies this
      ensures Valid() && old(tb) <= tb
      ensures var whole := Prepend(read, ReadMore(old(Rest()), old(inVariable)));
              && ok == whole.Some?
              && (ok ==> var (xs, r) := whole.value;
                         && Rest() == r && inVariable == old(inVariable) && verb == old(verb)
                         && segments == segs + KeysOf(xs)
                         && variables == Updated(vars, xs, |segs|, inVariable))
      decreases |input| - tb, 3
    {
      ghost var v, xs := inVariable, read;
      ghost var whole := Prepend(read, ReadMore(Rest(), v));
      while true
        invariant Valid() && old(tb) <= tb && inVariable == v && verb == old(verb)
        invariant segments == segs + KeysOf(xs)
        invariant variables == Updated(vars, xs, |segs|, v)
        invariant whole == Prepend(xs, ReadMore(Rest(), v))
        decreases |input| - tb
      {
        var slash := Consume('/');
        if !slash { break; }
        ghost var here := Rest();
        ReadSegmentsStep(here, v);
        ok := ParseSegment();
        if !ok { return; }
        ghost var x := ReadSegment(here, v).value.0;
        OneMoreSegment(segs, vars, xs, x, v);
        PrependAssoc(xs, x, ReadMore(Rest(), v));
        xs := xs + [x];
      }
      assert xs + [] == xs;
      ok := true;
    }

    method ParseVerb() returns (ok: bool)
      requires Valid() && StartsWith(Rest(), ':') && verb == ""
      modifies this`tb, this`te, this`verb
      ensures Valid() && old(tb) <= tb
      ensures ok == (Span(old(Rest())[1..], LITERAL_STOP) > 0)
      ensures ok ==> var n := Span(old(Rest())[1..], LITERAL_STOP);
                     verb == old(Rest())[1..][..n] && Rest() == old(Rest())[1..][n..]
    {
      var _ := Consume(':');
      var lit;
      ok, lit := ParseLiteral();
      if ok { verb := lit; }
    }

    method ParseWhole() returns (ok: bool)
      requires Valid() && tb == 0 && !inVariable && segments == [] && variables == [] && verb == ""
      modifies this
      ensures ok == Read(input).Some?
      ensures ok ==> var t := Read(input).value;
                     segments == KeysOf(t.segments) && verb == t.verb && variables == VariablesOf(t.segments, 0)
    {
      assert Rest() == input;
      ok := Consume('/');
      if !ok { return; }
      ghost var body := Rest();
      ok := ParseSegments();
      if !ok { return; }
      var xs := ReadSegments(body, false).value.0;
      assert [] + KeysOf(xs) == KeysOf(xs) && [] + VariablesOf(xs, 0) == VariablesOf(xs, 0);
      ghost var tail := Rest();
      var current := EnsureCurrent();
      if current && CurrentChar() == ':' {
        ok := ParseVerb();
        if !ok { return; }
        assert Span(tail[1..], LITERAL_STOP) == |tail| - 1 ==> tail[1..][..|tail| - 1] == tail[1..];
      }
      ok := tb >= |input|;
    }

    /** The loop of PostProcessVariables. */
    method PostProcessVariables()
      modifies this`variables
      ensures variables == RelativeAll(old(variables), |segments|, verb)
    {
      for i := 0 to |variables|
        invariant |variables| == |old(variables)|
        invariant forall j :: 0 <= j < i ==> variables[j] == Relative(old(variables)[j], |segments|, verb)
        invariant forall j :: i <= j < |variables| ==> variables[j] == old(variables)[j]
      {
        var v := variables[i];
        if v.hasDeep {
          v := v.(end := v.end - |segments| - 1);
          if verb != "" {
            v := v.(end := v.end - 1);
          }
          variables := variables[i := v];
        }
      }
    }

    /** The loop of ValidateParts. */
    method ValidateParts() returns (ok: bool)
      ensures ok == ConstantsAfterDeep(segments)
    {
      var found := false;
      for i := 0 to |segments|
        invariant found ==> (AllConstant(segments[i..]) <==> ConstantsAfterDeep(segments))
        invariant !found ==> (ConstantsAfterDeep(segments[i..]) <==> ConstantsAfterDeep(segments))
      {
        assert segments[i..] == [segments[i]] + segments[i + 1..];
        if !found {
          if segments[i] == DEEP { found := true; }
        } else if IsWild(segments[i]) {
          return false;
        }
      }
      return true;
    }
  }

  /** HttpTemplate::Parse. */
  method Parse(s: string) returns (r: Option<HttpTemplate>)
    ensures r == ParseTemplate(s)
  {
    var p := new Parser(s);
    var ok := p.ParseWhole();
    if !ok { return None; }
    p.PostProcessVariables();
    ok := p.ValidateParts();
    r := if ok then Some(HttpTemplate(p.segments, p.verb, p.variables)) else None;
  }

  // ---------- lemmas for the parser

  /** A token has been read from the start as far as rest, and goes on there. */
  ghost predicate Reading(start: string, token: string, rest: string, stop: set<char>) {
    start == token + rest && Span(start, stop) == |token| + Span(rest, stop)
  }

  lemma ReadingStep(start: string, token: string, rest: string, stop: set<char>)
    requires Reading(start, token, rest, stop) && rest != "" && rest[0] !in stop
    ensures Reading(start, token + [rest[0]], rest[1..], stop)
  {
    assert token + rest == token + [rest[0]] + rest[1..];
  }

  lemma ReadingEnds(start: string, token: string, rest: string, stop: set<char>)
    requires Reading(start, token, rest, stop) && (rest == "" || rest[0] in stop)
    ensures Span(start, stop) == |token| && start[..|token|] == token && start[|token|..] == rest
  {
  }

  /** What the sub-template of a variable contributes: its keys and whether it has a "**". */
  ghost function ReadSub(s: string): Option<(Path, bool, string)> {
    if !StartsWith(s, '=') then Some(([STAR], false, s))
    else
      var sub := ReadSegments(s[1..], true);
      if sub.None? then None else Some((KeysOf(sub.value.0), Deep in sub.value.0, sub.value.1))
  }

  lemma ReadVariableParts(s: string, base: nat)
    ensures ReadVariable(s).Some? <==>
              ReadField(s).Some? && ReadSub(ReadField(s).value.1).Some?
              && StartsWith(ReadSub(ReadField(s).value.1).value.2, '}')
    ensures ReadField(s).Some? && ReadSub(ReadField(s).value.1).Some? ==>
              ReadSub(ReadField(s).value.1).value.0 != []
    ensures ReadVariable(s).Some? ==>
              var (x, r) := ReadVariable(s).value;
              var (keys, deep, end) := ReadSub(ReadField(s).value.1).value;
              && r == end[1..] && KeysOfSegment(x) == keys
              && VariablesOfSegment(x, base) == [Variable(base, base + |keys|, ReadField(s).value.0, deep)]
  {
    if ReadField(s).Some? && StartsWith(ReadField(s).value.1, '=') {
      var inner := ReadField(s).value.1[1..];
      if ReadSegments(inner, true).Some? {
        ReadSegmentsSound(inner, true);
        KeysOfNonEmpty(ReadSegments(inner, true).value.0, true);
      }
    }
  }

  ghost function Prepend(xs: seq<Segment>, more: Option<(seq<Segment>, string)>): Option<(seq<Segment>, string)> {
    if more.None? then None else Some((xs + more.value.0, more.value.1))
  }

  lemma PrependAssoc(xs: seq<Segment>, x: Segment, more: Option<(seq<Segment>, string)>)
    ensures Prepend(xs, Prepend([x], more)) == Prepend(xs + [x], more)
  {
    if more.Some? { assert xs + ([x] + more.value.0) == xs + [x] + more.value.0; }
  }

  lemma ReadSegmentsStep(s: string, v: bool)
    ensures ReadSegments(s, v) == if ReadSegment(s, v).None? then None
              else Prepend([ReadSegment(s, v).value.0], ReadMore(ReadSegment(s, v).value.1, v))
  {
  }

  lemma MarkedTwice(vs: seq<Variable>, a: bool, b: bool)
    requires vs != []
    ensures Marked(Marked(vs, a), b) == Marked(vs, a || b)
  {
  }

  lemma VariablesOfOne(x: Segment, base: nat)
    ensures VariablesOf([x], base) == VariablesOfSegment(x, base)
  {
    assert [x][1..] == [];
  }

  lemma UpdatedAppend(vs: seq<Variable>, xs: seq<Segment>, x: Segment, base: nat, v: bool)
    requires v ==> vs != []
    ensures Updated(vs, xs + [x], base, v) == UpdatedBy(Updated(vs, xs, base, v), x, base + |KeysOf(xs)|, v)
  {
    if v {
      assert Deep in xs + [x] <==> Deep in xs || x == Deep;
      MarkedTwice(vs, Deep in xs, x == Deep);
    } else {
      VariablesOfAppend(xs, x, base);
      ConcatAssoc(vs, VariablesOf(xs, base), VariablesOfSegment(x, base + |KeysOf(xs)|));
    }
  }

  lemma UpdatedOne(vs: seq<Variable>, x: Segment, base: nat, v: bool)
    requires v ==> vs != []
    ensures Updated(vs, [x], base, v) == UpdatedBy(vs, x, base, v)
  {
    if !v { VariablesOfOne(x, base); }
  }

  lemma OneMoreSegment(segs: Path, vs: seq<Variable>, xs: seq<Segment>, x: Segment, v: bool)
    requires v ==> vs != []
    ensures segs + KeysOf(xs + [x]) == segs + KeysOf(xs) + KeysOfSegment(x)
    ensures Updated(vs, xs + [x], |segs|, v) == UpdatedBy(Updated(vs, xs, |segs|, v), x, |segs + KeysOf(xs)|, v)
  {
    assert |segs + KeysOf(xs)| == |segs| + |KeysOf(xs)|;
    OneMoreKey(segs, xs, x);
    UpdatedAppend(vs, xs, x, |segs|, v);
  }

  lemma OneMoreKey(segs: Path, xs: seq<Segment>, x: Segment)
    ensures segs + KeysOf(xs + [x]) == segs + KeysOf(xs) + KeysOfSegment(x)
  {
    KeysOfAppend(xs, x);
    ConcatAssoc(segs, KeysOf(xs), KeysOfSegment(x));
  }

  lemma ConcatAssoc<T>(a: seq<T>, b: seq<T>, c: seq<T>)
    ensures a + (b + c) == a + b + c
  {
  }

  lemma KeysOfNonEmpty(xs: seq<Segment>, v: bool)
    requires xs != [] && WellFormedSegments(xs, v)
    ensures KeysOf(xs) != []
    decreases xs
  {
    if xs[0].Var? { KeysOfNonEmpty(xs[0].sub, true); }
  }

  function WithIdent(vs: seq<Variable>, id: string): seq<Variable>
    requires vs != []
  {
    vs[|vs| - 1 := vs[|vs| - 1].(field := vs[|vs| - 1].field + [id])]
  }

  function WithField(vs: seq<Variable>, field: seq<string>): seq<Variable>
    requires vs != []
  {
    vs[|vs| - 1 := vs[|vs| - 1].(field := field)]
  }

  ghost function ReadFieldMore(s: string): Option<(seq<string>, string)> {
    if StartsWith(s, '.') then ReadField(s[1..]) else Some(([], s))
  }

  lemma WithIdentAfterField(vs: seq<Variable>, done: seq<string>, id: string)
    requires vs != []
    ensures WithIdent(WithField(vs, done), id) == WithField(vs, done + [id])
  {
  }

  lemma ReadFieldStep(s: string)
    ensures var n := Span(s, IDENT_STOP);
            ReadField(s) == if n == 0 then None else JoinField([s[..n]], ReadFieldMore(s[n..]))
  {
    var n := Span(s, IDENT_STOP);
    if n > 0 && n < |s| {
      assert s[n..][1..] == s[n + 1..];
    }
    assert [s[..n]] + [] == [s[..n]];
  }

  lemma JoinFieldAssoc(done: seq<string>, id: string, more: Option<(seq<string>, string)>)
    ensures JoinField(done, JoinField([id], more)) == JoinField(done + [id], more)
  {
    if more.Some? { assert done + ([id] + more.value.0) == done + [id] + more.value.0; }
  }

  ghost function JoinField(done: seq<string>, more: Option<(seq<string>, string)>): Option<(seq<string>, string)> {
    if more.None? then None else Some((done + more.value.0, more.value.1))
  }
}
