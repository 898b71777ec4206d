/** The values that ExtractBindingsFromPath of path_matcher.h builds from the bound parts. */
module BindingValues {
  import opened PathTrie
  import opened TemplateGrammar
  import opened HttpTemplate
  import opened RequestPath
  import opened UrlEscape
  import opened Bindings

  datatype Binding = Binding(field: seq<string>, value: string)

  predicate RangeExists(v: Variable, n: nat) {
    0 <= v.start <= AbsoluteEnd(v, n) <= n
  }

  /** More than one part, or any match of a "**". */
  predicate IsMultipart(v: Variable, n: nat) {
    AbsoluteEnd(v, n) - v.start > 1 || v.end < 0
  }

  /** A bound part as it appears in the value: in a multi-part value reserved characters
      stay escaped. */
  function Shown(part: string, multipart: bool, keepEscaped: bool): string {
    if keepEscaped then part else Unescape(part, !multipart)
  }

  function ShownAll(parts: Path, multipart: bool, keepEscaped: bool): (r: Path)
    ensures |r| == |parts|
    ensures forall i :: 0 <= i < |parts| ==> r[i] == Shown(parts[i], multipart, keepEscaped)
  {
    seq(|parts|, i requires 0 <= i < |parts| => Shown(parts[i], multipart, keepEscaped))
  }

  function BoundParts(v: Variable, parts: Path): Path
    requires RangeExists(v, |parts|)
  {
    parts[v.start..AbsoluteEnd(v, |parts|)]
  }

  function BindingOf(v: Variable, parts: Path, keepEscaped: bool): Binding
    requires RangeExists(v, |parts|)
  {
    Binding(v.field, Join(ShownAll(BoundParts(v, parts), IsMultipart(v, |parts|), keepEscaped), '/'))
  }

  method ExtractBindingsFromPath(vars: seq<Variable>, parts: Path, keepEscaped: bool) returns (bindings: seq<Binding>)
    requires forall k :: 0 <= k < |vars| ==> RangeExists(vars[k], |parts|)
    ensures |bindings| == |vars|
    ensures forall k :: 0 <= k < |vars| ==> bindings[k] == BindingOf(vars[k], parts, keepEscaped)
  {
    bindings := [];
    for k := 0 to |vars|
      invariant |bindings| == k
      invariant forall j :: 0 <= j < k ==> bindings[j] == BindingOf(vars[j], parts, keepEscaped)
    {
      var v := vars[k];
      var end := AbsoluteEnd(v, |parts|);
      var multipart := end - v.start > 1 || v.end < 0;
      var value := JoinParts(parts, v.start, end, multipart, keepEscaped);
      bindings := bindings + [Binding(v.field, value)];
    }
  }

  /** The value after k of the shown parts. */
  ghost function JoinedSoFar(shown: Path, k: nat): string
    requires k <= |shown|
  {
    Join(shown[..k], '/') + (if 0 < k < |shown| then "/" else "")
  }

  lemma JoinedStep(shown: Path, k: nat)
    requires k < |shown|
    ensures JoinedSoFar(shown, k + 1) == JoinedSoFar(shown, k) + shown[k] + (if k + 1 < |shown| then "/" else "")
  {
    assert shown[..k + 1] == shown[..k] + [shown[k]];
    if k > 0 { JoinLast(shown[..k], shown[k]); }
  }

  lemma JoinedEnds(shown: Path)
    ensures JoinedSoFar(shown, 0) == "" && JoinedSoFar(shown, |shown|) == Join(shown, '/')
  {
    assert shown[..|shown|] == shown;
  }

  method ShowPart(part: string, multipart: bool, keepEscaped: bool) returns (shown: string)
    ensures shown == Shown(part, multipart, keepEscaped)
  {
    if keepEscaped {
      return part;
    }
    shown := UrlUnescapeString(part, !multipart);
  }

  /** The inner loop: parts joined by '/'. */
  method JoinParts(parts: Path, start: nat, end: nat, multipart: bool, keepEscaped: bool) returns (value: string)
    requires start <= end <= |parts|
    ensures value == Join(ShownAll(parts[start..end], multipart, keepEscaped), '/')
  {
    value := "";
    ghost var shown := ShownAll(parts[start..end], multipart, keepEscaped);
    JoinedEnds(shown);
    for i := start to end
      invariant value == JoinedSoFar(shown, i - start)
    {
      var part := ShowPart(parts[i], multipart, keepEscaped);
      assert part == shown[i - start] by { assert parts[start..end][i - start] == parts[i]; }
      JoinedStep(shown, i - start);
      value := value + part;
      if i < end - 1 {
        value := value + "/";
      } else {
        assert value + "" == value;
      }
    }
  }

  // ---------- slashes

  lemma {:induction false} CountConcat(s: string, t: string, c: char)
    ensures Count(s + t, c) == Count(s, c) + Count(t, c)
  {
    if s == "" {
      assert s + t == t;
    } else {
      assert (s + t)[1..] == s[1..] + t;
      CountConcat(s[1..], t, c);
    }
  }

  lemma {:induction false} CountAvoided(s: string, c: char)
    ensures Avoids(s, {c}) <==> Count(s, c) == 0
  {
    if s != "" {
      CountAvoided(s[1..], c);
      assert forall i :: 0 < i < |s| ==> s[i] == s[1..][i - 1];
      assert forall i :: 0 <= i < |s[1..]| ==> s[1..][i] == s[i + 1];
    }
  }

  lemma {:induction false} JoinCounts(xs: Path, c: char)
    requires xs != [] && forall i :: 0 <= i < |xs| ==> Count(xs[i], c) == 0
    ensures Count(Join(xs, c), c) == |xs| - 1
  {
    if |xs| > 1 {
      JoinCounts(xs[1..], c);
      CountConcat(xs[0] + [c], Join(xs[1..], c), c);
      CountConcat(xs[0], [c], c);
      assert [c][1..] == "";
    }
  }

  /** A multi-part value has exactly one '/' for each boundary between parts: an escaped '/'
      inside a part stays escaped. */
  lemma SlashesAreBoundaries(v: Variable, parts: Path, keepEscaped: bool)
    requires RangeExists(v, |parts|) && Clean(parts)
    requires keepEscaped || IsMultipart(v, |parts|)
    requires BoundParts(v, parts) != []
    ensures Count(BindingOf(v, parts, keepEscaped).value, '/') == |BoundParts(v, parts)| - 1
  {
    var bound := BoundParts(v, parts);
    var shown := ShownAll(bound, IsMultipart(v, |parts|), keepEscaped);
    forall i | 0 <= i < |bound| ensures Count(shown[i], '/') == 0 {
      assert Avoids(bound[i], {'/'});
      CountAvoided(bound[i], '/');
      ReservedAreKept(bound[i], '/');
    }
    JoinCounts(shown, '/');
  }

  // ---------- a variable after a "**"

  /** A template with a variable after its "**". */
  function AfterDeep(): Template {
    Template([Deep, Var(["x"], [Lit("foo")])], "")
  }

  lemma AfterDeepPrints()
    ensures WellFormed(AfterDeep()) && Print(AfterDeep()) == "/**/{x=foo}"
  {
    var lit, x := Lit("foo"), Var(["x"], [Lit("foo")]);
    assert AfterDeep().segments[1..] == [x] && [x][1..] == [] && [lit][1..] == [];
    assert WellFormedSegments([lit], true);
    assert PrintSegments([x]) == "{x=foo}";
  }

  lemma AfterDeepCompiles()
    ensures Compile(AfterDeep()) == HttpTemplate([DEEP, "foo"], "", [Variable(1, 2, ["x"], false)])
  {
    var lit, x := Lit("foo"), Var(["x"], [Lit("foo")]);
    assert AfterDeep().segments[1..] == [x] && [x][1..] == [] && [lit][1..] == [];
    assert KeysOf([lit]) == ["foo"];
    assert KeysOf([x]) == ["foo"];
    assert VariablesOf([x], 1) == [Variable(1, 2, ["x"], false)];
  }

  lemma AfterDeepMatches()
    ensures var p: Path := [DEEP, "foo"];
            ConstantsAfterDeep(p) && Matches(p, ["a", "b", "foo"], false) && Cut(p, 3, 1) == 2
  {
    var p: Path := [DEEP, "foo"];
    assert AllConstant(p[1..]);
    MatchesMeaning(p, ["a", "b", "foo"]);
  }

  /** A template whose variable follows a "**": the request /a/b/foo matches, and x is bound to
      the part "b", not to the "foo" that its key consumed. */
  lemma VariableAfterDeepIsMisplaced()
    ensures var t, parts := AfterDeep(), ["a", "b", "foo"];
            && WellFormed(t) && ConstantsAfterDeep(FullPath(Compile(t)))
            && Print(t) == "/**/{x=foo}"
            && Matches(FullPath(Compile(t)), parts, false)
            && |Compile(t).variables| == 1 && RangeExists(Compile(t).variables[0], 3)
            && BoundParts(Compile(t).variables[0], parts) == ["b"]
            && Cut(FullPath(Compile(t)), 3, 1) == 2
  {
    AfterDeepPrints();
    AfterDeepCompiles();
    AfterDeepMatches();
  }
}
