/** Which request parts a variable is bound to: ExtractBindingsFromPath of path_matcher.h
    against the parts that the variable's keys consume in a match. */
module Bindings {
  import opened PathTrie
  import opened TemplateGrammar
  import opened HttpTemplate

  // ---------- how a matching template divides the request

  /** The position of the first "**", or the length of the path. */
  function DeepIndex(p: Path): (d: nat)
    ensures d <= |p|
    ensures d < |p| ==> p[d] == DEEP
    ensures forall i :: 0 <= i < d ==> p[i] != DEEP
  {
    if p == [] || p[0] == DEEP then 0 else 1 + DeepIndex(p[1..])
  }

  predicate KeyMatches(key: string, part: string) {
    IsWild(key) || key == part
  }

  /** Matching without any search: key by key up to the "**", and the constants after it at
      the end of the request. A "**" takes at least one part unless it is the last key. */
  ghost predicate MatchesWhole(p: Path, parts: Path) {
    var d, n := DeepIndex(p), |parts|;
    && (if d == |p| then n == |p| else n >= (if d == |p| - 1 then d else |p|))
    && (forall i :: 0 <= i < d ==> KeyMatches(p[i], parts[i]))
    && (forall i :: d < i < |p| ==> p[i] == parts[n - |p| + i])
  }

  lemma {:induction false} MatchesMeaning(p: Path, parts: Path)
    requires ConstantsAfterDeep(p)
    ensures Matches(p, parts, false) <==> MatchesWhole(p, parts)
    decreases |p|
  {
    if p == [] {
    } else if p[0] == DEEP {
      DeepFirst(p, parts);
    } else if parts != [] {
      MatchesMeaning(p[1..], parts[1..]);
      StepWhole(p, parts);
    }
  }

  lemma DeepFirst(p: Path, parts: Path)
    requires p != [] && p[0] == DEEP && AllConstant(p[1..])
    ensures Matches(p, parts, false) <==> MatchesWhole(p, parts)
  {
    assert |p| == 1 ==> p == [DEEP];
    if parts != [] {
      SuffixMatches(p[1..], parts[1..]);
      if |parts| >= |p| {
        var tail := |p| - 1;
        var end := parts[1..][|parts| - 1 - tail..];
        assert forall i :: 0 < i < |p| ==> p[i] == p[1..][i - 1];
        assert forall i :: 0 <= i < tail ==> end[i] == parts[|parts| - |p| + i + 1] && p[1..][i] == p[i + 1];
        assert end == p[1..] <==> forall i :: 0 < i < |p| ==> p[i] == parts[|parts| - |p| + i];
      }
    }
  }

  lemma StepWhole(p: Path, parts: Path)
    requires p != [] && parts != [] && p[0] != DEEP
    ensures MatchesWhole(p, parts) <==> KeyMatches(p[0], parts[0]) && MatchesWhole(p[1..], parts[1..])
  {
    assert forall i :: 1 <= i < |p| ==> p[i] == p[1..][i - 1];
    assert forall i :: 1 <= i < |parts| ==> parts[i] == parts[1..][i - 1];
    assert forall i :: 0 <= i < |p[1..]| ==> p[1..][i] == p[i + 1];
    assert forall i :: 0 <= i < |parts[1..]| ==> parts[1..][i] == parts[i + 1];
  }

  /** Key i can take the parts [lo, hi): a "**" at least one unless it is the last key, another
      wildcard one, a constant itself. */
  predicate TakesRange(p: Path, i: nat, parts: Path, lo: int, hi: int)
    requires i < |p|
  {
    && 0 <= lo <= hi <= |parts|
    && (if p[i] == DEEP then lo < hi || i == |p| - 1
        else hi == lo + 1 && (IsWild(p[i]) || p[i] == parts[lo]))
  }

  /** Key i takes the parts between its cut and the next. */
  ghost predicate TakesPiece(p: Path, cuts: seq<int>, parts: Path, i: nat)
    requires |cuts| == |p| + 1 && i < |p|
  {
    TakesRange(p, i, parts, cuts[i], cuts[i + 1])
  }

  /** cuts divides the request into one piece for each key. */
  ghost predicate IsDivision(p: Path, cuts: seq<int>, parts: Path) {
    && |cuts| == |p| + 1 && cuts[0] == 0 && cuts[|p|] == |parts|
    && (forall i :: 0 <= i < |p| ==> TakesPiece(p, cuts, parts, i))
  }

  /** Where key i starts in a matching request of n parts. */
  function Cut(p: Path, n: nat, i: int): int {
    if i <= DeepIndex(p) then i else n - (|p| - i)
  }

  ghost function Cuts(p: Path, n: nat): (cuts: seq<int>)
    ensures |cuts| == |p| + 1 && forall i :: 0 <= i <= |p| ==> cuts[i] == Cut(p, n, i)
  {
    seq(|p| + 1, i => Cut(p, n, i))
  }

  lemma {:induction false} TailsAreConstant(p: Path)
    requires ConstantsAfterDeep(p)
    ensures forall i :: DeepIndex(p) < i < |p| ==> !IsWild(p[i])
  {
    if p != [] {
      assert forall i :: 1 <= i < |p| ==> p[i] == p[1..][i - 1];
      if p[0] != DEEP { TailsAreConstant(p[1..]); }
    }
  }

  /** A matching request is divided by Cuts. */
  lemma MatchDivides(p: Path, parts: Path)
    requires ConstantsAfterDeep(p) && Matches(p, parts, false)
    ensures IsDivision(p, Cuts(p, |parts|), parts)
  {
    MatchesMeaning(p, parts);
    TailsAreConstant(p);
    forall i | 0 <= i < |p| ensures TakesPiece(p, Cuts(p, |parts|), parts, i) {
      assert i < DeepIndex(p) ==> KeyMatches(p[i], parts[i]);
    }
  }

  /** No other division exists, and one exists only for a match. */
  lemma DivisionIsMatch(p: Path, cuts: seq<int>, parts: Path)
    requires ConstantsAfterDeep(p) && IsDivision(p, cuts, parts)
    ensures cuts == Cuts(p, |parts|)
    ensures Matches(p, parts, false)
  {
    var d, n := DeepIndex(p), |parts|;
    TailsAreConstant(p);
    forall i | 0 <= i <= |p| ensures cuts[i] == Cut(p, n, i) {
      if i <= d { CutsFromFront(p, cuts, parts, i); } else { CutsFromBack(p, cuts, parts, i); }
    }
    assert cuts == Cuts(p, n);
    forall i | 0 <= i < d ensures i < n && KeyMatches(p[i], parts[i]) { assert TakesPiece(p, cuts, parts, i); }
    forall i | d < i < |p| ensures 0 <= n - |p| + i < n && p[i] == parts[n - |p| + i] {
      assert TakesPiece(p, cuts, parts, i);
    }
    assert d < |p| ==> TakesPiece(p, cuts, parts, d);
    MatchesMeaning(p, parts);
  }

  lemma OnePart(p: Path, cuts: seq<int>, parts: Path, i: nat)
    requires IsDivision(p, cuts, parts) && i < |p| && p[i] != DEEP
    ensures cuts[i + 1] == cuts[i] + 1
  {
    assert TakesPiece(p, cuts, parts, i);
  }

  lemma {:induction false} CutsFromFront(p: Path, cuts: seq<int>, parts: Path, i: nat)
    requires IsDivision(p, cuts, parts) && i <= DeepIndex(p)
    ensures cuts[i] == i
  {
    if i > 0 {
      CutsFromFront(p, cuts, parts, i - 1);
      OnePart(p, cuts, parts, i - 1);
    }
  }

  lemma {:induction false} CutsFromBack(p: Path, cuts: seq<int>, parts: Path, i: nat)
    requires IsDivision(p, cuts, parts) && DeepIndex(p) < i <= |p|
    requires forall j :: DeepIndex(p) < j < |p| ==> !IsWild(p[j])
    ensures cuts[i] == |parts| - (|p| - i)
    decreases |p| - i
  {
    if i < |p| {
      CutsFromBack(p, cuts, parts, i + 1);
      OnePart(p, cuts, parts, i);
    }
  }

  // ---------- variables

  /** The path a template is registered under: its keys, then its verb. */
  function FullPath(h: HttpTemplate): Path {
    h.segments + (if h.verb == "" then [] else [h.verb])
  }

  /** ExtractBindingsFromPath's end of a variable's range in a request of n parts. */
  function AbsoluteEnd(v: Variable, n: nat): int {
    if v.end >= 0 then v.end else n + v.end + 1
  }

  lemma {:induction false} SubKeys(xs: seq<Segment>)
    requires WellFormedSegments(xs, true)
    ensures |KeysOf(xs)| == |xs|
    ensures Deep in xs <==> DEEP in KeysOf(xs)
  {
    if xs != [] {
      SubKeys(xs[1..]);
      assert xs == [xs[0]] + xs[1..];
      assert KeysOfSegment(xs[0]) == [DEEP] <==> xs[0] == Deep;
    }
  }

  /** A variable spans a non-empty range of the keys, and knows whether it contains "**". */
  ghost predicate GoodVariable(v: Variable, keys: Path, base: nat) {
    && base <= v.start < v.end <= base + |keys|
    && (v.hasDeep <==> DEEP in keys[v.start - base..v.end - base])
  }

  /** Keys in front shift a variable's range. */
  lemma GoodAfter(v: Variable, first: Path, rest: Path, base: nat)
    requires GoodVariable(v, rest, base + |first|)
    ensures GoodVariable(v, first + rest, base)
  {
    var i, j := v.start - base, v.end - base;
    assert (first + rest)[i..j] == rest[i - |first|..j - |first|];
  }

  /** Keys behind do not. */
  lemma GoodBefore(v: Variable, first: Path, rest: Path, base: nat)
    requires GoodVariable(v, first, base)
    ensures GoodVariable(v, first + rest, base)
  {
    var i, j := v.start - base, v.end - base;
    assert (first + rest)[i..j] == first[i..j];
  }

  lemma SegmentIsGood(x: Segment, base: nat, k: nat)
    requires WellFormedSegment(x, false) && k < |VariablesOfSegment(x, base)|
    ensures GoodVariable(VariablesOfSegment(x, base)[k], KeysOfSegment(x), base)
  {
    var keys := KeysOfSegment(x);
    assert keys[0..|keys|] == keys;
    if x.Var? {
      SubKeys(x.sub);
    }
  }

  lemma {:induction false} VariablesAreGood(xs: seq<Segment>, base: nat, k: nat)
    requires WellFormedSegments(xs, false) && k < |VariablesOf(xs, base)|
    ensures GoodVariable(VariablesOf(xs, base)[k], KeysOf(xs), base)
    decreases |xs|
  {
    var first, rest := KeysOfSegment(xs[0]), KeysOf(xs[1..]);
    var mine := VariablesOfSegment(xs[0], base);
    if k < |mine| {
      SegmentIsGood(xs[0], base, k);
      GoodBefore(mine[k], first, rest, base);
    } else {
      var others := VariablesOf(xs[1..], base + |first|);
      VariablesAreGood(xs[1..], base + |first|, k - |mine|);
      GoodAfter(others[k - |mine|], first, rest, base);
    }
  }

  /** Every key but a last "**" takes at least one part. */
  lemma {:induction false} MatchLength(p: Path, parts: Path, inDeep: bool)
    requires Matches(p, parts, inDeep)
    ensures |parts| >= |p| - 1
    ensures |parts| == |p| - 1 ==> p[|p| - 1] == DEEP
    decreases |parts|
  {
    if parts != [] {
      if p != [] && (p[0] == parts[0] || (!inDeep && IsWild(p[0]))) && Matches(p[1..], parts[1..], p[0] == DEEP) {
        MatchLength(p[1..], parts[1..], p[0] == DEEP);
      } else {
        MatchLength(p, parts[1..], true);
      }
    }
  }

  lemma DeepAtEnd(v: Variable, keys: Path)
    requires GoodVariable(v, keys, 0) && v.end == |keys| && keys[|keys| - 1] == DEEP
    ensures v.hasDeep
  {
    assert keys[v.start..v.end][|keys| - 1 - v.start] == DEEP;
  }

  /** A variable's range lies within any request that is long enough for the keys and the verb. */
  lemma RangeOf(v: Variable, keys: Path, verb: string, n: nat)
    requires GoodVariable(v, keys, 0)
    requires n >= |keys| + (if verb == "" then 0 else 1) - 1
    requires n == |keys| - 1 ==> keys[|keys| - 1] == DEEP
    ensures var w := Relative(v, |keys|, verb); 0 <= w.start <= AbsoluteEnd(w, n) <= n
  {
    if v.end == |keys| && n == |keys| - 1 {
      DeepAtEnd(v, keys);
    }
  }

  /** For every template that parses and every request it matches, every range of parts that
      ExtractBindingsFromPath reads exists. */
  lemma RangesExist(t: Template, parts: Path, k: nat)
    requires WellFormed(t) && Matches(FullPath(Compile(t)), parts, false)
    requires k < |Compile(t).variables|
    ensures var w := Compile(t).variables[k]; 0 <= w.start <= AbsoluteEnd(w, |parts|) <= |parts|
  {
    var keys, v := KeysOf(t.segments), VariablesOf(t.segments, 0)[k];
    assert GoodVariable(v, keys, 0) by { VariablesAreGood(t.segments, 0, k); }
    LongEnough(keys, t.verb, parts);
    RangeOf(v, keys, t.verb, |parts|);
  }

  lemma LongEnough(keys: Path, verb: string, parts: Path)
    requires Matches(keys + (if verb == "" then [] else [verb]), parts, false)
    ensures |parts| >= |keys| + (if verb == "" then 0 else 1) - 1
    ensures verb == "" && |parts| == |keys| - 1 ==> keys[|keys| - 1] == DEEP
  {
    MatchLength(keys + (if verb == "" then [] else [verb]), parts, false);
    assert verb == "" ==> keys + [] == keys;
  }

  /** Whether a slice of a path holds its "**". */
  lemma DeepInSlice(p: Path, keys: Path, i: nat, j: nat)
    requires ConstantsAfterDeep(p) && keys <= p && i <= j <= |keys|
    ensures DEEP in keys[i..j] <==> i <= DeepIndex(p) < j
  {
    TailsAreConstant(p);
    var sub := keys[i..j];
    assert forall k :: 0 <= k < |sub| ==> sub[k] == p[i + k];
    if i <= DeepIndex(p) < j {
      assert sub[DeepIndex(p) - i] == DEEP;
    }
  }

  lemma HasDeepMeans(t: Template, k: nat)
    requires WellFormed(t) && k < |VariablesOf(t.segments, 0)|
    requires ConstantsAfterDeep(FullPath(Compile(t)))
    ensures var p, v := FullPath(Compile(t)), VariablesOf(t.segments, 0)[k];
            && 0 <= v.start < v.end <= |KeysOf(t.segments)|
            && (v.hasDeep <==> v.start <= DeepIndex(p) < v.end)
  {
    var keys, v := KeysOf(t.segments), VariablesOf(t.segments, 0)[k];
    VariablesAreGood(t.segments, 0, k);
    assert GoodVariable(v, keys, 0);
    DeepInSlice(FullPath(Compile(t)), keys, v.start, v.end);
  }

  /** Which variables are bound to exactly the parts their keys consume: those that do not
      start after a "**", and those that do when the "**" takes a single part. */
  lemma BindingIsExact(t: Template, parts: Path, k: nat)
    requires WellFormed(t) && k < |Compile(t).variables|
    requires ConstantsAfterDeep(FullPath(Compile(t))) && Matches(FullPath(Compile(t)), parts, false)
    ensures var p, n := FullPath(Compile(t)), |parts|;
            var v, w := VariablesOf(t.segments, 0)[k], Compile(t).variables[k];
            (w.start == Cut(p, n, v.start) && AbsoluteEnd(w, n) == Cut(p, n, v.end))
            <==> (v.start <= DeepIndex(p) || n == |p|)
  {
    HasDeepMeans(t, k);
    MatchesMeaning(FullPath(Compile(t)), parts);
  }

  lemma {:induction false} ConstantTails(p: Path)
    requires forall i :: DeepIndex(p) < i < |p| ==> !IsWild(p[i])
    ensures ConstantsAfterDeep(p)
  {
    if p != [] {
      assert forall i :: 0 <= i < |p[1..]| ==> p[1..][i] == p[i + 1];
      if p[0] != DEEP { ConstantTails(p[1..]); }
    }
  }

  lemma SliceIsRestricted(p: Path, a: nat, b: nat)
    requires ConstantsAfterDeep(p) && a <= b <= |p|
    ensures ConstantsAfterDeep(p[a..b])
  {
    var sub := p[a..b];
    TailsAreConstant(p);
    assert forall i :: 0 <= i < |sub| ==> sub[i] == p[a + i];
    ConstantTails(sub);
  }

  lemma PieceOfSlice(p: Path, parts: Path, a: nat, b: nat, i: nat)
    requires IsDivision(p, Cuts(p, |parts|), parts) && a <= b <= |p| && i < b - a
    requires 0 <= Cut(p, |parts|, a) <= Cut(p, |parts|, b) <= |parts|
    ensures var lo := Cut(p, |parts|, a);
            TakesRange(p[a..b], i, parts[lo..Cut(p, |parts|, b)],
                       Cut(p, |parts|, a + i) - lo, Cut(p, |parts|, a + i + 1) - lo)
  {
    assert TakesPiece(p, Cuts(p, |parts|), parts, a + i);
    CutsAscend(p, parts, a, a + i);
    CutsAscend(p, parts, a + i + 1, b);
    assert p[a..b][i] == p[a + i];
  }

  ghost function SliceCuts(p: Path, n: nat, a: nat, b: nat): (cuts: seq<int>)
    requires a <= b
    ensures |cuts| == b - a + 1 && forall i :: 0 <= i <= b - a ==> cuts[i] == Cut(p, n, a + i) - Cut(p, n, a)
  {
    seq(b - a + 1, i => Cut(p, n, a + i) - Cut(p, n, a))
  }

  lemma SliceDivides(p: Path, parts: Path, a: nat, b: nat)
    requires IsDivision(p, Cuts(p, |parts|), parts) && a <= b <= |p|
    requires 0 <= Cut(p, |parts|, a) <= Cut(p, |parts|, b) <= |parts|
    ensures IsDivision(p[a..b], SliceCuts(p, |parts|, a, b), parts[Cut(p, |parts|, a)..Cut(p, |parts|, b)])
  {
    var sub, bound := p[a..b], parts[Cut(p, |parts|, a)..Cut(p, |parts|, b)];
    forall i | 0 <= i < |sub| ensures TakesPiece(sub, SliceCuts(p, |parts|, a, b), bound, i) {
      PieceOfSlice(p, parts, a, b, i);
    }
  }

  /** The parts between two cuts match the keys between them. */
  lemma PiecesMatchTheirKeys(p: Path, parts: Path, a: nat, b: nat)
    requires ConstantsAfterDeep(p) && Matches(p, parts, false) && a <= b <= |p|
    ensures 0 <= Cut(p, |parts|, a) <= Cut(p, |parts|, b) <= |parts|
    ensures Matches(p[a..b], parts[Cut(p, |parts|, a)..Cut(p, |parts|, b)], false)
  {
    MatchDivides(p, parts);
    CutsAscend(p, parts, a, b);
    SliceDivides(p, parts, a, b);
    SliceIsRestricted(p, a, b);
    DivisionIsMatch(p[a..b], SliceCuts(p, |parts|, a, b), parts[Cut(p, |parts|, a)..Cut(p, |parts|, b)]);
  }

  lemma CutsAscend(p: Path, parts: Path, a: nat, b: nat)
    requires IsDivision(p, Cuts(p, |parts|), parts) && a <= b <= |p|
    ensures 0 <= Cut(p, |parts|, a) <= Cut(p, |parts|, b) <= |parts|
    decreases b - a
  {
    var cuts := Cuts(p, |parts|);
    if a < b {
      assert TakesPiece(p, cuts, parts, a);
      CutsAscend(p, parts, a + 1, b);
    } else {
      assert a < |p| ==> TakesPiece(p, cuts, parts, a);
      assert a > 0 ==> TakesPiece(p, cuts, parts, a - 1);
    }
  }

  lemma SliceOfPrefix(keys: Path, more: Path, a: nat, b: nat)
    requires a <= b <= |keys|
    ensures (keys + more)[a..b] == keys[a..b]
  {
  }

  /** So what an exact variable is bound to matches its own sub-template. */
  lemma BoundPartsMatch(t: Template, parts: Path, k: nat)
    requires WellFormed(t) && k < |Compile(t).variables|
    requires ConstantsAfterDeep(FullPath(Compile(t))) && Matches(FullPath(Compile(t)), parts, false)
    requires VariablesOf(t.segments, 0)[k].start <= DeepIndex(FullPath(Compile(t))) || |parts| == |FullPath(Compile(t))|
    ensures var v, w := VariablesOf(t.segments, 0)[k], Compile(t).variables[k];
            && 0 <= v.start <= v.end <= |KeysOf(t.segments)|
            && 0 <= w.start <= AbsoluteEnd(w, |parts|) <= |parts|
            && Matches(KeysOf(t.segments)[v.start..v.end], parts[w.start..AbsoluteEnd(w, |parts|)], false)
  {
    BindingIsExact(t, parts, k);
    HasDeepMeans(t, k);
    var v, h := VariablesOf(t.segments, 0)[k], Compile(t);
    PiecesMatchTheirKeys(FullPath(h), parts, v.start, v.end);
    SliceOfPrefix(h.segments, if h.verb == "" then [] else [h.verb], v.start, v.end);
  }
}
