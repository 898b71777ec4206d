/** The trie of path_matcher_node.cc: insertion, the backtracking lookup, and the
    proof that the trie answers exactly like the flat list of registrations. */
module PathTrie {
  import opened Wrappers

  /** Matches any single request part; no template parser produces it. */
  const SINGLE_PARAMETER: string := "/."
  /** Matches any single request part. */
  const STAR: string := "*"
  /** Matches a run of request parts. */
  const DEEP: string := "**"
  const ANY_METHOD: string := "*"

  type Path = seq<string>

  /** What a node stores for one HTTP method. */
  datatype Entry<D> = Entry(data: D, isMultiple: bool)

  datatype Trie<D> = Node(
    results: map<string, Entry<D>>,
    children: map<string, Trie<D>>,
    wildcard: bool)

  function Empty<D>(): Trie<D> {
    Node(map[], map[], false)
  }

  /** The entry a registration leaves at the node where its path ends. */
  function Stored<D>(results: map<string, Entry<D>>, httpMethod: string, data: D, mark: bool): map<string, Entry<D>> {
    if httpMethod !in results then results[httpMethod := Entry(data, false)]
    else if mark then results[httpMethod := results[httpMethod].(isMultiple := true)]
    else results
  }

  /** The child that insertion descends into, created and flagged as needed. */
  function ChildFor<D>(t: Trie<D>, key: string): Trie<D> {
    var child := if key in t.children then t.children[key] else Empty();
    if key == DEEP then child.(wildcard := true) else child
  }

  /** The trie with an (at first empty) child under a key. */
  function OpenChild<D>(t: Trie<D>, key: string): Trie<D> {
    if key in t.children then t else t.(children := t.children[key := Empty()])
  }

  lemma OpenThenInsert<D>(t: Trie<D>, path: Path, httpMethod: string, data: D, mark: bool)
    requires path != []
    ensures var grown := OpenChild(t, path[0]);
            && path[0] in grown.children
            && Insert(t, path, httpMethod, data, mark) ==
               grown.(children := grown.children[path[0] :=
                 Insert(ChildFor(grown, path[0]), path[1..], httpMethod, data, mark)])
            && Get(t, path, httpMethod) == Get(ChildFor(grown, path[0]), path[1..], httpMethod)
  {
  }

  function Insert<D>(t: Trie<D>, path: Path, httpMethod: string, data: D, mark: bool): Trie<D>
    decreases |path|
  {
    if path == [] then
      t.(results := Stored(t.results, httpMethod, data, mark))
    else
      var child := Insert(ChildFor(t, path[0]), path[1..], httpMethod, data, mark);
      t.(children := t.children[path[0] := child])
  }

  function ResultFor<D>(t: Trie<D>, httpMethod: string): Option<Entry<D>> {
    if httpMethod in t.results then Some(t.results[httpMethod])
    else if ANY_METHOD in t.results then Some(t.results[ANY_METHOD])
    else None
  }

  function LookupFromChild<D>(t: Trie<D>, key: string, parts: Path, httpMethod: string): Option<Entry<D>>
    requires parts != []
    decreases |parts|, 0
  {
    if key in t.children then Lookup(t.children[key], parts[1..], httpMethod) else None
  }

  function Lookup<D>(t: Trie<D>, parts: Path, httpMethod: string): Option<Entry<D>>
    decreases |parts|, 1
  {
    if parts == [] then
      var here := ResultFor(t, httpMethod);
      if here.Some? then here
      else if DEEP in t.children then ResultFor(t.children[DEEP], httpMethod)
      else None
    else
      var literal := LookupFromChild(t, parts[0], parts, httpMethod);
      if literal.Some? then literal
      else if t.wildcard then Lookup(t, parts[1..], httpMethod)
      else
        var single := LookupFromChild(t, SINGLE_PARAMETER, parts, httpMethod);
        if single.Some? then single else
        var star := LookupFromChild(t, STAR, parts, httpMethod);
        if star.Some? then star else
        LookupFromChild(t, DEEP, parts, httpMethod)
  }

  // ---------- what the trie holds, path by path

  ghost function Get<D>(t: Trie<D>, path: Path, httpMethod: string): Option<Entry<D>> {
    if path == [] then (if httpMethod in t.results then Some(t.results[httpMethod]) else None)
    else if path[0] in t.children then Get(t.children[path[0]], path[1..], httpMethod)
    else None
  }

  /** A node is flagged exactly when it was reached through "**". */
  ghost predicate WellFlagged<D>(t: Trie<D>) {
    forall k :: k in t.children ==> t.children[k].wildcard == (k == DEEP) && WellFlagged(t.children[k])
  }

  lemma {:induction false} InsertWellFlagged<D>(t: Trie<D>, path: Path, httpMethod: string, data: D, mark: bool)
    requires WellFlagged(t)
    ensures WellFlagged(Insert(t, path, httpMethod, data, mark))
    ensures Insert(t, path, httpMethod, data, mark).wildcard == t.wildcard
    decreases |path|
  {
    if path != [] {
      InsertWellFlagged(ChildFor(t, path[0]), path[1..], httpMethod, data, mark);
    }
  }

  lemma HeadAndTail(p: Path, q: Path)
    requires p != [] && q != []
    ensures p == q <==> p[0] == q[0] && p[1..] == q[1..]
  {
    assert p == [p[0]] + p[1..] && q == [q[0]] + q[1..];
  }

  /** Insertion changes one entry: the first registration of a path and method
      stays, a later one only marks it. */
  lemma {:induction false} GetInsert<D>(t: Trie<D>, path: Path, httpMethod: string, data: D, mark: bool,
                                        p: Path, m: string)
    ensures Get(Insert(t, path, httpMethod, data, mark), p, m) ==
      if p != path || m != httpMethod then Get(t, p, m)
      else if Get(t, p, m).None? then Some(Entry(data, false))
      else if mark then Some(Get(t, p, m).value.(isMultiple := true))
      else Get(t, p, m)
    decreases |path|
  {
    if path != [] && p != [] && p[0] == path[0] {
      GetInsert(ChildFor(t, path[0]), path[1..], httpMethod, data, mark, p[1..], m);
      HeadAndTail(p, path);
    }
  }

  // ---------- the match relation

  predicate IsWild(key: string) {
    key == SINGLE_PARAMETER || key == STAR || key == DEEP
  }

  /** Whether a template path matches request parts, from a node that is (inDeep)
      or is not below a "**". */
  predicate Matches(path: Path, parts: Path, inDeep: bool)
    decreases |parts|
  {
    if parts == [] then path == [] || path == [DEEP]
    else
      || (path != [] && (path[0] == parts[0] || (!inDeep && IsWild(path[0])))
          && Matches(path[1..], parts[1..], path[0] == DEEP))
      || (inDeep && Matches(path, parts[1..], true))
  }

  predicate Serves(key: string, httpMethod: string) {
    key == httpMethod || key == ANY_METHOD
  }

  /** What is stored at path for the method, or else for any method. */
  ghost function Answer<D>(t: Trie<D>, path: Path, httpMethod: string): Option<Entry<D>> {
    if Get(t, path, httpMethod).Some? then Get(t, path, httpMethod) else Get(t, path, ANY_METHOD)
  }

  lemma AnswerChild<D>(t: Trie<D>, key: string, path: Path, httpMethod: string)
    requires key in t.children
    ensures Answer(t, [key] + path, httpMethod) == Answer(t.children[key], path, httpMethod)
  {
    assert ([key] + path)[1..] == path;
  }

  /** Every hit of the backtracking search is an entry stored under a matching path. */
  lemma {:induction false} LookupSound<D>(t: Trie<D>, parts: Path, httpMethod: string) returns (path: Path)
    requires WellFlagged(t)
    requires Lookup(t, parts, httpMethod).Some?
    ensures Answer(t, path, httpMethod) == Lookup(t, parts, httpMethod)
    ensures Matches(path, parts, t.wildcard)
    decreases |parts|
  {
    if parts == [] {
      path := if ResultFor(t, httpMethod).Some? then [] else [DEEP];
      if DEEP in t.children {
        AnswerChild(t, DEEP, [], httpMethod);
        assert [DEEP] + [] == [DEEP];
      }
    } else if !LookupFromChild(t, parts[0], parts, httpMethod).Some? && t.wildcard {
      path := LookupSound(t, parts[1..], httpMethod);
    } else {
      var key := if LookupFromChild(t, parts[0], parts, httpMethod).Some? then parts[0]
                 else if LookupFromChild(t, SINGLE_PARAMETER, parts, httpMethod).Some? then SINGLE_PARAMETER
                 else if LookupFromChild(t, STAR, parts, httpMethod).Some? then STAR
                 else DEEP;
      var rest := LookupSound(t.children[key], parts[1..], httpMethod);
      AnswerChild(t, key, rest, httpMethod);
      path := [key] + rest;
      assert path[1..] == rest;
    }
  }

  /** The search misses nothing. */
  lemma {:induction false} LookupComplete<D>(t: Trie<D>, parts: Path, httpMethod: string, path: Path)
    requires WellFlagged(t)
    requires Answer(t, path, httpMethod).Some?
    requires Matches(path, parts, t.wildcard)
    ensures Lookup(t, parts, httpMethod).Some?
    decreases |parts|
  {
    if parts == [] {
      if path == [DEEP] {
        AnswerChild(t, DEEP, [], httpMethod);
        assert [DEEP] + [] == [DEEP];
      }
    } else if path != [] && (path[0] == parts[0] || (!t.wildcard && IsWild(path[0])))
              && Matches(path[1..], parts[1..], path[0] == DEEP) {
      AnswerChild(t, path[0], path[1..], httpMethod);
      assert path == [path[0]] + path[1..];
      LookupComplete(t.children[path[0]], parts[1..], httpMethod, path[1..]);
    } else {
      LookupComplete(t, parts[1..], httpMethod, path);
    }
  }

  // ---------- precedence

  /** Only constants follow "**": what ValidateParts checks. */
  predicate ConstantsAfterDeep(path: Path) {
    if path == [] then true
    else if path[0] == DEEP then AllConstant(path[1..])
    else ConstantsAfterDeep(path[1..])
  }

  predicate AllConstant(path: Path) {
    forall i :: 0 <= i < |path| ==> !IsWild(path[i])
  }

  /** How a key is preferred for a request part: an equal key first, then "/.", "*" and "**". */
  function Rank(key: string, part: string): nat {
    if key == part then 0
    else if key == SINGLE_PARAMETER then 1
    else if key == STAR then 2
    else 3
  }

  /** Which of two distinct templates matching the same request is the better one: before
      a "**", the one whose first differing key ranks lower, an exact end being better than
      a "**" that consumes nothing; below a shared "**", the longer constant suffix. */
  predicate Beats(p: Path, q: Path, parts: Path, inDeep: bool)
    decreases |parts|
  {
    if inDeep then |p| > |q|
    else if parts == [] then p == [] && q == [DEEP]
    else if p == [] || q == [] then false
    else if p[0] == q[0] then Beats(p[1..], q[1..], parts[1..], p[0] == DEEP)
    else Rank(p[0], parts[0]) < Rank(q[0], parts[0])
  }

  lemma {:induction false} BeatsIsAsymmetric(p: Path, q: Path, parts: Path, inDeep: bool)
    requires Beats(p, q, parts, inDeep)
    ensures !Beats(q, p, parts, inDeep)
    ensures p != q
    decreases |parts|
  {
    if !inDeep && parts != [] && p[0] == q[0] {
      BeatsIsAsymmetric(p[1..], q[1..], parts[1..], p[0] == DEEP);
    }
  }

  /** Away from a "**", constants match only themselves. */
  lemma {:induction false} ConstantMatches(path: Path, parts: Path)
    requires AllConstant(path)
    ensures Matches(path, parts, false) <==> path == parts
    decreases |parts|
  {
    assert path != [] ==> !IsWild(path[0]);
    if parts != [] && path != [] {
      assert path == [path[0]] + path[1..] && parts == [parts[0]] + parts[1..];
      ConstantMatches(path[1..], parts[1..]);
    }
  }

  predicate IsSuffix(s: Path, parts: Path) {
    |s| <= |parts| && parts[|parts| - |s|..] == s
  }

  /** Below a "**", constants match exactly the requests they end. */
  lemma SuffixStep(path: Path, parts: Path)
    requires parts != []
    ensures IsSuffix(path, parts) <==> path == parts || IsSuffix(path, parts[1..])
  {
    if |path| < |parts| {
      assert parts[1..][|parts[1..]| - |path|..] == parts[|parts| - |path|..];
    } else if |path| == |parts| {
      assert parts[0..] == parts;
    }
  }

  lemma {:induction false} SuffixMatches(path: Path, parts: Path)
    requires AllConstant(path)
    ensures Matches(path, parts, true) <==> IsSuffix(path, parts)
    decreases |parts|
  {
    assert path != [] ==> !IsWild(path[0]);
    if parts != [] {
      SuffixMatches(path, parts[1..]);
      SuffixStep(path, parts);
      if path != [] {
        assert forall i :: 0 <= i < |path[1..]| ==> path[1..][i] == path[i + 1];
        HeadAndTail(path, parts);
        ConstantMatches(path[1..], parts[1..]);
      }
    }
  }

  /** Every path stored below a node obeys the constants-after-"**" rule. */
  ghost predicate Restricted<D>(t: Trie<D>) {
    forall p, m :: Get(t, p, m).Some? ==> if t.wildcard then AllConstant(p) else ConstantsAfterDeep(p)
  }

  lemma RestrictedBelow<D>(t: Trie<D>, key: string, p: Path, m: string)
    requires WellFlagged(t) && Restricted(t) && key in t.children && Get(t.children[key], p, m).Some?
    ensures if key == DEEP then AllConstant(p) else ConstantsAfterDeep(p)
  {
    var q := [key] + p;
    assert q[1..] == p && q[0] == key;
    assert Get(t, q, m).Some?;
    if t.wildcard {
      assert forall i :: 0 <= i < |p| ==> p[i] == q[i + 1];
      ConstantIsRestricted(p);
    }
  }

  lemma RestrictedChild<D>(t: Trie<D>, key: string)
    requires WellFlagged(t) && Restricted(t) && key in t.children
    ensures Restricted(t.children[key])
  {
    forall p, m | Get(t.children[key], p, m).Some?
      ensures if t.children[key].wildcard then AllConstant(p) else ConstantsAfterDeep(p)
    {
      RestrictedBelow(t, key, p, m);
    }
  }

  lemma {:induction false} ConstantIsRestricted(p: Path)
    requires AllConstant(p)
    ensures ConstantsAfterDeep(p)
  {
    if p != [] { ConstantIsRestricted(p[1..]); }
  }

  /** The hit is the best of all matching templates. */
  lemma {:induction false} LookupBest<D>(t: Trie<D>, parts: Path, httpMethod: string) returns (path: Path)
    requires WellFlagged(t) && Restricted(t)
    requires Lookup(t, parts, httpMethod).Some?
    ensures Answer(t, path, httpMethod) == Lookup(t, parts, httpMethod)
    ensures Matches(path, parts, t.wildcard)
    ensures forall q :: Answer(t, q, httpMethod).Some? && Matches(q, parts, t.wildcard) && q != path
                        ==> Beats(path, q, parts, t.wildcard)
    decreases |parts|
  {
    if t.wildcard {
      path := LookupBestInDeep(t, parts, httpMethod);
    } else if parts == [] {
      path := if ResultFor(t, httpMethod).Some? then [] else [DEEP];
      if DEEP in t.children {
        AnswerChild(t, DEEP, [], httpMethod);
        assert [DEEP] + [] == [DEEP];
      }
    } else {
      var key := if LookupFromChild(t, parts[0], parts, httpMethod).Some? then parts[0]
                 else if LookupFromChild(t, SINGLE_PARAMETER, parts, httpMethod).Some? then SINGLE_PARAMETER
                 else if LookupFromChild(t, STAR, parts, httpMethod).Some? then STAR
                 else DEEP;
      RestrictedChild(t, key);
      var rest := LookupBest(t.children[key], parts[1..], httpMethod);
      AnswerChild(t, key, rest, httpMethod);
      path := [key] + rest;
      assert path[1..] == rest;
      forall q | Answer(t, q, httpMethod).Some? && Matches(q, parts, false) && q != path
        ensures Beats(path, q, parts, false)
      {
        assert q == [q[0]] + q[1..];
        AnswerChild(t, q[0], q[1..], httpMethod);
        LookupComplete(t.children[q[0]], parts[1..], httpMethod, q[1..]);
        assert LookupFromChild(t, q[0], parts, httpMethod).Some?;
      }
    }
  }

  lemma {:induction false} LookupBestInDeep<D>(t: Trie<D>, parts: Path, httpMethod: string) returns (path: Path)
    requires WellFlagged(t) && Restricted(t) && t.wildcard
    requires Lookup(t, parts, httpMethod).Some?
    ensures Answer(t, path, httpMethod) == Lookup(t, parts, httpMethod)
    ensures Matches(path, parts, true)
    ensures forall q :: Answer(t, q, httpMethod).Some? && Matches(q, parts, true) && q != path ==> |path| > |q|
    decreases |parts|
  {
    if parts == [] || LookupFromChild(t, parts[0], parts, httpMethod).Some? {
      path := LookupSound(t, parts, httpMethod);
      if parts != [] {
        var rest := LookupSound(t.children[parts[0]], parts[1..], httpMethod);
        AnswerChild(t, parts[0], rest, httpMethod);
        path := [parts[0]] + rest;
        assert AllConstant(path) && path[1..] == rest;
        ConstantMatches(rest, parts[1..]);
      }
    } else {
      path := LookupBestInDeep(t, parts[1..], httpMethod);
    }
    forall q | Answer(t, q, httpMethod).Some? && Matches(q, parts, true) && q != path
      ensures |path| > |q|
    {
      assert AllConstant(q);
      SuffixMatches(q, parts);
      assert parts[0..] == parts;
      if parts == [] {
        SuffixMatches(path, parts);
      } else if !Matches(q, parts[1..], true) {
        assert q == [q[0]] + q[1..];
        AnswerChild(t, q[0], q[1..], httpMethod);
        LookupComplete(t.children[q[0]], parts[1..], httpMethod, q[1..]);
      }
    }
  }
}
