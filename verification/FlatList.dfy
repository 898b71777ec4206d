/** The trie against its specification: the flat list of registrations, searched
    template by template. */
module FlatList {
  import opened PathTrie

  datatype Registration<D> = Registration(path: Path, httpMethod: string, data: D)

  /** The trie after a sequence of registrations. */
  function Build<D>(regs: seq<Registration<D>>): Trie<D> {
    if regs == [] then Empty()
    else
      var r := regs[|regs| - 1];
      Insert(Build(regs[..|regs| - 1]), r.path, r.httpMethod, r.data, true)
  }

  predicate SameKey<D>(a: Registration<D>, b: Registration<D>) {
    a.path == b.path && a.httpMethod == b.httpMethod
  }

  predicate HasKey<D>(r: Registration<D>, path: Path, httpMethod: string) {
    r.path == path && r.httpMethod == httpMethod
  }

  /** The registration matches the request. */
  predicate Candidate<D>(r: Registration<D>, parts: Path, httpMethod: string) {
    Serves(r.httpMethod, httpMethod) && Matches(r.path, parts, false)
  }

  lemma {:induction false} BuildWellFlagged<D>(regs: seq<Registration<D>>)
    ensures WellFlagged(Build(regs)) && !Build(regs).wildcard
  {
    if regs != [] {
      var r := regs[|regs| - 1];
      BuildWellFlagged(regs[..|regs| - 1]);
      InsertWellFlagged(Build(regs[..|regs| - 1]), r.path, r.httpMethod, r.data, true);
    }
  }

  /** Nothing is stored that was not registered. */
  lemma {:induction false} AbsentFromBuild<D>(regs: seq<Registration<D>>, path: Path, httpMethod: string)
    ensures Get(Build(regs), path, httpMethod).None? <==>
            forall i :: 0 <= i < |regs| ==> !HasKey(regs[i], path, httpMethod)
  {
    if regs != [] {
      var front, r := regs[..|regs| - 1], regs[|regs| - 1];
      AbsentFromBuild(front, path, httpMethod);
      GetInsert(Build(front), r.path, r.httpMethod, r.data, true, path, httpMethod);
      assert regs == front + [r];
    }
  }

  lemma BuildAppend<D>(regs: seq<Registration<D>>, r: Registration<D>)
    ensures Build(regs + [r]) == Insert(Build(regs), r.path, r.httpMethod, r.data, true)
    ensures Get(Build(regs), r.path, r.httpMethod).Some? <==> exists i :: 0 <= i < |regs| && SameKey(regs[i], r)
  {
    assert (regs + [r])[..|regs|] == regs;
    AbsentFromBuild(regs, r.path, r.httpMethod);
    assert forall i :: 0 <= i < |regs| ==> (HasKey(regs[i], r.path, r.httpMethod) <==> SameKey(regs[i], r));
  }

  /** What is stored is the first registration with that path and method, marked when
      there was a second one. */
  lemma {:induction false} FirstStays<D>(regs: seq<Registration<D>>, path: Path, httpMethod: string) returns (i: nat)
    requires Get(Build(regs), path, httpMethod).Some?
    ensures i < |regs| && HasKey(regs[i], path, httpMethod)
    ensures forall j :: 0 <= j < i ==> !HasKey(regs[j], path, httpMethod)
    ensures Get(Build(regs), path, httpMethod).value.data == regs[i].data
    ensures Get(Build(regs), path, httpMethod).value.isMultiple <==>
            exists j :: i < j < |regs| && HasKey(regs[j], path, httpMethod)
  {
    var front, r := regs[..|regs| - 1], regs[|regs| - 1];
    GetInsert(Build(front), r.path, r.httpMethod, r.data, true, path, httpMethod);
    if Get(Build(front), path, httpMethod).None? {
      AbsentFromBuild(front, path, httpMethod);
      i := |regs| - 1;
    } else {
      i := FirstStays(front, path, httpMethod);
      if !HasKey(r, path, httpMethod) {
        assert forall j :: i < j < |regs| && HasKey(regs[j], path, httpMethod) ==> j < |front| && front[j] == regs[j];
      }
    }
  }

  /** Lookup finds nothing exactly when no registration matches. */
  lemma LookupFailsExactly<D>(regs: seq<Registration<D>>, parts: Path, httpMethod: string)
    ensures Lookup(Build(regs), parts, httpMethod).None? <==>
            forall i :: 0 <= i < |regs| ==> !Candidate(regs[i], parts, httpMethod)
  {
    var t := Build(regs);
    BuildWellFlagged(regs);
    if Lookup(t, parts, httpMethod).Some? {
      var path := LookupSound(t, parts, httpMethod);
      var m := if Get(t, path, httpMethod).Some? then httpMethod else ANY_METHOD;
      var i := FirstStays(regs, path, m);
      assert Candidate(regs[i], parts, httpMethod);
    } else {
      forall i | 0 <= i < |regs| ensures !Candidate(regs[i], parts, httpMethod) {
        if Candidate(regs[i], parts, httpMethod) {
          assert HasKey(regs[i], regs[i].path, regs[i].httpMethod);
          AbsentFromBuild(regs, regs[i].path, regs[i].httpMethod);
          LookupComplete(t, parts, httpMethod, regs[i].path);
        }
      }
    }
  }

  ghost predicate AllRestricted<D>(regs: seq<Registration<D>>) {
    forall i :: 0 <= i < |regs| ==> ConstantsAfterDeep(regs[i].path)
  }

  lemma BuildRestricted<D>(regs: seq<Registration<D>>)
    requires AllRestricted(regs)
    ensures Restricted(Build(regs))
  {
    BuildWellFlagged(regs);
    forall p, m | Get(Build(regs), p, m).Some? ensures ConstantsAfterDeep(p) {
      var i := FirstStays(regs, p, m);
    }
  }

  /** One registration is at least as good an answer as another: a better template, or the
      same template with the exact method before "*", or the earlier of two duplicates. */
  predicate NoWorse<D>(regs: seq<Registration<D>>, i: nat, j: nat, parts: Path, httpMethod: string)
    requires i < |regs| && j < |regs|
  {
    var a, b := regs[i], regs[j];
    if a.path != b.path then Beats(a.path, b.path, parts, false)
    else if a.httpMethod != b.httpMethod then a.httpMethod == httpMethod
    else i <= j
  }

  /** Lookup returns the data of the best matching registration. */
  lemma LookupFindsBest<D>(regs: seq<Registration<D>>, parts: Path, httpMethod: string) returns (i: nat)
    requires AllRestricted(regs)
    requires Lookup(Build(regs), parts, httpMethod).Some?
    ensures i < |regs| && Candidate(regs[i], parts, httpMethod)
    ensures Lookup(Build(regs), parts, httpMethod).value.data == regs[i].data
    ensures forall j :: 0 <= j < |regs| && Candidate(regs[j], parts, httpMethod)
                        ==> NoWorse(regs, i, j, parts, httpMethod)
  {
    var t := Build(regs);
    BuildWellFlagged(regs);
    BuildRestricted(regs);
    var path := LookupBest(t, parts, httpMethod);
    var m := if Get(t, path, httpMethod).Some? then httpMethod else ANY_METHOD;
    i := FirstStays(regs, path, m);
    forall j | 0 <= j < |regs| && Candidate(regs[j], parts, httpMethod)
      ensures NoWorse(regs, i, j, parts, httpMethod)
    {
      assert HasKey(regs[j], regs[j].path, regs[j].httpMethod);
      AbsentFromBuild(regs, regs[j].path, regs[j].httpMethod);
      assert Answer(t, regs[j].path, httpMethod).Some?;
    }
  }

  /** The best registration is unique, so "best" leaves the lookup no choice. */
  lemma BestIsUnique<D>(regs: seq<Registration<D>>, i: nat, j: nat, parts: Path, httpMethod: string)
    requires i < |regs| && j < |regs|
    requires NoWorse(regs, i, j, parts, httpMethod) && NoWorse(regs, j, i, parts, httpMethod)
    ensures i == j
  {
    if regs[i].path != regs[j].path {
      BeatsIsAsymmetric(regs[i].path, regs[j].path, parts, false);
    }
  }

  // ---------- order of registration

  function InsertReg<D>(t: Trie<D>, r: Registration<D>): Trie<D> {
    Insert(t, r.path, r.httpMethod, r.data, true)
  }

  function Tail<D>(r: Registration<D>): Registration<D>
    requires r.path != []
  {
    r.(path := r.path[1..])
  }

  /** The child that insertion descends into, after an earlier insertion. */
  lemma ChildAfter<D>(t: Trie<D>, r: Registration<D>, key: string)
    requires r.path != []
    ensures ChildFor(InsertReg(t, r), key) ==
            if key == r.path[0] then InsertReg(ChildFor(t, key), Tail(r)) else ChildFor(t, key)
  {
    InsertKeepsFlag(ChildFor(t, r.path[0]), Tail(r));
  }

  lemma InsertKeepsFlag<D>(t: Trie<D>, r: Registration<D>)
    ensures InsertReg(t, r).wildcard == t.wildcard
  {
  }

  lemma {:induction false} InsertionsCommute<D>(t: Trie<D>, a: Registration<D>, b: Registration<D>)
    requires !SameKey(a, b)
    ensures InsertReg(InsertReg(t, a), b) == InsertReg(InsertReg(t, b), a)
    decreases |a.path|
  {
    if a.path == [] && b.path == [] {
      ResultsCommute(t.results, a, b);
    } else if a.path != [] && b.path != [] {
      ChildAfter(t, a, b.path[0]);
      ChildAfter(t, b, a.path[0]);
      if a.path[0] == b.path[0] {
        assert a.path == [a.path[0]] + Tail(a).path && b.path == [b.path[0]] + Tail(b).path;
        InsertionsCommute(ChildFor(t, a.path[0]), Tail(a), Tail(b));
      }
      ChildrenCommute(t, a, b);
    }
  }

  lemma ResultsCommute<D>(results: map<string, Entry<D>>, a: Registration<D>, b: Registration<D>)
    requires a.httpMethod != b.httpMethod
    ensures Stored(Stored(results, a.httpMethod, a.data, true), b.httpMethod, b.data, true) ==
            Stored(Stored(results, b.httpMethod, b.data, true), a.httpMethod, a.data, true)
  {
  }

  lemma ChildrenCommute<D>(t: Trie<D>, a: Registration<D>, b: Registration<D>)
    requires a.path != [] && b.path != []
    requires InsertReg(ChildFor(InsertReg(t, a), b.path[0]), Tail(b)) ==
             if a.path[0] == b.path[0] then InsertReg(ChildFor(InsertReg(t, b), a.path[0]), Tail(a))
             else InsertReg(ChildFor(t, b.path[0]), Tail(b))
    requires a.path[0] != b.path[0] ==>
             InsertReg(ChildFor(InsertReg(t, b), a.path[0]), Tail(a)) == InsertReg(ChildFor(t, a.path[0]), Tail(a))
    ensures InsertReg(InsertReg(t, a), b) == InsertReg(InsertReg(t, b), a)
  {
    var ta, tb := InsertReg(t, a), InsertReg(t, b);
    assert InsertReg(ta, b).children == ta.children[b.path[0] := InsertReg(ChildFor(ta, b.path[0]), Tail(b))];
    assert InsertReg(tb, a).children == tb.children[a.path[0] := InsertReg(ChildFor(tb, a.path[0]), Tail(a))];
    assert InsertReg(ta, b).children == InsertReg(tb, a).children;
  }

  ghost predicate DistinctKeys<D>(regs: seq<Registration<D>>) {
    forall i, j :: 0 <= i < j < |regs| ==> !SameKey(regs[i], regs[j])
  }

  /** Moving one registration to the end changes nothing. */
  lemma {:induction false} MoveToEnd<D>(before: seq<Registration<D>>, x: Registration<D>, after: seq<Registration<D>>)
    requires forall i :: 0 <= i < |after| ==> !SameKey(x, after[i])
    ensures Build(before + [x] + after) == InsertReg(Build(before + after), x)
    decreases |after|
  {
    if after == [] {
      assert before + [x] + after == before + [x] && before + after == before;
      assert (before + [x])[..|before|] == before;
    } else {
      var front, y := after[..|after| - 1], after[|after| - 1];
      assert after == front + [y];
      var whole := before + [x] + after;
      assert whole[..|whole| - 1] == before + [x] + front;
      assert (before + after)[..|before + after| - 1] == before + front;
      MoveToEnd(before, x, front);
      InsertionsCommute(Build(before + front), x, y);
    }
  }

  lemma SplitAt<T>(ys: seq<T>, x: T) returns (before: seq<T>, after: seq<T>)
    requires x in multiset(ys)
    ensures ys == before + [x] + after
    ensures multiset(before + after) == multiset(ys) - multiset{x}
  {
    var k :| 0 <= k < |ys| && ys[k] == x;
    before, after := ys[..k], ys[k + 1..];
    assert ys == before + [x] + after;
  }

  lemma SameOthers<T>(front: seq<T>, x: T, ys: seq<T>, before: seq<T>, after: seq<T>)
    requires multiset(front + [x]) == multiset(ys) && multiset(before + after) == multiset(ys) - multiset{x}
    ensures multiset(front) == multiset(before + after) && multiset(after) <= multiset(front)
  {
    assert multiset(front + [x]) == multiset(front) + multiset{x};
    assert multiset(before + after) == multiset(before) + multiset(after);
  }

  lemma OthersDiffer<D>(front: seq<Registration<D>>, x: Registration<D>, others: seq<Registration<D>>)
    requires DistinctKeys(front + [x])
    requires multiset(others) <= multiset(front)
    ensures forall i :: 0 <= i < |others| ==> !SameKey(x, others[i])
  {
    forall i | 0 <= i < |others| ensures !SameKey(x, others[i]) {
      assert others[i] in multiset(others);
      assert others[i] in multiset(front);
      var j :| 0 <= j < |front| && front[j] == others[i];
      assert !SameKey((front + [x])[j], (front + [x])[|front|]);
    }
  }

  lemma InsertedAnywhere<D>(front: seq<Registration<D>>, x: Registration<D>,
                            before: seq<Registration<D>>, after: seq<Registration<D>>)
    requires DistinctKeys(front + [x]) && multiset(after) <= multiset(front)
    requires Build(front) == Build(before + after)
    ensures Build(front + [x]) == Build(before + [x] + after)
  {
    OthersDiffer(front, x, after);
    MoveToEnd(before, x, after);
    assert (front + [x])[..|front|] == front;
  }

  /** The trie, and so every lookup, depends only on which registrations were made,
      not on their order. */
  lemma {:induction false} OrderDoesNotMatter<D>(xs: seq<Registration<D>>, ys: seq<Registration<D>>)
    requires DistinctKeys(xs)
    requires multiset(xs) == multiset(ys)
    ensures Build(xs) == Build(ys)
    decreases |xs|
  {
    if xs == [] {
      assert |ys| == |multiset(ys)|;
    } else {
      var front, x := xs[..|xs| - 1], xs[|xs| - 1];
      assert xs == front + [x];
      var before, after := SplitAt(ys, x);
      SameOthers(front, x, ys, before, after);
      assert DistinctKeys(front);
      OrderDoesNotMatter(front, before + after);
      InsertedAnywhere(front, x, before, after);
    }
  }
}
