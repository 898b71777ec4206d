/** Loading HTTP rules and the CORS expansion of config.cc. */
module HttpRules {
  import opened Wrappers
  import opened PathTrie
  import opened FlatList
  import opened HttpTemplate
  import opened Bindings
  import opened Decimal
  import opened PathMatcher

  const OPTIONS: string := "OPTIONS"
  const CORS: string := "CORS"

  datatype Pattern =
    | GetUrl(url: string)
    | PutUrl(url: string)
    | PostUrl(url: string)
    | DeleteUrl(url: string)
    | PatchUrl(url: string)
    | Custom(kind: string, url: string)
    | NoPattern

  datatype HttpBinding = HttpBinding(pattern: Pattern, body: string)

  /** A rule with its additional bindings. */
  datatype HttpRule = HttpRule(selector: string, binding: HttpBinding, additional: seq<HttpBinding>)

  function MethodOf(p: Pattern): string {
    match p
    case GetUrl(_) => "GET"
    case PutUrl(_) => "PUT"
    case PostUrl(_) => "POST"
    case DeleteUrl(_) => "DELETE"
    case PatchUrl(_) => "PATCH"
    case Custom(kind, _) => kind
    case NoPattern => ""
  }

  function UrlOf(p: Pattern): string {
    if p.NoPattern? then "" else p.url
  }

  /** The trie path of a template. */
  function PathOf(url: string): Option<Path> {
    var h := ParseTemplate(url);
    if h.None? then None else Some(FullPath(h.value))
  }

  // ---------- a selector that is not in use

  /** CORS, CORS.1, CORS.2 and so on. */
  function CorsName(n: nat): string {
    if n == 0 then CORS else CORS + "." + Dec(n)
  }

  lemma CorsNamesDiffer(m: nat, n: nat)
    requires CorsName(m) == CorsName(n)
    ensures m == n
  {
    assert m > 0 ==> CorsName(m)[5..] == Dec(m);
    assert n > 0 ==> CorsName(n)[5..] == Dec(n);
    if m > 0 && n > 0 { DecIsInjective(m, n); }
  }

  ghost function CorsNames(n: nat): set<string> {
    set k: nat | 0 <= k < n :: CorsName(k)
  }

  lemma {:induction false} CorsNamesAreMany(n: nat)
    ensures |CorsNames(n)| == n
  {
    if n == 0 {
      assert CorsNames(0) == {};
    } else {
      CorsNamesAreMany(n - 1);
      assert CorsNames(n) == CorsNames(n - 1) + {CorsName(n - 1)};
      if CorsName(n - 1) in CorsNames(n - 1) {
        var k: nat :| 0 <= k < n - 1 && CorsName(k) == CorsName(n - 1);
        CorsNamesDiffer(k, n - 1);
      }
    }
  }

  lemma {:induction false} SubsetIsNoLarger<T>(a: set<T>, b: set<T>)
    requires a <= b
    ensures |a| <= |b|
  {
    if a != {} {
      var x :| x in a;
      SubsetIsNoLarger(a - {x}, b - {x});
    }
  }

  /** The search stops at the first free name, after at most one probe more than there are names
      in use. */
  method FreshSelector(used: set<string>) returns (selector: string, n: nat)
    ensures selector == CorsName(n) && selector !in used
    ensures forall k: nat :: k < n ==> CorsName(k) in used
    ensures n <= |used|
  {
    selector, n := CORS, 0;
    while selector in used
      invariant selector == CorsName(n) && n <= |used|
      invariant forall k: nat :: k < n ==> CorsName(k) in used
      decreases |used| - n
    {
      assert n < |used| by {
        assert CorsNames(n + 1) <= used;
        CorsNamesAreMany(n + 1);
        SubsetIsNoLarger(CorsNames(n + 1), used);
      }
      n := n + 1;
      selector := CORS + "." + Dec(n);
    }
  }

  // ---------- rules

  /** The verb of a template, "" when it has none or does not parse. */
  function VerbOf(url: string): string {
    var h := ParseTemplate(url);
    if h.None? then "" else h.value.verb
  }

  /** The template of a binding: none without a pattern, a url or a template that parses. */
  function TemplateOf(p: Pattern): Option<HttpTemplate> {
    if p.NoPattern? || UrlOf(p) == "" then None else ParseTemplate(UrlOf(p))
  }

  /** The binding can be registered and its path and method are new. */
  predicate Accepts(rules: seq<Rule>, b: HttpBinding, info: MethodInfo) {
    StatusFor(rules, TemplateOf(b.pattern), MethodOf(b.pattern), b.body, info).Ok?
  }

  function AfterBinding(t: Book, b: HttpBinding, info: MethodInfo): Book {
    AfterRegister(t, TemplateOf(b.pattern), MethodOf(b.pattern), b.body, info)
  }

  function AfterBindings(t: Book, bs: seq<HttpBinding>, info: MethodInfo): Book {
    if bs == [] then t else AfterBinding(AfterBindings(t, bs[..|bs| - 1], info), bs[|bs| - 1], info)
  }

  lemma BindingsGrow(t: Book, bs: seq<HttpBinding>, i: nat, info: MethodInfo)
    requires i < |bs|
    ensures AfterBindings(t, bs[..i + 1], info) == AfterBinding(AfterBindings(t, bs[..i], info), bs[i], info)
  {
    assert bs[..i + 1][..i] == bs[..i];
  }

  /** Additional bindings count only when the main one is accepted. */
  function AfterRule(t: Book, r: HttpRule): Book {
    AfterMainAndMore(t, r.binding, r.additional, MethodInfo(r.selector, false))
  }

  function AfterMainAndMore(t: Book, b: HttpBinding, bs: seq<HttpBinding>, info: MethodInfo): Book {
    AfterBindings(AfterBinding(t, b, info), if Accepts(t.rules, b, info) then bs else [], info)
  }

  function AfterRules(t: Book, rs: seq<HttpRule>): Book {
    if rs == [] then t else AfterRule(AfterRules(t, rs[..|rs| - 1]), rs[|rs| - 1])
  }

  lemma RulesGrow(t: Book, rs: seq<HttpRule>, i: nat)
    requires i < |rs|
    ensures AfterRules(t, rs[..i + 1]) == AfterRule(AfterRules(t, rs[..i]), rs[i])
  {
    assert rs[..i + 1][..i] == rs[..i];
  }

  /** Some rule of the list serves OPTIONS on a path. */
  ghost predicate ServesOptions(rules: seq<Rule>, path: Path) {
    exists i :: 0 <= i < |rules| && HasKey(rules[i], path, OPTIONS)
  }

  /** Every url of the set is served for OPTIONS. */
  ghost predicate Covered(rules: seq<Rule>, urls: set<string>) {
    forall u {:trigger PathOf(u)} :: u in urls ==> PathOf(u).Some? && ServesOptions(rules, PathOf(u).value)
  }

  /** From an index on, the rules are OPTIONS rules of one method. */
  ghost predicate OnlyOptions(rules: seq<Rule>, from: nat, info: MethodInfo) {
    forall i :: from <= i < |rules| ==> rules[i].httpMethod == OPTIONS && rules[i].data.info == info
  }

  /** Every selector of the rules is in use, and so are those that were. */
  ghost predicate InUse(before: map<string, MethodInfo>, rs: seq<HttpRule>, after: map<string, MethodInfo>) {
    && (forall s :: s in before ==> s in after)
    && (forall i :: 0 <= i < |rs| ==> rs[i].selector in after)
  }

  lemma InUseGrows(before: map<string, MethodInfo>, rs: seq<HttpRule>, after: map<string, MethodInfo>,
                   i: nat, info: MethodInfo)
    requires i < |rs| && InUse(before, rs[..i], after)
    ensures InUse(before, rs[..i + 1], after[rs[i].selector := info])
  {
    assert forall k :: 0 <= k < i ==> rs[..i + 1][k] == rs[..i][k];
  }

  /** Rules were only added, all for OPTIONS, and some urls are served by now. */
  ghost predicate Expanded(before: seq<Rule>, rules: seq<Rule>, info: MethodInfo, urls: set<string>) {
    before <= rules && Covered(rules, urls) && OnlyOptions(rules, |before|, info)
  }

  /** The urls parse, and their verbs are known. */
  ghost predicate Familiar(urls: set<string>, verbs: set<string>) {
    forall u {:trigger PathOf(u)} :: u in urls ==> PathOf(u).Some? && WithVerb(verbs, VerbOf(u)) == verbs
  }

  lemma TakeOne<T>(all: set<T>, left: set<T>, x: T)
    requires left <= all && x in left
    ensures all - (left - {x}) == all - left + {x}
  {
  }

  ghost predicate IsOptionsRule(rule: Rule, url: string, info: MethodInfo) {
    rule.data.info == info && PathOf(url).Some? && HasKey(rule, PathOf(url).value, OPTIONS)
  }

  lemma ExpandedGrows(before: seq<Rule>, rules: seq<Rule>, info: MethodInfo, urls: set<string>,
                      rule: Rule, url: string)
    requires Expanded(before, rules, info, urls) && IsOptionsRule(rule, url, info)
    ensures Expanded(before, rules + [rule], info, urls + {url})
  {
    forall u | u in urls + {url} ensures PathOf(u).Some? && ServesOptions(rules + [rule], PathOf(u).value) {
      if u == url {
        assert (rules + [rule])[|rules|] == rule;
      } else {
        assert ServesOptions(rules, PathOf(u).value);
        var i :| 0 <= i < |rules| && HasKey(rules[i], PathOf(u).value, OPTIONS);
        assert (rules + [rule])[i] == rules[i];
      }
    }
  }

  // ---------- what the added rules mean for requests

  lemma {:induction false} NothingBelow<D>(t: Trie<D>, parts: Path, httpMethod: string)
    requires t.results == map[] && t.children == map[]
    ensures Lookup(t, parts, httpMethod).None?
    decreases |parts|
  {
    if parts != [] {
      NothingBelow(t, parts[1..], httpMethod);
    }
  }

  /** A registration is invisible to the methods that it does not serve. */
  lemma {:induction false} OtherMethodsUnaffected<D>(t: Trie<D>, r: Registration<D>, parts: Path, httpMethod: string)
    requires WellFlagged(t) && !Serves(r.httpMethod, httpMethod)
    ensures Lookup(InsertReg(t, r), parts, httpMethod) == Lookup(t, parts, httpMethod)
    decreases |parts|
  {
    if r.path == [] {
      if parts != [] {
        OthersThroughChildren(t, r, parts, httpMethod);
        OtherMethodsUnaffected(t, r, parts[1..], httpMethod);
      }
    } else if parts == [] {
      assert ResultFor(InsertReg(ChildFor(t, DEEP), Tail(r)), httpMethod) == ResultFor(ChildFor(t, DEEP), httpMethod);
    } else {
      OthersThroughChildren(t, r, parts, httpMethod);
      OtherMethodsUnaffected(t, r, parts[1..], httpMethod);
    }
  }

  lemma {:induction false} OthersThroughChildren<D>(t: Trie<D>, r: Registration<D>, parts: Path, httpMethod: string)
    requires WellFlagged(t) && !Serves(r.httpMethod, httpMethod) && parts != []
    ensures forall key {:trigger LookupFromChild(t, key, parts, httpMethod)} ::
              LookupFromChild(InsertReg(t, r), key, parts, httpMethod) == LookupFromChild(t, key, parts, httpMethod)
    decreases |parts|, 0
  {
    if r.path != [] {
      var child := ChildFor(t, r.path[0]);
      OtherMethodsUnaffected(child, Tail(r), parts[1..], httpMethod);
      if r.path[0] !in t.children {
        NothingBelow(child, parts[1..], httpMethod);
      }
    }
  }

  /** The CORS expansion changes no answer for any method but OPTIONS. */
  lemma {:induction false} OnlyOptionsChange(before: seq<Rule>, rules: seq<Rule>, info: MethodInfo,
                                             parts: Path, httpMethod: string)
    requires before <= rules && OnlyOptions(rules, |before|, info) && httpMethod != OPTIONS
    ensures Lookup(Build(rules), parts, httpMethod) == Lookup(Build(before), parts, httpMethod)
    decreases |rules|
  {
    if |before| < |rules| {
      var front := rules[..|rules| - 1];
      OnlyOptionsChange(before, front, info, parts, httpMethod);
      BuildWellFlagged(front);
      OtherMethodsUnaffected(Build(front), rules[|rules| - 1], parts, httpMethod);
    } else {
      assert before == rules;
    }
  }

  /** What a path already serves is not displaced by later rules. */
  lemma EarlierRulesStay(before: seq<Rule>, rules: seq<Rule>, path: Path, httpMethod: string)
    requires before <= rules && Get(Build(before), path, httpMethod).Some?
    ensures Get(Build(rules), path, httpMethod).Some?
    ensures Get(Build(rules), path, httpMethod).value.data == Get(Build(before), path, httpMethod).value.data
  {
    var i := FirstStays(before, path, httpMethod);
    assert HasKey(rules[i], path, httpMethod);
    AbsentFromBuild(rules, path, httpMethod);
    var j := FirstStays(rules, path, httpMethod);
    assert i == j;
  }

  /** Every request that some accepted rule matches is answered for OPTIONS. */
  lemma OptionsAnswered(rules: seq<Rule>, start: nat, i: nat, parts: Path)
    requires start <= i < |rules| && FirstOfKey(rules, i) && Matches(rules[i].path, parts, false)
    requires OptionsEverywhere(rules, start)
    ensures Lookup(Build(rules), parts, OPTIONS).Some?
  {
    assert ServesOptions(rules, rules[i].path);
    var j :| 0 <= j < |rules| && HasKey(rules[j], rules[i].path, OPTIONS);
    assert Candidate(rules[j], parts, OPTIONS);
    LookupFailsExactly(rules, parts, OPTIONS);
  }

  /** The rule was accepted: no earlier one has its path and method. */
  ghost predicate FirstOfKey(rules: seq<Rule>, i: nat)
    requires i < |rules|
  {
    forall j :: 0 <= j < i ==> !SameKey(rules[j], rules[i])
  }

  /** The paths of the rules accepted from an index on are all served for OPTIONS. */
  ghost predicate OptionsEverywhere(rules: seq<Rule>, start: nat) {
    forall i :: start <= i < |rules| && FirstOfKey(rules, i) ==> ServesOptions(rules, rules[i].path)
  }

  ghost predicate Known(urls: set<string>, path: Path) {
    exists u :: u in urls && PathOf(u) == Some(path)
  }

  /** The urls hold every path accepted from an index on for a method other than OPTIONS. */
  ghost predicate Holds(rules: seq<Rule>, start: nat, urls: set<string>) {
    forall i :: start <= i < |rules| && rules[i].httpMethod != OPTIONS && FirstOfKey(rules, i) ==>
      Known(urls, rules[i].path)
  }

  ghost predicate Remembered(t: Book, start: nat, urls: set<string>) {
    Familiar(urls, t.verbs) && Holds(t.rules, start, urls)
  }

  lemma HoldsGrows(rules: seq<Rule>, start: nat, urls: set<string>, rule: Rule, urls': set<string>)
    requires Holds(rules, start, urls) && urls <= urls'
    requires rule.httpMethod != OPTIONS && IsNew(rules, rule) ==> Known(urls', rule.path)
    ensures Holds(rules + [rule], start, urls')
  {
    var grown := rules + [rule];
    forall i | start <= i < |grown| && grown[i].httpMethod != OPTIONS && FirstOfKey(grown, i)
      ensures Known(urls', grown[i].path)
    {
      if i < |rules| {
        assert FirstOfKey(rules, i) by {
          assert forall j :: 0 <= j < i ==> rules[j] == grown[j];
        }
        assert Known(urls, rules[i].path);
        var u :| u in urls && PathOf(u) == Some(rules[i].path);
        assert u in urls';
      } else {
        assert forall j :: 0 <= j < |rules| ==> rules[j] == grown[j];
      }
    }
  }

  lemma FamiliarGrows(urls: set<string>, verbs: set<string>, url: string, keep: bool)
    requires Familiar(urls, verbs) && PathOf(url).Some?
    ensures Familiar(urls + (if keep then {url} else {}), WithVerb(verbs, VerbOf(url)))
  {
    var verbs' := WithVerb(verbs, VerbOf(url));
    forall u | u in urls + {url} ensures PathOf(u).Some? && WithVerb(verbs', VerbOf(u)) == verbs' {
      if u in urls { assert PathOf(u).Some? && WithVerb(verbs, VerbOf(u)) == verbs; }
    }
  }

  /** Remembering the url of an accepted binding is enough. */
  lemma BindingRemembered(t: Book, start: nat, urls: set<string>, b: HttpBinding, info: MethodInfo, urls': set<string>)
    requires Remembered(t, start, urls)
    requires urls' == if Accepts(t.rules, b, info) && MethodOf(b.pattern) != OPTIONS then urls + {UrlOf(b.pattern)}
                      else urls
    ensures Remembered(AfterBinding(t, b, info), start, urls')
  {
    var h := TemplateOf(b.pattern);
    if h.Some? {
      var rule, url := RuleFor(h.value, MethodOf(b.pattern), b.body, info), UrlOf(b.pattern);
      assert PathOf(url) == Some(rule.path) && VerbOf(url) == h.value.verb;
      if rule.httpMethod != OPTIONS && IsNew(t.rules, rule) { assert url in urls'; }
      HoldsGrows(t.rules, start, urls, rule, urls');
      if IsNew(t.rules, rule) { FamiliarGrows(urls, t.verbs, url, MethodOf(b.pattern) != OPTIONS); }
    }
  }

  /** Held urls that are served for OPTIONS make OPTIONS served everywhere. */
  lemma HeldIsCovered(before: seq<Rule>, rules: seq<Rule>, start: nat, info: MethodInfo, urls: set<string>)
    requires Holds(before, start, urls) && Expanded(before, rules, info, urls)
    ensures OptionsEverywhere(rules, start)
  {
    forall i | start <= i < |rules| && FirstOfKey(rules, i) ensures ServesOptions(rules, rules[i].path) {
      if rules[i].httpMethod == OPTIONS {
        assert HasKey(rules[i], rules[i].path, OPTIONS);
      } else {
        assert rules[i] == before[i];
        assert FirstOfKey(before, i) by {
          assert forall j :: 0 <= j < i ==> rules[j] == before[j];
        }
        var u :| u in urls && PathOf(u) == Some(before[i].path);
      }
    }
  }

  class Config {
    var methodMap: map<string, MethodInfo>
    const matcher: PathMatcher

    ghost predicate Valid()
      reads this, matcher, matcher.root, matcher.root.Repr
    {
      matcher.Valid() && forall s :: s in methodMap ==> methodMap[s] == MethodInfo(s, false)
    }

    ghost function Registered(): Book
      reads matcher
    {
      matcher.Content()
    }

    constructor ()
      ensures Valid() && methodMap == map[] && Registered() == Book([], [], {})
      ensures fresh(matcher) && fresh(matcher.root.Repr)
    {
      methodMap := map[];
      matcher := new PathMatcher();
    }

    method GetOrCreateMethodInfo(selector: string) returns (info: MethodInfo)
      requires Valid()
      modifies this`methodMap
      ensures Valid() && info == MethodInfo(selector, false)
      ensures methodMap == old(methodMap)[selector := info]
    {
      if selector !in methodMap {
        methodMap := methodMap[selector := MethodInfo(selector, false)];
      }
      info := methodMap[selector];
    }

    method RegisterBinding(info: MethodInfo, b: HttpBinding) returns (ok: bool)
      requires Valid()
      modifies matcher, matcher.root.Repr
      ensures Valid() && fresh(matcher.root.Repr - old(matcher.root.Repr))
      ensures ok <==> Accepts(old(matcher.Rules), b, info)
      ensures Registered() == AfterBinding(old(Registered()), b, info)
    {
      var url := UrlOf(b.pattern);
      if b.pattern.NoPattern? || url == "" {
        return false;
      }
      var status := matcher.Register(MethodOf(b.pattern), url, b.body, info);
      return status.Ok?;
    }

    /** Registers one binding; the url of an accepted one for anything but OPTIONS is remembered. */
    method RegisterHttpRule(info: MethodInfo, b: HttpBinding, urls: set<string>, ghost start: nat)
      returns (ok: bool, urls': set<string>)
      requires Valid() && Remembered(Registered(), start, urls)
      modifies matcher, matcher.root.Repr
      ensures Valid() && fresh(matcher.root.Repr - old(matcher.root.Repr))
      ensures ok <==> Accepts(old(matcher.Rules), b, info)
      ensures Registered() == AfterBinding(old(Registered()), b, info)
      ensures Remembered(Registered(), start, urls')
    {
      ghost var before := Registered();
      ok := RegisterBinding(info, b);
      urls' := if ok && MethodOf(b.pattern) != OPTIONS then urls + {UrlOf(b.pattern)} else urls;
      BindingRemembered(before, start, urls, b, info, urls');
    }

    method RegisterAdditional(info: MethodInfo, bs: seq<HttpBinding>, urls: set<string>, ghost start: nat)
      returns (urls': set<string>)
      requires Valid() && Remembered(Registered(), start, urls)
      modifies matcher, matcher.root.Repr
      ensures Valid() && fresh(matcher.root.Repr - old(matcher.root.Repr))
      ensures Registered() == AfterBindings(old(Registered()), bs, info)
      ensures Remembered(Registered(), start, urls')
    {
      urls' := urls;
      var i := 0;
      while i < |bs|
        invariant 0 <= i <= |bs|
        invariant Valid() && fresh(matcher.root.Repr - old(matcher.root.Repr))
        invariant Registered() == AfterBindings(old(Registered()), bs[..i], info)
        invariant Remembered(Registered(), start, urls')
      {
        urls' := RegisterNext(info, bs, i, urls', start, old(Registered()));
        i := i + 1;
      }
      assert bs[..i] == bs;
    }

    method RegisterNext(info: MethodInfo, bs: seq<HttpBinding>, i: nat, urls: set<string>, ghost start: nat,
                        ghost before: Book)
      returns (urls': set<string>)
      requires Valid() && Remembered(Registered(), start, urls)
      requires i < |bs| && Registered() == AfterBindings(before, bs[..i], info)
      modifies matcher, matcher.root.Repr
      ensures Valid() && fresh(matcher.root.Repr - old(matcher.root.Repr))
      ensures Registered() == AfterBindings(before, bs[..i + 1], info)
      ensures Remembered(Registered(), start, urls')
    {
      BindingsGrow(before, bs, i, info);
      var _, grown := RegisterHttpRule(info, bs[i], urls, start);
      return grown;
    }

    method LoadHttpRule(r: HttpRule, urls: set<string>, ghost start: nat) returns (urls': set<string>)
      requires Valid() && Remembered(Registered(), start, urls)
      modifies this`methodMap, matcher, matcher.root.Repr
      ensures Valid() && fresh(matcher.root.Repr - old(matcher.root.Repr))
      ensures Registered() == AfterRule(old(Registered()), r)
      ensures methodMap == old(methodMap)[r.selector := MethodInfo(r.selector, false)]
      ensures Remembered(Registered(), start, urls')
    {
      var info := GetOrCreateMethodInfo(r.selector);
      urls' := RegisterBindings(info, r.binding, r.additional, urls, start);
    }

    method RegisterBindings(info: MethodInfo, b: HttpBinding, bs: seq<HttpBinding>, urls: set<string>, ghost start: nat)
      returns (urls': set<string>)
      requires Valid() && Remembered(Registered(), start, urls)
      modifies matcher, matcher.root.Repr
      ensures Valid() && fresh(matcher.root.Repr - old(matcher.root.Repr))
      ensures Registered() == AfterMainAndMore(old(Registered()), b, bs, info)
      ensures Remembered(Registered(), start, urls')
    {
      var ok, main := RegisterHttpRule(info, b, urls, start);
      urls' := RegisterAdditional(info, if ok then bs else [], main, start);
    }

    /** Registers every rule; with CORS allowed, every path they opened answers OPTIONS too. */
    method LoadHttpMethods(rs: seq<HttpRule>, allowCors: bool) returns (ghost info: MethodInfo)
      requires Valid()
      modifies this`methodMap, matcher, matcher.root.Repr
      ensures Valid() && fresh(matcher.root.Repr - old(matcher.root.Repr))
      ensures !allowCors ==> Registered() == AfterRules(old(Registered()), rs)
      ensures matcher.customVerbs == AfterRules(old(Registered()), rs).verbs
      ensures allowCors ==>
                && OptionsEverywhere(matcher.Rules, |old(matcher.Rules)|)
                && AfterRules(old(Registered()), rs).rules <= matcher.Rules
                && OnlyOptions(matcher.Rules, |AfterRules(old(Registered()), rs).rules|, info)
                && info.selector !in old(methodMap) && forall i :: 0 <= i < |rs| ==> info.selector != rs[i].selector
    {
      ghost var start := |matcher.Rules|;
      info := MethodInfo(CORS, false);
      var urls := LoadHttpRules(rs);
      if allowCors {
        ghost var rules := matcher.Rules;
        info := AddOptionsMethodForAllUrls(urls);
        HeldIsCovered(rules, matcher.Rules, start, info, urls);
      }
    }

    method LoadHttpRules(rs: seq<HttpRule>) returns (urls: set<string>)
      requires Valid()
      modifies this`methodMap, matcher, matcher.root.Repr
      ensures Valid() && fresh(matcher.root.Repr - old(matcher.root.Repr))
      ensures Registered() == AfterRules(old(Registered()), rs)
      ensures InUse(old(methodMap), rs, methodMap)
      ensures Remembered(Registered(), |old(matcher.Rules)|, urls)
    {
      urls := {};
      var i := 0;
      while i < |rs|
        invariant 0 <= i <= |rs|
        invariant Valid() && fresh(matcher.root.Repr - old(matcher.root.Repr))
        invariant Registered() == AfterRules(old(Registered()), rs[..i])
        invariant InUse(old(methodMap), rs[..i], methodMap)
        invariant Remembered(Registered(), |old(matcher.Rules)|, urls)
      {
        InUseGrows(old(methodMap), rs, methodMap, i, MethodInfo(rs[i].selector, false));
        RulesGrow(old(Registered()), rs, i);
        urls := LoadHttpRule(rs[i], urls, |old(matcher.Rules)|);
        i := i + 1;
      }
      assert rs[..i] == rs;
    }

    /** Registers OPTIONS for every remembered url, under a selector that no rule uses. */
    method AddOptionsMethodForAllUrls(urls: set<string>) returns (ghost info: MethodInfo)
      requires Valid() && Familiar(urls, matcher.customVerbs)
      modifies this`methodMap, matcher, matcher.root.Repr
      ensures Valid() && fresh(matcher.root.Repr - old(matcher.root.Repr))
      ensures info.selector !in old(methodMap) && methodMap == old(methodMap)[info.selector := info]
      ensures Expanded(old(matcher.Rules), matcher.Rules, info, urls) && matcher.customVerbs == old(matcher.customVerbs)
    {
      var selector, _ := FreshSelector(methodMap.Keys);
      var cors := GetOrCreateMethodInfo(selector);
      RegisterOptions(urls, cors);
      info := cors;
    }

    method RegisterOptions(urls: set<string>, info: MethodInfo)
      requires Valid() && Familiar(urls, matcher.customVerbs)
      modifies matcher, matcher.root.Repr
      ensures Valid() && fresh(matcher.root.Repr - old(matcher.root.Repr))
      ensures Expanded(old(matcher.Rules), matcher.Rules, info, urls) && matcher.customVerbs == old(matcher.customVerbs)
    {
      var left := urls;
      assert urls - left == {};
      while left != {}
        invariant left <= urls && Valid() && fresh(matcher.root.Repr - old(matcher.root.Repr))
        invariant Expanded(old(matcher.Rules), matcher.Rules, info, urls - left)
        invariant matcher.customVerbs == old(matcher.customVerbs)
        decreases left
      {
        var url :| url in left;
        ghost var rules := matcher.Rules;
        ghost var rule := RegisterOption(url, info);
        ExpandedGrows(old(matcher.Rules), rules, info, urls - left, rule, url);
        TakeOne(urls, left, url);
        left := left - {url};
      }
      assert urls - left == urls;
    }

    method RegisterOption(url: string, info: MethodInfo) returns (ghost rule: Rule)
      requires Valid() && PathOf(url).Some? && WithVerb(matcher.customVerbs, VerbOf(url)) == matcher.customVerbs
      modifies matcher, matcher.root.Repr
      ensures Valid() && fresh(matcher.root.Repr - old(matcher.root.Repr))
      ensures matcher.Rules == old(matcher.Rules) + [rule]
      ensures IsOptionsRule(rule, url, info) && matcher.customVerbs == old(matcher.customVerbs)
    {
      rule := RuleFor(ParseTemplate(url).value, OPTIONS, "", info);
      var _ := matcher.Register(OPTIONS, url, "", info);
    }
  }
}
