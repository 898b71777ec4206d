/** The path matcher of path_matcher.h: registration of templates and lookup of requests. */
module PathMatcher {
  import opened Wrappers
  import opened PathTrie
  import opened FlatList
  import opened TemplateGrammar
  import opened HttpTemplate
  import opened RequestPath
  import opened Bindings
  import opened BindingValues
  import opened PathMatcherNode

  /** What the matcher asks of a registered method. */
  datatype MethodInfo = MethodInfo(selector: string, keepBindingEscaped: bool)

  datatype MethodData = MethodData(info: MethodInfo, variables: seq<Variable>, bodyFieldPath: string)

  datatype Status = Ok | InvalidTemplate | Duplicate

  datatype Match = Match(info: MethodInfo, bindings: seq<Binding>, bodyFieldPath: string)

  type Rule = Registration<MethodData>

  /** The registration that a parsed template stands for. */
  function RuleFor(h: HttpTemplate, httpMethod: string, body: string, info: MethodInfo): Rule {
    Registration(FullPath(h), httpMethod, MethodData(info, h.variables, body))
  }

  /** The rule comes from a well-formed template. */
  ghost predicate FromTemplate(r: Rule, t: Template) {
    && WellFormed(t) && ConstantsAfterDeep(KeysOf(t.segments))
    && r.path == FullPath(Compile(t)) && r.data.variables == Compile(t).variables
  }

  lemma ParsedTemplate(s: string) returns (t: Template)
    requires ParseTemplate(s).Some?
    ensures WellFormed(t) && Print(t) == s && ConstantsAfterDeep(KeysOf(t.segments))
    ensures ParseTemplate(s) == Some(Compile(t)) && FullPath(Compile(t)) != []
  {
    t := Read(s).value;
    ReadIsInverseOfPrint(s, t);
    KeysOfNonEmpty(t.segments, false);
  }

  /** Parsing accepts exactly the printed forms of well-formed templates that have only
      constants after a "**", and compiles the template that was printed. */
  lemma ParserAcceptsGrammar(s: string)
    ensures ParseTemplate(s).Some? <==>
            exists t :: WellFormed(t) && Print(t) == s && ConstantsAfterDeep(KeysOf(t.segments))
    ensures forall t :: WellFormed(t) && Print(t) == s && ConstantsAfterDeep(KeysOf(t.segments))
                        ==> ParseTemplate(s) == Some(Compile(t))
  {
    forall t { ReadIsInverseOfPrint(s, t); }
  }

  /** A registered path has only constants after "**" unless a template with a "**" also has the
      verb "*" or "**". */
  lemma RestrictedUnlessWildVerb(t: Template)
    requires WellFormed(t) && ConstantsAfterDeep(KeysOf(t.segments))
    ensures ConstantsAfterDeep(FullPath(Compile(t))) <==>
            (DEEP !in KeysOf(t.segments) || !(t.verb == STAR || t.verb == DEEP))
  {
    var keys := KeysOf(t.segments);
    assert '/' in SINGLE_PARAMETER && (t.verb != "" ==> '/' !in t.verb) by {
      assert SINGLE_PARAMETER[0] == '/';
    }
    RestrictedAppend(keys, t.verb);
    assert keys + [] == keys;
  }

  /** Any parts, then a wildcard verb. */
  function DeepThenStar(): Template {
    Template([Deep], "*")
  }

  lemma DeepThenStarPrints()
    ensures WellFormed(DeepThenStar()) && Print(DeepThenStar()) == "/" + "**" + ":*"
    ensures KeysOf(DeepThenStar().segments) == [DEEP]
  {
    assert [Deep][1..] == [];
    assert PrintSegments([Deep]) == "**";
    assert KeysOfSegment(Deep) == [DEEP];
  }

  /** Such a template is accepted although a wildcard follows the "**" of its path. */
  lemma WildVerbEscapes()
    ensures var t := DeepThenStar();
            && ParseTemplate("/" + "**" + ":*") == Some(Compile(t))
            && FullPath(Compile(t)) == [DEEP, STAR] && !ConstantsAfterDeep(FullPath(Compile(t)))
  {
    var t := DeepThenStar();
    DeepThenStarPrints();
    assert ConstantsAfterDeep([DEEP]);
    RestrictedUnlessWildVerb(t);
    ReadComplete(t);
  }

  lemma {:induction false} RestrictedAppend(p: Path, last: string)
    requires ConstantsAfterDeep(p)
    ensures ConstantsAfterDeep(p + [last]) <==> (DEEP !in p || !IsWild(last))
  {
    if p == [] {
      assert [] + [last] == [last] && [last][1..] == [];
    } else {
      assert (p + [last])[1..] == p[1..] + [last] && (p + [last])[0] == p[0];
      if p[0] == DEEP {
        assert forall i :: 0 <= i < |p[1..]| ==> (p[1..] + [last])[i] == p[1..][i];
        assert (p[1..] + [last])[|p| - 1] == last;
      } else {
        RestrictedAppend(p[1..], last);
        assert p == [p[0]] + p[1..];
      }
    }
  }

  lemma RuleTemplate(s: string, parsed: Option<HttpTemplate>, httpMethod: string, body: string, info: MethodInfo)
    returns (t: Template)
    requires parsed == ParseTemplate(s)
    ensures parsed.Some? ==> FromTemplate(RuleFor(parsed.value, httpMethod, body, info), t)
  {
    if parsed.Some? {
      t := ParsedTemplate(s);
    } else {
      t := *;
    }
  }

  /** Every rule with the template it came from. */
  ghost predicate Documented(rules: seq<Rule>, templates: seq<Template>) {
    |rules| == |templates| && forall i :: 0 <= i < |rules| ==> FromTemplate(rules[i], templates[i])
  }

  lemma DocumentedGrows(rules: seq<Rule>, templates: seq<Template>, rule: Rule, t: Template)
    requires Documented(rules, templates) && FromTemplate(rule, t)
    ensures Documented(rules + [rule], templates + [t])
  {
  }

  // ---------- what registration leaves behind

  /** The rules that parsed, duplicates included, with the methods and verbs of the accepted ones. */
  datatype Book = Book(rules: seq<Rule>, methods: seq<MethodData>, verbs: set<string>)

  predicate IsNew(rules: seq<Rule>, rule: Rule) {
    forall i :: 0 <= i < |rules| ==> !SameKey(rules[i], rule)
  }

  function WithVerb(verbs: set<string>, verb: string): set<string> {
    if verb == "" then verbs else verbs + {verb}
  }

  /** The first registration of a path and HTTP method stays in force; only accepted ones make
      their verb known. */
  function Entered(b: Book, rule: Rule, verb: string): Book {
    if IsNew(b.rules, rule) then Book(b.rules + [rule], b.methods + [rule.data], WithVerb(b.verbs, verb))
    else b.(rules := b.rules + [rule])
  }

  /** Nothing changes for a template that does not parse. */
  function AfterRegister(b: Book, parsed: Option<HttpTemplate>, httpMethod: string, body: string,
                         info: MethodInfo): Book
  {
    if parsed.None? then b else Entered(b, RuleFor(parsed.value, httpMethod, body, info), parsed.value.verb)
  }

  function StatusFor(rules: seq<Rule>, parsed: Option<HttpTemplate>, httpMethod: string, body: string,
                     info: MethodInfo): Status
  {
    if parsed.None? then InvalidTemplate
    else if IsNew(rules, RuleFor(parsed.value, httpMethod, body, info)) then Ok
    else Duplicate
  }

  class PathMatcher {
    const root: PathMatcherNode<MethodData>
    var customVerbs: set<string>
    var methods: seq<MethodData>
    /** Every rule that parsed, duplicates included, with the template it came from. */
    ghost var Rules: seq<Rule>
    ghost var Templates: seq<Template>

    ghost predicate Valid()
      reads this, root, root.Repr
    {
      && root.Held() == Some(Build(Rules))
      && Documented(Rules, Templates)
      && "" !in customVerbs
    }

    ghost function Content(): Book
      reads this
    {
      Book(Rules, methods, customVerbs)
    }

    constructor ()
      ensures Valid() && fresh(root.Repr) && Content() == Book([], [], {})
    {
      root := new PathMatcherNode<MethodData>();
      customVerbs, methods, Rules, Templates := {}, [], [], [];
    }

    /** Puts a rule into the trie; returns whether its path and HTTP method are new, and then keeps
        its method and makes its verb known. */
    method Insert(rule: Rule, verb: string, ghost t: Template) returns (inserted: bool)
      requires Valid() && FromTemplate(rule, t)
      modifies this, root.Repr
      ensures Valid() && fresh(root.Repr - old(root.Repr))
      ensures inserted <==> IsNew(old(Rules), rule)
      ensures Content() == Entered(old(Content()), rule, verb)
    {
      BuildAppend(Rules, rule);
      DocumentedGrows(Rules, Templates, rule, t);
      ghost var rules, templates := Rules + [rule], Templates + [t];
      inserted := root.InsertTemplate(rule.path, rule.httpMethod, rule.data, true);
      assert root.Held() == Some(Build(rules));
      Record(inserted, rule.data, verb, rules, templates);
    }

    method Record(inserted: bool, data: MethodData, verb: string,
                  ghost rules: seq<Rule>, ghost templates: seq<Template>)
      requires root.Held() == Some(Build(rules)) && Documented(rules, templates) && "" !in customVerbs
      modifies this
      ensures Valid() && root.Repr == old(root.Repr) && Templates == templates
      ensures Content() == if inserted then Book(rules, old(methods) + [data], WithVerb(old(customVerbs), verb))
                           else Book(rules, old(methods), old(customVerbs))
    {
      Rules, Templates := rules, templates;
      if inserted {
        methods, customVerbs := methods + [data], WithVerb(customVerbs, verb);
      }
      root.HeldStays();
    }

    method RegisterIfParsed(parsed: Option<HttpTemplate>, httpMethod: string, body: string, info: MethodInfo,
                            ghost t: Template)
      returns (status: Status)
      requires Valid() && (parsed.Some? ==> FromTemplate(RuleFor(parsed.value, httpMethod, body, info), t))
      modifies this, root.Repr
      ensures Valid() && fresh(root.Repr - old(root.Repr))
      ensures status == StatusFor(old(Rules), parsed, httpMethod, body, info)
      ensures Content() == AfterRegister(old(Content()), parsed, httpMethod, body, info)
    {
      if parsed.None? {
        return InvalidTemplate;
      }
      var rule := RuleFor(parsed.value, httpMethod, body, info);
      var inserted := Insert(rule, parsed.value.verb, t);
      status := if inserted then Ok else Duplicate;
    }

    /** Registers a method under a template. */
    method Register(httpMethod: string, template: string, body: string, info: MethodInfo) returns (status: Status)
      requires Valid()
      modifies this, root.Repr
      ensures Valid() && fresh(root.Repr - old(root.Repr))
      ensures status == StatusFor(old(Rules), ParseTemplate(template), httpMethod, body, info)
      ensures Content() == AfterRegister(old(Content()), ParseTemplate(template), httpMethod, body, info)
    {
      var parsed := Parse(template);
      assert Valid();
      ghost var t := RuleTemplate(template, parsed, httpMethod, body, info);
      status := RegisterIfParsed(parsed, httpMethod, body, info, t);
    }

    /** Looks a request up: nothing is found exactly when no rule matches; otherwise some
        matching rule (the best one) answers, with the bindings of its variables. */
    method LookupRequest(httpMethod: string, path: string) returns (r: Option<Match>, ghost i: nat)
      requires Valid()
      ensures var parts := RequestParts(path, customVerbs);
              && (r.None? <==> forall j :: 0 <= j < |Rules| ==> !Candidate(Rules[j], parts, httpMethod))
              && (r.Some? ==>
                    && i < |Rules| && Candidate(Rules[i], parts, httpMethod)
                    && Answered(r.value, Rules[i].data, parts)
                    && (AllRestricted(Rules) ==>
                          forall j :: 0 <= j < |Rules| && Candidate(Rules[j], parts, httpMethod)
                                      ==> NoWorse(Rules, i, j, parts, httpMethod)))
    {
      i := 0;
      var parts := ExtractRequestParts(path, customVerbs);
      var found := root.LookupPath(parts, httpMethod);
      LookupFailsExactly(Rules, parts, httpMethod);
      if found.None? {
        return None, i;
      }
      var data := found.value.data;
      i := RuleFound(Rules, parts, httpMethod);
      RuleRanges(Rules[i], Templates[i], parts);
      var bindings := ExtractBindingsFromPath(data.variables, parts, data.info.keepBindingEscaped);
      r := Some(Match(data.info, bindings, data.bodyFieldPath));
    }
  }

  /** The answer that a rule's data gives for a request. */
  ghost predicate Answered(m: Match, data: MethodData, parts: Path) {
    && m.info == data.info && m.bodyFieldPath == data.bodyFieldPath
    && |m.bindings| == |data.variables|
    && forall k :: 0 <= k < |data.variables| ==>
         RangeExists(data.variables[k], |parts|)
         && m.bindings[k] == BindingOf(data.variables[k], parts, data.info.keepBindingEscaped)
  }

  lemma RuleFound(rules: seq<Rule>, parts: Path, httpMethod: string) returns (i: nat)
    requires Lookup(Build(rules), parts, httpMethod).Some?
    ensures i < |rules| && Candidate(rules[i], parts, httpMethod)
    ensures Lookup(Build(rules), parts, httpMethod).value.data == rules[i].data
    ensures AllRestricted(rules) ==>
              forall j :: 0 <= j < |rules| && Candidate(rules[j], parts, httpMethod)
                          ==> NoWorse(rules, i, j, parts, httpMethod)
  {
    if AllRestricted(rules) {
      i := LookupFindsBest(rules, parts, httpMethod);
    } else {
      BuildWellFlagged(rules);
      var path := LookupSound(Build(rules), parts, httpMethod);
      var m := if Get(Build(rules), path, httpMethod).Some? then httpMethod else ANY_METHOD;
      i := FirstStays(rules, path, m);
    }
  }

  lemma RuleRanges(r: Rule, t: Template, parts: Path)
    requires FromTemplate(r, t) && Matches(r.path, parts, false)
    ensures forall k :: 0 <= k < |r.data.variables| ==> RangeExists(r.data.variables[k], |parts|)
  {
    forall k | 0 <= k < |r.data.variables| ensures RangeExists(r.data.variables[k], |parts|) {
      RangesExist(t, parts, k);
    }
  }
}
