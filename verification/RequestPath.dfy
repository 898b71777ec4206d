/** Splitting a request path into the parts that the trie matches: split and
    ExtractRequestParts of path_matcher.h. */
module RequestPath {
  import opened Wrappers
  import opened PathTrie
  import opened TemplateGrammar

  /** Splitting as repeated getline does it: no part after a final delimiter. */
  function Split(s: string, delim: char): Path
    decreases |s|
  {
    if s == "" then []
    else
      var n := Span(s, {delim});
      [s[..n]] + (if n < |s| then Split(s[n + 1..], delim) else [])
  }

  /** The getline loop. */
  method SplitAt(s: string, delim: char) returns (parts: Path)
    ensures parts == Split(s, delim)
  {
    parts := [];
    var rest := s;
    while rest != ""
      invariant Split(s, delim) == parts + Split(rest, delim)
      decreases |rest|
    {
      var n := Span(rest, {delim});
      parts := parts + [rest[..n]];
      rest := if n < |rest| then rest[n + 1..] else "";
    }
  }

  function LastIndexOf(s: string, c: char): (r: Option<nat>)
    ensures r.Some? ==> r.value < |s|
  {
    if s == "" then None
    else if s[|s| - 1] == c then Some(|s| - 1)
    else LastIndexOf(s[..|s| - 1], c)
  }

  lemma AvoidsAppend(s: string, x: char, c: char)
    requires x != c && Avoids(s, {c})
    ensures Avoids(s + [x], {c})
  {
  }

  lemma {:induction false} LastIndexMeans(s: string, c: char)
    ensures var r := LastIndexOf(s, c);
            if r.None? then Avoids(s, {c}) else s[r.value] == c && Avoids(s[r.value + 1..], {c})
  {
    if s != "" && s[|s| - 1] != c {
      var front, x := s[..|s| - 1], s[|s| - 1];
      LastIndexMeans(front, c);
      var r := LastIndexOf(front, c);
      if r.None? {
        AvoidsAppend(front, x, c);
        assert s == front + [x];
      } else {
        AvoidsAppend(front[r.value + 1..], x, c);
        assert s[r.value + 1..] == front[r.value + 1..] + [x];
      }
    }
  }

  function TrimEmpty(parts: Path): Path {
    if parts != [] && parts[|parts| - 1] == "" then TrimEmpty(parts[..|parts| - 1]) else parts
  }

  /** A configured verb after the last ':' becomes a part of its own, unless a '/' follows the
      ':' (or there is no '/' at all). */
  function SeparateVerb(path: string, verbs: set<string>): string {
    var colon, slash := LastIndexOf(path, ':'), LastIndexOf(path, '/');
    if colon.Some? && slash.Some? && colon.value > slash.value && path[colon.value + 1..] in verbs
    then path[colon.value := '/'] else path
  }

  function RequestParts(path: string, verbs: set<string>): Path {
    var sent := SeparateVerb(path[..Span(path, {'?'})], verbs);
    TrimEmpty(if sent == "" then [] else Split(sent[1..], '/'))
  }

  method ExtractRequestParts(path: string, verbs: set<string>) returns (parts: Path)
    ensures parts == RequestParts(path, verbs)
  {
    var sent := SeparateVerb(path[..Span(path, {'?'})], verbs);
    parts := [];
    if |sent| > 0 {
      parts := SplitAt(sent[1..], '/');
    }
    while parts != [] && parts[|parts| - 1] == ""
      invariant TrimEmpty(parts) == RequestParts(path, verbs)
    {
      parts := parts[..|parts| - 1];
    }
  }

  // ---------- what parts look like

  /** Parts as a request can have them: free of '/', the last one not empty. */
  predicate Clean(parts: Path) {
    && (forall i :: 0 <= i < |parts| ==> Avoids(parts[i], {'/'}))
    && (parts != [] ==> parts[|parts| - 1] != "")
  }

  lemma {:induction false} SplitAvoids(s: string, delim: char)
    ensures forall i :: 0 <= i < |Split(s, delim)| ==> Avoids(Split(s, delim)[i], {delim})
    decreases |s|
  {
    if s != "" {
      var n := Span(s, {delim});
      SpanStops(s, {delim});
      if n < |s| { SplitAvoids(s[n + 1..], delim); }
    }
  }

  lemma {:induction false} TrimEmptyIsPrefix(parts: Path)
    ensures TrimEmpty(parts) <= parts
    ensures TrimEmpty(parts) != [] ==> TrimEmpty(parts)[|TrimEmpty(parts)| - 1] != ""
  {
    if parts != [] && parts[|parts| - 1] == "" { TrimEmptyIsPrefix(parts[..|parts| - 1]); }
  }

  lemma RequestPartsAreClean(path: string, verbs: set<string>)
    ensures Clean(RequestParts(path, verbs))
  {
    var sent := SeparateVerb(path[..Span(path, {'?'})], verbs);
    if sent != "" { SplitAvoids(sent[1..], '/'); }
    TrimEmptyIsPrefix(if sent == "" then [] else Split(sent[1..], '/'));
  }

  // ---------- every clean list of parts can be sent

  function Join(parts: Path, delim: char): string {
    if parts == [] then ""
    else if |parts| == 1 then parts[0]
    else parts[0] + [delim] + Join(parts[1..], delim)
  }

  /** Splitting undoes joining. */
  lemma {:induction false} SplitInvertsJoin(parts: Path, delim: char)
    requires forall i :: 0 <= i < |parts| ==> Avoids(parts[i], {delim})
    requires parts != [] ==> parts[|parts| - 1] != ""
    ensures Split(Join(parts, delim), delim) == parts
  {
    if parts != [] {
      var s := Join(parts, delim);
      if |parts| == 1 {
        assert s + "" == s;
        SpanOf(s, "", {delim});
      } else {
        var rest := [delim] + Join(parts[1..], delim);
        assert s == parts[0] + rest;
        SpanOf(parts[0], rest, {delim});
        assert s[|parts[0]| + 1..] == Join(parts[1..], delim);
        SplitInvertsJoin(parts[1..], delim);
      }
    }
  }

  lemma {:induction false} JoinAvoids(parts: Path, delim: char, c: char)
    requires forall i :: 0 <= i < |parts| ==> Avoids(parts[i], {c})
    requires c != delim
    ensures Avoids(Join(parts, delim), {c})
  {
    if |parts| > 1 { JoinAvoids(parts[1..], delim, c); }
  }

  lemma TrimNothing(parts: Path)
    requires parts != [] ==> parts[|parts| - 1] != ""
    ensures TrimEmpty(parts) == parts
  {
  }

  lemma QueryIsIgnored(sent: string, query: string, verbs: set<string>)
    requires Avoids(sent, {'?'})
    requires query == "" || query[0] == '?'
    ensures RequestParts(sent + query, verbs) == RequestParts(sent, verbs)
  {
    SpanOf(sent, query, {'?'});
    SpanOf(sent, "", {'?'});
    assert (sent + query)[..|sent|] == sent && sent + "" == sent && sent[..|sent|] == sent;
  }

  lemma SplitSent(parts: Path)
    requires Clean(parts)
    ensures TrimEmpty(Split(("/" + Join(parts, '/'))[1..], '/')) == parts
  {
    assert ("/" + Join(parts, '/'))[1..] == Join(parts, '/');
    SplitInvertsJoin(parts, '/');
    TrimNothing(parts);
  }

  lemma WholePath(sent: string)
    requires Avoids(sent, {'?'})
    ensures sent[..Span(sent, {'?'})] == sent
  {
    SpanOf(sent, "", {'?'});
    assert sent + "" == sent;
  }

  /** A configured verb follows the last ':' of the last part. */
  predicate EndsInVerb(parts: Path, verbs: set<string>) {
    && parts != []
    && var colon := LastIndexOf(parts[|parts| - 1], ':');
    colon.Some? && parts[|parts| - 1][colon.value + 1..] in verbs
  }

  /** The path for some parts, up to the last of them. */
  function Head(parts: Path): string
    requires parts != []
  {
    if |parts| == 1 then "/" else "/" + Join(parts[..|parts| - 1], '/') + "/"
  }

  lemma HeadAndLast(parts: Path)
    requires parts != []
    ensures "/" + Join(parts, '/') == Head(parts) + parts[|parts| - 1]
    ensures Head(parts) != "" && Head(parts)[|Head(parts)| - 1] == '/'
  {
    if |parts| > 1 {
      var front, last := parts[..|parts| - 1], parts[|parts| - 1];
      assert parts == front + [last];
      JoinLast(front, last);
      VerbText(Join(front, '/'), last);
    }
  }

  lemma NoColonAtEnd(head: string, last: string)
    requires head != "" && head[|head| - 1] == '/' && Avoids(last, {':'})
    ensures LastIndexOf(head + last, ':').Some? ==> LastIndexOf(head + last, ':').value < |head| - 1
  {
    LastIndexMeans(head + last, ':');
    assert forall j :: |head| <= j < |head + last| ==> (head + last)[j] == last[j - |head|];
  }

  lemma LastSlash(head: string, last: string)
    requires head != "" && head[|head| - 1] == '/' && Avoids(last, {'/'})
    ensures LastIndexOf(head + last, '/') == Some(|head| - 1)
  {
    assert (head + last)[|head| - 1 + 1..] == last;
    LastIndexUnique(head + last, '/', |head| - 1);
  }

  lemma LastColon(head: string, last: string, k: nat)
    requires LastIndexOf(last, ':') == Some(k)
    ensures LastIndexOf(head + last, ':') == Some(|head| + k)
  {
    LastIndexMeans(last, ':');
    assert (head + last)[|head| + k] == last[k];
    assert (head + last)[|head| + k + 1..] == last[k + 1..];
    LastIndexUnique(head + last, ':', |head| + k);
  }

  lemma ReplaceColon(head: string, last: string, k: nat)
    requires k < |last|
    ensures (head + last)[|head| + k + 1..] == last[k + 1..]
    ensures (head + last)[|head| + k := '/'] == head + last[..k] + "/" + last[k + 1..]
  {
  }

  /** The last part with its verb, if it ends in one, separated. */
  function Separated(last: string, verbs: set<string>): string {
    var k := LastIndexOf(last, ':');
    if k.Some? && last[k.value + 1..] in verbs then last[..k.value] + "/" + last[k.value + 1..] else last
  }

  lemma SeparateAt(head: string, last: string, k: nat, verbs: set<string>)
    requires head != "" && head[|head| - 1] == '/' && Avoids(last, {'/'}) && LastIndexOf(last, ':') == Some(k)
    ensures SeparateVerb(head + last, verbs) ==
            if last[k + 1..] in verbs then head + last[..k] + "/" + last[k + 1..] else head + last
  {
    var path := head + last;
    assert LastIndexOf(path, '/') == Some(|head| - 1) by { LastSlash(head, last); }
    assert LastIndexOf(path, ':') == Some(|head| + k) by { LastColon(head, last, k); }
    SeparateFound(path, |head| - 1, |head| + k, verbs);
    ReplaceColon(head, last, k);
  }

  lemma SeparateFound(path: string, slash: nat, colon: nat, verbs: set<string>)
    requires LastIndexOf(path, '/') == Some(slash) && LastIndexOf(path, ':') == Some(colon) && slash < colon
    ensures SeparateVerb(path, verbs) == if path[colon + 1..] in verbs then path[colon := '/'] else path
  {
  }

  lemma SeparateNothing(head: string, last: string, verbs: set<string>)
    requires head != "" && head[|head| - 1] == '/' && Avoids(last, {'/'}) && LastIndexOf(last, ':').None?
    ensures SeparateVerb(head + last, verbs) == head + last
  {
    LastSlash(head, last);
    LastIndexMeans(last, ':');
    NoColonAtEnd(head, last);
  }

  lemma SeparateVerbOf(head: string, last: string, verbs: set<string>)
    requires head != "" && head[|head| - 1] == '/' && Avoids(last, {'/'})
    ensures SeparateVerb(head + last, verbs) == head + Separated(last, verbs)
  {
    if LastIndexOf(last, ':').Some? {
      var k := LastIndexOf(last, ':').value;
      SeparateAt(head, last, k, verbs);
      Glue(head, last[..k], last[k + 1..]);
    } else {
      SeparateNothing(head, last, verbs);
    }
  }

  lemma Glue(a: string, b: string, c: string)
    ensures a + b + "/" + c == a + (b + "/" + c)
  {
  }

  /** The parts when the verb is separated: one more than were sent. */
  lemma VerbSplitOff(parts: Path, k: nat)
    requires Clean(parts) && parts != [] && k < |parts[|parts| - 1]| - 1
    ensures var last := parts[|parts| - 1];
            var split := parts[..|parts| - 1] + [last[..k], last[k + 1..]];
            Clean(split) && Head(parts) + (last[..k] + "/" + last[k + 1..]) == "/" + Join(split, '/')
  {
    var front, last := parts[..|parts| - 1], parts[|parts| - 1];
    var shorter := front + [last[..k]];
    assert shorter + [last[k + 1..]] == front + [last[..k], last[k + 1..]];
    assert shorter[..|shorter| - 1] == front;
    HeadAndLast(shorter);
    JoinLast(shorter, last[k + 1..]);
    VerbText(Join(shorter, '/'), last[k + 1..]);
    Glue(Head(parts), last[..k], last[k + 1..]);
  }

  lemma SentParts(parts: Path, verbs: set<string>)
    requires forall i :: 0 <= i < |parts| ==> Avoids(parts[i], {'?'})
    ensures RequestParts("/" + Join(parts, '/'), verbs) ==
            var sent := SeparateVerb("/" + Join(parts, '/'), verbs);
            TrimEmpty(if sent == "" then [] else Split(sent[1..], '/'))
  {
    JoinAvoids(parts, '/', '?');
    WholePath("/" + Join(parts, '/'));
  }

  lemma SentWithoutVerb(parts: Path, verbs: set<string>)
    requires Clean(parts) && !EndsInVerb(parts, verbs)
    ensures SeparateVerb("/" + Join(parts, '/'), verbs) == "/" + Join(parts, '/')
  {
    if parts != [] {
      HeadAndLast(parts);
      SeparateVerbOf(Head(parts), parts[|parts| - 1], verbs);
    }
  }

  /** With a verb at the end, one more part arrives. */
  lemma SentWithVerb(parts: Path, verbs: set<string>) returns (split: Path)
    requires Clean(parts) && EndsInVerb(parts, verbs) && "" !in verbs
    ensures Clean(split) && |split| == |parts| + 1
    ensures SeparateVerb("/" + Join(parts, '/'), verbs) == "/" + Join(split, '/')
  {
    var last := parts[|parts| - 1];
    var k := LastIndexOf(last, ':').value;
    assert last[k + 1..] != "";
    split := parts[..|parts| - 1] + [last[..k], last[k + 1..]];
    VerbSplitOff(parts, k);
    assert SeparateVerb("/" + Join(parts, '/'), verbs) == Head(parts) + Separated(last, verbs) by {
      HeadAndLast(parts);
      SeparateVerbOf(Head(parts), last, verbs);
    }
  }

  /** The path that is sent for some parts is cut back into them exactly when they do not end in a
      configured verb. */
  lemma PlainRequest(parts: Path, verbs: set<string>)
    requires Clean(parts) && "" !in verbs
    requires forall i :: 0 <= i < |parts| ==> Avoids(parts[i], {'?'})
    ensures RequestParts("/" + Join(parts, '/'), verbs) == parts <==> !EndsInVerb(parts, verbs)
  {
    SentParts(parts, verbs);
    if EndsInVerb(parts, verbs) {
      var split := SentWithVerb(parts, verbs);
      SplitSent(split);
    } else {
      SentWithoutVerb(parts, verbs);
      SplitSent(parts);
    }
  }

  lemma SeparateVerbAt(head: string, verb: string, verbs: set<string>)
    requires head != "" && head[0] == '/'
    requires verb in verbs && Avoids(verb, {'/'}) && Avoids(verb, {':'})
    ensures SeparateVerb(head + ":" + verb, verbs) == head + "/" + verb
  {
    var sent := head + ":" + verb;
    assert sent[|head| + 1..] == verb;
    LastIndexUnique(sent, ':', |head|);
    LastIndexMeans(sent, '/');
    assert sent[0] == '/';
    var slash := LastIndexOf(sent, '/').value;
    assert forall j :: |head| <= j < |sent| ==> sent[j] == (":" + verb)[j - |head|];
    assert sent[|head| := '/'] == head + "/" + verb;
  }

  lemma VerbText(joined: string, verb: string)
    ensures Avoids(joined, {'?'}) && Avoids(verb, {'?'}) ==> Avoids("/" + joined + ":" + verb, {'?'})
    ensures "/" + joined + "/" + verb == "/" + (joined + "/" + verb)
  {
  }

  /** The path with a configured verb: the verb arrives as the last part. */
  lemma VerbRequest(parts: Path, verb: string, verbs: set<string>)
    requires verb in verbs && Avoids(verb, {':'}) && Avoids(verb, {'/'}) && Avoids(verb, {'?'})
    requires parts != [] && Clean(parts + [verb])
    requires forall i :: 0 <= i < |parts| ==> Avoids(parts[i], {'?'})
    ensures RequestParts("/" + Join(parts, '/') + ":" + verb, verbs) == parts + [verb]
  {
    var sent := "/" + Join(parts, '/') + ":" + verb;
    assert SeparateVerb(sent, verbs) == "/" + Join(parts + [verb], '/') by {
      SeparateVerbAt("/" + Join(parts, '/'), verb, verbs);
      JoinLast(parts, verb);
      VerbText(Join(parts, '/'), verb);
    }
    assert sent[..Span(sent, {'?'})] == sent by {
      JoinAvoids(parts, '/', '?');
      VerbText(Join(parts, '/'), verb);
      WholePath(sent);
    }
    SplitSent(parts + [verb]);
  }

  lemma LastIndexUnique(s: string, c: char, k: nat)
    requires k < |s| && s[k] == c && Avoids(s[k + 1..], {c})
    ensures LastIndexOf(s, c) == Some(k)
  {
    LastIndexMeans(s, c);
    var found := LastIndexOf(s, c);
    assert forall j :: k < j < |s| ==> s[j] == s[k + 1..][j - k - 1];
    assert found.Some?;
    assert forall j :: found.value < j < |s| ==> s[j] == s[found.value + 1..][j - found.value - 1];
  }

  lemma {:induction false} JoinLast(parts: Path, last: string)
    requires parts != []
    ensures Join(parts + [last], '/') == Join(parts, '/') + "/" + last
  {
    if |parts| == 1 {
      assert (parts + [last])[1..] == [last];
    } else {
      assert (parts + [last])[1..] == parts[1..] + [last];
      JoinLast(parts[1..], last);
      var more := Join(parts[1..], '/');
      assert parts[0] + "/" + (more + "/" + last) == parts[0] + "/" + more + "/" + last;
    }
  }
}
