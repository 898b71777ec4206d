/** The trace context headers of cloud_trace.cc, in both formats. */
module TraceContext {
  import opened Wrappers
  import opened TemplateGrammar
  import opened RequestPath
  import opened UrlEscape
  import opened Decimal
  import opened Framing

  /** The trace id in hexadecimal, the span id of the root span's parent (0 for none) and the
      options text. */
  datatype Context = Context(traceId: string, parent: nat, options: string)

  const DEFAULT_OPTIONS: string := "o=1"

  // ---------- X-Cloud-Trace-Context

  predicate IsOption(item: string) {
    |item| >= 2 && item[..2] == "o="
  }

  /** The first o= item decides: it must be a number from 0 to 3 with the low bit set. */
  function Enabled(items: seq<string>): bool {
    if items == [] then false
    else if !IsOption(items[0]) then Enabled(items[1..])
    else
      var v := ExtractInt(items[0][2..]);
      v.Some? && 0 <= v.value <= 3 && v.value % 2 == 1
  }

  predicate IsTraceId(s: string) {
    |s| == 32 && forall i :: 0 <= i < |s| ==> IsHexDigit(s[i])
  }

  /** trace-id [ "/" span-id ] */
  function ParseIds(s: string, options: string): Option<Context> {
    var n := Span(s, {'/'});
    var spanText := if n < |s| then s[n + 1..] else "";
    var span := if spanText == "" then Some(0) else ExtractUInt64(spanText);
    if !IsTraceId(s[..n]) || span.None? then None else Some(Context(s[..n], span.value, options))
  }

  function ParseCloud(header: string): Option<Context> {
    if header == "" then None
    else
      var n := Span(header, {';'});
      var options := if n < |header| then header[n + 1..] else header;
      if !Enabled(Split(header, ';')[1..]) then None else ParseIds(header[..n], options)
  }

  function EmitCloud(c: Context, span: nat): string {
    c.traceId + "/" + Dec(span) + ";" + c.options
  }

  /** GetTraceFromCloudTraceContextHeader. */
  method GetTraceFromCloudTraceContextHeader(header: string) returns (c: Option<Context>)
    ensures c == ParseCloud(header)
  {
    if header == "" { return None; }
    var items := SplitAt(header, ';');
    var first := items[0];
    var enabled := false;
    var i := 1;
    assert items[1..][0..] == items[1..];
    while i < |items|
      invariant 1 <= i <= |items| && !enabled
      invariant Enabled(items[1..]) == Enabled(items[i..])
    {
      if IsOption(items[i]) {
        var v := ExtractInt(items[i][2..]);
        if v.None? || v.value < 0 || v.value > 3 || v.value % 2 == 0 {
          return None;
        }
        enabled := true;
        break;
      }
      assert items[i..][1..] == items[i + 1..];
      i := i + 1;
    }
    if !enabled { return None; }
    var n := Span(header, {';'});
    var options := if n < |header| then header[n + 1..] else header;
    c := ParseIds(first, options);
  }

  lemma SplitFirst(first: string, rest: string, delim: char)
    requires Avoids(first, {delim})
    ensures var s := first + [delim] + rest;
            && Span(s, {delim}) == |first| && s[..|first|] == first && s[|first| + 1..] == rest
            && Split(s, delim) == [first] + Split(rest, delim)
  {
    var s := first + [delim] + rest;
    assert s == first + ([delim] + rest);
    SpanOf(first, [delim] + rest, {delim});
    assert s[..|first|] == first && s[|first| + 1..] == rest;
  }

  /** A context that can be sent: whatever was parsed, and what a sampler creates. */
  ghost predicate Sendable(c: Context) {
    IsTraceId(c.traceId) && Enabled(Split(c.options, ';'))
  }

  lemma CutAtFirst(header: string)
    requires Span(header, {';'}) < |header|
    ensures var n := Span(header, {';'});
            Avoids(header[..n], {';'}) && header == header[..n] + [';'] + header[n + 1..]
  {
    var n := Span(header, {';'});
    SpanStops(header, {';'});
    assert header[n] == ';';
    CutAt(header, n);
  }

  lemma CutAt(s: string, n: nat)
    requires n < |s|
    ensures s == s[..n] + [s[n]] + s[n + 1..]
  {
  }

  /** The items after the first are those of the options text. */
  lemma OptionItems(first: string, options: string)
    requires Avoids(first, {';'})
    ensures Split(first + [';'] + options, ';')[1..] == Split(options, ';')
  {
    SplitFirst(first, options, ';');
    assert ([first] + Split(options, ';'))[1..] == Split(options, ';');
  }

  lemma CloudAccepted(header: string)
    requires ParseCloud(header).Some?
    ensures var n := Span(header, {';'});
            && Enabled(Split(header, ';')[1..]) && IsTraceId(ParseCloud(header).value.traceId)
            && ParseCloud(header).value.options == if n < |header| then header[n + 1..] else header
  {
  }

  lemma ParsedIsSendable(header: string)
    requires ParseCloud(header).Some?
    ensures Sendable(ParseCloud(header).value)
  {
    CloudAccepted(header);
    var n := Span(header, {';'});
    if n < |header| {
      CutAtFirst(header);
      OptionItems(header[..n], header[n + 1..]);
    } else {
      NoOptions(header);
    }
  }

  /** Without a ';' there is no option, so tracing is not enabled. */
  lemma NoOptions(header: string)
    requires header != "" && Span(header, {';'}) == |header|
    ensures Split(header, ';') == [header] && !Enabled(Split(header, ';')[1..])
  {
    assert header[..|header|] == header && [header][1..] == [];
    assert Split(header, ';') == [header];
  }

  /** A context that a sampler made can be sent, and is read back like any other. */
  lemma DefaultIsSendable(traceId: string, span: nat)
    requires IsTraceId(traceId) && span < TWO_64
    ensures Sendable(Context(traceId, 0, DEFAULT_OPTIONS))
    ensures ParseCloud(EmitCloud(Context(traceId, 0, DEFAULT_OPTIONS), span)) ==
            Some(Context(traceId, span, DEFAULT_OPTIONS))
  {
    SampledOptions();
    CloudRoundTrip(Context(traceId, 0, DEFAULT_OPTIONS), span);
  }

  lemma SampledOptions()
    ensures Enabled(Split(DEFAULT_OPTIONS, ';'))
  {
    var s := DEFAULT_OPTIONS;
    assert s + "" == s && Avoids(s, {';'});
    SpanOf(s, "", {';'});
    assert s[..3] == s && s[2..] == "1" == Dec(1);
    ExtractOne();
  }

  lemma ExtractOne()
    ensures ExtractInt("1") == Some(1)
  {
    assert SkipSpaces("1") == "1";
    DigitSpanOfDigits("1");
    assert "1"[..1] == "1" && "1"[..0] == "";
  }

  /** Emitting a context with a span id and parsing it again gives the same trace id and
      options, with that span as the parent. */
  lemma CloudRoundTrip(c: Context, span: nat)
    requires Sendable(c) && span < TWO_64
    ensures ParseCloud(EmitCloud(c, span)) == Some(c.(parent := span))
  {
    var ids := c.traceId + "/" + Dec(span);
    assert Avoids(c.traceId, {'/'}) && Avoids(c.traceId, {';'});
    assert Avoids(Dec(span), {';'});
    assert Avoids(ids, {';'});
    SplitFirst(ids, c.options, ';');
    assert EmitCloud(c, span) == ids + [';'] + c.options;
    assert ([ids] + Split(c.options, ';'))[1..] == Split(c.options, ';');
    SplitFirst(c.traceId, Dec(span), '/');
    ExtractDec(span);
  }

  // ---------- grpc-trace-bin

  function ToBigEndian(n: nat, k: nat): (b: Bytes)
    ensures |b| == k
  {
    if k == 0 then [] else ToBigEndian(n / 256, k - 1) + [n % 256]
  }

  function OfBigEndian(b: Bytes): nat {
    if b == [] then 0 else OfBigEndian(b[..|b| - 1]) * 256 + b[|b| - 1]
  }

  function Power256(k: nat): nat {
    if k == 0 then 1 else 256 * Power256(k - 1)
  }

  lemma {:induction false} BigEndianRoundTrip(n: nat, k: nat)
    requires n < Power256(k)
    ensures OfBigEndian(ToBigEndian(n, k)) == n
  {
    if k > 0 {
      BigEndianRoundTrip(n / 256, k - 1);
      assert ToBigEndian(n, k)[..k - 1] == ToBigEndian(n / 256, k - 1);
    }
  }

  function LowerHexDigit(v: nat): (c: char)
    requires v < 16
    ensures IsHexDigit(c) && HexValue(c) == v
  {
    if v < 10 then ('0' as int + v) as char else ('a' as int + v - 10) as char
  }

  /** absl::BytesToHexString. */
  function BytesToHex(b: Bytes): (s: string)
    ensures |s| == 2 * |b| && forall i :: 0 <= i < |s| ==> IsHexDigit(s[i])
  {
    if b == [] then "" else [LowerHexDigit(b[0] / 16), LowerHexDigit(b[0] % 16)] + BytesToHex(b[1..])
  }

  /** absl::HexStringToBytes. */
  function HexToBytes(s: string): (b: Bytes)
    requires |s| % 2 == 0
    ensures 2 * |b| == |s|
  {
    if s == "" then [] else [16 * HexValue(s[0]) + HexValue(s[1])] + HexToBytes(s[2..])
  }

  lemma {:induction false} HexRoundTrip(b: Bytes)
    ensures HexToBytes(BytesToHex(b)) == b
  {
    if b != [] {
      HexRoundTrip(b[1..]);
      assert BytesToHex(b)[2..] == BytesToHex(b[1..]);
    }
  }

  predicate AllZero(b: Bytes) {
    forall i :: 0 <= i < |b| ==> b[i] == 0
  }

  /** The decoded header: version, then three fields each announced by its id. */
  function ParseGrpc(b: Bytes): Option<Context> {
    if |b| != 29 || b[0] != 0 || b[1] != 0 || b[18] != 1 || b[27] != 2 || b[28] % 2 == 0 || AllZero(b[2..18]) then None
    else Some(Context(BytesToHex(b[2..18]), OfBigEndian(b[19..27]), DEFAULT_OPTIONS))
  }

  function EmitGrpc(c: Context, span: nat): Bytes
    requires |c.traceId| == 32
  {
    [0, 0] + HexToBytes(c.traceId) + [1] + ToBigEndian(span, 8) + [2, if c.options == DEFAULT_OPTIONS then 1 else 0]
  }

  lemma GrpcFields(id: Bytes, span: Bytes, flag: byte)
    requires |id| == 16 && |span| == 8
    ensures var b := [0, 0] + id + [1] + span + [2, flag];
            && |b| == 29 && b[0] == 0 && b[1] == 0 && b[2..18] == id && b[18] == 1
            && b[19..27] == span && b[27] == 2 && b[28] == flag
  {
  }

  /** Emitting a context in the binary format and parsing it again: the trace id comes back in
      lower case, the span as the parent; it fails exactly for the all-zero trace id and for
      options other than the default. */
  lemma GrpcRoundTrip(id: Bytes, options: string, span: nat)
    requires |id| == 16 && span < TWO_64
    ensures ParseGrpc(EmitGrpc(Context(BytesToHex(id), 0, options), span)) ==
            if AllZero(id) || options != DEFAULT_OPTIONS then None
            else Some(Context(BytesToHex(id), span, DEFAULT_OPTIONS))
  {
    HexRoundTrip(id);
    GrpcFields(id, ToBigEndian(span, 8), if options == DEFAULT_OPTIONS then 1 else 0);
    assert Power256(8) == TWO_64 by { assert Power256(4) == 0x1_0000_0000; }
    BigEndianRoundTrip(span, 8);
  }

  /** So a context that was parsed survives being sent on. */
  lemma GrpcContextSurvives(header: Bytes, span: nat)
    requires ParseGrpc(header).Some? && span < TWO_64
    ensures var c := ParseGrpc(header).value;
            IsTraceId(c.traceId) && ParseGrpc(EmitGrpc(c, span)) == Some(c.(parent := span))
  {
    GrpcRoundTrip(header[2..18], DEFAULT_OPTIONS, span);
  }
}
