# A verified model of the proxy's core

The Extensible Service Proxy sits between clients and a backend. It routes a request with HTTP
templates, proxies gRPC streams asynchronously, spreads traffic over service configs and hands
trace context on. This project models five of its cores in Dafny and proves what they promise.

**Routing.** `PathTrie` is the trie of templates with its backtracking search, on values;
`FlatList` relates it to the list of registrations: a request finds something exactly when some
registration matches, what it finds is the unique best match, and the order of registrations is
irrelevant. `PathMatcherNode` is the trie as mutable nodes, proved equal to the value trie after
every insertion. `TemplateGrammar` is the written grammar with a printer and a reader that are
inverse; `HttpTemplate` is the one-character-lookahead parser, proved to compute that reader.
`RequestPath`, `UrlEscape`, `Bindings` and `BindingValues` cover how a request is cut into parts
and what variables are bound to; `PathMatcher` puts registration and lookup together.
`HttpRules` loads HTTP rules and adds OPTIONS for CORS.

**Framing.** `Framing` is the Length-Prefixed-Message of the gRPC over HTTP/2 specification.
`ZeroCopyStream` is the serializer and the stream with BackUp and Skip, `Deframer` reads messages
out of slices, `ReadPump` is the re-entrant loop that answers reads, `DownstreamWrites` is how
writes are answered, and `GrpcWeb` writes the trailer frame of a gRPC-Web response as a chain of
buffers.

**Flows.** `ProxyFlow` is the state machine of one proxied call: its events complete outstanding
operations, and its theorems hold over every run. `PassThrough` feeds it from the read pump.
`GrpcQueue` is the hand-over of completed events from the worker thread to the main thread, over
every interleaving.

**Traffic.** `WeightedSelector` schedules configs in proportion to their weights,
`ConfigManager` fetches rollouts, `ApiManager` loads and deploys them, and `Rollouts` is the two
together.

**Headers.** `TraceContext` parses and emits both trace header formats; `Decimal` is how numbers
are printed and read there.

Where the source changes state in place the model is a class (or a loop), and its contracts tie
the new state to a function of the old one; lemmas are then about that function. Protocols with
several actors are step machines with invariants over all runs.

Promises that turned out to need a condition, which is then stated as an equivalence, with an
instance where it fails:

- A variable after a `**` is bound to the parts its keys consumed exactly when the `**` takes a
  single part (`Bindings.BindingIsExact`, `BindingValues.VariableAfterDeepIsMisplaced`).
- A registered path has only constants after `**` exactly when no template with a `**` has the verb
  `*` or `**`, because ValidateParts does not look at the verb (`PathMatcher.RestrictedUnlessWildVerb`,
  `PathMatcher.WildVerbEscapes`).
- A frame is read back exactly when its message is shorter than 2^32 bytes (`Framing.FrameFits`,
  `Framing.LongMessageIsLost`).
- SelectService has a selector to ask, or no contexts, unless no list has loaded although some list
  began with a config (`ApiManager.ContextsWithoutSelector`, `ApiManager.FirstListFailsLate`). Then
  api_manager_impl.cc:274 follows a null pointer. Init (api_manager_impl.cc:190-198) accepts such a
  state; the nginx module does not reach it, since it gives up when the first load fails
  (src/nginx/module.cc:620-625).
- Once a request is over, every write has been answered exactly when no cleanup came while one was
  blocked (`DownstreamWrites.WritesAreAnswered`, `DownstreamWrites.ClientLeavesDuringWrite`): Cleanup
  answers a pending read but not a blocked write. For the flow such a write stays outstanding for
  ever; `ProxyFlow.NeverStuck` says that something is outstanding, not that it completes.

Two more behaviours that the contracts make visible: the current rollout id is set when a rollout
is handed over, whether or not it then loads (`Rollouts.FailedRolloutIsNotRetried`); and a config
with an empty service name never fixes the service name. The grammar comment at the head of
http_template.cc does not mention that nested variables and wildcards after `**` are refused; the
model follows the code.

## Model

| member | source | states |
|---|---|---|
| PathTrie.GetInsert | src/api_manager/path_matcher_node.cc:195-217 | inserting changes the entry of one path and method only; the first registration stays and a later one marks it as a duplicate |
| PathTrie.InsertWellFlagged | src/api_manager/path_matcher_node.cc:209-216 | after any insertion a node has the wildcard flag exactly when it is reached through `**` |
| PathTrie.LookupSound | src/api_manager/path_matcher_node.cc:138-177 | whatever the search returns is stored under a path that matches the request |
| PathTrie.LookupComplete | src/api_manager/path_matcher_node.cc:138-177 | if any stored path matches, the search finds something |
| PathTrie.LookupBest | src/api_manager/path_matcher_node.cc:143-176 | the hit beats every other matching path: before `**` equal keys, then `*`, then `**`; an exact end before an empty `**`; below a shared `**` the longer suffix |
| PathTrie.BeatsIsAsymmetric | src/api_manager/path_matcher_node.cc:156-176 | of two templates that match a request at most one beats the other, and none beats itself |
| FlatList.LookupFailsExactly | src/api_manager/path_matcher_node.cc:138-242 | after any registrations, lookup fails exactly when no registration matches the parts and the method |
| FlatList.FirstStays | src/api_manager/path_matcher_node.cc:195-208 | what a path and method hold is the data of their first registration, marked exactly when there was another |
| FlatList.AbsentFromBuild | src/api_manager/path_matcher_node.cc:195-217 | a path and method hold nothing exactly when they were never registered |
| FlatList.LookupFindsBest | src/api_manager/path_matcher_node.cc:138-242 | lookup returns the data of a matching registration that is no worse than any other matching one |
| FlatList.BestIsUnique | src/api_manager/path_matcher_node.cc:138-242 | two registrations that are each no worse than the other are the same one |
| FlatList.InsertionsCommute | src/api_manager/path_matcher_node.cc:195-217 | registrations of different keys can be swapped without changing the trie |
| FlatList.OrderDoesNotMatter | src/api_manager/path_matcher_node.cc:195-217 | any permutation of registrations with distinct keys builds the same trie |
| PathMatcherNode.PathMatcherNode.LookupOrInsertNew | src/api_manager/path_matcher_node.cc:59-71 | returns the child under a key, an empty new node when there was none, and keeps the node tree disjoint |
| PathMatcherNode.PathMatcherNode.Store | src/api_manager/path_matcher_node.cc:195-208 | stores at the node where a path ends; tells whether the method was new there |
| PathMatcherNode.PathMatcherNode.InsertTemplate | src/api_manager/path_matcher_node.cc:195-217 | the nodes afterwards hold the value trie with the template inserted; true exactly for a new key |
| PathMatcherNode.PathMatcherNode.ResultForHttpMethod | src/api_manager/path_matcher_node.cc:233-242 | the entry of the method, otherwise that of `*` |
| PathMatcherNode.PathMatcherNode.LookupPathFromChild | src/api_manager/path_matcher_node.cc:219-231 | the search below one child, nothing when the child is missing |
| PathMatcherNode.PathMatcherNode.LookupPath | src/api_manager/path_matcher_node.cc:138-177 | the search over the nodes equals the search over the value trie |
| TemplateGrammar.ReadIsInverseOfPrint | src/api_manager/http_template.cc:30-40 | a text reads as a template exactly when the template is well formed and prints to that text |
| TemplateGrammar.ReadSound | src/api_manager/http_template.cc:77-93 | what is read is well formed and prints back to the input |
| TemplateGrammar.ReadComplete | src/api_manager/http_template.cc:77-93 | every well-formed template is read back from its printed form |
| HttpTemplate.Parser.NextChar | src/api_manager/http_template.cc:263-271 | looks one character ahead; tb <= te <= tb + 1 is kept |
| HttpTemplate.Parser.Consume | src/api_manager/http_template.cc:248-257 | consumes a character exactly when it is next |
| HttpTemplate.Parser.ParseLiteral | src/api_manager/http_template.cc:218-246 | consumes the longest run up to a stop character; fails exactly on an empty run |
| HttpTemplate.Parser.ParseIdentifier | src/api_manager/http_template.cc:195-216 | consumes the longest identifier and adds it to the open variable's field path |
| HttpTemplate.Parser.ParseFieldPath | src/api_manager/http_template.cc:176-187 | reads a dotted field path into the open variable as the grammar does |
| HttpTemplate.Parser.StartVariable | src/api_manager/http_template.cc:279-290 | opens a variable at the current segment, unless one is open |
| HttpTemplate.Parser.EndVariable | src/api_manager/http_template.cc:292-301 | closes it at the current segment; true for a non-empty field path and range |
| HttpTemplate.Parser.ParseVariable | src/api_manager/http_template.cc:139-164 | reads a variable with its sub-template, `*` by default; refuses a nested one |
| HttpTemplate.Parser.ParseSegment | src/api_manager/http_template.cc:111-137 | reads a segment as the grammar does, with its keys and variables |
| HttpTemplate.Parser.ParseSegments | src/api_manager/http_template.cc:95-109 | reads the segments as the grammar does and always terminates |
| HttpTemplate.Parser.ParseVerb | src/api_manager/http_template.cc:189-193 | reads a verb after `:` |
| HttpTemplate.Parser.ParseWhole | src/api_manager/http_template.cc:77-93 | accepts exactly what the grammar reader accepts and leaves its keys, variables and verb |
| HttpTemplate.Parser.ValidateParts | src/api_manager/http_template.cc:59-74 | true exactly when only constants follow a `**` |
| HttpTemplate.Parser.PostProcessVariables | src/api_manager/http_template.cc:328-345 | variables with a `**` get an end counted from the back, the verb included |
| HttpTemplate.Parse | src/api_manager/http_template.cc:369-381 | the parser object computes the compiled template of the grammar reader, or nothing |
| PathMatcher.ParserAcceptsGrammar | src/api_manager/http_template.cc:41-381 | parsing succeeds exactly on printed well-formed templates with only constants after `**`, and compiles the template that was printed |
| PathMatcher.RestrictedUnlessWildVerb | src/api_manager/path_matcher.h:370-381 | the registered path, verb appended, has only constants after `**` exactly when there is no `**` or the verb is not a wildcard |
| PathMatcher.WildVerbEscapes | src/api_manager/http_template.cc:59-74 | a `**` with the verb `*` parses, and its path has a wildcard after the `**` |
| Bindings.MatchesMeaning | src/api_manager/path_matcher_node.cc:138-177 | the step-by-step match relation is the plain one: keys before `**` from the front, constants after it from the back |
| Bindings.MatchDivides | src/api_manager/path_matcher_node.cc:138-177 | a matching request is divided among the keys at computed cuts |
| Bindings.DivisionIsMatch | src/api_manager/path_matcher_node.cc:138-177 | such a division is unique and exists only for a match |
| Bindings.RangesExist | src/api_manager/path_matcher.h:250-285 | for every template that parses and every matching request, each variable's range of parts exists |
| Bindings.HasDeepMeans | src/api_manager/http_template.cc:313-321 | a variable is marked as having a `**` exactly when the path's `**` lies in its range |
| Bindings.BindingIsExact | src/api_manager/http_template.cc:328-345 | a variable's range is exactly the parts its keys consume if and only if it does not start after a `**` or the `**` took one part |
| Bindings.PiecesMatchTheirKeys | src/api_manager/path_matcher.h:250-285 | the parts between two cuts match the keys between them |
| Bindings.BoundPartsMatch | src/api_manager/path_matcher.h:250-285 | what such a variable is bound to matches its own sub-template |
| BindingValues.ExtractBindingsFromPath | src/api_manager/path_matcher.h:250-285 | one binding per variable: its field path and the unescaped parts of its range joined by `/` |
| BindingValues.JoinParts | src/api_manager/path_matcher.h:271-282 | the inner loop joins the shown parts of a range |
| BindingValues.SlashesAreBoundaries | src/api_manager/path_matcher.h:266-282 | a multi-part value has exactly one `/` per boundary between parts |
| BindingValues.VariableAfterDeepIsMisplaced | src/api_manager/http_template.cc:328-345 | `/**/{x=foo}` on a/b/foo binds x to b although its key consumed foo |
| UrlEscape.UrlUnescapeString | src/api_manager/path_matcher.h:213-247 | the scan plus the in-buffer decoding equal the recursive decoder |
| UrlEscape.UrlDecode | src/nginx/module.cc:59-78 | the rewrite handler's decoder is the same function as UrlUnescapeString with reserved characters unescaped |
| UrlEscape.NothingToUnescape | src/api_manager/path_matcher.h:216-228 | a part without escapes is its own decoding, which justifies the early return |
| UrlEscape.HexDigitsAgree | src/api_manager/path_matcher.h:177-184 | the bit trick for hexadecimal digits gives their value |
| UrlEscape.UnescapeInvertsEncoding | src/api_manager/path_matcher.h:194-247 | decoding inverts every percent-encoding of section 2.1 of RFC 3986, whichever characters are encoded |
| UrlEscape.EncodeAllEncodes | src/nginx/module.cc:59-78 | encoding every byte is one such encoding |
| UrlEscape.ReservedAreKept | src/api_manager/path_matcher.h:141-211 | with reserved characters kept, decoding changes the number of none of them |
| RequestPath.SplitAt | src/api_manager/path_matcher.h:131-139 | the getline loop splits as the specification does |
| RequestPath.ExtractRequestParts | src/api_manager/path_matcher.h:332-359 | query cut off, a known verb made a part, the path split, empty parts at the end dropped |
| RequestPath.RequestPartsAreClean | src/api_manager/path_matcher.h:332-359 | no part contains `/` and the last one is not empty |
| RequestPath.SplitInvertsJoin | src/api_manager/path_matcher.h:131-139 | splitting undoes joining |
| RequestPath.QueryIsIgnored | src/api_manager/path_matcher.h:334-335 | a query string does not change the parts |
| RequestPath.PlainRequest | src/api_manager/path_matcher.h:332-359 | the path sent for some parts is cut back into them exactly when no configured verb follows the last `:` of the last part |
| RequestPath.VerbRequest | src/api_manager/path_matcher.h:337-349 | a configured verb after `:` arrives as the last part |
| PathMatcher.PathMatcher.Insert | src/api_manager/path_matcher.h:498-507 | the rule list and the nodes stay in step; true exactly for a new path and method, and only then the method and its verb are kept |
| PathMatcher.PathMatcher.Register | src/api_manager/path_matcher.h:475-509 | invalid exactly when the template does not parse, duplicate exactly when its key is registered; only accepted rules add their method and verb |
| PathMatcher.PathMatcher.LookupRequest | src/api_manager/path_matcher.h:401-436 | nothing exactly when no rule matches; otherwise the method, body and bindings of a matching rule, the best one when paths are restricted |
| HttpRules.FreshSelector | src/api_manager/config.cc:233-242 | the search stops at the first unused name, after at most one probe more than there are selectors |
| HttpRules.CorsNamesAreMany | src/api_manager/config.cc:235-242 | the first n candidate names are n different names |
| HttpRules.Config.GetOrCreateMethodInfo | src/api_manager/config.cc:86-116 | the selector's method, created when missing |
| HttpRules.Config.RegisterHttpRule | src/api_manager/config.cc:171-223 | true exactly when the binding has a url that parses and its key is new; the urls still hold every accepted path not for OPTIONS |
| HttpRules.Config.RegisterBindings | src/api_manager/config.cc:144-157 | additional bindings are registered only when the main one is accepted |
| HttpRules.Config.LoadHttpMethods | src/api_manager/config.cc:135-169 | the rules are loaded as specified and the configured verbs are theirs, with or without CORS; with CORS every accepted path also serves OPTIONS, and only OPTIONS rules were added, under a selector that nothing else uses |
| HttpRules.Config.AddOptionsMethodForAllUrls | src/api_manager/config.cc:225-256 | every remembered url serves OPTIONS afterwards; only OPTIONS rules of one new selector were added, and no verb |
| HttpRules.OptionsAnswered | src/api_manager/config.cc:225-256 | then every request that some accepted rule matches is answered for OPTIONS |
| HttpRules.EarlierRulesStay | src/api_manager/config.cc:247-253 | added rules displace no entry that was there, OPTIONS entries included |
| HttpRules.OnlyOptionsChange | src/api_manager/config.cc:225-256 | the expansion changes no lookup of any other method, whatever the parts; as it adds no verb, requests are cut into the same parts as before |
| HttpRules.OtherMethodsUnaffected | src/api_manager/path_matcher_node.cc:138-217 | a registration is invisible to lookups of methods it does not serve |
| Framing.FrameFits | src/grpc/message_serializer.cc:65-131 | a frame is read back exactly when the message is shorter than 2^32 bytes |
| Framing.LongMessageIsLost | src/grpc/message_serializer.cc:92-112 | a message of 2^32 bytes is framed with length 0 and read as an empty message |
| Framing.DeframeAllInvertsFrameAll | src/nginx/grpc_server_call.cc:567-698 | framed messages followed by an incomplete frame are read back in order, and the exact tail is kept |
| Framing.DeframeAllResumes | src/nginx/grpc_server_call.cc:567-698 | bytes that arrive later change nothing about the messages already read |
| Framing.ChunkingDoesNotMatter | src/nginx/grpc_server_call.cc:567-698 | feeding chunks one by one gives the messages and leftover of the whole |
| Framing.AnyCutIsReadBack | src/nginx/grpc_server_call.cc:567-698 | framed messages cut in any way, empty chunks included, are all read back |
| Deframer.GetByte | src/nginx/grpc_server_call.cc:54-62 | the byte at an offset of the flattened slices, 0 past the end |
| Deframer.DownstreamSlices.TrimFront | src/nginx/grpc_server_call.cc:66-78 | drops leading bytes slice by slice |
| Deframer.TrimmedBytes | src/nginx/grpc_server_call.cc:66-78 | trimming drops exactly that many bytes |
| Deframer.CutBytes | src/nginx/grpc_server_call.cc:613-691 | cutting the slices conserves every byte on both sides |
| Deframer.DownstreamSlices.TakeFront | src/nginx/grpc_server_call.cc:613-691 | moves whole slices and splits the last one, leaving the remainder in front |
| Deframer.DownstreamSlices.TryReadDownstreamMessage | src/nginx/grpc_server_call.cc:567-698 | takes the first message if it is complete; otherwise nothing changes |
| Deframer.TakeMessageBytes | src/nginx/grpc_server_call.cc:567-698 | on slices exactly what deframing is on their bytes |
| Deframer.DrainMessages | src/nginx/grpc_server_call.cc:469-565 | repeated reads yield the messages of the bytes and keep the exact leftover |
| Deframer.ConvertResponseMessage | src/nginx/grpc_passthrough_server_call.cc:119-173 | the buffer holds the frame of the message's slices |
| ZeroCopyStream.GrpcMessageSerializer.AddMessage | src/grpc/message_serializer.cc:47-53 | adds a frame to the bytes still to be returned |
| ZeroCopyStream.GrpcMessageSerializer.NextInternal | src/grpc/message_serializer.cc:65-131 | returns the next delimiter or slice; no byte is lost or repeated |
| ZeroCopyStream.GrpcMessageSerializer.Next | src/grpc/message_serializer.cc:55-63 | the next non-empty buffer; fails exactly when nothing is left |
| ZeroCopyStream.GrpcZeroCopyInputStream.AddMessage | src/grpc/zero_copy_stream.cc:42-45 | adds a frame behind everything added, wherever the cursor is |
| ZeroCopyStream.GrpcZeroCopyInputStream.Finish | src/grpc/zero_copy_stream.h:51 | marks the end; what was added and the cursor stay |
| ZeroCopyStream.GrpcZeroCopyInputStream.Next | src/grpc/zero_copy_stream.cc:47-66 | returns the bytes at the cursor; empty exactly at the end, failing only when finished |
| ZeroCopyStream.GrpcZeroCopyInputStream.BackUp | src/grpc/zero_copy_stream.cc:68-73 | moves the cursor back within the current buffer, otherwise does nothing |
| ZeroCopyStream.GrpcZeroCopyInputStream.Skip | src/grpc/zero_copy_stream.cc:75-99 | succeeds exactly when that many bytes are available, otherwise moves to the end |
| ZeroCopyStream.GrpcZeroCopyInputStream.BytesAvailable | src/grpc/zero_copy_stream.cc:101-107 | bytes read plus bytes available are all bytes added |
| ZeroCopyStream.SentIsReadBack | src/nginx/grpc_server_call.cc:567-698 | serialized messages, cut in any way, are deframed to the same payloads |
| ZeroCopyStream.Transmit | src/grpc/zero_copy_stream.cc:47-66 | messages put into the stream and read buffer by buffer are deframed to the same payloads |
| ReadPump.AnsweredKept | src/nginx/grpc_server_call.cc:419-467 | every step keeps: reads are answered in order, once each |
| ReadPump.ConservedKept | src/nginx/grpc_server_call.cc:469-565 | every step keeps: received bytes are the delivered frames, the slices and the body buffers |
| ReadPump.DoneKept | src/nginx/grpc_server_call.cc:469-565 | every step keeps: DONE comes with the last message when nothing is buffered |
| ReadPump.WaitsKept | src/nginx/grpc_server_call.cc:469-565 | every step keeps: a read that waits has no complete message buffered and will be called back |
| ReadPump.PumpIsFaithful | src/nginx/grpc_server_call.cc:419-565 | over every run: each continuation once and in order, all of them after cleanup; delivered messages are the first of the received bytes; DONE only when every byte was delivered |
| ReadPump.LoopEnds | src/nginx/grpc_server_call.cc:469-565 | however often continuations read again, the loop takes at most as many steps as there was work plus twice the bytes that arrive; ended, it leaves no read pending or one that waits for more data and will be called back |
| DownstreamWrites.WritesAreAnswered | src/nginx/grpc_server_call.cc:731-790 | over every run writes are answered in order and at most once; once the request is over, every write was answered exactly once if and only if no cleanup came while one was blocked |
| DownstreamWrites.StrandedIsFinal | src/nginx/grpc_server_call.cc:802-811 | a write that was blocked at the cleanup is never answered |
| DownstreamWrites.ClientLeavesDuringWrite | src/nginx/grpc_server_call.cc:786-811 | a blocked write followed by a cleanup is such a run |
| GrpcWeb.AppendToEnd | src/nginx/grpc_web_finish.cc:67-92 | fills an empty last link or links a new one behind the chain |
| GrpcWeb.EncodesGrpcCustomTrailers | src/nginx/grpc_web_finish.cc:143-181 | one link per trailer line in order; the length grows by exactly their bytes |
| GrpcWeb.EncodesGrpcTrailersFrame | src/nginx/grpc_web_finish.cc:183-226 | header, status, message and trailers in one chain whose final link alone is marked last |
| GrpcWeb.GrpcWebFinish | src/nginx/grpc_web_finish.cc:229-277 | the chain holds a header declaring the length of the lines, then the lines in order; only the final link is marked |
| GrpcWeb.TrailerFrameFits | src/nginx/grpc_web_finish.cc:59-65 | the declared length is the real one exactly below 2^32 bytes, and then the frame is read back |
| GrpcWeb.FinishIsReadBack | src/nginx/grpc_web_finish.cc:229-277 | the flattened chain is one frame around all lines |
| ProxyFlow.NotStuckKept | src/grpc/proxy_flow.cc:251-478 | every callback keeps: at most one operation of each side is outstanding, and until the client is answered the response side or the upstream finish is at work |
| ProxyFlow.InOrderKept | src/grpc/proxy_flow.cc:274-428 | every callback keeps: a message sits in its buffer from its arrival until it is written, so the write sends what was read |
| ProxyFlow.LoggedKept | src/grpc/proxy_flow.cc:251-471 | every action taken is one that an observer of the log allows next |
| ProxyFlow.WatchMeans | src/grpc/proxy_flow.cc:274-471 | what the observer allows is the ordering between any two actions |
| ProxyFlow.TruthfulKept | src/grpc/proxy_flow.cc:430-471 | the status sent is the proxy's error, or else the upstream's status |
| ProxyFlow.InvOverRun | src/grpc/proxy_flow.cc:251-478 | the whole invariant holds after every run, cancellations included |
| ProxyFlow.NeverStuck | src/grpc/proxy_flow.cc:251-478 | until the client is answered something that moves the flow on is outstanding; a quiescent flow answered exactly once |
| ProxyFlow.ActionsAreOrdered | src/grpc/proxy_flow.cc:274-471 | half-close, upstream finish, metadata and answer at most once; nothing for the client starts after the answer; one operation per side outstanding |
| ProxyFlow.NoWriteAfterHalfClose | src/grpc/proxy_flow.cc:292-345 | if the client side hands over no message after one flagged as the last, no upstream write starts after the half-close |
| ProxyFlow.RunSeesLast | src/grpc/proxy_flow.cc:274-290 | a run has seen a message after the last one exactly when its events say so |
| PassThrough.NoWriteAfterHalfClose | src/nginx/grpc_server_call.cc:447-467 | a flow that is fed by the read pump never starts an upstream write after the half-close |
| PassThrough.NothingAfterDone | src/nginx/grpc_server_call.cc:456-463 | over every run of the pump no message follows one that came with DONE |
| ProxyFlow.ForwardsFaithfully | src/grpc/proxy_flow.cc:274-471 | in both directions the messages written out of the buffers are a prefix of those that arrived; OK is sent only with the upstream's status |
| GrpcQueue.InvKept | src/nginx/grpc_queue.cc:125-145 | every step of either thread keeps the bridge's invariant |
| GrpcQueue.BridgeIsFifo | src/nginx/grpc_queue.cc:125-194 | in every interleaving executed, batch and pending are the completions in order; the flag holds exactly when one wake-up is on its way, so pending events never wait without one |
| GrpcQueue.InternalStepsReduceWork | src/nginx/grpc_queue.cc:184-194 | each hand-over step reduces the work left |
| GrpcQueue.EverythingRuns | src/nginx/grpc_queue.cc:125-194 | once completions stop, a run of hand-over steps is bounded and ends with every callback run |
| WeightedSelector.WeightedSelector.Select | src/api_manager/weighted_selector.cc:33-56 | for any weights each call returns the next entry of the schedule, the empty name without entries |
| WeightedSelector.PickIsLeast | src/api_manager/weighted_selector.cc:43-53 | the pick has the least ratio of count to weight |
| WeightedSelector.AlwaysClose | src/api_manager/weighted_selector.cc:29-56 | any two entries stay within one pick of proportion |
| WeightedSelector.Fairness | src/api_manager/weighted_selector.cc:29-56 | after n picks (c-1)W <= (n-1)w for a picked entry and cW >= (n-(k-1))w for every entry |
| WeightedSelector.ExactShares | src/api_manager/weighted_selector.cc:29-56 | after any multiple of the total weight the counts are exactly proportional |
| WeightedSelector.ScheduleRepeats | src/api_manager/weighted_selector.cc:29-56 | the schedule is periodic with the total weight as period |
| WeightedSelector.ZeroWeightIsStarved | src/api_manager/weighted_selector.cc:29-56 | beside an entry of another weight, an entry of weight zero is never picked, except that the first entry gets the first pick |
| ConfigManager.ConfigManager.SetLatestRolloutId | src/api_manager/config_manager.cc:79-97 | starts the timer exactly for a new id when none runs and the window is over; the throttle and the accounting of all rollouts are kept |
| ConfigManager.ConfigManager.OnRolloutsRefreshTimer | src/api_manager/config_manager.cc:113-129 | fires at least one window after every earlier firing |
| ConfigManager.ConfigManager.OnRolloutResponse | src/api_manager/config_manager.cc:139-183 | hands nothing over and leaves the current id; the accounting of all rollouts, the new one included, is kept |
| ConfigManager.ConfigManager.FetchConfigs | src/api_manager/config_manager.cc:186-224 | one fetch per share of the rollout |
| ConfigManager.ConfigManager.OnConfig | src/api_manager/config_manager.cc:186-224 | hands a rollout over exactly when this was its last fetch out and none failed, and then with all of its shares; otherwise neither hand-overs nor the current id change |
| ConfigManager.ConfigManager.Later | src/api_manager/config_manager.cc:79-129 | time passing keeps the throttle and the accounting |
| ConfigManager.CompleteMeansNothingOut | src/api_manager/config_manager.h:43-64 | the counters say complete exactly when no fetch is out, and deployable exactly when also none failed |
| ConfigManager.InvOverRun | src/api_manager/config_manager.cc:79-224 | the accounting of every rollout and the throttle hold after every run |
| ConfigManager.AllOrNothing | src/api_manager/config_manager.cc:186-224 | for any order of answers and overlap of rollouts, a rollout is handed over once if every config arrived and never otherwise, with its shares as a permutation |
| ConfigManager.RefreshesAreApart | src/api_manager/config_manager.cc:79-129 | any two refreshes are at least one throttle window apart |
| ConfigManager.NothingNewStartsNothing | src/api_manager/config_manager.cc:79-183 | with every answer in, hearing only of the current rollout starts no timer and no fetch |
| ApiManager.ApiManager.AddConfig | src/api_manager/api_manager_impl.cc:146-182 | refuses a bad text or another service name; a known config id keeps its context |
| ApiManager.ApiManager.AddAndDeployConfigs | src/api_manager/api_manager_impl.cc:121-144 | true exactly when the list is not empty and every config loads, and then the selector has all of them; otherwise the previous selector stays. From no contexts, contexts appear exactly when the first config is accepted |
| ApiManager.LoadsMeans | src/api_manager/api_manager_impl.cc:146-182 | with a known service name a list loads exactly when every text is valid and has that name |
| ApiManager.ApiManager.SelectService | src/api_manager/api_manager_impl.cc:270-279 | no service exactly without contexts; a null selector exactly with contexts and no selector; otherwise the context of the scheduled config, which is always known |
| ApiManager.ContextsWithoutSelector | src/api_manager/api_manager_impl.cc:121-182 | after any sequence of lists there are contexts without a selector exactly when no list loaded although some list began with a text that is a config |
| ApiManager.FirstListFailsLate | src/api_manager/api_manager_impl.cc:121-144 | a first list whose second text is no config leaves one context and no selector |
| ApiManager.SelectorIsLastLoaded | src/api_manager/api_manager_impl.cc:121-144 | after any sequence of lists the selector is that of the last list that loaded |
| ApiManager.DeployKeeps | src/api_manager/api_manager_impl.cc:121-188 | every deployment keeps that each id in the selector has a context, and replaces no context |
| Rollouts.LastLoadedServes | src/api_manager/api_manager_impl.cc:207-217 | over every run of fetches the selector is the whole rollout that was the last to load, every id in it has a context, and the current id is that of the last rollout handed over |
| Rollouts.FailedRolloutIsNotRetried | src/api_manager/config_manager.cc:217-220 | when the last rollout handed over fails to load, the selector is that of before, its id is nevertheless the current one, and until another id is heard of nothing is fetched |
| TraceContext.GetTraceFromCloudTraceContextHeader | src/api_manager/cloud_trace/cloud_trace.cc:344-418 | the streaming parser accepts and returns what the specification does |
| TraceContext.ParsedIsSendable | src/api_manager/cloud_trace/cloud_trace.cc:344-418 | an accepted header gives a context that can be emitted |
| TraceContext.CloudRoundTrip | src/api_manager/cloud_trace/cloud_trace.cc:105-132 | emitting it with any 64-bit span and parsing again gives the same trace id and options and that span as parent |
| TraceContext.DefaultIsSendable | src/api_manager/cloud_trace/cloud_trace.cc:188-217 | a context that a sampler started survives being sent as well |
| TraceContext.GrpcRoundTrip | src/api_manager/cloud_trace/cloud_trace.cc:288-342 | the same for the binary format; it fails exactly for an all-zero trace id and for options other than the default |
| TraceContext.GrpcContextSurvives | src/api_manager/cloud_trace/cloud_trace.cc:105-132 | every accepted binary header survives being sent on |
| Decimal.ExtractDec | src/api_manager/cloud_trace/cloud_trace.cc:105-132 | a printed 64-bit number is extracted again |

## Left out

- WeightedSelector.WeightedSelector.Select: compares exact ratios, not the float score of the source, so rounding is not modelled; a zero weight gives no number or infinity as in floating point.
- ApiManager.ApiManager.AddAndDeployConfigs: takes whole weights; rounding of the percentages and the start of service control are not modelled. LoadServiceRollouts, which reads the first list from files, is not either.
- PathMatcher.PathMatcher.LookupRequest: leaves out bindings from query parameters and the fallback from system parameters; for templates with a `**` and a wildcard verb it promises a matching rule, not the best one.
- BindingValues.ExtractBindingsFromPath: requires that the ranges exist, which is proved for every match of a parsed template.
- HttpRules.Config.GetOrCreateMethodInfo: a method is a value with its selector; the flags that turn off auth and allow unregistered calls for OPTIONS, the API name and quota are left out.
- Deframer.DownstreamSlices.TryReadDownstreamMessage: compressed messages and decompression are left out, as are slice reference counts.
- ZeroCopyStream.GrpcZeroCopyInputStream.Skip: sizes are unbounded integers; the source's int and size_t widths are not modelled, except for the 32-bit length field.
- ReadPump.PumpIsFaithful: the client reads again only from a continuation that was told to proceed, as ProxyFlow does; the status texts of read errors are not distinguished.
- DownstreamWrites.WritesAreAnswered: the flow writes again only when its last write was answered, as ProxyFlow does; sending the headers is part of whether a write fails.
- ProxyFlow.ForwardsFaithfully: header copying and message sizes are left out.
- GrpcWeb.GrpcWebFinish: allocation failures and the hand-over to nginx are left out; the message is given percent-encoded and free of NUL bytes.
- TraceContext.GrpcRoundTrip: works on the decoded bytes; base64 is left out.
- ConfigManager.ConfigManager.SetLatestRolloutId: random delays and the token fetch are nondeterministic events; the caller's time is a reading of the same non-decreasing clock.
- ConfigManager.ConfigManager.OnRolloutResponse: JSON parsing and the rounding of percentages are left out; an error response is an event that drops the call.
- ProxyFlow and GrpcQueue are step machines on values, so update in place and aliasing of their objects are not captured; GrpcQueue's shutdown is left out.
- InsertPath, Clone and the builder's Build of the path matcher, which only wrap or copy the trie.
- The transcoding server call, service control, auth, quota, metadata fetching, Firebase rules and nginx plumbing are not part of this model.
