# A verified model of mcp-opa-authz

`mcp-opa-authz` is an MCP server that asks an OpenID AuthZEN Policy Decision Point (PDP) for authorization decisions and evaluates Rego policies in-process. This project models the parts of it that decide something, and proves what those parts promise.

**The AuthZEN pipeline.** A call's arguments are JSON texts. The client merges each batch entry over the top-level defaults, validates the result, sends defaults and raw entries, reads the response through a byte cap, decodes it and reports decisions with their index. The model works on the bytes at both ends: a JSON parser and printer, the compaction and the decoding rules of `encoding/json` (names matched in any case, last duplicate wins, a repeated array decoded into the slice that is already there), the refusal of numbers beyond float64, an arbitrary transport, and a PDP over an arbitrary policy, which may refuse requests without its credentials and incomplete ones.

- A JSON array or object is never a proper prefix of a different one, so a response that the cap cuts can be rejected but cannot carry another decision (`JsonPrefix`, `Theorems`).
- A text is read as a tree if and only if it spells it, by a grammar stated apart from the parser (`Grammar`, `JsonRoundTrip`). What is sent is stated byte for byte and is read back with the same meaning (`Wire`, `Theorems`).
- Which calls are accepted, where they go, and what a reply is reported as are stated of the texts a caller and a PDP write (`Acceptance`, `Theorems`, `Discovery`).
- What the client sends is complete, as the PDP reads it; and a batch reports exactly the policy's decisions up to the semantic's stopping point, settles the conjunction or the disjunction when it stops early, and agrees with a loop of single calls (`Theorems`). The calls this is said of are all the acceptable ones (`Reachability`).
- Against any transport at all, every reported decision is a boolean that the response body states at that index (`Responses`, `Theorems`). Calls for which a promise fails are built in full (`Divergence`).

**The bounded collectors and the result sizer.** `print` output, trace events and the result's encoding are bounded. The collectors are classes, proved against one function per call, and a step machine in which any number of goroutines contend for the mutex (`Collectors`, `Interleavings`, `TraceFormat`, `Sizing`, `PolicyResult`). A second machine, with arrays and slice headers, refines the first and shows that what was handed out never changes (`SharedSlices`).

**Endpoints, header and capabilities.** Stripping and appending the known AuthZEN paths, through a URL printer and parser (`Endpoints`); the `Authorization` header (`Authorization`); removing built-ins from a shared capability set (`Capabilities`).

In all of this a `string` stands for a Go string: one char is one byte. (In `Authorization` one char is one code point.) A `json.RawMessage` is represented by its syntax tree, which keeps member order, duplicates, number literals and escapes, and drops only the whitespace that is dropped when the message is sent; an absent one is `None`.

## Where the code does not do what is said of it

- *"A cut body cannot carry a different decision"* holds for every body that is JSON. For a body that is not JSON it fails: `{"decision":true} x` is an error when read whole and a permit when the cap falls after the brace. `CapOnAnyBody` says exactly when the two agree, for all bodies and caps, and `CapAcceptsBrokenBody` gives the instance.
- *An argument that is a JSON object is accepted unchanged* (args.go:73) fails for an object that holds a number too large for a float64, such as `{"a":1e400}` (`HugeNumberRefused`): it is decoded into `any` to be looked at. `AsJsonObject` says exactly which texts are accepted, and every acceptance result below has that condition.
- *Validation sees what the PDP will evaluate* (tool_authzen.go:428-430) fails for an entry with a member such as `"Subject"`: the client validates it, an exact reader does not see it. `ShadowedEntryDiverges` gives a call that is accepted, sent, and reported as permitted, while the policy denies what was validated. `EntrySeen` says exactly when both read the same, entry by entry, and `DecidedAsValidatedExactly` for a whole batch; the end-to-end theorems assume just that condition.
- *One missing decision suppresses all* (tool_authzen.go:273-278) holds of every body with at most one `evaluations` member (`ReportExactly`). When there are two, the second is decoded into the slice of the first, and what it does not give is taken from the first: a decision (`RepeatedMemberReported`), or the context of another decision, which is said to be passed through unmodified (tool_authzen.go:28-30, `StaleContextReported`). `ReportAlways` says for every body when there is a report and what is in it; a reported decision is the one that the last `evaluations` member states at its index if and only if that element has a decision at all (`ReportFollowsLast`).
- *Validation turns an opaque 400 into a message* (tool_authzen.go:467-473): the request of an accepted batch is complete exactly when each entry is, with its names matched exactly (`SentCompleteExactly`), so always when the entries are read alike (`SentComplete`). An entry's own `context` is not checked to be an object, and a PDP may still refuse that.
- *Deriving the batch endpoint drops the query* (authzen.go:324, authzen.go:347) fails exactly for a URL with a bare `?` (`BareQuestionMark`), such as `http://h?` (`QuestionMarkKept`), and deriving it twice is deriving it once exactly when the path before the known suffix does not end in three slashes (`BatchEndpointIdempotent`), as that of `http://h///` does (`DerivedTwiceDiffers`).
- *Truncated output is marked by a flag* (tool_opa.go:402-403) holds both ways, but a flagged line can come out as it went in, exactly when it is its own first 1024 bytes followed by the marker (`ClippedUnchanged`, `MarkedLine`).
- README.md:92 gives 4000 as the bound on trace events; tool_opa.go:33 computes 800, which is what the model uses.

## Model

| member | source | states |
|---|---|---|
| JsonPrefix.ValueExtend | authzen.go:187-189 | Whatever bytes follow a JSON value, the same value is read and the rest is left over; a number that could run on is the one exception. |
| JsonPrefix.ValueCut | authzen.go:227-229 | A value that ends within a text is read from that text alone as it is from any longer one. |
| JsonPrefix.PrefixFree | authzen.go:227-238 | Of two valid JSON texts, one a prefix of the other, both are the same tree, unless both are numbers. |
| JsonPrefix.CutReads | authzen.go:187-229 | For any body, the first n bytes read as tree v exactly when v is the body's first value, ends within n bytes, and only whitespace stands between it and byte n. |
| JsonPrefix.CutVersusWhole | authzen.go:187-229 | When the cut text reads as v, the whole text reads as v if only whitespace was cut, and is not JSON otherwise. |
| JsonRoundTrip.ValueBack | authzen.go:165-169 | Every tree is parsed back from its own text, whatever follows. |
| JsonRoundTrip.ValueRead | args.go:50-83 | Whatever is parsed can be written again, in no more bytes than were read. |
| JsonRoundTrip.DocExactly | authzen.go:187-189 | A text parses to a tree if and only if it spells it, by a grammar of its own (Grammar): the tree's tokens in order, with any run of the four whitespace bytes before, between and after them. |
| JsonRoundTrip.NumberExactly | authzen.go:187-189 | The literals read as numbers are exactly sign, integer part, fraction and exponent as the grammar has them, with either e. |
| JsonRoundTrip.TextIs | authzen.go:166 | What is written for a tree is its tokens without anything between them. |
| Spelling.ShortEscapes | authzen.go:187-189 | The byte of each of the eight short escapes. |
| Spelling.HexDigits | authzen.go:187-189 | A hex digit of either case is worth its position among the sixteen. |
| Spelling.CodeUnitExactly | authzen.go:187-189 | The code unit of four hex digits, most significant first. |
| Spelling.UnicodeEscapes | authzen.go:187-189 | What a unicode escape stands for, and that half a surrogate pair stands for U+FFFD. |
| Spelling.PairEscape | authzen.go:187-189 | The code point that a surrogate pair stands for. |
| Spelling.Utf8Exactly | authzen.go:187-189 | The bytes of a code point are the shortest UTF-8 sequence that decodes to it. |
| Spelling.FoldExactly | authzen.go:31-75 | A field is read under exactly these spellings of its name: either case of each letter, and the two code points that fold to s and k. |
| Spelling.CompactEscapes | authzen.go:166 | No string is sent with one of the three characters HTML is sensitive to, or a line separator. |
| GoJson.CompactUnescape | authzen.go:166 | The rewriting of a raw message when it is sent (HTML-sensitive characters and line separators escaped) never changes the bytes a string stands for, surrogate pairs included. |
| GoJson.CompactMeaning | authzen.go:31-63 | Sending keeps member order, number literals and string values of every tree. |
| GoJson.SamePosition | tool_authzen.go:424-436 | A case-blind reader of the entry and an exact one pick the same member if and only if no differently-cased name comes after the last exact one. |
| GoJson.CompactField | authzen.go:53-60 | The member that is read under a name is the same before and after sending. |
| Numbers.FloatLimit | args.go:75-76 | The bound on numbers is 2^1024 - 2^970, half a unit in the last place above the greatest float64. |
| Numbers.LargeExponent | args.go:75-76 | Any non-zero number with an exponent of 342 or more is out of range. |
| Numbers.FieldInRange | tool_authzen.go:424-436 | A member of an object whose numbers are in range has its numbers in range. |
| Numbers.InRangeExactly | args.go:74-79 | A tree is in range if and only if every number among its tokens is finite as float64. |
| Numbers.DecimalExactly | args.go:74-79 | A literal is its integer and fraction digits times ten to its exponent less the fraction's length. |
| Numbers.ExponentExactly | args.go:74-79 | An exponent of up to five digits is worth what they spell, with its sign. |
| Numbers.OrdinaryInRange | args.go:74-79 | Literals whose integer digits and exponent come to no more than 300 are in range, whatever the fraction. |
| Requests.AsJsonObject | args.go:74-83 | Accepts exactly the texts that are one JSON object all of whose numbers are finite as float64, and returns the object unchanged. |
| Requests.HugeNumberRefused | args.go:74-79 | A JSON object that is refused for a number out of range. |
| Requests.JsonObjectArg | args.go:55-71 | An object argument is accepted if and only if it is absent and optional, or a JSON object within the byte limit with its numbers in range, and it comes back as its own tree. |
| Requests.RequireMembers | tool_authzen.go:486-517 | Accepts exactly an absent value, or one that reads as a map in which every named member is a non-empty string. |
| Requests.ValidateEntities | tool_authzen.go:474-482 | Accepts exactly requests whose present entities carry type and id, name, and type and id. |
| Requests.ValidEntitiesAreObjects | tool_authzen.go:459-465 | An explicit null entity counts as present and is always rejected: valid entities are objects. |
| Requests.ReadEvaluationArgs | tool_authzen.go:373-394 | Succeeds if and only if all four arguments are acceptable, numbers in range included, and the entities are valid, and then returns them as given. |
| Requests.ReadEvaluationEntries | tool_authzen.go:398-457 | Sound and complete: succeeds if and only if the argument is an array of 1 to 100 entries within the byte limit and every entry is an object with its numbers in range that is complete over the defaults; returns the entries unchanged and in order; a rejected entry is the least failing one. |
| Pdp.CompleteExactly | tool_authzen.go:474-482 | The client's checks let an evaluation through if and only if subject.type, subject.id, action.name, resource.type and resource.id are non-empty strings. |
| Acceptance.SingleAcceptedExactly | tool_authzen.go:373-394 | The arguments of authzen_evaluate are accepted if and only if subject and resource are written as objects with a non-empty type and id, action as one with a non-empty name, and context, if at all, as an object, each within the byte limit and with its numbers in range. Said of the texts. |
| Acceptance.DefaultsAcceptedExactly | tool_authzen.go:373-394 | The same for the defaults of a batch, of those that are written. |
| Acceptance.BatchAcceptedExactly | tool_authzen.go:398-457 | The arguments of authzen_evaluate_batch are accepted if and only if the defaults are, evaluations spells an array of 1 to 100 entries that are complete over them, and the semantic is one of three, execute_all when none is written; and the plan has those. |
| Acceptance.ResolvedExactly | authzen.go:126-137 | The endpoint of a single call is the pdp_url written, or else the configured URL, when that is valid. |
| Acceptance.SingleGoesTo | tool_authzen.go:118-148 | The result depends on replies from that URL only, and on no other setting of the URL, and names it. |
| Acceptance.BatchGoesTo | tool_authzen.go:207-221 | The same for a batch: a written URL is used as it is, and otherwise the endpoint derived from the configured one. |
| Acceptance.DiscoverGoesTo | tool_authzen.go:337-353 | The same for discovery, at the metadata URL of the root of the URL asked for. |
| Requests.EffectiveSendable | tool_authzen.go:431-436 | Every part of an entry over the defaults can be sent and fits the byte limit of a single argument. |
| Requests.EffectiveConvertible | tool_authzen.go:424-436 | Every part of an accepted entry over the defaults has its numbers in range. |
| Wire.BatchField | authzen.go:53-60 | Each member of the batch request is read back under its own name, and an omitted one is absent. |
| Wire.SingleField | authzen.go:31-36 | Each member of the single request is read back under its own name. |
| Wire.SingleText | authzen.go:31-36 | The body of a single request, byte for byte. |
| Wire.BatchText | authzen.go:53-63 | The body of a batch request, byte for byte: the defaults there are, the entries in order, the semantic, and nothing else. |
| Wire.MarshalBack | authzen.go:166-172 | What is sent is one JSON text whose tree means what was marshalled. |
| Pdp.EntrySeen | tool_authzen.go:428-436 | What the PDP takes from the sent bytes for an entry (its own members over the defaults) means what the client validated if and only if, for each part, what shadows it means what the exact member, or else the default, means. |
| Pdp.EarlyExit | authzen.go:66-70 | Under deny_on_first_deny the last evaluated decision is the conjunction of all, under permit_on_first_permit the disjunction; all earlier ones are its opposite when cut short; execute_all evaluates every entry. |
| Pdp.ReferenceServes | tool_authzen.go:467-473 | For every policy there is a PDP meeting the hypotheses of the end-to-end theorems. |
| Pdp.ReferenceRefuses | tool_authzen.go:467-473 | That PDP refuses exactly requests without its credentials, and those complete neither as a batch nor as a single request. |
| Responses.DecisionWasSaid | authzen.go:44-47 | Every decision decoded from any body is a boolean some evaluations member states at the same position, repeated members included. |
| Responses.SingleWasSaid | authzen.go:44-47 | A single decision is a boolean some decision member of the body states. |
| Responses.StatesExactly | authzen.go:44-47 | A value decodes to a decision if and only if it is an object whose decision members are all booleans or null and whose last one is a boolean; then to that one, with the value's own context. |
| Responses.DecodedExactly | authzen.go:73-75 | A body with at most one evaluations member decodes to decisions, none missing, if and only if that member is an array whose every element states one; and then to those, in order, each with its own context. |
| Responses.DecodedAlways | authzen.go:73-75 | Any JSON object decodes if and only if every evaluations member is null or an array of fillable values; and then to as many elements as the last one has, each field from the last array that gives it since the slice was last reset. |
| Responses.AllDecoded | authzen.go:73-75 | A conforming answer is decoded to exactly the decisions it states. |
| Client.Do | authzen.go:214-239 | Yields a body only for status 200, and then exactly its first bytes up to the cap. |
| Client.PostJson | authzen.go:165-191 | Sends the compact encoding with the configured header and yields the response's tree; every other outcome yields none. |
| Client.AuthzenEvaluate | tool_authzen.go:118-148 | Refines the single-call specification, of which Acceptance.SingleAcceptedExactly, Acceptance.SingleGoesTo, Theorems.SingleEndToEnd and Theorems.DecisionExactly state the meaning. |
| Client.Align | tool_authzen.go:261-292 | Reports every decision under its own index, or nothing: one missing decision or one too many suppresses all. |
| Client.AuthzenEvaluateBatch | tool_authzen.go:207-294 | Refines the batch specification, of which Acceptance.BatchAcceptedExactly, Acceptance.BatchGoesTo, Theorems.BatchEndToEnd and Theorems.ReportAlways state the meaning. |
| Client.AuthzenDiscover | tool_authzen.go:337-366 | Refines the discovery specification, of which Discovery.DiscoveryExactly states the meaning. |
| Theorems.CapNeverChangesAnswer | authzen.go:187-229 | For every JSON body and every cap, the capped body gives the same decisions as the whole one or fails, for both tools. |
| Theorems.CapOnAnyBody | authzen.go:187-229 | For every body at all, an answer obtained through the cap is the answer to the whole body if and only if only whitespace was removed. |
| Theorems.CapAcceptsBrokenBody | authzen.go:227-229 | A body that is not JSON, and a cap that turns it into a permit. |
| Theorems.ReportIsFromBody | tool_authzen.go:251-293 | Over every transport outcome, a report needs status 200 and a JSON object within the cap, is never longer than the request, and states only booleans the object holds at the same index. |
| Theorems.DecisionIsFromBody | tool_authzen.go:129-147 | The same for the single tool: a failure is never a decision. |
| Theorems.DecisionExactly | tool_authzen.go:129-147 | For every JSON object as the answer, repeated members included: there is a decision if and only if the object states one, and it is that one, with the object's own context. |
| Theorems.ReportExactly | tool_authzen.go:251-292 | For every JSON object with at most one evaluations member: there is a report if and only if that member is an array no longer than the entries whose every element states a decision, and then it lists all of them, each with its element's own context. One missing decision or one too many suppresses all. |
| Theorems.ReportAlways | tool_authzen.go:251-292 | For every JSON object, repeated members included: exactly when there is a report, and every decision and context in it. |
| Theorems.ReportFollowsLast | tool_authzen.go:261-284 | For every JSON object, repeated members included: a report has as many decisions as the last evaluations member has elements, and decision i is what element i states if and only if that element has a decision. |
| Divergence.RepeatedMemberReported | tool_authzen.go:251-284 | For every accepted batch, a response with a second evaluations member that lacks a decision, for which the decision of the first is reported. |
| Divergence.StaleContextReported | tool_authzen.go:28-30 | For every accepted batch, a response with two evaluations members for which a decision is reported with the context of another one. |
| Theorems.DiscoveryIsFromBody | tool_authzen.go:337-366 | A discovered document comes from status 200 and a JSON object within the cap, and every string in it, a non-empty evaluation endpoint among them, is stated there under its name. |
| Discovery.DiscoveryExactly | tool_authzen.go:337-366 | For every JSON object as the reply: there is a document if and only if every member read as one of the seven string fields is a string or null and the evaluation endpoint comes out non-empty; each string field is then the last string read for it, or empty, and each of the two raw fields the last value read for it. |
| Theorems.DecidedAsValidated | tool_authzen.go:242-249 | The PDP decides exactly the evaluations the client validated, in order, up to the stopping point. |
| Theorems.DecidedAsValidatedExactly | tool_authzen.go:428-436 | Under each semantic, every policy is asked exactly what was validated if and only if every entry is read alike; under execute_all, also decides exactly so. |
| Wire.CompleteMeaning | tool_authzen.go:474-482 | Whether an evaluation has its required members depends on its meaning only, not on how strings are escaped. |
| Theorems.SentCompleteExactly | tool_authzen.go:467-473 | The request of an accepted batch is complete as the PDP reads it if and only if each entry is complete over the defaults with its names matched exactly; likewise for the contexts. |
| Theorems.SentComplete | tool_authzen.go:467-473 | When every entry is read alike, the request is complete; its contexts are objects if and only if those of the evaluations are. |
| Divergence.ShadowedEntryDiverges | tool_authzen.go:424-436 | An accepted batch with a member named "Subject": the policy denies what was validated, and a PDP serving that policy is reported to permit it. |
| Theorems.BatchRoundTrip | authzen.go:53-63 | The sent bytes are read back as the same request: defaults, absent defaults, every entry in order, and the semantic. |
| Theorems.BatchEndToEnd | tool_authzen.go:207-294 | For every policy, defaults, accepted entries, semantic, credentials and cap, and any PDP that answers complete requests with the policy's decisions when it answers them: the report is (i, policy of entry i over the defaults) up to the stopping point, truncated if and only if that comes before the last entry. There is one whenever the reply is a 200 that the cap does not cut; the PDP owes that reply when every context is absent or an object. |
| Theorems.ReportSettlesAll | tool_authzen.go:234-292 | The last reported decision is the conjunction or the disjunction over all entries; a truncated report ends in a deny or a permit and every earlier decision is the opposite. |
| Theorems.LoopArgsAccepted | tool_authzen.go:373-394 | An evaluation passes the single tool's own checks, byte limit included, if and only if its context is absent or an object and its numbers are in range; the numbers of an accepted batch's evaluations are (Requests.EffectiveConvertible). |
| Theorems.SingleEndToEnd | tool_authzen.go:118-148 | The single tool reports the policy's decision on its arguments, or an error; its requests are always complete, so there is an error only if the cap cut the reply. |
| Theorems.BatchRefinesLoop | tool_authzen.go:155-161 | Under execute_all, decision i of a batch equals what authzen_evaluate reports for the i-th evaluation; it reports one unless its context is not an object or the cap cuts the reply. The PDP may refuse incomplete or unauthenticated requests. |
| Reachability.PlansAreTheAccepted | tool_authzen.go:207-240 | Some call leads to a plan if and only if the plan is accepted: 1 to 100 complete entries, valid defaults, numbers in range, a known semantic, everything within the byte limits. Nothing acceptable is refused. |
| Reachability.EveryAcceptedPlanIsAnswered | tool_authzen.go:207-294 | For every policy and every accepted plan there is a PDP, which refuses what it may refuse, and a cap for which the call succeeds with the policy's decisions, so the hypotheses of the theorems above can be met together. |
| Theorems.AnyUrlOfThePdp | tool_authzen.go:298-353 | Whichever root or endpoint URL of one PDP is configured, batch and discovery calls have the same outcome. |
| Endpoints.UrlBack | authzen.go:315-327 | A well-formed URL is parsed back from its recomposed text. |
| Endpoints.NormalText | authzen.go:323-326 | A URL is written back as it was read if and only if its scheme is in lower case and any '#' has something after it. |
| Endpoints.HostsAccepted | authzen.go:143-159 | A URL of a host name, with or without a port, is accepted and read as it is written. |
| Endpoints.UserInfoRefused | authzen.go:143-159 | User information is refused, whatever follows. |
| Endpoints.RootOf | authzen.go:332-350 | The loop over the known paths computes the URL whose path has the one matching suffix and one slash removed. |
| Endpoints.ResolveFromRoot | authzen.go:315-327 | The path is appended to the root without its trailing slash; query and fragment are cleared. |
| Endpoints.BatchEndpointFrom | tool_authzen.go:298-307 | Computes the batch endpoint of the configured URL's root; an empty setting has none. |
| Endpoints.KnownSuffixesExclude | authzen.go:340-345 | No path ends in two of the known paths. |
| Endpoints.OrderOfKnownIsFree | authzen.go:340-345 | The loop's order and its break do not affect the result. |
| Endpoints.RootParses | authzen.go:315-318 | Re-validation never fails on what rootOf returned. |
| Endpoints.DerivedParses | tool_authzen.go:337-353 | The derived URL exists for every valid URL, keeps scheme and host, and has no query and no fragment. |
| Endpoints.BareQuestionMark | authzen.go:323-326 | A question mark survives if and only if the URL had one with nothing after it. |
| Endpoints.QuestionMarkKept | authzen.go:323-326 | The URL http://h? keeps its question mark. |
| Endpoints.Converge | tool_authzen.go:298-353 | The root of a PDP and each of its known endpoints, with any query or fragment, lead to one batch endpoint and one metadata URL. |
| Endpoints.EndpointTexts | tool_authzen.go:298-353 | As text, for any host and mount point: /access/v1/evaluation leads to /access/v1/evaluations and to /.well-known/authzen-configuration below the same mount point, and so does the mount point itself. |
| Endpoints.RootUndoesEndpoint | authzen.go:315-350 | rootOf undoes resolveFromRoot, for each known path, if and only if the root has no query, no fragment and no trailing slash; the very text of the root comes back if and only if its scheme is also in lower case and it has no '#'. |
| Endpoints.BatchEndpointIdempotent | tool_authzen.go:298-307 | Deriving twice is deriving once if and only if the path before the suffix does not end in three slashes. |
| Endpoints.DerivedTwiceDiffers | tool_authzen.go:298-307 | Deriving twice from http://h/// is not deriving once. |
| Authorization.SetAuth | authzen.go:241-253 | Sets the normalised value, or leaves the headers alone for a blank token. |
| Authorization.Normalised | authzen.go:241-267 | No header exactly for blank tokens; otherwise the value names a recognised scheme in any case, ends in the trimmed token, and normalises to itself. |
| Authorization.HeaderExactly | authzen.go:241-267 | As text: a token, with any blanks around it, is sent as it is when it starts with the word bearer, basic or dpop in any case and a space, and otherwise after "Bearer "; a blank setting sends none. |
| Collectors.HeldExactly | tool_opa.go:386-400 | After any messages: the images of the first ones up to the limit, every other one counted, and clipped exactly when a kept one was too long. |
| Collectors.CutExactly | tool_opa.go:402-408 | The flag is up if and only if some message was not kept whole. |
| Collectors.PrintedExactly | tool_opa.go:386-408 | As text: the first 200 messages, whole or their first 1024 bytes and the marker, the others counted, and the flag up if and only if anything is missing. |
| Collectors.TracedExactly | tool_opa.go:330-338 | The first 800 events as they are, and the others counted. |
| Collectors.ClipExactly | tool_opa.go:394-397 | What is kept of a line: all of it, or its first 1024 bytes and the marker. |
| Collectors.ClippedUnchanged | tool_opa.go:394-397 | A clipped line equals the original if and only if that is 1024 bytes followed by the marker. |
| Collectors.MarkedLine | tool_opa.go:394-397 | Any 1024 bytes followed by the marker are such a line. |
| Collectors.PrintCollector.Append | tool_opa.go:398 | Appending in place or into a larger array adds one line and changes no element that was there, in the old array either. |
| Collectors.PrintCollector.Print | tool_opa.go:386-400 | One call takes the collector to the next state and leaves earlier elements of the shared array as they are. |
| Collectors.PrintCollector.Lines | tool_opa.go:404-408 | Hands out the slice itself and whether anything was cut. |
| Collectors.PrintCollector.PrintAll | tool_opa.go:386-408 | However many messages follow, a snapshot keeps its elements and stays a prefix of what is held, although it shares the array. |
| Collectors.BoundedTracer.TraceEvent | tool_opa.go:330-338 | One call takes the tracer to the next state. |
| Interleavings.EveryInterleavingIsSequential | tool_opa.go:386-400 | For every number of goroutines and every schedule: never two inside a call; whenever the mutex is free the collector holds what the messages in lock order leave in it, none is lost from the count, and the flag is exact; each goroutine's messages are logged in its order. |
| Interleavings.NeverOverfull | tool_opa.go:390-398 | At no step of any schedule, inside a call or not, are there more items than slots. |
| Interleavings.SnapshotsGrow | tool_opa.go:404-408 | Of two snapshots taken in one run, the earlier is a prefix of the later. |
| Interleavings.SnapshotFlag | tool_opa.go:404-408 | A snapshot's flag is up if and only if some message logged by then was not kept whole. |
| Interleavings.KeptInProgramOrder | tool_opa.go:366-400 | The messages kept of one goroutine are the first ones it emitted, in its order. |
| SharedSlices.GoRefines | tool_opa.go:386-408 | With arrays and slice headers in memory, appends in place or into a new array of any capacity, and the write and the store as separate steps: every run stands for a run of the machine above. |
| SharedSlices.HandedNeverChanges | tool_opa.go:386-408 | For every schedule, any number of goroutines and any point of the run: what lines() handed out keeps its elements, although it shares its array with later appends. |
| SharedSlices.HandedGrow | tool_opa.go:404-408 | Of two snapshots the earlier is a prefix of the later, whatever arrays they point to. |
| Strings.JoinSplit | tool_opa.go:348 | Joining the split lines gives the text back. |
| Strings.PieceAt | tool_opa.go:348 | Element i of the split lines is the text between separator i and the next, and holds none. |
| Strings.PieceIn | tool_opa.go:348 | Every such piece of the text is one of the split lines. |
| Strings.SplitCount | tool_opa.go:348 | There is one more line than there are separators. |
| TraceFormat.FormatTrace | tool_opa.go:342-364 | Rewriting the lines in place yields the clipped first 200 lines; the flag is up if and only if events were dropped or some line was not shown whole. |
| TraceFormat.ClipAll | tool_opa.go:357-362 | The loop rewrites each line of the array in place and reports whether any was too long. |
| TraceFormat.ShownBounded | tool_opa.go:350-363 | At most 200 lines, none over 1024 bytes plus the 15-byte marker. |
| TraceFormat.ShownCount | tool_opa.go:342-364 | There are as many lines as the rendering has, but no more than 200. |
| TraceFormat.ShownLine | tool_opa.go:348-363 | Line i of the trace is the text between line break i and the next, whole or its first 1024 bytes and the marker. |
| TraceFormat.ShortenedExactly | tool_opa.go:350-363 | The flag is up if and only if events were dropped, there are more than 200 lines, or one is longer than 1024 bytes. |
| TraceFormat.TraceIsLossless | tool_opa.go:237-239 | From any interleaving to the result: at most 800 events; with the flag down, the joined lines are the rendering of every emitted event but for trailing newlines; and exactly when the flag is up. |
| Sizing.CountingWriter.Write | tool_opa.go:269-275 | One write takes the counter to the next state, with 64-bit wrap-around and a sticky flag. |
| Sizing.ExceededExactly | tool_opa.go:263-275 | For every split into writes, the flag is up if and only if the true total exceeds the limit, wrap-around notwithstanding, when no write exceeds 2^63 - 1 - limit bytes. |
| Sizing.WriteBoundIsExact | tool_opa.go:269-275 | That bound on one write is exact: a larger write is misjudged after some total within the limit. |
| Sizing.EncodesWithin | tool_opa.go:251-257 | However the encoder splits its output, the answer is whether the encoding with its newline is within the limit. |
| Sizing.PartIsShorter | tool_opa.go:224-235 | No part of a JSON tree encodes longer than the tree. |
| Sizing.SetText | tool_opa.go:251-257 | The text of a result set is the array of its rows. |
| Sizing.RowText | tool_opa.go:251-257 | The text of a row: its expressions, and its bindings when it has any. |
| Sizing.ExpressionText | tool_opa.go:251-257 | The text of an expression: value, text and location. |
| Sizing.SingleFitsWithSet | tool_opa.go:226-228 | When the result set fits, so does the single value taken from it. |
| PolicyResult.Assemble | tool_opa.go:217-239 | The set is omitted if and only if its encoding exceeds 256 KiB; the value is that of the only expression of the only row if its own encoding fits, and null otherwise; print and trace output are as collected. |
| Capabilities.WithoutBuiltins | opa_capabilities.go:59-70 | A fresh set with the unnamed built-ins and no allowed host; everything else is copied and the shared input is unchanged. |
| Capabilities.SelectPartitions | opa_capabilities.go:61-67 | Kept and removed built-ins make up the input as a multiset; the kept ones are exactly the unnamed ones. |
| Capabilities.SelectKeepsOrder | opa_capabilities.go:62-67 | The kept built-ins stand in their original order. |
| Capabilities.SelectTwice | opa_capabilities.go:59-70 | Filtering by one list and then another is filtering by both. |

## Left out

- MCP registration, tool descriptions, configuration parsing, request ids and timeouts: plumbing.
- Wording of error messages, hints and snippets: an error result is one value, except that a rejected entry carries its index.
- strconv.ParseFloat is taken to round correctly, with its cap on exponents; underflow is no error.
- OPA itself: the result set is any list of rows of JSON trees (an empty one is encoded as an empty array), and the trace renderer is any function from events to bytes. Compilation and argument reading of evaluate_policy are not modelled.
- TLS, redirects and sending: a transport maps a request to a send error, a read error, or a status and a body.
- The nesting limit of 10000 in encoding/json, which only adds failures, and its replacement of invalid UTF-8.
- Endpoints.UrlBack: bracketed hosts with an embedded IPv4 address or a zone, hosts with percent-escapes or other characters that only encoding allows, user information and paths that need percent-encoding are outside the parser's domain and are treated as rejected; a fragment is kept as written, since the code clears it before it writes a URL.
- Theorems.LoopArgsAccepted: the loop is given the compact text of each entity; the whitespace of the original argument is not kept.
- PolicyResult.Assemble: encodings are assumed shorter than 2^63 - 1 - 262144 bytes, and the result trees carry strings as the encoder escapes them; the indented text rendering is not bounded by the code and not modelled.
- Interleavings: goroutines that stop for ever inside a call are schedules that never pick them again; fairness and progress are not stated.
