# Shinel, verified

Shinel is a proxy in front of a language-model API. It replaces sensitive values in an
outbound request by tokens such as `[EMAIL_1]`, files which token stands for which value in
a vault, and puts the values back into the response as it streams by. This project models
that pipeline in Dafny and proves what it promises: a document comes back as it was sent,
however the response is cut into chunks, whatever other requests do to the shared vault
meanwhile, and whatever the detectors find, as long as what they find in a text depends on
the text alone. Two conditions remain, and both are proved exact when no masked value starts
with `[`: no object key and no unmasked stretch of a string holds a token the mapping knows,
and every token used fits the 64-byte cap (`EndToEnd.Returns`); and however long the response
takes, each known token comes by at most one idle lifetime after it was last saved or looked up.

And it proves what goes upstream in its place: wherever a trusted detector, or a guess of the
model clear of all trusted ones, claims a span of a string, at any depth of the document, the
span's first byte is replaced by a token, all of its bytes are when no two claims overlap in
part, and no byte is that nobody claims; every non-empty string under a credential key becomes
one token (`Coverage`).

`dafny verify dfyconfig.toml` checks the whole project.

## How the modules build on each other

- `ByteStrings`, `Utf8`, `CodePoints`, `TokenGrammar`: bytes, UTF-8 as in section 4 of
  RFC 3629 (a rune is the sequence of bytes that encodes it, and the runes are exactly the
  encodings of the Unicode scalar values), and the token grammar with its printer and its
  recogniser.
- `Rewriting`: the reference meaning of restoring a text. `Rewrite(sub, s)` is one
  left-to-right pass that replaces every token of at most 64 bytes the substitution knows.
- `Streaming`, `Demask`: the byte-at-a-time writer, the one-shot restore and the pull reader,
  as classes with a mutable buffer, all proved equal to `Rewrite`.
- `Vault`, `VaultRuns`: the store with sliding idle expiry, and runs of many requests on it.
  A lookup is two atomic steps, the read and the write that renews the entry, so that other
  requests, the clock and the removal of expired entries may come in between.
- `Spans`, `Sessions`, `Masking`: the two tiers of spans, the sweep, the tokens a session
  hands out, and masking one text.
- `WholeWords`, `Dictionary`, `ModelSpans`, `Engine`: the dictionary search in a case-folded
  copy of the text, the filter for the model's findings, and both put together with the
  patterns.
- `JsonString`, `JsonSplice`, `KeyOrder`, `JsonTree`, `JsonRestore`, `JsonMask`, `RoundTrip`,
  `DirtyKeys`: the JSON printer and a reader for what it prints (strings as in section 7 of
  RFC 8259), the walk over a decoded tree, and what restoring means for the decoded tree.
- `Coverage`: what masking hides of a text and of a tree, stated of the detectors and of the
  masked result alone, and which token each value gets.
- `LongStreams`, `LongReads`, `Pacing`: a response that streams over any length of time from
  the shared vault, chunk by chunk or read by read, with anything happening on the vault in
  between; exactly when it is restored right.
- `EndToEnd`, `Proxy`: the whole pipeline.
- `Luhn`: the checksum of card numbers.
- `Batching`, `BatchRuns`: the sidecar's inference engine, flush by flush and over whole runs.

The detectors are arbitrary functions of the text; a model that answers for one string and
times out on a later equal one is not covered. What is asked of them (`Masking.InRange`,
`Masking.OnRunes`) is proved of the dictionary and of the filtered model findings
(`Engine.DetectorsFit`) and remains an assumption for the patterns only.

Time passes between the events of a run. A write during which time passes is the same as
several writes, one for each stretch of its bytes, because the chunks of a stream may be cut
anywhere.

## Where the code and its comments differ, and where a promise needs a condition

Each of these is a lemma with the exact condition or a concrete input.

- A value restored into a response is JSON-escaped (`internal/proxy/streaming.go:134-142`),
  also when the request was opaque text. Such a text comes back unchanged exactly when no
  masked value needs escaping: `Masking.OpaqueRoundTrip`. A masked `&` comes back as
  `\u0026`: `EndToEnd.AmpersandComesBackEscaped`.
- A token that the user typed, in an unmasked stretch or in an object key, is replaced on the
  way back. When no masked value starts with `[` and all tokens fit the cap, a document comes
  back if and only if it holds no such token: `EndToEnd.DocumentRoundTrip`,
  `DirtyKeys.NoDirtyKey`. `{"[EMAIL_1]": "a@b"}` does not: `EndToEnd.TypedTokenIsReplaced`.
- The comment at `internal/vault/vault.go:24-26` says that a long response cannot outlive the
  values it needs. Only the token that is read is renewed, so it can:
  `VaultRuns.BusyStreamLosesToken`. Exactly when a mapping is still there, in every run:
  `VaultRuns.ExactExpiry`. A long response is restored right if every known token comes by in
  time and, when no masked value starts with `[`, only then:
  `LongStreams.StreamRestoredIffInTime` and `LongReads.ReadRestoredIffInTime`. It is enough
  that each token comes by again within one idle lifetime (`Pacing.PacedInTime`), and that is
  exact when the request does nothing else with its tokens meanwhile (`Pacing.InTimeIffPaced`).
- The comment at `internal/proxy/demask.go:55` calls the upstream error sticky. It is reported
  once; later reads say the stream ended well: `Demask.FailureReportedOnce`, and for one body
  `Demask.BrokenThenWell`.
- The dictionary scan jumps past each hit. When folding keeps the class of every rune and
  keeps some two word runes apart (`WholeWords.KeepsClasses`, `WholeWords.TwoWordRunes`), it
  finds every whole-word occurrence of a word in every text if and only if, wherever the word
  overlaps itself, the rune before the inner occurrence is a word rune:
  `WholeWords.GreedyScanComplete`, `Dictionary.ReportComplete`.
- Of two partially overlapping trusted spans the later one is dropped whole, so its end stays
  unmasked: `Spans.PairCoveredIffNestedOrDisjoint`.
- Tokens above 64 bytes are not restored. A kind of 53 letters is the longest for which no
  token of a body of at most 16 MiB can get there: `TokenGrammar.PrintedFitsExactly`.
- Store keys join the request id and the token with a colon. Requests are isolated from each
  other exactly when neither id, closed by its colon, starts the other:
  `VaultRuns.IsolatedIffApart`.

## Model

| member | source | states |
|---|---|---|
| CodePoints.RunesAreScalars | internal/analyzer/analyzer.go:181-196 | the byte sequences taken for runes are exactly the encodings of the Unicode scalar values: no overlong form, no surrogate, and none missing |
| TokenGrammar.Classify | internal/proxy/streaming.go:178-212 | the recogniser's loops answer complete exactly on tokens, partial exactly on proper prefixes of tokens, and so dead exactly on the rest |
| TokenGrammar.DeadForever | internal/proxy/streaming.go:172-176 | a dead candidate stays dead whatever follows |
| TokenGrammar.TokenEnds | internal/proxy/streaming.go:178-212 | no token is a proper prefix of another, so at most one token starts at any byte |
| TokenGrammar.PrintedIsToken | internal/analyzer/analyzer.go:104-108 | every token printed from a non-empty kind of capital letters is one the recogniser completes |
| TokenGrammar.PrintInjective | internal/analyzer/analyzer.go:104-108 | the printed token determines kind and number |
| TokenGrammar.PrintedFitsExactly | internal/proxy/streaming.go:20-23 | the tokens of all numbers up to 2^24 fit into 64 bytes if and only if the kind has at most 53 letters |
| Rewriting.RewriteSplit | internal/proxy/streaming.go:106-119 | restoring distributes over a cut unless a token can straddle it |
| Rewriting.RewriteOccurrence | internal/proxy/streaming.go:63-95 | every occurrence of a token of at most 64 bytes is replaced wherever it stands, and what surrounds it is restored independently |
| Rewriting.RewriteNoHit | internal/proxy/streaming.go:121-132 | a text without known tokens is left alone |
| Streaming.DeadStartsNothing | internal/proxy/streaming.go:106-119 | when a byte kills a candidate, no token starts at the candidate's front, whatever follows |
| Streaming.OnlyOpen | internal/proxy/streaming.go:106-111 | a held candidate has its only `[` in front, so only the last byte of a released one can open the next |
| Streaming.StepRefines | internal/proxy/streaming.go:72-95 | one byte keeps the buffer sound and keeps what has been delivered plus the restored remainder equal, for every possible continuation |
| Streaming.FeedRefines | internal/proxy/streaming.go:66-104 | the same for any stretch of input: the candidate-buffer invariant over every run |
| Streaming.CloseRefines | internal/proxy/streaming.go:152-168 | closing delivers exactly what restoring the held candidate gives |
| Streaming.ChunksAreIrrelevant | internal/proxy/streaming.go:25-27 | writing chunks one by one is writing their concatenation |
| Streaming.StreamingIsRewriting | internal/proxy/streaming.go:63-168 | for every list of chunks, written and closed, the output is the whole-string rewrite of their concatenation |
| Streaming.BytesAccountedFor | internal/proxy/streaming.go:63-65 | bytes delivered plus bytes held are the input, when nothing is substituted |
| Streaming.HeldExactly | internal/proxy/streaming.go:25-27 | the buffer is exactly the live candidate below the cap that the input ends in, and empty when there is none |
| Streaming.FeedAgree | internal/proxy/streaming.go:72-95 | only the tokens completed in a chunk matter for what becomes of it: substitutions that agree on these give the same output and buffer |
| Streaming.StreamingResponseWriter.Resolve | internal/proxy/streaming.go:121-142 | a known token becomes its JSON-escaped value and its entry is renewed, any other stays, and no request's view of the vault changes |
| Streaming.StreamingResponseWriter.Release | internal/proxy/streaming.go:106-119 | a dead candidate is drained, except a last `[`, which stays |
| Streaming.StreamingResponseWriter.Accept | internal/proxy/streaming.go:72-95 | the loop body takes the byte machine one step and keeps the buffer invariant |
| Streaming.StreamingResponseWriter.Write | internal/proxy/streaming.go:66-104 | a write takes the machine through all its bytes, reports all of them consumed, renews exactly the entries of the tokens completed there, and changes no request's view of the vault |
| Streaming.StreamingResponseWriter.Close | internal/proxy/streaming.go:152-168 | a dangling candidate is delivered and the buffer emptied |
| Vault.ViewSees | internal/vault/vault.go:14-22 | a request's view has a token exactly when the live entry under its key is there, and has its value |
| Vault.InMemoryVault.SaveMapping | internal/vault/memory.go:20-26 | under a live context the entry is written with a full idle lifetime, and nothing else changes |
| Vault.InMemoryVault.GetMapping | internal/vault/memory.go:28-42 | the answer is the one of the view; exactly a found entry is renewed, and at that moment every request's view is unchanged |
| VaultRuns.KeysDisjointIffApart | internal/vault/vault.go:28-30 | two ids never share a store key if and only if neither, closed by its colon, starts the other |
| VaultRuns.ColonFreeApart | internal/vault/vault.go:28-30 | distinct ids without a colon are apart |
| VaultRuns.Isolation | internal/vault/memory.go:20-42 | in every interleaving of saves, split lookups, ticks and purges, a request is answered exactly as on a private vault |
| VaultRuns.IsolatedIffApart | internal/vault/vault.go:28-30 | isolation holds in all runs if and only if the ids are apart |
| VaultRuns.Leak | internal/vault/vault.go:28-30 | a shared key yields a run in which one request reads what another saved |
| VaultRuns.IdleExpiry | internal/vault/memory.go:16-18 | an entry nobody saves or reads is visible exactly until its idle lifetime has passed, in every run |
| VaultRuns.ExactExpiry | internal/vault/memory.go:20-42 | from any store, in every run, a mapping is visible at the end if and only if it was last saved or read back at most one idle lifetime before, and then with the value written there |
| VaultRuns.BusyStreamLosesToken | internal/vault/vault.go:24-26 | a run in which a request stays busy and still loses a token, contrary to the comment |
| Demask.OneShot | internal/proxy/demask.go:33-44 | the complete body restored in one go is its rewrite, and exactly the entries of its tokens are renewed |
| Demask.PullOwes | internal/proxy/demask.go:81-96 | one upstream read changes neither the bytes still owed to the client nor the ending |
| Demask.ReadOwes | internal/proxy/demask.go:68-99 | a read hands over the next bytes owed, at most as many as asked for and at least one if any are asked for, and an end only when none is owed |
| Demask.PullReaderIsOneShot | internal/proxy/demask.go:46-99 | for every upstream script and all client buffer sizes, the bytes before the end are the one-shot restore, the end is upstream's own, and it is reached |
| Demask.FailureReportedOnce | internal/proxy/demask.go:72-79 | after an end has been reported every read reports a clean end of file, also after a failure |
| Demask.BrokenThenWell | internal/proxy/demask.go:72-79 | a body of one byte whose source breaks is served, reported broken once, and then reported to have ended well |
| Demask.FillAgree | internal/proxy/demask.go:71-97 | only the tokens pulled by a read matter for what it has ready |
| Demask.DemaskReader.Read | internal/proxy/demask.go:68-99 | the pull loop ends and does what the reader function says, on script, sink, buffer, drain flag and failure, and renews exactly the entries of the tokens it pulls |
| Spans.StableSortSorts | internal/analyzer/analyzer.go:223-232 | leftmost-longest order, same elements, and spans over one range in their old order |
| Spans.StableSortUnique | internal/analyzer/analyzer.go:223-232 | these three leave no choice: every stable sort gives this list |
| Spans.SweepGuarantee | internal/analyzer/analyzer.go:115-125 | kept spans are disjoint and ordered, and every dropped span starts inside a kept one that comes no later in the order |
| Spans.DisjointPairs | internal/analyzer/analyzer.go:115-125 | of any two kept spans the earlier ends before the later starts |
| Spans.NestedSpansCovered | internal/analyzer/analyzer.go:223-232 | pairwise nested or disjoint spans are masked to the last byte |
| Spans.PairCoveredIffNestedOrDisjoint | internal/analyzer/analyzer.go:115-125 | two spans are fully masked if and only if they do not overlap partially |
| Spans.NewOverlapIndex | internal/analyzer/conflict.go:41-53 | the index holds the trusted spans by start and the maximum end of every prefix |
| Spans.Overlaps | internal/analyzer/conflict.go:55-63 | binary search and prefix maximum say yes if and only if some trusted span overlaps the guess |
| Spans.OverlapSharesByte | internal/analyzer/conflict.go:55-63 | comparing starts and ends this way says exactly whether two spans share a byte |
| Spans.ResolveConflicts | internal/analyzer/conflict.go:18-31 | the merge is the trusted spans followed by the guesses that overlap none of them; which these are is said by ResolvedAt and ResolvedHas |
| Spans.ResolvedAt | internal/analyzer/conflict.go:23-30 | over each range the merge holds the trusted spans in their order and then, unless the range overlaps a trusted span, all guesses in theirs; with StableSortUnique this fixes the sorted list |
| Spans.ResolvedHas | internal/analyzer/conflict.go:23-30 | a span is merged if and only if it is trusted, or a guess that overlaps no trusted span: every such guess is kept |
| Spans.GuessesDisturbNothing | internal/analyzer/conflict.go:10-31 | the trusted spans kept with guesses are exactly those kept without, and no kept guess overlaps a trusted span |
| Sessions.Session.TokenFor | internal/analyzer/analyzer.go:100-109 | the three maps change as the allotment function says and its token is returned; what token that is, TokenOfKind says |
| Sessions.TokenOfKind | internal/analyzer/analyzer.go:100-109 | a new value gets the token of the kind asked for with that kind's next number, and no other counter moves; a bound value keeps its token and nothing changes |
| Sessions.NextTokenIsNew | internal/analyzer/analyzer.go:104-108 | the next token of a kind is bound to nothing yet |
| Sessions.TokenForKeeps | internal/analyzer/analyzer.go:100-109 | the maps stay mutual inverses, the numbers of each kind stay 1 to its counter, earlier bindings stay, and the token stands for the value |
| Sessions.RunKeeps | internal/analyzer/analyzer.go:86-109 | the same for every sequence of calls |
| Sessions.RunNames | internal/analyzer/analyzer.go:86-109 | in any sequence of calls the token of a value has the kind of the call that first named it, and is numbered by how many values were named with that kind before |
| Sessions.RunCounts | internal/analyzer/analyzer.go:104-107 | after any sequence of calls each kind's counter has moved by the number of values first named with it |
| Sessions.TokensFit | internal/proxy/streaming.go:20-23 | with kinds of at most 53 letters and at most 2^24 values every token is within the cap |
| Masking.Replace | internal/analyzer/analyzer.go:115-127 | the loop over sorted spans builds the masked text of the cut and leaves the session the cut leaves |
| Masking.AnonymizeText | internal/analyzer/analyzer.go:111-128 | masking a text, from the two tiers to the last byte |
| Masking.MaskSpans | internal/analyzer/analyzer.go:112-127 | merging two lists of spans, ordering them and replacing those the sweep keeps gives the cut at the chosen spans |
| Masking.MarkTextKeeps | internal/analyzer/analyzer.go:111-128 | gaps and values of the cut make up the original text, every token stands for its value, and the session invariant is kept |
| Coverage.MarkRanges | internal/analyzer/analyzer.go:115-127 | a cut masks exactly the spans it is given, each one whole and nothing else |
| Coverage.DetectedStartsHidden | internal/analyzer/analyzer.go:111-128 | the first byte of every trusted span, and of every guess that shares no byte with a trusted one, is masked |
| Coverage.DetectedHidden | internal/analyzer/analyzer.go:111-128 | all bytes of all these spans are masked when no two of them overlap in part |
| Coverage.HiddenIsDetected | internal/analyzer/analyzer.go:111-128 | nothing else is: each masked range is that of one of these spans |
| Masking.CleanExpands | internal/proxy/streaming.go:72-95 | restoring a clean masked text puts the substitutes in place of the tokens in a single pass, never rescanning a value |
| Masking.DirtyGap | internal/proxy/streaming.go:121-132 | a known token in an unmasked stretch is replaced, and the first byte that changes is the `[` of a token |
| Masking.RestoredIffClean | internal/analyzer/analyzer.go:111-128 | with no value starting with `[`, a masked text comes back if and only if no gap holds a known token and every token used fits the cap |
| Masking.OpaqueRoundTrip | internal/analyzer/analyzer.go:79-84 | an opaque text comes back with each masked value JSON-escaped, so unchanged exactly when none needs escaping |
| JsonString.ReadEscapedRune | internal/proxy/streaming.go:134-142 | one escaped rune is read back as the rune, whatever follows |
| JsonString.EscapedSpells | internal/proxy/streaming.go:134-142 | reading inverts escaping in front of any continuation, with and without HTML escaping |
| JsonString.EscapeGrows | internal/proxy/streaming.go:134-142 | escaping never shortens a text and changes it exactly when it lengthens it |
| JsonString.EscapedPlain | internal/proxy/streaming.go:134-142 | no control character is left in an escaped text, and none of `<`, `>` and `&` in one spliced into a response |
| JsonString.MarkupUnescaped | internal/analyzer/json.go:73-81 | the printer leaves these three as they are |
| JsonSplice.EscapeKeepsStart | internal/analyzer/json.go:73-81 | printing a string keeps the token at its head |
| JsonSplice.EscapeAddsNoStart | internal/analyzer/json.go:73-81 | printing a string creates no token |
| JsonSplice.SubstituteSpells | internal/proxy/streaming.go:121-142 | what is spliced in for a token is read as the raw value |
| JsonSplice.SplicedSpells | internal/proxy/streaming.go:134-142 | a restored literal is read as the restored text, in front of any continuation |
| KeyOrder.CollectKeys | internal/analyzer/json.go:52-56 | whatever order the runtime lists the keys in, sorting gives the one ascending list |
| KeyOrder.AscendingUnique | internal/analyzer/json.go:52-57 | a set of keys has one ascending list |
| KeyOrder.BelowMeans | internal/analyzer/json.go:56-57 | keys are ordered by the first byte that differs, or else a proper prefix comes first |
| JsonMask.WalkJson | internal/analyzer/json.go:46-71 | the walk rewrites the tree and threads the session as the walk function says, independently of map order |
| JsonMask.WalkItems | internal/analyzer/json.go:66-69 | an array is rewritten item by item in place |
| JsonMask.WalkKeys | internal/analyzer/json.go:57-65 | a map is rewritten key by key in place, each key exactly once |
| JsonMask.WalkMembers | internal/analyzer/json.go:51-65 | an object is walked in ascending key order and keeps its keys |
| JsonMask.WalkValue | internal/analyzer/json.go:57-64 | a value is masked as the child function says; that a non-empty string under a credential key is thereby masked whole, WalkMasks says |
| Coverage.WalkMasks | internal/analyzer/json.go:46-71 | at every depth of the tree each string has every span that the two tiers leave replaced by a token that stands for it, except that a non-empty string under a credential key becomes one token as a whole; keys and all else stay |
| Coverage.CredentialReplaced | internal/analyzer/json.go:57-61 | a lone non-empty string under a credential key becomes `[PASSWORD_1]`, whatever the detectors find in it |
| Coverage.WalkCalls | internal/analyzer/json.go:46-71 | the session after a walk is the one that its requests for tokens leave, in document order with members in ascending order of keys |
| Coverage.TokensOfDocument | internal/analyzer/analyzer.go:100-109 | the token of a new value in a masked document has the kind the value is first found with, and its number is the kind's counter before the document plus how many new values were first found with that kind before it, plus one |
| JsonRestore.BracketStays | internal/analyzer/json.go:73-81 | a structural `[` never becomes part of a token |
| JsonRestore.DocumentBecomes | internal/analyzer/json.go:73-81 | restoring a printed document restores the inside of its strings and nothing else |
| JsonRestore.RestoredParses | internal/proxy/streaming.go:134-142 | the restored document is decoded as the substituted tree, whatever follows it |
| JsonRestore.RestoreCommutesWithDecode | internal/proxy/streaming.go:134-142 | for every tree and every mapping, decoding the restored bytes gives the tree with its tokens replaced by the raw values; no value can break the document |
| RoundTrip.WalkKeepsSkeleton | internal/analyzer/json.go:46-71 | keys, array lengths, numbers, booleans and nulls are unchanged, only string leaves differ |
| RoundTrip.WalkGrows | internal/analyzer/json.go:46-71 | any walk keeps the session invariant and all earlier bindings, and binds at most one value per string byte |
| RoundTrip.WalkValid | internal/analyzer/json.go:46-71 | the masked tree and all masked values are valid UTF-8 |
| RoundTrip.WalkRestores | internal/analyzer/json.go:26-71 | with clean keys, putting the values back gives the original tree when its strings are clean, and only then unless a value starts with `[` |
| DirtyKeys.NoDirtyKey | internal/analyzer/json.go:57-65 | rewriting keys cannot give back a set of keys one of which holds a known token, not even by permuting it |
| DirtyKeys.ReturnedKeysClean | internal/analyzer/json.go:46-71 | if the substituted tree is the original, no key anywhere in it holds a known token |
| LongStreams.LookupsRenew | internal/vault/memory.go:28-42 | looking up tokens as events of a run leaves the store as the writer and the reader leave it |
| LongStreams.ShownIffRecent | internal/vault/memory.go:28-42 | in every run a filed token is restored as filed if it was saved or looked up at most one idle lifetime before, and left alone otherwise |
| LongStreams.WriteAt | internal/proxy/streaming.go:66-104 | one write of the writer, made when the vault has come through a run, takes the step of the run function and leaves the vault as the longer run does |
| LongStreams.StreamRestoredIffInTime | internal/proxy/streaming.go:66-168 | chunks written over any length of time, with anything happening on the vault in between, are together restored by the filed mapping if every known token comes by in time, and, with no value starting with `[`, only then |
| LongReads.ReadRestoredIffInTime | internal/proxy/demask.go:46-99 | the same for a client that reads to the end through the pull reader, for every upstream script and all buffer sizes; in time, a client that keeps asking for at least a byte gets to the end, and the end is upstream's own |
| LongReads.ReadAt | internal/proxy/demask.go:68-99 | one read of the reader, made when the vault has come through a run, takes the step of the run function and leaves the vault as the longer run does |
| LongReads.Client | internal/proxy/demask.go:68-99 | a client that reads on from the reader, with the vault changing between its reads, collects exactly what the run function says, up to the first end |
| Pacing.PacedInTime | internal/vault/vault.go:24-26 | a stream may last for any time if each known token comes by again within one idle lifetime, because its own lookups renew it |
| Pacing.InTimeIffPaced | internal/vault/vault.go:24-26 | when the request does nothing else with its tokens meanwhile, a stream is in time if and only if each known token comes by again within one idle lifetime |
| Pacing.ShortStreamPaced | internal/vault/vault.go:24-26 | nothing is asked of a stream that is over within one idle lifetime |
| EndToEnd.StaysServing | internal/vault/memory.go:20-42 | a filed mapping is exactly what its request sees for one idle lifetime, whatever happens on the vault meanwhile |
| EndToEnd.DocumentRoundTrip | internal/analyzer/json.go:26-81 | the client decodes the original tree if no key and no unmasked stretch holds a known token and all tokens fit the cap, and, with no value starting with `[`, only then |
| EndToEnd.PipelineRoundTrip | internal/proxy/streaming.go:66-168 | for a document and for an opaque text, through the shared vault, for every chunking, any time between chunks and anything else on the vault: the body comes back if every known token comes by in time |
| EndToEnd.PulledRoundTrip | internal/proxy/proxy.go:296-301 | the same through the pull reader over the shared vault, for every upstream script and all client buffer sizes; the reported end is upstream's own, and a client that keeps asking is told of it |
| EndToEnd.PacedRoundTrip | internal/proxy/proxy.go:263-301 | from the filing of the mapping to the end of the response, over any length of time: the client gets back what it sent, and the end if it keeps asking, if each known token comes by again within one idle lifetime |
| EndToEnd.RestoredIffPaced | internal/proxy/proxy.go:263-301 | that condition is exact: with no value starting with `[`, and the request doing nothing else with its tokens meanwhile, a client that reads to the end gets the restored body if and only if it holds |
| EndToEnd.ShortTokens | internal/proxy/proxy.go:24-26 | at most 16 MiB of strings and kinds of at most 53 letters keep every token within the cap |
| EndToEnd.TokenFreeReturns | internal/analyzer/json.go:26-81 | such a document meets the condition of the round trips, for every detector with kinds of at most 53 letters |
| EndToEnd.TokenFreeRoundTrip | internal/analyzer/json.go:26-81 | a document of at most 16 MiB of strings without anything shaped like a token always comes back |
| EndToEnd.TokenFreeOpaque | internal/analyzer/analyzer.go:79-84 | an opaque text of at most 16 MiB without anything shaped like a token meets the condition of the round trips, and comes back with its masked values escaped, unchanged exactly when none needs it |
| EndToEnd.AmpersandComesBackEscaped | internal/proxy/streaming.go:134-142 | an opaque text of one masked `&` comes back as six other bytes |
| EndToEnd.TypedTokenIsReplaced | internal/analyzer/json.go:57-65 | the document `{"[EMAIL_1]": "a@b"}` with its value masked does not come back: its key is replaced too |
| Proxy.AnonymizeJson | internal/analyzer/json.go:26-44 | a bare number, boolean or null is left alone, anything else is walked with a new session |
| Proxy.Anonymize | internal/analyzer/analyzer.go:79-84 | a document is walked as a tree, any other body is masked as one text, each with a new session |
| Proxy.SaveAll | internal/proxy/proxy.go:265-275 | every pair of the mapping is filed, in whatever order, and no other key is touched |
| Proxy.MaskRequest | internal/proxy/proxy.go:263-277 | for a document and for an opaque text: the masked body has a token in place of everything the detectors and the credential keys claim, the vault holds exactly its mapping for one idle lifetime, and requests with ids apart see what they saw |
| Proxy.FiledShows | internal/proxy/proxy.go:265-275 | what MaskRequest files is the state a response streams from, and the request's view is then its mapping |
| Proxy.Exchange | internal/proxy/proxy.go:316-320 | mask, file, anything else on the vault within one idle lifetime, restore of the echo in one go: the client gets back the body it sent |
| Proxy.RestoreStream | internal/proxy/proxy.go:296-301 | an event stream: a new reader over the vault delivers the echoed body to its client over any length of time, up to upstream's own end, if each known token comes by again within one idle lifetime of the filing or of the last time |
| Luhn.Luhn | internal/analyzer/luhn.go:5-19 | the backward loop accepts exactly the digit strings whose checksum, by the formula of the standard, is a multiple of ten |
| Luhn.SumIsChecksum | internal/analyzer/luhn.go:10-18 | the loop's sum adds up every digit, with every second one from the right doubled and the digits of the double added: subtracting nine is adding the two digits |
| Luhn.KnownCardPasses | internal/analyzer/luhn.go:5-19 | the number 4111111111111111 has the checksum 30 and passes |
| Luhn.SingleErrorDetected | internal/analyzer/luhn.go:5-19 | every change of one digit of a valid string is rejected |
| Luhn.TranspositionDetected | internal/analyzer/luhn.go:5-19 | swapping two distinct neighbours goes unnoticed if and only if they are 0 and 9 |
| Luhn.OneCheckDigit | internal/analyzer/luhn.go:5-19 | every prefix has exactly one check digit |
| WholeWords.ScanReaches | internal/analyzer/analyzer.go:164-176 | the scan stops at every occurrence that starts inside no other |
| WholeWords.WholeWordMeans | internal/analyzer/analyzer.go:203-217 | a whole word is an occurrence, rune by rune in lower case, with no word rune right before or after it |
| WholeWords.MissedOccurrence | internal/analyzer/analyzer.go:164-176 | a text in which the scan jumps over a whole-word occurrence |
| WholeWords.GreedyScanComplete | internal/analyzer/analyzer.go:164-176 | the scan stops at every whole-word occurrence in every text if and only if the word overlaps itself only after word runes |
| WholeWords.CompleteForPlainWords | internal/analyzer/analyzer.go:203-221 | so it is complete for words made only of word runes |
| Dictionary.FoldForMatch | internal/analyzer/analyzer.go:181-196 | the loop builds the text folded rune by rune and the table of original offsets |
| Dictionary.TableCarriesBack | internal/analyzer/analyzer.go:181-196 | the table takes the offset of every folded rune to that of the original rune, whatever the lengths |
| Dictionary.LeadIsBoundary | internal/analyzer/analyzer.go:164-171 | a byte that is not a trail byte starts a rune: UTF-8 synchronises itself |
| Dictionary.MatchIsOccurrence | internal/analyzer/analyzer.go:165-171 | a byte match of an encoded word lies on rune boundaries and is a rune match |
| Dictionary.IndexIsOccurs | internal/analyzer/analyzer.go:165-170 | the first match in bytes is the first occurrence in runes |
| Dictionary.BoundedInBytes | internal/analyzer/analyzer.go:203-217 | the byte test for word boundaries is the test on the neighbouring runes |
| Dictionary.ScanTurn | internal/analyzer/analyzer.go:164-176 | one turn of the scan advances to the next occurrence, takes the match back to the original text, and reports it if it is a whole word |
| Dictionary.ScanAll | internal/analyzer/analyzer.go:164-176 | the loop gathers what the hits yield, in order, for any runes whose offsets the search and the table respect |
| Dictionary.CollectWord | internal/analyzer/analyzer.go:163-177 | the scan over folded bytes reports exactly the spans of the rune scan |
| Dictionary.CollectCustom | internal/analyzer/analyzer.go:156-179 | all matched words, one after the other; which spans these are, ReportedAllHas and ReportAllComplete say |
| Dictionary.ReportedSpansAreWords | internal/analyzer/analyzer.go:152-179 | every reported span lies on rune boundaries, is non-empty and word-bounded, and folds to the dictionary word |
| Dictionary.ReportComplete | internal/analyzer/analyzer.go:156-179 | every whole-word occurrence is reported, in every text, if and only if the word overlaps itself only after word runes |
| Dictionary.ReportedAllHas | internal/analyzer/analyzer.go:162-178 | a span is among those collected if and only if one of the matched words reports it: no word's spans are lost |
| Dictionary.ReportedAllAppend | internal/analyzer/analyzer.go:162-178 | the spans of the words are collected in the order of the words |
| Dictionary.ReportAllComplete | internal/analyzer/analyzer.go:156-179 | every whole-word occurrence of every matched word is collected, in every text, if and only if each word overlaps itself only after word runes |
| ModelSpans.RuneOffsets | internal/analyzer/conflict.go:110-118 | the loop lists the offset of every character and of the end |
| ModelSpans.ByteRangeExact | internal/analyzer/conflict.go:120-127 | a byte range is given exactly for ranges within the text, and holds exactly those characters |
| ModelSpans.SanitizeLabel | internal/analyzer/conflict.go:129-141 | the kind is the capital letters of the label and nothing else |
| ModelSpans.LettersAppend | internal/analyzer/conflict.go:129-141 | a label's letters are kept in their order and none is dropped |
| ModelSpans.CollectML | internal/analyzer/conflict.go:82-108 | the loop keeps the findings the acceptance function keeps |
| ModelSpans.AcceptExact | internal/analyzer/conflict.go:84-105 | a finding is accepted if and only if it names characters of the text, these are what it quotes if it quotes anything, its label leaves a letter, and under a credential's kind they are no bare word of prose; the span then covers exactly those characters and has the label's kind |
| ModelSpans.AcceptAllHas | internal/analyzer/conflict.go:84-107 | a span is kept if and only if some finding gives it |
| ModelSpans.AcceptAllAppend | internal/analyzer/conflict.go:84-107 | the findings are kept in their order |
| ModelSpans.ModelSpansFit | internal/analyzer/conflict.go:65-108 | whatever the model replies, the spans are within the text, between runes, with kinds the grammar can carry |
| Engine.DictionarySpansFit | internal/analyzer/analyzer.go:156-179 | the same for the dictionary's spans |
| Engine.DetectorsFit | internal/analyzer/analyzer.go:130-150 | the detectors together meet what masking and restoring ask of them |
| Engine.Collect | internal/analyzer/analyzer.go:130-150 | the patterns' spans followed by the dictionary's |
| Engine.CollectGuesses | internal/analyzer/conflict.go:68-108 | the accepted findings of the model, and none when it is unavailable |
| Engine.MaskText | internal/analyzer/analyzer.go:111-128 | masking a text with both tiers cuts it as the round trips assume of these detectors |
| Engine.DictionaryWordHidden | internal/analyzer/analyzer.go:111-179 | every whole-word occurrence of a matched dictionary word that overlaps itself only after word runes is claimed, and its first byte is masked |
| Engine.FindingHidden | internal/analyzer/conflict.go:18-108 | every usable finding of the model that shares no byte with a trusted span has its first byte masked |
| Engine.EngineRoundTrip | internal/analyzer/analyzer.go:66-84 | with these detectors, documents of at most 16 MiB of strings without anything shaped like a token come back unchanged |
| Batching.FlushTells | ml_engine/main.py:67-85 | each job of a batch gets its own share of the model's answer for the jobs with its labels and threshold, and no other future is touched |
| Batching.BatchingTransparent | ml_engine/main.py:67-91 | however the batch is cut, a job whose group raises nothing gets the answer for its own text |
| Batching.FailuresContained | ml_engine/main.py:73-83 | in one flush, what a job is told depends on the model's reply for its own group only |
| Batching.GroupTold | ml_engine/main.py:73-85 | after a flush all jobs of a group have been told from one reply: the exception if it is one, that the counts differ if they do, and else each the result at its own place |
| Batching.OneThrowFailsGroup | ml_engine/main.py:75-79 | asked text by text, one text that raises fails its whole group with the first exception |
| Batching.InferEachExact | ml_engine/main.py:87-91 | asking text by text gives each text its own result, or the first exception |
| BatchRuns.RunSettles | ml_engine/main.py:52-91 | for every model, failing ones included, any arrivals and any cuts: the arrivals are the batches of the run in order and then the queue, each job of a batch holds its share of the reply, exception or miscount of its own group in that batch, and no other future is set |
| BatchRuns.RunTransparent | ml_engine/main.py:52-91 | a job of one of the batches of a run holds the model's answer for its own text, labels and threshold if no job of its group in that batch raises, whatever all others do |
| BatchRuns.OutcomesStay | ml_engine/main.py:76-85 | what a job has been told stays so in every continuation of a run: each future is completed once |
| BatchRuns.FailuresContainedInRuns | ml_engine/main.py:73-83 | two models that reply alike for some labels and threshold tell all jobs with these the same in every run, whatever they do for others |
| BatchRuns.InferenceEngine.SetOutcome | ml_engine/main.py:76-85 | a future is completed only once |
| BatchRuns.InferenceEngine.Settle | ml_engine/main.py:73-85 | one group's reply completes its jobs in order, with the value, the exception or the miscount |
| BatchRuns.InferenceEngine.Flush | ml_engine/main.py:67-85 | the batch is grouped and every job completed exactly once, as the flush function says |
| BatchRuns.InferenceEngine.TakeBatch | ml_engine/main.py:54-64 | the batch is the first jobs of the queue: at least one, never more than the limit unless that is zero, and fewer only when no further job came in time |
| BatchRuns.InferenceEngine.Work | ml_engine/main.py:52-65 | one turn of the worker takes a first job and then up to the batch limit, flushes them as one batch, and keeps the engine's invariant: the jobs submitted are the batches in order and then the queue |

## Left out

- The regular expressions and secret patterns (`internal/analyzer/secrets.go`, most of `collect`): arbitrary producers of spans within the text; which strings they match is library behaviour.
- The Aho-Corasick matcher and `New`, which folds and deduplicates the dictionary: the matched words are an arbitrary list.
- The model service and its HTTP client: an arbitrary reply per text, or none.
- A context that is cancelled between two lookups of one call. Within one read of the pull reader the clock does not change either; between reads, and between any two bytes written, it may.
- Decoding of the request (`parseJSON`): masking starts from a decoded tree, in which keys are unique, or from an opaque text; which bodies are which is a parameter.
- The JSON reader used for the round trip reads documents without white space between tokens and no surrogate pairs, neither of which the printer prints.
- Texts that are not valid UTF-8, in what is proved about the dictionary, the model's spans and decoding: the streaming and vault theorems hold for all byte strings.
- The tree is rewritten in place through pointers in the original; here the methods reassign maps and sequences held in variables, so aliasing between subtrees is not captured.
- The printer is a function of the tree, not a model of the encoder's buffer.
- The sort routines and the dictionary's string search are library code: they are functions here, with the properties the code relies on proved of them, and stable sorting proved to leave no choice.
- Write failures of the underlying response writer and the sticky writer error: the sink never fails, as the in-memory sink cannot.
- HTTP plumbing, headers, size limits, streaming detection, logging, statistics, configuration and administration.
- The Redis vault.
- The waiting times of the batching worker: which jobs come in time is a parameter.
- Proxy.Exchange: the one-shot path, in which the body is read as a whole before anything is looked up; the event-stream path is that of Proxy.RestoreStream, which starts from the filed mapping and is told what the vault holds at the moment of each read.
- Demask.PullReaderIsOneShot: covers one reader up to the first end it reports, with one mapping in hand; the vault behind it is the subject of LongReads.ReadRestoredIffInTime, later reads that of Demask.FailureReportedOnce.
