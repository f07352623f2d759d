# A verified model of ZInferLM's algorithmic cores

ZInferLM is a C++ inference engine around a tensor library. This project models the parts
that are algorithms of its own, in Dafny, and proves what they promise:

- **Tokenizer** (`Alphabet`, `Bpe`, `SpecialTokens`, `Tokenization`, `Segmentation`,
  `TokenizerImpl`).
  Tokenizing and decoding give back every text byte for byte, and the merge loop gives the
  tokens of the GPT-2 reference. Both laws carry their exact or sufficient conditions, and
  concrete inputs show what breaks without them.
- **HTTP streaming** (`Chunked`, `Streaming`, `StreamSession`, `Connection`). A streamed
  response as a step relation over all interleavings of the producer, the strand and the
  socket: nothing is lost or reordered, the session never stalls, and the bytes decode
  under section 7.1 of RFC 9112; then any number of responses on one connection.
- **Task worker** (`Worker`). All interleavings of submitters, `stop`, late notifications
  and the worker thread: tasks stay in order, every promise is resolved exactly once, and a
  stopped worker exits.
- **GGUF loader** (`LittleEndian`, `Metadata`, `Gguf`). The cursor parser undoes the
  encoding of the format's "File Structure" section, with sizes in 32-bit `int`, and tensor
  pointers land on their data.
- **Sampler** (`Sampling`, `Sampler`), over reals: the nucleus is optimal, top-k keeps
  exactly the logits it should, and the draw returns each index with its probability.
- **Decode loop** (`DecodeLoop`, `Inference`, `Events`). A run feeds prompt and samples at
  consecutive positions under the full causal mask, draws its tokens from the inputs it
  computed on, and its events reach exactly the listeners registered at the time. `Serving`
  follows them through the chat handler to the bytes the client decodes.
- **Key-value cache** (`KvCache`): one layer of the paged cache.

`Runs` holds the notion of a run that the three step relations share.

Where the source changes fields or runs loops, the model is a class or a method proved
against a specification function; the laws are lemmas about those functions.

## What the proofs found

- Merging agrees with GPT-2 when every rule that uses another rule's output has the higher
  rank, which holds if and only if the list of rules names every rule behind the ones whose
  output it uses (`Bpe.LearningOrderExactly`). `Bpe.UnorderedTableDiffers` gives a two-rule
  table for which "abab" comes out differently.
- A special token survives decoding exactly when it holds no two-byte glyph of the byte
  alphabet (`Tokenization.RoundTripExactly`); ASCII tokens never do, and "é" is such a glyph
  (`Alphabet.AccentIsLost`).
- A chunk can overtake the response header if and only if the response opens with both a
  header flag left over from the response before and one of that response's flush handlers
  still ahead of it on the strand (`Streaming.ConservedExactly`, `Connection.ServedExactly`).
  A fresh connection never opens like that, but its second response can: the last chunk of
  the first is taken and written between its producer's push and post, the next request is
  read, and only then the producer posts (`Connection.SecondResponseOvertakes`). Any number
  of responses is conserved when that does not happen (`Connection.CleanRunsConserve`).
- The terminator test in the write handler fires early exactly for a message whose JSON
  text holds the terminator itself, which serialized JSON cannot (`Chunked.TerminatorTest`).
- Tensor addresses are aligned, not file offsets: pointers are right if and only if the
  alignment divides the mapping address (`Gguf.TensorPointersExact`).
- A file that stores `general.alignment` as a number other than a uint8, and the format
  asks for a uint32, does not load (`Gguf.LoadFailsExactly`).
- A value's `size()` is its encoded length exactly below 2^31 bytes (`Metadata.SizeExactly`).

## Model

| member | source | states |
|---|---|---|
| Alphabet.GlyphShape | src/tokenizer/tokenizer_impl.cpp:60-79 | a glyph is one visible ASCII byte or a two-byte UTF-8 sequence, and never holds a space |
| Alphabet.GlyphTable | src/tokenizer/tokenizer_impl.cpp:59-97 | the glyph of every byte, literally |
| Alphabet.GlyphInjective | src/tokenizer/tokenizer_impl.cpp:59-97 | different bytes have different glyphs |
| Alphabet.UnglyphGlyphs | src/tokenizer/tokenizer_impl.cpp:205-227 | decoding inverts the alphabet on every byte string |
| Alphabet.ForeignPieceKept | src/tokenizer/tokenizer_impl.cpp:205-227 | decoding keeps a whole UTF-8 piece that is no glyph |
| Alphabet.UnglyphIdentity | src/tokenizer/tokenizer_impl.cpp:205-227 | a string decodes to itself if and only if its walk meets no two-byte glyph |
| Alphabet.AsciiHasNoGlyphPair | src/tokenizer/tokenizer_impl.cpp:205-227 | ASCII strings always decode to themselves |
| Alphabet.AccentIsLost | src/tokenizer/tokenizer_impl.cpp:205-227 | the character "é" is a two-byte glyph and decodes to one byte |
| Bpe.RankIsLastPosition | src/tokenizer/tokenizer_impl.cpp:99-103 | the rank table holds exactly the listed rules, each with its last position |
| Bpe.KeyInjective | src/tokenizer/tokenizer_impl.cpp:185 | for space-free tokens the space-joined key determines both operands |
| Bpe.KeyBytes | src/tokenizer/tokenizer_impl.cpp:185 | the rule for "a" and "b" is filed under "a b" |
| Bpe.FirstLeastIsBest | src/tokenizer/tokenizer_impl.cpp:184-196 | the first minimum of the collected rank pairs is the leftmost pair of lowest rank |
| Bpe.NewPairsRankHigher | src/tokenizer/tokenizer_impl.cpp:193-200 | in a well-ordered table one merge creates no pair that ranks lower |
| Bpe.GreedyFinishesPass | src/tokenizer/tokenizer_impl.cpp:176-203 | one-at-a-time merging passes through the state a whole reference pass reaches (stuttering simulation) |
| Bpe.GreedyIsReference | src/tokenizer/tokenizer_impl.cpp:176-203 | the merge loop gives the GPT-2 reference tokens for every start and well-ordered table |
| Bpe.UnorderedTableDiffers | src/tokenizer/tokenizer_impl.cpp:176-203 | with "ab a" ranked before "a b", "abab" merges differently from the reference |
| Bpe.LearningOrderExactly | src/tokenizer/tokenizer_impl.cpp:99-103 | the rank table is well ordered if and only if every rule is listed behind the rules whose output it uses |
| Bpe.GreedyStops | src/tokenizer/tokenizer_impl.cpp:182-201 | merging ends with no mergeable pair, each round removes one token, and there are at most length minus one rounds |
| Bpe.GreedyKeeps | src/tokenizer/tokenizer_impl.cpp:182-201 | merging keeps the text, whole glyphs, and membership in a closed vocabulary |
| Bpe.UnglyphAllFlatten | src/tokenizer/tokenizer_impl.cpp:205-227 | decoding token by token does not depend on how whole glyphs are grouped into tokens |
| Bpe.ChunkRoundTrip | src/tokenizer/tokenizer_impl.cpp:176-227 | the merged tokens of any chunk decode to the chunk |
| SpecialTokens.ScanAnswerUnique | src/tokenizer/special_token_vocab.cpp:38-54 | the linear-scan specification of a match has one answer |
| SpecialTokens.NormalIsOne | src/tokenizer/special_token_vocab.cpp:15-36 | an entry is special exactly when its type is not 1 |
| SpecialTokens.CountIsNumber | src/tokenizer/special_token_vocab.cpp:15-36 | the size is the number of special entries |
| SpecialTokens.SpecialTokenTrie.BuildFromTokens | src/tokenizer/special_token_vocab.cpp:15-36 | the trie holds exactly the special entries of the table, last index on duplicates, and counts them |
| SpecialTokens.SpecialTokenTrie.Descend | src/tokenizer/special_token_vocab.cpp:25-31 | the child for a character, created when absent; every other node stays where it is |
| SpecialTokens.SpecialTokenTrie.Child | src/tokenizer/special_token_vocab.cpp:43-46 | a lookup that leaves a null child changes no path |
| SpecialTokens.SpecialTokenTrie.Match | src/tokenizer/special_token_vocab.cpp:38-54 | the id of the longest non-empty special token standing at the position, as a linear scan answers, or -1 |
| Tokenization.ChunksPartition | src/tokenizer/tokenizer_impl.cpp:145-174 | the chunks partition the text if and only if no match skips bytes |
| Segmentation.ChunksScan | src/tokenizer/tokenizer_impl.cpp:145-174 | the chunks are the whole matches at the scanner's stops, single bytes where nothing matches; the scan ends at the end of the text or fails where the matcher does |
| Segmentation.PlainTokensExactly | src/tokenizer/tokenizer_impl.cpp:229-235 | plain text becomes its chunks, each merged greedily on its own |
| Segmentation.PlainTokensReference | src/tokenizer/tokenizer_impl.cpp:229-235 | with rules in learning order each chunk is merged as GPT-2 merges it |
| Tokenization.SpansCover | src/tokenizer/tokenizer_impl.cpp:237-257 | cutting out special tokens loses no byte |
| Segmentation.SpansExactly | src/tokenizer/tokenizer_impl.cpp:237-257 | the text is cut exactly where special tokens stand, at the longest one each time |
| Segmentation.SegmentExactly | src/tokenizer/tokenizer_impl.cpp:229-257 | the token strings are those of the cuts and, between them, of the merged chunks |
| Segmentation.UncutTokens | src/tokenizer/tokenizer_impl.cpp:229-257 | where no special token stands, they are the merged chunks of the text, GPT-2's for rules in learning order |
| Tokenization.RenderDecodes | src/tokenizer/tokenizer_impl.cpp:229-257 | the token strings decode to the text and are all in the vocabulary |
| Tokenization.IdIsLastIndex | src/tokenizer/tokenizer_impl.cpp:105-110 | a token string's id is its last index, 0 when it has none |
| Tokenization.RoundTrip | src/tokenizer/tokenizer_impl.cpp:237-270 | decoding the ids of any text gives the text back |
| Tokenization.GlyphPairBreaks | src/tokenizer/tokenizer_impl.cpp:205-270 | a special token with a two-byte glyph does not survive the round trip |
| Tokenization.RoundTripExactly | src/tokenizer/tokenizer_impl.cpp:205-270 | with a complete vocabulary, all texts round-trip if and only if no special token holds a two-byte glyph |
| TokenizerImpl.Tokenizer.ForModel | src/tokenizer/tokenizer_impl.cpp:132-143 | the builders together establish every table's promise |
| TokenizerImpl.Tokenizer.BuildByteToUnicodeMap | src/tokenizer/tokenizer_impl.cpp:59-97 | the two alphabet tables are total and inverse to each other |
| TokenizerImpl.Tokenizer.BuildMergesMap | src/tokenizer/tokenizer_impl.cpp:99-103 | fills the rank table; ranks of different rules differ |
| TokenizerImpl.Tokenizer.BuildTokenIdMap | src/tokenizer/tokenizer_impl.cpp:105-110 | fills both id tables |
| TokenizerImpl.Tokenizer.Pretokenize | src/tokenizer/tokenizer_impl.cpp:145-174 | computes the chunks, single bytes where nothing matches, an error where the matcher fails |
| TokenizerImpl.Tokenizer.SplitAndMerge | src/tokenizer/tokenizer_impl.cpp:176-203 | computes the greedy merge, which is the reference merge for well-ordered rules |
| TokenizerImpl.Tokenizer.BestPair | src/tokenizer/tokenizer_impl.cpp:183-199 | finds the leftmost pair of lowest rank, or none |
| TokenizerImpl.Tokenizer.UnicodeToChars | src/tokenizer/tokenizer_impl.cpp:205-227 | decodes a token piece by piece |
| TokenizerImpl.Tokenizer.BpeText | src/tokenizer/tokenizer_impl.cpp:229-235 | appends the tokens of a plain text |
| TokenizerImpl.Tokenizer.LookUp | src/tokenizer/tokenizer_impl.cpp:258-260 | an id per token string; unknown strings get id 0 and are entered with it |
| TokenizerImpl.Tokenizer.Tokenize | src/tokenizer/tokenizer_impl.cpp:237-262 | the last indices of exactly those token strings; for a faithful model their decoding is the text |
| TokenizerImpl.Tokenizer.Decode | src/tokenizer/tokenizer_impl.cpp:264-270 | the bytes of an id, nothing for an unknown one |
| Chunked.HexRoundTrip | tools/serve/server.cpp:232-236 | the hexadecimal chunk size reads back as the size |
| Chunked.HexDigits | tools/serve/server.cpp:232-236 | the digits are lower-case without leading zeros |
| Chunked.ChunkBytes | tools/serve/server.cpp:232-246 | a small chunk and the last chunk, byte for byte |
| Chunked.EventBytes | tools/serve/server.cpp:238-242 | "data: ", the JSON and an empty line, and the "[DONE]" event behind the last one |
| Chunked.DoneBytes | tools/serve/server.cpp:240-242 | the "[DONE]" event, byte for byte |
| Chunked.DecodeStream | tools/serve/server.cpp:232-246 | chunks of non-empty payloads and the last chunk decode to exactly the payloads |
| Chunked.TerminatorTest | tools/serve/server.cpp:238-246 | the substring test succeeds on the last message, and on another exactly when its JSON holds the terminator |
| Chunked.CarriageFreeJson | tools/serve/server.cpp:320 | for JSON without carriage returns the test singles out the last message |
| Streaming.StepInv | tools/serve/server.cpp:190-330 | every step of every thread keeps the session invariant |
| Streaming.ConservedExactly | tools/serve/server.cpp:190-330 | in every run of a response at most one write is outstanding and header plus pushed chunks equal written, in-flight and unsent bytes, if and only if it does not open stale |
| Streaming.StaleFlushOvertakes | tools/serve/server.cpp:190-197 | from every stale opening, a run in which a flush writes a chunk before the header |
| Streaming.RunsKeepLive | tools/serve/server.cpp:248-329 | a queued chunk with nothing outstanding always has a flush posted or about to be posted |
| Streaming.NeverStalls | tools/serve/server.cpp:248-329 | at rest, everything pushed has been written and a sealed response was ended exactly once |
| Streaming.ComesToRest | tools/serve/server.cpp:258-330 | the strand and the socket alone take only a bounded number of steps |
| Streaming.ResponseDecodes | tools/serve/server.cpp:232-330 | a sealed response at rest decodes, after its header, to exactly the events pushed |
| Streaming.ResponseBody | tools/serve/server.cpp:238-330 | the decoded body is literally one data line per message in order and then "data: [DONE]" |
| Connection.CleanRunsConserve | tools/serve/server.cpp:121-330 | any number of responses on a connection is conserved if every request is served with no handler of the last response left |
| Connection.ServedExactly | tools/serve/server.cpp:190-197 | the response opened after a finished one is conserved in all its runs if and only if no flush handler of that one still waits |
| Connection.SecondResponseOvertakes | tools/serve/server.cpp:121-330 | a run of two responses on a fresh connection that sends a chunk before its header |
| StreamSession.Session.PushMessage | tools/serve/server.cpp:238-251 | queues exactly the message's bytes |
| StreamSession.Session.FlushStreamingQueue | tools/serve/server.cpp:258-330 | performs the protocol's flush on the fields |
| StreamSession.Session.RunHandler | tools/serve/server.cpp:190-330 | performs the protocol's handler step on the fields |
| StreamSession.Session.FindLast | tools/serve/server.cpp:320 | decides the substring test |
| WorkerProtocol.StepInv | src/worker/worker.hpp:47-96 | every step keeps tasks in order, resolutions in order, and no wake-up lost |
| WorkerProtocol.ReachableInOrder | src/worker/worker.hpp:47-96 | in every reachable state accepted equals executed, in flight, cancelled, queued |
| WorkerProtocol.ResolvedAtMostOnce | src/worker/worker.hpp:54-66 | no promise is resolved twice |
| WorkerProtocol.ExecutedGetOutcomes | src/inference/worker.cpp:16-27 | in every run each executed task's promise gets a value if the task returned and the exception if it threw |
| WorkerProtocol.UnresolvedUntilNow | src/inference/worker.cpp:16-27 | in every reachable state the promises of the task in flight and of the queued tasks are unresolved, so resolving them never throws |
| WorkerProtocol.ExitResolvesAll | src/worker/worker.hpp:47-68 | after the exit every promise is resolved once, executed tasks first, all later ones cancelled |
| WorkerProtocol.StopIsFinal | src/worker/worker.hpp:73-77 | once stopped, nothing enters the queue and no task starts |
| WorkerProtocol.StopEnds | src/worker/worker.hpp:47-68 | in any run after stop the thread takes a bounded number of moves, the drain loop included, and it can move no more exactly when it has exited |
| WorkerProtocol.RestsOnlyWhenDone | src/worker/worker.hpp:47-82 | a running worker left without notices and moves has executed every accepted task, in order |
| WorkerProtocol.StepsBounded | src/worker/worker.hpp:47-96 | in any run the worker's steps are bounded by the work at the start and the requests and spurious wake-ups since |
| WorkerProtocol.StopNeverHangs | src/worker/worker.hpp:47-96 | once stopped, the thread can always move until it has exited |
| WorkerObject.Worker.AddTask | src/worker/worker.hpp:70-80 | appends the task, or rejects it exactly when stopped |
| WorkerObject.Worker.RequestStop | src/worker/worker.hpp:84-91 | clears the flag and says whether this call did |
| WorkerObject.Worker.TakeOrDrain | src/worker/worker.hpp:49-64 | takes the oldest task, or cancels all of them in order |
| WorkerObject.Worker.Fulfil | src/inference/worker.cpp:23-25 | a promise takes one outcome; resolving it again throws and changes nothing |
| WorkerObject.Worker.ExecuteTask | src/inference/worker.cpp:16-27 | however the inference ends, an unresolved promise is resolved exactly once, by that outcome; an exception escapes exactly when it was resolved before |
| LittleEndian.Int32Congruent | src/model_loader/gguf/metadata.cpp:129-136 | a size in int differs from the exact one by a multiple of 2^32 |
| Metadata.SizeIsLength | src/model_loader/gguf/metadata.cpp:99-136 | the size computed in int is the encoded length modulo 2^32, through nested arrays |
| Metadata.SizeExactly | src/model_loader/gguf/metadata.cpp:99-136 | the size is the encoded length if and only if that is below 2^31 |
| Metadata.ValueRoundTrip | src/model_loader/gguf/metadata.cpp:13-136 | an encoded value anywhere in memory parses to itself |
| LittleEndian.LoadBytes | src/model_loader/gguf/metadata.cpp:46-97 | loads read the lowest byte first |
| Metadata.ByteLayout | src/model_loader/gguf/metadata.cpp:46-97 | codes 0, 1 and 7 are uint8, int8 and bool |
| Metadata.ShortLayout | src/model_loader/gguf/metadata.cpp:46-97 | codes 2 and 3 are uint16 and int16 |
| Metadata.WordLayout | src/model_loader/gguf/metadata.cpp:46-97 | codes 4, 5 and 6 are uint32, int32 and float32 |
| Metadata.LongLayout | src/model_loader/gguf/metadata.cpp:46-97 | codes 10, 11 and 12 are uint64, int64 and float64 |
| Metadata.CompoundLayout | src/model_loader/gguf/metadata.cpp:13-27 | code 8 is a string behind its length, 9 an array behind its type and length |
| Metadata.UnknownTakesNothing | src/model_loader/gguf/metadata.cpp:46-97 | an unknown code takes no bytes |
| Metadata.ArrayBytes | src/model_loader/gguf/metadata.cpp:107-127 | the encoding of a small array, byte for byte |
| Metadata.ParseArray | src/model_loader/gguf/metadata.cpp:114-127 | the array loop computes the specified parse |
| Metadata.ParseValue | src/model_loader/gguf/metadata.cpp:13-27 | type dispatch computes the specified parse |
| Metadata.ValueSize | src/model_loader/gguf/metadata.cpp:99-136 | computes the size in int of any value |
| Metadata.ArraySize | src/model_loader/gguf/metadata.cpp:129-136 | the size loop computes the wrapped sum |
| Gguf.EntryRoundTrip | src/model_loader/gguf/metadata.cpp:158-171 | an encoded entry parses to itself and its size is its length |
| Gguf.EntryBytes | src/model_loader/gguf/metadata.cpp:158-171 | the encoding of a small entry, byte for byte |
| Gguf.TensorRoundTrip | src/model_loader/gguf/tensors.cpp:11-39 | an encoded tensor info parses to itself and its size is its length |
| Gguf.TensorBytes | src/model_loader/gguf/tensors.cpp:11-39 | the encoding of a small tensor info, byte for byte |
| Gguf.HeaderBytes | src/model_loader/gguf/gguf.cpp:67-75 | a header, byte for byte |
| Gguf.WalkRoundTrip | src/model_loader/gguf/gguf.cpp:26-48 | reading items by their own sizes reads exactly the encoded sequence |
| Gguf.TableHoldsFirst | src/model_loader/gguf/gguf.cpp:32-33 | the table holds the first item of each key |
| Gguf.FileLoads | src/model_loader/gguf/gguf.cpp:59-86 | a well-formed file loads and the cursor ends after the tensor infos |
| Gguf.LoadFailsExactly | src/model_loader/gguf/gguf.cpp:117-123 | loading fails if and only if the alignment is a number that is not a uint8 |
| Gguf.AlignShift | src/model_loader/gguf/gguf.cpp:117-128 | aligning the address agrees with aligning the file position if and only if the base is aligned |
| Gguf.TensorPointersExact | src/model_loader/gguf/gguf.cpp:117-128 | wherever a file is mapped, a tensor's pointer is the address of its data if and only if the alignment divides the base |
| Gguf.TensorPointersLand | src/model_loader/gguf/gguf.cpp:194-196 | dereferencing the pointer reads the tensor's own data |
| Gguf.EncodedIsFile | src/model_loader/gguf/gguf.cpp:117-128 | the encoding of a file puts its infos and its data where the loader looks for them |
| Gguf.AlignmentIs | src/model_loader/gguf/gguf.cpp:117-123 | the alignment used is a non-zero uint8 stored in the first alignment entry, and 32 when that holds zero or no number or there is none |
| Gguf.AlignmentKeyBytes | src/model_loader/gguf/gguf.cpp:117-123 | the key is "general.alignment" |
| Gguf.ReadEntry | src/model_loader/gguf/metadata.cpp:158-171 | parses an entry as specified, with its size |
| Gguf.ReadTensor | src/model_loader/gguf/tensors.cpp:11-39 | parses a tensor info as specified, with its size |
| Gguf.ReadEntries | src/model_loader/gguf/gguf.cpp:26-36 | the loop advances by each entry's size and keeps the first of each key |
| Gguf.ReadTensors | src/model_loader/gguf/gguf.cpp:38-48 | the loop advances by each tensor info's size and keeps the first of each name |
| Gguf.LoadGguf | src/model_loader/gguf/gguf.cpp:59-86 | computes the specified loader |
| Sampling.SoftMaxIsDistribution | src/sampling/samplers.cpp:27-38 | softmax is a distribution, positive exactly on finite logits |
| Sampling.SoftMaxShift | src/sampling/samplers.cpp:27-38 | subtracting the largest logit changes no probability when the exponential turns sums into products |
| Sampling.SoftMaxRatio | src/sampling/samplers.cpp:27-38 | two probabilities stand in the ratio of the exponential of the difference of their logits |
| Sampling.SoftMaxOrder | src/sampling/samplers.cpp:27-38 | the larger logit has the larger probability when the exponential increases |
| Sampling.SoftMax | src/sampling/samplers.cpp:27-38 | computes the specified softmax |
| Sampling.Draw | src/sampling/samplers.cpp:51-64 | the first index whose running sum reaches the draw, or the fallback |
| Sampling.DrawnInterval | src/sampling/samplers.cpp:56-63 | an index is drawn exactly for an interval of draws as long as its probability |
| Sampling.ThresholdExact | src/sampling/samplers.cpp:41-49 | reaching the k-th largest logit is having fewer than k logits strictly above, ties included |
| Sampling.TopKPositive | src/sampling/samplers.cpp:40-50 | the probabilities are positive exactly on the logits with fewer than k above them |
| Sampling.TopKRatio | src/sampling/samplers.cpp:40-50 | among kept logits probabilities stand in the ratio of the exponential of the difference |
| Sampling.UnmaskedRatio | src/sampling/samplers.cpp:67-68 | so they do for the nucleus, among all logits |
| Sampling.NormalizedShare | src/sampling/samplers.cpp:86-89 | normalizing divides every entry by the sum |
| Sampling.LargestAreHeaviest | src/sampling/samplers.cpp:67-83 | no set of m indices weighs more than the m largest (exchange argument) |
| Sampling.NucleusOptimal | src/sampling/samplers.cpp:67-84 | every smaller set weighs less than top-p, and the kept prefix reaches it |
| Sampler.Sampler.Greedy | src/sampling/samplers.cpp:21-25 | the first largest logit |
| Sampler.Sampler.TopKSample | src/sampling/samplers.cpp:40-65 | returns from inside the loop for every draw, with the index drawn from the softmax of exactly the logits that have fewer than k above them |
| Sampler.Sampler.TopPSample | src/sampling/samplers.cpp:67-93 | draws from the smallest nucleus of the softmax of the logits, in proportion to the probabilities |
| Sampler.Sampler.Sample | src/sampling/samplers.cpp:95-110 | draws from the softmax of the kept logits after scaling; which are kept does not depend on the temperature |
| Sampler.TemperatureRatio | src/sampling/samplers.cpp:101-110 | the probabilities drawn from stand in the ratio of the exponential of the difference divided by the temperature |
| KvCache.Layer.AllocBlock | src/kv_cache/cache.cpp:86-99 | first-fit allocation, -1 exactly when all blocks are taken |
| KvCache.Layer.WriteRound | src/kv_cache/cache.cpp:110-149 | one round fills the current block as far as rows and room go |
| KvCache.Layer.WriteKv | src/kv_cache/cache.cpp:101-151 | succeeds exactly when the rows fit; row t of the buffers is logical row t, earlier rows stay |
| KvCache.Layer.Layout | src/kv_cache/cache.cpp:101-151 | logical row t is slot t mod 16 of block t / 16; the first blocks are in use, all full but the last |
| Events.EventDispatcher.ListenTo | src/events/events.cpp:13-26 | registers last in the group; the count stays the number of listeners |
| Events.EventDispatcher.StopListening | src/events/events.cpp:28-33 | removes the group; the count stays the number of listeners |
| Events.EventDispatcher.Dispatch | src/events/events.cpp:35-54 | calls exactly the snapshot of matching listeners in order, whatever callbacks change |
| Events.ListenerHears | src/events/events.cpp:35-54 | a listener whose group is disturbed at most by the last event hears exactly the events of its kinds, once each and in order |
| Events.MatchingJoins | src/events/events.cpp:45-49 | listeners in a row are called one after the other |
| Events.CalledInOrder | src/events/events.cpp:45-49 | of two interested listeners the one registered first is called first |
| Events.CallsExactly | src/events/events.cpp:51-53 | one call per matching callback with the event, none for an unknown group |
| Events.ActionsOne | src/events/events.cpp:51-53 | a callback performs its own actions |
| Events.ActionsJoin | src/events/events.cpp:51-53 | callbacks in a row act one after the other |
| Events.AppliedJoin | src/events/events.cpp:13-33 | actions in a row change the listeners one after the other |
| Events.KindsMatch | src/inference/inference.cpp:145-194 | each event is dispatched under its own name |
| Events.TotalWithout | src/events/events.cpp:30-32 | the listener total splits off any group's size |
| DecodeLoop.CausalMaskAt | src/models/qwen/model.cpp:61-68 | entry (q, k) of the mask is open exactly for keys up to the query's position |
| DecodeLoop.MaskJoins | src/models/qwen/model.cpp:61-68 | the masks of adjacent ranges make up the mask of the whole range |
| DecodeLoop.IncrementalIsOneShot | src/inference/inference.cpp:154-173 | in every run, each round that computes has the tokens, positions and mask rows that its place in one pass over all tokens gives it, on a graph of its own size |
| DecodeLoop.ReservedIsOneShot | src/inference/inference.cpp:154-173 | when graphs can always be prepared, all rounds together are that one pass: positions 0, 1, 2, ... and the full causal mask |
| DecodeLoop.SampledExactly | src/inference/inference.cpp:163-175 | every token is the one drawn in its round from the inputs computed on, 0 where nothing was |
| DecodeLoop.GraphReuse | src/inference/inference.cpp:120-128 | a round computes exactly when a graph can be prepared or the last one fits |
| DecodeLoop.CompletedRunExactly | src/inference/inference.cpp:141-197 | a completed run event by event, with its output |
| Inference.Inference.SetInputs | src/models/qwen/model.cpp:45-71 | fills tokens, positions and mask |
| Inference.Inference.Predict | src/inference/inference.cpp:115-139 | computes on a graph sized to its tokens; skips exactly when a needed graph cannot be prepared |
| Inference.Inference.Round | src/inference/inference.cpp:158-173 | prefill events surround the first round only; the token is drawn from the inputs computed on |
| Inference.Inference.Report | src/inference/inference.cpp:174-189 | a stop token completes the run, any other becomes output and an event |
| Inference.Inference.Invoke | src/inference/inference.cpp:141-197 | the rounds, samples, output and event trace of every completed run, and that each event reached the listeners registered when it was sent |
| Serving.HandlerHears | tools/serve/handlers.cpp:88-125 | the chat handler hears every generated token in order, then one completion, and is gone after the run |
| Serving.BodyBytes | tools/serve/handlers.cpp:88-111 | the body the client decodes, byte for byte |
| Serving.ClientReceives | tools/serve/handlers.cpp:88-125 | from the decode loop to the client: the response at rest decodes to the run's tokens in order and one completion |

## Left out

- Bpe.GreedyIsReference: the rank condition is sufficient, not necessary, because a rule out of order does no harm when no word can trigger it; `UnorderedTableDiffers` shows it cannot be dropped.
- Tokenization.RoundTrip: the matcher's contract (anchored, non-empty matches) stands for PCRE2 and the two patterns; the empty pattern of unknown pretokenizers is outside it.
- Alphabet.GlyphShape: the shifts and masks of UTF-8 are written as division and remainder, which agree on these non-negative numbers.
- Streaming.ConservedExactly: no write errors. The read or close that follows the last chunk is counted; `Connection` models the read.
- Connection.CleanRunsConserve: every response on the connection is a streamed one; plain JSON and HTML responses between them are not modelled.
- Streaming.ResponseDecodes: the header is an abstract non-empty byte string, and JSON serialization is a text without carriage returns.
- StreamSession.Session.RunHandler: timeouts, sockets and buffer lifetimes; bytes handed to a write are copies.
- WorkerProtocol.StepInv: thread creation and the join inside `stop`; a task is its submission number.
- Metadata.ValueRoundTrip: reads outside the mapped file and steps by a negative size, undefined in the source, end the model's parse with no result; accumulated `int` sizes wrap.
- Gguf.ReadEntry: values are parsed and measured by their methods, while strings, which have no loop, are read by the specification's own function.
- Gguf.LoadGguf: `mmap`, the magic check of `is_gguf_file`, and the accessors for model and tokenizer configuration. Tensor counts of 2^31 and more, which overflow the loop counter, are not modelled.
- Sampling.SoftMax: reals instead of floats, an abstract positive exponential, and a draw given as a parameter.
- Sampler.Sampler.TopPSample: `top_p` is a parameter, because the constructors never set the field and `sample` never takes this path; sorting is a selection sort in place of the library's, and only its contract is used.
- KvCache.Layer.WriteKv: one layer with tables of full size; when blocks run out, where the source indexes with -1, the model stops. `start_pos`, duplicate entries of the block list, `init`, `reset` and `get_slice` carry no claim.
- Serving.ClientReceives: that the callback pushes one message per event is the definition of the pushes; the JSON text of an event is an abstract text without carriage returns.
- Inference.Inference.Invoke: requires a non-empty prompt, as `predict` does; the network, the sampler and the scheduler's reservation are parameters, and a failed compute is not modelled. `num_tokens` is not set when the token limit ends a run.
- Events.EventDispatcher.Dispatch: locking; a callback is the actions it performs on the dispatcher for an event.
- ggml graphs, layers and backends, PCRE2, metrics, chat templates, command-line tools and the web page.
