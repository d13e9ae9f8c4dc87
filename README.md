# TinyMecab core in Dafny

TinyMecab is a small Japanese morphological analyzer. It reads a sentence as bytes and builds a lattice of candidate words, the morphemes. Some candidates come from a double-array-trie dictionary. The others are unknown words, grouped by character category. A Viterbi search over a connection-cost matrix picks the cheapest path from a BOS node to an EOS node. The writer prints that path through a `printf`-like format template.

This project models the analyzer's core and proves properties of the model:

| file | models |
|---|---|
| `mecab.dfy` | the `Node` record, its `NodeStat`, the BOS/EOS constants, `MAX_GROUPING_SIZE` |
| `common.dfy` | little-endian reads, int16/int32 reinterpretation, the uint32 cast, C strings |
| `char_property.dfy` | `char.bin`: packed character records, the UTF-8 to UCS-2 decoder, `seekToOtherType` |
| `dictionary.dfy` | dictionary files: header checks, the double-array trie, exact-match and common-prefix search |
| `lattice.dfy` | resource loading, node construction, and the candidates `tokenize` adds at one offset |
| `viterbi.dfy` | the lattice as an arena, plus `connect`, the forward pass, the EOS connection, the back-link walk and `stringify` |
| `analyzer.dfy` | the `Lattice` class: each in-place method is proved equal to the functional model above |
| `writer.dfy` | format selection, the template interpreter, `%f[...]` field lists, `splitCsv` |
| `param.dfy` | the `Param` class: command-line scanning and resource-line loading |

How the linked structures are represented:
- Nodes live in an arena, `seq<Node>`. Every `prev`/`next` link, bucket entry and token is an index into it.
- `endNodes_` holds `std::forward_list` buckets. They are modelled as `seq<seq<nat>>` with the newest entry first, because `emplace_front` prepends.
- Resource files are given as byte sequences (`seq<bv8>`). Format strings and configuration text are `string`.

## Model

| member | source | states |
|---|---|---|
| Common.CStringShape | CharProperty.hpp:41-44 | A C string read from a buffer is the bytes before the first NUL. It holds no NUL and is followed by NUL or by the end of the buffer |
| Common.Le16 | Dictionary.hpp:13-17 | A little-endian uint16 field read is below 2^16 |
| Common.Le32 | Dictionary.hpp:120-124 | A little-endian uint32 read is below 2^32 |
| Common.Signed16 | Dictionary.hpp:17 | The int16 reading of a uint16 lies in [-32768, 32767] and equals it modulo 2^16 |
| Common.Signed32 | Dictionary.hpp:28 | The int32 reading of a uint32 lies in the int32 range and equals it modulo 2^32 |
| Common.U32 | Dictionary.hpp:81-86 | The uint32 cast in the trie walk yields a value below 2^32 and leaves values that fit unchanged |
| Common.CharAt | Writer.hpp:73-82 | Reading at the end of a format yields the terminator `\0`; inside the format it yields the character |
| Common.Text | Writer.hpp:89-91 | `%S` copies the sentence byte for byte, at the same length |
| CharProperty.IsKindOfSymmetric | CharProperty.hpp:20 | `isKindOf` is symmetric: two records share a category bit whichever one is asked |
| CharProperty.DecodeEncode | CharProperty.hpp:14-19 | Unpacking a packed record gives the record back (fields of 18/8/4/1/1 bits) |
| CharProperty.EncodeDecode | CharProperty.hpp:14-19 | Packing an unpacked 32-bit word gives the word back: the five fields cover all 32 bits |
| CharProperty.Utf8ToUcs2 | CharProperty.hpp:72-88 | The decoder consumes between 1 and min(6, input length) bytes. Every sequence of 4 or more bytes decodes to key 0 |
| CharProperty.EncodeBmp | CharProperty.hpp:74-79 | The reference UTF-8 encoder for a BMP code point produces 1 to 3 bytes |
| CharProperty.EncodeSupplementary | CharProperty.hpp:81-82 | The reference UTF-8 encoder for a code point above 0xFFFF produces 4 bytes |
| CharProperty.TwoByteLead | CharProperty.hpp:76-77 | A two-byte lead with two bytes available gives key (b0 & 0x1f) << 6 OR (b1 & 0x3f) and length 2 |
| CharProperty.ThreeByteLead | CharProperty.hpp:78-79 | A three-byte lead with three bytes available gives key (b0 & 0x0f) << 12 OR (b1 & 0x3f) << 6 OR (b2 & 0x3f) and length 3 |
| CharProperty.DecodeTwoByteForm | CharProperty.hpp:76-77 | Decoding the two-byte UTF-8 form of a code point in 0x80..0x7FF gives that code point and length 2 |
| CharProperty.DecodeThreeByteForm | CharProperty.hpp:78-79 | Decoding the three-byte UTF-8 form of a code point of at least 0x800 gives that code point and length 3 |
| CharProperty.DecodeBmp | CharProperty.hpp:74-79 | Round trip: the UTF-8 encoding of any BMP code point, followed by any bytes, decodes to that code point and the encoding's length |
| CharProperty.DecodeSupplementary | CharProperty.hpp:80-82 | The encoding of a code point above 0xFFFF decodes to key 0 with length 4 |
| CharProperty.DecodeTruncated | CharProperty.hpp:76-87 | A multi-byte lead with too few bytes left decodes to key 0 with length 1 |
| CharProperty.DecodeLongLeads | CharProperty.hpp:83-86 | A five-byte lead with five bytes present decodes to key 0 with length 5; a six-byte lead with six, to key 0 with length 6 |
| CharProperty.DecodeOtherwise | CharProperty.hpp:74-87 | A byte ≥ 0x80 that starts none of the two- to six-byte forms with its bytes present decodes to key 0 with length 1 |
| CharProperty.DecodeStray | CharProperty.hpp:74-87 | A stray continuation byte, 0xFE or 0xFF decodes to key 0 with length 1 |
| CharProperty.ContinuationUnchecked | CharProperty.hpp:78-79 | Continuation bytes are not validated: replacing their top two bits by `10` changes nothing |
| CharProperty.SameLowBits | CharProperty.hpp:78-79 | Two three-byte sequences that agree on the lead and on the low six bits of each continuation decode alike |
| CharProperty.Records | CharProperty.hpp:36-45 | The record table holds exactly 0xFFFF records |
| CharProperty.Names | CharProperty.hpp:41-44 | There is one category name per slot of the header's count |
| CharProperty.NamesSnoc | CharProperty.hpp:41-44 | Name k is the C string at byte 4 + 32k |
| CharProperty.Decoded | CharProperty.hpp:41-45 | A file of the right size decodes to a well-formed property: 0xFFFF records and one name per category |
| CharProperty.ReadNames | CharProperty.hpp:41-44 | The name-reading loop returns exactly the names the file holds |
| CharProperty.Open | CharProperty.hpp:30-47 | `open` fails iff the file is not exactly 4 + 32*csize + 4*0xFFFF bytes. On success the names and records are the file's |
| CharProperty.GetCharInfoAsWritten | CharProperty.hpp:65-69 | Lookup by key, as written: the result is a record of the table |
| CharProperty.KeyFFFFOutsideTable | CharProperty.hpp:36-40 | Bytes EF BF BF decode to key 0xFFFF, which is not an index of the 0xFFFF-record table |
| CharProperty.GetCharInfoKey | CharProperty.hpp:65-69 | Corrected lookup: agrees with the as-written lookup on every key inside the table, and gives record 0 for key 0xFFFF |
| CharProperty.GetCharInfo | CharProperty.hpp:65-68 | The first character's record comes from the table, and its byte length is between 1 and the input length |
| CharProperty.Classify | CharProperty.hpp:65-68 | The classifier consumes between 1 and all bytes of any non-empty input |
| CharProperty.ClassifyIs | CharProperty.hpp:65-68 | The classifier gives `getCharInfo`'s answer |
| CharProperty.SeekToOtherType | CharProperty.hpp:50-64 | The scanning loop returns the result of the recursive definition `SeekToOther` |
| CharProperty.SeekFromBounds | CharProperty.hpp:55-62 | The scan adds at most the remaining bytes. It adds no more characters than bytes, and adds no character iff it adds no byte |
| CharProperty.SeekFromStop | CharProperty.hpp:55-62 | When the scan stops before the end, the returned record and length are those of the stopping character |
| CharProperty.SeekBounds | CharProperty.hpp:50-63 | blen ≤ the input length, clen ≤ blen, and clen = 0 iff blen = 0. When the scan stops early, the record and mlen describe the stopping character |
| CharProperty.SeekEmpty | CharProperty.hpp:51-55 | Empty input gives the all-zero record and zero counts |
| CharProperty.SeekNoCategory | CharProperty.hpp:57 | A reference record with no category bits consumes nothing |
| CharProperty.SeekFromShift | CharProperty.hpp:58-60 | The scan is translation-invariant in its two counters |
| CharProperty.SeekFromFirst | CharProperty.hpp:55-62 | For any classifier that consumes at least one byte: a scan whose first character shares a category with the reference equals the scan from the second character, shifted by one character and its bytes |
| CharProperty.SeekChains | CharProperty.hpp:55-62 | Consuming one character and continuing with that character as the new reference gives the same result, shifted by one character and its bytes |
| CharProperty.SeekFromConsumesChain | CharProperty.hpp:55-62 | A scan consumes all its input iff every character shares a category with the one before it |
| CharProperty.SeekConsumesChain | CharProperty.hpp:55-62 | `seekToOtherType` consumes the whole input iff the input is a chain of category-sharing characters |
| Dictionary.DecodeUnits | Dictionary.hpp:27-31 | The trie region yields one unit per 8 bytes |
| Dictionary.DecodeTokens | Dictionary.hpp:13-20 | The token region yields one token per 16 bytes |
| Dictionary.Open | Dictionary.hpp:36-77 | Under 100 bytes: broken. `magic ^ 0xef718f77 ≠ size`: invalid size. Version mismatch: incompatible. Header (72 bytes) plus trie, token and feature sizes ≠ size: broken. Success iff all checks pass, and then the regions are trie, tokens, features, in that order |
| Dictionary.RunOf | Dictionary.hpp:89-91 | A negative base encodes a run: count < 256 and start*256 + count = -base-1 |
| Dictionary.Terminal | Dictionary.hpp:88-91 | The run stored at a node carries the requested length and a count below 256 |
| Dictionary.TerminalAt | Dictionary.hpp:88-91 | The terminal check at a node equals `Terminal` |
| Dictionary.ExactMatchSearch | Dictionary.hpp:78-93 | The search loop returns `ExactMatch`: the run at the node reached by all key bytes, or nothing at the first missing transition |
| Dictionary.HitAt | Dictionary.hpp:100-104 | At a reached node, the results grow by that node's terminal run, if it has one |
| Dictionary.MissingAt | Dictionary.hpp:105-107 | At a missing transition, the search returns the results found so far |
| Dictionary.CommonPrefixSearch | Dictionary.hpp:94-115 | The search loop returns `CommonPrefix` |
| Dictionary.FeatureShape | Dictionary.hpp:116-118 | A token's feature is the NUL-free run of bytes from its offset to the next NUL or the end |
| Dictionary.DescendStaysMissing | Dictionary.hpp:84-85 | Once a transition is missing, every longer prefix is missing too |
| Dictionary.HitsStopGrowing | Dictionary.hpp:105-107 | No prefix result is added after a missing transition |
| Dictionary.StopsAtMissingTransition | Dictionary.hpp:82-85 | After a missing transition at i, exact match fails and every prefix result is shorter than i |
| Dictionary.HitLengths | Dictionary.hpp:100-113 | The results collected so far have strictly increasing lengths below the current position |
| Dictionary.CommonPrefixOrdered | Dictionary.hpp:100-114 | Prefix results have strictly increasing lengths, all at most the key length |
| Dictionary.DescendPrefix | Dictionary.hpp:82-86 | Walking a prefix of the key reaches the same node as walking the key that far |
| Dictionary.HitsAreStoredPrefixes | Dictionary.hpp:94-115 | The prefix results up to n are the exact-match results of the key's prefixes shorter than n, in order |
| Dictionary.CommonPrefixIsStoredPrefixes | Dictionary.hpp:94-115 | `commonPrefixSearch(key)` lists exactly the stored prefixes of the key (each found by `exactMatchSearch`), shortest first |
| Dictionary.ExactMatchIsLastPrefix | Dictionary.hpp:88-91 | Exact match succeeds iff the last prefix result has the key's full length, and then the two runs are equal |
| Dictionary.HitsInRange | Dictionary.hpp:103-104 | In a well-formed dictionary, every collected run lies inside the token array |
| Dictionary.LookupRunsInRange | Dictionary.hpp:89-113 | In a well-formed dictionary, every run either search returns lies inside the token array |
| Dictionary.HitsNotEmpty | Dictionary.hpp:103-104 | Without an entry for the empty key, every collected run has length ≥ 1 |
| Dictionary.PrefixHitsNotEmpty | Dictionary.hpp:103-104 | Without an entry for the empty key, every prefix result has length ≥ 1 |
| Lattice.CategoryRuns | Lattice.hpp:40-48 | Succeeds iff every category name has an exact match in the unknown-word dictionary. It then gives those runs in category order; otherwise it names a missing category |
| Lattice.RunsStep | Lattice.hpp:42-47 | One iteration of the category loop appends one run |
| Lattice.RunsMissing | Lattice.hpp:43-46 | A category without an entry stops the loading with that name |
| Lattice.ResolveCategories | Lattice.hpp:40-48 | The category loop equals `CategoryRuns` |
| Lattice.NegativeDimensionsAccepted | Lattice.hpp:57-66 | As written, the matrix `[-1, -1, 0]` passes the size check (size_t wrap-around); the corrected check rejects it |
| Lattice.MatrixChecksAgree | Lattice.hpp:57-66 | For non-negative dimensions, the as-written and the corrected matrix checks agree |
| Lattice.CellInMatrix | Lattice.hpp:63 | Every connection cell `rc + lSize*lc` with rc < lSize and lc < rSize lies inside the matrix |
| Lattice.LoadedEngine | Lattice.hpp:35-67 | A successful load has a valid property and an accepted matrix with lSize and rSize from its header. It holds one run per category, equal to that category's exact match |
| Lattice.Load | Lattice.hpp:35-67 | The loop over the categories returns what `LoadedEngine` defines: the first failing file check, or the loaded engine. The matrix check is the corrected one (see Findings) |
| Lattice.LoadedIsReady | Lattice.hpp:35-67 | Loaded resources whose dictionaries are well formed and whose ids and costs agree with the matrix are ready for analysis |
| Lattice.EntryNodes | Lattice.hpp:145-152 | A dictionary run yields one node per entry |
| Lattice.EntryNodesAt | Lattice.hpp:146-151 | Node i is built from token start+i |
| Lattice.EntryNodesStat | Lattice.hpp:148 | Every node of a run carries the requested status |
| Lattice.EntryNodeFresh | Lattice.hpp:111-130 | An entry node is unlinked with cost 0. It has the token's ids and word cost, length len, rlength slen+len, and its surface at pos+slen |
| Lattice.EntryNodesFresh | Lattice.hpp:145-151 | Every node of a run is such a fresh node |
| Lattice.NorNodes | Lattice.hpp:172-174 | The dictionary runs yield as many NORMAL nodes as they hold entries |
| Lattice.DictionaryWords | Lattice.hpp:172-174 | One NORMAL node per entry of each common-prefix run of the remainder |
| Lattice.UnkRun | Lattice.hpp:154 | A category's run lies inside the unknown-word dictionary |
| Lattice.UnkNodes | Lattice.hpp:153-160 | An unknown word yields one UNKNOWN node per entry of its category's run |
| Lattice.Read | Lattice.hpp:166-194 | The classifier's answers for a remainder form a consistent reading of it |
| Lattice.UnkNodesFor | Lattice.hpp:189-198 | The incremental unknown words are UNKNOWN nodes |
| Lattice.UnknownWords | Lattice.hpp:177-198 | Every unknown-word node is an UNKNOWN node |
| Lattice.Skip | Lattice.hpp:166 | The space skip is a `seekToOtherType` from the record of a space |
| Lattice.GroupedAtMostMax | Lattice.hpp:179-186 | The grouped word is added only for a `group` category whose run is the first character plus at most 24 more (`clen` counts the characters after the first), one node per entry. The group end is set iff `group` |
| Lattice.GroupsTwentyFive | Lattice.hpp:179-186 | A `group` run of 25 characters is grouped, as one word spanning all of it; a run of 26 is not |
| Lattice.EndsWithin | Lattice.hpp:189-198 | Incremental lengths strictly increase from the first character's length. None is the grouped run's end. None passes the remainder's end (as written, none reaches it) |
| Lattice.EndsCount | Lattice.hpp:191 | At most `cinfo.length` incremental words |
| Lattice.EndsStopAtGroupEnd | Lattice.hpp:192 | Once the tail reaches the grouped run's end, no further incremental word follows |
| Lattice.EndsSameKind | Lattice.hpp:194-197 | Every incremental word extends the previous one by a character that shares a category with it |
| Lattice.NorNodesWithin | Lattice.hpp:145-152 | Dictionary nodes are fresh, at this offset, with lengths within the prefix lengths |
| Lattice.UnkNodesForWithin | Lattice.hpp:153-160 | Unknown nodes are fresh, at this offset, with the given lengths |
| Lattice.UnkNodesForCount | Lattice.hpp:193 | Each incremental length adds the category's run count in nodes |
| Lattice.DictionarySpans | Lattice.hpp:168-174 | Every dictionary candidate fits inside the remainder after the skipped spaces |
| Lattice.UnknownSpans | Lattice.hpp:181-197 | Every unknown candidate fits inside the remainder after the skipped spaces |
| Lattice.UnknownPartSpans | Lattice.hpp:175-198 | The unknown part, when it runs, fits inside the remainder |
| Lattice.WordsSpans | Lattice.hpp:171-198 | All candidates of a non-blank remainder fit inside it |
| Lattice.CandidateSpans | Lattice.hpp:166-198 | Every candidate starts after the skipped spaces, has length ≥ 1 and slen + length ≤ remainder length. So its end bucket `pos + rlength` is inside the lattice |
| Lattice.NoCandidatesInBlank | Lattice.hpp:166-167 | A remainder made only of the space chain yields no candidates |
| Lattice.NormalThenUnknown | Lattice.hpp:172-175 | NORMAL nodes come before UNKNOWN nodes. With a dictionary hit and `invoke` unset, the candidates are exactly the dictionary words; otherwise they are the dictionary words followed by the unknown words |
| Lattice.UnknownWordsNotEmpty | Lattice.hpp:189-198 | Corrected loop: a category with a non-zero length and run always yields an unknown word |
| Lattice.EveryStartHasWords | Lattice.hpp:171-198 | Corrected loop: every non-blank offset gets at least one candidate |
| Lattice.FinalCharacterDroppedAsWritten | Lattice.hpp:191 | As written, a final ungrouped character with no dictionary entry yields no candidate; the corrected loop yields one |
| Viterbi.FreshLattice | Lattice.hpp:71-80 | The fresh lattice has one bucket per byte plus one: bucket 0 holds only the BOS node and the others are empty. The arena and tree invariants hold |
| Viterbi.Costs | Lattice.hpp:203-204 | One path cost per predecessor in the bucket |
| Viterbi.FirstMinFrom | Lattice.hpp:203-209 | The minimum scan's index stays inside the costs |
| Viterbi.FirstMin | Lattice.hpp:201-209 | The chosen predecessor, if any, is an index of the bucket |
| Viterbi.FirstMinFromScan | Lattice.hpp:203-209 | The scan from any point keeps the minimum-so-far invariant to the end |
| Viterbi.FirstMinimum | Lattice.hpp:200-209 | The chosen cost is ≤ every cost. There is no predecessor iff every cost ≥ INT64_MAX, and then the cost is INT64_MAX. Otherwise the predecessor's cost is the chosen one and every earlier entry is strictly dearer (the first tie wins) |
| Viterbi.RelinkKeeps | Lattice.hpp:210-213 | Relinking one node and prepending it to one bucket keeps the arena invariant and changes nothing else |
| Viterbi.ConnectKeeps | Lattice.hpp:200-214 | `connect` changes only the new node and the bucket at pos + rlength, and keeps the arena invariant |
| Viterbi.RelinkRooted | Lattice.hpp:210 | Linking a node to an earlier linked node keeps every prev chain ending at BOS |
| Viterbi.RelinkTree | Lattice.hpp:210-213 | Placing a new node with a bounded cost keeps the tree invariant |
| Viterbi.CostBound | Lattice.hpp:204 | A path cost after pos bytes stays within ±0x10000·(pos+1), far inside int64 |
| Viterbi.BucketCost | Lattice.hpp:204 | Every candidate cost from a bucket obeys that bound |
| Viterbi.ConnectGrows | Lattice.hpp:200-214 | Connecting a candidate from a non-empty bucket keeps the tree invariant: every placed node has a bounded cost and a prev chain to BOS |
| Viterbi.ConnectAll | Lattice.hpp:88-89 | Connecting all new tokens keeps both invariants, the arena size and the start bucket |
| Viterbi.ConnectStep | Lattice.hpp:88-89 | Connecting the newest pending token leaves the rest pending |
| Viterbi.AppendCandidates | Lattice.hpp:87 | Appending the candidates of an offset keeps the invariants and leaves them pending |
| Viterbi.AddCandidates | Lattice.hpp:87 | The same, for the candidates `tokenize` produces, with either incremental loop (`inclusive`) |
| Viterbi.Step | Lattice.hpp:86-89 | One forward step keeps the arena and tree invariants, with either incremental loop |
| Viterbi.Forward | Lattice.hpp:85-90 | The forward pass keeps the arena and tree invariants, with either incremental loop |
| Viterbi.LastFilled | Lattice.hpp:92-96 | The EOS bucket search returns an offset ≤ the start |
| Viterbi.LastFilledHighest | Lattice.hpp:92-96 | EOS connects to the highest non-empty bucket in len..0, and to none only when all are empty |
| Viterbi.EosKeeps | Lattice.hpp:91-96 | Connecting EOS adds exactly one node and keeps the arena invariant |
| Viterbi.EosRooted | Lattice.hpp:91-96 | After EOS, the EOS node has a predecessor, every chain reaches BOS, and node 0 is BOS. If no bucket above 0 is used, bucket 0 is just BOS |
| Viterbi.EmptySentenceEos | Lattice.hpp:91-96 | For the empty sentence, EOS is prepended to bucket 0, which becomes [EOS, BOS] |
| Viterbi.Backlink | Lattice.hpp:97-98 | The back-link walk keeps the node count |
| Viterbi.BacklinkKeeps | Lattice.hpp:97-98 | The back-link walk changes only `next` fields and keeps every `next` pointing forward |
| Viterbi.Chain | Lattice.hpp:97 | The prev chain from node i starts at a node without predecessor, ends at i, and follows `prev` at each step |
| Viterbi.ChainByPrev | Lattice.hpp:97 | The chain depends only on the `prev` fields |
| Viterbi.WalkAbove | Lattice.hpp:105 | The `next` walk depends only on the `next` fields it visits |
| Viterbi.BacklinkWalks | Lattice.hpp:97-98 | After linking back from i, walking `next` from the chain's start visits the chain and then continues as before |
| Viterbi.BacklinkStep | Lattice.hpp:98 | One back-link step sets the predecessor's `next` and leaves the earlier nodes as they were |
| Viterbi.ChainReachesBos | Lattice.hpp:97-98 | In a rooted lattice the prev chain of any linked node starts at BOS |
| Viterbi.Forwarded | Lattice.hpp:85-90 | The forward pass over a fresh lattice keeps both invariants, with either incremental loop |
| Viterbi.BestPathWalked | Lattice.hpp:82-99 | After `viterbi`, with either incremental loop, walking `next` from BOS visits a path from BOS to EOS, each node the way into the next. Every node between them is a NORMAL or UNKNOWN word whose span (leading white space included) starts at the byte offset where the previous node's span ends |
| Viterbi.EosChain | Lattice.hpp:91-97 | The prev chain from EOS is a BOS-to-EOS path whose inner nodes are words, each starting where the one before ends |
| Viterbi.EosKeepsOlder | Lattice.hpp:91 | Adding the EOS node changes none of the older nodes |
| Viterbi.EosFirstBucket | Lattice.hpp:92-96 | Unless EOS is connected at offset 0, the first bucket is unchanged |
| Viterbi.ConnectBucket | Lattice.hpp:213 | `connect` changes no bucket other than the one at pos + rlength |
| Viterbi.FreshTiled | Lattice.hpp:71-80 | The fresh lattice is tiled: every bucket entry ends at its bucket's offset and every way in ends where its node starts |
| Viterbi.RelinkTiled | Lattice.hpp:210-213 | Placing a node in the bucket where it ends, with a way in that ends where it starts, keeps the lattice tiled |
| Viterbi.ConnectTiled | Lattice.hpp:200-214 | `connect` at pos of a node that starts at pos keeps the lattice tiled |
| Viterbi.ConnectOneTiled | Lattice.hpp:88-89 | Connecting the newest pending token keeps the invariants, tiling, and the rest pending at pos |
| Viterbi.ConnectAllTiled | Lattice.hpp:88-89 | Connecting every token of an offset keeps the lattice tiled |
| Viterbi.AppendTiled | Lattice.hpp:145-160 | Appending nodes made at pos keeps the lattice tiled, and they all start at pos |
| Viterbi.ExtendedTiled | Lattice.hpp:87 | The candidates of an offset keep the lattice tiled and all start there |
| Viterbi.StepTiled | Lattice.hpp:86-89 | One forward step keeps the lattice tiled |
| Viterbi.ForwardTiled | Lattice.hpp:85-90 | The forward pass keeps the lattice tiled |
| Viterbi.BacklinkFromEos | Lattice.hpp:97-98 | Linking back from EOS turns that chain into the `next` walk from BOS |
| Viterbi.BacklinkPath | Lattice.hpp:97-98 | Changing only `next` fields keeps a path and the nodes' placement |
| Viterbi.Walk | Lattice.hpp:105 | The `next` walk from i starts at i and stays in the arena |
| Viterbi.BlankSentenceSkipsBos | Lattice.hpp:101-109 | For every sentence where no word ends after offset 0 (the empty sentence, or white space only), with either incremental loop: bucket 0 is [EOS, BOS], the as-written `stringify` writes EOS only and omits BOS, and the corrected walk writes BOS then EOS |
| Viterbi.AnalyzeFinishes | Lattice.hpp:82-99 | `viterbi` is the forward pass followed by the EOS connection and the back-link walk |
| Viterbi.BlankEos | Lattice.hpp:92-96 | EOS connected at offset 0 has BOS as its way in and goes in front of it in bucket 0 |
| Viterbi.BlankFinish | Lattice.hpp:91-98 | With every bucket after offset 0 empty, bucket 0 becomes [EOS, BOS] and the `next` walk from BOS is BOS then EOS |
| Viterbi.BacklinkToBos | Lattice.hpp:97-98 | Linking back from a node whose way in is BOS makes the walk from BOS go straight to it |
| Viterbi.BlankStringify | Lattice.hpp:101-109 | With bucket 0 [EOS, BOS] and the walk BOS then EOS, the as-written `stringify` writes EOS only and the corrected one BOS then EOS |
| Viterbi.StringifyFromBos | Lattice.hpp:101-109 | When some bucket above 0 is used, with either incremental loop, bucket 0 is [BOS] and the as-written and corrected `stringify` agree |
| Analyzer.Lattice.constructor | Lattice.hpp:33 | A new analyzer has no engine, sentence, nodes, buckets or tokens, and a fresh writer |
| Analyzer.Lattice.NewNode | Lattice.hpp:111-130 | Appends the node to the arena and returns its index |
| Analyzer.Lattice.AddEntries | Lattice.hpp:145-152 | Appends one node per entry of the run. Their indices go to the front of `tokens`, newest first |
| Analyzer.Lattice.AddToken | Lattice.hpp:148 | Appends one node and pushes its index to the front of `tokens` |
| Analyzer.Lattice.AddNor | Lattice.hpp:145-152 | `addNor` appends the NORMAL nodes of one run |
| Analyzer.Lattice.AddUnk | Lattice.hpp:153-160 | `addUnk` appends the UNKNOWN nodes of one length |
| Analyzer.Lattice.AddNors | Lattice.hpp:172-174 | Appends the NORMAL nodes of every common-prefix run |
| Analyzer.Lattice.AddGrouped | Lattice.hpp:179-186 | Appends the grouped unknown word and returns the group end, as `Grouped` defines them |
| Analyzer.Lattice.AddIncremental | Lattice.hpp:188-198 | Appends the incremental unknown words, one length per round of `IncrementalEnds` |
| Analyzer.Lattice.IncrementalRound | Lattice.hpp:191-197 | One round of the incremental loop |
| Analyzer.Lattice.AddRound | Lattice.hpp:193 | One round's nodes extend the nodes added so far |
| Analyzer.NextRound | Lattice.hpp:192-197 | The round's stop decision and next length follow `IncrementalEnds` |
| Analyzer.Lattice.AddUnknown | Lattice.hpp:177-198 | Appends the unknown words `UnknownWords` defines |
| Analyzer.Lattice.AddWords | Lattice.hpp:171-198 | Appends the dictionary words and then, unless skipped, the unknown words |
| Analyzer.Lattice.Tokenize | Lattice.hpp:161-199 | `tokenize(pos)` appends exactly `Candidates` of the remainder. `tokens` lists them newest first, and the buckets are untouched |
| Analyzer.Lattice.SetEngine | Lattice.hpp:35-67 | Installs the loaded resources and changes nothing else |
| Analyzer.Lattice.Open | Lattice.hpp:35-69 | `open` succeeds iff the resources load and the writer accepts the configuration. The engine is the loaded one, and the writer's formats are the selected ones |
| Analyzer.Lattice.SetSentence | Lattice.hpp:71-80 | `setSentence` gives the writer the sentence and leaves the fresh lattice for it |
| Analyzer.Lattice.AddEndNode | Lattice.hpp:141-143 | `addEndNode` prepends the node to its bucket |
| Analyzer.CostAt | Lattice.hpp:204 | The matrix cell used is inside the matrix, and the path cost is `pred.cost + cell + rNode.wcost` |
| Analyzer.LinkCost | Lattice.hpp:204 | The cost computed inline is `PathCost`: the predecessor's cost, plus the matrix cell for the two connection ids, plus the word cost |
| Analyzer.BestWayIn | Lattice.hpp:201-209 | The scan over a bucket returns the first minimum of the path costs and its node |
| Analyzer.Lattice.Connect | Lattice.hpp:200-214 | `connect` leaves the lattice `V.Connect` defines |
| Analyzer.Lattice.ConnectTokens | Lattice.hpp:88-89 | Connecting every token leaves the lattice `ConnectAll` defines |
| Analyzer.Lattice.ConnectNewest | Lattice.hpp:88-89 | Connecting the newest pending token keeps the invariants and the rest pending |
| Analyzer.Lattice.ForwardStep | Lattice.hpp:86-89 | One offset of the forward loop leaves the lattice `Step` defines |
| Analyzer.Lattice.ForwardPass | Lattice.hpp:85-90 | The forward loop leaves the lattice `Forward` defines |
| Analyzer.Lattice.ConnectEos | Lattice.hpp:91-96 | Creates EOS, connects it to the last non-empty bucket and returns its index |
| Analyzer.Lattice.LinkBack | Lattice.hpp:97-98 | The back-link loop leaves the lattice `Backlink` defines |
| Analyzer.Lattice.Viterbi | Lattice.hpp:82-99 | `viterbi` leaves the lattice `Search` defines |
| Analyzer.Lattice.Stringify | Lattice.hpp:101-109 | `stringify` writes the `next` walk from BOS: each node with its format, stopping at the first failure |
| Analyzer.WrittenFrom | Lattice.hpp:105-107 | The text from node i is node i's text followed by the text from its successor, and a failure stops the output |
| Analyzer.ReadView | Lattice.hpp:194 | The classifier view of a remainder is `getCharInfo` at every byte offset |
| Writer.SelectFormats | Writer.hpp:23-51 | `open` fails iff `output-format-type` is set and `node-format-<type>` is empty or absent |
| Writer.DefaultFormats | Writer.hpp:28-31 | Without configuration the formats are `%m\t%H\n`, the same for UNKNOWN nodes, empty BOS, and `EOS\n` |
| Writer.UnkDefaultsToNor | Writer.hpp:29-47 | Without an UNKNOWN format, UNKNOWN nodes use the NORMAL format |
| Writer.TypedFormatsOverride | Writer.hpp:33-49 | With a format type, the typed keys override the untyped ones, and each falls back to them |
| Writer.Writer.constructor | Writer.hpp:21 | A new writer has empty formats and no sentence |
| Writer.Writer.Open | Writer.hpp:23-51 | `open` succeeds iff `SelectFormats` does, and then installs those formats |
| Writer.Writer.SetSentence | Writer.hpp:52-54 | `setSentence` stores the sentence and keeps the formats |
| Writer.Writer.WriteNode | Writer.hpp:55-63 | A node is rendered with the format of its status (nor/unk/bos/eos) |
| Writer.WriteFormat | Writer.hpp:71-161 | The template loop produces `Render` of the format |
| Writer.EscapeRoundTrip | Writer.hpp:184-199 | Each of `0 a b t n v f r s \` maps to its control character and back. Every other letter maps to NUL |
| Writer.FormatWithoutMacros | Writer.hpp:74-80 | A format without `%` copies plain characters and expands backslash escapes |
| Writer.PercentMacros | Writer.hpp:83-88 | `%%` writes one `%`, and an unknown `%x` writes `%x` verbatim |
| Writer.SurfaceMacros | Writer.hpp:89-100 | `%m` writes the `length` surface bytes and `%M` the `rlength` bytes ending there. `%L` writes the sentence length in decimal when it fits the 8-byte buffer, and nothing otherwise |
| Writer.Morph | Writer.hpp:95-96 | `%m` writes exactly `length` bytes |
| Writer.RawMorph | Writer.hpp:98-99 | `%M` writes `rlength` bytes, ending with the `%m` text |
| Writer.Decimal | Writer.hpp:65-70 | A number's decimal text is non-empty, with no leading zero |
| Writer.DecimalDigits | Writer.hpp:65-70 | A decimal text consists of digits |
| Writer.LengthTextFits | Writer.hpp:65-70 | The 8-byte buffer holds the decimal iff the number is below 10^8, and the text is empty otherwise |
| Writer.FindComma | Writer.hpp:175-177 | The comma search stops at a comma or at the end |
| Writer.Quoted | Writer.hpp:169-173 | The quoted-field scan moves forward within the input |
| Writer.ListField | Writer.hpp:127-137 | A listed field must exist and be non-empty. It is written iff it does not start with `*`: a `*` field leaves the output as it was and clears the separator flag; any other field is appended, after the separator iff the flag was set |
| Writer.FieldList | Writer.hpp:119-155 | A bracketed list ends past its start and no further than the format's terminator |
| Writer.FieldMacro | Writer.hpp:104-118 | `%f`/`%F` ends past the macro |
| Writer.Macro | Writer.hpp:81-157 | A `%` macro ends past the `%` |
| Writer.Step | Writer.hpp:73-158 | Every format step advances |
| Writer.WriteFields | Writer.hpp:104-155 | The `%f`/`%F` branch equals `FieldMacro` |
| Writer.WriteFieldList | Writer.hpp:119-155 | The bracket loop equals `FieldList` |
| Writer.WriteField | Writer.hpp:128-137 | One field write equals `ListField`: a `*` field writes nothing and clears the flag, any other field is appended after the separator iff the flag was set |
| Writer.DigitStep | Writer.hpp:123-125 | A digit updates the index as `n*10 + d` in size_t |
| Writer.DecimalRead | Writer.hpp:123-125 | Reading a number's decimal text gives back the number |
| Writer.FieldListReadsIndices | Writer.hpp:119-155 | A bracketed list of decimal indices selects exactly those fields, in order |
| Writer.FieldMacroSelects | Writer.hpp:104-155 | `%f[i,j,...]` on a node with features writes the selection of those fields |
| Writer.FieldMacroErrors | Writer.hpp:106-118 | `%f` fails on a node without features, on a missing `[`, and on a character other than a digit, `,` or `]` inside the brackets |
| Writer.SelectFails | Writer.hpp:128-150 | A field list fails iff some index is past the last field or names an empty field, and then with one of those two errors |
| Writer.FieldMacroFails | Writer.hpp:104-150 | `%f[i,j,...]` fails iff a listed index is out of range or names an empty field |
| Writer.SelectJoins | Writer.hpp:132-154 | With every listed field present and not starting with `*`, the output is those fields joined by the separator |
| Writer.SelectWritesPieces | Writer.hpp:120-154 | For every list of indices naming non-empty fields, the field list writes, in order, each field not starting with `*`, preceded by the separator exactly when the field listed just before it was written (`Pieces`, defined field by field) |
| Writer.SelectFrom | Writer.hpp:121-154 | From any listed field on, with the flag and output the earlier fields leave, the rest of the list completes `Pieces` |
| Writer.PieceWritten | Writer.hpp:132-137 | Writing one listed field, with the flag the field before it left, adds that field's contribution to `Pieces` and sets the flag iff the field does not start with `*` |
| Writer.StarResetsSeparator | Writer.hpp:132-154 | `[a,*,b]` writes field a and field b with no separator between them |
| Writer.AllStarredWritesNothing | Writer.hpp:132-154 | A list whose fields all start with `*` writes the empty string |
| Writer.SplitCsv | Writer.hpp:162-183 | The splitting loop returns `Fields` |
| Writer.NextField | Writer.hpp:166-180 | One field of the loop: the rest of the split continues after it |
| Writer.NextQuotedFieldAt | Writer.hpp:168-175 | One quoted field of the loop |
| Writer.ReadQuoted | Writer.hpp:169-173 | The quoted-value loop equals `Quoted` |
| Writer.FieldsFromSpace | Writer.hpp:167 | Leading white space is skipped |
| Writer.FieldsFromQuote | Writer.hpp:168-175 | A quoted field is its unquoted value. The split then resumes after the next comma |
| Writer.FieldsFromPlain | Writer.hpp:176-179 | An unquoted field runs to the next comma |
| Writer.PlainFieldAt | Writer.hpp:176-179 | A plain field in the input ends at its comma |
| Writer.PlainLastField | Writer.hpp:176-181 | A final plain field is kept unless it is empty |
| Writer.FieldsFromJoin | Writer.hpp:162-183 | Splitting comma-joined plain fields gives them back, apart from a trailing empty one |
| Writer.SplitJoinedPlain | Writer.hpp:162-183 | Round trip: `splitCsv` of plain fields joined by commas gives the fields back; empty middle fields are kept and a trailing empty one is dropped |
| Writer.QuotedReads | Writer.hpp:170-172 | Inside quotes, `""` reads as one `"` and a single quote ends the value |
| Writer.QuotedFieldAt | Writer.hpp:168-175 | A quoted field reads back as its value |
| Writer.FieldsFromQuoted | Writer.hpp:162-183 | Splitting quoted fields joined by commas gives them back |
| Writer.SplitJoinedQuoted | Writer.hpp:162-183 | Round trip: `splitCsv` of any fields, each quoted with `"` doubled, joined by commas, gives the fields back |
| Param.NameEnd | Param.hpp:30 | The long-option name ends at the first `=` or at the end |
| Param.FindLong | Param.hpp:35-40 | The first table entry whose name starts with the typed text, or none when no entry does |
| Param.FindShort | Param.hpp:58-63 | The first table entry with the given alias, or none |
| Param.EqualsAt | Param.hpp:124 | The first `=` of a line, or its end |
| Param.KeyLast | Param.hpp:130 | The key's trailing white space is stepped over, never past index 0 |
| Param.ValueStart | Param.hpp:132 | The value's leading white space is stepped over |
| Param.ParseLine | Param.hpp:123-133 | Empty, `#` and `;` lines are ignored, and a line without `=` is an error. Otherwise the key is the text before the first `=` minus trailing white space, and the value is the text after it minus leading white space |
| Param.Param.constructor | Param.hpp:21 | A new store is empty |
| Param.Param.Set | Param.hpp:113-115 | `set` stores the value, replacing any earlier one |
| Param.Param.Open | Param.hpp:23-81 | With no arguments nothing changes and the result is true. Otherwise the scan loop leaves the state `ParseFrom` defines |
| Param.Param.Load | Param.hpp:116-137 | The line loop leaves the state `LoadLines` defines |
| Param.ScanName | Param.hpp:30 | The name scan stops at `NameEnd` |
| Param.FindLongOption | Param.hpp:35-40 | The table loop returns `FindLong` |
| Param.FindShortOption | Param.hpp:58-63 | The table loop returns `FindShort` |
| Param.SplitLine | Param.hpp:123-133 | The per-line code returns `ParseLine` |
| Param.FindEquals | Param.hpp:124 | The `find('=')` scan returns `EqualsAt` |
| Param.TrimKey | Param.hpp:130 | The backward trim loop returns `KeyLast` |
| Param.SkipValueSpace | Param.hpp:132 | The forward skip loop returns `ValueStart` |
| Param.PlainArgumentsGoToRest | Param.hpp:77-78 | Arguments not starting with `-` are appended to the rest list in order, and the scan succeeds |
| Param.LoneDashSkipped | Param.hpp:55 | A lone `-` is neither an option nor a rest argument |
| Param.DoubleDashStops | Param.hpp:30-32 | A bare `--` ends the scan successfully and drops every later argument |
| Param.LongOptionWithValue | Param.hpp:35-46 | `--name=value` stores the value under the first entry the name prefixes, and fails when none does |
| Param.LongOptionWithNextArgument | Param.hpp:45-52 | `--name value` consumes the next argument, and fails when none is left |
| Param.ShortOption | Param.hpp:55-75 | `-xvalue` stores the attached text; `-x value` consumes the next argument and fails when none is left |
| Param.ParsedKeysAreOptionNames | Param.hpp:45-71 | Every key the scan adds is the long name of a table entry |
| Param.RestGrowsByPlainArguments | Param.hpp:77-78 | The rest list only grows, and only by arguments that do not start with `-` |
| Param.LoadKeepsExisting | Param.hpp:134 | Loading never replaces a stored value |
| Param.LoadedEntriesComeFromLines | Param.hpp:122-135 | Every key that loading adds comes, with its value, from a line of the file |
| Param.CommandLineWins | Param.hpp:104-115 | A value set on the command line is what `get` returns after loading the resource files |
| Param.FormattedLineReadsBack | Param.hpp:129-133 | Round trip: a line written `key = value` parses back to that key and value |

## Left out

- Mmap.hpp and Stream.hpp (memory-mapped files, choice of stdin/stdout or files) and the drivers mecab.cpp and tmecab.cpp are not part of this model. Resource files are given as byte sequences, and configuration files as sequences of lines.
- `Param::loadDictionaryResource`, `dumpConfig` and `restArgs` are left out: they read `HOME`, open files and print. `load` is modelled on the lines a file holds.
- Diagnostics written to `std::cerr` are not modelled; only the return values are.
- Dictionary.Open: `DIC_VERSION` comes from a header that is not part of this model, so the expected version is a parameter.
- Dictionary.ExactMatchSearch: a trie index past the unit array is read out of bounds in the source. The model treats it as a missing transition, as does Dictionary.CommonPrefixSearch.
- Dictionary.RunOf: the model computes `-n-1` on unbounded integers. For INT32_MIN the intermediate `-n` overflows int32, which is undefined behaviour in C++; the model gives the mathematical value 2^31-1, which is also what two's-complement wrap-around of the whole expression yields.
- Costs are unbounded integers. Viterbi.CostBound shows that costs stay within ±0x10000 per byte, so int64 overflow cannot happen for the sentences modelled.
- Analyzer.Lattice.Viterbi requires a sentence shorter than 65536 bytes. `length` and `rlength` are uint16: `NewNode` models their truncation, but a wrapped length of 0 would break the back-link walk's termination argument.
- Lattice.LoadedIsReady: the loader does not check that the files agree with each other (token ids inside the matrix, category ids inside the category list, no entry for the empty key). Readiness assumes this, and it is a precondition of the analysis.
- Writer.ListField: an empty listed field is the error `EmptyField`; the source calls `csv[n].at(0)`, which throws and, inside a `noexcept` function, terminates.
- Writer.Render: a format ending in `\` or `%` makes the source read past its terminator. The model reports `Overrun` instead.
- Param.ParseLine: a line whose first character is `=` makes the source index before the line (`pos - 1` wraps). The model reports it as a malformed line.
- Writer.Writer.WriteNode: the source caches the split feature fields across `%f` macros of one node. The model splits them afresh; the text is the same.
- Lattice.Read: the analysis takes the classifier's answers for a remainder as data (a reading). Lattice.Read builds that reading from `getCharInfo`, and Analyzer.ReadView ties the two together.
- Analyzer.Lattice.Stringify starts its walk at node 0, the BOS node: the corrected behaviour of the finding below. `Viterbi.StringifyAsWritten` keeps the as-written start.
- Analyzer.Lattice.Tokenize uses the corrected incremental loop (`inclusive` true); `Lattice.IncrementalEnds` with `inclusive` false is the as-written loop. The `Viterbi` functions (`Extended`, `AddCandidates`, `Step`, `Forward`, `Forwarded`, `Search`, `Analyze`) take `inclusive` as a parameter, and their lemmas hold for both loops; the `Analyzer.Lattice` methods use `inclusive` true.
- Lattice.LoadedEngine: the matrix is checked with the corrected `MatrixAccepted`, which rejects negative dimensions (Findings); the as-written check is `MatrixAcceptedAsWritten`. A matrix with negative dimensions that the source accepts is a load failure in the model.
- Lattice.Load: returns `LoadedEngine`, so it uses the corrected matrix check as well.
- Analyzer.Lattice.Open: installs `Lattice.Load`'s engine, so it uses the corrected matrix check as well.
- Analyzer.Lattice.Open: a failed open leaves the engine unchanged here, while the source has already replaced `sysdic_`, `unkdic_` and `property_`, appended to `unk_da_` and set `space_` for the checks that passed before the failing one. The engine is installed whole on success, so a second successful open does not keep the first load's category runs in front of its own, as `unk_da_.emplace_back` would. The drivers exit when `open` fails, so they never see the partial state.
- CharProperty.GetCharInfo: looks the key up with the corrected `GetCharInfoKey` (Findings), which gives record 0 for key 0xFFFF where the source reads one record past the table; `GetCharInfoAsWritten` is the as-written lookup.
- Lattice.GroupedAtMostMax: follows the code. `MAX_GROUPING_SIZE` (24) bounds `clen`, the characters after the first (Lattice.hpp:183), not the length of the run, so a run of 25 characters is still grouped (Lattice.GroupsTwentyFive).
- Node addresses, `std::forward_list` node storage and the memory reuse of `nodeList_` are represented by arena indices.

## Findings

| source | as written | input that shows it | evidently intended | confidence | as-written member | corrected member |
|---|---|---|---|---|---|---|
| CharProperty.hpp:36-40, 65-69 | the table holds 0xFFFF records, indices 0..0xFFFE, while the decoder can yield key 0xFFFF | bytes EF BF BF (U+FFFF) decode to key 0xFFFF, one past the table | a table of 0x10000 records, or a lookup that stays inside the table | medium, not executed | CharProperty.KeyFFFFOutsideTable | CharProperty.GetCharInfoKey |
| Lattice.hpp:57-66 | the matrix size check multiplies the int16 dimensions after casting them to size_t | a matrix file `[-1, -1, 0]`: (2^64-1)^2 + 2 wraps to 3, the file size | reject negative dimensions | medium, not executed | Lattice.NegativeDimensionsAccepted | Lattice.CellInMatrix |
| Lattice.hpp:191 | the incremental loop runs only while `tail < end`, so the word reaching the end of the sentence is never added | a final character of a non-`group` category with no dictionary entry gets no candidate, and EOS cannot connect through it | `tail <= end`, so that the last character gets an unknown word | medium, not executed | Lattice.FinalCharacterDroppedAsWritten | Lattice.EveryStartHasWords |
| Lattice.hpp:91-96, 105, 137 | `stringify` starts at the front of bucket 0, where EOS is prepended for the empty sentence | the empty sentence, or any sentence of white space only (no word ends after offset 0): bucket 0 is [EOS, BOS], so the walk writes EOS only and skips BOS | start the walk at the BOS node | low, not executed | Viterbi.BlankSentenceSkipsBos | Viterbi.StringifyFromBos |
