# SwiftTokenizer byte-level BPE, modelled in Dafny

This project models the algorithmic core of `Tokenizer` in
`Sources/SwiftTokenizer/Tokenizer.swift`, a byte-level BPE (byte-pair
encoding) tokenizer of the kind used by GPT-2 and BART. Each part below is
modelled and has properties proved about it:

- **Rank table.** `BytePair`, and the loop in `init` that turns the lines
  of a merges file into a rank table. Line `i ≥ 1` ranks its first two
  space-separated fields at `i - 1`. A later line overrides an earlier one.
- **Greedy merge.** `getPairs` and `bpe`.
  - A token starts as one fragment per character.
  - Each round picks the lowest-ranked adjacent pair among those present in
    the rank table.
  - It merges every non-overlapping occurrence of that pair in one
    left-to-right pass.
  - This repeats until no adjacent pair is ranked or a single fragment is
    left. The fragments are then joined with single spaces.
- **Reserved ids.** `appendBOS`, `appendEOS`, `stripBOS` and `stripEOS`
  add or remove the ids of `<s>` and `</s>`.
- **Pipeline.** `tokenize`, `encode` and `decode` chain these stages:
  pre-tokenize → map bytes to characters → merge each chunk → split on
  spaces → look up vocabulary ids, and back.

The model has one module per file:

| file | module | contents |
|---|---|---|
| `wrappers.dfy` | `Wrappers` | `Option` and `Result` |
| `strings.dfy` | `Strings` | `joined()`, `joined(separator:)` and `split(separator:)` |
| `lookup.dfy` | `Lookup` | a forced (`!`) dictionary lookup applied to every element of a sequence |
| `merge_ranks.dfy` | `MergeRanks` | `BytePair` and rank-table construction |
| `bpe.dfy` | `BpeEngine` | reference functions for the merge, and methods that follow the source's loops |
| `tokenizer.dfy` | `Tokenizers` | the `Tokenizer` facade |
| `scenario.dfy` | `Scenario` | a worked example: the merges `#version: 0.2`, `h e`, `e l`, `l l o` applied to `hello` |

A Swift trap (a failed `!`, an index out of range, or the empty range
`1 ..< 0`) becomes a `Failure` value that names the cause. The source's
`Int` is modelled as an unbounded `int`.

Four behaviours of the code are easy to miss; the model follows the code:

- **Merge lines with extra fields.** A merge line with more than two fields
  is accepted, and its extra fields are ignored. `BytePair(tuple:)` reads
  only `tuple[0]` and `tuple[1]`. Only a line with fewer than two fields
  fails.
- **Empty lines.** Empty lines in the merges text are dropped before
  ranking, because `split(separator:)` omits empty pieces. Later lines
  therefore take the ranks of earlier line numbers
  (`MergeRanks.MergeLinesBlank`).
- **Stripping an empty list.** `stripBOS` and `stripEOS` on an empty id
  list are an error (the source traps on `tokens[0]` and on
  `tokens[tokens.count - 1]`), not a no-op.
- **Invalid UTF-8.** `decode` does not report invalid UTF-8: the source
  hands the bytes to `String(decoding:as:)`, which substitutes replacement
  characters. The model stops at the byte sequence.

## Model

| member | source | states |
|---|---|---|
| MergeRanks.MergeLines | Sources/SwiftTokenizer/Tokenizer.swift:52 | the merges text becomes lines that are all non-empty and free of newlines, and together they spell the text with its newlines removed; the four lemmas below fix where it cuts |
| MergeRanks.MergeLinesCut | Sources/SwiftTokenizer/Tokenizer.swift:52 | every newline cuts the merges text: the lines before it and after it are read independently |
| MergeRanks.MergeLinesOne | Sources/SwiftTokenizer/Tokenizer.swift:52 | non-empty, newline-free text is exactly one line |
| MergeRanks.MergeLinesTrailing | Sources/SwiftTokenizer/Tokenizer.swift:52 | a newline at the end of the file adds no line |
| MergeRanks.MergeLinesBlank | Sources/SwiftTokenizer/Tokenizer.swift:52 | a blank line is dropped, so the line after it takes its line number and hence its rank |
| MergeRanks.ParseMergeLine | Sources/SwiftTokenizer/Tokenizer.swift:55-56 | a line is malformed exactly when it has fewer than two space-separated fields; otherwise both fields of the pair are non-empty and space-free |
| MergeRanks.ParseMergeLineRoundTrip | Sources/SwiftTokenizer/Tokenizer.swift:55-56 | a line made of two space-free, non-empty fields joined by one space parses back to exactly that pair, field order kept |
| MergeRanks.ParseMergeLineFields | Sources/SwiftTokenizer/Tokenizer.swift:18-21 | a line of space-separated fields names the pair of its first two fields whatever follows them, and with fewer than two fields it is malformed |
| MergeRanks.RankTableInjective | Sources/SwiftTokenizer/Tokenizer.swift:54-58 | in any table built from merge lines, distinct pairs have distinct ranks |
| MergeRanks.BuildRanks | Sources/SwiftTokenizer/Tokenizer.swift:52-58 | fails with `EmptyMergeList` on no lines (the range `1 ..< 0` traps); otherwise fails at the first line `i ≥ 1` with fewer than two fields, and succeeds exactly when no such line exists; on success the key set is the pairs of lines 1 and later, each ranked by the index of the last line naming it minus one (later lines override earlier ones), line 0 is never ranked for itself, and the ranks are injective |
| Strings.Concat | Sources/SwiftTokenizer/Tokenizer.swift:173 | joining with no separator: no pieces give the empty text, and otherwise the text starts with the first piece; `ConcatCons` (one piece in front adds exactly that piece in front) pins it down, and `ConcatAppend` and `ConcatMembers` follow |
| Strings.ConcatMembers | Sources/SwiftTokenizer/Tokenizer.swift:74 | every element of every piece occurs in the joined text, and every element of the joined text comes from some piece |
| Strings.ConcatAppend | Sources/SwiftTokenizer/Tokenizer.swift:173 | joining two lists of pieces placed end to end gives the two joined texts placed end to end |
| Strings.JoinSep | Sources/SwiftTokenizer/Tokenizer.swift:134 | joining n ≥ 1 pieces with a separator is as long as the pieces together plus n − 1 separators; `SplitJoinSep` is its inverse |
| Strings.Split | Sources/SwiftTokenizer/Tokenizer.swift:52 | every piece `split(separator:)` returns is non-empty and free of the separator; `SplitSep`, `SplitWhole`, `SplitConcat` and `SplitJoinSep` fix where it cuts |
| Strings.SplitSep | Sources/SwiftTokenizer/Tokenizer.swift:52 | every separator cuts: the text on its two sides is split independently, so runs of separators and separators at either end give no pieces |
| Strings.SplitWhole | Sources/SwiftTokenizer/Tokenizer.swift:55 | non-empty text without the separator is a single piece, itself |
| Strings.SplitConcat | Sources/SwiftTokenizer/Tokenizer.swift:52 | splitting loses exactly the separators: the pieces concatenate to the text with every separator removed |
| Strings.SplitJoinSep | Sources/SwiftTokenizer/Tokenizer.swift:162 | splitting on the separator inverts joining with it, for non-empty separator-free pieces: `tokenize` recovers exactly the fragments `bpe` joined |
| Lookup.LookupAll | Sources/SwiftTokenizer/Tokenizer.swift:169 | a forced lookup of every key: succeeds exactly when all keys are present, the values line up with the keys, and a failure names the first missing key |
| Lookup.LookupAllInverse | Sources/SwiftTokenizer/Tokenizer.swift:67 | looking keys up and then looking the values up in an inverse map gives back the keys |
| Lookup.LookupAllAppend | Sources/SwiftTokenizer/Tokenizer.swift:173-174 | looking up a concatenation gives the concatenation of the lookups |
| BpeEngine.LowestUnique | Sources/SwiftTokenizer/Tokenizer.swift:103-105 | with injective ranks the lowest-ranked adjacent pair is unique, so the result of `min` does not depend on the order the set is visited in |
| BpeEngine.Chars | Sources/SwiftTokenizer/Tokenizer.swift:95 | the initial word has one single-character fragment per character of the token, in order, and spells the token |
| BpeEngine.AdjacentPairs | Sources/SwiftTokenizer/Tokenizer.swift:78-88 | a pair is listed exactly when it occurs as two neighbouring fragments of the word |
| BpeEngine.GetPairs | Sources/SwiftTokenizer/Tokenizer.swift:78-88 | the returned set holds a pair if and only if it occurs as two neighbouring fragments |
| BpeEngine.ArrayOf | Sources/SwiftTokenizer/Tokenizer.swift:96 | turning the set into an array keeps exactly its elements, each once, in an unspecified order |
| BpeEngine.LowestFrom | Sources/SwiftTokenizer/Tokenizer.swift:99-105 | filter followed by `min(by:)`: no result if and only if nothing is ranked; otherwise a ranked candidate whose rank is at most that of every ranked candidate |
| BpeEngine.LowestRanked | Sources/SwiftTokenizer/Tokenizer.swift:99-105 | none if and only if no candidate is in the rank table (the loop's exit at line 100); otherwise a ranked candidate of minimum rank |
| BpeEngine.FirstIndex | Sources/SwiftTokenizer/Tokenizer.swift:111 | `firstIndex(of:)` on a suffix: the index found holds the fragment, and no earlier index from the start position does; none means no occurrence |
| BpeEngine.MergePass | Sources/SwiftTokenizer/Tokenizer.swift:106-127 | the reference merge pass never lengthens the word and keeps a non-empty word non-empty; its partners below state what it keeps and when it shrinks |
| BpeEngine.MergePassConcat | Sources/SwiftTokenizer/Tokenizer.swift:106-127 | one merge pass leaves the concatenation of the fragments unchanged |
| BpeEngine.MergePassShrinks | Sources/SwiftTokenizer/Tokenizer.swift:106-127 | if the pair occurs adjacently, the pass strictly shortens the word |
| BpeEngine.MergePassAbsent | Sources/SwiftTokenizer/Tokenizer.swift:106-127 | if the pair does not occur, the pass returns the word unchanged |
| BpeEngine.MergePassPieces | Sources/SwiftTokenizer/Tokenizer.swift:119-121 | if every fragment is non-empty and free of a separator character, every fragment after the pass is too |
| BpeEngine.MergePassSkip | Sources/SwiftTokenizer/Tokenizer.swift:111-113 | fragments before the next occurrence of the pair's left fragment are copied unchanged |
| BpeEngine.MergePassHead | Sources/SwiftTokenizer/Tokenizer.swift:119-125 | at a position holding the pair, the pass emits the merged fragment and skips two; otherwise it copies one fragment |
| BpeEngine.MergeOccurrences | Sources/SwiftTokenizer/Tokenizer.swift:106-127 | the source's jump-and-copy loop computes exactly the left-to-right non-overlapping merge pass, keeps the concatenation, and strictly shortens the word when the pair occurs |
| BpeEngine.BpeWord | Sources/SwiftTokenizer/Tokenizer.swift:98-133 | the complete merge keeps the text the fragments spell, never lengthens the word, ends with no adjacent pair ranked, and keeps fragments free of a separator that no input fragment contained |
| BpeEngine.BpeWordStop | Sources/SwiftTokenizer/Tokenizer.swift:99-102 | a word with no ranked adjacent pair is returned as it is |
| BpeEngine.BpeWordStep | Sources/SwiftTokenizer/Tokenizer.swift:99-131 | with injective ranks, merging continues from the pass over the lowest-ranked adjacent pair, whichever order candidates are visited in |
| BpeEngine.BpeRef | Sources/SwiftTokenizer/Tokenizer.swift:90-135 | tokens of at most one character come back unchanged; for space-free tokens, splitting the result on spaces gives at most as many fragments as characters, they concatenate to the token, and no adjacent pair of them is ranked |
| BpeEngine.Bpe | Sources/SwiftTokenizer/Tokenizer.swift:90-135 | tokens of at most one character come back unchanged; with injective ranks the result, over any set-iteration order, equals the reference merge; for space-free tokens the split fragments spell the token and no adjacent pair is ranked; the number of rounds is less than the token's length |
| Tokenizers.Init | Sources/SwiftTokenizer/Tokenizer.swift:50-67 | construction succeeds exactly when rank-table construction does, and the tokenizer holds that rank table (injective) with the given vocabulary, inverse, byte map and pre-tokenizer |
| Tokenizers.EncodeBytes | Sources/SwiftTokenizer/Tokenizer.swift:74 | each byte is replaced by its mapped character, position by position; it cannot fail with a total byte map, and then the result contains no space |
| Tokenizers.ByteEncode | Sources/SwiftTokenizer/Tokenizer.swift:70-76 | with a total byte map it cannot fail and gives one string per pre-tokenizer chunk; when the chunks spell the text, the strings concatenate to the byte mapping of the whole text |
| Tokenizers.EncodeChunks | Sources/SwiftTokenizer/Tokenizer.swift:73-75 | one encoded string per pre-tokenizer chunk, each the byte mapping of its chunk; it cannot fail with a total byte map |
| Tokenizers.EncodeChunksConcat | Sources/SwiftTokenizer/Tokenizer.swift:70-76 | byte-mapping chunk by chunk and concatenating equals byte-mapping the concatenated chunks |
| Tokenizers.BpeChunks | Sources/SwiftTokenizer/Tokenizer.swift:159-166 | the fragments are non-empty and space-free, and for space-free chunks they spell the chunks' concatenation |
| Tokenizers.BpeChunksAppend | Sources/SwiftTokenizer/Tokenizer.swift:160-165 | chunks are merged independently: the fragments of two chunk lists placed end to end are the fragments of each, in order |
| Tokenizers.BpeChunksSingle | Sources/SwiftTokenizer/Tokenizer.swift:161-163 | the fragments of one space-free chunk are `bpe` of that chunk split on spaces; they spell the chunk, and no adjacent pair of them is ranked |
| Tokenizers.Tokenize | Sources/SwiftTokenizer/Tokenizer.swift:159-166 | with a total byte map tokenizing cannot fail, every fragment is non-empty and free of spaces, and the fragments spell the byte-mapped chunks |
| Tokenizers.Encode | Sources/SwiftTokenizer/Tokenizer.swift:168-170 | on success one id per fragment, each the fragment's vocabulary id; with a total byte map a failure names a produced fragment that the vocabulary lacks |
| Tokenizers.Decode | Sources/SwiftTokenizer/Tokenizer.swift:172-174 | fails only with `UnknownId` or `UnmappedChar`; fails with `UnknownId` exactly when some id is unknown, naming such an id; an `UnmappedChar` failure names a character the byte decoder lacks; succeeds when every id is known and every character of the ids' fragments is mapped; on success byte k is the byte decoder's value for character k of the ids' fragments concatenated |
| Tokenizers.DecodeAppend | Sources/SwiftTokenizer/Tokenizer.swift:172-174 | decoding two id lists placed end to end gives the bytes of each, in order |
| Tokenizers.AppendBos | Sources/SwiftTokenizer/Tokenizer.swift:137-139 | succeeds exactly when `<s>` is in the vocabulary; the `<s>` id is at index 0 and the input follows unchanged |
| Tokenizers.AppendEos | Sources/SwiftTokenizer/Tokenizer.swift:141-143 | succeeds exactly when `</s>` is in the vocabulary; the `</s>` id is last and the input precedes it unchanged |
| Tokenizers.StripBos | Sources/SwiftTokenizer/Tokenizer.swift:145-150 | an empty input fails; otherwise succeeds exactly when `<s>` is known; a leading `<s>` id is removed so that appending it restores the input, and any other input is returned unchanged |
| Tokenizers.StripEos | Sources/SwiftTokenizer/Tokenizer.swift:152-157 | an empty input fails; otherwise succeeds exactly when `</s>` is known; a trailing `</s>` id is removed so that appending it restores the input, and any other input is returned unchanged |
| Tokenizers.StripBosAppendBos | Sources/SwiftTokenizer/Tokenizer.swift:137-150 | `stripBOS(appendBOS(ids)) == ids` |
| Tokenizers.StripEosAppendEos | Sources/SwiftTokenizer/Tokenizer.swift:141-157 | `stripEOS(appendEOS(ids)) == ids` |
| Tokenizers.EncodeDecodeRoundTrip | Sources/SwiftTokenizer/Tokenizer.swift:159-174 | for a lossless pre-tokenizer, a byte map inverted by its decoder and a vocabulary inverted by its inverse, decoding the ids of a successful encode gives back the text's bytes, whatever the ranks |
| Tokenizers.FramedRoundTrip | Tests/SwiftTokenizerTests/SwiftTokenizerTests.swift:33-47 | the two tests together: the framed ids start with `<s>`, end with `</s>`, strip back to the encoded ids, and decode to the text |
| Scenario.HelloRankTable | Sources/SwiftTokenizer/Tokenizer.swift:54-58 | the merges `#version: 0.2`, `h e`, `e l`, `l l o` rank `(h,e)`, `(e,l)`, `(l,l)` at 0, 1, 2 and nothing else; the header is not ranked |
| Scenario.HelloRound1 | Sources/SwiftTokenizer/Tokenizer.swift:99-127 | on `h e l l o` the lowest-ranked adjacent pair is `(h,e)`, and its pass gives `he l l o` |
| Scenario.HelloRound2 | Sources/SwiftTokenizer/Tokenizer.swift:99-127 | on `he l l o` the lowest-ranked adjacent pair is `(l,l)` (`(e,l)` no longer occurs), and its pass gives `he ll o` |
| Scenario.HelloRound3 | Sources/SwiftTokenizer/Tokenizer.swift:99-102 | no adjacent pair of `he ll o` is ranked, so merging stops |
| Scenario.HelloMerge | Sources/SwiftTokenizer/Tokenizer.swift:90-135 | under the rank table read from that merges list, `bpe("hello")` is `he ll o` |

## Left out

- Reading the merges file and the vocabulary JSON (Tokenizer.swift:51, 62-65): this is file I/O and foreign parsing. The merge lines, the vocabulary and its inverse are inputs to `Tokenizers.Init`.
- Splitting the merges text into lines (Tokenizer.swift:52) is modelled as `MergeRanks.MergeLines`, but `Init` takes the lines already split.
- The regex pre-tokenizer and the `ranges(of:)` helper (Tokenizer.swift:34-42, 71-72): they depend on Foundation's regex engine and Unicode classes. The pre-tokenizer is a field `preTokenize` of arbitrary behaviour. The round-trip lemmas require only that its chunks concatenate to the text.
- The contents of `byteEncoder`, `byteDecoder` and `Utils.invert` (used at Tokenizer.swift:67, 74, 174): they are defined outside this file. They are parameters. The round-trip lemmas require the byte map to be total, to be inverted by its decoder and never to produce a space, and the vocabulary's inverse to invert it.
- Tokenizers.Decode: stops at the byte sequence, because UTF-8 decoding with replacement characters (Tokenizer.swift:175) belongs to the Swift standard library.
- Text is modelled as its UTF-8 bytes, and a Swift `Character` (an extended grapheme cluster) as one `char` (a Unicode scalar value). So `token.count <= 1` at Tokenizer.swift:91 and `Array(token)` at line 95 count Unicode scalar values, not graphemes. After byte mapping every character is a single printable scalar, so the two agree on the tokens `bpe` receives from `tokenize`; they can disagree on the merges text (next line). Swift's `String ==` and dictionary hashing also use canonical equivalence, while the model compares scalar by scalar; this touches `BytePair ==` (lines 23-25), `firstIndex(of:)` (line 111), the rank and vocabulary lookups, and the byte decoder lookup of each character in `decode` (line 174). On byte-mapped text the two comparisons agree, as long as the byte map's characters are single scalars of which no two different sequences are canonically equivalent (as for the usual GPT-2 byte map, which uses no combining marks).
- MergeRanks.MergeLines: splits on every `'\n'` scalar. Swift's `split(separator: "\n")` compares `Character`s, and `"\r\n"` is one `Character`, so a merges file with CRLF line ends is not split at all in Swift (one line, an empty rank table), while the model splits it into lines that end in `'\r'`.
- Tokenizers.Tokenize: the `Tokenizer` value does not itself require injective ranks. `Tokenizers.Init` ensures them, as every table built from merge lines has them; on a hand-built value with tied ranks, `Tokenize` uses the reference merge's scan-order tie-break, which has no counterpart in the Swift code.
- `Set` hashing and iteration order (Tokenizer.swift:27-30, 96): `BpeEngine.ArrayOf` chooses an arbitrary order. `BpeEngine.Bpe` is proved equal to the order-free reference only for injective ranks. Every table built from merge lines is injective.
- BpeEngine.Bpe: for ranks that are not injective, only the properties that hold for every order are stated (length, concatenation, final state), not which tie is chosen.
- BpeEngine.GetPairs: requires a non-empty word, because the range `0 ..< word.count - 1` traps on an empty one. `bpe` only calls it on words of at least two fragments.
- The redundant `word.count == 1` exit (Tokenizer.swift:128-129) is kept in `BpeEngine.Bpe`. A single fragment has no adjacent pair, so the reference `BpeWord` needs no such case.
- Swift's `Int` traps on overflow rather than wrapping. No arithmetic in this code (`i - 1`, `i += 2`, `word.count - 1`) can reach the 64-bit bound, so ids and ranks are unbounded integers; ranks are bounded by the number of merge lines.
- The test fixture loading through `Bundle.module` (SwiftTokenizerTests.swift:16-29) is test-data plumbing. `Tokenizers.FramedRoundTrip` states the two tests for every text and tokenizer that meet its requirements.
