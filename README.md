# aimobileapp tokenization and generation core, in Dafny

This project models the text-side core of the aimobileapp Android client. It has four parts:

- **GPT-2 byte table.** `byteEncoder` is the constant table from the 256 byte values to one-character strings. `byteDecoder` is its inverse, built with `associateBy`. They are in `byte_codec.dfy`, module `CodegenByteCodec`.
- **BERT basic tokenizer.** It has four steps:
  - `cleanText` drops invalid and control characters and maps whitespace to a space.
  - `whitespaceTokenize` splits on a space and drops only the trailing empty pieces.
  - `runSplitOnPunc` cuts a word around its punctuation.
  - `tokenize` chains them.

  This is `basic_tokenizer.dfy`, module `BasicTokenization`, with the class `BasicTokenizer`.
- **Word-level BERT tokenizer.** `normalize` lower-cases, filters, collapses whitespace, trims and splits the text. `pretokenize` adds `[CLS]`/`[SEP]`. `encode` looks every word up, with 100 for unknown words. This is `bert_tokenizer.dfy`, module `BertTokenization`.
- **GPT-2 client.** It is in three modules:
  - `sampling.dfy` (`Sampling`) covers `argmax`, `randomIndex` and `sample`, the top-k selection, the softmax, and the choice of the next token.
  - `generation.dfy` (`Generation`) covers the 64-token window and the generation loop.
  - `loaders.dfy` (`Loaders`) parses the merge ranks and the BERT dictionary from their lines.

  `ml/Client.kt` and `ml/GPT2Client.kt` hold the same code, so both are modelled once and the table cites `Client.kt`. The `GPT2Client.kt` counterparts are:
  - `generate`, lines 79-118 (window 82-83, top-k 92-97, softmax 100-104, choice 92-110);
  - `loadBpeRanks`, lines 148-162;
  - `randomIndex`, lines 165-177; `sample`, lines 179-182; `argmax`, lines 184-193;
  - the decoder, line 56.

Shared pieces:

- `wrappers.dfy` holds `Option`, `Result` and the exceptions the source throws.
- `text.dfy` holds Kotlin's `split`, `joinToString`, concatenation, trimming and ASCII lower-casing.
- `associations.dfy` models a `HashMap` filled by `put` calls, where the last put of a key wins, and `associateBy`.

A thrown exception becomes an `Err` value of `Result`, named after the exception: `NullPointer`, `IndexOutOfBounds`, `IllegalArgument` and `NoSuchElement`. A nullable `String?` argument becomes an `Option<string>`.

Some inputs come from outside the model and are passed in as parameters:

- the TFLite model, as `infer`, a function from a window and a row number to a row of logits;
- the exponential, as `exp`, any function with positive values;
- each random draw, as `u`, or `draw(i)` for step `i`, a real in [0, 1);
- the `CharChecker` character classes, as a `CharClasses` value.

The loops of the source are methods. Each method is proved equal to a specification function, and the lemmas state the properties of that function.

## Model

| member | source | states |
|---|---|---|
| CodegenByteCodec.ByteEncoder | app/src/main/java/io/github/zap8600/aimobileapp/tokenization/CodegenTokenizer/CodegenByteEncoderDecoder.kt:3-262 | the table has exactly the keys 0..255, each holding a one-character string |
| CodegenByteCodec.EncoderEntries | app/src/main/java/io/github/zap8600/aimobileapp/tokenization/CodegenTokenizer/CodegenByteEncoderDecoder.kt:264-265 | the entries `associateBy` walks: 256 of them, entry b being byte b with its string (ascending-key iteration order) |
| CodegenByteCodec.EncoderAscii | app/src/main/java/io/github/zap8600/aimobileapp/tokenization/CodegenTokenizer/CodegenByteEncoderDecoder.kt:5-98 | bytes 33..126 keep their own code point |
| CodegenByteCodec.EncoderLatin1 | app/src/main/java/io/github/zap8600/aimobileapp/tokenization/CodegenTokenizer/CodegenByteEncoderDecoder.kt:99-192 | bytes 161..172, 174..196 and 234..255 keep their own code point |
| CodegenByteCodec.EncoderShifted | app/src/main/java/io/github/zap8600/aimobileapp/tokenization/CodegenTokenizer/CodegenByteEncoderDecoder.kt:134-170 | bytes 197..233 hold the code point one above their own |
| CodegenByteCodec.EncoderRemappedLow | app/src/main/java/io/github/zap8600/aimobileapp/tokenization/CodegenTokenizer/CodegenByteEncoderDecoder.kt:193-225 | bytes 0..32 go to U+0100 + b |
| CodegenByteCodec.EncoderRemappedHigh | app/src/main/java/io/github/zap8600/aimobileapp/tokenization/CodegenTokenizer/CodegenByteEncoderDecoder.kt:226-259 | bytes 127..160 go to U+0121 + (b - 127) |
| CodegenByteCodec.EncoderRemappedSoftHyphen | app/src/main/java/io/github/zap8600/aimobileapp/tokenization/CodegenTokenizer/CodegenByteEncoderDecoder.kt:260 | byte 173 goes to U+0143 |
| CodegenByteCodec.EncoderCollision | app/src/main/java/io/github/zap8600/aimobileapp/tokenization/CodegenTokenizer/CodegenByteEncoderDecoder.kt:134-171 | 233 and 234 both give "ê", this is the only pair of bytes sharing a string, and no byte gives "Å" |
| CodegenByteCodec.DecoderKeys | app/src/main/java/io/github/zap8600/aimobileapp/tokenization/CodegenTokenizer/CodegenByteEncoderDecoder.kt:264-266 | the decoder's keys are exactly the encoder's strings |
| CodegenByteCodec.ByteDecoder | app/src/main/java/io/github/zap8600/aimobileapp/tokenization/CodegenTokenizer/CodegenByteEncoderDecoder.kt:264-266 | definition: `associateBy` over the encoder's entries; its properties are DecoderKeys, DecoderRoundTrip, DecoderKeysKept, DecoderSize and DecoderLacksARing |
| CodegenByteCodec.DecoderRoundTrip | app/src/main/java/io/github/zap8600/aimobileapp/tokenization/CodegenTokenizer/CodegenByteEncoderDecoder.kt:264-266 | decoding the encoding of any byte but 233 gives the byte back; "ê" decodes to 234, the later entry |
| CodegenByteCodec.DecoderKeysKept | app/src/main/java/io/github/zap8600/aimobileapp/tokenization/CodegenTokenizer/CodegenByteEncoderDecoder.kt:264-266 | the decoder's keys are the strings of the 255 bytes other than 233 |
| CodegenByteCodec.DecoderSize | app/src/main/java/io/github/zap8600/aimobileapp/tokenization/CodegenTokenizer/CodegenByteEncoderDecoder.kt:264-266 | the decoder has 255 entries, one fewer than the encoder |
| CodegenByteCodec.DecoderLacksARing | app/src/main/java/io/github/zap8600/aimobileapp/tokenization/CodegenTokenizer/CodegenByteEncoderDecoder.kt:264-266 | "Å" cannot be decoded |
| CodegenByteCodec.InjectiveTableRoundTrip | app/src/main/java/io/github/zap8600/aimobileapp/tokenization/CodegenTokenizer/CodegenByteEncoderDecoder.kt:264-266 | for any table without collisions, the `associateBy` inverse sends every byte's string back to the byte |
| CodegenByteCodec.InjectiveTableSize | app/src/main/java/io/github/zap8600/aimobileapp/tokenization/CodegenTokenizer/CodegenByteEncoderDecoder.kt:264-266 | for any table without collisions, the inverse has 256 entries |
| CodegenByteCodec.IntendedChar | app/src/main/java/io/github/zap8600/aimobileapp/tokenization/CodegenTokenizer/CodegenByteEncoderDecoder.kt:5-260 | the GPT-2 byte-to-Unicode table: printable ranges keep their code point, the other 68 bytes go in order to U+0100 and up |
| CodegenByteCodec.IntendedInjective | app/src/main/java/io/github/zap8600/aimobileapp/tokenization/CodegenTokenizer/CodegenByteEncoderDecoder.kt:5-260 | the intended table gives distinct bytes distinct characters |
| CodegenByteCodec.IntendedRoundTrip | app/src/main/java/io/github/zap8600/aimobileapp/tokenization/CodegenTokenizer/CodegenByteEncoderDecoder.kt:264-266 | with the intended table, decoding undoes encoding on all 256 bytes, and the decoder has 256 entries |
| CodegenByteCodec.EncoderAgreesWithIntended | app/src/main/java/io/github/zap8600/aimobileapp/tokenization/CodegenTokenizer/CodegenByteEncoderDecoder.kt:5-260 | the source's table equals the intended one outside 197..233 |
| CodegenByteCodec.EncoderDiffersFromIntended | app/src/main/java/io/github/zap8600/aimobileapp/tokenization/CodegenTokenizer/CodegenByteEncoderDecoder.kt:134-170 | on 197..233 the source's table holds the next byte's intended character, never the byte's own |
| BasicTokenization.Cleaned | app/src/main/java/io/github/zap8600/aimobileapp/tokenization/BasicTokenizer.kt:48-61 | cleaning never lengthens the text |
| BasicTokenization.CleanText | app/src/main/java/io/github/zap8600/aimobileapp/tokenization/BasicTokenizer.kt:44-62 | a null text throws `NullPointerException`; otherwise the loop builds exactly the cleaned text |
| BasicTokenization.CleanedAppend | app/src/main/java/io/github/zap8600/aimobileapp/tokenization/BasicTokenizer.kt:49-60 | cleaning works character by character: it distributes over concatenation |
| BasicTokenization.CleanedChars | app/src/main/java/io/github/zap8600/aimobileapp/tokenization/BasicTokenizer.kt:49-60 | every character of the result is a space, or an input character that is neither skipped nor whitespace |
| BasicTokenization.CleanedKeepsOrdinary | app/src/main/java/io/github/zap8600/aimobileapp/tokenization/BasicTokenizer.kt:49-60 | a text with no skipped or whitespace character comes back unchanged, so kept characters stay in order |
| BasicTokenization.CleanedIdempotent | app/src/main/java/io/github/zap8600/aimobileapp/tokenization/BasicTokenizer.kt:44-62 | cleaning twice equals cleaning once, when a space is itself kept whitespace |
| BasicTokenization.WhitespaceTokenize | app/src/main/java/io/github/zap8600/aimobileapp/tokenization/BasicTokenizer.kt:65-71 | it fails with `NullPointerException` exactly on null; no token holds a space, and the last token is not empty |
| BasicTokenization.DropTrailingEmpty | app/src/main/java/io/github/zap8600/aimobileapp/tokenization/BasicTokenizer.kt:69 | `dropLastWhile { it.isEmpty() }` keeps a prefix, removes only empty strings, and leaves no empty string last |
| BasicTokenization.WhitespaceTokens | app/src/main/java/io/github/zap8600/aimobileapp/tokenization/BasicTokenizer.kt:69-70 | definition: split on " " and drop the trailing empty pieces; its properties are WhitespaceTokensJoin and WhitespaceTokensUnique |
| BasicTokenization.WhitespaceTokensJoin | app/src/main/java/io/github/zap8600/aimobileapp/tokenization/BasicTokenizer.kt:69-70 | joining the tokens with " " gives the text without its trailing spaces, so leading and interior empty tokens survive |
| BasicTokenization.WhitespaceTokensUnique | app/src/main/java/io/github/zap8600/aimobileapp/tokenization/BasicTokenizer.kt:69-70 | conversely, any space-free token list with a non-empty last token that joins to that text is the result |
| BasicTokenization.SplitOnPunc | app/src/main/java/io/github/zap8600/aimobileapp/tokenization/BasicTokenizer.kt:78-92 | the token list is empty exactly for the empty text |
| BasicTokenization.RunSplitOnPunc | app/src/main/java/io/github/zap8600/aimobileapp/tokenization/BasicTokenizer.kt:74-93 | a null text throws; otherwise the loop over `startNewWord` builds the token list of `SplitOnPunc` |
| BasicTokenization.SplitOnPuncConcat | app/src/main/java/io/github/zap8600/aimobileapp/tokenization/BasicTokenizer.kt:78-92 | the tokens, concatenated, are the text |
| BasicTokenization.SplitOnPuncShape | app/src/main/java/io/github/zap8600/aimobileapp/tokenization/BasicTokenizer.kt:78-92 | every token is one punctuation character or a non-empty punctuation-free word, no two words are neighbours, and the last token is a word iff the text ends in a non-punctuation character |
| BasicTokenization.SplitOnPuncSound | app/src/main/java/io/github/zap8600/aimobileapp/tokenization/BasicTokenizer.kt:78-92 | the two lemmas above together |
| BasicTokenization.SplitOnPuncUnique | app/src/main/java/io/github/zap8600/aimobileapp/tokenization/BasicTokenizer.kt:78-92 | any list that concatenates to the text and cuts it around punctuation is the one `runSplitOnPunc` builds, so each maximal word run is one token |
| BasicTokenization.SplitOnPuncExtend | app/src/main/java/io/github/zap8600/aimobileapp/tokenization/BasicTokenizer.kt:84-89 | a word character after a word character extends the last token |
| BasicTokenization.BasicTokenizer.constructor | app/src/main/java/io/github/zap8600/aimobileapp/tokenization/BasicTokenizer.kt:25 | the tokenizer keeps its `doLowerCase` flag |
| BasicTokenization.BasicTokenizer.Tokenize | app/src/main/java/io/github/zap8600/aimobileapp/tokenization/BasicTokenizer.kt:26-40 | a null text throws; otherwise the two nested loops and the final re-split return the sub-tokens of every whitespace token, in order |
| BasicTokenization.RetokenizeSpaced | app/src/main/java/io/github/zap8600/aimobileapp/tokenization/BasicTokenizer.kt:35-39 | re-splitting the buffer of sub-tokens, each followed by a space, gives the sub-tokens back |
| BasicTokenization.PuncPieces | app/src/main/java/io/github/zap8600/aimobileapp/tokenization/BasicTokenizer.kt:30-37 | definition: the `runSplitOnPunc` pieces of every token, token after token; its properties are ConcatPuncPieces and PuncPiecesShape |
| BasicTokenization.ConcatPuncPieces | app/src/main/java/io/github/zap8600/aimobileapp/tokenization/BasicTokenizer.kt:34-37 | the sub-tokens hold the characters of the tokens, in order |
| BasicTokenization.PuncPiecesShape | app/src/main/java/io/github/zap8600/aimobileapp/tokenization/BasicTokenizer.kt:34-37 | every sub-token is one punctuation character or a word |
| BasicTokenization.TokenizeSpec | app/src/main/java/io/github/zap8600/aimobileapp/tokenization/BasicTokenizer.kt:26-40 | definition: clean, split on whitespace, split every token on punctuation; `Tokenize` is proved equal to it, and its properties are TokenizeSpecShape and RetokenizeSpaced |
| BasicTokenization.TokenizeSpecShape | app/src/main/java/io/github/zap8600/aimobileapp/tokenization/BasicTokenizer.kt:26-40 | the tokens concatenate to the cleaned text without its spaces; every token is non-empty, space-free, and one punctuation character or a word |
| BasicTokenization.TokenizeKeepsUppercase | app/src/main/java/io/github/zap8600/aimobileapp/tokenization/BasicTokenizer.kt:31-33 | "A" tokenizes to "A" whatever `doLowerCase` says, which differs from the lower-cased tokens the code evidently intends: the lowered copy is discarded |
| BasicTokenization.LowerTokens | app/src/main/java/io/github/zap8600/aimobileapp/tokenization/BasicTokenizer.kt:32 | every token lower-cased, one for one |
| BasicTokenization.IntendedTokensLowered | app/src/main/java/io/github/zap8600/aimobileapp/tokenization/BasicTokenizer.kt:31-34 | with lower-casing applied to the tokens before splitting, no result token holds an upper-case letter |
| BertTokenization.Filtered | app/src/main/java/io/github/zap8600/aimobileapp/tokenization/BertTokenizer.kt:9 | only characters of `[a-z0-9'.!?]` or `\s` survive |
| BertTokenization.FilteredWords | app/src/main/java/io/github/zap8600/aimobileapp/tokenization/BertTokenizer.kt:9 | filtering keeps every word character, in order |
| BertTokenization.CollapsedSpaces | app/src/main/java/io/github/zap8600/aimobileapp/tokenization/BertTokenizer.kt:10 | after collapsing no two spaces are neighbours, and the text ends in a space iff the input ends in whitespace |
| BertTokenization.CollapsedChars | app/src/main/java/io/github/zap8600/aimobileapp/tokenization/BertTokenizer.kt:10 | every character of the result is a space or a non-whitespace input character |
| BertTokenization.CollapsedWords | app/src/main/java/io/github/zap8600/aimobileapp/tokenization/BertTokenizer.kt:10 | collapsing keeps every word character, in order |
| BertTokenization.TrimmedWords | app/src/main/java/io/github/zap8600/aimobileapp/tokenization/BertTokenizer.kt:11 | trimming keeps every word character, in order |
| BertTokenization.TrimmedShape | app/src/main/java/io/github/zap8600/aimobileapp/tokenization/BertTokenizer.kt:11 | trimming a text with no double space keeps its characters and word characters, adds no double space, and leaves no space at either end |
| BertTokenization.NormalizedText | app/src/main/java/io/github/zap8600/aimobileapp/tokenization/BertTokenizer.kt:8-11 | the normalised text holds only word characters and single inner spaces, and its non-space characters are the word characters of the lower-cased text |
| BertTokenization.Collapsed | app/src/main/java/io/github/zap8600/aimobileapp/tokenization/BertTokenizer.kt:10 | definition of `replace("\\s+".toRegex(), " ")`: every run of `\s` becomes one space; its properties are CollapsedSpaces, CollapsedChars and CollapsedWords |
| BertTokenization.Trimmed | app/src/main/java/io/github/zap8600/aimobileapp/tokenization/BertTokenizer.kt:11 | definition of `trim()` on the collapsed text, where the only whitespace left is the space; its properties are TrimmedShape and TrimmedWords |
| BertTokenization.Normalize | app/src/main/java/io/github/zap8600/aimobileapp/tokenization/BertTokenizer.kt:7-13 | definition: lower-case, filter, collapse, trim, then split on " "; its properties are NormalizeShape, NormalizeJoin and NormalizeExample |
| BertTokenization.NormalizeShape | app/src/main/java/io/github/zap8600/aimobileapp/tokenization/BertTokenizer.kt:7-13 | the words hold only `[a-z0-9'.!?]` and concatenate to the word characters of the lower-cased text; the result is `[""]` iff there are none, and otherwise no word is empty |
| BertTokenization.NormalizeJoin | app/src/main/java/io/github/zap8600/aimobileapp/tokenization/BertTokenizer.kt:8-12 | joining the words with " " gives the filtered, collapsed, trimmed text |
| BertTokenization.NormalizeExample | app/src/main/java/io/github/zap8600/aimobileapp/tokenization/BertTokenizer.kt:7-13 | "Who was Jim Henson?" normalises to the four words "who", "was", "jim", "henson?": the question mark stays on the last word |
| BertTokenization.BertTokenizer.constructor | app/src/main/java/io/github/zap8600/aimobileapp/tokenization/BertTokenizer.kt:5 | the tokenizer keeps its vocabulary |
| BertTokenization.BertTokenizer.Pretokenize | app/src/main/java/io/github/zap8600/aimobileapp/tokenization/BertTokenizer.kt:15-21 | the result is "[CLS]", the tokens, then "[SEP]": two longer than the input |
| BertTokenization.BertTokenizer.Lookup | app/src/main/java/io/github/zap8600/aimobileapp/tokenization/BertTokenizer.kt:26 | definition of `vocab[it] ?: 100`; the property is in Encode |
| BertTokenization.BertTokenizer.LookupAll | app/src/main/java/io/github/zap8600/aimobileapp/tokenization/BertTokenizer.kt:26 | definition of the `map` over the words; the property is in Encode and IdsOfWords |
| BertTokenization.BertTokenizer.Encode | app/src/main/java/io/github/zap8600/aimobileapp/tokenization/BertTokenizer.kt:23-27 | at least three ids, two more than the normalised words; the first is the id of "[CLS]", the last that of "[SEP]", and id i + 1 is the lookup of word i |
| BertTokenization.BertTokenizer.IdsOfWords | app/src/main/java/io/github/zap8600/aimobileapp/tokenization/BertTokenizer.kt:26 | the ids between the markers are the lookups of the words |
| Sampling.ArgmaxOf | app/src/main/java/io/github/zap8600/aimobileapp/ml/Client.kt:231-240 | the best index of a prefix lies within it, and is 0 for an empty prefix |
| Sampling.ArgmaxOfFirstMax | app/src/main/java/io/github/zap8600/aimobileapp/ml/Client.kt:234 | the best index holds a maximum, and every earlier element is strictly smaller (first maximum wins) |
| Sampling.Argmax | app/src/main/java/io/github/zap8600/aimobileapp/ml/Client.kt:231-240 | the result is 0 for an empty array; otherwise it is an index holding a maximal value, with every earlier value strictly smaller |
| Sampling.RandomIndex | app/src/main/java/io/github/zap8600/aimobileapp/ml/Client.kt:212-224 | the accumulating loop returns the index the running-total specification picks for the draw `sum * u` |
| Sampling.PickIndex | app/src/main/java/io/github/zap8600/aimobileapp/ml/Client.kt:212-224 | definition: the first index whose running total exceeds the draw, else the last; its properties are PickIndexSpec, PickIndexHit and PickIndexAllZero |
| Sampling.PickIndexSpec | app/src/main/java/io/github/zap8600/aimobileapp/ml/Client.kt:212-224 | the pick is the least index whose running total exceeds the draw, else the last index; it is -1 exactly for no weights |
| Sampling.PrefixSumMonotone | app/src/main/java/io/github/zap8600/aimobileapp/ml/Client.kt:216-217 | with non-negative weights the running total never decreases |
| Sampling.PickIndexHit | app/src/main/java/io/github/zap8600/aimobileapp/ml/Client.kt:213-219 | with non-negative weights of positive sum and u in [0, 1), the pick is a valid index with positive weight, and the draw falls inside its slice |
| Sampling.PickIndexAllZero | app/src/main/java/io/github/zap8600/aimobileapp/ml/Client.kt:223 | all-zero weights pick the last index |
| Sampling.SampledToken | app/src/main/java/io/github/zap8600/aimobileapp/ml/Client.kt:226-229 | no weights fail with an index-out-of-bounds error (position -1); equal non-empty lists give a member of `indexes` |
| Sampling.SampledAt | app/src/main/java/io/github/zap8600/aimobileapp/ml/Client.kt:226-229 | when the pick is a valid position, the result is the index at that position |
| Sampling.Sample | app/src/main/java/io/github/zap8600/aimobileapp/ml/Client.kt:226-229 | the method returns the specification's result, error included |
| Sampling.Indexed | app/src/main/java/io/github/zap8600/aimobileapp/ml/Client.kt:120 | definition of `mapIndexed { index, fl -> index to fl }`; the property is in TopKSelectionSpec |
| Sampling.Insert | app/src/main/java/io/github/zap8600/aimobileapp/ml/Client.kt:121 | inserting adds exactly that pair: one longer, the same multiset plus the pair |
| Sampling.SortDesc | app/src/main/java/io/github/zap8600/aimobileapp/ml/Client.kt:121 | `sortedByDescending` returns a permutation of its input |
| Sampling.InsertSorted | app/src/main/java/io/github/zap8600/aimobileapp/ml/Client.kt:121 | stable insertion of a later pair keeps the order: logits non-increasing, ties by ascending index |
| Sampling.SortDescSorted | app/src/main/java/io/github/zap8600/aimobileapp/ml/Client.kt:121 | a list in index order comes out sorted by non-increasing logit, ties kept in index order (a stable sort) |
| Sampling.TopKSelection | app/src/main/java/io/github/zap8600/aimobileapp/ml/Client.kt:119-122 | definition: `IllegalArgument` for k < 0, otherwise the first k pairs of the stable descending sort; its properties are TopKSelectionSpec |
| Sampling.TopKSelectionSpec | app/src/main/java/io/github/zap8600/aimobileapp/ml/Client.kt:119-122 | for k >= 0: min(k, n) pairs of the row with distinct indices, in non-increasing logit order with ties by ascending index, and no left-out logit exceeds a selected one |
| Sampling.MaxOf | app/src/main/java/io/github/zap8600/aimobileapp/ml/Client.kt:126 | `max()` fails with `NoSuchElementException` exactly on an empty list, and otherwise returns a member that no element exceeds |
| Sampling.Softmax | app/src/main/java/io/github/zap8600/aimobileapp/ml/Client.kt:125-129 | defined exactly for non-empty logits; one weight per logit, each positive |
| Sampling.SoftmaxSumsToOne | app/src/main/java/io/github/zap8600/aimobileapp/ml/Client.kt:127-129 | the weights sum to 1 |
| Sampling.SoftmaxDraw | app/src/main/java/io/github/zap8600/aimobileapp/ml/Client.kt:125-132 | the softmax weights sum to 1, so the draw is `u` itself; the pick is a valid position and `u` falls in its slice of the running total |
| Sampling.SelectedDraw | app/src/main/java/io/github/zap8600/aimobileapp/ml/Client.kt:125-132 | sampling from a non-empty selection returns the index of the selected pair the draw lands on |
| Sampling.ChosenToken | app/src/main/java/io/github/zap8600/aimobileapp/ml/Client.kt:117-135 | definition of the `when` on the strategy; its properties are GreedyChoice, TopKChoice and ChoiceErrors, and NextToken is proved equal to it |
| Sampling.NextToken | app/src/main/java/io/github/zap8600/aimobileapp/ml/Client.kt:117-135 | the `when` on the strategy returns the specified choice, errors included |
| Sampling.GreedyChoice | app/src/main/java/io/github/zap8600/aimobileapp/ml/Client.kt:134 | the greedy strategy never fails and, on a non-empty row, picks the first maximal logit |
| Sampling.TopKChoice | app/src/main/java/io/github/zap8600/aimobileapp/ml/Client.kt:118-133 | with k >= 1 on a non-empty row, top-k never fails, picks an index among the selected ones, and that logit is at least every logit left out |
| Sampling.ChoiceErrors | app/src/main/java/io/github/zap8600/aimobileapp/ml/Client.kt:119-126 | negative k throws `IllegalArgumentException` from `take`; k = 0 or an empty row throws `NoSuchElementException` from `max()` |
| Generation.TakeLast | app/src/main/java/io/github/zap8600/aimobileapp/ml/Client.kt:107 | `takeLast(n)` is the suffix of length min(n, size) |
| Generation.Zeros | app/src/main/java/io/github/zap8600/aimobileapp/ml/Client.kt:108 | definition of `IntArray(n)`; the property is in WindowContents |
| Generation.Window | app/src/main/java/io/github/zap8600/aimobileapp/ml/Client.kt:107-108 | definition: the last 64 tokens padded with zeros; its properties are WindowContents and WindowSlides |
| Generation.WindowContents | app/src/main/java/io/github/zap8600/aimobileapp/ml/Client.kt:107-108 | the model input is exactly 64 long: the last min(n, 64) tokens in order, then zeros |
| Generation.WindowSlides | app/src/main/java/io/github/zap8600/aimobileapp/ml/Client.kt:107-108 | appending a token fills the next padding slot while the window is short, and slides the window by one once it is full |
| Generation.StepperEmpty | app/src/main/java/io/github/zap8600/aimobileapp/ml/Client.kt:115 | with no tokens, reading row `maxTokens.size - 1` fails with an index-out-of-bounds error |
| Generation.StepToken | app/src/main/java/io/github/zap8600/aimobileapp/ml/Client.kt:107-135 | definition of one iteration: the window, the model row of the last real token, the choice; its properties are StepperEmpty and StepperAt |
| Generation.StepperAt | app/src/main/java/io/github/zap8600/aimobileapp/ml/Client.kt:107-135 | otherwise a step chooses from the model's row `min(n, 64) - 1` for the window |
| Generation.RunErrorStays | app/src/main/java/io/github/zap8600/aimobileapp/ml/Client.kt:106-137 | an exception ends the `repeat`: later steps keep the error |
| Generation.Run | app/src/main/java/io/github/zap8600/aimobileapp/ml/Client.kt:106-137 | definition of `repeat (nbTokens)` over the steps, stopping at the first error; its properties are RunShape, RunErrorStays, RunStep and RunSucceeds, and Generate is proved equal to it |
| Generation.RunShape | app/src/main/java/io/github/zap8600/aimobileapp/ml/Client.kt:106-137 | a successful run keeps the prompt and appends exactly one token per step (none for a negative count), each the step's choice for the tokens before it |
| Generation.RunSucceeds | app/src/main/java/io/github/zap8600/aimobileapp/ml/Client.kt:106-137 | if every step on non-empty tokens succeeds with a vocabulary index, a run from a non-empty prompt succeeds and appends only vocabulary indices |
| Generation.RunStep | app/src/main/java/io/github/zap8600/aimobileapp/ml/Client.kt:106-137 | one more step appends its token, or its error becomes the error of the whole run |
| Generation.Generate | app/src/main/java/io/github/zap8600/aimobileapp/ml/Client.kt:104-143 | the loop returns exactly the run of `nbTokens` steps, or the first error |
| Generation.GenerateStep | app/src/main/java/io/github/zap8600/aimobileapp/ml/Client.kt:107-137 | one loop iteration on some tokens appends the chosen token, or ends the run with its error |
| Generation.GenerateStepEmpty | app/src/main/java/io/github/zap8600/aimobileapp/ml/Client.kt:107-115 | one loop iteration on no tokens ends the run with the index-out-of-bounds error |
| Generation.EmptyPromptFails | app/src/main/java/io/github/zap8600/aimobileapp/ml/Client.kt:105-115 | an empty prompt fails at the first step whenever at least one token is requested |
| Generation.ChoiceInVocabulary | app/src/main/java/io/github/zap8600/aimobileapp/ml/Client.kt:111-135 | with a 50257-logit row and greedy or k >= 1, the chosen token is a vocabulary index |
| Generation.GenerationSucceeds | app/src/main/java/io/github/zap8600/aimobileapp/ml/Client.kt:104-137 | from a non-empty prompt, with greedy or k >= 1 and rows of 50257 logits, generation never fails and appends only vocabulary indices |
| Generation.DefaultGeneration | app/src/main/java/io/github/zap8600/aimobileapp/ml/Client.kt:104-137 | with the default 100 tokens and the initial top-k strategy with k = 40 (line 68), a non-empty prompt gains exactly 100 vocabulary tokens and keeps its prefix |
| Loaders.MergePair | app/src/main/java/io/github/zap8600/aimobileapp/ml/Client.kt:188-189 | neither part of the pair holds a space |
| Loaders.MergePairOfLine | app/src/main/java/io/github/zap8600/aimobileapp/ml/Client.kt:188-189 | a line "a b" of two space-free words gives the pair (a, b) |
| Loaders.BpeRanksFail | app/src/main/java/io/github/zap8600/aimobileapp/ml/Client.kt:188-189 | loading fails exactly when some line after the header has no space, and then with the index-out-of-bounds error of `list[1]` |
| Loaders.RankEntries | app/src/main/java/io/github/zap8600/aimobileapp/ml/Client.kt:187-190 | the i-th `put` stores the pair of line i + 1 with rank i |
| Loaders.LoadBpeRanks | app/src/main/java/io/github/zap8600/aimobileapp/ml/Client.kt:181-195 | the loop over the lines after the header returns the specified ranks, or the error of `list[1]` on a line without a space |
| Loaders.RankEntriesStep | app/src/main/java/io/github/zap8600/aimobileapp/ml/Client.kt:187-190 | one more line adds its pair with the next rank, overriding an earlier rank |
| Loaders.BpeRanks | app/src/main/java/io/github/zap8600/aimobileapp/ml/Client.kt:181-195 | definition: empty for no lines, the `list[1]` error when a line after the header has no space, otherwise the puts of the pairs; its properties are BpeRanksFail, BpeRanksContent and LoadBpeRanks |
| Loaders.BpeRanksContent | app/src/main/java/io/github/zap8600/aimobileapp/ml/Client.kt:187-191 | when every line after the header has a space, the keys are the pairs of those lines and a pair's rank is the header-relative index of its last line |
| Loaders.RankOfLastLine | app/src/main/java/io/github/zap8600/aimobileapp/ml/Client.kt:187-191 | the pair of a line that no later line repeats has that line's rank |
| Loaders.Numbered | app/src/main/java/io/github/zap8600/aimobileapp/ml/Client.kt:203-204 | the `put`s of `loadDictionary`: line i with id i |
| Loaders.LoadDictionary | app/src/main/java/io/github/zap8600/aimobileapp/ml/Client.kt:197-209 | the loop builds the map of all its `put`s, in order |
| Loaders.DictionarySpec | app/src/main/java/io/github/zap8600/aimobileapp/ml/Client.kt:202-206 | every line is a word, and a word's id is the index of its last line, so unrepeated line i has id i |
| Loaders.DictionaryDuplicate | app/src/main/java/io/github/zap8600/aimobileapp/ml/Client.kt:203-204 | a later duplicate line overrides the id of an earlier one |
| Associations.PutAll | app/src/main/java/io/github/zap8600/aimobileapp/ml/Client.kt:190 | the keys of the map are exactly the keys that were put; the value each holds is in PutAllLastWins and PutAllHasLast |
| Associations.PutAllLastWins | app/src/main/java/io/github/zap8600/aimobileapp/ml/Client.kt:190 | after a series of `put`s a key holds the value of its last `put` |
| Associations.PutAllHasLast | app/src/main/java/io/github/zap8600/aimobileapp/ml/Client.kt:190 | every key present was put, and holds the value of its last `put` |
| Associations.AssociateByValue | app/src/main/java/io/github/zap8600/aimobileapp/ml/Client.kt:73 | definition: `associateBy({ it.value }, { it.key })` as puts of the swapped entries; its properties are AssociateByValueLastWins, InverseRoundTrip and InverseRoundTripBack |
| Associations.AssociateByValueLastWins | app/src/main/java/io/github/zap8600/aimobileapp/ml/Client.kt:73 | the decoder's keys are the encoder's values, and each maps to the key of the last entry holding it |
| Associations.InverseRoundTrip | app/src/main/java/io/github/zap8600/aimobileapp/ml/Client.kt:73 | for an encoder whose entries have distinct keys and distinct values, the decoder sends each value back to its key |
| Associations.InverseRoundTripBack | app/src/main/java/io/github/zap8600/aimobileapp/ml/Client.kt:73 | and the encoder sends each decoded key back to its value |
| Text.Split | app/src/main/java/io/github/zap8600/aimobileapp/tokenization/BertTokenizer.kt:12 | `split` on one character gives at least one piece, none holding the delimiter |
| Text.JoinSplit | app/src/main/java/io/github/zap8600/aimobileapp/tokenization/BertTokenizer.kt:12 | joining the pieces of a split with the delimiter gives the string back |
| Text.SplitJoin | app/src/main/java/io/github/zap8600/aimobileapp/ml/Client.kt:188 | splitting a join gives back the pieces when none holds the delimiter |
| Text.SplitSingle | app/src/main/java/io/github/zap8600/aimobileapp/ml/Client.kt:188-189 | a split has a single piece iff the delimiter is absent, which is when `list[1]` fails |
| Text.Lower | app/src/main/java/io/github/zap8600/aimobileapp/tokenization/BertTokenizer.kt:8 | `lowercase` maps every character, keeping the length |
| Text.LowerHasNoUpper | app/src/main/java/io/github/zap8600/aimobileapp/tokenization/BertTokenizer.kt:8 | a lower-cased text holds no upper-case letter |
| Text.TrimEnd | app/src/main/java/io/github/zap8600/aimobileapp/tokenization/BertTokenizer.kt:11 | a prefix of the text, not ending in the character, with only that character cut off |
| Text.TrimStart | app/src/main/java/io/github/zap8600/aimobileapp/tokenization/BertTokenizer.kt:11 | a suffix of the text, not starting with the character, with only that character cut off |

## Left out

- Android plumbing is not modelled, because it is UI and scheduling, not logic. This covers the view models, `LiveData`, coroutines, `yield`, `formatCompletion` and `MainActivity.kt`.
- Model loading and TFLite inference are outside code. `infer` is a function parameter; its rows are reals of any length unless a lemma requires 50257.
- Asset reading is not modelled. The loaders take the file's lines as a sequence. Parsing the JSON encoder (`loadEncoder`) is not part of this model.
- `GPT2Tokenizer` is not part of this model: BPE encoding of the prompt, decoding of each new token, and posting the completion. `Generate` starts from the prompt's token ids and returns the token list.
- `generateBERT` is not modelled: it only encodes a query and posts a vocabulary dump. `Feature.kt` is a plain record with nothing to prove.
- `CharChecker` is not part of this model. Its four predicates enter as a `CharClasses` value of arbitrary functions.
- Floating point is modelled as exact reals. `Float` rounding, overflow and NaN are not modelled, so `exp` is any positive function and sums are exact.
- Each `Random.nextFloat()` is a parameter `u` (or `draw(i)` for step `i`), a real in [0, 1) where a lemma needs it.
- `Text.Lower` lower-cases ASCII letters only. Kotlin's `lowercase()` also folds non-ASCII letters. `\s` is Java's ASCII whitespace class. Kotlin's `lowercase()` can also change a string's length ('İ' becomes two characters); `Text.Lower` always keeps it.
- `BasicTokenization.CleanText`, `BasicTokenization.RunSplitOnPunc`, `BasicTokenization.BasicTokenizer.Tokenize`: a string is a sequence of Unicode scalar values. Kotlin's `for (element in text)` walks UTF-16 code units, so `CharChecker` sees each half of a surrogate pair on its own, and the halves can be dropped, split apart or merged separately. That per-code-unit handling of characters above U+FFFF is not modelled.
- `CodegenByteCodec.EncoderEntries` takes the `HashMap` iteration order as ascending keys. `Associations.AssociateByValueLastWins` takes the entries in the order given. For the general GPT-2 encoder that order is the `HashMap`'s and is not modelled.
- The doc comment at `BertTokenizer.kt:22` is not a property of the code and is not stated. It promises seven ids for "Who was Jim Henson?", but `normalize` keeps "henson?" as one word (`BertTokenization.NormalizeExample`), so the code gives six.
- The constants `NUM_HEAD`, `NUM_LITE_THREADS`, the asset names and the BERT question-answering constants are unused by the modelled code.

## Findings

| source | as written | input that shows it | evidently intended | confidence | as-written member | corrected member |
|---|---|---|---|---|---|---|
| app/src/main/java/io/github/zap8600/aimobileapp/tokenization/CodegenTokenizer/CodegenByteEncoderDecoder.kt:134-171 | bytes 197..233 are put with the character one code point above their own, so 233 and 234 both get "ê" and no byte gets "Å"; the decoder then has 255 entries and byte 233 does not round-trip | byte 233: encodes to "ê", which decodes to 234; the string "Å" has no decoding | every byte keeps its own Latin-1 character (197 is "Å"), giving a bijective table with a 256-entry inverse | not executed; high (the GPT-2 byte table is a bijection) | CodegenByteCodec.EncoderDiffersFromIntended, CodegenByteCodec.DecoderSize, CodegenByteCodec.DecoderLacksARing | CodegenByteCodec.IntendedRoundTrip |
| app/src/main/java/io/github/zap8600/aimobileapp/tokenization/BasicTokenizer.kt:31-33 | `token.let { it.lowercase() }` discards its result, so `doLowerCase` has no effect | text "A" with `doLowerCase = true` gives the token "A" | the lower-cased token is the one split around punctuation | not executed; high | BasicTokenization.TokenizeKeepsUppercase | BasicTokenization.IntendedTokensLowered |
