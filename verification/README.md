# Speech transcription: verified models of the hard parts

This project models the parts of the transcription system whose correctness is not visible from reading
one function, and proves what they promise. The Dafny modules follow the components of the program:

| modules | component |
|---|---|
| `GrammarRules`, `GrammarEngine`, `GrammarFilter`, `GrammarTokens`, `GrammarCut` | the grammar engine: a pushdown recogniser over flat rules, the filter that has to predict it, the decoding of tokens, and characters cut in two |
| `GrammarText`, `GrammarCompile`, `GrammarMeaning`, `GrammarParser`, `GrammarLeft` | the compiler from grammar text to flat rules, and left recursion as it is written |
| `GrammarSyntax`, `GrammarPrint`, `GrammarReadable` | what a grammar text spells, without a parser; a printer that reading inverts, and which definitions can be read |
| `HuffmanBits`, `HuffmanCode`, `HuffmanDecode`, `HuffmanBook` | Vorbis codebooks: codewords from lengths, the three decoders and the tables they use |
| `Floor`, `FloorEnds` | floor 1 of a Vorbis packet: unwrapping and drawing the curve, and reading its ends |
| `KvCache`, `KvBeam`, `KvSession` | the key/value cache that all decoders share, the beam reshuffle, and whole decoding attempts |
| `VadEar`, `Vad`, `VadSilence`, `VadLimit`, `VadMarks`, `TimeMap`, `TimeTrue` | speech segments from probabilities, where they end and how long they get; cutting out silence, and the way back to original times |
| `Fft`, `Dtw` | the Fourier transform of the spectrogram and the alignment of tokens with audio |
| `DecodeLoop`, `DecodeVerdict`, `DecodeCache` | the main decoding loop: temperatures, attempts, what tokens make of a decoder, and how far every window moves; and its attempts on the shared cache |
| `ClientProtocol` | the lifetime protocol of the server's clients |
| `Wrap` | wrapping long segments |
| `Merge`, `Rings` | joining transcripts, and the two ring buffers for samples |
| `Arith`, `Seqs` | facts about products and division, and about joining sequences |

`dafny verify dfyconfig.toml` checks everything.

## How the system is modelled

- Pointers into rules are pairs of a rule number and an index. Code that updates its state in place is a
  class or a method on arrays, proved against a function on values; code made of expressions and recursion
  is a function. The recursive `advance_stack` and candidate filter are functions.
- Everything that comes from the neural model, from chance or from callbacks is a parameter: the decoding
  loop takes an oracle, a decoding attempt takes the rounds that the sampler draws, and lemmas quantify
  over both.
- Floating point is replaced by exact reals. The sine and cosine table is any table that satisfies the
  addition law and has -1 at half a turn. Conversions between samples and centiseconds are the integer
  functions `(s + 80) / 160` and `cs * 160` that the rounding expressions compute.
- Integers are unbounded. Where a width or a sign matters it is written out: 32-bit codewords, 32767 as the
  largest entry of the fast table, `INT_MAX` as the open end of a position range, division towards zero.
- A key/value row is what it was made from: its token, its position, and the rows that the attention mask was
  open to when it was made.
- The server is a transition system: a step is one lock operation or one access to shared state by one
  thread, and a run is any interleaving of any number of threads. A read may take any time and always ends.

## Results that need care

- `advance_stack` terminates on every stack exactly when the grammar has no left recursion through nullable
  prefixes (`AdvanceTerminatesIff`). The compiler makes such rules itself: repeating a symbol that can be
  empty is left recursive (`NullableRepeatIsLeftRecursive`). Said of the text: the rules are left recursive exactly
  when the names are, or something that can be empty is starred or plussed anywhere, also in a definition that was
  replaced later, whose synthesized rules stay in the table (`LeftRecursionIff`).
- The token filter stops at a code point 0, the recogniser does not; and tokens whose text starts with `[_` are
  skipped when accepted but judged by their text when filtered. `FilterPredictsIff` gives the exact condition on
  a token for the filter to predict the recogniser on all grammars: an ordinary token must have no code point 0,
  or end in a sequence that nothing can complete, or be badly coded. A special token is predicted only where
  nothing is left alive after it; in particular never between whole characters (`SpecialMisleads`).
- For a negated character class the test of a cut UTF-8 sequence asks whether *every* completion matches, not
  whether some completion does (`MatchPartialMeaning`, `NegatedPartialTooStrict`). The two questions have the same
  answer exactly when no item of the class meets the completions or the items list them all
  (`NegatedPartialIff`). A range that is written upside down contains nothing, yet passes a cut sequence when
  both its ends are completions (`CrossedRangePasses`).
- An empty alternative cannot end a definition that is followed by another one: after a bar the line end is
  skipped. Apart from that all definitions can be written, and these are exactly those that can be read
  (`ReadShown`, `ReadableIffWritable`).
- The accumulator of the bit reader is filled up to at least 25 bits and no further, so that a codeword of 26 or
  more bits can be lost in the middle of a packet (`DecodeLong`). Up to 25 bits a codeword that comes next is
  decoded exactly when the packet has all its bits (`DecodeSymbol`), and whole sequences of symbols are decoded
  back (`DecodeAll`).
- In a book that is not sparse the fast table cannot name short codewords past entry 32767, and the sorted
  codewords leave them out. `Decode` and `DecodeSymbol` say exactly which entries are found.
- The level after the last drawn floor point is looked up without the mask that the line has. Decoded values in
  range never leave the table (`KeptInTable`); for others `DoFloor` says exactly when they do.
- The two end heights of a floor are read with `ilog(range) - 1` bits, where section 7.2.3 of the Vorbis I
  specification has `ilog(range - 1)`. The two agree unless the multiplier is 3 (`EndsInRange`).
- The alignment takes the wrong neighbour when diagonal and row tie below the column. All cells are optimal
  exactly when there is no such tie (`OptimalIffNoTie`), and a 2x2 example shows the loss (`TieIsCostly`).
- Speech can be lost: when a segment becomes too long and has no silence to be cut at, it ends before the present
  window, and that window starts no other one. Every window of speech is in exactly one place: in a segment found,
  in a stretch too short to count, or lost at such a cut (`SpeechFound`; `CutLosesSpeech` is an example). Merging gets
  a lost window back exactly when a segment starts less than 200 ms after it (`CutComesBack`), and in the example
  it is not in the final result either (`LostAtCut`). With a threshold below 0.01 a window can be speech and silence
  at once, and then be lost without a cut, where a segment or stretch ends (`FaintSpeechIsLost`).
  There is no limit to cut at when more than 100000 s are given or the pads leave less than a window of it; audio below
  2^30 samples is then never cut (`NeverCut`). With one, no segment is longer than its whole seconds less both pads
  (`SegmentsLimited`), and every end has one of four reasons (`SegmentsEnd`).
- When a segment is too long and is cut, the silence in which it is cut is forgotten: a silence that lasts longer
  than ends a segment can then stay inside the next one (`CutForgetsSilence`). A silence inside a segment lasts that
  long exactly when the segment before it was cut in the middle of it and it is short after the cut
  (`SilenceAcrossCut`).
- The buffer for the cut audio is sized without limiting the segment starts to the audio. It is large enough
  exactly when the starts past the end do not outweigh unused silence (`FitsIff`). For segments of the detector
  that is so exactly when the last one starts inside the audio or an earlier one is empty (`DetectorFitsIff`), and
  always with a pad of at least 5 ms (`DetectorFits`). Probabilities without a pad show the overflow
  (`LateStartDoesNotFit`).
- There is no temperature to try exactly when the increment is positive and the first temperature is 1.000001 or
  more (`NoTemperatureIff`). The decoding loop then reads decoder fields that were never set or are left over:
  every window moves as decoder 0 says (`NothingTried`), and if that is not forward, the loop never ends
  (`StuckForEver`, `HotStartHangs`). With a temperature to try it always ends (`Transcribe`).
- A session reads from its stream without a lock, so that a read can overlap with a write or a cancel by another
  thread (`ReadMeetsWrite`). What holds is that at most one thread writes or cancels, only the session reads, and
  nobody does so once the stream is destroyed (`NoUseAfterDestroy`).

## Model

| member | source | states |
|---|---|---|
| `GrammarEngine.AdvanceWaits` | src/whisper.cpp:5628-5679 | without left recursion advancing a stack gives at least one stack, and all of them are empty or wait at a character class |
| `GrammarEngine.AdvanceLang` | src/whisper.cpp:5628-5679 | advancing keeps the language: a word is derived by some resulting stack if and only if by the original one, the language being defined by derivation trees |
| `GrammarEngine.AdvanceTerminatesIff` | src/whisper.cpp:5628-5679 | the recursion ends on every stack if and only if no rule reaches itself through nullable prefixes |
| `GrammarFilter.AcceptLang` | src/whisper.cpp:5685-5711 | after accepting c the stacks recognise exactly the words w for which they recognised c·w |
| `GrammarFilter.RunLang` | src/whisper.cpp:5685-5711 | the same over any run of code points |
| `GrammarFilter.RecogniserCorrect` | src/whisper.cpp:5785-5823 | started on a rule and fed with any code points, the recogniser goes on with exactly the words that complete them to a word of the rule |
| `GrammarFilter.EmptyStackIffWord` | src/whisper.cpp:5785-5823 | a word belongs to the start rule if and only if reading it leaves an empty stack |
| `GrammarFilter.MatchPartialMeaning` | src/whisper.cpp:5579-5622 | for all classes the parser accepts: a cut sequence passes a class iff some completion is in it or a range written upside down has both ends among the completions, and a negated class iff all completions are in it and there is no such range |
| `GrammarFilter.NegatedPartialTooStrict` | src/whisper.cpp:5606-5622 | a negated class rejects a cut sequence that could still be completed to a match |
| `GrammarFilter.NegatedPartialIff` | src/whisper.cpp:5579-5622 | a negated class is tested for "some completion matches" iff no item meets the completions or the items list them all |
| `GrammarFilter.CrossedRangePasses` | src/whisper.cpp:5579-5622 | an upside-down range passes a lead byte and contains nothing |
| `GrammarFilter.RejectCount` | src/whisper.cpp:5718-5783 | a candidate is rejected iff folding `accept` over its code points leaves no stack, or no stack that its cut sequence fits; each as often as it was offered |
| `GrammarFilter.PassesAny` | src/whisper.cpp:5769-5783 | a candidate passes a list of stacks iff it passes one of them |
| `GrammarFilter.RejectOrderFree` | src/whisper.cpp:5769-5783 | the rejected candidates do not depend on the order of the stacks |
| `GrammarTokens.DecodeUtf8` | src/whisper.cpp:5485-5539 | the two decoding loops compute the recursive decoder, with the terminating 0 and the cut sequence |
| `GrammarTokens.DecodeEncoded` | src/whisper.cpp:5485-5539 | decoding the UTF-8 encoding of any scalar values gives the values back, with nothing cut |
| `GrammarTokens.DecodeSplit` | src/whisper.cpp:5485-5539 | decoding in two chunks is decoding the whole iff the second chunk goes on with the character that was cut; otherwise it is refused |
| `GrammarCut.StartDecoded` | src/whisper.cpp:5485-5539 | the first bytes of any scalar value leave its high bits and the number of missing bytes |
| `GrammarCut.CompletionsAre` | src/whisper.cpp:5586-5601 | the interval of a cut sequence holds exactly the characters whose encodings start with the bytes read |
| `GrammarCut.StartsNone` | src/whisper.cpp:5589-5592 | no class takes the start bytes 0xC0 and 0xC1, 0xE0 followed by 0x80 or 0x81, or an invalid sequence |
| `GrammarTokens.Recogniser.AcceptChar` | src/whisper.cpp:5685-5711 | the loop over the stacks computes the accepted stacks of the value model |
| `GrammarTokens.Recogniser.AcceptToken` | src/whisper.cpp:5869-5891 | the state after a token: unchanged for tokens that begin with `[_` and for a stuck grammar, otherwise all code points accepted and the cut sequence kept |
| `GrammarTokens.TokensAreText` | src/whisper.cpp:5869-5891 | however a well coded text is cut into tokens, the stacks are those of reading the decoded text as a whole |
| `GrammarTokens.TokensRecognised` | src/whisper.cpp:5785-5891 | after any tokens spelling a well coded text the engine goes on with exactly the words that complete the text to a word of the start rule |
| `GrammarTokens.ZeroMisleads` | src/whisper.cpp:5718-5783 | for every ordinary token with a code point 0 and a completable end there is a grammar on which the filter is wrong |
| `GrammarTokens.SpecialMisleads` | src/whisper.cpp:5825-5891 | the same for every special token after which something could be left alive |
| `GrammarTokens.FilterPredictsIff` | src/whisper.cpp:5825-5891 | for every token and every cut sequence before it, the exact condition for the filter to predict the recogniser on all grammars: passed iff the recogniser survives accepting it |
| `GrammarText.ReadRulesOk` | common/grammar-parser.cpp:132-286 | whatever text is read, its definitions have plain names, literals and classes in the order the flat format demands |
| `GrammarSyntax.CharReads` | common/grammar-parser.cpp:12-123 | a character or escape is read as c up to j iff it is spelled there: itself by its UTF-8 sequence, or by an escape with the value of its digits |
| `GrammarSyntax.EncodedAt` | common/grammar-parser.cpp:12-25 | the UTF-8 encoding of a scalar value other than the backslash is read as that value, to its end |
| `GrammarSyntax.BlanksRead` | common/grammar-parser.cpp:76-89 | blanks, comments and allowed line ends are skipped to where the run of them ends |
| `GrammarSyntax.NameReads` | common/grammar-parser.cpp:91-100 | a name is the longest run of letters, digits and dashes |
| `GrammarSyntax.RuleReads` | common/grammar-parser.cpp:250-272 | a rule is read as a definition iff it spells it |
| `GrammarSyntax.ReadsIff` | common/grammar-parser.cpp:132-286 | a text is read as some definitions iff it spells them, for every spelling of characters, blanks, comments and line ends |
| `GrammarPrint.ReadShown` | common/grammar-parser.cpp:132-286 | reading gives back any definitions that can be written: names, literals, classes with ranges, groups, repetitions and alternatives; an empty alternative may end the last definition |
| `GrammarReadable.ReadableIffWritable` | common/grammar-parser.cpp:132-286 | definitions are those of some text iff names and characters are proper and no definition but the last ends with an empty alternative |
| `GrammarPrint.ShownMeaning` | common/grammar-parser.cpp:132-286 | the rules made of written definitions derive exactly what the definitions mean |
| `GrammarCompile.SynthFresh` | common/grammar-parser.cpp:33-37 | a synthesized name is never in use already |
| `GrammarCompile.DefineGrows` | common/grammar-parser.cpp:33-47 | a synthesized rule is defined once, after everything it refers to, and overwrites nothing |
| `GrammarCompile.RepeatRuleOk` | common/grammar-parser.cpp:196-218 | the rule made for S*, S+ or S? is well formed and refers to known rules |
| `GrammarCompile.CompileSymGrows` | common/grammar-parser.cpp:132-230 | compiling a symbol keeps the symbol table a bijection, touches no earlier rule, defines every synthesized name, and gives well formed elements |
| `GrammarCompile.CompileAltsGrows` | common/grammar-parser.cpp:232-248 | the same for alternates; no END inside |
| `GrammarMeaning.CompileDefsLinked` | common/grammar-parser.cpp:250-286 | the finished tables hold the compiled form of the definitions in force, also after redefinitions |
| `GrammarMeaning.CompiledMeaning` | common/grammar-parser.cpp:132-286 | the flat rule of a name derives exactly the words that its definition means, where S*, S+ and S? mean any number, at least one and at most one of S |
| `GrammarParser.ParseSpace` | common/grammar-parser.cpp:76-89 | skips exactly blanks and comments, and line ends where they are allowed |
| `GrammarParser.ParseHex` | common/grammar-parser.cpp:53-74 | reads exactly the given number of hexadecimal digits or fails |
| `GrammarParser.DecodeChar` | common/grammar-parser.cpp:12-25 | the code point of one UTF-8 character as the parser on values reads it, also when the text ends early; `GrammarSyntax.CharReads` says what that is |
| `GrammarParser.ParseChar` | common/grammar-parser.cpp:102-123 | one character or escape |
| `GrammarParser.ParseLiteral` | common/grammar-parser.cpp:141-149 | a quoted literal: its characters as elements |
| `GrammarParser.ParseClass` | common/grammar-parser.cpp:150-172 | a bracketed class: characters, alternatives and ranges as elements |
| `GrammarParser.ParseState.ParseSymbol` | common/grammar-parser.cpp:141-190 | position, elements and tables after one symbol are those of reading it and compiling what was read |
| `GrammarParser.ParseState.ParseSequence` | common/grammar-parser.cpp:132-230 | the same for a sequence with repetitions, which rewrite the elements of the last symbol |
| `GrammarParser.ParseState.ParseAlternates` | common/grammar-parser.cpp:232-248 | the same for alternates, which end with defining the rule |
| `GrammarParser.ParseState.ParseRule` | common/grammar-parser.cpp:250-272 | the same for a whole rule, with its error cases |
| `GrammarParser.Parse` | common/grammar-parser.cpp:274-286 | the tables of a text; a text with an error gives empty tables |
| `GrammarParser.ParsedInOrder` | common/grammar-parser.cpp:342-385 | for every text, symbol ids are a bijection onto 0..n-1, every synthesized rule is there, and every rule ends in its only END with continuation elements only after characters |
| `GrammarParser.ParsedMeaning` | common/grammar-parser.cpp:274-286 | the rules of a parsed text derive exactly what the text defines |
| `GrammarParser.CompleteWellFormed` | common/grammar-parser.cpp:342-385 | when every name used is defined, the rules satisfy all checks of the printer |
| `GrammarParser.TextRecognised` | src/whisper.cpp:5628-5823 | text to recogniser: a word is accepted iff the grammar as written contains it |
| `GrammarLeft.LeftRecursionIff` | common/grammar-parser.cpp:132-286 | the compiled rules are left recursive iff the names of the text are, or something that can be empty is starred or plussed in any definition |
| `GrammarLeft.CompleteIff` | common/grammar-parser.cpp:274-286 | every rule is there iff every name used in a definition is defined |
| `GrammarLeft.TextRecognisedAsWritten` | src/whisper.cpp:5628-5823 | the same with all conditions on the text: names used are defined, names are not left recursive, and nothing that can be empty is starred or plussed |
| `GrammarParser.NullableRepeatIsLeftRecursive` | common/grammar-parser.cpp:196-218 | repeating a symbol that can be empty makes the grammar left recursive |
| `HuffmanBits.MatchIffIn` | common/stb_vorbis.c:1668-1699 | the low bits of the accumulator equal the reversed codeword iff the reversed accumulator lies in the interval of the codeword |
| `HuffmanCode.AllocateTiles` | common/stb_vorbis.c:1116-1128 | taking a free leaf and freeing the leaves beside the new codeword keeps codewords and leaves a partition of all 32-bit words, with deeper leaves lower and at most one per level |
| `HuffmanCode.DeepestIsLowest` | common/stb_vorbis.c:1110-1117 | the deepest free leaf that is not too deep holds the lowest unused codeword of the length |
| `HuffmanCode.NoLeafOverfull` | common/stb_vorbis.c:1116-1117 | when no leaf is found the lengths cannot be satisfied |
| `HuffmanCode.Codebook.ComputeCodewords` | common/stb_vorbis.c:1086-1130 | succeeds iff the sum of 2^-len is at most 1, and then every entry in turn has the lowest codeword that overlaps no earlier one, stored reversed in either layout |
| `HuffmanCode.PrefixFree` | common/stb_vorbis.c:1086-1130 | no word starts with two of the codewords |
| `HuffmanCode.AssignedUnique` | common/stb_vorbis.c:1086-1130 | the lengths determine the codewords |
| `HuffmanDecode.BitReader.Prep` | common/stb_vorbis.c:1634-1647 | filling the accumulator changes neither the bits to come nor those that are there, and takes bytes up to 25 bits or the end of the packet |
| `HuffmanDecode.Search` | common/stb_vorbis.c:1668-1681 | the binary search ends at the last sorted codeword not above the bits |
| `HuffmanDecode.Book.DecodeBinary` | common/stb_vorbis.c:1666-1693 | when a sorted codeword is next in the accumulator, its row is given and its bits are consumed iff the accumulator has all of it, and otherwise all bits are dropped |
| `HuffmanDecode.Book.DecodeLinear` | common/stb_vorbis.c:1695-1712 | the same for every codeword |
| `HuffmanDecode.Book.DecodeScalarRaw` | common/stb_vorbis.c:1656-1712 | the same for the filled accumulator, whichever search is chosen |
| `HuffmanDecode.Book.Decode` | common/stb_vorbis.c:1717-1729 | fast table with fallback, for all books: a row next in the filled accumulator is given iff the tables can find it and the accumulator has all of it; no other row is ever longer than the bits there |
| `HuffmanBook.ComputeAccelerated` | common/stb_vorbis.c:1134-1154 | the fast table names a short codeword at every index it matches, and nothing else |
| `HuffmanBook.CollectWords` | common/stb_vorbis.c:1186-1195 | the words to be sorted are the codewords of the included entries, each once |
| `HuffmanBook.FileValues` | common/stb_vorbis.c:1200-1229 | every included entry is filed beside its own codeword |
| `HuffmanBook.MakeBook` | common/stb_vorbis.c:1086-1230 | from lengths to a finished book of either layout, exactly when the lengths can be satisfied |
| `HuffmanBook.DecodeSymbol` | common/stb_vorbis.c:1634-1756 | on the packet: when the codeword of an entry comes next, every layout gives the entry and consumes its bits iff the tables can find it and there is room; up to 25 bits there is room iff the packet has them, and otherwise the packet has ended |
| `HuffmanBook.DecodeLong` | common/stb_vorbis.c:1634-1756 | with the book made from a single length 26, in either layout, a codeword of 26 bits is lost although all its bits are in the packet |
| `HuffmanBook.DecodeAll` | common/stb_vorbis.c:1634-1756 | symbols with codewords of up to 25 bits that were packed one after the other are decoded back, and the reader is left at what follows them |
| `Floor.Neighbors` | common/stb_vorbis.c:1303-1312 | the nearest earlier points on both sides, or the defaults |
| `Floor.AllNeighbors` | common/stb_vorbis.c:3998-4004 | every inner point is enclosed by the two nearest earlier points |
| `Floor.PredictBetween` | common/stb_vorbis.c:1935-1943 | a predicted height is between those of the neighbours |
| `Floor.PredictOnLine` | common/stb_vorbis.c:1935-1943 | it is on the exact line but for a fraction of one step, cut off towards the first height |
| `Floor.UnwrapBijective` | common/stb_vorbis.c:3246-3268 | a decoded value gives a height in range iff it is in range, and can be recovered from it |
| `Floor.UnwrapAlternates` | common/stb_vorbis.c:3246-3268 | odd values are below the prediction and even ones above, until one side is used up; from there on they count from the end of the other |
| `Floor.WrapBijective` | common/stb_vorbis.c:3246-3268 | every height in range has its value |
| `Floor.CurveInRange` | common/stb_vorbis.c:3239-3269 | values in range give a curve in range |
| `Floor.CurveOfValues` | common/stb_vorbis.c:3239-3269 | every curve in range is the curve of exactly its values |
| `Floor.ValuesOfCurve` | common/stb_vorbis.c:3239-3269 | different values give different curves |
| `Floor.UnwrapFloor` | common/stb_vorbis.c:3238-3269 | the loop computes the curve in place and marks the ends, the points that differ from their prediction and those they lean on |
| `Floor.DrawLine` | common/stb_vorbis.c:2034-2081 | every point of the line gets the factor at the height of the closed form, all others are unchanged |
| `Floor.HeightInTable` | common/stb_vorbis.c:3081-3105 | for heights in range every drawn height is below 256 |
| `Floor.KeptInTable` | common/stb_vorbis.c:3081-3105 | decoded values in range give a curve all of whose drawn heights, and whose last level, are in the table |
| `Floor.HeightMeets` | common/stb_vorbis.c:3081-3105 | the drawn line meets every drawn point |
| `Floor.DoFloor` | common/stb_vorbis.c:3072-3107 | for all heights: every place of the spectrum is multiplied exactly once, by the factor at the height of the line; the last level is outside the table iff it is 256 or more and used, and then the places before it are done |
| `Floor.ShapedPlace` | common/stb_vorbis.c:3072-3107 | a place of the result is the old number times the table entry of its height, or the old number past the end |
| `Floor.RenderFloor` | common/stb_vorbis.c:3238-3279 | decoded values to shaped spectrum, with the points left out; never outside the table for values in range |
| `FloorEnds.IlogBits` | common/stb_vorbis.c:1027-1043 | the comparisons and the table give the number of bits of every positive number |
| `FloorEnds.EndsInRange` | common/stb_vorbis.c:3209-3214 | the end heights are in range, and have as many bits as the specification says iff the multiplier is not 3 |
| `KvCache.Cache.FindSlot` | src/whisper.cpp:1028-1077 | takes the first free run at or after the head, or else from the start; fails iff there are not enough free cells in a row anywhere, and changes exactly the cells of the slot |
| `KvCache.Cache.CellMax` | src/whisper.cpp:1080-1088 | no cell in use is past the result |
| `KvCache.Cache.Clear` | src/whisper.cpp:1090-1098 | all cells free |
| `KvCache.Cache.SeqRm` | src/whisper.cpp:1100-1128 | the sequence is gone from the cells of the range, cells without owner are free, and the head is the first cell freed |
| `KvCache.Cache.SeqCp` | src/whisper.cpp:1130-1146 | the target owns in addition the cells of the source in the range |
| `KvCache.RangeHalfOpen` | src/whisper.cpp:1100-1146 | removing and copying concern exactly the positions from p0 on and before p1, a negative limit being none; a cell without owners is free, any other keeps its position |
| `KvBeam.PlaceHolds` | src/whisper.cpp:1068-1074 | a batch adds exactly its tokens to the history of a sequence, each with the row that the history makes |
| `KvBeam.RowMade` | src/whisper.cpp:2574-2640 | the row of a new token is made from exactly the rows of the positions before it in its own history |
| `KvBeam.MadeTells` | src/whisper.cpp:2574-2640 | a row tells the whole history up to its position: equal rows have equal histories |
| `KvBeam.MoveCell` | src/whisper.cpp:7316-7326 | removing, copying back and removing the temporary id moves ownership of a cell, also when it is freed in between |
| `KvBeam.Reshuffle` | src/whisper.cpp:7286-7327 | afterwards each live decoder owns exactly its parent's cells, the others what they owned, a cell is free iff nobody owns it, and no temporary id is left |
| `KvBeam.ShuffleHolds` | src/whisper.cpp:7286-7327 | a live decoder then holds its parent's history position by position, with the rows made from it, a finished one its own |
| `KvSession.Width` | src/whisper.cpp:2885-2886 | no owned cell is past the part that attention looks at |
| `KvSession.Mask` | src/whisper.cpp:2917-2946 | the mask is open exactly at cells of the token's sequence that are not later; rows past the batch are closed |
| `KvSession.MaskExact` | src/whisper.cpp:2929-2939 | a token sees exactly its own history up to itself, one cell for each position, with the row that the history makes there |
| `KvSession.Session.Prime` | src/whisper.cpp:7151-7190 | fails iff the prompt is larger than the cache; otherwise all decoders hold the prompt and each token of it sees what precedes it |
| `KvSession.Session.Sample` | src/whisper.cpp:7202-7327 | each live decoder goes on from its parent's tokens and the cache holds them |
| `KvSession.Session.Extend` | src/whisper.cpp:7438-7470 | after the batch every live decoder holds all its tokens, and its new token sees exactly them; it cannot fail while the cells in use end low enough |
| `KvSession.DoRound` | src/whisper.cpp:7202-7470 | one round: sample, finish decoders, evaluate; done iff nobody is live |
| `KvSession.Run` | src/whisper.cpp:7151-7470 | over a whole attempt, whatever is sampled: tokens and live decoders are those that the rounds make, the reason it ended is given, in every round each live decoder sees exactly its own history, and it does not run out of room when the cache has a cell for the prompt and for each decoder and round |
| `KvSession.EnoughRoom` | src/whisper.cpp:7131-7193 | the number of cells allocated is enough for that, for every number of decoders |
| `KvSession.AllocatedPages` | src/whisper.cpp:7131-7145 | one text context rounded up to 256 cells for one decoder, and n + 2 of them for n |
| `Fft.Halves` | src/whisper.cpp:3096-3110 | a transform of even size from the transforms of its halves |
| `Fft.ComputeDft` | src/whisper.cpp:3047-3063 | the double loop computes the sums that define the transform |
| `Fft.DftIs` | src/whisper.cpp:3047-3063 | the real part is the sum with the cosines of the table, the imaginary part that with the sines, negated |
| `Fft.Combine` | src/whisper.cpp:3096-3110 | the butterflies turn the transforms of the halves into that of the whole |
| `Fft.ComputeFft` | src/whisper.cpp:3069-3111 | the fast transform equals the plain one for every size that divides the table, with 2n numbers of input, 8n of output, and nothing else changed |
| `Dtw.Inside` | src/whisper.cpp:8690-8720 | inside the border all costs are finite and the trace never leads onto the border |
| `Dtw.BackPath` | src/whisper.cpp:8722-8750 | the traced path is monotone from first to last cell, has at most N+M-1 points, and its costs sum up to the final cell |
| `Dtw.OptLeast` | src/whisper.cpp:8697-8720 | the reference recursion is a lower bound of all paths |
| `Dtw.OptAttained` | src/whisper.cpp:8697-8720 | some path attains it |
| `Dtw.NeverBelow` | src/whisper.cpp:8697-8720 | every cost in the table is that of some path, never below the least |
| `Dtw.OptimalIffNoTie` | src/whisper.cpp:8699-8718 | all cells are optimal iff no cell has diagonal and row tied below column |
| `Dtw.BackCheapest` | src/whisper.cpp:8697-8750 | without such a tie the traced path is the cheapest of all paths |
| `Dtw.TieIsCostly` | src/whisper.cpp:8699-8718 | with one it need not be |
| `Dtw.FillTables` | src/whisper.cpp:8685-8720 | the loops fill the cost and trace tables |
| `Dtw.Walk` | src/whisper.cpp:8722-8750 | the walk writes the path into the reserved rows without leaving them or reading the border |
| `Dtw.DtwAndBacktrace` | src/whisper.cpp:8682-8766 | the result has the points of the traced path as its columns |
| `Vad.Detector.Window` | src/whisper.cpp:5258-5327 | one iteration of the loop, with all its branches, is the step of the value model |
| `VadEar.StepKeeps` | src/whisper.cpp:5258-5327 | every window keeps segments and short stretches in order, apart and starting in speech, the marks of silence true, and every window of speech so far accounted for |
| `VadEar.SpeechFound` | src/whisper.cpp:5248-5332 | every window of speech is in exactly one of a segment found, a stretch too short to count, or lost at a cut for length without a silence; a window that itself begins a silence may also follow where a segment or stretch ends |
| `VadEar.CutBetween` | src/whisper.cpp:5278-5300 | a window lost at a cut is the first after a segment, and in none |
| `VadEar.CutLosesSpeech` | src/whisper.cpp:5278-5300 | an input on which a window of speech is in no segment and no short stretch |
| `VadEar.FaintSpeechIsLost` | src/whisper.cpp:5303-5325 | with a threshold below 0.01 a window of speech can be lost without a cut |
| `VadLimit.NeverCut` | src/whisper.cpp:5219-5230 | with more than 100000 s given, or less than a window left of the limit after both pads, audio below 2^30 samples is never cut for length |
| `VadLimit.UncutSpeech` | src/whisper.cpp:5219-5332 | then a window of speech is in a segment iff it is in no stretch too short to count |
| `VadLimit.CutAtLimit` | src/whisper.cpp:5278-5300 | a segment without a silence is cut at a window iff with the window it would be longer than the whole seconds of the limit less both pads |
| `VadLimit.SegmentsLimited` | src/whisper.cpp:5219-5332 | no segment found is longer than that |
| `VadMarks.SegmentsEnd` | src/whisper.cpp:5258-5332 | every segment found ends with the audio, where a silence begins that is long enough to end it or longer than 98 ms, or at the window with which it would be too long |
| `VadMarks.CutWithoutPause` | src/whisper.cpp:5278-5300 | a segment that is cut at a window had no silence of more than 98 ms since its start or the cut before |
| `Vad.Detect` | src/whisper.cpp:5248-5332 | the loop gives the segments of the value model: in order, inside the audio, starting with speech; a window of speech is in one of them iff it is not in a stretch too short to count and not the window at which a segment became too long without a silence |
| `VadSilence.DetectedStill` | src/whisper.cpp:5248-5332 | in general none contains such a silence after its start or, if the segment before it was cut for its length, after the window in which it was cut |
| `VadSilence.SilenceAcrossCut` | src/whisper.cpp:5278-5327 | a silence inside a segment is long enough to end it iff the segment before was cut in the middle of it, it is long as a whole, and short from the first silent window after the cut on |
| `VadSilence.DetectedStillUncut` | src/whisper.cpp:5248-5332 | in audio not longer than the longest segment no segment found contains a silence that is long enough to end it |
| `VadSilence.CutForgetsSilence` | src/whisper.cpp:5278-5327 | a segment found after a cut can contain a silence that is long enough to end it |
| `Vad.SpeechStays` | src/whisper.cpp:5334-5364 | before padding there is exactly what was found and the short gaps, as far as merged segments reach the minimum |
| `Vad.Merge` | src/whisper.cpp:5334-5353 | the loop with erasure merges as the recursive definition does |
| `Vad.MergedApart` | src/whisper.cpp:5334-5353 | afterwards neighbours are at least 3200 samples apart, between the same first start and last end |
| `Vad.MergedCovers` | src/whisper.cpp:5334-5353 | no speech is lost by merging |
| `Vad.MergedHolds` | src/whisper.cpp:5334-5353 | merging adds exactly the gaps of less than 200 ms |
| `Vad.CutComesBack` | src/whisper.cpp:5334-5353 | merging gets back a window lost at a cut iff a segment starts less than 200 ms after it |
| `Vad.DropShort` | src/whisper.cpp:5355-5364 | the loop with erasure keeps what the definition keeps |
| `Vad.LongMembers` | src/whisper.cpp:5355-5364 | exactly the segments of at least the minimum stay |
| `Vad.LongApart` | src/whisper.cpp:5355-5364 | they are as far apart as before |
| `Vad.Pad` | src/whisper.cpp:5379-5416 | every segment gets its share of the silence on both sides |
| `Vad.PaddedApart` | src/whisper.cpp:5379-5416 | padded segments are in order, inside the audio, contain the speech and are at most the pad longer at each end |
| `Vad.PaddedGap` | src/whisper.cpp:5379-5416 | a silence shorter than two pads is shared equally but for an odd sample, of a longer one each side takes the pad; the first start and the last end take it as far as the audio goes |
| `Vad.SegmentsFromProbs` | src/whisper.cpp:5197-5431 | the whole equals the composition of the passes; speech is found as by detection, before padding segments are 200 ms apart and none is too short, after padding and conversion they are in order and inside the audio |
| `Vad.LostAtCut` | src/whisper.cpp:5197-5431 | speech lost at a cut is not in the final segments of the example |
| `TimeMap.CountSamples` | src/whisper.cpp:6663-6682 | the size that the first pass computes |
| `TimeMap.Balance` | src/whisper.cpp:6663-6772 | size plus excess of late starts equals copied samples plus unused silence |
| `TimeMap.FitsIff` | src/whisper.cpp:6663-6772 | the exact condition for the copy to fit |
| `TimeMap.InsideFits` | src/whisper.cpp:6663-6772 | segments that start inside the audio fit |
| `TimeMap.StartsInside` | src/whisper.cpp:5379-5431 | only the last segment of the detector can start after the audio, by at most half a centisecond, and only with a pad below 5 ms |
| `TimeMap.DetectorFitsIff` | src/whisper.cpp:6663-6772 | segments of the detector fit iff the last one starts inside the audio or an earlier one is empty |
| `TimeMap.DetectorFits` | src/whisper.cpp:6663-6772 | segments of the detector fit whenever the pad is at least 5 ms |
| `TimeMap.LateStartDoesNotFit` | src/whisper.cpp:6663-6772 | probabilities for which the detector gives a late start that makes the buffer too small |
| `TimeMap.Build` | src/whisper.cpp:6663-6772 | for all segments: whether the copy fits, and then the copied audio is the speech of the segments with 100 ms of silence between, and the table has the points of all segments |
| `TimeMap.CutSilence` | src/whisper.cpp:6644-6772 | the same from probabilities on; with a pad of at least 5 ms it fits |
| `TimeMap.TableConsistent` | src/whisper.cpp:6708-6772 | later processed times have later original times, for all points of the table |
| `TimeMap.FinalTable` | src/whisper.cpp:6774-6788 | for every order that the sort leaves ties in, the final table has strictly increasing processed and non-decreasing original times, within the original range |
| `TimeMap.OriginalMonotone` | src/whisper.cpp:7921-7960 | the lookup is monotone and stays within the original range of the table |
| `TimeMap.OriginalExact` | src/whisper.cpp:7921-7960 | the lookup gives every entry of the table its original time |
| `TimeMap.OriginalLinear` | src/whisper.cpp:7945-7960 | between two entries a time is mapped in proportion, to the centisecond below |
| `TimeMap.OriginalOutside` | src/whisper.cpp:7921-7944 | before the first and after the last entry the lookup stays at them; without a table a time is its own original |
| `TimeTrue.SegmentThere` | src/whisper.cpp:6690-6772 | the cut audio has the samples of every segment with its overlap, followed by 1600 zeros unless it is the last |
| `TimeTrue.TableDense` | src/whisper.cpp:6720-6757 | a segment of more than a second has a point every 200 ms |
| `TimeTrue.TimeInside` | src/whisper.cpp:6663-6788 | from segments to lookup: a time inside the copy of a segment leads back to the time in proportion between its start and end, or less than 2 centiseconds before it |
| `DecodeLoop.BuildTemperatures` | src/whisper.cpp:6860-6868 | the loop gives the temperatures of the value model |
| `DecodeLoop.NoTemperatureIff` | src/whisper.cpp:6860-6868 | there is none iff the increment is positive and the first is 1.000001 or more |
| `DecodeLoop.RisingSteps` | src/whisper.cpp:6860-6868 | they rise in equal steps below the limit, and the last is the last below it |
| `DecodeLoop.Judge` | src/whisper.cpp:7329-7415 | after each token, by the tokens alone: when the decoder fails (back in time, an end without a result before the end of the audio, no progress in the last round), when it completes, and what its result and step then are, also for a single segment and without timestamps |
| `DecodeVerdict.DecodedSettled` | src/whisper.cpp:7329-7415 | after an attempt every decoder has stopped with the first token that completes it or makes it fail, said of its tokens, or has used up all rounds |
| `DecodeVerdict.AttemptOutcome` | src/whisper.cpp:7515-7553 | it has failed iff its tokens made it fail or a result of more than 32 tokens repeats itself; otherwise its tokens are cut to the result |
| `DecodeVerdict.EndOfTextRanked` | src/whisper.cpp:7370-7398 | a decoder that ends its text after a timestamp completes, and is ranked unless it repeats itself |
| `DecodeVerdict.BestIs` | src/whisper.cpp:7515-7553 | the best decoder is the last ranked one that scores better than those before it |
| `DecodeVerdict.DecodedDrawn` | src/whisper.cpp:7205-7328 | every token of a decoder was sampled in its own round, for the decoder itself or with a beam for some decoder |
| `DecodeVerdict.WindowTries` | src/whisper.cpp:7041-7580 | a window falls back to the next temperature exactly as long as the best decoder has failed or is not good enough and there is one |
| `DecodeVerdict.WindowMoves` | src/whisper.cpp:7732-7743 | a window moves on by the step of its best decoder; when that ends with text and one timestamp, by 30 s or to the end of the audio |
| `DecodeLoop.Result` | src/whisper.cpp:7605-7610 | the tokens for the next context are the first of the result, all of them within the tokens |
| `DecodeLoop.Attempt` | src/whisper.cpp:7046-7553 | decoders and best index after any attempt, greedy or beam, are those of the value model; every decoder used is sound, and results are cut to their length |
| `DecodeLoop.DecodeWindow` | src/whisper.cpp:7041-7580 | the same for a window with all its temperatures; also a best decoder left over from an earlier attempt is sound, and without a temperature nothing changes |
| `DecodeLoop.Transcribe` | src/whisper.cpp:7007-7743 | each window starts where the best decoder of the one before moved to; the loop is finished iff less than 100 ms remain, stopped iff the caller stops it, and stuck only without a temperature; with one it ends and every window moves on by at least 20 ms |
| `DecodeLoop.NothingTried` | src/whisper.cpp:7041-7741 | without a temperature the decoders stay as they are and every window moves as decoder 0 says |
| `DecodeLoop.StuckForEver` | src/whisper.cpp:7041-7741 | if that is not forward, no number of windows reaches the end |
| `DecodeLoop.HotStartHangs` | src/whisper.cpp:6860-6868 | such an input: temperature 1.2 in steps of 0.2 and a decoder that holds 0 |
| `DecodeCache.SameDecoders` | src/whisper.cpp:7202-7415 | after every round the session has the live decoders and tokens that the loop's judgement leaves |
| `DecodeCache.RunAttempt` | src/whisper.cpp:7151-7470 | an attempt on the cache with enough cells ends with exactly the live decoders and tokens of the loop, and each live decoder has seen its own history in every round |
| `Wrap.WrapSegment` | src/whisper.cpp:6051-6102 | the restarting loop ends; the pieces have exactly the tokens of the segment, join up in time at the start of the token that begins a piece, only the last keeps the speaker turn, and a piece ends exactly at the first token that may be split off and does not fit |
| `Wrap.WrappedText` | src/whisper.cpp:6051-6102 | wrapping conserves the text |
| `Wrap.BreakPoints` | src/whisper.cpp:6064-6090 | a piece starts only at a token with text, with a space in front if words stay whole, that would have made the piece before it too long |
| `Wrap.PieceLength` | src/whisper.cpp:6066-6068 | without word splitting a piece is within the maximal length, or its text is that of its first token |
| `ClientProtocol.StepKeeps` | stream/stream.cpp:319-396 | every step of every thread keeps the invariant on locks, handles and the list |
| `ClientProtocol.NoUseAfterDestroy` | stream/stream.cpp:332-396 | in every run no read, write or cancel touches a stream after its session destroyed it, at most one thread at a time writes or cancels, and only the session itself reads |
| `ClientProtocol.ReadMeetsWrite` | stream/stream.cpp:566-568 | a run in which a session reads while another thread writes to its stream |
| `ClientProtocol.ClientsBounded` | stream/stream.cpp:319-328 | there are never more than 64 clients |
| `ClientProtocol.JoinAdmits` | stream/stream.cpp:319-328 | a join is refused iff 64 clients are on the list; otherwise the new client is the last one on it |
| `ClientProtocol.LeftIsOff` | stream/stream.cpp:332-344 | once leave has returned the handle is off the list for good |
| `ClientProtocol.VisitReachesAll` | stream/stream.cpp:357-396 | a thread that has taken a snapshot and is back has used the stream of every client on it, or found the client dead |
| `ClientProtocol.AliveIsTouched` | stream/stream.cpp:373-396 | a client that stays alive gets every broadcast |
| `ClientProtocol.OneLock` | stream/stream.cpp:319-396 | no thread holds two locks, or waits for one while it holds another |
| `ClientProtocol.Progress` | stream/stream.cpp:319-396 | a thread that is not finished can go on or waits for one that can |
| `Merge.SplitAndNormalize` | stream.wasm/hyni_merge.h:24-59 | the loop gives the words of the text |
| `Merge.SplitAt` | stream.wasm/hyni_merge.h:24-59 | a filtered character separates the words of both sides |
| `Merge.FindBestMatch` | stream.wasm/hyni_merge.h:169-204 | for every hash function the indexed search finds the first place in the tail that occurs in the base, at its first occurrence |
| `Merge.MergeStrings` | stream.wasm/hyni_merge.h:61-111 | the words of the result are the kept words of A and then the words of B, and the computed size bounds the result |
| `Merge.SelfMatch` | stream.wasm/hyni_merge.h:61-111 | merging a text of three or more words with itself matches at the start, so that the text is returned |
| `Merge.Overlap` | stream.wasm/hyni_merge.h:61-111 | texts that overlap in three or more words are joined at the overlap |
| `Rings.AudioChunkBuffer.Append` | stream2.wasm/audio-buffer.js:52-85 | the buffer is the most recent part of all samples; only the oldest are dropped, and only for lack of room |
| `Rings.AudioChunkBuffer.Consume` | stream2.wasm/audio-buffer.js:95-110 | first in, first out |
| `Rings.AudioChunkBuffer.Clear` | stream2.wasm/audio-buffer.js:115-118 | empty |
| `Rings.AudioChunkBuffer.ToFloat32Array` | stream2.wasm/audio-buffer.js:125-136 | all stored samples, oldest first |
| `Rings.AudioAsync.Callback` | stream/common-sdl.cpp:139-171 | the buffer holds the last samples heard, also of an oversized chunk |
| `Rings.AudioAsync.Get` | stream/common-sdl.cpp:173-214 | exactly the last requested samples since the last clear, as far as the buffer goes back |
| `Rings.AudioAsync.Clear` | stream/common-sdl.cpp:117-136 | nothing heard since |

## Left out

- Tensor graphs, model loading, backends and all calls into the tensor library: foreign code. What a key/value row holds is modelled by what it was made from.
- Softmax, sampling, random numbers, scores, mel scaling and the inverse MDCT: only as choices of an oracle, or not at all, for lack of an exact statement.
- HuffmanDecode.Book.DecodeBinary: speaks of the bits in the accumulator, as the code does; what that means for the packet is stated by `HuffmanBook.DecodeSymbol`.
- HuffmanDecode.Book.DecodeLinear: the same.
- HuffmanDecode.Book.DecodeScalarRaw: the same, for the filled accumulator.
- HuffmanDecode.Book.Decode: the same, for the filled accumulator.
- TimeMap.Build: what the code overwrites when the copy does not fit; it only says that it does not fit.
- Floor.DoFloor: what is read past the end of the table when the last level is outside it; it only says that it is.
- DecodeLoop.Transcribe: the tokens of a decoder that was never set and whose result is longer than its tokens; only how far the window then moves.
- Decoding of bits that no codeword matches, in an incomplete Huffman tree: the binary search does not recheck the match, so that nothing holds there.
- Vorbis header parsing, the sort of the floor points, seeking, push mode and file access: the floor takes its points in order, as the header parser leaves them.
- The mask-and-shift network of `bit_reverse`: it is taken as reversal of 32 bits.
- The sort of the sorted codewords is the library's; an insertion sort stands for it.
- The sort of the beam candidates and the skipping of duplicates: any live decoder may be taken as parent.
- The state after an error return of the encoder or of a failed slot search in the main loop: the run ends there.
- Overflow of 32-bit counters for audio of days, and of positions near `INT_MAX`.
- Bytes of a capture chunk that are not a whole sample.
- Sockets, JSON, ping, transcript files, tokens, the HTTP server, SDL devices and the browser bindings: wrappers around input and output.
- Token level timestamps other than the alignment, the trimming helpers of the merge and the logger: they would only add easy members.
