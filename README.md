# gd-tools, modelled in Dafny

gd-tools is a set of small command-line helpers for the GoldenDict
dictionary program. Each one gets a word, and sometimes the sentence it came
from, and prints an HTML fragment. This project models the byte-level logic
underneath those helpers and proves properties of it.

The main part is the Japanese sentence segmenter (`gd-marisa`). It walks a
UTF-8 sentence codepoint by codepoint and, at every position, looks up the
longest word-list entry that starts there. It tries the sentence's own script
and also the script with hiragana and katakana swapped. A byte counter decides
which positions belong to the selected word, and the tool then lists the
entries that are prefixes of that word. Three variants of this walk are
modelled:

- the plain one in `src/marisa.cpp`;
- the one with a deinflection step in `src/marisa_split.cpp`;
- the two legacy stand-alone tools, `gd-marisa/gd-marisa.cpp` and
  `gd-mecab2/createlinks.cpp`.

Beneath the segmenter sit:

- the UTF-8 first-byte classifier and the codepoint walk;
- the hiragana and katakana tables and the conversion between the scripts;
- the kana-insensitive set of keywords;
- the word list's common-prefix search, which is modelled as a pure function
  over a finite set of keys.

The smaller tools are modelled as well:

- the shared argument scanner, number parser, Anki card classes and string
  helpers;
- the multi-call dispatch by DJB hash;
- the Anki search query builder;
- the MeCab headword wrapping;
- the sentence-line tool;
- the Massif example filter;
- the stroke-order page.

Strings are byte sequences (`seq<Byte>`), because every length and comparison
in the code is in bytes. Exceptions become `Result` values: `help_requested`,
`runtime_error` with its message, and `out_of_range`. Printed HTML becomes
returned data: the links, the alternatives and the page text.

The foreign code is passed in as parameters:

- the word list is passed as a `Dictionary` (a set of keys);
- the deinflector, the half-width to full-width folding, the MeCab tagger and
  HTTP requests are passed as functions;
- whether files exist is passed as a map or an `Option`.

Files, one module each:

- `wrappers.dfy`: `Option` and `Result`.
- `bytes.dfy`: `substr`, `find`, `c_str` and lexicographic order.
- `util.dfy`: `src/util.h`, `src/util.cpp`.
- `utf8_walk.dfy`: `unicode_char_byte_len`, `iter_unicode_chars`.
- `kana_tables.dfy`, `kana_conv.dfy`: the tables, `create_map` and `convert_kana`.
- `jp_set.dfy`: `JpSet`.
- `prefix_dict.dfy`: common-prefix search.
- `headword.dfy`, `link_walk.dfy`: the highlight counter and the per-position walk.
- `segmenter.dfy`: `src/marisa.cpp`.
- `split_segmenter.dfy`: `src/marisa_split.cpp`.
- `legacy.dfy`: `gd-marisa/gd-marisa.cpp`, `gd-mecab2/createlinks.cpp`.
- `mecab_split.dfy`: `src/mecab_split.cpp`.
- `dispatch.dfy`: `src/main.cpp`.
- `split_view.dfy`: `std::views::split`.
- `anki_search.dfy`: `src/anki_search.cpp`.
- `sentence_line.dfy`: `gd-sentence-line.c`.
- `massif.dfy`: `src/massif.cpp`.
- `stroke_order.dfy`: `src/stroke_order.cpp`.

## Model

| member | source | states |
|---|---|---|
| ByteStrings.Substr | src/kana_conv.h:27 | `substr(pos, count)` clamps the count at the end of the string and returns the bytes from `pos` |
| ByteStrings.FindFromFinds | src/util.cpp:73 | `find` reports the first occurrence at or after the start position, and `npos` only when there is none |
| ByteStrings.CStr | src/marisa.cpp:125 | the query a C API reads through `c_str()` is a NUL-free prefix of the string, ending where the string has its first NUL |
| ByteStrings.LessTransitive | src/marisa.cpp:112 | the byte-wise `operator<` on strings, which the set comparator relies on, is transitive |
| ByteStrings.LessTotal | src/marisa.cpp:112 | any two different strings are ordered one way or the other |
| ByteStrings.EraseIf | src/marisa.cpp:157-158 | `std::erase_if` keeps exactly the bytes that fail the predicate: every such byte stays, no other does, input without such bytes is unchanged, and a single byte is kept or dropped by the predicate |
| ByteStrings.EraseIfAppend | src/marisa.cpp:157-158 | erasing distributes over concatenation, so with the single-byte case the kept bytes stay in their order |
| Util.RaiseIf | src/util.h:17-22 | `raise_if` fails exactly when its condition holds, with the given message |
| Util.FillArgs | src/util.h:32-56 | the iterator loop of `fill_args` computes the scan: help flag, dash keys taking a value and advancing by 2, other keys advancing by 1, empty word meaning help |
| Util.HelpFlagStopsScan | src/util.h:37-39 | "--help" or "-h" in key position requests help, whatever follows |
| Util.DashValueIsInvalid | src/util.h:43-47 | `--word -h` is an invalid argument, not a request for help |
| Util.PlainKeyAdvancesByOne | src/util.h:40-50 | a key without a dash is still assigned the next argument but advances by one |
| Util.ParseNumber | src/util.h:60-67 | `from_chars` in base 10 accepts a leading run of digits whose value fits in 64 bits; the bytes after the run are ignored |
| Util.ParseNumberOfDecimal | src/util.h:60-67 | a number written in decimal and followed by a non-digit parses back to itself |
| Util.ParseNumberReadsLeadingDigits | src/util.h:60-67 | "12x" gives 12 |
| Util.ParseNumberRejectsSigns | src/util.h:60-67 | "", "+5" and "-5" are rejected |
| Util.DecimalValueOfDecimal | src/util.h:60-67 | the digits `from_chars` reads back give the number they render |
| Util.DetermineCardClass | src/util.cpp:22-54 | each of the six classes is returned exactly for its queue values, or for its type values when the queue is outside -3..3 |
| Util.NoSpaceAboveAscii | src/util.cpp:56-59 | no byte of a multi-byte UTF-8 sequence is a space in the C locale |
| Util.StrTrimIsInterior | src/util.cpp:61-69 | the trimmed text is the contiguous part between the leading and trailing space runs; it neither starts nor ends with a space, and inner spaces stay |
| Util.StrTrimIdempotent | src/util.cpp:61-69 | trimming twice is trimming once |
| Util.StrTrimAllSpaces | src/util.cpp:61-69 | a string of spaces trims to the empty string |
| Util.DropSpaces | src/util.cpp:67 | `drop_while(is_space)` leaves a suffix that starts with no space, and everything dropped is a space |
| Util.DropTrailingSpaces | src/util.cpp:64-66 | the reversed `drop_while` leaves a prefix that ends with no space, and everything dropped is a space |
| Util.StrReplace | src/util.cpp:71-76 | only the first occurrence is rewritten, and the string is unchanged when there is none |
| Util.EraseSpaces | src/marisa.cpp:157-158 | `erase_if(s, is_space)` is the erase filter with the C-locale space test: no space is left, every other byte is kept, and text without spaces is unchanged |
| Util.SubstrChecked | src/marisa.cpp:179 | `substr` raises `out_of_range` exactly when the position is past the end, and otherwise returns the slice from the position of `count` bytes, or up to the end when fewer are left |
| Utf8Walk.UnicodeCharByteLen | src/kana_conv.cpp:23-43 | the first-byte classes: continuation bytes give 0, then 1, 2, 3 and 4 by the bit patterns, and 0xF8..0xFF raise "Can't recognize byte" |
| Utf8Walk.ClassifierVersusRfc3629 | src/kana_conv.cpp:32-40 | the classifier agrees with the lead bytes of section 3 of RFC 3629 but also accepts 0xC0, 0xC1 and 0xF5..0xF7 |
| Utf8Walk.ByteLen | src/kana_conv.cpp:23-43 | the class is at most 4, and 0 exactly for continuation bytes |
| Utf8Walk.IterSucceeds | src/kana_conv.h:18-29 | the walk completes exactly when no byte is in 0xF8..0xFF |
| Utf8Walk.IterFailsAtFirstBadByte | src/kana_conv.h:18-29 | the walk raises with the first byte the classifier rejects |
| Utf8Walk.IterViewsAt | src/kana_conv.h:18-29 | every pair is `(idx, substr(idx, len))` for a byte that is not a continuation byte |
| Utf8Walk.IterOffsetsIncrease | src/kana_conv.h:18-29 | the offsets strictly increase |
| Utf8Walk.IterCoversLeads | src/kana_conv.h:18-29 | every byte that is not a continuation byte has its pair, so there is exactly one pair per such byte |
| Utf8Walk.StrayContinuationDropped | src/kana_conv.h:24 | a stray continuation byte, even at offset 0, is dropped without an error |
| Utf8Walk.MalformedInputOverlaps | src/kana_conv.h:20-28 | a three-byte lead byte followed by ASCII yields overlapping substrings, so joining them does not give the input back |
| Utf8Walk.JoinOfIter | src/kana_conv.h:18-29 | on well-formed UTF-8 the walk succeeds and joining the substrings in order gives the input byte for byte |
| Utf8Walk.IterOfJoin | src/kana_conv.h:18-29 | walking a concatenation of complete sequences yields exactly those sequences |
| Utf8Walk.IterOffsetsOfJoin | src/kana_conv.h:18-29 | the pair of the n-th sequence sits at the total length of the sequences before it |
| Utf8Walk.WellFormedSplit | src/kana_conv.h:18-29 | a well-formed string is a concatenation of complete sequences |
| Utf8Walk.JoinIsWellFormed | src/kana_conv.h:18-29 | a concatenation of complete sequences is well-formed |
| KanaTables.Decode3Encode3 | src/kana_conv.h:11-16 | decoding the three-byte UTF-8 encoding of a code point gives the code point back |
| KanaTables.Encode3Injective | src/kana_conv.h:11-16 | different code points have different encodings |
| KanaTables.KanaUnshiftShift | src/kana_conv.h:11-16 | a hiragana code point moved to katakana and back is itself |
| KanaTables.TablesPaired | src/kana_conv.h:11-16 | the two tables hold 98 three-byte code points each, and each katakana is its hiragana moved by 0x60 |
| KanaConv.CreateMap | src/kana_conv.cpp:45-52 | the emplace loop over the walk of `from` computes the specified map, or the walk's error |
| KanaConv.EmplaceFails | src/kana_conv.cpp:45-52 | the loop fails exactly when an offset lies past the end of `to` |
| KanaConv.EmplaceKeys | src/kana_conv.cpp:48-50 | the keys of the map are exactly the substrings of the walk of `from` |
| KanaConv.EmplaceKeeps | src/kana_conv.cpp:49 | `emplace` never overwrites a key that is already there |
| KanaConv.EmplaceFirstWins | src/kana_conv.cpp:49 | for a repeated code point the first pair decides the value: the substring of `to` at that pair's offset |
| KanaConv.TableMap | src/kana_conv.cpp:45-52 | over two code-point-aligned tables, each key maps to the code point of `to` at the same position |
| KanaConv.CreateMapGivesHiraToKata | src/kana_conv.h:38 | `create_map(hiragana_chars, katakana_chars)` builds exactly the hiragana-to-katakana map |
| KanaConv.CreateMapGivesKataToHira | src/kana_conv.h:36 | `create_map(katakana_chars, hiragana_chars)` builds exactly the katakana-to-hiragana map |
| KanaConv.MapsAreMutualInverses | src/kana_conv.h:34-39 | each of the two table maps undoes the other on its keys |
| KanaConv.EmplaceTable | src/kana_conv.cpp:45-52 | over a table of three-byte code points whose pairs find their images in `to`, the loop builds the map of each key to its image |
| KanaConv.PairedMapsInvert | src/kana_conv.h:11-16 | the maps of two tables paired by the 0x60 shift invert each other in both directions |
| KanaConv.ConvertKana | src/kana_conv.h:31-48 | the append loop computes the conversion: each codepoint's image when it is a key, else the codepoint itself |
| KanaConv.HiraganaToKatakana | src/kana_conv.h:55-58 | `hiragana_to_katakana` is the conversion with the hiragana-to-katakana table map |
| KanaConv.KatakanaToHiragana | src/kana_conv.h:50-53 | `katakana_to_hiragana` is the conversion with the katakana-to-hiragana table map |
| KanaConv.ConvertRaises | src/kana_conv.h:44 | the conversion raises at the first byte in 0xF8..0xFF |
| KanaConv.ConvertSucceeds | src/kana_conv.h:42-47 | the conversion completes exactly when no byte is in 0xF8..0xFF |
| KanaConv.ConvertedOfJoin | src/kana_conv.h:42-47 | on complete sequences the result is the concatenation of their images |
| KanaConv.PassThrough | src/kana_conv.h:45 | codepoints that are not keys (kanji, ー, 〜, ASCII, four-byte emoji) pass through unchanged |
| KanaConv.ConvertKeepsShape | src/kana_conv.h:42-47 | with a map that keeps the shape of characters, well-formed input keeps its byte length and codepoint count, and stays well-formed |
| KanaConv.ConversionKeepsShape | src/kana_conv.h:50-58 | both table conversions keep the byte length and codepoint count of well-formed input |
| KanaConv.ToKatakanaIdempotent | src/kana_conv.h:55-58 | on well-formed input, converting to katakana twice is converting once |
| KanaConv.ConvertIdempotent | src/kana_conv.h:31-48 | for a map that keeps the shape of characters and whose images are left alone by a second lookup, converting well-formed input twice is converting once |
| KanaConv.ToKatakanaGrowsMalformedInput | src/kana_conv.h:42-47 | on malformed input `hiragana_to_katakana` is not idempotent: a truncated sequence before ASCII duplicates bytes on every pass |
| KanaConv.ConvertGrowsMalformedInput | src/kana_conv.h:18-29 | with any map of three-byte keys, a truncated sequence before ASCII duplicates bytes on every pass |
| KanaConv.RoundTrip | src/kana_conv.h:50-58 | converting to katakana and back gives the input again when none of its codepoints is a katakana key other than U+309A |
| KanaConv.ConvertRoundTrip | src/kana_conv.h:31-48 | with two inverse maps, converting well-formed input there and back gives it again when each codepoint is a forward key or no backward key |
| KanaConv.ToKatakanaOfTableHiragana | src/kana_conv.h:55-58 | table hiragana convert to their katakana, code point by code point |
| KanaConv.ToHiraganaOfTableKatakana | src/kana_conv.h:50-53 | table katakana convert to their hiragana, code point by code point |
| KanaConv.ExampleToKatakana | tests/tests_main.cpp:8 | あいうえお becomes アイウエオ |
| KanaConv.ExampleToHiragana | tests/tests_main.cpp:10 | イマリ becomes いまり |
| JpSets.Insert | src/marisa.cpp:108-116 | `emplace` keeps the set ordered by katakana image and changes nothing when an element with the same image is there |
| JpSets.InsertHolds | src/marisa.cpp:150 | emplacing never loses an image |
| JpSets.InsertAllHolds | src/marisa.cpp:148-151 | after emplacing a list, every string of the set and of the list has an element with its image |
| JpSets.InsertAllFrom | src/marisa.cpp:148-151 | every element after emplacing came from the set or from the list |
| JpSets.InsertAllKeepsFirst | src/marisa.cpp:150 | an element that was not there before is the first string of the list with its image, so the first spelling is kept |
| PrefixDict.CommonPrefixSearchReports | src/marisa.cpp:126 | common-prefix search reports keys that are prefixes of the query, shortest first, and reports every such key |
| PrefixDict.ReportedIffPrefixKey | src/marisa.cpp:126 | a key is reported exactly when it is a prefix of the query |
| PrefixDict.LastReportedIsLongest | src/marisa.cpp:126 | the last key reported is the longest key that is a prefix of the query |
| PrefixDict.HitsArePrefixChain | src/marisa.cpp:126 | every key reported is a prefix of every longer one reported |
| PrefixDict.PrefixHitsFromFindsAll | src/marisa.cpp:126 | the search from length `n` finds every key at least `n` long that prefixes the query |
| Segmenter.Assign | src/marisa.cpp:96-105 | `--word`, `--sentence` and `--path-to-dic` set their field, and other keys are ignored |
| Segmenter.WordArgumentFillsWord | src/marisa.cpp:96-105 | `--word W` with a plain word fills in the word and keeps the rest |
| Segmenter.LongestMatchIsLongest | src/marisa.cpp:118-128 | the result is a prefix of the query: the longest prefix key, or the first `longestlen` bytes when there is none |
| Segmenter.LongestResult | src/marisa.cpp:118-128 | the agent loop of `longest_result` computes that longest match |
| Segmenter.FirstLongest | src/marisa.cpp:137-142 | `std::max` by length returns one of the three, no shorter than the others, and the earliest of the longest |
| Segmenter.LongestVariant | src/marisa.cpp:130-143 | `longest_variant` computes the longest result of the three scripts |
| Segmenter.LongestVariantChoice | src/marisa.cpp:130-143 | it fails exactly on a byte in 0xF8..0xFF; otherwise the as-is result wins whenever it is as long as the longest |
| Segmenter.KeywordsStartingWith | src/marisa.cpp:145-153 | the nested loops compute the keyword set of the three queries |
| Segmenter.EmplaceHits | src/marisa.cpp:148-151 | the outer loop emplaces the hits of each query in turn |
| Segmenter.EmplaceEach | src/marisa.cpp:150 | the inner loop emplaces every reported key of one query |
| Segmenter.KeywordsArePrefixKeys | src/marisa.cpp:145-153 | the keywords are word-list keys that prefix one of the three queries (not keys that extend them), and every such key is represented by its katakana form |
| Segmenter.KeywordsHaveKanaImages | src/marisa.cpp:108-114 | every key reported has a katakana form, so the comparator never raises |
| Segmenter.Normalised | src/marisa.cpp:157-162 | whitespace is erased from the word and the sentence, and an empty sentence becomes the word |
| Segmenter.OtherSpellings | src/marisa.cpp:189-193 | the listed alternatives are the keywords whose katakana form differs from the word's |
| Segmenter.LookupWords | src/marisa.cpp:155-199 | the method computes the page: one link per codepoint, then the alternatives for a non-empty word |
| Segmenter.WalkSentence | src/marisa.cpp:175-184 | the sentence loop: a 30-byte window per codepoint, the longest variant as `bword` (the codepoint when nothing matches), and the counter |
| Segmenter.OtherSpellingsOf | src/marisa.cpp:189-193 | the filter loop keeps exactly the keywords whose image differs from the word's |
| Segmenter.MissingDictionaryRaises | src/marisa.cpp:167-168 | a missing word list raises before anything is looked up |
| Segmenter.LookupFailsOnlyOnBadBytes | src/marisa.cpp:155-199 | with the word list present the lookup fails exactly when the normalised sentence or word holds a byte in 0xF8..0xFF |
| Segmenter.AlternativesArePrefixKeys | src/marisa.cpp:186-195 | alternatives are listed exactly for a non-empty word; each prefixes the word in one of its scripts and none has the word's katakana form |
| Segmenter.FindDicFile | src/marisa.cpp:75-87 | the installed list's path when the search finds one, else "Couldn't find the word list." |
| Segmenter.WordListNeededBeforeOptions | src/marisa.cpp:94 | the default of `path_to_dic` runs `find_dic_file` before any option is read: without an installed list `--help` and `--path-to-dic FILE` both print "Couldn't find the word list.", with one they show the help or use FILE |
| Segmenter.DeferredLookupIsIntended | src/marisa.cpp:201-210 | the corrected order always shows the help for `--help`, honours a given `--path-to-dic` whether or not a list is installed, and shows exactly what the code shows wherever a list is installed |
| Segmenter.ScanOverPaths | src/util.h:35-55 | scanning from defaults that differ only in `path_to_dic` ends alike, each with its own default path unless a non-empty `--path-to-dic` was read |
| Segmenter.EmptySentenceUsesWord | src/marisa.cpp:160-162 | an empty or all-space sentence segments the word itself |
| Segmenter.WalkFailsOnlyOnBadBytes | src/marisa.cpp:175-184 | every position of a sentence without bytes 0xF8..0xFF gets its `bword`, so the walk succeeds |
| Headword.CounterMeasuresFromMatchEnd | src/marisa.cpp:182-183 | the counter as written is the word length minus the bytes after the end of the matched position |
| Headword.CounterHighlightsPastHeadword | src/marisa.cpp:182-183 | the counter highlights the ASCII "a" after a found "あ", outside the headword |
| Headword.LegacyRuleIsIntended | gd-marisa/gd-marisa.cpp:88-94 | the legacy `j` rule highlights exactly the positions inside the headword's span |
| Headword.RulesAgreeOnUniformWidth | src/marisa.cpp:182-183 | both rules agree when every codepoint has the same byte length |
| LinkWalk.WalkLinks | src/marisa.cpp:175-184 | one link per position, showing its codepoint and linking to its `bword`, with the counter's verdict as its class |
| LinkWalk.WalkSucceeds | src/marisa.cpp:175-184 | the walk succeeds when every position has a `bword` |
| LinkWalk.WalkFailsAtFirst | src/marisa.cpp:175-184 | a failing walk fails with the failure of the first position without a `bword` |
| LinkWalk.WalkNeedsAll | src/marisa.cpp:175-184 | a walk that succeeds found a `bword` for every position |
| SplitSegmenter.CmpLen | src/marisa_split.cpp:120-123 | `cmp_len` orders strictly shorter first |
| SplitSegmenter.FirstLongestOf | src/marisa_split.cpp:201 | `ranges::max(headwords, cmp_len)` is an element of greatest length, the first such in order |
| SplitSegmenter.FindDeinflectionsStartingWith | src/marisa_split.cpp:131-145 | the reversed loop emplaces one entry per codepoint, from the whole string down to the first codepoint |
| SplitSegmenter.DeinflectionsLongestFirst | src/marisa_split.cpp:131-145 | on well-formed input there is one entry per codepoint, longest first, each shorter than the one before, each carrying `deinflect` of its prefix |
| SplitSegmenter.EntriesArePrefixes | src/marisa_split.cpp:139 | every entry is a non-empty prefix of the string |
| SplitSegmenter.FindKeywordsStartingWith | src/marisa_split.cpp:147-166 | the loop computes the hit set of all deinflections of all prefixes of the three scripts |
| SplitSegmenter.DeinflectionsOfVariants | src/marisa_split.cpp:150-156 | the flattened view lists each script's entries and each entry's deinflections |
| SplitSegmenter.SplitKeywordsFailOnlyOnBadBytes | src/marisa_split.cpp:147-166 | `find_keywords_starting_with` fails exactly on a byte in 0xF8..0xFF |
| SplitSegmenter.SplitKeywordsArePrefixKeys | src/marisa_split.cpp:147-166 | each hit is a key that prefixes a deinflection of a prefix of one script, and every such key is held |
| SplitSegmenter.Normalised | src/marisa_split.cpp:170-178 | the word is folded before its whitespace is erased; a sentence left empty takes the folded word, otherwise it is folded itself |
| SplitSegmenter.Marked | src/marisa_split.cpp:221-228 | an alternative is marked exactly when it is byte-equal to the word |
| SplitSegmenter.SplitLookupWords | src/marisa_split.cpp:168-235 | the method computes the page: the links and the hit sets of all positions |
| SplitSegmenter.WalkSplitSentence | src/marisa_split.cpp:193-215 | the loop yields one link and one hit set per codepoint, with a 60-byte window |
| SplitSegmenter.PrintAlternatives | src/marisa_split.cpp:218-231 | the alternatives loop skips empty hit sets and marks the word in the others |
| SplitSegmenter.SplitMissingDictionaryRaises | src/marisa_split.cpp:183-184 | a missing word list raises before anything is looked up |
| SplitSegmenter.EmptySentenceTakesFoldedWord | src/marisa_split.cpp:174-175 | an empty sentence takes the word as folded once |
| SplitSegmenter.BwordIsFirstLongestHit | src/marisa_split.cpp:201 | `bword` is the codepoint when nothing is found, else the first longest hit, which may be a dictionary form absent from the sentence |
| SplitSegmenter.SplitLinksFit | src/marisa_split.cpp:193-213 | one link per codepoint of the normalised sentence, showing it, linking to its `bword`, classed by the counter |
| SplitSegmenter.PrintedGroups | src/marisa_split.cpp:219-230 | the alternatives list every non-empty hit set and no other, each element marked iff it is the word |
| SplitSegmenter.SplitLookupFailsOnlyOnBadBytes | src/marisa_split.cpp:168-235 | with the word list present the lookup fails exactly when the normalised sentence holds a byte in 0xF8..0xFF |
| SplitSegmenter.SplitWordListNeededBeforeOptions | src/marisa_split.cpp:106 | without an installed list every command line, `--help` included, prints "Couldn't find the word list."; with one `--help` shows the help |
| SplitSegmenter.WindowHasHitSet | src/marisa_split.cpp:196-201 | every 60-byte window of a sentence without bytes 0xF8..0xFF has its hit set and its `bword` |
| Legacy.LeadLen | gd-marisa/gd-marisa.cpp:74-83 | a continuation byte is skipped, a lead byte sets `byte`, and a byte no test matches leaves it stale |
| Legacy.MaskTests | gd-marisa/gd-marisa.cpp:74-83 | each mask test selects a byte range: 0x80..0xBF, 0x00..0x7F, 0xC0..0xDF, 0xE0..0xEF, 0xF0..0xF7 |
| Legacy.LeadLenAgreesWithClassifier | gd-marisa/gd-marisa.cpp:74-83 | on the bytes it accepts, the inline test gives the shared classifier's lengths |
| Legacy.ClassifyByte | gd-marisa/gd-marisa.cpp:74-83 | the mask tests, in the order of the code, compute that classification |
| Legacy.LeadsAreUnicodeChars | gd-marisa/gd-marisa.cpp:71-97 | on a sentence without bytes 0xF8..0xFF the walk visits exactly the positions of `iter_unicode_chars`, and the initial `byte` is never used |
| Legacy.StaleByteAfterAscii | gd-marisa/gd-marisa.cpp:74-83 | the byte 0xF8 after "A" is shown with the stale length 1 |
| Legacy.UninitialisedByteRead | gd-marisa/gd-marisa.cpp:69 | a sentence starting with 0xF8 is shown with the uninitialised value of `byte` |
| Legacy.Highlight | gd-marisa/gd-marisa.cpp:88-96 | `j` becomes the `bword` length on a match; the position is bold while `j > 0`, and only then does `j` drop by `byte` |
| Legacy.GdMarisaLinks | gd-marisa/gd-marisa.cpp:71-97 | the sentence loop computes the links of the specified walk |
| Legacy.CounterAfterIsLegacyCounter | gd-marisa/gd-marisa.cpp:88-94 | `j` is the legacy counter of the headword rule |
| Legacy.LegacyBoldIsHeadwordSpan | gd-marisa/gd-marisa.cpp:88-96 | a link is bold exactly when its position starts inside the span of the last found word |
| Legacy.LegacyLinksShowCodepoints | gd-marisa/gd-marisa.cpp:71-97 | one link per codepoint, showing it, whose target is the longest key that starts there or the codepoint itself |
| Legacy.LegacyAlternatives | gd-marisa/gd-marisa.cpp:101-107 | the loop prints the keys the search reports until one has the word's length |
| Legacy.TakeShorterKeepsShorter | gd-marisa/gd-marisa.cpp:101-107 | over keys of strictly growing length up to `n`, stopping at the first of length `n` keeps exactly the shorter ones |
| Legacy.LegacyAlternativesAreShorterKeys | gd-marisa/gd-marisa.cpp:101-107 | the listed keys are exactly the keys that are proper prefixes of the word, shortest first |
| Legacy.DictPath | gd-marisa/gd-marisa.cpp:55 | the third argument is the dictionary path when given, else the installed word list |
| Legacy.GdMarisaMain | gd-marisa/gd-marisa.cpp:48-113 | fewer than two arguments or a missing dictionary give exit status 1 and no page; otherwise the links and alternatives |
| Legacy.LinkTargetIsLongest | gd-mecab2/createlinks.cpp:7-15 | the target is the longest key that prefixes the suffix, or its first 3 bytes when there is none |
| Legacy.CreateLinks | gd-mecab2/createlinks.cpp:62-77 | the sentence loop emits one link per visited position |
| Legacy.AnchorsShowCodepoints | gd-mecab2/createlinks.cpp:62-77 | on a sentence without bytes 0xF8..0xFF there is one link per codepoint, in order, showing it |
| Legacy.CreateLinksMain | gd-mecab2/createlinks.cpp:48-82 | fewer than two arguments prints usage and fails; otherwise one link per position |
| MecabSplit.ReplaceAll | src/mecab_split.cpp:133-141 | the loop replaces every non-overlapping occurrence left to right, resuming after the inserted text |
| MecabSplit.ReplaceEveryLength | src/mecab_split.cpp:133-141 | with no occurrence the string is unchanged; otherwise the length changes by `|to| - |from|` per occurrence |
| MecabSplit.InsertedTextIsNotRescanned | src/mecab_split.cpp:138 | replacing "a" by "aa" in "a" gives "aa" and stops |
| MecabSplit.EmptyPatternIsAlwaysFound | src/mecab_split.cpp:136-139 | with an empty `from` the search always succeeds within the string, so the loop never ends |
| MecabSplit.ReplaceOnlyOccurrence | src/mecab_split.cpp:133-141 | a pattern that occurs only once is replaced there and nowhere else |
| MecabSplit.Assign | src/mecab_split.cpp:119-130 | `--word`, `--sentence` and `--user-dict` set their field, and any other key raises "Unknown argument name" |
| MecabSplit.UnknownOptionIsRejected | src/mecab_split.cpp:127-128 | an unknown option stops `fill_args` with that error |
| MecabSplit.NodeOfWordIsBold | src/mecab_split.cpp:181 | a node whose text is the word comes out with that text in bold |
| MecabSplit.MecabLookedUp | src/mecab_split.cpp:143-192 | normalisation, the missing dictionary directory and tagger errors, and the bold wrapping of the tagger output |
| MecabSplit.BlankSentenceShowsWordInBold | src/mecab_split.cpp:149-150 | an all-space sentence is replaced by the word, which is shown in bold |
| MecabSplit.OutputWithoutWordIsUnchanged | src/mecab_split.cpp:181 | tagger output without a node of the word is shown as written |
| Dispatch.Djbx33a | src/main.cpp:66-75 | the accumulator loop computes the hash from 5381 with `acc * 33 + ch` on every byte |
| Dispatch.HashIsPolynomialModulo | src/main.cpp:66-75 | wrapping at every step is wrapping once at the end; the hash fits in 64 bits and the empty string hashes to 5381 |
| Dispatch.LabelHashes | src/main.cpp:77-80 | the case labels are `djbx33a` of their names, pairwise distinct, and "gd-tools" is not a program-name label |
| Dispatch.ToolsIsNoProgramName | src/main.cpp:88-103 | called as "gd-tools", no case of the first switch matches |
| Dispatch.NoCommandIsHelpFlag | src/main.cpp:105-127 | no command name is "-h" or "--help" |
| Dispatch.BaseName | src/main.cpp:61-64 | the base name is the bytes after the last '/' |
| Dispatch.CaseOf | src/main.cpp:88 | a switch jumps to a label with the hash |
| Dispatch.CaseOfFinds | src/main.cpp:88-103 | a label is found exactly when one has the hash |
| Dispatch.ProgramNameSelectsTool | src/main.cpp:84-103 | called by a tool's name, the program runs that tool on all its arguments |
| Dispatch.CommandSelectsTool | src/main.cpp:110-127 | called as "gd-tools", the first argument selects the tool, which gets the arguments after it |
| Dispatch.HelpFlagPrintsHelp | src/main.cpp:105-108 | no argument, "-h" or "--help" prints help |
| Dispatch.UnknownCommandPrintsHelp | src/main.cpp:129-130 | an unknown command prints help |
| Dispatch.EchoRunsStrokeOrder | src/main.cpp:91-92 | both "gd-echo" and "gd-tools echo" run the stroke order tool |
| SplitView.SplitRoundTrip | src/anki_search.cpp:113-125 | a non-empty text split and joined comes back, with one piece more than delimiters, none holding one; only the empty text has no pieces |
| SplitView.SplitOfJoin | src/anki_search.cpp:113-125 | delimiter-free pieces joined and split come back, except a single empty piece |
| SplitView.PiecesOfJoin | src/anki_search.cpp:113-125 | one or more delimiter-free pieces joined and split again come back |
| AnkiSearch.EmptyNamesAreKept | src/anki_search.cpp:118-123 | ",a,," splits into "", "a", "" and "" |
| AnkiSearch.Assign | src/anki_search.cpp:134-145 | the four keys set their field (`--show-fields` split at commas), and other keys are ignored |
| AnkiSearch.UnknownOptionIsIgnored | src/anki_search.cpp:134-145 | an unknown option with a proper value changes nothing |
| AnkiSearch.MakeFindCardsRequest | src/anki_search.cpp:148-170 | the query is the word, wrapped in the field filter and then prefixed by the deck filter when those are given, and replaces the template query |
| AnkiSearch.QueryParts | src/anki_search.cpp:158-165 | the query is the word between a head and a tail that depend only on the field and deck names |
| AnkiSearch.BareWordQuery | src/anki_search.cpp:153-167 | with no field or deck name the query is the bare word, never "deck:current" |
| AnkiSearch.QueryDeterminesWord | src/anki_search.cpp:158-165 | for the same field and deck names, different words give different queries |
| AnkiSearch.DeckFilterComesFirst | src/anki_search.cpp:163-165 | with a deck name the query starts with the quoted deck filter and a space |
| AnkiSearch.FieldCell | src/anki_search.cpp:288-290 | a cell shows "Not present" exactly when the field is absent or empty |
| AnkiSearch.RowCells | src/anki_search.cpp:285-292 | one cell per `--show-fields` name, in order |
| AnkiSearch.NoWordShowsHelp | src/anki_search.cpp:299-308 | without a word the help text is shown and AnkiConnect is not asked |
| AnkiSearch.TableListsFoundCards | src/anki_search.cpp:272-297 | a successful search lists exactly the ids found |
| SentenceLine.CalculateDifficulty | gd-sentence-line.c:12-27 | the counter loop grades the number of vowels |
| SentenceLine.LevelGrades | gd-sentence-line.c:20-26 | the difficulty is 1, 2 or 3 (at most 2 vowels easy, 5 or more hard) and never drops as vowels are added |
| SentenceLine.LongerIsNoEasier | gd-sentence-line.c:12-27 | appending text never lowers the difficulty |
| SentenceLine.VowelCountAppend | gd-sentence-line.c:14-19 | the vowels of two pieces add up |
| SentenceLine.CaseIsIgnored | gd-sentence-line.c:15 | "AEIOU" and "aeiou" both count five vowels |
| SentenceLine.RemovePunctuations | gd-sentence-line.c:29-41 | the buffer has room for the string and its NUL, and holds the non-punctuation bytes in order, then a NUL |
| SentenceLine.Strlen | gd-sentence-line.c:14 | `strlen` is the position of the first NUL |
| SentenceLine.DepunctKeepsOthers | gd-sentence-line.c:33-37 | the stripped text holds no punctuation and is no longer than the input |
| SentenceLine.DepunctFixes | gd-sentence-line.c:33-37 | a string is its own stripped form exactly when it holds no punctuation |
| SentenceLine.DepunctIdempotent | gd-sentence-line.c:33-37 | stripping twice is stripping once |
| SentenceLine.CleanWord | gd-sentence-line.c:70 | the C string in the returned buffer is exactly the stripped word |
| SentenceLine.TokensAreTheWords | gd-sentence-line.c:67-85 | `strtok` tokens are non-empty, hold no space, and together are the sentence without its spaces |
| SentenceLine.Strtok | gd-sentence-line.c:67-85 | one call skips spaces, returns the next run and the position after it, or nothing when only spaces are left |
| SentenceLine.PrintLinks | gd-sentence-line.c:67-87 | the token loop emits one link per token, in order |
| SentenceLine.RenderRules | gd-sentence-line.c:70-84 | a link is active exactly when the stripped token is the word; only with `--difficulty` are hard words red and medium ones yellow |
| SentenceLine.ParseArgs | gd-sentence-line.c:43-66 | fewer than three arguments is a usage error; each argument before the last two must be a known flag; the last two are the sentence and the word |
| Massif.Assign | src/massif.cpp:64-71 | `--max-time` takes the parsed number or 6 seconds, `--word` sets the word, other keys are ignored |
| Massif.MaxTimeFallsBack | src/massif.cpp:64-71 | "soon" falls back to 6 seconds, "12s" gives 12 |
| Massif.ExampleWindow | src/massif.cpp:83-92 | the printed lines are the contiguous run from the first line holding the list start up to, not including, the next line holding `</ul>` |
| Massif.NoStartNoExamples | src/massif.cpp:87-89 | a page without the start marker prints no example |
| Massif.ExampleLinesAreLines | src/massif.cpp:85 | every printed line is a whole line of the page |
| Massif.FetchRules | src/massif.cpp:74-81 | the page of the word is requested with the configured timeout, and a status other than 200 raises "Couldn't connect to Massif." |
| Massif.DefaultTimeout | src/massif.cpp:97-105 | `--word W` alone waits 6 seconds, then shows the error or the examples |
| StrokeOrder.Assign | src/stroke_order.cpp:52-61 | `--max-len` takes the parsed number or 15, `--font-size` and `--word` set their field, other keys are ignored |
| StrokeOrder.MaxLenFallsBack | src/stroke_order.cpp:52-61 | "abc" falls back to 15 bytes, "3" gives 3 |
| StrokeOrder.PlaceholderOccursOnce | src/stroke_order.cpp:38-44 | the template holds `<FONTSIZE>` once, right after its head |
| StrokeOrder.CssReplacesPlaceholder | src/stroke_order.cpp:64-71 | replacing the first placeholder puts the font size between the head and the tail, whatever the font size holds |
| StrokeOrder.ReplaceFirstAfter | src/util.cpp:71-76 | when the first occurrence in `head + pat + tail` is the one after `head`, that one is replaced |
| StrokeOrder.PrintCss | src/stroke_order.cpp:64-71 | the copy-and-replace prints the style sheet with the font size in place of the placeholder |
| StrokeOrder.CssDeterminesFontSize | src/stroke_order.cpp:64-71 | different font sizes give different style sheets |
| StrokeOrder.StyledWord | src/stroke_order.cpp:73-79 | something is printed exactly when the word is at most `max_len` bytes, and then it starts with the word's block and ends with the style sheet |
| StrokeOrder.PrintWithStrokeOrder | src/stroke_order.cpp:73-79 | the length check, the block and `print_css` compute that output |
| StrokeOrder.DefaultLimit | src/stroke_order.cpp:46-79 | `--word W` prints W at 10rem when it has at most 15 bytes, and nothing when it is longer |

## Left out

- I/O is not modelled: printing, files, the network (AnkiConnect, Massif, Bing, SimplyTranslate), JSON and `std::regex`. Printed HTML is returned as data. The curl block of `gd-sentence-line.c`, `gd_format` and the CSS constants are not part of this model.
- The marisa trie and its agent are a set of keys with a pure common-prefix search. The deinflector, `half_to_full`, the MeCab tagger and HTTP requests are parameters. The half-width table is not part of this model.
- The `JpSet` of `src/marisa_split.cpp` is declared outside the shown files. The model takes its ordering key as a parameter.
- The file-system probes are not modelled. `find_dic_file` is modelled by what it finds (`installed`), and the word list stored at a path by a `load` parameter. `find_user_dict_file` and `find_dic_dir` are reduced to whether the file or directory exists.
- `enum_unicode_chars` and its element type `Utf8CharView{idx, ch}` are declared outside the shown files. The walks of `src/marisa.cpp:175` and `src/marisa_split.cpp:135,193` are modelled as `iter_unicode_chars` (`src/kana_conv.h:18-29`), with `idx` as the offset of a codepoint and `ch` as its substring.
- `src/echo.cpp`, `src/images.cpp` and `src/translate.cpp` are not modelled: they hold only option setters around I/O. The dispatch routes to them by name only.
- Locale: `isspace`, `ispunct` and `tolower` follow the C locale on ASCII. Bytes above 0x7F are never spaces, punctuation or upper case.
- Legacy.GdMarisaMain: `byte` is uninitialised in the source. Its initial value is a parameter (`byte0`).
- Legacy.CreateLinksMain: `byte` is uninitialised in the source. Its initial value is a parameter (`byte0`).
- MecabSplit.ReplaceAll: requires a non-empty `from`, because the source loops forever on an empty one (`EmptyPatternIsAlwaysFound`). Its only caller passes `>word<`.
- Dispatch.TakeAction: requires a non-empty argument list, standing for `args.front()` at `src/main.cpp:84`, as `main` always passes the program name.
- Dispatch.Djbx33a: `char` is taken as signed, so bytes above 0x7F add a negative value before wrapping.
- Util.ParseNumber: fixed to the 64-bit `std::size_t` that every caller uses.
- Partial output printed before an exception is not modelled. A failing run yields only the error.

## Findings

| source | as written | input that shows it | evidently intended | confidence | as-written member | corrected member |
|---|---|---|---|---|---|---|
| src/marisa.cpp:182-183 | the counter is set to the word's length on a match and otherwise reduced by the current codepoint's length before the test, so it measures from the end of the matched position instead of its start | word "あ", sentence "あa": the "a" after the headword is highlighted | highlight exactly the positions inside the headword's span, as the legacy `j` rule of gd-marisa does | not executed | Headword.CounterHighlightsPastHeadword | Headword.LegacyRuleIsIntended |
| src/marisa.cpp:94 | `path_to_dic` defaults to `find_dic_file()`, which runs when `fill_args` builds the defaults, before any option is read (the same at src/marisa_split.cpp:106) | no installed word list, arguments `--help` or `--word W --path-to-dic FILE`: both print "Couldn't find the word list." | read the options first and search the installed locations only when no `--path-to-dic` was given, since the help text calls that option optional | not executed | Segmenter.WordListNeededBeforeOptions | Segmenter.DeferredLookupIsIntended |
