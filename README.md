# str_utils in Dafny

A model of the core of `str_utils`, a Rust crate of string utilities, with proofs of
what its code promises. Strings are `seq<char>`. The Unicode data the crate takes from
the standard library and from `unicode_normalization`/`unidecode` is a record of
functions, `Unicode.CharData`, passed to every operation that needs it:

- `to_lowercase` / `to_uppercase` of a char
- `str::to_lowercase`
- `is_numeric`, `is_alphanumeric`, `is_whitespace` and `is_control`
- the canonical decomposition of Unicode Standard Annex #15
- the `unidecode` transliteration

Example lemmas ask only `AsciiConforming(u)`, the facts every Unicode version states about
ASCII chars, plus the few non-ASCII mappings a test relies on.

The model covers these parts of the crate:

- **The fold table.** `build.rs` writes one 10-byte record per value `0..=char::MAX`: a
  length byte, the UTF-8 bytes of the lowercase, decomposed, filtered entry, then zero
  padding. `lower_no_accent_char` reads record `c` back.
  - `FoldTable.BuildTable` is the build loop over a byte sequence, with the panic of an
    entry over 9 bytes as an error value.
  - `FoldTable.TableRoundTrip` proves that the read of record `c` stays inside that
    record and decodes to exactly the entry written for `c`.
  - `Utf8` is a real UTF-8 encoder and decoder, proved inverse both ways.
- **The fold stream.** `MappedChars` is a class with the two cursors of the Rust
  iterator. `Next` is proved against the fold of the remaining source. Equality and
  ordering work on clones and are proved to be equality and lexicographic order of
  what remains.
- **Natural ordering (`human_cmp`).** There is a tokenizer class with `take_while` and
  `next`, and a token comparison. Lemmas prove:
  - the tokens partition the input into maximal runs;
  - numbers of ASCII digits compare by magnitude;
  - `eq` agrees with `cmp`;
  - the order is antisymmetric and reflexive;
  - the order is not transitive: `HumanCmp.NotTransitiveExample` gives three strings that compare in a cycle, because a number and a text compare by their raw strings while two texts compare by their folds;
  - the test cases hold.
- **Accent- and case-insensitive comparison** (`cmp.rs`, `str_utils_ext.rs`,
  `char_map/lower.rs`):
  - char and string `eq_*`/`cmp_*`, with the loops `eq_chars` and `ord_chars`;
  - `search`, `starts_with`, `ends_with`, `find_*` as byte offsets, `contains_*`,
    `truncate_chars` and `no_accent*`;
  - the `Lower` wrapper.
- **Validators and formatters**:
  - `fs.rs` filename and sub-path validation and `format_sub_path`;
  - URL char whitelisting, following sections 2.1 to 2.3 of RFC 3986;
  - control-char sanitising;
  - the composable `FormStr` formats;
  - `TrimInPlace`, as classes whose methods overwrite their content;
  - `NoneIfEmpty`.

`format_sub_path` pushes the trimmed segments with nothing between them. The model does
the same: `Fs.JoinTrimmedHasNoSeparator` and `Fs.FormatWithoutSpaces` state that the
result is the input with its separators removed.

## Model

| member | source | states |
|---|---|---|
| Utf8.DecodeEncode | src/char_map/lower_no_accent.rs:13-17 | decoding the UTF-8 encoding of any chars gives those chars back, so the unchecked `from_utf8` of bytes written by `as_bytes` is sound |
| Utf8.EncodeDecode | build.rs:29 | every byte sequence that decodes is the encoding of what it decodes to |
| Utf8.EncodeLength | build.rs:28 | the byte length `len()` of a string is the length of its encoding |
| Utf8.CharCountAtMostLength | src/form_str.rs:285-289 | a string never has more chars than bytes |
| Order.LexByFirstDifference | src/cmp.rs:272-290 | the lexicographic walk returns the first non-Equal pair result, else the comparison of the lengths |
| Order.LexByEqualIffPairwise | src/cmp.rs:160-176 | the walk gives Equal exactly when both lengths agree and every pair is Equal |
| Order.LexByAntisymmetric | src/cmp.rs:219-236 | swapping the sides reverses the walk's result when the pair order is antisymmetric |
| Order.LexByReflexive | src/char_map/human_cmp.rs:113 | a sequence compares Equal to itself when every element does |
| Order.SeqCmpEqualIff | src/form_str.rs:130-142 | string `cmp` says Equal exactly for equal strings |
| Order.SeqCmpAntisymmetric | src/form_str.rs:144-149 | swapping two strings reverses their order |
| Trimming.Trim | src/fs.rs:70 | `trim` returns an infix with only whitespace cut on either side and no whitespace at either end |
| Trimming.TrimEmptyIff | src/none_if_empty.rs:24 | the trimmed string is empty exactly when every char is whitespace |
| Trimming.TrimNoSpaceAtEnds | src/trim_in_place.rs:20-22 | a string with no whitespace at either end trims to itself |
| Trimming.TrimLeadingSpace | src/form_str.rs:338 | with whitespace only in front, trimming drops exactly that prefix |
| Trimming.TrimSurrounded | src/url.rs:25 | whitespace added around a string without surrounding whitespace is all that trimming removes |
| Trimming.TrimIdempotent | src/trim_in_place.rs:20-26 | trimming twice is trimming once |
| Trimming.TrimSameLengthIffUnchanged | src/trim_in_place.rs:22-24 | trimming keeps the byte length exactly when it changes nothing, which is what the `len()` comparison relies on |
| FoldTable.Record | build.rs:19 | every record is exactly 10 bytes |
| FoldTable.LowerNoAccent | build.rs:22-25 | the fold of one char: its lowercase, decomposed, keeping only ASCII chars and alphanumerics; `AsciiFold` and `AccentedFold` state what it gives |
| FoldTable.Entry | build.rs:16-26 | the entry written for value `i`: the fold of `i` when it is a char, nothing for a surrogate; `EntryChars` computes it in place |
| FoldTable.BuildTable | build.rs:16-32 | on success the output holds, at byte `10*i`, the record of entry `i` for every value; otherwise the error names the first entry over 9 bytes and all earlier ones fit |
| FoldTable.EntryChars | build.rs:17-26 | the scratch string is cleared and then holds exactly the kept chars of the decomposed lowercase, in order; surrogates get none |
| FoldTable.RecordBytes | build.rs:28-29 | the zeroed buffer receives the length byte and the payload: exactly the record layout |
| FoldTable.AppendRecord | build.rs:31 | appending a record keeps every earlier record at its offset |
| FoldTable.RecordAt | build.rs:16-31 | in a built table, record `i` sits at bytes `[10*i, 10*i+10)` and its entry fits |
| FoldTable.TableRoundTrip | src/char_map/lower_no_accent.rs:7-17 | the read of record `c` is in bounds, stays inside the record and decodes to the entry encoded for `c` |
| FoldTable.LowerNoAccentChar | src/char_map/lower_no_accent.rs:4-18 | reads record `c` of the table: its length byte, then that many payload bytes, decoded; `TableRoundTrip` proves it returns the entry of `c` |
| FoldTable.SurrogateRecordIsZero | build.rs:19-21 | the records of values that are not chars are all zero |
| FoldTable.AsciiFold | build.rs:22-25 | an ASCII char folds to its ASCII lowercase alone |
| FoldStream.FoldStringCons | src/char_map/mod.rs:28-35 | the fold of a string is the entry of its first char followed by the fold of the rest |
| FoldStream.FoldString | src/char_map/lower_no_accent.rs:21-26 | the folded string: the entries of the chars in order; `MappedChars.Next` and `FoldAll` prove the stream yields it |
| FoldStream.MappedChars.LowerNoAccentChars | src/char_map/lower_no_accent.rs:21-26 | a new stream has the whole source and an empty pending entry; it will yield the fold of the source |
| FoldStream.MappedChars.Clone | src/char_map/mod.rs:11 | a clone has the same cursors and yields the same chars |
| FoldStream.MappedChars.Next | src/char_map/mod.rs:23-37 | returns the first char still to come, or None when nothing remains; what remains loses exactly that char; a pending char is returned before the source advances |
| FoldStream.MappedChars.Equals | src/char_map/mod.rs:40-44 | true exactly when both streams yield the same chars; neither operand changes |
| FoldStream.MappedChars.Cmp | src/char_map/mod.rs:52-56 | the lexicographic order of what both streams yield, Equal exactly when `Equals` holds; neither operand changes |
| FoldStream.Collect | src/char_map/lower_no_accent.rs:30-33 | draining a stream yields exactly what remained and leaves it empty |
| FoldStream.FoldAll | src/char_map/lower_no_accent.rs:30 | collecting the stream of a string yields the entries of its chars in source order |
| FoldStream.FoldStringAppend | src/char_map/mod.rs:28-36 | the fold distributes over concatenation |
| FoldStream.FoldAscii | src/char_map/lower_no_accent.rs:32 | ASCII text folds to its ASCII lowercase with punctuation and spaces kept |
| FoldStream.AccentedFold | build.rs:22-25 | a char decomposing into an ASCII letter and a non-alphanumeric mark folds to that letter |
| FoldStream.AccentRemovalExample | src/char_map/lower_no_accent.rs:30 | "àéï" folds to "aei" |
| FoldStream.PunctuationKeptExample | src/char_map/lower_no_accent.rs:31 | "à.é ï" folds to "a.e i" |
| FoldStream.DigitsKeptExample | src/char_map/lower_no_accent.rs:32 | "123" folds to "123" |
| HumanCmp.RunLength | src/char_map/human_cmp.rs:22-32 | the length of the longest prefix whose chars all have the given `is_numeric` |
| HumanCmp.Tokenize | src/char_map/human_cmp.rs:38-57 | the token sequence of a string; `TokenizePartition` and `TokenizeMaximalRuns` pin it down as the split into maximal runs, `Tokenizer.Next` yields it |
| HumanCmp.HeadToken | src/char_map/human_cmp.rs:38-57 | the first token is a non-empty prefix of the input, of the class of its first char |
| HumanCmp.TokenizePartition | src/char_map/human_cmp.rs:38-57 | the tokens, concatenated in order, are the input; the empty string has none |
| HumanCmp.TokenizeHead | src/char_map/human_cmp.rs:39-41 | a non-empty input starts with a token of its first char's class |
| HumanCmp.TokenizeMaximalRuns | src/char_map/human_cmp.rs:41-53 | every token is a non-empty run of one class and neighbouring tokens differ in class |
| HumanCmp.Tokenizer.constructor | src/char_map/human_cmp.rs:15-20 | a new tokenizer will yield the tokens of the whole input |
| HumanCmp.Tokenizer.TakeWhile | src/char_map/human_cmp.rs:22-32 | advances past exactly the run of the given class; returns the position of the next char, or None at the end |
| HumanCmp.Tokenizer.Next | src/char_map/human_cmp.rs:38-57 | returns the next token of the tokenization and drops it from what remains, or None at the end |
| HumanCmp.TrimZeros | src/char_map/human_cmp.rs:91-92 | the suffix left after the leading '0's: it does not start with '0' |
| HumanCmp.TokenEq | src/char_map/human_cmp.rs:67-79 | two numbers are equal when equal after dropping leading zeros, two texts when their folds are equal, a number and a text when the raw strings are; `TokenEqIffCmpEqual` ties it to `TokenCmp` |
| HumanCmp.TokenCmp | src/char_map/human_cmp.rs:87-102 | numbers by length after dropping leading zeros, then digit by digit; text by its fold; a number against text by the raw strings; `NumberTokensByMagnitude` and the antisymmetry lemmas state its meaning |
| HumanCmp.HumanOrder | src/char_map/human_cmp.rs:5-7 | the lexicographic order of the token sequences under `TokenCmp`; `Compare` computes it with two tokenizers |
| HumanCmp.TokenEqIffCmpEqual | src/char_map/human_cmp.rs:67-102 | token `eq` holds exactly when token `cmp` says Equal |
| HumanCmp.TokenCmpAntisymmetric | src/char_map/human_cmp.rs:87-102 | swapping two tokens reverses their order |
| HumanCmp.TokenCmpReflexive | src/char_map/human_cmp.rs:87-102 | a token compares Equal to itself |
| HumanCmp.TrimZerosValue | src/char_map/human_cmp.rs:91-92 | stripping leading zeros keeps the value of a digit string |
| HumanCmp.LeadingDigitDecides | src/char_map/human_cmp.rs:94 | of two digit strings of one length, the one with the smaller first digit has the smaller value |
| HumanCmp.NoLeadingZerosByMagnitude | src/char_map/human_cmp.rs:90-94 | digit strings without leading zeros ordered by length, then digit by digit, are ordered as their values |
| HumanCmp.SameLengthDigits | src/char_map/human_cmp.rs:94 | digit strings of one length compare as their values do |
| HumanCmp.NumberTokensByMagnitude | src/char_map/human_cmp.rs:90-94 | two ASCII-digit number tokens compare as their numeric values |
| HumanCmp.Compare | src/char_map/human_cmp.rs:5-7 | walking both tokenizers in step gives the lexicographic order of the token sequences |
| HumanCmp.HumanOrderAntisymmetric | src/char_map/human_cmp.rs:106-107 | swapping the arguments reverses the result |
| HumanCmp.HumanOrderReflexive | src/char_map/human_cmp.rs:113 | every string is Equal to itself |
| HumanCmp.SingleRun | src/char_map/human_cmp.rs:22-32 | a non-empty string of one class is one token |
| HumanCmp.TwoRuns | src/char_map/human_cmp.rs:41-53 | a run of one class followed by a run of the other gives two tokens |
| HumanCmp.EmptyIsLeastExample | src/char_map/human_cmp.rs:106-112 | "" < "1", "1" > "" and "a1ac1" > "" |
| HumanCmp.DigitStringsByValue | src/char_map/human_cmp.rs:108-109 | whole ASCII digit strings compare by value |
| HumanCmp.MagnitudeExample | src/char_map/human_cmp.rs:108-109 | "10" > "1" and "010" > "1" |
| HumanCmp.SignExample | src/char_map/human_cmp.rs:110 | "-010" < "1" |
| HumanCmp.LetterExample | src/char_map/human_cmp.rs:111 | "a" < "b" |
| HumanCmp.AccentInsensitiveExample | src/char_map/human_cmp.rs:120-122 | "4é" = "4e", "4ç" = "4c", "4Ç" = "4C": a digit and an accented letter equal the digit and the base letter in either case |
| HumanCmp.EmptyFold | build.rs:22-25 | a non-ASCII char that is not alphanumeric and maps to itself folds to nothing |
| HumanCmp.NotTransitiveExample | src/char_map/human_cmp.rs:87-102 | "-" < "1", "1" < "€" and "€" < "-": the order is not transitive |
| CmpExt.CharEqIffCmpEqual | src/cmp.rs:66-105 | char `eq_ai`, `eq_ai_ci`, `eq_ci` hold exactly when the matching `cmp_*` says Equal; the `==` fast path changes nothing |
| CmpExt.CharEq | src/cmp.rs:65-105 | `eq_ai`, `eq_ai_ci`, `eq_ci` on chars: the `==` fast path, then equal transliterations, equal transliterations in either case, or equal lowercases; `CharEqIffCmpEqual` and `CharEqReflexiveSymmetric` state its meaning |
| CmpExt.CharCmp | src/cmp.rs:219-236 | the char `cmp_*`: the order of the transliterations, of their lowercases, or of the lowercases; `CharCmpAntisymmetric` states it |
| CmpExt.CharEqReflexiveSymmetric | src/cmp.rs:65-105 | every char `eq_*` holds between a char and itself and does not depend on the operand order |
| CmpExt.CharCmpAntisymmetric | src/cmp.rs:219-236 | swapping two chars reverses `cmp_*` |
| CmpExt.EqChars | src/cmp.rs:160-176 | true exactly when both strings have the same char count and the char relation holds pairwise |
| CmpExt.OrdChars | src/cmp.rs:272-290 | the first non-Equal char result; the side that runs out first is Less; Equal when both run out together |
| CmpExt.FastPathRedundant | src/cmp.rs:108-132 | identical strings pass the pairwise check too |
| CmpExt.LengthMismatch | src/cmp.rs:172 | strings of different char counts are never `eq_*` |
| CmpExt.StrEqIffCmpEqual | src/cmp.rs:238-253 | string `eq_*` holds exactly when string `cmp_*` says Equal |
| CmpExt.StrCmpAntisymmetric | src/cmp.rs:240-252 | swapping two strings reverses `cmp_*` |
| CmpExt.StrEq | src/cmp.rs:108-132 | string `eq_*`: the `==` fast path or the pairwise char relation; `EqChars` computes it |
| CmpExt.StrCmp | src/cmp.rs:238-253 | string `cmp_*`: the lexicographic order under the char `cmp_*`; `OrdChars` computes it |
| CmpExt.StrEqReflexiveSymmetric | src/cmp.rs:108-132 | string `eq_*` holds between a string and itself and does not depend on the operand order |
| CmpExt.CharExamples | src/cmp.rs:292-317 | 'a' eq_ai 'à', not 'A' or 'b'; 'A' eq_ci 'a' both ways; 'A' eq_ai_ci 'À' and 'À' eq_ai_ci 'a' |
| CmpExt.StrExamples | src/cmp.rs:319-335 | "abc" vs "abca" is false under every variant; "abc" eq_ci "ABC", eq_ai "àbc", eq_ai_ci "ÀBc" |
| StrUtils.Search | src/str_utils_ext.rs:416-434 | Found exactly when the pattern matches a prefix (so an empty pattern always does); NotFoundFinal exactly when the source runs out first with every pair matching; NotFoundContinue otherwise |
| StrUtils.StartsWith | src/str_utils_ext.rs:409-414 | the pattern is no longer than the source and matches its leading chars pairwise |
| StrUtils.HasPrefix | src/str_utils_ext.rs:408-414 | the pattern is no longer than the source and matches its leading chars pairwise; `Search` and `StartsWith` decide it |
| StrUtils.HasSuffix | src/str_utils_ext.rs:400-406 | the prefix relation of the reversed strings; `ReversedPrefixIsSuffix` states it as a match of the trailing chars |
| StrUtils.ReversedPrefixIsSuffix | src/str_utils_ext.rs:401-406 | a prefix match of the reversed strings is a suffix match of the strings |
| StrUtils.EndsWith | src/str_utils_ext.rs:401-406 | the pattern is no longer than the source and matches its trailing chars pairwise |
| StrUtils.FirstMatch | src/str_utils_ext.rs:375-388 | the least char position at which the pattern matches; no earlier position matches; none in an empty source |
| StrUtils.FindStr | src/str_utils_ext.rs:375-388 | the byte offset of the first matching char position, or None |
| StrUtils.Contains | src/str_utils_ext.rs:176-211 | true exactly when the pattern matches at some char position of the source |
| StrUtils.TruncateChars | src/str_utils_ext.rs:301-306 | a prefix of the input with `min(n, char count)` chars |
| StrUtils.TruncateIdempotent | src/str_utils_ext.rs:301-306 | truncating twice is truncating once |
| StrUtils.NoAccent | src/str_utils_ext.rs:263-271 | the transliterations of the chars, concatenated in order |
| StrUtils.NoAccentCaseMapped | src/str_utils_ext.rs:273-299 | the case-mapped chars of the transliteration, in order |
| StrUtils.NoAccentLowercase | src/str_utils_ext.rs:273-285 | the per-char lowercase of `no_accent` |
| StrUtils.NoAccentUppercase | src/str_utils_ext.rs:287-299 | the per-char uppercase of `no_accent` |
| StrUtils.NoAccentAscii | src/str_utils_ext.rs:263-271 | ASCII text is its own transliteration |
| StrUtils.NoAccentOneAccent | src/str_utils_ext.rs:265-267 | one transliterated char between ASCII text is the only change |
| StrUtils.NoAccentExample | src/str_utils_ext.rs:141 | "Café Arabica" becomes "Cafe Arabica" |
| StrUtils.EndsWithExample | src/str_utils_ext.rs:438-440 | "Café" ends_with_ai "fe" but not "FE" |
| StrUtils.NoEarlierMatch | src/str_utils_ext.rs:54-58 | "Leopard" matches at none of the first eight positions of "Löwe 老虎 Léopard" |
| StrUtils.FindExample | src/str_utils_ext.rs:58 | find_ai("Leopard") is char 8, byte offset 13 |
| LowerWrapper.EqIffCmpEqual | src/char_map/lower.rs:55-77 | two `Lower` values are equal exactly when `cmp` says Equal |
| LowerWrapper.Iter | src/char_map/lower.rs:41-45 | the lowercase of every char of the wrapped string, in order |
| LowerWrapper.HashInput | src/char_map/lower.rs:49-53 | the chars fed to the hasher: those of `Iter`; `EqualHashInput` ties it to equality |
| LowerWrapper.Cmp | src/char_map/lower.rs:55-59 | the order of the lowercased chars; `CmpAntisymmetric` states it |
| LowerWrapper.Eq | src/char_map/lower.rs:73-77 | equal lowercased chars; `EqIffCmpEqual` ties it to `Cmp` |
| LowerWrapper.EqStr | src/char_map/lower.rs:61-71 | equality with a plain string, as equality with `Lower` of it |
| LowerWrapper.CmpStr | src/char_map/lower.rs:79-89 | order against a plain string, as order against `Lower` of it |
| LowerWrapper.CmpAntisymmetric | src/char_map/lower.rs:55-59 | swapping two `Lower` values reverses their order |
| LowerWrapper.EqualHashInput | src/char_map/lower.rs:49-53 | equal values feed the hasher the same chars |
| LowerWrapper.PairwiseCiGivesEq | src/char_map/lower.rs:41-45 | strings that are `eq_ci` char by char are equal as `Lower` values |
| LowerWrapper.Example | src/char_map/lower.rs:97-101 | `Lower("AbC")` equals `Lower("abc")` and equals "abc" |
| Fs.FindReservedFirst | src/fs.rs:77-84 | the reserved-name scan finds nothing exactly when no name matches, and otherwise the first name in list order that matches case-insensitively |
| Fs.IsInvalidFilenameChar | src/fs.rs:53-68 | a control char, a char below 31 or one of the reserved punctuation chars; `FirstInvalid` finds the first |
| Fs.FindReserved | src/fs.rs:77-84 | the scan of the reserved names for a case-insensitive match; `FindReservedFirst` states it |
| Fs.ReservedNameShapes | src/fs.rs:77-80 | the reserved names have three or four chars and start with C, P, A, N or L; every four-char name starts with 'C' or 'L' |
| Fs.NotReservedFourChars | src/fs.rs:77-84 | a four-char name whose ASCII first char is neither c nor l in any case is not reserved |
| Fs.FirstInvalid | src/fs.rs:53-68 | the position of the first control, below-31 or reserved punctuation char of the untrimmed input |
| Fs.ValidateFilename | src/fs.rs:52-87 | Ok exactly when no char is invalid, the trimmed name does not end in '.' and is no reserved name; Ok holds the trimmed name; an invalid char anywhere in the untrimmed input gives InvalidChar of the first one, before any other check; otherwise a trailing '.' gives EndsWithDot; otherwise a reserved name gives ReservedName of the first matching name in list order |
| Fs.ValidateFilenameIdempotent | src/fs.rs:70-86 | an accepted filename is accepted again, unchanged |
| Fs.Split | src/fs.rs:115 | `split(['/', '\\'])`: at least one piece, none containing a separator |
| Fs.SplitPieces | src/fs.rs:42 | the pieces, concatenated, are the input without its separators |
| Fs.SplitNoSeparator | src/fs.rs:115 | a string without separators is one piece |
| Fs.FirstSegmentError | src/fs.rs:115-123 | None exactly when every segment is non-empty and a valid filename once trimmed; otherwise the error of the first failing segment, every earlier one passing |
| Fs.SegmentError | src/fs.rs:115-123 | the check of one segment: EmptySegment when empty once trimmed, else the error of `validate_filename`; `PlainSegmentError` states it for plain segments |
| Fs.SegmentErrorAt | src/fs.rs:115-123 | when segment `k` fails and every earlier one passes, the loop reports the error of segment `k` |
| Fs.HeadSegmentError | src/fs.rs:115-123 | a failing first segment is the error reported, whatever follows |
| Fs.PlainSegmentError | src/fs.rs:52-87 | a plain ASCII segment fails with EndsWithDot when it ends in '.', and passes when it neither ends in '.' nor is reserved |
| Fs.OneSegmentPath | src/fs.rs:104-126 | a plain ASCII path without separators is accepted or rejected exactly as its single segment is |
| Fs.ValidateSubPathAccepts | src/fs.rs:104-126 | Ok exactly when the trimmed path is neither rooted nor at home and every segment is valid; Root is reported before Home, Home before segment errors |
| Fs.ValidateSubPath | src/fs.rs:104-126 | the sub-path check: Root, then Home, then the first segment error; `ValidateSubPathAccepts` states its meaning |
| Fs.JoinedSplit | src/fs.rs:115 | splitting segments joined by one separator gives the segments back, when they are printable ASCII without separators |
| Fs.PrintablePath | src/fs.rs:104-126 | for printable segments joined by a separator, the result is Home at `~/`, otherwise the first segment error or Ok |
| Fs.RootedPath | src/fs.rs:107-109 | a path starting with '/' or '\\' and ending in a printable char is Root |
| Fs.HomePath | src/fs.rs:111-113 | a path starting with "~/" and ending in a printable char is Home |
| Fs.FirstDotSegment | src/fs.rs:115-123 | a plain first segment ending in '.' makes the path EndsWithDot, whatever follows |
| Fs.SecondDotSegment | src/fs.rs:115-123 | a valid first segment followed by one ending in '.' makes the path EndsWithDot |
| Fs.MiddleDotSegment | src/fs.rs:115-123 | a valid first segment, then one ending in '.', then anything plain makes the path EndsWithDot |
| Fs.DriveSegment | src/fs.rs:53-68 | a drive-letter segment `x:` fails with InvalidChar(':') |
| Fs.DrivePath | src/fs.rs:104-126 | a path starting with a drive letter, ':' and a separator fails with InvalidChar(':') |
| Fs.PushTrimmed | src/fs.rs:40-46 | the trimmed segments pushed one after the other |
| Fs.JoinTrimmed | src/fs.rs:40-46 | the trimmed segments concatenated; `PushTrimmed` builds it and `JoinTrimmedHasNoSeparator` states it has no separator |
| Fs.FormatSubPath | src/fs.rs:37-47 | fails with the error of `validate_sub_path`, otherwise returns the concatenated trimmed pieces of the untrimmed input |
| Fs.JoinTrimmedHasNoSeparator | src/fs.rs:42-44 | the formatted path contains no separator |
| Fs.FormatWithoutSpaces | src/fs.rs:37-47 | without whitespace in the input, formatting only drops the separators |
| Fs.RootExample | src/fs.rs:135 | "/" is rejected with Root |
| Fs.HomeExample | src/fs.rs:133 | "~/" is rejected with Home |
| Fs.TrailingDotExample | src/fs.rs:136 | "txt." is rejected with EndsWithDot |
| Fs.DotSegmentExample | src/fs.rs:137 | "./" is rejected with EndsWithDot |
| Fs.TildeExample | src/fs.rs:132 | "~" is accepted |
| Fs.TildeInNameExample | src/fs.rs:131 | "test~/as.txt" is accepted |
| Fs.LeadingDotsExample | src/fs.rs:139 | "test/..txt" is accepted |
| Fs.TrailingTildeExample | src/fs.rs:130 | "test/~" is accepted |
| Fs.TildesInNameExample | src/fs.rs:134 | "~t~/as.txt" is accepted |
| Fs.DotDotSegmentExample | src/fs.rs:138 | "../" is rejected with EndsWithDot |
| Fs.DotInPathExample | src/fs.rs:140-141 | "do_not_have_1_dots_in_path/./test.txt" is rejected with EndsWithDot |
| Fs.DotDotInPathExample | src/fs.rs:142 | "do_not_have_2_dots_in_path/../test.txt" is rejected with EndsWithDot |
| Fs.DotEndedDirExample | src/fs.rs:143 | "do_not_end_with_dot_in_path./text.txt" is rejected with EndsWithDot |
| Fs.DotEndedFileExample | src/fs.rs:144 | "path/do_not_end_with." is rejected with EndsWithDot |
| Fs.DocAcceptedExample | src/fs.rs:96 | "sub_dir/file.txt" is accepted |
| Fs.DocRootExample | src/fs.rs:97 | "/file.txt" is rejected with Root |
| Fs.DocDotExample | src/fs.rs:98 | "./file.txt" is rejected with EndsWithDot |
| Fs.DocDotDotExample | src/fs.rs:99 | "../file.txt" is rejected with EndsWithDot |
| Fs.DocHomeExample | src/fs.rs:100 | "~/file.txt" is rejected with Home |
| Fs.DocNetworkExample | src/fs.rs:101 | a UNC path starting with two backslashes is rejected with Root |
| Fs.DocDriveExample | src/fs.rs:102 | "c:\\file.txt" is rejected with InvalidChar(':') |
| Fs.CheckOrderExample | src/fs.rs:53-80 | "CON" followed by a newline is rejected for the newline, not as a reserved name: the char check comes first |
| FormStrs.TakeCount | src/form_str.rs:289 | `chars().take(k).count()` is the smaller of k and the char count |
| FormStrs.UnitIdentity | src/form_str.rs:199-203 | the unit format never fails and returns its input |
| FormStrs.Apply | src/form_str.rs:195-203 | runs a format on a string: the unit format returns it, every combinator runs its inner format and then its own step; `WithFormat` and the step lemmas state the result |
| FormStrs.FilenameStep | src/form_str.rs:243-261 | the `Filename` step; `FilenameFormat` states it |
| FormStrs.SubPathStep | src/form_str.rs:322-329 | the `SubPath` step; `SubPathFormat` states it |
| FormStrs.LowerStep | src/form_str.rs:269-273 | the `Lower` step; `CaseFormats` states it |
| FormStrs.UpperStep | src/form_str.rs:350-354 | the `Upper` step; `CaseFormats` and `UpperAscii` state it |
| FormStrs.MaxLenStep | src/form_str.rs:281-297 | the `MaxLen<N>` step; `MaxLenAccepts` states it |
| FormStrs.MinLenStep | src/form_str.rs:305-316 | the `MinLen<N>` step; `MinLenAccepts` states it |
| FormStrs.TrimStep | src/form_str.rs:335-342 | the `Trim` step; `TrimFormat` states it |
| FormStrs.InnerErrorShortCircuits | src/form_str.rs:269-354 | every combinator passes an inner error through unchanged |
| FormStrs.MaxLenAccepts | src/form_str.rs:281-297 | the `MaxLen<N>` step returns the inner result unchanged when it has at most N chars, else `MaxLen(N)`, and passes an inner error through; the byte fast path agrees |
| FormStrs.MinLenAccepts | src/form_str.rs:305-316 | the `MinLen<N>` step returns the inner result unchanged when it has at least N chars, else `MinLen`, and passes an inner error through |
| FormStrs.TrimFormat | src/form_str.rs:335-342 | the `Trim` step never fails on a successful inner result, keeps borrowed or owned, and returns it trimmed, with no whitespace at either end |
| FormStrs.FilenameFormat | src/form_str.rs:243-261 | the `Filename` step succeeds exactly when `validate_filename` does, with the trimmed name, and wraps its error as `Fs` |
| FormStrs.SubPathFormat | src/form_str.rs:322-329 | the `SubPath` step succeeds exactly when `validate_sub_path` does, with the owned joined trimmed segments, and wraps its error as `Fs` |
| FormStrs.UpperAscii | src/form_str.rs:350-354 | on ASCII text the uppercase maps each char to its ASCII uppercase, one for one |
| FormStrs.CaseFormats | src/form_str.rs:269-273 | the `Lower` and `Upper` steps never fail on a successful inner result and own their result; on ASCII text they only change case |
| FormStrs.TrimOneSpace | src/form_str.rs:338 | one leading space before a string with no whitespace at its ends is all that trimming removes |
| FormStrs.BoundedTrim | src/form_str.rs:281-297 | `MaxLen<N, Trim<()>>` on a space-prefixed string keeps the trimmed string when it has at most N chars, else fails with `MaxLen(N)` |
| FormStrs.OwnedStaysOwned | src/form_str.rs:244-354 | no format turns an owned string into a borrowed one |
| FormStrs.WithFormat | src/form_str.rs:40-48 | stores exactly the format's output together with the format, or returns the format's error |
| FormStrs.New | src/form_str.rs:26-31 | `new`: `with_format` with the format value |
| FormStrs.NewOpt | src/form_str.rs:33-38 | `new_opt`: `new` with the error dropped; `NewOptAgrees` states it |
| FormStrs.HashInput | src/form_str.rs:124-128 | what the hasher sees: the stored string only |
| FormStrs.Cmp | src/form_str.rs:130-135 | the order of the stored strings; `CmpAntisymmetric` states it |
| FormStrs.Eq | src/form_str.rs:137-142 | equality of the stored strings; `EqIffCmpEqual` ties it to `Cmp` |
| FormStrs.NewOptAgrees | src/form_str.rs:33-38 | `new_opt` is present exactly when `new` succeeds, with the same value |
| FormStrs.EqIffCmpEqual | src/form_str.rs:124-142 | equality is `cmp == Equal`, and equal values hash alike |
| FormStrs.CmpAntisymmetric | src/form_str.rs:130-135 | swapping the operands reverses the order |
| FormStrs.FormatIgnored | src/form_str.rs:124-149 | equality, order and hash see only the stored string |
| FormStrs.TooLongExample | src/form_str.rs:362 | `Lower<MaxLen<3, Trim<()>>>` rejects " Hello" with `MaxLen(3)` |
| FormStrs.LowerTrimmedExample | src/form_str.rs:363 | and stores " Hel" as "hel" |
| FormStrs.TooShortExample | src/form_str.rs:367 | `Lower<MinLen<1, MaxLen<3, Trim<()>>>>` rejects " " with `MinLen` |
| FormStrs.BoundedLowerExample | src/form_str.rs:368 | and stores " ABC" as "abc" |
| FormStrs.LowerExample | src/form_str.rs:375 | `Lower<()>` stores "Hello" as "hello" |
| FormStrs.UpperExample | src/form_str.rs:382 | `Upper<()>` stores "Hello" as "HELLO" |
| Url.FirstRejected | src/url.rs:32-37 | the position of the first char that is neither an ASCII letter or digit nor one of the 23 listed punctuation chars |
| Url.IsUrlPunct | src/url.rs:27-30 | the 23 punctuation chars a URL may hold |
| Url.IsUrlChar | src/url.rs:32-37 | an ASCII letter or digit, or one of those punctuation chars; `SpaceOrNonAsciiRejected` and `ExampleUrlChars` state it |
| Url.ValidateAcceptedUrlChars | src/url.rs:24-40 | Ok exactly when every char of the trimmed input is accepted; the error carries the first rejected char in scan order |
| Url.BlankAccepted | src/url.rs:25-39 | empty and all-whitespace inputs are accepted |
| Url.SurroundingSpaceIgnored | src/url.rs:25 | whitespace around the input does not change the result |
| Url.SpaceOrNonAsciiRejected | src/url.rs:34 | an interior space or any non-ASCII char is rejected |
| Url.ExampleUrlChars | src/url.rs:45 | every char of the test URL is accepted |
| Url.ExampleUrl | src/url.rs:42-47 | "http://est.jon/v?q=param&other=param%20#test=123" is accepted |
| Sanitizing.SanitizeRemovesInvalid | src/sanitizing.rs:7-13 | the output is the input without its invalid chars, order kept; borrowed, and then the input itself, exactly when nothing was removed; every output char is valid |
| Sanitizing.IsValidChar | src/sanitizing.rs:3-5 | a char is valid unless it is a C0 control char other than BEL, BS, VT, FF, LF, CR and TAB; `ValidCharExamples` states it |
| Sanitizing.Sanitize | src/sanitizing.rs:7-13 | the sanitized string; `SanitizeRemovesInvalid` states it |
| Sanitizing.SanitizeIdempotent | src/sanitizing.rs:8-9 | sanitizing a sanitized string borrows it unchanged |
| Sanitizing.ValidCharExamples | src/sanitizing.rs:15-29 | SUB (0x1A) and NUL are invalid; space, digits, letters, '\\', LF, CR, TAB, 'à', 'é' are valid |
| Sanitizing.SanitizeExamples | src/sanitizing.rs:31-35 | "ab" and " Ab31_ " come back unchanged |
| TrimInPlace.StrBuf.TrimInPlace | src/trim_in_place.rs:55-65 | the buffer holds the trimmed original, is left untouched when the byte length did not change, and a second call changes nothing; returns the same object |
| TrimInPlace.CowBuf.TrimInPlace | src/trim_in_place.rs:30-40 | the content becomes the trimmed original; a value with nothing to trim is left as it was, borrowed staying borrowed; otherwise it becomes an owned copy |
| TrimInPlace.OptionBuf.TrimInPlace | src/trim_in_place.rs:42-53 | None stays None; a wrapped buffer stays wrapped and is trimmed in place |
| TrimInPlace.Example | src/trim_in_place.rs:9-13 | " test " becomes "test" |
| NoneIfEmpty.NoneIfEmpty | src/none_if_empty.rs:93-102 | None exactly for empty content, otherwise `Some` of the untouched value |
| NoneIfEmpty.NoneIfTrimEmpty | src/none_if_empty.rs:104-110 | None exactly when every char is whitespace, otherwise `Some` of the untrimmed value |
| NoneIfEmpty.OptionNoneIfEmpty | src/none_if_empty.rs:78-83 | `Some` exactly for a present value with non-empty content, and then the same value |
| NoneIfEmpty.OptionNoneIfTrimEmpty | src/none_if_empty.rs:85-90 | `Some` exactly for a present value that is not blank, and then the same value |
| NoneIfEmpty.EmptyIsTrimEmpty | src/none_if_empty.rs:15-29 | when `none_if_empty` gives None, so does `none_if_trim_empty` |
| NoneIfEmpty.DecidedByContent | src/none_if_empty.rs:12-177 | both decisions depend only on the string content, whatever type holds it |
| NoneIfEmpty.CowAndStrAgree | src/none_if_empty.rs:32-50 | borrowed and owned `Cow` values and plain strings with the same content decide alike |
| NoneIfEmpty.Examples | src/none_if_empty.rs:93-111 | "" is None; "  " is kept by `none_if_empty` and None for `none_if_trim_empty`; " a " is kept untrimmed |

## Left out

- The Unicode data itself is not modelled. This covers `to_lowercase`, `to_uppercase`, `str::to_lowercase` (its final-sigma rule included), `is_numeric`, `is_alphanumeric`, `is_whitespace`, `is_control`, the decomposition and `unidecode`. They are fields of `Unicode.CharData`, constrained only by `AsciiConforming` and by the per-example requirements.
- String ordering (`str::cmp`) is modelled as the lexicographic order of chars. For UTF-8 this is the same as the byte order Rust uses, but the model does not prove it.
- Char positions stand for byte offsets inside the tokenizer of `human_cmp` and inside the search loops. The offsets are only used to slice at char boundaries. `find_*` does return real byte offsets, computed with `Utf8.Length`.
- build.rs file plumbing is left out: the output directory, file creation, the buffered writer and the `cargo:` line. So are `include_bytes!` and the unchecked reads, whose safety conditions become the requires of `FoldTable.LowerNoAccentChar`.
- The panics of build.rs on an entry longer than 9 bytes (`expect("u8")` and the slice bound) become the error value `EntryTooLong`. The entry is not truncated.
- `TrimInPlace` for `Box<str>` behaves exactly like the `String` impl and shares `TrimInPlace.StrBuf`. `Option<T>` is modelled for `T = String`. The `&mut T` forwarding impl is Dafny's own reference semantics: a method on an object reached through any reference changes that object.
- `NoneIfEmpty` for `&T` and `&mut T` (through `Deref`), `Box<str>`, `String` and `&str` share the generic definition over a content function. The `Str`, `CowStr` and `FormStrContent` functions give the content of each type.
- `&String` impls of `EqExt`/`OrdExt`/`StrUtilsExt` only forward to the `&str` ones.
- `FormStr`'s `Default`, `FormatDefault`, `AsRef`, `Deref`, `From`/`TryFrom` conversions, serde (de)serialisation, and every `Debug`/`Display` impl are left out. They are conversions or formatting glue.
- The type parameter `F` of `FormStr<F>` is a value of the `Format` datatype. `new` uses the format value itself in place of `F::default()`.
- `SubPath` inside `FormStrs.Apply` uses the specification of `format_sub_path`: `ValidateSubPath` then `JoinTrimmed`. A function cannot call the method `Fs.FormatSubPath`, whose ensures proves the two agree.
- src/char_ext.rs is left out because it only wraps `unidecode_char`.
- src/str_ci.rs is left out. Its equality only forwards to `eq_ci`, it hashes through a function that is not in the source, and its constructors are unsafe transmutes.
- src/str_own_ext.rs is left out because it is not compiled into the crate.
- The benches, the generated search index and the module wiring in src/lib.rs are left out.
- Lower wrapper comparisons against `str` and `&str` (`LowerWrapper.EqStr`, `LowerWrapper.CmpStr`) are defined as the comparison against `Lower` of that string, which is what the source does. They have no separate lemma.
