# iobes — span tag parsing, writing and conversion, in Dafny

This project models the `iobes` Python library. The library reads and writes
token-level span annotations in six tagging schemes:

- IOB: a span is a run of `I-x`; `B-x` appears only where a span directly
  follows another of the same type.
- BIO: every span opens with `B-x` and continues with `I-x`.
- IOBES: `B`/`I`/`E` for longer spans, `S` for one-token spans.
- BILOU: as IOBES with `L` for end and `U` for single.
- BMEWO: as IOBES with `M` for inside and `W` for single.
- TOKEN: every tag is its own one-token span.

A tag is a function code, the separator `-` and a span type (`B-PER`). `O`
stands for outside.

The model covers these parts of the library:

- the tag helpers (`extract_type`, `extract_function`, `replace_prefix`);
- the scheme names (`Encoding.from_string`);
- the parsers, which turn tags into spans plus an error list;
- the writers, which turn spans into tags at a given length;
- the twenty-eight conversions;
- the allowed-transition grids;
- the reference encoders and the span generator of the test utilities.

Modules, one file each:

| module | file | what it holds |
|---|---|---|
| `Wrappers` | wrappers.dfy | `Option` and `Result` |
| `TagUtils` | tag_utils.dfy | separator search, `ExtractType`, `ExtractFunction`, `ReplacePrefix` |
| `Iobes` | iobes.dfy | function codes, `Encoding`, `Span`, `Error`, exceptions, `FromString` |
| `Format` | format.dfy | `MakeTag` and the per-scheme tag builders (`SpanFormat`) |
| `Spans` | spans.dfy | `Range`, the well-formedness predicate `WellFormed`, `Closed` |
| `Layout` | layout.dfy | reference encodings `Encode` / `EncodeIob`, defined position by position |
| `Rename` | rename.dfy | token renaming BILOU/BMEWO ↔ IOBES |
| `Parse` | parse.dfy | the IOB/BIO and IOBES parsers: fold functions plus the loops proved equal to them |
| `Write` | write.dfy | `sort_spans`, `make_blanks`, the writers: functions plus array-based loops |
| `Generate` | generate.dfy | the test encoders `generate_*` as array-based loops |
| `RoundTrip` | roundtrip.dfy | parse ∘ encode is the identity on well-formed spans |
| `Convert` | convert.dfy | `convert_tags`, all conversions, the pairing properties the conversion test checks |
| `Transitions` | transition.dfy | the transition rules and the grid builders |
| `TransitionRules` | transition_rules.dfy | the rules on concrete tags, and every encoded sequence following allowed transitions |

A span list is *well formed* (`Spans.WellFormed(spans, n)`) when:

- every span is non-empty and covers exactly the tokens `start..end-1`;
- the spans are ordered and disjoint;
- the spans end by `n`.

This is the shape `generate_spans` (tests/utils.py:13-35) produces. The
randomness is replaced by quantifying over every such list. Round trips
through IOB and BIO are stated for span lists whose types all differ from
`O` (`Spans.Typed`). For BIO this is needed: a span of type `O` starts with
`B-O`, which the parser reads as outside (`RoundTrip.BioOutsideTypeLost`).
For IOB it is sufficient but stronger than needed: a span of type `O` is
written `I-O` and read back (`RoundTrip.IobLoneOutsideTypeKept`); only one
that directly follows another span of type `O` starts with `B-O` and is lost
(`RoundTrip.IobTouchingOutsideTypeLost`).

Where the source and its documentation disagree, the model follows the code:

- A mismatched `E-y` while a span of type `x` is open drops the open span and
  records a one-token span `y`. The open span is not closed.
- `from_string` accepts exactly `iob`, `iob2`, `bio`, `iobes`, `bilou`,
  `bmewo` and `token`, case and surrounding whitespace ignored. `bmeow` and
  `bioul` are rejected.

Where the code cannot run as written, the model takes the evidently intended
reading. Each case is stated here:

- `iobes/parse.py:4` and `iobes/convert.py:4-10` import each other at module
  level. `iobes/convert.py:9` imports `parse_spans_bmeow_with_errors`, which
  parse.py defines as `parse_spans_bmewo_with_errors`.
- `iobes/write.py:4` imports `safe_get` from iobes/utils.py, which does not
  define it; nothing in the writers uses it.
- tests/test_write.py:10-14 imports `write_tags` and `make_tag` from
  iobes/write.py. `write_tags` exists only as the unused code left out below,
  and `make_tag` only as `_make_tag` (iobes/write.py:91), modelled as
  `Format.MakeTag`.
- `iobes/write.py:3` and `iobes/transition.py:3` import `SpanEncoding` and
  `TokenFunction`. `iobes/__init__.py` defines these as `Encoding` and
  `Function`; the model uses the latter.
- `iobes/parse.py:185,195` call `_convert_error`, which is not defined. Every
  IOBES parse reports no errors (`Parse.ParseSound`), so the model treats it
  as the identity on the empty list.
- The BILOU and BMEWO parsers rename each tag to IOBES and parse that. As
  written they call the full conversion, which recurses forever (see
  Findings).
- `iobes/transition.py:5-10` import `iobes_to_bilou_token` and
  `iobes_to_bmeow_token`, which are not defined, and apply the tag-sequence
  conversion `bilou_to_iobes` to the vocabulary. The model renames each
  vocabulary token with the per-token renamings of `Rename`.

## Model

| member | source | states |
|---|---|---|
| TagUtils.Find | iobes/utils.py:1-10 | the separator search `str.split(sep, 1)` relies on: `None` exactly when the separator does not occur, otherwise its first occurrence |
| TagUtils.NoSeparatorKeepsToken | iobes/utils.py:1-10 | a token without the separator is both its own function and its own type |
| TagUtils.SplitRejoins | iobes/utils.py:1-10 | with the separator present, function + sep + type rebuilds the token, and the function holds no separator |
| TagUtils.SplitAtFirst | iobes/utils.py:1-10 | the token is split at the first separator: `extract_function(f+sep+t) == f` and `extract_type(f+sep+t) == t` whenever no occurrence of the separator starts inside `f` (for a separator of several characters this also excludes one that starts in `f` and runs into the separator after it) |
| TagUtils.SplitSingleChar | tests/test_utils.py:8-19 | with a one-character separator absent from the function, extract_type and extract_function recover the two halves of `sep.join([func, type])` |
| TagUtils.CodeTagSplits | iobes/utils.py:1-10 | a code tag `c-t` (no `-` in `c`) splits into `c` and `t`, even when `t` holds further dashes |
| TagUtils.BareTagSplits | iobes/utils.py:1-10 | a tag without `-` (such as `O`) is its own function and type |
| TagUtils.ReplacePrefixMatch | iobes/utils.py:13-16 | when the string starts with the pattern, only that prefix is replaced; the result starts with the substitute and replacing back restores the string |
| TagUtils.ReplacePrefixNoMatch | iobes/utils.py:13-16 | a string that does not start with the pattern is returned unchanged |
| TagUtils.ExtractType | iobes/utils.py:1-4 | `extract_type`: the text after the first separator, or the whole token; stated by TagUtils.SplitAtFirst, TagUtils.SplitRejoins and TagUtils.NoSeparatorKeepsToken |
| TagUtils.ExtractFunction | iobes/utils.py:7-10 | `extract_function`: the text before the first separator, or the whole token; stated by the same three lemmas |
| TagUtils.ReplacePrefix | iobes/utils.py:13-16 | `replace_prefix`: stated by TagUtils.ReplacePrefixMatch and TagUtils.ReplacePrefixNoMatch |
| Iobes.FunctionCodesDistinct | iobes/__init__.py:11-20 | the nine function codes are single characters, pairwise distinct, without `-` |
| Iobes.Lower | iobes/__init__.py:33 | `str.lower` keeps the length and lowers each character (ASCII) |
| Iobes.Upper | iobes/__init__.py:33 | upper-casing keeps the length and raises each character (ASCII) |
| Iobes.FromStringAccepts | iobes/__init__.py:31-46 | from_string succeeds iff the lowered, stripped name is one of the seven accepted names; each scheme iff its own names; otherwise a ValueError |
| Iobes.LowerAppend | iobes/__init__.py:33 | lowering distributes over concatenation |
| Iobes.StripSurrounded | iobes/__init__.py:33 | `strip` removes any whitespace added on both sides |
| Iobes.FromStringIgnoresSpace | iobes/__init__.py:33 | whitespace around the name does not change the answer |
| Iobes.FromStringIgnoresCase | iobes/__init__.py:33 | upper- or lower-casing the name does not change the answer |
| Iobes.FromStringExamples | iobes/__init__.py:31-46 | `" IOB2\n"` is BIO and `"BiLoU"` is BILOU |
| Iobes.FromStringRejects | iobes/__init__.py:31-46 | `bmeow` and `bioul` are rejected |
| Iobes.FromString | iobes/__init__.py:31-46 | `from_string`: stated by Iobes.FromStringAccepts, Iobes.FromStringIgnoresSpace and Iobes.FromStringIgnoresCase |
| Format.MakeTagSplits | iobes/write.py:91-92 | `_make_tag(p, t)` splits back into function `p` and type `t`, and, holding the separator, is never the outside tag `O` |
| Format.MakeTag | iobes/write.py:91-92 | `_make_tag`: stated by Format.MakeTagSplits |
| Format.SchemeTags | iobes/write.py:95-162 | the per-scheme builders: BIO single/start `B-`, end/inside `I-`; IOBES `E-`/`S-`; BILOU `L-`/`U-`; BMEWO `M-`/`W-`; all codes are one character without `-` |
| Spans.Range | tests/utils.py:33 | `range(start, end)`: `end-start` consecutive positions starting at `start` |
| Spans.WellFormedOrdered | tests/utils.py:26-35 | generated spans are disjoint and in order: an earlier span ends before a later one starts |
| Spans.WellFormedStartsIncrease | tests/utils.py:26-35 | generated span starts strictly increase |
| Spans.Closed | tests/utils.py:26-35 | the number of spans that end by a position: all before it end there, the next does not |
| Spans.CoverIsClosed | tests/utils.py:26-35 | a covered position is covered by exactly the first span not yet closed |
| Spans.UncoveredIsGap | tests/utils.py:26-35 | when the first unclosed span has not started, no span covers the position |
| Layout.Encode | tests/utils.py:38-83 | the reference layout of the start/inside/end/single schemes has one tag per position |
| Layout.EncodeIob | tests/utils.py:86-94 | the reference IOB layout has one tag per position |
| Layout.FillAt | iobes/write.py:41-47 | assigning one tag at a list of positions changes exactly those positions |
| Layout.EncodeCovered | tests/utils.py:38-83 | a covered position carries the span's role code (single, begin, end or inside) and type |
| Layout.EncodeOutsideIff | tests/utils.py:38-94 | a position is `O` in every layout iff no span covers it |
| Layout.EncodeIobCovered | tests/utils.py:86-94 | in IOB a covered position is `B-t` exactly at the start of a span directly after another of the same type, otherwise `I-t` |
| Rename.MapTokens | iobes/parse.py:183-196 | renaming a tag list keeps its length and renames each tag independently |
| Rename.ReplaceCode | iobes/utils.py:13-16 | replacing the prefix `c-` rewrites exactly the tags whose code is `c`, keeping their type |
| Rename.BilouTokenRoundTrip | iobes/parse.py:183-186 | BILOU → IOBES → BILOU renaming is the identity on tags that are not already `E-`/`S-` |
| Rename.IobesBilouTokenRoundTrip | iobes/parse.py:183-186 | IOBES → BILOU → IOBES renaming is the identity on tags that are not `L-`/`U-` |
| Rename.BmeowTokenRoundTrip | iobes/parse.py:193-196 | BMEWO → IOBES → BMEWO renaming is the identity on tags that are not `I-`/`S-` |
| Rename.IobesBmeowTokenRoundTrip | iobes/parse.py:193-196 | IOBES → BMEWO → IOBES renaming is the identity on tags that are not `M-`/`W-` |
| Rename.RenameMadeTag | iobes/write.py:127-156 | renaming a built tag renames only its code (L↔E, U↔S, M↔I, W↔S) |
| Rename.BilouToIobesToken | iobes/parse.py:183-186 | renaming `L-`→`E-`, `U-`→`S-`: stated by Rename.ReplaceCode and Rename.BilouTokenRoundTrip |
| Rename.IobesToBilouToken | iobes/parse.py:183-186 | renaming `E-`→`L-`, `S-`→`U-`: stated by Rename.ReplaceCode and Rename.IobesBilouTokenRoundTrip |
| Rename.BmeowToIobesToken | iobes/parse.py:193-196 | renaming `M-`→`I-`, `W-`→`S-`: stated by Rename.ReplaceCode and Rename.BmeowTokenRoundTrip |
| Rename.IobesToBmeowToken | iobes/parse.py:193-196 | renaming `I-`→`M-`, `S-`→`W-`: stated by Rename.ReplaceCode and Rename.IobesBmeowTokenRoundTrip |
| Rename.BilouEncodeRenames | tests/utils.py:38-61 | renaming the BILOU layout gives the IOBES layout of the same spans, and back |
| Rename.BmeowEncodeRenames | tests/utils.py:38-74 | renaming the BMEWO layout gives the IOBES layout of the same spans, and back |
| Parse.ParseIobLoop | iobes/parse.py:39-69 | the IOB parse loop computes the left fold of the IOB step over the tags |
| Parse.ParseBioLoop | iobes/parse.py:76-106 | the BIO parse (same body as IOB) computes the same fold |
| Parse.ParseIobesLoop | iobes/parse.py:113-176 | the IOBES parse loop computes the left fold of the IOBES step over the tags |
| Parse.ParseToken | iobes/parse.py:27-32 | the TOKEN parse gives one span per tag and no errors |
| Parse.ParseTokenSpans | iobes/parse.py:31-32 | TOKEN span `i` has the tag as type, starts at `i` and holds one token; the list is well formed |
| Parse.ParseSound | iobes/parse.py:39-176 | IOB/BIO and IOBES parses yield well-formed spans whose types are the types of the tags they cover, and an empty error list |
| Parse.IobesSingleCloses | iobes/parse.py:126-132 | `S-t` closes any open span and adds the one-token span `t`, for any type `t` (dashes after the first stay in the type) |
| Parse.IobesMismatchedEndDrops | iobes/parse.py:154-159 | `E-y` with an open span of another type drops the open span and records the one-token span `y` |
| Parse.IobesUnknownIsOutside | iobes/parse.py:165-170 | a tag with any other function code acts as `O`: it closes the open span |
| Parse.IobesMismatchExample | iobes/parse.py:154-159 | `B-A E-B` parses to the single span `B` at position 1 |
| Parse.IobNonInsideOpens | iobes/parse.py:46-50 | in IOB any non-`I`, non-`O` tag closes the open span and opens a new one |
| Parse.IobCoverage | iobes/parse.py:39-69 | a position is covered by an IOB span iff its tag is `I-` or is typed other than `O`; a non-`I` tag typed other than `O` starts a span there |
| Parse.ParseSpansWithErrors | iobes/parse.py:11-24 | dispatch on the scheme: for every scheme the spans are well formed and the error list is empty |
| Parse.ParseSpans | iobes/parse.py:7-8 | the spans alone, well formed |
| Parse.IobStep | iobes/parse.py:43-68 | one iteration of the IOB/BIO loop body: stated by Parse.IobNonInsideOpens, Parse.IobCoverage and Parse.ParseSound |
| Parse.ParseIob | iobes/parse.py:39-69 | `parse_spans_iob_with_errors` as a fold of Parse.IobStep: stated by Parse.ParseIobLoop, Parse.ParseSound, Parse.IobCoverage and RoundTrip.IobRoundTrip |
| Parse.ParseBio | iobes/parse.py:76-106 | `parse_spans_bio_with_errors`: stated by Parse.ParseBioLoop, Parse.ParseSound and RoundTrip.BioRoundTrip |
| Parse.IobesStep | iobes/parse.py:117-170 | one iteration of the IOBES loop body: stated by Parse.IobesSingleCloses, Parse.IobesMismatchedEndDrops, Parse.IobesUnknownIsOutside and Parse.ParseSound |
| Parse.ParseIobes | iobes/parse.py:113-176 | `parse_spans_iobes_with_errors` as a fold of Parse.IobesStep: stated by Parse.ParseIobesLoop, Parse.ParseSound and RoundTrip.IobesRoundTrip |
| Parse.ParseBilou | iobes/parse.py:183-186 | corrected BILOU parse (rename each tag to IOBES, then parse IOBES): stated by Parse.ParseSound and RoundTrip.BilouRoundTrip; the as-written recursion is the parse.py:183-186 Finding |
| Parse.ParseBmewo | iobes/parse.py:193-196 | BMEWO parse (rename each tag to IOBES, then parse IOBES): stated by Parse.ParseSound and RoundTrip.BmeowRoundTrip |
| Write.Insert | iobes/write.py:15-16 | inserting into a start-sorted list keeps it sorted and adds exactly the one span |
| Write.SortSpans | iobes/write.py:15-16 | `sort_spans` is a permutation of its input, sorted by start |
| Write.SortedUnique | iobes/write.py:15-16 | two permutations of a list with distinct starts that are both sorted by start are equal |
| Write.SortRestores | tests/test_write.py:41-44 | sorting any shuffle of well-formed spans gives back the spans |
| Write.MaxEnd | iobes/write.py:20 | `max(spans, key=end).end` is the largest end, attained by some span |
| Write.MaxEndPermutation | iobes/write.py:20 | the largest end does not depend on the order of the spans |
| Write.MakeBlanks | iobes/write.py:19-21 | `make_blanks` fails with ValueError exactly when both the spans and the length are missing; otherwise it gives `length` (or the largest end) copies of the fill |
| Write.PyIndex | iobes/write.py:66 | Python indexing of `tags[end-1]`: a negative index counts from the end; an index out of range is refused |
| Write.StampEach | iobes/write.py:67-68 | writing one tag at a list of positions succeeds iff every position is in range (else IndexError), and then sets exactly those positions |
| Write.StampSpan | iobes/write.py:61-68 | one span of `_write_tags`: fails only with IndexError; stated by Write.StampSpanPastEnd, Write.StampShapedSpan and Write.StampSpanExtends |
| Write.StampAll | iobes/write.py:61-68 | the loop over the sorted spans: fails only with IndexError; stated by Write.StampAllPastEnd, Write.StampAllShaped and Write.StampAllExtends |
| Write.StampSpanPastEnd | iobes/write.py:67-68 | a span starting at or past the list's length makes the write raise IndexError |
| Write.StampShapedSpan | iobes/write.py:63-68 | a span whose tokens are `range(start, end)` is written iff `end <= len(tags)` |
| Write.StampAllPastEnd | iobes/write.py:61-68 | any span starting at or past the length makes the whole loop raise IndexError |
| Write.StampAllShaped | iobes/write.py:61-68 | for spans with tokens `range(start, end)` the loop succeeds iff every span ends by the length |
| Write.StampTokens | iobes/write.py:67-68 | the in-place loop over an array computes `StampEach` |
| Write.StampSpanInPlace | iobes/write.py:61-68 | writing one span in place on an array computes the span step `StampSpan` |
| Write.WriteFormatted | iobes/write.py:51-69 | `_write_tags` fails with ValueError without spans or length, otherwise only with IndexError (see Write.WritePastLengthFails and Write.WriteShapedInRange); on success it has `length` tags (or the largest end) |
| Write.WritePastLengthFails | iobes/write.py:59-69 | with a length given, any span starting at or past it makes `_write_tags` raise IndexError |
| Write.WriteShapedInRange | iobes/write.py:59-69 | with a length given and spans with tokens `range(start, end)`, `_write_tags` succeeds iff every span ends by the length |
| Write.WritePastLengthExample | iobes/write.py:59-69 | `write_iobes_tags([Span("A", 3, 4, [3])], 2)` raises IndexError |
| Write.WriteBioTags | iobes/write.py:72-73 | `write_bio_tags`: stated by Write.WriterMatchesLayout, Convert.WritersEncode and Write.WritePastLengthFails |
| Write.WriteIobesTags | iobes/write.py:76-77 | `write_iobes_tags`: the same lemmas |
| Write.WriteBilouTags | iobes/write.py:80-81 | `write_bilou_tags`: the same lemmas |
| Write.WriteBmeowTags | iobes/write.py:84-85 | `write_bmeow_tags`: the same lemmas |
| Write.WriteBmewoTags | iobes/write.py:88 | alias of `write_bmeow_tags` |
| Write.WriteTags | iobes/write.py:51-69 | the array-based writer computes `WriteFormatted` |
| Write.StampSpanExtends | iobes/write.py:61-68 | writing span `q` over the layout of the earlier spans gives the layout of spans up to `q` |
| Write.StampAllExtends | iobes/write.py:61-68 | writing the remaining spans in order completes the layout |
| Write.MaxEndIsLast | iobes/write.py:20 | for ordered spans the largest end is the last span's end |
| Write.WriterMatchesLayout | iobes/write.py:51-85 | writing any shuffle of well-formed spans in any of the four schemes gives the reference layout at the given length, and at the last span's end without one |
| Write.WriteIobTagsAsWritten | iobes/write.py:38-48 | as written, the IOB writer raises IndexError on an empty span list even with a length, and ValueError without one |
| Write.WriteIobEmptyFails | iobes/write.py:41 | `write_iob_tags([], 1)` raises IndexError, where the corrected writer gives `["O"]` |
| Write.WriteIobTags | iobes/write.py:38-48 | corrected IOB writer: the empty span list gives `length` outside tags; otherwise as written |
| Write.WriteIobTagsLoop | iobes/write.py:38-48 | the array-based IOB writer computes the as-written IOB writer |
| Write.IobMarkSpan | iobes/write.py:43-47 | one step of the pairwise IOB loop: mark the span `I-`, then `B-` at its start after a touching span of the same type |
| Write.IobStampRestExtends | iobes/write.py:43-47 | the pairwise IOB loop over the rest of the sorted spans completes the IOB layout |
| Write.IobWriterMatchesLayout | iobes/write.py:38-48 | the corrected IOB writer on any shuffle of well-formed spans gives the reference IOB layout |
| Generate.Blanks | tests/utils.py:39 | `["O"] * length` |
| Generate.Generated | tests/utils.py:38-74 | the span-by-span fold of the IOBES/BILOU/BMEWO encoders: one tag per position; stated by Generate.GeneratedIsEncode |
| Generate.GenerateFormatted | tests/utils.py:38-74 | the array loop of the IOBES/BILOU/BMEWO encoders computes the span-by-span fold `Generated` |
| Generate.GenerateIobes | tests/utils.py:38-48 | `generate_iobes` |
| Generate.GenerateBilou | tests/utils.py:51-61 | `generate_bilou` |
| Generate.GenerateBmeow | tests/utils.py:64-74 | `generate_bmeow` |
| Generate.GeneratedIsEncode | tests/utils.py:38-74 | on well-formed spans the generated tags are the reference layout |
| Generate.GenerateBio | tests/utils.py:77-83 | the array loop of `generate_bio` computes its fold |
| Generate.GeneratedBio | tests/utils.py:77-83 | the fold of `generate_bio`: one tag per position; stated by Generate.GeneratedBioIsEncode |
| Generate.GeneratedBioIsEncode | tests/utils.py:77-83 | on well-formed spans `generate_bio` is the BIO reference layout |
| Generate.GenerateIob | tests/utils.py:86-94 | the two array loops of `generate_iob` compute its fold |
| Generate.GeneratedIob | tests/utils.py:86-94 | the fold of `generate_iob`: one tag per position; stated by Generate.GeneratedIobIsEncode and Generate.GeneratedIobOutsideType |
| Generate.GeneratedIobIsEncode | tests/utils.py:86-94 | on well-formed spans with types other than `O`, `generate_iob` is the IOB reference layout |
| Generate.GeneratedIobOutsideType | tests/utils.py:92 | a span of type `O` after an outside position is marked `B-O` by the generator but `I-O` by the writer |
| RoundTrip.IobesRoundTrip | iobes/parse.py:113-176 | parsing the IOBES layout of well-formed spans gives back exactly those spans and no errors |
| RoundTrip.IobRoundTrip | iobes/parse.py:39-69 | parsing the IOB layout of well-formed spans with types other than `O` gives them back with no errors |
| RoundTrip.BioRoundTrip | iobes/parse.py:76-106 | the same for BIO |
| RoundTrip.BioOutsideTypeLost | iobes/parse.py:83-103 | a span of type `O` written in BIO is not parsed back |
| RoundTrip.IobLoneOutsideTypeKept | iobes/parse.py:51-61 | a lone span of type `O`, written `I-O` in IOB, is parsed back |
| RoundTrip.IobTouchingOutsideTypeLost | iobes/parse.py:46-66 | in IOB a span of type `O` directly after another span of type `O` starts with `B-O` and is not parsed back |
| RoundTrip.BilouRoundTrip | iobes/parse.py:183-186 | parsing the BILOU layout of well-formed spans gives them back with no errors |
| RoundTrip.BmeowRoundTrip | iobes/parse.py:193-196 | parsing the BMEWO layout of well-formed spans gives them back with no errors |
| Convert.ConvertTags | iobes/convert.py:20-42 | a parse error gives ValueError; otherwise the writer's output on the parsed spans at the input's length |
| Convert.EncodeAs | iobes/write.py:38-85 | the layout each writer produces has one tag per position |
| Convert.WritersEncode | iobes/write.py:38-85 | each of the five writers, on well-formed spans and a length, gives the reference layout of its scheme |
| Convert.ParsersClean | iobes/parse.py:11-24 | every parser used by a conversion reports no errors, so no conversion raises ValueError |
| Convert.ParseEncodeAs | iobes/convert.py:20-42 | parsing the layout of a scheme gives back the spans that scheme can express |
| Convert.IobToBio | iobes/convert.py:45-57 | `iob_to_bio` writes the BIO layout of the IOB spans at the input's length |
| Convert.BioToIob | iobes/convert.py:123-135 | `bio_to_iob` writes the IOB layout of the BIO spans; it uses the corrected IOB writer of the iobes/write.py:41 Finding, so where the input parses to no span it gives all `O` tags where the code as written raises IndexError |
| Convert.BioToIobes | iobes/convert.py:138-150 | `bio_to_iobes` writes the IOBES layout of the BIO spans |
| Convert.IobesToBio | iobes/convert.py:216-228 | `iobes_to_bio` writes the BIO layout of the IOBES spans |
| Convert.IobesToBilou | iobes/convert.py:231-243 | `iobes_to_bilou` writes the BILOU layout of the IOBES spans |
| Convert.IobesToBmeow | iobes/convert.py:246-258 | `iobes_to_bmeow` writes the BMEWO layout of the IOBES spans |
| Convert.BilouToIob | iobes/convert.py:279-291 | `bilou_to_iob` writes the IOB layout of the BILOU spans; it uses the corrected IOB writer of the iobes/write.py:41 Finding, so where the input parses to no span it gives all `O` tags where the code as written raises IndexError |
| Convert.BilouToBio | iobes/convert.py:294-306 | `bilou_to_bio` writes the BIO layout of the BILOU spans |
| Convert.BilouToIobes | iobes/convert.py:309-321 | `bilou_to_iobes` writes the IOBES layout of the BILOU spans |
| Convert.BilouToBmeow | iobes/convert.py:324-336 | `bilou_to_bmeow` writes the BMEWO layout of the BILOU spans |
| Convert.BmeowToIob | iobes/convert.py:357-369 | `bmeow_to_iob` writes the IOB layout of the BMEWO spans; it uses the corrected IOB writer of the iobes/write.py:41 Finding, so where the input parses to no span it gives all `O` tags where the code as written raises IndexError |
| Convert.BmeowToBio | iobes/convert.py:372-384 | `bmeow_to_bio` writes the BIO layout of the BMEWO spans |
| Convert.BmeowToIobes | iobes/convert.py:387-399 | `bmeow_to_iobes` writes the IOBES layout of the BMEWO spans |
| Convert.BmeowToBilou | iobes/convert.py:402-414 | `bmeow_to_bilou` writes the BILOU layout of the BMEWO spans |
| Convert.IobToIobes | iobes/convert.py:60-72 | `iob_to_iobes` (through BIO) always succeeds with one tag per input tag, and writes the IOBES layout of the IOB spans when no span has type `O` |
| Convert.IobToBilou | iobes/convert.py:75-87 | `iob_to_bilou`: the same for the BILOU layout |
| Convert.IobToBmeow | iobes/convert.py:90-102 | `iob_to_bmeow`: the same for the BMEWO layout |
| Convert.BioToBilou | iobes/convert.py:153-165 | `bio_to_bilou` (through IOBES) writes the BILOU layout of the BIO spans |
| Convert.BioToBmeow | iobes/convert.py:168-180 | `bio_to_bmeow` (through IOBES) writes the BMEWO layout of the BIO spans |
| Convert.IobesToIob | iobes/convert.py:201-213 | `iobes_to_iob` (through BIO) succeeds with one tag per input tag, and writes the IOB layout of the IOBES spans when no span has type `O`; it uses the corrected IOB writer of the iobes/write.py:41 Finding, so where the input parses to no span it gives all `O` tags where the code as written raises IndexError |
| Convert.IobToBmewo | iobes/convert.py:105-120 | alias of `iob_to_bmeow` |
| Convert.BioToBmewo | iobes/convert.py:183-198 | alias of `bio_to_bmeow` |
| Convert.IobesToBmewo | iobes/convert.py:261-276 | alias of `iobes_to_bmeow` |
| Convert.BilouToBmewo | iobes/convert.py:339-354 | alias of `bilou_to_bmeow` |
| Convert.BmewoToIob | iobes/convert.py:417-432 | alias of `bmeow_to_iob`, with the same corrected IOB writer |
| Convert.BmewoToBio | iobes/convert.py:435-450 | alias of `bmeow_to_bio` |
| Convert.BmewoToIobes | iobes/convert.py:453-468 | alias of `bmeow_to_iobes` |
| Convert.BmewoToBilou | iobes/convert.py:471-486 | alias of `bmeow_to_bilou` |
| Convert.IobConversionKeepsSpans | iobes/convert.py:45-102 | every conversion from IOB yields tags that parse to the same spans (when no span has type `O`) |
| Convert.BioConversionKeepsSpans | iobes/convert.py:123-180 | every conversion from BIO keeps the spans (into IOB, when no span has type `O`) |
| Convert.IobesConversionKeepsSpans | iobes/convert.py:201-258 | every conversion from IOBES keeps the spans (into IOB/BIO, when no span has type `O`) |
| Convert.BilouConversionKeepsSpans | iobes/convert.py:279-336 | every conversion from BILOU keeps the spans (into IOB/BIO, when no span has type `O`) |
| Convert.BmeowConversionKeepsSpans | iobes/convert.py:357-414 | every conversion from BMEWO keeps the spans (into IOB/BIO, when no span has type `O`) |
| Convert.PairIobBio | tests/test_convert.py:28 | IOB ↔ BIO: each direction maps one layout to the other, and both compositions are the identity |
| Convert.PairIobIobes | tests/test_convert.py:29 | IOB ↔ IOBES, the same four equalities |
| Convert.PairIobBilou | tests/test_convert.py:30 | IOB ↔ BILOU, the same four equalities |
| Convert.PairIobBmeow | tests/test_convert.py:31 | IOB ↔ BMEWO, the same four equalities |
| Convert.PairBioIobes | tests/test_convert.py:32 | BIO ↔ IOBES, the same four equalities |
| Convert.PairBioBilou | tests/test_convert.py:33 | BIO ↔ BILOU, the same four equalities |
| Convert.PairBioBmeow | tests/test_convert.py:34 | BIO ↔ BMEWO, the same four equalities |
| Convert.PairIobesBilou | tests/test_convert.py:35 | IOBES ↔ BILOU, the same four equalities, for any span types |
| Convert.PairIobesBmeow | tests/test_convert.py:36 | IOBES ↔ BMEWO, the same four equalities, for any span types |
| Convert.PairBilouBmeow | tests/test_convert.py:37 | BILOU ↔ BMEWO, the same four equalities, for any span types |
| Convert.PairsOnGenerated | tests/test_convert.py:41-51 | the conversion test's assertions on the generator outputs themselves: each forward conversion maps one generated sequence to the other |
| Convert.BilouAsWrittenNeverReturns | iobes/parse.py:183-186 | as written, the BILOU parse and `bilou_to_iobes` call each other without end: at every depth bound neither returns |
| Convert.ParseBilouAsWritten | iobes/parse.py:183-186 | the BILOU parse as written, with a depth bound: stated by Convert.BilouAsWrittenNeverReturns |
| Convert.BilouToIobesAsWritten | iobes/convert.py:309-321 | `bilou_to_iobes` as written, calling the as-written parse: stated by Convert.BilouAsWrittenNeverReturns |
| Convert.BmewoAsWrittenNeverReturns | iobes/parse.py:193-196 | as written, the BMEWO parse and `bmeow_to_iobes` call each other without end: at every depth bound neither returns |
| Convert.ParseBmewoAsWritten | iobes/parse.py:193-196 | the BMEWO parse as written, with a depth bound: stated by Convert.BmewoAsWrittenNeverReturns |
| Convert.BmeowToIobesAsWritten | iobes/convert.py:387-399 | `bmeow_to_iobes` as written, calling the as-written parse: stated by Convert.BmewoAsWrittenNeverReturns |
| Transitions.Row | iobes/transition.py:19-151 | one row of the grid: one entry per target, in vocabulary order, valid as the rules decide |
| Transitions.Grid | iobes/transition.py:19-151 | the grid has `sources × targets` entries |
| Transitions.GridIndex | iobes/transition.py:19-151 | entry `a·m + b` is the transition from source `a` to target `b` (source-major order) |
| Transitions.GridEntries | iobes/transition.py:19-151 | every entry's source and target come from the vocabulary and its flag is the rule's verdict |
| Transitions.AppendRow | iobes/transition.py:24-57 | the inner loop appends one full row |
| Transitions.BuildGrid | iobes/transition.py:19-151 | the nested loops over tokens followed by start and end produce exactly the grid |
| Transitions.IobAllowed | iobes/transition.py:19-58 | the IOB rule chain: stated by TransitionRules.IobRulesOnTags, TransitionRules.SentinelsClosed and TransitionRules.IobPathsAllowed |
| Transitions.BioAllowed | iobes/transition.py:61-100 | the BIO rule chain: stated by TransitionRules.BioRulesOnTags, TransitionRules.SentinelsClosed and TransitionRules.BioPathsAllowed |
| Transitions.IobesRule | iobes/transition.py:103-151 | the IOBES rule chain, with the `B-` test of line 126 as a parameter: stated through the two predicates below |
| Transitions.IobesAllowedAsWritten | iobes/transition.py:103-151 | the IOBES rules as written: stated by TransitionRules.BeginReachesDashedEnd and TransitionRules.AsWrittenAgrees |
| Transitions.IobesAllowed | iobes/transition.py:103-151 | the corrected IOBES rules: stated by TransitionRules.IobesOpenRules, TransitionRules.IobesClosedRules, TransitionRules.OpenSpanNeverEnds and TransitionRules.IobesPathsAllowed |
| Transitions.IobTransitions | iobes/transition.py:19-58 | `iob_transitions` is the IOB-rule grid |
| Transitions.BioTransitions | iobes/transition.py:61-100 | `bio_transitions` is the BIO-rule grid |
| Transitions.IobesTransitions | iobes/transition.py:103-151 | `iobes_transitions` is the corrected IOBES-rule grid |
| Transitions.RenameTransitions | iobes/transition.py:157-162 | renaming keeps every transition's position and validity and renames its source and target |
| Transitions.BilouTransitions | iobes/transition.py:154-162 | `bilou_transitions` is the corrected IOBES grid of the renamed vocabulary with each token renamed back |
| Transitions.BmeowTransitions | iobes/transition.py:165-173 | `bmeow_transitions`: the corrected IOBES grid, the same with the BMEWO renaming |
| TransitionRules.IobRulesOnTags | iobes/transition.py:19-58 | IOB: into `B-y` only from a span of type `y`; `I-`, `O` and end are always reachable |
| TransitionRules.BioRulesOnTags | iobes/transition.py:61-100 | BIO: into `I-y` only from a span of type `y`; `B-`, `O` and end are always reachable |
| TransitionRules.IobesOpenRules | iobes/transition.py:103-151 | IOBES: after `B-x`/`I-x` only `I-x` or `E-x` may follow; never `O` or end |
| TransitionRules.IobesClosedRules | iobes/transition.py:103-151 | IOBES: after `E-`, `S-`, `O` or start, only `B-`, `S-`, `O` or end may follow |
| TransitionRules.SentinelsClosed | iobes/transition.py:28-34 | nothing enters start and nothing leaves end, in every scheme |
| TransitionRules.BeginReachesDashedEnd | iobes/transition.py:126 | as written, with end `<EOS-1>` the transition `B-A → <EOS-1>` is allowed, `I-A → <EOS-1>` is not, and the corrected rule refuses both |
| TransitionRules.OpenSpanNeverEnds | iobes/transition.py:124-138 | corrected: a `B-`/`I-` source never reaches end |
| TransitionRules.AsWrittenAgrees | iobes/transition.py:126 | the rules as written and corrected agree whenever end has no `-` and the target does not start with end followed by `-` |
| TransitionRules.IobesPathsAllowed | iobes/transition.py:103-151 | every step of start, the IOBES layout of well-formed spans, end is an allowed IOBES transition |
| TransitionRules.BioPathsAllowed | iobes/transition.py:61-100 | every step of start, the BIO layout, end is an allowed BIO transition |
| TransitionRules.IobPathsAllowed | iobes/transition.py:19-58 | every step of start, the IOB layout, end is an allowed IOB transition |
| TransitionRules.BilouPathsAllowed | iobes/transition.py:154-162 | the renamed BILOU layout follows allowed IOBES transitions |
| TransitionRules.BmeowPathsAllowed | iobes/transition.py:165-173 | the renamed BMEWO layout follows allowed IOBES transitions |
| TransitionRules.GridMembership | iobes/transition.py:19-151 | a transition is in the grid iff its source and target are in the vocabulary and its flag is the rule's verdict |
| TransitionRules.GridSentinelsInvalid | iobes/transition.py:28-34 | every grid entry into start or out of end is invalid |
| TransitionRules.BilouGridEntries | iobes/transition.py:154-162 | every renamed-back BILOU grid entry names tokens of the original vocabulary, and renaming forth undoes it |
| TransitionRules.BmeowGridEntries | iobes/transition.py:165-173 | the same for BMEWO |

## Left out

- `to_tags` and `write_tags` (iobes/write.py:7-35) are not modelled. They are
  called with the wrong arguments and reference an undefined
  `SpanEncoding.BMEOW`; nothing else calls them.
- Logging (`LOGGER`) and the text of error messages.
- `safe_get`, `sort_spans` and `sort_errors` are imported from iobes/utils.py
  by tests/test_utils.py:4, but that file defines only the three tag helpers.
  They are not part of this model; `sort_spans` of iobes/write.py:15-16 is.
- Randomness in `generate_spans` and `random_string`: every well-formed span
  list stands for a possible draw (`Spans.WellFormed`).
- Iobes.FromString, Iobes.Lower, Iobes.Upper: Unicode case folding and
  whitespace are not modelled. `Lower`, `Upper` and `Strip` handle ASCII
  letters and the ASCII whitespace characters only, so names that Python's
  `lower().strip()` folds to an accepted one, such as `"to\u212Aen"` (Kelvin
  sign) or `"\u00a0iob"`, are rejected by the model.
- Python lists versus tuples: the generator makes `tokens` a tuple
  (tests/utils.py:33) and the parsers make it a list. Span tokens here are
  one sequence type, so the model treats the two as equal. In Python a tuple
  never equals a list, so the equality the parse tests assert
  (tests/test_parse.py:25, 35, 45, 55, 65) is false as written whenever a
  span is generated; the round-trip lemmas state the intended equality.
- `Error` records carry a location and a type. No parser here emits one, so
  no other fields are modelled.
- The unreachable `raise ValueError` for an unknown scheme in
  `parse_spans_with_errors`: `Encoding` is a closed datatype.
- TagUtils.ExtractType, TagUtils.ExtractFunction: require a non-empty
  separator, where Python raises ValueError for an empty one.
- Convert.BioToIob, Convert.BilouToIob, Convert.BmeowToIob, Convert.IobesToIob,
  Convert.BmewoToIob: these use the corrected IOB writer (see the
  iobes/write.py:41 Finding), so on input that parses to no span, such as
  `bio_to_iob(["O"])` or `bio_to_iob([])`, they return all `O` tags where the
  code as written raises IndexError. The as-written behaviour is stated by
  Write.WriteIobTagsAsWritten and Write.WriteIobEmptyFails.
- Spans.Range, Write.WriteFormatted, Write.WriteTags: span `start`, `end`, the
  token positions and `length` are natural numbers. Python also accepts
  negative values: a negative token position writes counting from the end
  (iobes/write.py:42, 45, 47, 63, 65-68) and a negative length gives `[]`. Only
  the one negative index the writers form from valid spans, `end - 1 == -1`
  for a span with `end == 0`, is modelled (Write.PyIndex). Every caller in
  the package passes non-negative values.
- Write.SortSpans: the order Python's stable `sorted` leaves among spans with
  equal starts is not stated; well-formed span lists have distinct starts,
  and Write.SortedUnique fixes the result there.
- Generate.GenerateFormatted: requires each span's tokens to be non-empty and
  inside the list, where Python would raise IndexError; the generators are
  test oracles and are only applied to generated spans.
- Convert.IobToIobes, Convert.IobToBilou, Convert.IobToBmeow and
  Convert.IobesToIob: the equality with the target layout is stated only when
  no span has type `O`. Through BIO, a span of type `O` is rewritten as
  `B-O`/`I-O`, and BIO reads `B-O` as outside.
- Transitions.IobesTransitions, Transitions.BilouTransitions,
  Transitions.BmeowTransitions: these build their grids with the corrected
  `B-` rule (see the iobes/transition.py:126 Finding), so with an end sentinel
  whose text holds `-`, such as `<EOS-1>`, they refuse `B-x → end` where the
  code as written allows it. The as-written rule is stated by
  TransitionRules.BeginReachesDashedEnd and TransitionRules.AsWrittenAgrees.
- Write.WriteTags: the writer works on an array it allocates itself, as
  `_write_tags` builds a fresh list, so no caller-visible aliasing is
  modelled.

## Findings

| source | as written | input that shows it | evidently intended | confidence | as-written member | corrected member |
|---|---|---|---|---|---|---|
| iobes/write.py:41 | `write_iob_tags` reads `spans[0]` without checking for an empty list | `write_iob_tags([], length=1)` (so `bio_to_iob(["O"])`) raises IndexError | return `length` outside tags, as the other writers do | high, not executed | Write.WriteIobEmptyFails | Write.IobWriterMatchesLayout |
| iobes/transition.py:126 | from `B-x`, the end sentinel is refused only when `extract_function(tgt) == end`; the `I-x` branch at line 136 compares the whole target | end = `<EOS-1>`: `extract_function("<EOS-1>")` is `<EOS`, so `B-A → <EOS-1>` is allowed | refuse when `tgt == end`, as the `I-x` branch does | medium, not executed | TransitionRules.BeginReachesDashedEnd | TransitionRules.OpenSpanNeverEnds |
| iobes/parse.py:183-186 | the BILOU parse calls `bilou_to_iobes`, which is `convert_tags` over the BILOU parse | any call, e.g. `parse_spans_bilou(["U-A"])`, recurses without end | rename each BILOU tag to IOBES, then parse IOBES | high, not executed | Convert.BilouAsWrittenNeverReturns | RoundTrip.BilouRoundTrip |
| iobes/parse.py:193-196 | the BMEWO parse calls `bmeow_to_iobes`, which is `convert_tags` over the BMEWO parse (imported at iobes/convert.py:9 as `parse_spans_bmeow_with_errors`) | any call, e.g. `parse_spans_bmewo(["W-A"])`, recurses without end | rename each BMEWO tag to IOBES, then parse IOBES | high, not executed | Convert.BmewoAsWrittenNeverReturns | RoundTrip.BmeowRoundTrip |
