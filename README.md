# search-string query model

A Dafny model of the TypeScript search-string library. The library turns a
query such as `to:me -from:joe@acme.com foobar` into
keyword/value conditions and free-text segments, offers views and edits on
that parsed query, and writes it back as a string.

The project has six modules:

- `QuotePairs` (quote_pairs.dfy) models `getQuotePairMap`. This is the
  pre-scan that decides which `'` and `"` characters form genuine pairs.
  - The source's `for` loop is the method `GetQuotePairMap`. It is proved equal
    to a fold, `ScanPrefix`, of one step per character.
  - The fold is then tied to an independent reference definition: the
    structural (unescaped) quotes of each kind, paired greedily.
- `Tokenizer` (tokenizer.dfy) models the state machine of `SearchString.parse`
  and the transform hook.
  - Every local variable of the loop is one `ParserState`. `Step` is one
    iteration, `RunFrom` the loop, `Finish` the end-of-input flush, and
    `ParseSpec` the whole parse.
  - `RunParse` is the loop as the source writes it, and it is proved to compute
    `ParseSpec`. `AddTextSegment` is the `forEach` of the transform hook.
- `TokenizerProperties` (tokenizer_properties.dfy) holds what the state machine
  guarantees:
  - how each character class acts;
  - the flush at end of input;
  - commas in an operand;
  - stray quotes;
  - backslashes never being kept;
  - the conditions the transforms add, one per matching transform, in order;
  - quoted values;
  - whole inputs that show the machine's quirks: a repeated `-`, a leading
    space or colon, a colon inside quotes, and an apostrophe inside a word or
    a value.
- `Serializer` (serializer.dfy) models the body of `toString`:
  - grouping by the `-`-prefixed keyword in first-seen order;
  - escaping and quoting values;
  - dropping empty values and empty groups;
  - `getAllText`;
  - JavaScript's `trim`.

  Each loop of the source is a method proved against a function (`BuildGroups`,
  `EscapeValue`, `SafeValuesOf`, `ConditionString`).
- `Query` (search_string.dfy) models the class `SearchString`. Its fields are
  `conditionArray`, `textSegments`, the cached string `str` (the source's field
  `string`) and `isStringDirty`.
  - The class has a cache invariant `Valid()`: a clean cache holds the string
    form of the current contents.
  - The mutators, `clone`, `getParsedQuery` and `toString` are methods on it.
  - Beside the methods are the specification functions and their lemmas:
    - `ParsedQueryOf` for `getParsedQuery`;
    - `WithoutKeyword` for `removeKeyword`;
    - `FindIndex` and `RemoveAt` for `removeEntry`.
- `RoundTrip` (roundtrip.dfy) proves that one condition, or one text segment,
  written by `toString` parses back to itself, under stated conditions on the
  keyword and value.

The transforms of `parse` are a parameter: a sequence of functions from a
string to a key/value pair. A null or undefined input string is modelled as
the empty string. Characters are Dafny `char`s, that is Unicode scalar
values; the source indexes its strings by UTF-16 code unit. The two agree on
text inside the Basic Multilingual Plane (see "Left out").

Behaviour of the code that the model keeps:
- getQuotePairMap never replaces a pending quote: the next structural quote
  of the same kind always closes it (src/utils.ts:15-30). `PairsGreedy`
  states the resulting greedy pairing.
- In RESET, a quote that is not paired is appended to `currentText`, but the
  state stays RESET (src/searchString.ts:149-150 and 159-160). A space in
  RESET does nothing (src/searchString.ts:112-127). So a stray quote is kept
  across the next space and begins the next word (`StrayQuoteCarriedOver`).
  At end of input it is dropped (`LoneStrayQuoteDropped`,
  src/searchString.ts:174-178).
- Only the space character separates tokens (src/searchString.ts:112). Tabs
  and other white space are ordinary characters of a token.
- `toString` groups on the string `-keyword`, not on the pair (negated,
  keyword) (src/searchString.ts:295-296). So a negated `a` and a plain `-a`
  share a group (`GroupKey`).

## Model

| member | source | states |
|---|---|---|
| `QuotePairs.GetQuotePairMap` | src/utils.ts:6-37 | the in-place loop returns exactly the pairs of the one-step-per-character scan `Pairs(str)` |
| `QuotePairs.ScanStep` | src/utils.ts:14-33 | one iteration only adds pairs, at most the pending offset and the current one; each pending offset stays, becomes -1 or becomes the current offset; a kind changes only at a structural quote of that kind |
| `QuotePairs.ScanStepSide` | src/utils.ts:14-31 | one step changes the pairs or the pending offset of a kind only at a structural quote of that kind: it pairs it with the pending one, or it becomes the pending one |
| `QuotePairs.ScanPrefixGreedy` | src/utils.ts:12-34 | after any prefix, the pairs of a kind are the greedy pairing of the structural quotes so far, their count is the even part of those quotes, and the pending offset is the odd one out (or -1) |
| `QuotePairs.PairsGreedy` | src/utils.ts:15-31 | the pairs of each kind are the 1st and 2nd, 3rd and 4th, … unescaped quotes of that kind |
| `QuotePairs.PairsWellFormed` | src/utils.ts:12-31 | every marked offset is in range, holds its quote character and is not preceded by a backslash; no offset is in both maps |
| `QuotePairs.PairsEven` | src/utils.ts:16-28 | each map holds an even number of offsets, twice the number of complete pairs |
| `QuotePairs.LastUnmatchedUnmarked` | src/utils.ts:20-30 | with an odd number of structural quotes, the last one is never marked and is the pending offset at the end |
| `QuotePairs.AtMostOneQuoteNoPairs` | src/utils.ts:14-31 | a string with at most one quote of a kind has no pair of that kind |
| `QuotePairs.NoQuotesNoPairs` | src/utils.ts:7-36 | input without quotes (the empty string, a blank string) gives empty `single` and `double` maps |
| `QuotePairs.PairsIndependent` | src/utils.ts:15-31 | the pairs and pending offset of a kind depend only on where that quote and `\` occur, so `"` never changes the single map and `'` never changes the double map |
| `Tokenizer.TransformConditions` | src/searchString.ts:64-76 | at most one condition per transform, each with the text's negation and a key and value that are both non-empty |
| `Tokenizer.TextSegmentAdded` | src/searchString.ts:64-76 | either exactly the segment is appended and the conditions are unchanged, or at least one condition is appended and the segments are unchanged; the rest of the state is unchanged |
| `Tokenizer.AddTextSegment` | src/searchString.ts:64-76 | the transform loop with its `hasTransform` flag appends the conditions of the matching transforms, and the segment only when there are none |
| `Tokenizer.Step` | src/searchString.ts:111-171 | prevChar becomes the character read; both lists only grow, and only at a space or comma outside quotes while a token is open; an unquoted space or comma in an operand emits exactly one condition |
| `Tokenizer.Finish` | src/searchString.ts:173-178 | both lists only grow; the state is unchanged exactly when no token is pending (RESET) |
| `Tokenizer.RunParse` | src/searchString.ts:78-178 | the character loop over the parser's local variables, then the end-of-input flush, yields exactly the lists of `ParseSpec` |
| `TokenizerProperties.MatchingIndices` | src/searchString.ts:66-72 | the offsets of the transforms that claim the text, in increasing order, and every such offset |
| `TokenizerProperties.TransformConditionsSpec` | src/searchString.ts:64-76 | one condition per matching transform, in transform order: the j-th condition has the key and value of the j-th matching transform and the text's negation; none is added exactly when no transform matches |
| `TokenizerProperties.OnlySpacesParseEmpty` | src/searchString.ts:110-127 | the empty string and a string of spaces give no condition and no text segment |
| `TokenizerProperties.ParseDropsBackslashes` | src/searchString.ts:142-170 | no text segment ever holds a backslash; without transforms no keyword or value holds one either |
| `TokenizerProperties.TrailingColon` | src/searchString.ts:174-178 | the pending token is flushed at end of input: `to:` gives exactly one condition with an empty value |
| `TokenizerProperties.NegatedValueList` | src/searchString.ts:128-131 | `-to:a,b` gives two negated `to` conditions, `a` then `b`, and no text |
| `TokenizerProperties.StrayQuoteKept` | src/searchString.ts:142-151 | two plain words and an unpaired `"`, as in `quoted text"`, give the segments `quoted` and `text"`: the unpaired quote is kept literally |
| `TokenizerProperties.StrayQuoteCarriedOver` | src/searchString.ts:149-150 | a stray quote before a space stays in the text buffer of RESET and opens the next word |
| `TokenizerProperties.LoneStrayQuoteDropped` | src/searchString.ts:174-178 | a lone stray quote token at the end of input never leaves RESET and is dropped |
| `TokenizerProperties.QuotedValue` | src/searchString.ts:142-146 | a paired double-quoted value keeps its spaces, commas and colons and is one condition |
| `TokenizerProperties.RepeatedDash` | src/searchString.ts:132-133 | `--w` parses to the one negated segment `w`: a second `-` before a token sets the flag again and is not kept |
| `TokenizerProperties.LeadingSeparatorSkipped` | src/searchString.ts:112-141 | ` w` and `:w` parse to the one segment `w`: before a token, a space and an unquoted colon are skipped |
| `TokenizerProperties.QuotedColonText` | src/searchString.ts:134-170 | `"a:b"` parses to the one segment `a:b` and no condition: a colon inside quotes is text, and the paired quotes are dropped |
| `TokenizerProperties.ApostropheInWord` | src/searchString.ts:152-161 | `foo'bar` parses to the one segment `foo'bar`: an unpaired `'` is kept literally in a text |
| `TokenizerProperties.ApostropheInValue` | src/searchString.ts:152-161 | `w:a'b` parses to the one condition `w` with value `a'b`, whatever the transforms: an unpaired `'` is kept literally in an operand |
| `Serializer.BuildGroups` | src/searchString.ts:293-302 | the `conditionGroups` loop maps each group key, and only those, to its values in condition order; the keys come in first-seen order |
| `Serializer.KeysFirstSeenOrder` | src/searchString.ts:294-305 | group keys are listed in the order of their first condition |
| `Serializer.ValuesAppend` | src/searchString.ts:294-302 | the values of a group split over a concatenation of condition lists |
| `Serializer.Escape` | src/searchString.ts:312-322 | the escaped value is never shorter, and a value without `"` is unchanged |
| `Serializer.EscapeLength` | src/searchString.ts:312-322 | escaping adds exactly one character per `"` |
| `Serializer.SafeValue` | src/searchString.ts:309-324 | a safe value is never shorter than the value, and starts with `"` exactly when the value holds a space or a comma |
| `Serializer.EscapeValue` | src/searchString.ts:309-324 | the per-character escape loop with its `shouldQuote` flag computes `SafeValue` |
| `Serializer.EscapeQuotesBackslashed` | src/searchString.ts:312-322 | every `"` of an escaped value follows a backslash and, when the value has no backslash, every backslash precedes a `"`; a last character that is not a backslash stays one, a first character that is not `"` is kept; spaces, commas and single quotes occur exactly when they occur in the value |
| `Serializer.EscapeEnds` | src/searchString.ts:312-322 | escaping keeps the last character, and the first one except that a leading `"` gets its backslash |
| `Serializer.SafeValuesNonEmpty` | src/searchString.ts:307-324 | exactly the non-empty values are written, each made safe, in order; none is written exactly when all are empty |
| `Serializer.SafeValuesOf` | src/searchString.ts:307-324 | the `filter`/`map` of one group computes `SafeValues` |
| `Serializer.GroupStrOmitted` | src/searchString.ts:325-327 | a group is omitted exactly when none of its values is non-empty |
| `Serializer.ConditionString` | src/searchString.ts:304-328 | the `Object.keys` loop builds every group in first-seen order |
| `Serializer.SingleConditionStr` | src/searchString.ts:294-327 | one condition with a non-empty value is written as a space, its group key, a colon and its safe value |
| `Serializer.AllText` | src/searchString.ts:218-222 | empty for no segments; otherwise it starts with the first segment as written and its length is that of all segments as written plus one space between each two |
| `Serializer.AllTextAppend` | src/searchString.ts:218-222 | getAllText puts one space between segments and a `-` before each negated one |
| `Serializer.Trim` | src/searchString.ts:329 | the result is never longer than its input, and neither of its ends is white space |
| `Serializer.TrimSpec` | src/searchString.ts:329 | trim keeps a contiguous part cut only at white space, whose two ends are not white space, and which is empty only for all-white-space input; trimming is idempotent |
| `Serializer.TrimPadded` | src/searchString.ts:329 | trim removes exactly one space of padding on each side of a string that does not start or end with white space |
| `Serializer.Render` | src/searchString.ts:290-333 | neither end of the string form is white space, and it is no longer than the condition string, a space and the text together |
| `Query.ParsedQueryOf` | src/searchString.ts:194-212 | a keyword is in the plain map exactly when a plain condition has it, and in `exclude` exactly when a negated one has it; no list is empty |
| `Query.ValuesWhereAt` | src/searchString.ts:196-209 | each condition contributes its value to the list of its own keyword and negation, at the place given by the matching conditions before it |
| `Query.ValuesWhereEmpty` | src/searchString.ts:196-209 | a keyword has a list exactly when some condition with it and that negation exists |
| `Query.ParsedQueryAppend` | src/searchString.ts:196-210 | one more condition pushes its value onto its keyword's list, in `exclude` when negated, and changes nothing else |
| `Query.BlankInputEmptyQuery` | src/searchString.ts:194-212 | an empty or blank input gives no text and a parsed query with no keyword and an empty `exclude` |
| `Query.WithoutKeyword` | src/searchString.ts:239-241 | the filtered list is never longer, and every kept condition is one of the list's and lacks the keyword or the negation |
| `Query.WithoutKeywordSpec` | src/searchString.ts:238-243 | removeKeyword drops every condition with both the keyword and the negation, and keeps every other condition as often as before |
| `Query.WithoutKeywordAppend` | src/searchString.ts:239-241 | the filter distributes over concatenation, so the order of the kept conditions is preserved |
| `Query.WithoutKeywordIdempotent` | src/searchString.ts:238-243 | removing a keyword twice is the same as removing it once |
| `Query.FindIndex` | src/searchString.ts:269-273 | findIndex gives the first offset holding an equal condition, or -1 exactly when there is none |
| `Query.RemoveAt` | src/searchString.ts:275 | splice(index, 1) removes exactly that one condition |
| `Query.SearchString.constructor` | src/searchString.ts:39-44 | a new object holds both lists, an empty string and a stale cache |
| `Query.SearchString.Parse` | src/searchString.ts:51-181 | parse returns a new object with a stale cache whose lists are those of `ParseSpec` |
| `Query.SearchString.GetConditionArray` | src/searchString.ts:186-188 | the stored condition list itself |
| `Query.SearchString.GetTextSegments` | src/searchString.ts:228-230 | the stored segment list itself |
| `Query.SearchString.GetAllText` | src/searchString.ts:218-222 | the segments joined as `AllText` describes |
| `Query.SearchString.GetParsedQuery` | src/searchString.ts:194-212 | the `forEach` over the conditions builds exactly `ParsedQueryOf` of the condition list |
| `Query.SearchString.RemoveKeyword` | src/searchString.ts:238-243 | the list becomes its filter by keyword and negation; the segments are kept and the cache is marked stale |
| `Query.SearchString.AddEntry` | src/searchString.ts:251-258 | exactly one condition is appended, with no de-duplication, and the cache is marked stale |
| `Query.SearchString.RemoveEntry` | src/searchString.ts:268-277 | the first equal condition is removed and the cache marked stale; with none, the list and the dirty flag are unchanged |
| `Query.SearchString.Clone` | src/searchString.ts:282-284 | a new object with equal lists and a stale cache |
| `Query.SearchString.ToString` | src/searchString.ts:290-333 | the result is the string form of the current contents; the cache is then clean, and a clean cache is returned unchanged |
| `RoundTrip.DropEscape` | src/searchString.ts:312-322 | for a value without backslashes, the backslashes toString adds are exactly the ones the parser drops |
| `RoundTrip.RenderOneCondition` | src/searchString.ts:290-333 | one condition is written as its group key, a colon and its safe value, with no surrounding space |
| `RoundTrip.RenderOneText` | src/searchString.ts:218-222 | one text segment is written as its text, after a `-` when negated |
| `RoundTrip.ConditionRoundTrip` | src/searchString.ts:290-333 | a condition written on its own by toString parses back to exactly that condition, with any transforms |
| `RoundTrip.TransformedWord` | src/searchString.ts:64-76 | a lone word gives the conditions the transforms make of it, and is a text segment only when none matches |
| `RoundTrip.TextRoundTrip` | src/searchString.ts:162-178 | a plain word written on its own by toString parses back to the same segment when no transform claims it |

## Left out

- `Object.keys` order: JavaScript lists integer-like keys of `conditionGroups`
  first. The model lists group keys in first-seen order (`Keys`).
- `getParsedQuery` stores the plain keywords and the `exclude` record in one
  plain object (src/searchString.ts:195-208). A plain keyword named `exclude`
  finds the record, and one named like an `Object.prototype` member
  (`constructor`, `toString`, `__proto__`, ...) finds the inherited member.
  Both are truthy, so the `.push` of the source throws a TypeError. The model
  keeps the two sides in separate maps (`ParsedQuery`) and always returns.
- `toString` keys `conditionGroups`, a plain object, by group key
  (src/searchString.ts:293-301). A group key named like an `Object.prototype`
  member finds the inherited member, and the `.push` on it throws a
  TypeError. The model's `BuildGroups`, `Render` and `ToString` always return
  a string.
- Offsets of characters outside the Basic Multilingual Plane: the source
  indexes by UTF-16 code unit, so such a character takes two offsets, while a
  Dafny `char` takes one. The pair offsets of `Pairs` then differ from those
  of getQuotePairMap: for `😀'a'` the source marks 2 and 4, the model 1 and 3.
  Lone surrogates are not representable as Dafny `char`s.
- A transform that returns null or undefined makes the source throw. The
  model's transforms always return a pair.
- The source returns its own arrays from `getConditionArray` and
  `getTextSegments`, and the constructor stores the arrays it is given. The
  model's lists are values, so aliasing between a caller's array and the
  object is not modelled.
- Truthiness coercion of non-string inputs: only "null or undefined means the
  empty string" is modelled, as the empty string.
- The legacy parsers `src/searchString.js` and `searchString.js`, and the
  transforms under `src/transforms/`, are not part of this model. The
  transforms call into a library whose source is not available. `parse`
  takes them as opaque functions.
- ConditionRoundTrip: proved for one condition whose keyword is a plain
  word that does not start with white space, and whose value is non-empty and
  has no backslash. An unquoted value must also have no single quote and not
  end in white space. toString does not escape backslashes, which the parser
  drops. An unquoted value's trailing white space is removed by trim. A single
  quote can pair with another one.
- TextRoundTrip: proved for one plain word that no transform claims.
  Several conditions or segments in one string are not covered by a
  round-trip lemma.
