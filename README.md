# Flashcard recovery pipeline and its retry decorator

The flashcards API has an endpoint that asks a language model for flashcards in a
given category. It then turns the model's near-JSON reply into a list of
question/answer cards. That work is `generate_dummy_data` in
`packages/api/src/shared/presentation/rest/api.py`. This project models that
function and the `retry_on_error` decorator that re-runs it, and proves properties
of the model.

The reply goes through five stages:

1. **Normaliser.** `strip`, then `'` becomes `"`. Newlines, tabs and the two
   characters backslash-`n` are then deleted.
2. **Array locator.** The text is cut from the first `[` to the last `]`.
3. **Repairs.** Four `re.sub` repairs run in order:
   - a comma is inserted between a question value and the `"answer"` key;
   - a comma is inserted between adjacent objects;
   - a comma before `]` is dropped;
   - a comma before `}` is dropped.
4. **Gate.** The text must start with `[` and end with `]`.
5. **Two-tier decoder.**
   - Tier 1 keeps the accepted elements of the decoded array, in order. A dict
     element counts only if it has both keys. A string element is decoded once
     more and counts if that gives such a dict.
   - Tier 2 is used when tier 1 fails or finds nothing. It pairs the
     `"question"` and `"answer"` captures of two `re.findall` scans by
     position.

Every exception inside the function's `try` is re-raised as
`ValueError("Unexpected error: …")`. The decorator makes up to five attempts
while the call raises a `ValueError`, with a one-second pause between
attempts.

Modules:

- `Strings` models Python's `str` whitespace, `strip`, `find`, `rfind` and
  slicing.
- `Substitution` models the left-to-right, non-overlapping scan shared by
  `str.replace` and `re.sub`. The pattern in it is abstract.
- `Scanning` holds the concrete patterns as explicit scanners:
  - the four repairs;
  - the literal replaces;
  - the `findall` field scan.
- `Json` holds the decoded values and the cards.
- `Retry` holds the decorator.
- `Recovery` holds the pipeline.

The pipeline is written as specification functions:

- `Normalize`, `LocateArray`, `ApplyRepairs` and `DecodeTiers`;
- `Recover` for a whole reply and `Generated` for one call.

It is also written as methods that rebind the text step by step, as the source
does:

- `NormalizeReply`, `ExtractArray` and `RepairText`;
- `DecodeCards`, which contains the tier 1 `for` loop;
- `GenerateDummyData`.

Each method is proved equal to its function. The properties are then proved
about the functions.

Things the code does that a reader might not expect (the model follows the code):

- **The locator's `end_idx != -1` test is always true.** `end_idx` is
  `rfind("]") + 1`, so it is never -1. A text with a `[` but no later `]` is
  therefore cut down to the empty string, not kept
  (`Recovery.LocateArrayEmpty`). The gate then rejects it.
- **An empty card list is not an error.** It is returned as the result, so it
  triggers no retry (`Recovery.EmptyArrayNoCards`,
  `Recovery.RecoverFailsOnlyAtGate`).
- **Client construction is not retried.** It happens at line 90, before the
  `try` of line 103, so its exception is not re-wrapped as `ValueError`. If it
  is not itself a `ValueError`, the decorator lets it through on the first
  call (`Recovery.GeneratedRetriable`). Only failures of the request and of
  the pipeline are retried. The model takes the client's exception to be of
  another kind.
- **The repairs also rewrite inside string literals, and repair 3 is not
  idempotent.** The patterns of lines 131-134 do not know where strings start
  and end. A valid array such as `["}{"]` is changed by repair 2, which rewrites
  every `}` directly followed by `{`, wherever it stands
  (`Scanning.ObjectGapRewritesAnywhere`). The repairs are therefore not a no-op on
  well-formed JSON. Repair 3 also gives a different result when run twice. `re.sub`
  resumes after each match, so `,,]` becomes `,]`, and a second pass makes that
  `]` (`Scanning.CommaBeforeBracketNotIdempotent`).
- **The normalised text can start with whitespace.** The strip runs before the
  deletions, so removing a leading backslash-`n` can expose a space
  (`Recovery.NormalizeMayStartWithSpace`).

## Model

| member | source | states |
|---|---|---|
| `Strings.IsSpace` | packages/api/src/shared/presentation/rest/api.py:113 | Python's `str.isspace()` table, which is also what `\s` matches in the patterns of lines 129-134 and 163-164 |
| `Strings.StartsWith` | packages/api/src/shared/presentation/rest/api.py:137 | `startswith` of a prefix: the text is at least as long as the prefix and begins with it |
| `Strings.EndsWith` | packages/api/src/shared/presentation/rest/api.py:137 | `endswith` of one character: the text is non-empty and its last character is that character |
| `Strings.OccursAt` | packages/api/src/shared/presentation/rest/api.py:163-164 | a literal key occurs at an index, character by character |
| `Strings.Find` | packages/api/src/shared/presentation/rest/api.py:122 | `find("[")` is -1 exactly when there is no `[`; otherwise it is an index holding `[` with no `[` before it |
| `Strings.RFind` | packages/api/src/shared/presentation/rest/api.py:123 | `rfind("]")` is -1 exactly when there is no `]`; otherwise it is an index holding `]` with no `]` after it |
| `Strings.FindFirst` | packages/api/src/shared/presentation/rest/api.py:122 | `find` returns an index no later than any occurrence |
| `Strings.RFindLast` | packages/api/src/shared/presentation/rest/api.py:123 | `rfind` returns an index no earlier than any occurrence |
| `Strings.FindFrom` | packages/api/src/shared/presentation/rest/api.py:163-164 | the `[^"]*"` of the field scan: the first `"` at or after `i`, or the end of the text; no `"` lies before it |
| `Strings.FindFromExact` | packages/api/src/shared/presentation/rest/api.py:163-164 | conversely, a `"` at `e` with no `"` between `i` and `e` is exactly where `FindFrom` stops |
| `Strings.FindFromSkips` | packages/api/src/shared/presentation/rest/api.py:163-164 | no index that `[^"]*` passes over holds `"` |
| `Strings.Strip` | packages/api/src/shared/presentation/rest/api.py:113 | `strip()` is never longer than its input; it neither starts nor ends with whitespace; it is empty exactly when the input is all whitespace |
| `Strings.StripFactor` | packages/api/src/shared/presentation/rest/api.py:113 | when only whitespace lies outside `s[i..j]` and `s[i..j]` has no whitespace at either end, `strip()` returns exactly `s[i..j]` |
| `Strings.SkipSpaceBack` | packages/api/src/shared/presentation/rest/api.py:113 | the trailing half of `strip()`: from the end back, only whitespace is dropped, and it stops after a character that is not whitespace or at the start |
| `Strings.SkipSpace` | packages/api/src/shared/presentation/rest/api.py:129 | the greedy `\s*` from `i` covers only whitespace, one index at a time, and stops at the first other character or at the end of the text |
| `Strings.SkipSpaceTo` | packages/api/src/shared/presentation/rest/api.py:129 | conversely, a run of whitespace that ends at a non-whitespace character or at the end of the text is exactly what the greedy `\s*` covers |
| `Strings.SpaceBetweenIff` | packages/api/src/shared/presentation/rest/api.py:129 | the index-by-index whitespace test used by the `\s*` scanners says the same as "every character in the range is whitespace" |
| `Strings.Slice` | packages/api/src/shared/presentation/rest/api.py:125 | the definition of `s[i:j]` for non-negative bounds: both bounds are clamped to the length, and the slice is empty when the end does not lie after the start |
| `Substitution.Sub` | packages/api/src/shared/presentation/rest/api.py:129-134 | the definition of the scan: at each index a match writes its replacement and the scan resumes after the match; otherwise the character is copied and the scan moves on by one |
| `Substitution.SubFromKeeps` | packages/api/src/shared/presentation/rest/api.py:129-134 | a stretch of text where no match starts is copied unchanged |
| `Substitution.SubFromMatch` | packages/api/src/shared/presentation/rest/api.py:129-134 | a match at `i` writes its replacement, and the scan resumes right after the match |
| `Substitution.SubFromNoMatch` | packages/api/src/shared/presentation/rest/api.py:129-134 | without a match at `i` the character there is copied, and the scan moves on by one |
| `Substitution.SubUnchanged` | packages/api/src/shared/presentation/rest/api.py:129-134 | a text in which the pattern matches nowhere comes out unchanged |
| `Substitution.SubLeftmost` | packages/api/src/shared/presentation/rest/api.py:129-134 | the text before the leftmost match is kept; the match is replaced; scanning resumes after the match, so matches never overlap |
| `Substitution.FirstMatchExists` | packages/api/src/shared/presentation/rest/api.py:129-134 | a text in which the pattern matches somewhere has a leftmost match |
| `Substitution.SubChanges` | packages/api/src/shared/presentation/rest/api.py:129-134 | if the leftmost match writes a character different from the one it covers, the text changes |
| `Substitution.SubKeepsTail` | packages/api/src/shared/presentation/rest/api.py:129-134 | a final character survives the substitution when every match covering it ends its replacement with it |
| `Substitution.SubFromChars` | packages/api/src/shared/presentation/rest/api.py:115-134 | every character of the result comes from the input or from what a match wrote |
| `Scanning.KeyColon` | packages/api/src/shared/presentation/rest/api.py:129 | a `KEY\s*:\s*` match at `i` is the key, whitespace up to a `:`, then whitespace up to the first other character, because the trailing `\s*` is greedy |
| `Scanning.KeyColonExact` | packages/api/src/shared/presentation/rest/api.py:129 | conversely, whenever the text has those parts at `i`, `KeyColon` returns exactly that colon and that end |
| `Scanning.AnswerFollows` | packages/api/src/shared/presentation/rest/api.py:129 | `\s*("answer"\s*:\s*)` from `i` is whitespace up to the key, then a `"answer"\s*:\s*` match with its greedy end |
| `Scanning.AnswerFollowsExact` | packages/api/src/shared/presentation/rest/api.py:129 | conversely, whitespace from `i` up to a `"answer"\s*:\s*` match at `g` is exactly what `AnswerFollows` returns |
| `Scanning.QuestionValue` | packages/api/src/shared/presentation/rest/api.py:129 | `"question"\s*:\s*"` at the start of a text is a `"question"\s*:\s*` match whose end holds the value's opening quote |
| `Scanning.QuestionValueExact` | packages/api/src/shared/presentation/rest/api.py:129 | conversely, a `"question"\s*:\s*` match at the start followed by `"` is exactly what `QuestionValue` returns |
| `Scanning.LazyScan` | packages/api/src/shared/presentation/rest/api.py:129 | the lazy `.*?` stops at an index at or after its start that lies inside the text and at which the rest of the pattern matches |
| `Scanning.LazyScanShortest` | packages/api/src/shared/presentation/rest/api.py:129 | the lazy `.*?` stops at the first index where the rest can match, and crosses no newline on the way |
| `Scanning.LazyScanComplete` | packages/api/src/shared/presentation/rest/api.py:129 | when the lazy scan fails on a text without newlines, no stopping point exists |
| `Scanning.LazyScanExact` | packages/api/src/shared/presentation/rest/api.py:129 | conversely, a stopping point with no newline and no earlier stopping point before it is exactly where the lazy scan stops |
| `Scanning.LazyClose` | packages/api/src/shared/presentation/rest/api.py:129 | the lazy `.*?\"` from the value's first character stops at a quote after which `\s*"answer"\s*:` follows |
| `Scanning.LazyCloseExact` | packages/api/src/shared/presentation/rest/api.py:129 | conversely, the first such quote, with no newline before it, is exactly where the lazy `.*?\"` stops |
| `Scanning.QuestionAnswerSpan` | packages/api/src/shared/presentation/rest/api.py:129 | a line-129 match meets every part of the pattern: `"question"`, whitespace, `:`, whitespace up to the opening `"`, a closing `"`, a whitespace gap, then `"answer"`, whitespace, `:` and whitespace up to the first other character |
| `Scanning.SpanCloses` | packages/api/src/shared/presentation/rest/api.py:129 | in every match, the quote that closes the value is one at which the lazy body may stop, and the `\s*("answer"\s*:\s*)` after it is the match's own |
| `Scanning.QuestionAnswerSpanExact` | packages/api/src/shared/presentation/rest/api.py:129 | conversely, a text with every part of the pattern at `sp`, whose value stops at its first viable quote without crossing a newline, is matched at exactly `sp` |
| `Scanning.QuestionAnswerShortest` | packages/api/src/shared/presentation/rest/api.py:129 | the question value of a match holds no newline and no earlier quote after which `\s*"answer"\s*:` follows |
| `Scanning.Rejoin` | packages/api/src/shared/presentation/rest/api.py:129 | the replacement `\1, \2`: group 1 up to and including the closing quote, then `, `, then group 2 from `"answer"` to the end of the match |
| `Scanning.QuestionAnswerGapChange` | packages/api/src/shared/presentation/rest/api.py:129 | each line-129 change keeps group 1 through the closing quote, replaces the whitespace gap by exactly `, `, and keeps `"answer"\s*:\s*` |
| `Scanning.QuestionAnswerAt` | packages/api/src/shared/presentation/rest/api.py:129 | a line-129 match at the start of a text covers at least one character and at most the whole text |
| `Scanning.QuestionAnswerAlters` | packages/api/src/shared/presentation/rest/api.py:129 | line 129 writes `,` where whitespace or the opening quote of `"answer"` stood |
| `Scanning.QuestionAnswerGapNeedsQuestion` | packages/api/src/shared/presentation/rest/api.py:129 | a text with no `"question"\s*:\s*"` anywhere is left unchanged by line 129 |
| `Scanning.MatchAt` | packages/api/src/shared/presentation/rest/api.py:129-134 | a match of any of the four repair patterns covers at least one character and at most the whole text |
| `Scanning.Substitute` | packages/api/src/shared/presentation/rest/api.py:129-134 | the definition of `re.sub` for one repair: the left-to-right, non-overlapping scan with that repair's pattern |
| `Scanning.Replace` | packages/api/src/shared/presentation/rest/api.py:115-118 | the definition of `str.replace` with a non-empty target: the left-to-right, non-overlapping scan that replaces each occurrence of the literal target |
| `Scanning.Spaced` | packages/api/src/shared/presentation/rest/api.py:131-134 | a `}\s*{`, `,\s*]` or `,\s*}` match is the first character, then only whitespace, then the last character, and it is replaced by that repair's fixed text |
| `Scanning.SpacedExact` | packages/api/src/shared/presentation/rest/api.py:131-134 | conversely, the first character, a run of whitespace and then the last character are always matched, over exactly that length |
| `Scanning.SpacedNone` | packages/api/src/shared/presentation/rest/api.py:131-134 | the first character followed by a character that is neither whitespace nor the last one is no match |
| `Scanning.RepairAlters` | packages/api/src/shared/presentation/rest/api.py:129-134 | a repair never writes back the text it matched |
| `Scanning.RepairUnchangedIff` | packages/api/src/shared/presentation/rest/api.py:129-134 | a repair leaves the text unchanged exactly when its pattern matches nowhere in it |
| `Scanning.ObjectGapRewritesAnywhere` | packages/api/src/shared/presentation/rest/api.py:131 | repair 2 changes every text holding `}` directly followed by `{`, wherever that stands, string literals included |
| `Scanning.CommaBracket` | packages/api/src/shared/presentation/rest/api.py:133 | repair 3 turns `,]` into `]` |
| `Scanning.CommaCommaBracket` | packages/api/src/shared/presentation/rest/api.py:133 | repair 3 turns `,,]` into `,]`: no match starts at the first comma |
| `Scanning.CommaBeforeBracketNotIdempotent` | packages/api/src/shared/presentation/rest/api.py:133 | repair 3 is not idempotent: a second pass over the result for `,,]` changes it again |
| `Scanning.SubstituteChars` | packages/api/src/shared/presentation/rest/api.py:129-134 | every character a repair outputs comes from its input or from its own replacement text |
| `Scanning.NoMatchAtBracket` | packages/api/src/shared/presentation/rest/api.py:129-134 | no repair pattern matches at a `[` |
| `Scanning.RepairKeepsHead` | packages/api/src/shared/presentation/rest/api.py:129-134 | a repair keeps a leading `[` |
| `Scanning.RepairKeepsTail` | packages/api/src/shared/presentation/rest/api.py:129-134 | a repair keeps a trailing `]` |
| `Scanning.ReplaceRemoves` | packages/api/src/shared/presentation/rest/api.py:115-117 | replacing a single character by text without it removes every occurrence |
| `Scanning.ReplaceChars` | packages/api/src/shared/presentation/rest/api.py:115-118 | every character of `s.replace(t, u)` comes from `s` or from `u` |
| `Scanning.ReplaceAbsent` | packages/api/src/shared/presentation/rest/api.py:115-118 | `replace` leaves a text unchanged when the target's first character is absent from it |
| `Scanning.LiteralMatcher` | packages/api/src/shared/presentation/rest/api.py:115-118 | the target match of `str.replace`: it covers exactly the non-empty target and writes the replacement, so the scan always advances |
| `Scanning.FieldAt` | packages/api/src/shared/presentation/rest/api.py:163-164 | a `KEY\s*:\s*"([^"]*)"` match at index `i` starts with a `KEY\s*:\s*` match followed by `"`, ends with the next `"`, covers at least one character, and captures exactly the text between the two quotes, which holds no `"` |
| `Scanning.FieldAtExact` | packages/api/src/shared/presentation/rest/api.py:163-164 | conversely, a `KEY\s*:\s*` match at `i`, a `"`, text without `"` and a closing `"` are always matched at `i`, and the capture is that text |
| `Scanning.CollectFrom` | packages/api/src/shared/presentation/rest/api.py:163-164 | the definition of the `findall` scan for a one-group pattern: at each index a match contributes its capture and the scan resumes after the match; otherwise the scan moves on by one |
| `Scanning.CollectFromSkip` | packages/api/src/shared/presentation/rest/api.py:163-164 | a stretch in which no match starts contributes no capture |
| `Scanning.CollectFromLeftmost` | packages/api/src/shared/presentation/rest/api.py:163-164 | the leftmost match at or after `i` contributes the next capture, and scanning resumes after it |
| `Scanning.CollectFromSound` | packages/api/src/shared/presentation/rest/api.py:163-164 | every capture is the capture of a match that starts at or after `i` |
| `Scanning.FieldFinder` | packages/api/src/shared/presentation/rest/api.py:163-164 | the pattern `KEY\s*:\s*"([^"]*)"` tried at an index is a match that lies inside the text and consumes at least one character |
| `Scanning.FindAllFrom` | packages/api/src/shared/presentation/rest/api.py:163-164 | `re.findall` from `i` is the collecting scan with the field pattern; no capture contains `"` |
| `Scanning.FindAll` | packages/api/src/shared/presentation/rest/api.py:163-164 | `re.findall` over the whole text; no capture contains `"` |
| `Scanning.FindAllFromSkip` | packages/api/src/shared/presentation/rest/api.py:163-164 | indices at which no `KEY\s*:\s*"([^"]*)"` match starts add no capture |
| `Scanning.FindAllLeftmost` | packages/api/src/shared/presentation/rest/api.py:163-164 | the leftmost field match at or after `i` is captured, with its quoted text, and the scan resumes right after that match, so matches never overlap; so every field the scan reaches is found, in order of appearance |
| `Scanning.FindAllFromSound` | packages/api/src/shared/presentation/rest/api.py:163-164 | every capture is the quoted text of a field match at or after `i` |
| `Scanning.FindAllWithoutKey` | packages/api/src/shared/presentation/rest/api.py:163-164 | a text where the key never occurs from `i` on has no captures |
| `Recovery.Normalize` | packages/api/src/shared/presentation/rest/api.py:113-118 | the definition of the normaliser: `strip`, then `'` becomes `"`, then newlines, tabs and backslash-`n` are deleted, in that order |
| `Recovery.NormalizeClean` | packages/api/src/shared/presentation/rest/api.py:113-118 | the normalised text has no `'`, no newline and no tab |
| `Recovery.NormalizeMayStartWithSpace` | packages/api/src/shared/presentation/rest/api.py:113-118 | the normalised text need not be trimmed: the reply backslash, `n`, space, `x` becomes ` x` |
| `Recovery.NormalizeEmptyArray` | packages/api/src/shared/presentation/rest/api.py:113-118 | the reply `[]` is unchanged by the normaliser |
| `Recovery.NormalizeReply` | packages/api/src/shared/presentation/rest/api.py:113-118 | the step-by-step rebinding computes the normalised text |
| `Recovery.LocateArray` | packages/api/src/shared/presentation/rest/api.py:122-125 | the definition of the locator: when a `[` exists, the slice from the first `[` to just after the last `]`; otherwise the text as it is |
| `Recovery.LocateArrayUnchanged` | packages/api/src/shared/presentation/rest/api.py:122-125 | a text without `[` is returned unchanged |
| `Recovery.LocateArrayEmpty` | packages/api/src/shared/presentation/rest/api.py:122-125 | a text with a `[` but no later `]` becomes the empty string |
| `Recovery.BracketOrder` | packages/api/src/shared/presentation/rest/api.py:122-123 | when some `[` precedes some `]`, the first `[` precedes the last `]` |
| `Recovery.LocateArrayBetween` | packages/api/src/shared/presentation/rest/api.py:122-125 | when the first `[` comes before the last `]`, the result is the inclusive slice between them |
| `Recovery.LocateArrayBrackets` | packages/api/src/shared/presentation/rest/api.py:122-125 | with a `[` before a later `]`, the result runs from the first `[` (nothing before it is a `[`) through the last `]` (nothing after it is a `]`) |
| `Recovery.LocateArrayShaped` | packages/api/src/shared/presentation/rest/api.py:122-125 | in that case the result starts with `[` and ends with `]` |
| `Recovery.LocateEmptyArray` | packages/api/src/shared/presentation/rest/api.py:122-125 | `[]` is unchanged by the locator |
| `Recovery.ExtractArray` | packages/api/src/shared/presentation/rest/api.py:122-125 | the method with the source's guard computes the located text |
| `Recovery.ApplyRepairs` | packages/api/src/shared/presentation/rest/api.py:129-134 | the definition of the repairs: the four substitutions in the order of the source |
| `Recovery.IsArrayShaped` | packages/api/src/shared/presentation/rest/api.py:137 | the definition of the gate's test: the text starts with `[` and ends with `]` |
| `Recovery.SubstituteKeepsShape` | packages/api/src/shared/presentation/rest/api.py:129-137 | one repair keeps a text array-shaped |
| `Recovery.RepairKeepsShape` | packages/api/src/shared/presentation/rest/api.py:129-137 | the four repairs never remove a leading `[` or a trailing `]` |
| `Recovery.SubstituteNoBracket` | packages/api/src/shared/presentation/rest/api.py:129-134 | one repair writes no `[` |
| `Recovery.RepairNoBracket` | packages/api/src/shared/presentation/rest/api.py:129-134 | the four repairs create no `[` |
| `Recovery.GateIff` | packages/api/src/shared/presentation/rest/api.py:122-138 | the gate passes exactly when the normalised text has a `[` before some later `]` |
| `Recovery.SubstituteEmptyArray` | packages/api/src/shared/presentation/rest/api.py:129-134 | every repair leaves `[]` unchanged |
| `Recovery.EmptyArrayPipeline` | packages/api/src/shared/presentation/rest/api.py:113-137 | the reply `[]` reaches the decoder as `[]` and passes the gate |
| `Recovery.RepairText` | packages/api/src/shared/presentation/rest/api.py:129-134 | the four rebinding steps compute the repaired text |
| `Recovery.CardOf` | packages/api/src/shared/presentation/rest/api.py:148-149 | a value yields a card exactly when it is a dict with both `question` and `answer`; the card holds those two values unchanged |
| `Recovery.Accept` | packages/api/src/shared/presentation/rest/api.py:146-157 | the definition of what the loop does with one element: a dict is tested for both keys; a string is decoded again and tested likewise; anything else is skipped |
| `Recovery.AcceptIff` | packages/api/src/shared/presentation/rest/api.py:146-157 | a dict element is accepted exactly when it has both keys; a string element exactly when it decodes to such a dict; nothing else is accepted; values are copied as they are |
| `Recovery.Tier1` | packages/api/src/shared/presentation/rest/api.py:141-157 | tier 1 yields at most one card per element |
| `Recovery.Tier1Append` | packages/api/src/shared/presentation/rest/api.py:146-157 | tier 1 over two runs of elements is tier 1 over the first followed by tier 1 over the second |
| `Recovery.Tier1Order` | packages/api/src/shared/presentation/rest/api.py:146-157 | the `k`-th card comes from the `k`-th accepted element; the source indices increase; every accepted element contributes a card |
| `Recovery.Tier1EmptyIff` | packages/api/src/shared/presentation/rest/api.py:146-160 | tier 1 finds nothing exactly when no element is accepted |
| `Recovery.Zip` | packages/api/src/shared/presentation/rest/api.py:165 | `zip` gives as many cards as the shorter list, the `k`-th card pairing the `k`-th question with the `k`-th answer |
| `Recovery.Tier2` | packages/api/src/shared/presentation/rest/api.py:163-165 | the fallback has the minimum of the two capture counts; card `k` pairs capture `k` of each scan; every value is a string without `"` |
| `Recovery.DecodeTiers` | packages/api/src/shared/presentation/rest/api.py:141-165 | the definition of the two tiers: tier 1 on the decoded array when it yields a card, the tier 2 scan of the text otherwise |
| `Recovery.DecodeFallback` | packages/api/src/shared/presentation/rest/api.py:142-165 | a decode failure, a non-array root, or an array with no accepted element sends the text to tier 2 |
| `Recovery.DecodeFirstTier` | packages/api/src/shared/presentation/rest/api.py:142-160 | an array with an accepted element is decoded by tier 1 alone, and the result is not empty |
| `Recovery.EmptyArrayNoCards` | packages/api/src/shared/presentation/rest/api.py:141-167 | when `[]` decodes to the empty array, both tiers find nothing and the empty list is the result |
| `Recovery.DecodeCards` | packages/api/src/shared/presentation/rest/api.py:141-165 | the tier 1 loop appends the accepted elements in order, and an empty result falls back to tier 2 |
| `Recovery.Recover` | packages/api/src/shared/presentation/rest/api.py:113-169 | the definition of the pipeline on a reply: normalise, locate, repair, then either the two tiers or the gate's error with the `Unexpected error: ` prefix |
| `Recovery.Generated` | packages/api/src/shared/presentation/rest/api.py:88-169 | the definition of one call: the client's own exception, a wrapped request failure, or the pipeline's result |
| `Recovery.RecoverFailsOnlyAtGate` | packages/api/src/shared/presentation/rest/api.py:113-169 | a reply yields cards (possibly none) or fails only at the gate with `Unexpected error: Invalid JSON array structure`; it fails exactly when the normalised reply has no `[` before a later `]`; nothing escapes un-wrapped |
| `Recovery.ReplyRetriable` | packages/api/src/shared/presentation/rest/api.py:113-169 | a reply never ends in a non-retried error, and every error it ends in starts with `Unexpected error: ` |
| `Recovery.GeneratedRetriable` | packages/api/src/shared/presentation/rest/api.py:88-169 | a call fails with a non-retried error exactly when constructing the client fails; every retried error starts with `Unexpected error: ` |
| `Recovery.GenerateDummyData` | packages/api/src/shared/presentation/rest/api.py:88-169 | the method computes the outcome of one call: client failure, wrapped request failure, or the pipeline's result |
| `Recovery.Attempts` | packages/api/src/shared/presentation/rest/api.py:87 | the outcomes of the successive calls that the decorator makes: call `k` is one call of `generate_dummy_data` with the `k`-th upstream behaviour |
| `Retry.RetryOnError` | packages/api/src/shared/presentation/rest/api.py:39-56 | see the notes below the table |
| `Recovery.GenerateWithRetry` | packages/api/src/shared/presentation/rest/api.py:87-169 | see the notes below the table |

`Retry.RetryOnError` states the following:

- There is at least one call.
- For `n >= 1` there are at most `n` calls. For `n <= 0` there is exactly one
  unguarded call.
- The result is the last call's outcome. Every earlier call raised a retried
  error, so the first success or other exception is returned at once.
- For `n >= 1`, a retried error escapes only after exactly `n` calls.
- There is one `time.sleep` call between consecutive calls, so `calls - 1`
  of them in all, each of the configured number of seconds.

`Recovery.GenerateWithRetry` states the following:

- `generate_dummy_data` under `max_attempts=5` makes 1 to 5 calls.
- The result is the last call's outcome after retried failures.
- A retried error escapes only after 5 calls and 4 sleeps of one second.
- A non-retried error means that constructing the client failed.
- If every request fails, all 5 attempts are used.

## Left out

- The Groq client and the model call (lines 90-109) are network I/O in a
  foreign library. Each call's behaviour is an input of type
  `Recovery.Upstream`. It says whether client construction failed, the request
  failed, or which reply text arrived. Some failures look like replies but raise
  inside the `try`. A response with no choices fails at line 109. A message whose
  content is `None` fails at the `strip` of line 113. Line 169 wraps both and
  the decorator retries them, so the model counts them as `RequestFailure`. `GenerateWithRetry` takes the behaviour
  of successive calls as a function of the attempt number.
- `time.sleep` (line 51) is counted, as a number of calls and as seconds slept;
  no real time passes.
- The `print` calls (lines 110, 114 and 120) are output with no effect on the
  result.
- `json.loads` has no parser here. The pipeline takes it as a parameter that
  gives a `Json` value, or `None` where it raises `JSONDecodeError`.
- Other exceptions from `json.loads` (for example a recursion error) also
  lead to tier 2, but the decoder parameter cannot express them.
- Numbers keep their literal text instead of becoming Python `int`/`float`
  values. The pipeline never looks at them.
- The regular-expression engine in general is not modelled. Only the fixed
  patterns of lines 129-134 and 163-164 are, as explicit scanners.
- `\s` and `str.strip` use Python's `str.isspace` table of characters. Its
  agreement with the Unicode database is not reproduced.
- Recovery.GeneratedRetriable: a client-construction error that is itself a
  `ValueError` would be retried by the decorator. The model treats every
  client-construction error as not retried.
- `populate_database` (lines 59-84) and `wipe_database` (lines 28-36) are
  database orchestration and raw SQL.
- The NinjaAPI routers and `urlpatterns` are framework set-up.
- The prompt text (lines 92-101) only shapes the model's reply, and the model
  does not constrain that reply.
- The end-to-end statement that `Recover` maps
  the reply `[]` to `Ok([])` is not proved as one lemma. It follows from
  `EmptyArrayPipeline`, `RecoverFailsOnlyAtGate` and `EmptyArrayNoCards`.
