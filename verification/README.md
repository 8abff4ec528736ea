# Essay corrector, modelled in Dafny

A model of the logic inside the `EssayCorrector` React component of the OREO
essay trainer. Students write an essay as a title, an introduction, one or
more OREO body sections (opinion, reason, example, reemphasis) and a
conclusion. The draft is compiled into one labelled prompt text and sent to a
language model. The model's reply is cut down to its JSON object, and the
`general` comments in it are rewritten from the casual 해요체 register into the
formal 합니다체 register. The legacy flat body fields are folded into an
`oreoSections` array. Finally a score is computed from the checklist
criteria.

Modules, one per piece of the component:

- `Wrappers`: `Option` and `Result`.
- `Text`: characters and strings.
  - Hangul syllables and `[가-힣]`.
  - occurrences and `indexOf`.
  - decimal numerals for `${index + 1}`.
  - JavaScript `trim`, with the ECMAScript white-space set.
- `EssayDraft`: the draft and the four editing handlers. The fresh section id
  that the source takes from `Date.now()` is a parameter.
- `Compiler`: `compileEssay`, with its literals reproduced character for
  character, and the empty-essay guard of `handleSubmit`.
- `Register`: `convertToFormalStyle`. The regexes are hand-written matchers:
  - the seventeen suffix rules `([가-힣]+)suffix`, each greedy and global;
  - the ten label patterns `label([^\n]+)`;
  - the two quote patterns.
  - `String.prototype.replace`'s `$` patterns at the label reinsertion.
- `JsonValue`: parsed JSON values and the JavaScript operations the code applies
  to them:
  - property reads, including the `TypeError` on `undefined` or `null`;
  - truthiness;
  - `typeof … === 'object'`;
  - `||`;
  - assignment.
- `Normalizer`: the reply handling, in four steps:
  - extraction with `\{[\s\S]*\}`;
  - `JSON.parse`, taken as a parameter;
  - the reshaping of `introduction`, the body and `conclusion`;
  - the text-only fallback taken on every failure.
- `Score`: `calculateScore`, modelled twice:
  - on a typed result whose slots are `Structured(criteria, general) | Raw(text)`;
  - on the stored JSON value, read property by property as the source reads
    it, with throws included.

  The two models are proved to agree on every well-shaped result.
- `Findings`: two concrete inputs on which the label reinsertion at line 216
  goes wrong, each with the corrected behaviour.
- `Reapply`: a concrete input on which converting twice differs from converting
  once.

Three behaviours of the code differ from what its guards and comments suggest:

- The guard at lines 229-232 rejects an empty essay before the request, but it
  never fires. The compiled text always holds its labels, so `trim` never
  yields `''` (`Compiler.SubmitNeverRefuses`).
- Re-normalising a normalised reply is not a no-op. The array branch is taken
  the second time (`Normalizer.ReshapeGivesArray`), but the `general` texts are
  converted again, and `convertToFormalStyle` as written is not idempotent
  (`Reapply.ConvertAsWrittenNotIdempotent`). The version with labels reinserted
  as intended is not idempotent either (`Reapply.ConvertNotIdempotent`), since
  the second change comes from the ending rules. `Normalizer.ReshapeTwice`
  proves the no-op property for idempotent converters only.
- The comment at line 126 says at least one section is kept. That relies on
  distinct ids. Two sections sharing an id are removed together, even from a
  two-section draft (`EssayDraft.DuplicateIdsEmptyDraft`).

## Model

| member | source | states |
|---|---|---|
| EssayDraft.SetField | src/components/EssayCorrector.tsx:92-97 | the chosen top-level field reads back the new value; the other two fields and the sections are unchanged |
| EssayDraft.SetFieldGetIsIdentity | src/components/EssayCorrector.tsx:92-97 | writing back the value a field already has leaves the draft equal to itself |
| EssayDraft.SetFieldTwice | src/components/EssayCorrector.tsx:92-97 | a second write to the same field overrides the first |
| EssayDraft.SetSection | src/components/EssayCorrector.tsx:103 | the spread `{ ...section, [field]: value }` changes the named field and no other |
| EssayDraft.SetSectionField | src/components/EssayCorrector.tsx:99-106 | length and order are kept, and sections with another id are unchanged; a section with the id has the named field set and its other fields kept; the top-level fields are unchanged |
| EssayDraft.SetSectionFieldMissingId | src/components/EssayCorrector.tsx:99-106 | editing an id no section has leaves the draft as it is |
| EssayDraft.SetSectionFieldIdempotent | src/components/EssayCorrector.tsx:99-106 | repeating an edit changes nothing more, even when the edited field is the id |
| EssayDraft.SetSectionFieldPreservesValid | src/components/EssayCorrector.tsx:99-106 | editing any field except the id keeps at least one section and keeps the ids distinct |
| EssayDraft.AddSection | src/components/EssayCorrector.tsx:108-123 | exactly one blank section carrying the given id is appended after the unchanged earlier sections; the top-level fields are unchanged |
| EssayDraft.AddPreservesValid | src/components/EssayCorrector.tsx:108-123 | appending a section whose id is fresh keeps the ids distinct |
| EssayDraft.Without | src/components/EssayCorrector.tsx:133 | `filter(section => section.id !== sectionId)`: a section is kept exactly when it was present and its id differs |
| EssayDraft.WithoutAppend | src/components/EssayCorrector.tsx:133 | filtering distributes over concatenation, so kept sections keep their relative order |
| EssayDraft.RemoveSection | src/components/EssayCorrector.tsx:125-135 | with one section or fewer the draft is unchanged; otherwise exactly the sections with the id are dropped; the top-level fields never change |
| EssayDraft.WithoutUniqueDropsAtMostOne | src/components/EssayCorrector.tsx:133 | with distinct ids the filter removes at most one section and keeps the ids distinct |
| EssayDraft.RemovePreservesValid | src/components/EssayCorrector.tsx:125-135 | with distinct ids, removal never leaves fewer than one section |
| EssayDraft.DuplicateIdsEmptyDraft | src/components/EssayCorrector.tsx:125-135 | two sections sharing an id pass the length guard and are both removed, leaving none |
| EssayDraft.AddThenRemove | src/components/EssayCorrector.tsx:108-135 | removing a freshly added section by its new id restores the original draft |
| Text.DecimalRoundTrip | src/components/EssayCorrector.tsx:145 | the numeral written for a section number reads back as that number |
| Text.DecimalInjective | src/components/EssayCorrector.tsx:145 | distinct section numbers give distinct headings |
| Text.TrimEmptyIff | src/components/EssayCorrector.tsx:229 | `trim` yields the empty string exactly when every character is ECMAScript white space |
| Compiler.CompileEssay | src/components/EssayCorrector.tsx:137-157 | the loop produces the header, one block per section in order numbered from 1, then the conclusion line |
| Compiler.CompiledFrame | src/components/EssayCorrector.tsx:137-157 | the compiled essay starts with `제목: ` and the title, and ends with `결론: ` and the conclusion |
| Compiler.BlocksAppend | src/components/EssayCorrector.tsx:144-152 | the blocks of consecutive section lists are consecutive, and the numbering continues without gaps |
| Compiler.BlockOfSection | src/components/EssayCorrector.tsx:144-152 | the i-th section appears exactly in the block numbered i+1, with the earlier sections' blocks before it and the later ones after it |
| Compiler.BlockHeading | src/components/EssayCorrector.tsx:145 | every block opens with its heading `본론 k:` and a newline |
| Compiler.CompileAfterAdd | src/components/EssayCorrector.tsx:108-157 | adding a section inserts exactly one blank block, numbered one past the last, just before the conclusion; nothing else in the text moves |
| Compiler.CompileIgnoresIds | src/components/EssayCorrector.tsx:137-157 | drafts that differ only in section ids compile to the same text |
| Compiler.BlocksIgnoreIds | src/components/EssayCorrector.tsx:144-152 | section ids never appear in the blocks |
| Compiler.Submit | src/components/EssayCorrector.tsx:227-232 | the submission is refused with the validation message exactly when the compiled text trims to empty; otherwise the compiled text goes on |
| Compiler.SubmitNeverRefuses | src/components/EssayCorrector.tsx:229-232 | the compiled text never trims to empty, so the guard never fires, even for a blank draft |
| Register.RunEndSpec | src/components/EssayCorrector.tsx:181-197 | `[가-힣]+` takes a maximal run: all Hangul, ending at the end of the text or at a non-Hangul character |
| Register.SuffixMatch | src/components/EssayCorrector.tsx:181-197 | a match attempted at i ends its capture strictly inside the run from i, at an occurrence of the suffix |
| Register.SuffixMatchIsGreedy | src/components/EssayCorrector.tsx:181-197 | the greedy capture takes the last occurrence of the suffix in the run; no match means no occurrence past the run's first syllable |
| Register.RuleFromAtMatch | src/components/EssayCorrector.tsx:206-208 | where a match starts, the capture is kept, the suffix becomes the replacement, and the scan resumes after the match |
| Register.RuleFromNoMatch | src/components/EssayCorrector.tsx:206-208 | where no match starts, one character is copied |
| Register.RuleIsRunwise | src/components/EssayCorrector.tsx:180-208 | for a Hangul-only suffix, the global replacement equals an independent run-by-run rewrite: each maximal Hangul run has at most one occurrence rewritten, the rightmost one that is not at the start of the run |
| Register.SelfRuleIsIdentity | src/components/EssayCorrector.tsx:188 | a rule whose replacement repeats its suffix leaves every text unchanged |
| Register.KeptEndings | src/components/EssayCorrector.tsx:188-196 | the `을까요` rule and the `군요` rule are identities |
| Register.RulesFixNonHangul | src/components/EssayCorrector.tsx:180-208 | text without Hangul syllables passes every rule unchanged |
| Register.RuleWithoutSuffix | src/components/EssayCorrector.tsx:206-208 | a rule whose suffix never occurs leaves the text unchanged |
| Register.RulesWithoutSuffixes | src/components/EssayCorrector.tsx:206-208 | rules whose suffixes start with characters absent from the text leave the text unchanged |
| Register.ApplyRulesAppend | src/components/EssayCorrector.tsx:206-208 | applying a list of rules means applying its front, then its back, in list order |
| Register.QuotePassPlain | src/components/EssayCorrector.tsx:175-176 | text without the quote character passes the quote pattern unchanged |
| Register.QuotePassSpan | src/components/EssayCorrector.tsx:204-214 | the first quoted span's content is converted and wrapped again in the same quote character; the text before it is unchanged |
| Register.QuotePassIdentity | src/components/EssayCorrector.tsx:204-214 | under a converter that changes nothing, the quote pass reproduces every quote exactly |
| Register.ExpandLiteral | src/components/EssayCorrector.tsx:216 | a replacement string without `$` is inserted literally |
| Register.LabelPassAtLabel | src/components/EssayCorrector.tsx:165-174 | a labelled span runs from the label to the end of its line; its content is converted and spliced back, and the scan continues on the next line |
| Register.LabelPassAbsent | src/components/EssayCorrector.tsx:203-217 | a text that does not contain the label passes that label's pattern unchanged |
| Register.LabelPassIdentity | src/components/EssayCorrector.tsx:203-217 | with the intended reinsertion and a converter that changes nothing, every label survives |
| Register.LabelPassAsWrittenIdentity | src/components/EssayCorrector.tsx:216 | the source's `match.replace(p1, …)` changes nothing under such a converter too, provided the text holds no `$` |
| Register.SpliceFirstUnchanged | src/components/EssayCorrector.tsx:216 | reinserting unchanged content as the source does gives the match back when the content has no `$` |
| Register.ConvertWith | src/components/EssayCorrector.tsx:161 | `if (!text) return text`: empty text comes back as it is |
| Register.ConvertThroughLabels | src/components/EssayCorrector.tsx:203-219 | when the label passes leave no quote character, the quote passes change nothing |
| Register.ConvertWithoutSpans | src/components/EssayCorrector.tsx:160-222 | text with no label and no quote character has no example span, so the conversion leaves it unchanged |
| Register.LabelPassesAppend | src/components/EssayCorrector.tsx:203-204 | the label patterns apply one after another, each to the previous pattern's output |
| Findings.DollarAsWritten | src/components/EssayCorrector.tsx:216 | as written, `예시: $$` becomes `예시: $`, although its content contains no Hangul |
| Findings.DollarCorrected | src/components/EssayCorrector.tsx:216 | with the intended reinsertion, `예시: $$` comes back unchanged |
| Findings.EchoAsWritten | src/components/EssayCorrector.tsx:216 | as written, `이렇게 써보세요: 보세요` has its label rewritten, giving `이렇게 써보십시오: 보세요`, and its content left casual |
| Findings.EchoCorrected | src/components/EssayCorrector.tsx:216 | with the intended reinsertion, the label is kept and the content becomes `보십시오` |
| Findings.FormalBoseyo | src/components/EssayCorrector.tsx:180-198 | of the seventeen rules only the `세요` rule acts on `보세요` |
| Reapply.EndingsOnce | src/components/EssayCorrector.tsx:180-208 | one pass of the rules over `가해요해요` rewrites only the second `해요` |
| Reapply.EndingsTwice | src/components/EssayCorrector.tsx:180-208 | a second pass over the result rewrites the remaining `해요` |
| Reapply.ConvertAsWrittenNotIdempotent | src/components/EssayCorrector.tsx:160-222 | `convertToFormalStyle` as written turns `예시: 가해요해요` into `예시: 가해요합니다` and, run again, into `예시: 가합니다합니다`, so it is not idempotent |
| Reapply.ConvertNotIdempotent | src/components/EssayCorrector.tsx:160-222 | with labels reinserted as intended the same two runs give the same two lines, so the corrected converter is not idempotent either |
| JsonValue.Get | src/components/EssayCorrector.tsx:368 | reading a property throws exactly on `undefined` or `null`; a value is found only under a key of an object |
| Normalizer.LastIndexOf | src/components/EssayCorrector.tsx:361 | the index found holds the character |
| Normalizer.ExtractJson | src/components/EssayCorrector.tsx:361 | what is extracted spans at least `{}` |
| Normalizer.ExtractJsonMatches | src/components/EssayCorrector.tsx:361-363 | the regex matches exactly when some `{` has a `}` after it |
| Normalizer.ExtractJsonWidest | src/components/EssayCorrector.tsx:361 | the extracted text is a match, and every other match lies inside it: it runs from the first `{` to the last `}` |
| Normalizer.SlotPassSpec | src/components/EssayCorrector.tsx:367-369 | the slot pass throws exactly on an object whose `general` is truthy but not a string; otherwise an object keeps every key and member except a converted string `general`, and a missing slot stays missing |
| Normalizer.SlotStepSpec | src/components/EssayCorrector.tsx:367-369 | a slot step keeps the key set, rewrites its own slot and touches no other field |
| Normalizer.SlotsPassSpec | src/components/EssayCorrector.tsx:374-388 | the passes over distinct slot keys rewrite each listed slot once and keep the other fields |
| Normalizer.SectionPassSpec | src/components/EssayCorrector.tsx:373-389 | a passed section keeps its keys, and its four body slots are rewritten; a primitive or array is left alone; `null` throws |
| Normalizer.SectionsPassSpec | src/components/EssayCorrector.tsx:372-389 | the array branch keeps the number and order of the sections and passes each one |
| Normalizer.BodyPassFrame | src/components/EssayCorrector.tsx:372-428 | after the body step `oreoSections` is an array, and only `oreoSections` and the flat fields may have changed |
| Normalizer.ReshapeGivesArray | src/components/EssayCorrector.tsx:367-432 | every successful reshaping leaves an `oreoSections` array, so a second run takes the array branch |
| Normalizer.ReshapeArraySpec | src/components/EssayCorrector.tsx:372-389 | with an array, the section count and order are kept, every section is passed, and the flat fields are untouched |
| Normalizer.DefaultsKeys | src/components/EssayCorrector.tsx:395-400 | the fresh section has exactly the four flat keys, each holding the field or `''` when the field is falsy |
| Normalizer.DefaultsFrame | src/components/EssayCorrector.tsx:395-400 | the fresh section depends only on the four flat fields |
| Normalizer.FoldSpec | src/components/EssayCorrector.tsx:419-427 | the folded object holds exactly one section under `oreoSections` and none of the flat keys |
| Normalizer.BodyPassLegacy | src/components/EssayCorrector.tsx:390-428 | without an array, the body step passes the fresh section and then folds it in |
| Normalizer.ReshapeLegacySpec | src/components/EssayCorrector.tsx:390-428 | without an array, the result has exactly one section built from the flat fields and passed, and the flat fields are gone |
| Normalizer.ReshapeKeepsOthers | src/components/EssayCorrector.tsx:367-434 | `introduction` and `conclusion` are rewritten in place, and every other key (`overall` among them) comes through unchanged |
| Normalizer.SlotPassTwice | src/components/EssayCorrector.tsx:367-369 | with an idempotent converter, a passed slot is a fixed point of the slot pass |
| Normalizer.SlotsPassTwice | src/components/EssayCorrector.tsx:374-388 | with an idempotent converter, the slot passes over a section are a fixed point |
| Normalizer.SectionsPassTwice | src/components/EssayCorrector.tsx:372-389 | with an idempotent converter, the passed sections are a fixed point of the array pass |
| Normalizer.BodyPassTwice | src/components/EssayCorrector.tsx:372-428 | with an idempotent converter, the sections stored by either branch are a fixed point of the array pass |
| Normalizer.ReshapeTwice | src/components/EssayCorrector.tsx:367-432 | with an idempotent converter, reshaping a reshaped object changes nothing |
| Normalizer.NormalizeGivesArray | src/components/EssayCorrector.tsx:359-453 | whatever the reply, the stored result is an object with an `oreoSections` array |
| Normalizer.NormalizeFallback | src/components/EssayCorrector.tsx:435-453 | with no match, a parse failure or a throw while reshaping, the stored result is the text-only fallback with the whole reply as `overall` |
| Score.DeductSlot | src/components/EssayCorrector.tsx:471-475 | the loop over a checklist removes ten points per unmet criterion, and nothing for a raw slot |
| Score.CalculateScore | src/components/EssayCorrector.tsx:465-514 | 0 with no result; otherwise `min(100 - 10 * unmet + bonus, 100)`, where the bonus is 10 when the draft has more than one section; never above 100 |
| Score.AllMetScoresFull | src/components/EssayCorrector.tsx:465-514 | a result whose every criterion is met scores 100, with or without the bonus |
| Score.FailingScore | src/components/EssayCorrector.tsx:478-513 | there is no floor: three sections whose criteria all fail already give a negative score |
| Score.RawNeverLowers | src/components/EssayCorrector.tsx:471-505 | turning structured slots into raw text never lowers the score |
| Score.BonusFromDraftOnly | src/components/EssayCorrector.tsx:478-510 | extra result sections whose criteria are all met change nothing, while a second draft section adds ten points, up to the cap |
| Score.ScoreFrom | src/components/EssayCorrector.tsx:508-513 | the score exists exactly when the deductions do; it is at most 100, and exactly 100 when nothing was deducted |
| Score.NamesDeductionOf | src/components/EssayCorrector.tsx:473-474 | the deduction over the criterion names is ten per unmet criterion |
| Score.EncodeSlotDeduction | src/components/EssayCorrector.tsx:471-475 | an encoded structured slot costs ten points per unmet criterion; a raw slot costs nothing |
| Score.SectionHoldingDeduction | src/components/EssayCorrector.tsx:479-497 | a section object holding the encoded slots costs ten points per unmet criterion of those slots |
| Score.EncodeSectionDeduction | src/components/EssayCorrector.tsx:479-497 | an encoded body section costs ten points per unmet criterion |
| Score.SectionsHoldingDeduction | src/components/EssayCorrector.tsx:478-498 | a list of sections, each charged for its own feedback, costs the sum over all sections |
| Score.EncodeSectionsDeduction | src/components/EssayCorrector.tsx:478-498 | the encoded sections cost ten points per unmet criterion across all sections |
| Score.ResultHoldingDeductions | src/components/EssayCorrector.tsx:471-505 | a result object holding the encoded parts costs ten points per unmet criterion of the typed result |
| Score.DeductionsEncode | src/components/EssayCorrector.tsx:471-505 | read property by property, a well-shaped result's JSON form costs ten points per unmet criterion |
| Score.ChargedScore | src/components/EssayCorrector.tsx:465-514 | a stored value charged for exactly a typed result's unmet criteria scores what the closed formula gives that result |
| Score.ScoreJsonEncode | src/components/EssayCorrector.tsx:465-514 | scoring the stored JSON form agrees with the closed formula on every well-shaped result, and no result scores 0 |
| Score.PlainDeductsNothing | src/components/EssayCorrector.tsx:471-505 | string slots and an empty section list deduct nothing |
| Score.FallbackScoresFull | src/components/EssayCorrector.tsx:437-453 | the text-only fallback result scores 100 |
| Score.MalformedSlotThrows | src/components/EssayCorrector.tsx:471-505 | a slot that passes `typeof … === 'object'` but lacks its first criterion (`null`, an array, or an object without that key) makes the score throw |

## Left out

- The request and its envelope are not modelled, because they are network I/O against an external service:
  - the `fetch` call, the endpoint, the key and the prompt text (lines 237-348);
  - the `response.ok` check and the `candidates[0].content` check (lines 350-357, 454-456);
  - the error messages those checks set.
- `JSON.parse` is the parameter `parse` of `Normalizer.Normalize`, returning `None` when it throws. It yields an object map, because the extracted text starts with `{`.
- `console.error` and the loading and error state flags are left out. They carry no data into the result.
- `Date.now()` is not modelled, because it is a clock. The new section id is a parameter of `EssayDraft.AddSection`.
- All JSX rendering (lines 516 onward), `StudentHome`, `LoginPage` and `App` are left out. They are presentation and routing.
- Object key order is not modelled. JSON objects are maps.
- Numbers are `real`, not IEEE doubles. Only their truthiness matters here.
- A property assigned `undefined` (each `x.general = convertToFormalStyle(x.general)` at lines 368-431 on an object without `general`, where the converter returns its `undefined` argument) is represented as absent. No property read or truthiness test in this component can tell the two apart.
- Normalizer.ReshapeTwice: proved only for an idempotent converter. `convertToFormalStyle` as written is not idempotent (`Reapply.ConvertAsWrittenNotIdempotent`), so reshaping a reshaped reply can change it again.
- Score.ScoreJsonEncode: relates the JSON score to the closed formula only for results whose checklists carry exactly the criterion names the code reads. The other shapes throw (`Score.MalformedSlotThrows`) or are read as strings.
- Register.RuleIsRunwise: stated for suffixes made only of Hangul syllables. This covers every rule except `해도 돼요`, whose space ends a Hangul run; that rule is still modelled by the general scan.

## Findings

| source | as written | input that shows it | evidently intended | confidence | as-written member | corrected member |
|---|---|---|---|---|---|---|
| src/components/EssayCorrector.tsx:216 | `match.replace(p1, convertedExample)` reads the converted text as a replacement pattern, so `$$`, `$&`, `` $` `` and `$'` in it are expanded | `예시: $$` becomes `예시: $` | the converted content is put after the label literally | high; not executed | Findings.DollarAsWritten | Findings.DollarCorrected |
| src/components/EssayCorrector.tsx:216 | `match.replace(p1, …)` replaces the first occurrence of the content anywhere in the match, which can be inside the label | `이렇게 써보세요: 보세요` becomes `이렇게 써보십시오: 보세요` | the label is kept and its content is converted: `이렇게 써보세요: 보십시오` | high; not executed | Findings.EchoAsWritten | Findings.EchoCorrected |
