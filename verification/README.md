# TimeField masked time input, modelled in Dafny

`src/index.tsx` implements a React text field for a fixed-width time of day
`HH:MM`, `HH:MM:SS` or `HH:MM:SS.mmm`. The separator between hours, minutes
and seconds is configurable, and milliseconds always follow a '.'. Its
engine has three pure parts, and this project models each of them:

- `isNumber` and `formatTimeItem`, the per-character digit test and the
  fixed-width formatting of one segment (module `TimeItem`);
- `validateTimeAndCursor`, the canonicalizer (module `Canonicalizer`). It
  splits a candidate value and the previous valid value into segments,
  formats each candidate segment, and repairs hours, minutes and seconds
  against the previous value. It then reassembles the configured shape and
  moves the cursor back once per rejected segment (twice for one hours case);
- the edit classifier inside `TimeField.onInputChange` (module `InputChange`).
  From the value before the edit, the value the input element reports and the
  caret, it builds a candidate value and caret. These are then canonicalized
  against the value before the edit.

The JavaScript semantics these rely on are written out in module `Js`:

- `undefined` from out-of-range indexing is an `Option`;
- `String.prototype.split` keeps every piece;
- `substr` clamps its indices;
- a template literal turns `undefined` into the text "undefined";
- `Number` of one character gives its digit value, 0 for white space, and
  NaN otherwise.

`TimeValue` defines the value shapes: `Render`, the default value, and the
predicates `Shaped`, `WellFormed` (digits in every segment) and `Canonical`
(hours at most 23, minutes and seconds at most 59). `InitialValue` models how
the `value` prop is validated into the first displayed value; it carries the
one finding below. `Scenarios` derives the component's own worked examples
from the general lemmas.

Where the unit examples disagree with the code, the model follows the code.
tests/unit.test.ts lines 68, 69 and 71 expect "24:00" and "99:00" to be kept.
The hours repair at src/index.tsx:38-49 turns them into "23:00", the previous
hours, and "21:00" respectively. `Scenarios.TwentyFourBecomesTwentyThree`,
`Scenarios.NinetyNineRestoresDefaultHours` and
`Scenarios.TwentyFourAfterTwentyOne` state what the code does.

## Model

| member | source | states |
|---|---|---|
| `Js.SplitJoinsBack` | src/index.tsx:27 | joining the pieces of `split` with the separator gives back the string: no piece is lost |
| `Js.SplitPiecesAvoid` | src/index.tsx:33 | no piece of `split` contains the separator |
| `Js.SplitJoin` | src/index.tsx:33 | splitting a join of separator-free pieces gives exactly those pieces back |
| `Js.SubstrPrefix` | src/index.tsx:164 | `substr(0, n)` is the prefix of length n, clamped to the string |
| `Js.SubstrSuffix` | src/index.tsx:164 | `substr(start)` is the suffix from `start`, empty past the end |
| `Js.NumberAboveIffDigitAbove` | src/index.tsx:39 | `Number(c) > k` holds exactly when c is a digit above k; undefined, white space and letters never pass |
| `Js.NumberIsTwoIffTwo` | src/index.tsx:42 | `Number(c) === 2` holds exactly for the character '2' |
| `TimeItem.IsNumberIffDigit` | src/index.tsx:9-12 | `isNumber` of one character (or undefined) holds exactly for '0'..'9'; white space converts to 0 but does not print back as itself |
| `TimeItem.FormatTimeItem` | src/index.tsx:14-16 | the result has exactly the width (2 for width 0 or absent); position i holds the value's i-th character, or '0' past its end |
| `TimeItem.FormatTruncates` | src/index.tsx:14-16 | a value at least as wide as the width is cut to its prefix |
| `TimeItem.FormatPads` | src/index.tsx:14-16 | a shorter value is padded on the right with '0'; an empty or absent value gives all zeros |
| `TimeItem.FormatIdempotent` | src/index.tsx:14-16 | formatting a formatted segment again changes nothing |
| `TimeValue.DefaultValue` | src/index.tsx:5-7 | the default value of a shape has length 5, 8 or 12, the `maxLength` of the field |
| `TimeValue.DefaultValueCanonical` | src/index.tsx:5-7 | the all-zero default is a canonical value of its shape |
| `TimeValue.ShapedIffSeparators` | src/index.tsx:69-73 | a shaped value has the shape's length and the separator at exactly the positions 2, 5 and 8 the shape uses |
| `TimeValue.WellFormedIffDigits` | src/index.tsx:69-73 | a well-formed value is a shaped value with a digit at every non-separator position |
| `TimeValue.RenderShaped` | src/index.tsx:69-73 | reassembling segments of widths 2, 2, 2 and 3 gives a shaped value whose segment slices are those segments |
| `TimeValue.ShapedIsRender` | src/index.tsx:69-73 | every shaped value is the reassembly of its own segment slices |
| `TimeValue.SplitRendered` | src/index.tsx:33 | splitting a reassembled value on the separator gives back hours, minutes and the seconds piece (with '.mmm' when shown) |
| `Canonicalizer.RepairHours` | src/index.tsx:38-49 | hours up to 23 are kept for free; a first digit above 2 restores the previous hours at one step; digit hours repaired against canonical previous hours are canonical; hours whose first character is not a digit are kept; the cost is at most 2 |
| `Canonicalizer.RepairSixty` | src/index.tsx:51-55 | a two-digit segment is kept for free exactly when it is at most 59, and is otherwise replaced by the previous segment at one step |
| `Canonicalizer.PreviousSegments` | src/index.tsx:27-30 | no previous segment holds the separator, and the previous seconds never hold a '.': the '.mmm' part is cut off whenever milliseconds are shown or a '.' is present |
| `Canonicalizer.CandidateSegments` | src/index.tsx:32-36 | no candidate segment holds the separator, for every input; with milliseconds shown the candidate seconds hold no '.' |
| `Canonicalizer.ValidateTimeAndCursor` | src/index.tsx:18-76 | the returned cursor lies between the given cursor minus 4 and the given cursor |
| `CanonicalizerProps.PreviousOfWellFormed` | src/index.tsx:27-30 | a well-formed previous value yields its hours, minutes and (when shown) seconds slices, the seconds without any '.mmm' |
| `CanonicalizerProps.CandidateOfRendered` | src/index.tsx:32-36 | a reassembled value splits back into its own segments, with "" as seconds for the hours-minutes shape |
| `CanonicalizerProps.ValidateRendered` | src/index.tsx:18-76 | validating a reassembled value of the right widths only applies the three repairs to its segments |
| `CanonicalizerProps.ValidateFixedPoint` | src/index.tsx:18-76 | a canonical value comes back unchanged with the cursor unchanged, whatever the previous value |
| `CanonicalizerProps.OutputSegments` | src/index.tsx:38-75 | against a well-formed previous value, the output is shaped and each output segment is the repair of the formatted candidate segment; the cursor pays each repair's cost |
| `CanonicalizerProps.ValidateShaped` | src/index.tsx:69-73 | against a well-formed previous value the output has the configured shape and length 5, 8 or 12 |
| `CanonicalizerProps.HoursRule` | src/index.tsx:38-49 | output hours: the previous hours when the first digit is above 2; '2' plus the previous units digit, or "23", for "24".."29"; the formatted hours otherwise |
| `CanonicalizerProps.MinutesRule` | src/index.tsx:51-55 | output minutes: the previous minutes when the first digit is above 5, otherwise the formatted minutes |
| `CanonicalizerProps.SecondsRule` | src/index.tsx:57-63 | output seconds: the previous seconds without '.mmm' when the first digit is above 5, otherwise the formatted seconds |
| `CanonicalizerProps.MillisRule` | src/index.tsx:65-67 | output milliseconds are the candidate milliseconds formatted to width 3, never rejected |
| `CanonicalizerProps.CursorRule` | src/index.tsx:32-63 | the cursor drops by the hours cost (0, 1 or 2) plus one per rejected minutes or seconds, and stays put exactly when nothing is rejected |
| `CanonicalizerProps.ValidateCanonicalFromDigits` | src/index.tsx:38-73 | against a canonical previous value, candidate segments that format to digits give a canonical output |
| `CanonicalizerProps.ValidateKeepsCanonical` | src/index.tsx:18-76 | a well-formed candidate validated against a canonical previous value gives a canonical value |
| `CanonicalizerProps.RepairHoursStable` | src/index.tsx:38-49 | repairing already repaired hours against the same previous hours changes nothing |
| `CanonicalizerProps.RepairSixtyStable` | src/index.tsx:51-55 | repairing an already repaired minutes or seconds segment changes nothing |
| `CanonicalizerProps.CandidateAvoidsSeparator` | src/index.tsx:32-36 | no candidate segment holds the separator, for every candidate; the seconds hold no '.' when milliseconds are shown |
| `CanonicalizerProps.CandidateAvoids` | src/index.tsx:32-36 | with no '.' past the seconds piece, no candidate segment holds the separator, and seconds and milliseconds hold no '.' when milliseconds are shown |
| `CanonicalizerProps.ValidateIdempotent` | src/index.tsx:18-76 | validating the output again against the same well-formed previous value reproduces it, whatever the cursors |
| `CanonicalizerProps.MissingSegmentsZeroFilled` | src/index.tsx:33-67 | canonical hours and minutes alone give seconds "00" and milliseconds "000" in the shapes that show them, with the cursor unchanged |
| `CanonicalizerProps.HiddenSecondsDropped` | src/index.tsx:69-73 | a field without seconds keeps only the hours and minutes of a value that has seconds and milliseconds |
| `InputChange.Classify` | src/index.tsx:144-211 | the caret moves at most one place either way unless it is clamped to `maxLength`; typing past `maxLength` keeps the value; a refused typed or replaced character keeps the value and steps the caret back |
| `InputChange.OnInputChange` | src/index.tsx:144-220 | the final caret is at most one past the reported caret, and at most four below the smaller of `maxLength` and the reported caret minus one |
| `InputChange.MaxLength` | src/index.tsx:123 | the field's `maxLength` is the length of its shape: 5, 8, or 12 exactly when seconds and milliseconds are both shown |
| `InputChangeProps.InsertBeyondEnd` | src/index.tsx:161-162 | a character typed at the end of a value already `maxLength` long leaves the value unchanged and puts the caret at `maxLength` |
| `InputChangeProps.InsertDigit` | src/index.tsx:173-178 | a digit typed at caret p outside 3, 6 and 9 overwrites the character at p-1 and nothing else; the caret skips the separator after positions 2 and 5 |
| `InputChangeProps.InsertSeparator` | src/index.tsx:163-169 | the separator typed at 3 or 6, or '.' typed at 9, leaves a shaped value unchanged, whatever its other characters |
| `InputChangeProps.InsertDigitAfterBoundary` | src/index.tsx:165-172 | a digit typed just after a boundary of a shaped value keeps the separator, overwrites the first character of the next segment and moves the caret past it |
| `InputChangeProps.InsertOther` | src/index.tsx:179-182 | any other typed character keeps the old value and steps the caret back |
| `InputChangeProps.ReplaceOne` | src/index.tsx:183-195 | a same-length edit with a digit is accepted, with the separator forced back at 2 and 5; a non-digit keeps the old value and steps the caret back |
| `InputChangeProps.ReplaceRunByNonDigit` | src/index.tsx:196-199 | a shorter input whose character before the caret is not a digit, separator or '.' keeps the old value and steps the caret back |
| `InputChangeProps.ClassifyZeroFill` | src/index.tsx:207-210 | removing a non-separator character inserts '0' at the caret, and the caret stays |
| `InputChangeProps.DeleteDigit` | src/index.tsx:207-210 | deleting a digit of a well-formed value writes '0' in its place and nothing else changes |
| `InputChangeProps.DeleteSeparator` | src/index.tsx:200-206 | deleting a separator or the '.' zeroes the digit before it and moves the caret back one |
| `InputChangeProps.ReplaceDotWithDigit` | src/index.tsx:183-190 | a digit typed over the '.' is accepted by the classifier as the value with that digit at position 8 and the caret at 9; validating that value gives a canonical value whose milliseconds are "000" |
| `InputChangeProps.InsertKeepsCanonical` | src/index.tsx:160-220 | any one typed character, anywhere, turns a canonical value into a canonical value |
| `InputChangeProps.ReplaceKeepsCanonical` | src/index.tsx:183-220 | any one replaced character turns a canonical value into a canonical value |
| `InputChangeProps.DeleteKeepsCanonical` | src/index.tsx:196-220 | any one deleted character turns a canonical value into a canonical value |
| `InputChangeProps.EditKeepsCanonical` | src/index.tsx:144-220 | every single-character insertion, replacement or deletion keeps the field's value canonical |
| `InitialValue.ChooseColon` | src/index.tsx:114 | the field's separator is the `colon` prop when that prop is one character; absent, empty or longer props give ':' |
| `InitialValue.FieldConfig` | src/index.tsx:111-114 | the field keeps the `showSeconds` and `showMillis` props, and its separator differs from ':' only when the `colon` prop is exactly that one character |
| `InitialValue.DefaultValueAsWritten` | src/index.tsx:113 | the default value of the first validation is "00:00", "00:00:00" or "00:00:00.000" by shape, whatever the configured separator, so any other valid separator never occurs in it; its length, the `maxLength` of line 123, equals that of the corrected default |
| `InitialValue.AgreeOnDefaultColon` | src/index.tsx:113-115 | with the ':' separator, the initial value as written and as corrected coincide |
| `InitialValue.InitialShaped` | src/index.tsx:113-115 | with the corrected default, the initial value always has the field's shape, and is canonical when the prop is well formed |
| `InitialValue.AsWrittenLeaksUndefined` | src/index.tsx:113-115 | with any separator other than ':', a prop with rejected minutes shows "undefined" as its minutes; the corrected default gives "00" |
| `InitialValue.AsWrittenLeaksDefaultHours` | src/index.tsx:113-115 | with any separator other than ':', a prop with rejected hours shows the whole text "00:00" as its hours; the corrected default gives "00" |
| `InitialValue.InitialFromProps` | src/index.tsx:111-115 | from the `showSeconds`, `showMillis`, `colon` and `value` props: with a usable separator the corrected initial value has the field's shape and is canonical for a well-formed prop; without a `colon` prop the as-written value is the same |
| `Scenarios.TypedDigitInHours` | tests/component.test.tsx:117-119 | "212:34" with caret 1 over "12:34" gives "22:34", caret 1 |
| `Scenarios.TypedDigitInMillis` | tests/component.test.tsx:124-125 | "12:34:56.1789" with caret 10 gives "12:34:56.189", caret 10 |
| `Scenarios.TypedColon` | tests/component.test.tsx:128-130 | "12::34" with caret 3 gives back "12:34" |
| `Scenarios.TypedDigitBeforeColon` | tests/component.test.tsx:144-146 | "121:34" with caret 3 gives "12:14", caret 4 |
| `Scenarios.TypedPastEnd` | tests/component.test.tsx:176-178 | "12:341" with caret 6 gives "12:34", caret 5 |
| `Scenarios.TypedLetter` | tests/component.test.tsx:187-189 | "a12:34" with caret 1 gives "12:34", caret 0 |
| `Scenarios.DeletedColon` | tests/component.test.tsx:209-211 | "1234" with caret 2 gives "10:34", caret 1 |
| `Scenarios.DeletedDot` | tests/component.test.tsx:220-222 | "12:34:56789" with caret 8 gives "12:34:50.789", caret 7 |
| `Scenarios.ReplacedColonByLetter` | tests/component.test.tsx:236-238 | "12a34" with caret 3 gives "12:34", caret 2 |
| `Scenarios.ReplacedRunByLetter` | tests/component.test.tsx:274-276 | "12a" with caret 3 gives "12:34", caret 2 |
| `Scenarios.PreviousOfDefault` | tests/unit.test.ts:32 | an hours-minutes field reads the examples' previous value "00:00:00.000" as hours, minutes and seconds "00" |
| `Scenarios.HoursPastTwentyThree` | src/index.tsx:42-47 | hours "24".."29" become the previous hours at two steps when those start with '2', and "23" for free otherwise |
| `Scenarios.TwentyFourBecomesTwentyThree` | tests/unit.test.ts:68 | "24:mm" against the examples' previous value becomes "23:mm" |
| `Scenarios.TwentyFourAfterTwentyOne` | tests/unit.test.ts:71 | "24:mm" after "21:00" becomes "21:mm" and the cursor moves back twice |
| `Scenarios.HoursAboveTwo` | src/index.tsx:39-41 | hours with a first digit above 2 are replaced by the previous hours at one step |
| `Scenarios.NinetyNineRestoresDefaultHours` | tests/unit.test.ts:69 | "99:mm" against the examples' previous value becomes "00:mm" |
| `Scenarios.MinutesAboveFiftyNine` | src/index.tsx:51-55 | minutes with a first digit above 5 are replaced by the previous minutes at one step |
| `Scenarios.SixtyMinutesRestored` | tests/unit.test.ts:78 | "hh:60" against the examples' previous value becomes "hh:00" |
| `Scenarios.StrayDotCandidate` | src/index.tsx:32-36 | "hh:mm::a.b" splits into an empty seconds piece and a fourth piece "a.b" that becomes the milliseconds |
| `Scenarios.TwoDotsCandidate` | src/index.tsx:33-36 | a seconds piece "ss.a.b" gives seconds "ss" and milliseconds "a"; the rest is dropped |
| `Scenarios.ValidateStrayDot` | src/index.tsx:32-73 | "hh:mm::a.b" validates to "hh:mm:00.a.b", with a '.' inside the milliseconds |
| `Scenarios.ValidateTwoDots` | src/index.tsx:32-73 | "hh:mm:ss.a.b" validates to "hh:mm:ss.a00" |
| `Scenarios.ValidateNotIdempotent` | src/index.tsx:32-73 | for every "hh:mm::a.b" (such as "12:34::5.6") a second validation changes the first one's output, and the input has a '.' past its seconds piece |
| `Scenarios.PastedOverMinutes` | src/index.tsx:183-190 | a same-length paste of a non-digit and a digit over the minutes of a canonical "hh:mm" is accepted unchanged with the caret at 5, and the result is not canonical |
| `Scenarios.PastedLetterKept` | src/index.tsx:183-220 | pasting "a5" over the minutes of "12:34" leaves "12:a5" in the field with the caret at 5 |

## Left out

- React plumbing at src/index.tsx:99-143 and 222-256 is not modelled: `setState`, writing the selection back, `event.persist()`, the `onChange` callback, `render`, `cloneElement` and styles. Only the validation of the `value` prop into the first value is modelled (`InitialValue`), because it carries a finding. Re-validation of a changed prop in `componentDidUpdate` uses the same call.
- Arrow-key stepping: tests/component.test.tsx:296 onwards exercise a key handler that src/index.tsx does not contain.
- tests/component.test.tsx:100-104 and 422-446 expect behaviour that src/index.tsx does not have; they are not modelled.
- `isNumber` and `Number` over arbitrary JavaScript values (floats, "1e3", numbers passed to `formatTimeItem`). The engine only applies them to one character or `undefined`, and that is what is modelled.
- The `value` prop is a string or absent; `String(value)` of other types is not modelled.
- demo/index.js is a demo application, not part of the engine.
- Strings are sequences of Unicode scalar values, while JavaScript's `length`, indexing, `selectionEnd` and `colon.length === 1` count UTF-16 code units. Lengths, indices and carets therefore match the source only for text in the Basic Multilingual Plane. A character outside it, such as an emoji typed into the field, is one element here and two code units there.
- A `colon` prop that is a digit or '.' is accepted at src/index.tsx:114 (`InitialValue.ChooseColon` returns it) and the functions model such a field. These contracts hold for every separator: the caret bounds of `Canonicalizer.ValidateTimeAndCursor` and `InputChange.OnInputChange`; `InputChange.Classify` and the classifier lemmas `InsertBeyondEnd`, `InsertDigit`, `InsertOther`, `ReplaceOne`, `ReplaceRunByNonDigit` and `ClassifyZeroFill`; and the repairs `RepairHours`, `RepairSixty`, `RepairHoursStable` and `RepairSixtyStable`. The other lemmas require a separator that is neither a digit nor '.' (`ValidColon`), because with such a separator the split into segments no longer matches the positions of the shape: the canonicalizer's shape, well-formedness, canonical, fixed-point, idempotence and per-segment rule lemmas, the classifier's keeps-canonical and separator-position lemmas, and the initial-value lemmas.
- The hours rule follows the code, not tests/unit.test.ts:68-71, which expect hours above 23 to be kept.
- CanonicalizerProps.ValidateIdempotent: when seconds and milliseconds are both shown, requires that no '.' follows the seconds piece (`DotsOnlyInSeconds`). In that shape the code is not idempotent without it, as `Scenarios.ValidateNotIdempotent` shows for "12:34::5.6". The other three shapes need no condition.
- CanonicalizerProps.HoursRule, MinutesRule, SecondsRule, MillisRule, CursorRule and OutputSegments: require a well-formed previous value. Otherwise the code produces the text "undefined" for missing previous segments. The canonicalizer itself is modelled for every input.
- InputChangeProps.EditKeepsCanonical: covers single-character insertions, replacements and deletions only. A same-length paste of several characters is taken for a one-character replacement, and only its last character is checked, so a paste ending in a digit can leave non-digits in the field (`Scenarios.PastedLetterKept`: "12:a5"). Shorter multi-character replacements have a lemma only for the non-digit case (`InputChangeProps.ReplaceRunByNonDigit`).

## Findings

| source | as written | input that shows it | evidently intended | confidence | as-written member | corrected member |
|---|---|---|---|---|---|---|
| src/index.tsx:5-7 | `DEFAULT_VALUE`, `DEFAULT_VALUE_SECONDS` and `DEFAULT_VALUE_MILLIS` always use ':', and line 113 makes one of them the previous value of the first validation even when the `colon` prop chose another separator. Split on that separator, the default has no minutes, so rejected minutes become the text "undefined", and rejected hours become the whole default text (`InitialValue.AsWrittenLeaksDefaultHours`). | `colon` "-", `value` "12-60": the field starts out showing "12-undefined"; `value` "30-00" shows "00:00-00" | the default value rendered with the configured separator, so rejected minutes and hours fall back to "00" and the field shows "12-00" and "00-00" | high; not executed | `InitialValue.AsWrittenLeaksUndefined` | `InitialValue.InitialShaped` |
