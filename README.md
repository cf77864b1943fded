# react-autocomplete-input, modelled in Dafny

A model of `AutocompleteTextField`, the React text field with a suggestion
list of the react-autocomplete-input package. As the user types, the
component scans left from the caret for the trigger (by default `@`) and
takes the run of text the regex prop accepts as the slug. It filters the
candidate list by that slug, and then either shows the list or asks the
host for options through `onRequestOptions`. Arrow keys, Escape, Enter and
Return and the mouse move through the list and choose from it. Choosing
splices the option and a space into the text. Right after a choice, the
"space remover" turns `token ,` into `token, `.

The model has these modules:

- `JsText` (jstext.dfy) models the JavaScript string built-ins the
  component calls, with their clamping and negative-index rules:
  `substring`, `substr`, `slice`, `indexOf` and `toLowerCase`.
- `Props` (props.dfy) holds the props the core reads, and the default props.
- `Matcher` and `MatcherProperties` (matcher.dfy) model `getMatch` and
  `isTrigger`.
  - `getMatch` is a method with the countdown loop of the source, proved
    to compute `MatchSpec`, the countdown written as a recursive function.
  - `MatchSpec` is proved equal to a declarative specification: the
    nearest trigger before the caret, or (with an empty trigger) the least
    start from which every run up to the caret is accepted.
  - Lemmas state what a result satisfies.
- `Selection` (selection.dfy) covers the list itself:
  - the show/hide/request decision of `updateHelper`;
  - the list state and its transitions on keys, hover and resize;
  - the row truncation and the highlight split of `renderAutocompleteList`.
- `TextMutators` (mutators.dfy) covers:
  - the text splice of `handleSelection`;
  - the first difference between two texts and the swap of the space remover.
- `Widget` (widget.dfy) holds the class `AutocompleteTextField`.
  - Its fields are the state fields and the two instance fields
    `recentValue` and `enableSpaceRemovers`.
  - Each handler is a method proved to compute a specification function
    (`ChangeStep`, `SelectStep`, `KeyStep`) of the old state.
  - The class invariant keeps the selection inside the visible list.
- `WidgetProperties` (widget_properties.dfy) holds lemmas about those
  specification functions, including the space-remover scenario of the
  component's tests.

The regex prop is an abstract total predicate `accepts`, meaning that
`s.match(new RegExp(regex))` is truthy. `DefaultAccepts` is the default
`^[A-Za-z0-9\-_]+$`. The caret the DOM reports (`getInputSelection`) is a
parameter of the handlers. `setState` is modelled as direct assignment of
the fields, in program order.

## Model

| member | source | states |
|---|---|---|
| JsText.Substring | src/AutoCompleteTextField.jsx:107 | `substring` equals the slice between its ends when they are in order inside the string, and the swapped slice when they are reversed; never longer than the string |
| JsText.SubstringFrom | src/AutoCompleteTextField.jsx:264 | `substring(a)` is the suffix from an in-range `a`, empty past the end |
| JsText.Slice | src/AutoCompleteTextField.jsx:195 | `slice(a, b)` is the slice for in-range ends, empty when the end does not follow the start |
| JsText.SliceFrom | src/AutoCompleteTextField.jsx:338 | `slice(a)` is the suffix from an in-range `a` |
| JsText.Substr | src/AutoCompleteTextField.jsx:300 | `substr(start, length)` is the slice of that length when it fits, and shorter than `length` when it runs past the end |
| JsText.IndexOfFinds | src/AutoCompleteTextField.jsx:139 | `indexOf` is -1 exactly when the substring does not occur; otherwise it is an occurrence with none before it |
| JsText.IndexOfFromFinds | src/AutoCompleteTextField.jsx:139 | the search from position `k` finds the first occurrence at or after `k`, or reports none |
| JsText.ToLower | src/AutoCompleteTextField.jsx:284 | `toLowerCase` keeps the length |
| JsText.ToLowerChars | src/AutoCompleteTextField.jsx:284 | `toLowerCase` lower-cases each code unit on its own (ASCII letters) |
| JsText.ToLowerSlice | src/AutoCompleteTextField.jsx:193 | lower-casing then slicing equals slicing then lower-casing |
| Props.Defaults | src/AutoCompleteTextField.jsx:37-54 | the default trigger is `@`, which the default regex rejects; the default regex rejects the empty string and accepts exactly the non-empty runs of `[A-Za-z0-9\-_]`; `maxOptions` is 6 |
| Matcher.IsTrigger | src/AutoCompleteTextField.jsx:151-163 | at a non-negative index, the trigger is found iff it is empty or occurs at that index |
| Matcher.KeepsMeaning | src/AutoCompleteTextField.jsx:139-140 | a candidate is kept iff the slug occurs in it, at its start unless `matchAny` |
| Matcher.FilterKeeps | src/AutoCompleteTextField.jsx:138-141 | the filtered list holds only kept candidates from the provided list, and every kept candidate |
| Matcher.FilterIsSubsequence | src/AutoCompleteTextField.jsx:138-141 | the filtered list is an order-preserving subsequence of the provided list |
| Matcher.FilterCounts | src/AutoCompleteTextField.jsx:138-141 | each kept candidate appears as often as in the provided list, each other candidate not at all |
| Matcher.FilterEmptySlug | src/AutoCompleteTextField.jsx:138-141 | an empty slug keeps the whole list |
| Matcher.NearestTriggerUnique | src/AutoCompleteTextField.jsx:106-124 | there is at most one nearest trigger position before the caret |
| Matcher.RunStartUnique | src/AutoCompleteTextField.jsx:125-133 | there is at most one least start from which every run up to the caret is accepted |
| Matcher.RunStartExists | src/AutoCompleteTextField.jsx:125-129 | walking left while runs are accepted reaches a least run start |
| Matcher.StartAtNearest | src/AutoCompleteTextField.jsx:118-119 | at the nearest trigger the declared slug starts right after the trigger |
| Matcher.StartAtRunStart | src/AutoCompleteTextField.jsx:129-133 | with an empty trigger the declared slug starts at the least run start, and there is none when that start is the caret |
| Matcher.StartNone | src/AutoCompleteTextField.jsx:114-124 | with a non-empty trigger, there is no declared slug when no reachable scan position finds the trigger or passes the regex |
| Matcher.ScannedStep | src/AutoCompleteTextField.jsx:106-124 | the scan moves past a position whose run is accepted and that does not find the trigger |
| Matcher.TriggerScanCases | src/AutoCompleteTextField.jsx:106-124 | with a non-empty trigger, at each position the scan stops with no slug when the trigger would start before the text or the run is rejected, returns the declared slug when the trigger is found, and otherwise moves on |
| Matcher.RunScanEnds | src/AutoCompleteTextField.jsx:125-133 | with an empty trigger, the countdown ends where the declared slug starts: after the first rejected run, or at 0 |
| Matcher.ScanStartMeetsSpec | src/AutoCompleteTextField.jsx:106-146 | from any position whose right-hand side is scanned, the countdown finds the declared start |
| Matcher.MatchSpecDeclared | src/AutoCompleteTextField.jsx:100-149 | for every input, the result of the countdown is the declarative match: the slug after the nearest trigger whose following runs are all accepted, or, with an empty trigger, the slug from the least start from which every run up to the caret is accepted, when that slug is non-empty |
| Matcher.GetMatch | src/AutoCompleteTextField.jsx:100-149 | the loop, with its early returns, returns the result of the countdown, which `MatchSpecDeclared` shows is the declarative match |
| MatcherProperties.NoMatchCases | src/AutoCompleteTextField.jsx:106-133 | null when the caret is at or before the start; when the caret is past the text and the regex rejects the empty string; when the trigger occurs nowhere before the caret; and with an empty trigger when the character before the caret is rejected |
| MatcherProperties.FoundAtNearest | src/AutoCompleteTextField.jsx:118-119 | the slug after the nearest trigger has the shape of a result (see `MatchFound`) |
| MatcherProperties.FoundAtRunStart | src/AutoCompleteTextField.jsx:125-144 | a non-empty slug from the least run start has the shape of a result |
| MatcherProperties.MatchFound | src/AutoCompleteTextField.jsx:136-144 | a result has a positive caret; `matchLength` is the slug's length, which is `caret - matchStart` inside the text; its options are the filter by the slug; a non-empty trigger sits right before `matchStart`; a rejected trigger puts `matchStart` between the trigger and the caret with an accepted or empty slug; an empty trigger gives a non-empty slug from the least start from which every run up to the caret is accepted |
| MatcherProperties.FilterOptions | src/AutoCompleteTextField.jsx:138-141 | the filter's result is a subsequence of the candidates, each containing the slug (as a prefix unless `matchAny`), with every qualifying candidate kept as often as it occurs |
| MatcherProperties.MatchOptions | src/AutoCompleteTextField.jsx:138-141 | the offered options are a subsequence of the candidates, each containing the slug (as a prefix unless `matchAny`), with every qualifying candidate kept as often as it occurs |
| MatcherProperties.TriggerAtCaretOffersAll | src/AutoCompleteTextField.jsx:118-119 | a rejected trigger typed right before the caret matches with an empty slug and offers every candidate |
| MatcherProperties.DefaultShapeSlug | src/AutoCompleteTextField.jsx:47 | a result shape under the default regex has a slug of slug characters |
| MatcherProperties.DefaultPatternSlug | src/AutoCompleteTextField.jsx:47 | under the default regex the slug consists of slug characters, and with an empty trigger it cannot be extended to the left |
| MatcherProperties.AcceptedTriggerPastCaret | src/AutoCompleteTextField.jsx:112 | when the regex accepts the trigger, a caret inside the trigger gives a `matchStart` past the caret (trigger "ab", text "ab", caret 1 gives start 2, length 1) |
| Selection.ShowList | src/AutoCompleteTextField.jsx:297 | the corrected show branch keeps a non-empty list's selection in range, and agrees with the source whenever the old selection is still in range |
| Selection.ActionOf | src/AutoCompleteTextField.jsx:223-252 | a key is forwarded iff the list is hidden or the key is none of Escape, Up, Down, Enter, Return |
| Selection.HiddenExactlyWhenComplete | src/AutoCompleteTextField.jsx:296 | after a match the list stays hidden exactly when no candidate matched or the only candidate is the slug itself |
| Selection.RequestRule | src/AutoCompleteTextField.jsx:296-307 | the list is shown iff the match shows it; a request is made iff the match is non-null and hidden and `requestOnlyIfNoOptions` is off or nothing matched; when the slug does not start past the caret, the request has the slug's length and lower-cases to the slug the options were filtered by |
| Selection.RequestCutsSlug | src/AutoCompleteTextField.jsx:284-300 | when the slug does not start past the caret, `str.substr(matchStart, matchLength)` on the original text has the slug's length and lower-cases to the slug cut from the lower-cased text |
| Selection.UpDownInverse | src/AutoCompleteTextField.jsx:232-238 | arrow up undoes arrow down and arrow down undoes arrow up, both keeping the selection in range |
| Selection.WrapAround | src/AutoCompleteTextField.jsx:232-238 | down on the last option selects the first; up on the first selects the last |
| Selection.Downs | src/AutoCompleteTextField.jsx:236-238 | any number of arrow-down presses keeps the list visible, its options, and the selection in range |
| Selection.DownsAdvance | src/AutoCompleteTextField.jsx:236-238 | after k presses of arrow down the selection has advanced by k modulo the number of options |
| Selection.DownsCycle | src/AutoCompleteTextField.jsx:236-238 | as many presses of arrow down as there are options return to the start |
| Selection.TransitionsKeepSelectionInRange | src/AutoCompleteTextField.jsx:223-256 | reset, resize, the corrected show, the arrows and hovering a rendered row keep a visible list's selection in range |
| Selection.StaleSelectionMatch | src/AutoCompleteTextField.jsx:284 | with candidates "aa", "ab", "abc", the text "@ab" matches slug "ab" with options "ab", "abc" |
| Selection.StaleSelectionFilter | src/AutoCompleteTextField.jsx:138-141 | the slug "ab" keeps "ab" and "abc" out of "aa", "ab", "abc" |
| Selection.ShowAsWrittenLeavesRange | src/AutoCompleteTextField.jsx:297 | as written, re-showing the list after two arrow-down presses leaves selection 2 over two options; the corrected branch selects 0 |
| Selection.RenderedRows | src/AutoCompleteTextField.jsx:324-326 | the rendered rows are a prefix of the options: all of them for `maxOptions` 0, `min(maxOptions, n)` for a positive `maxOptions`, and all but `-maxOptions` for a negative one |
| Selection.HighlightReassembles | src/AutoCompleteTextField.jsx:336-338 | for a highlight start inside the option, the three pieces concatenate back to the option |
| Selection.HighlightFirst | src/AutoCompleteTextField.jsx:327-338 | highlighting at the first occurrence of a slug contained in the option makes the slug bold there and reassembles the option |
| Selection.RowHighlightsSlug | src/AutoCompleteTextField.jsx:327-338 | when the slug occurs in the option, the bold piece is the slug at its first occurrence and the pieces concatenate back to the option |
| Selection.MixedCaseMatch | src/AutoCompleteTextField.jsx:138-141 | typing "@Ab" under the default props offers "abc", filtered by the lower-cased slug "ab", and shows the list |
| Selection.MixedCaseRowGarbled | src/AutoCompleteTextField.jsx:327-338 | as written, the row of "abc" for the typed "@Ab" is "ab", bold "c", "bc", which does not spell the option |
| Selection.LoweredRowHighlightsSlug | src/AutoCompleteTextField.jsx:327-338 | the corrected row, which looks for the lower-cased slug, makes that slug bold at its first occurrence and spells the option, for an option that contains the lower-cased slug |
| Selection.LoweredRowsSpellOptions | src/AutoCompleteTextField.jsx:284-297 | every option a match on the lower-cased text offers contains the lower-cased slug cut from the original text, so its corrected row bolds that slug and spells the option |
| TextMutators.InsertOptionSplices | src/AutoCompleteTextField.jsx:262-273 | choosing replaces the slug by the option and one space, leaves the text before and after the slug unchanged, and the caret goes to `matchStart + |option| + 1`, right after the space |
| TextMutators.FirstDiffFromFinds | src/AutoCompleteTextField.jsx:185-186 | the search from `i` finds the first differing index at or after `i` below the longer length, or reports none |
| TextMutators.FirstDiffFacts | src/AutoCompleteTextField.jsx:186-187 | the first difference is absent exactly when the texts are equal; when present, the texts agree before it |
| TextMutators.FirstDiffIs | src/AutoCompleteTextField.jsx:186-187 | the first differing index is unique |
| TextMutators.SwapSpaceUnfolds | src/AutoCompleteTextField.jsx:195 | the rewrite is the prefix, the character at `i`, the one before it, and the suffix |
| TextMutators.SplitAround | src/AutoCompleteTextField.jsx:195 | a text splits into its prefix, the two characters at `i - 1` and `i`, and its suffix |
| TextMutators.SwapSpaceExchanges | src/AutoCompleteTextField.jsx:195 | the rewrite keeps the length, moves the character at `i` one place left and the one before it one place right, and changes nothing else |
| TextMutators.SwapSpacePermutes | src/AutoCompleteTextField.jsx:195 | the rewrite keeps the characters of the text |
| Widget.RenderedValue | src/AutoCompleteTextField.jsx:358-366 | the input shows the controlled value when present (even empty), else a non-empty state value, else the default value |
| Widget.RemoverScanFinds | src/AutoCompleteTextField.jsx:185-207 | the remover's loop from `i` stops at the first difference at or after `i`, and rewrites exactly when the condition holds there |
| Widget.RemoverSwapAtFirstDiff | src/AutoCompleteTextField.jsx:185-207 | the remover rewrites only at the first difference between the old and the new text, exactly when that index follows a space after a non-remover, holds a remover, and the inner match before it is non-null |
| Widget.RemoverIndex | src/AutoCompleteTextField.jsx:185-208 | the remover's loop returns the index at which it rewrites, if any |
| Widget.AutocompleteTextField.constructor | src/AutoCompleteTextField.jsx:71-83 | a new component has a hidden empty list, selection 0, no value, `recentValue` the default value, and the remover disarmed |
| Widget.AutocompleteTextField.Rows | src/AutoCompleteTextField.jsx:316-326 | a hidden list renders no rows; the rows are a prefix of the options |
| Widget.AutocompleteTextField.ResetHelper | src/AutoCompleteTextField.jsx:310-312 | hides the list and sets the selection to 0, nothing else |
| Widget.AutocompleteTextField.HandleResize | src/AutoCompleteTextField.jsx:254-256 | hides the list and keeps the selection, nothing else |
| Widget.AutocompleteTextField.UpdateHelper | src/AutoCompleteTextField.jsx:281-308 | matches on the lower-cased text and applies the show/hide decision to the list; returns the request made, if any; the text state is unchanged |
| Widget.AutocompleteTextField.ShowHelper | src/AutoCompleteTextField.jsx:297 | shows the match's options, start and length, with the selection corrected into range |
| Widget.AutocompleteTextField.HandleChange | src/AutoCompleteTextField.jsx:165-221 | the new state and effects are `ChangeStep`: empty text hides the list; no caret or empty text returns early; an armed remover swaps at the first difference, or is disarmed (with removers configured, a caret and more than two characters); otherwise the list is updated; the invariant is kept |
| Widget.AutocompleteTextField.HandleSelection | src/AutoCompleteTextField.jsx:258-275 | the new state and effects are `SelectStep`: the change of the spliced text, then a reset list, the caret after the inserted space, and the remover armed |
| Widget.AutocompleteTextField.HandleKeyDown | src/AutoCompleteTextField.jsx:223-252 | the new state, forwarding and effects are `KeyStep`: Escape resets, the arrows move modulo the option count, Enter and Return choose the selection, other keys are forwarded |
| Widget.AutocompleteTextField.HandleMouseEnter | src/AutoCompleteTextField.jsx:334 | hovering a rendered row selects it, keeping the invariant |
| Widget.AutocompleteTextField.HandleClick | src/AutoCompleteTextField.jsx:333 | clicking a rendered row chooses it as `SelectStep` |
| Widget.AutocompleteTextField.ReceiveProps | src/AutoCompleteTextField.jsx:90-94 | when the option count changes, the list is re-decided from `recentValue` and the caret with the new options and the old props; otherwise the list is untouched; then the props are replaced |
| WidgetProperties.ChangeKeepsSelectionInRange | src/AutoCompleteTextField.jsx:165-221 | a change keeps a visible list's selection in range |
| WidgetProperties.ChangeOutcomes | src/AutoCompleteTextField.jsx:172-221 | a change stores the text in `recentValue`; an empty text hides the list and is passed on unchanged; only an armed remover rewrites, and then the input holds what `onChange` receives and no request is made; the remover never arms itself, and a change it does not rewrite disarms it (with removers configured, a caret and more than two characters) |
| WidgetProperties.RemoverRewrite | src/AutoCompleteTextField.jsx:184-205 | the remover fires at the first change, where the old and new texts agree before it; the rewrite keeps length and characters and puts the remover before the space; the caret goes after the space; the list is untouched |
| WidgetProperties.UncontrolledShowsChange | src/AutoCompleteTextField.jsx:200-217 | an uncontrolled input shows exactly the non-empty text handed to `onChange` |
| WidgetProperties.ClearedFieldShowsDefault | src/AutoCompleteTextField.jsx:362-364 | as written, clearing an uncontrolled input hands "" to `onChange` but the input shows the default value, which differs from "" whenever the default is non-empty |
| WidgetProperties.UncontrolledShowsEveryChange | src/AutoCompleteTextField.jsx:200-217 | with the state value taken whenever present, an uncontrolled input shows exactly the text handed to `onChange`, the empty text included |
| WidgetProperties.SelectionSplicesOption | src/AutoCompleteTextField.jsx:258-275 | choosing hides the list with selection 0 and arms the remover; when the stored slug lies inside the text, the text is the old one with the slug replaced by option and space; the caret lands after the space; the input holds what `onChange` receives, the spliced text when the remover was not armed |
| WidgetProperties.KeyOutcomes | src/AutoCompleteTextField.jsx:223-252 | keys keep the selection in range; a key is forwarded, changing nothing, iff the list is hidden or the key is not handled; Escape hides and resets; the arrows keep the text and options; Enter and Return hide the list, arm the remover and choose the selection |
| WidgetProperties.RemoverInnerMatch | src/AutoCompleteTextField.jsx:193 | in the scenario, the inner match on "@a" before caret 2 is non-null |
| WidgetProperties.ArmedRemoverMovesSpace | src/AutoCompleteTextField.jsx:184-204 | with the remover armed, typing ";" after "@aa " gives "@aa; " with the caret at 5 |
| WidgetProperties.FreshRemoverKeepsSpace | src/AutoCompleteTextField.jsx:83 | on a fresh component the remover is disarmed, so the same two changes leave "@aa ;" as typed |

## Left out

- The list's pixel position (`top`, `left`, `offsetX`, `offsetY`), `getCaretCoordinates` and `getBoundingClientRect`. This is browser geometry.
- `findDOMNode` and `setCaretPosition`. The caret the input reports is a parameter of the handlers. The text written into the input element is reported as an effect.
- React rendering (JSX, class names, keys), prop propagation in `render`, and the window resize listener registration. They change no modelled state.
- The batching of `setState` and its callbacks. Updates are applied in program order, which gives the same final state for these handlers.
- The regex engine. The `regex` prop is an abstract predicate `accepts`; the default pattern is modelled by `DefaultAccepts`.
- Case conversion outside ASCII. `ToLower` lower-cases only `A`-`Z`, so it keeps the length. JavaScript's `toLowerCase` can change the length (U+0130 becomes two code units), which would shift the indices `updateHelper` carries from the lower-cased text back onto the original one (lines 284 and 300).
- Blur. The source only forwards `onBlur` to the input (line 372) and does not hide the list, so nothing is modelled.
- The state `caret` is undefined until the first change, and the model starts it at 0. For `getMatch` both give no match.
- The `Component`, `disabled` and `style` props, and everything in lib/index.d.ts and the demo that the component does not implement (`spacer`, trigger arrays, option maps, `onSelect`, `minChars`).
- Selection.ShowAsWritten: the component uses the corrected `ShowList` instead (see Findings), so the `undefined` insertion and the `TypeError` that Enter on a stale selection causes are not modelled.
- Selection.RequestRule: the request is related to the slug only when `matchStart <= caret`. When the regex accepts the trigger and the caret is inside it (`AcceptedTriggerPastCaret`), `substr` cuts a request that need not have the slug's length (trigger "ab", text "ab", caret 1 requests "" for a match of length 1).
- The row markup inside the class: its rendered rows (`Rows`) are the option strings. The three-piece split of a row is the function `RowParts` as written; `RowPartsLowered` is its corrected form (see Findings), and neither is stored in the component state.
- Widget.AutocompleteTextField.HandleKeyDown: JavaScript's `%` keeps the dividend's sign. The model uses Dafny's `%`, which agrees because the dividends are non-negative while the selection is in range.

## Where the model follows the code

- Hiding on blur: the test at test/AutoCompleteTextField.spec.js:115 expects the list to hide on blur. The source does not, and the model follows the source.
- The space remover on a fresh component: the test at test/AutoCompleteTextField.spec.js:237-244 expects "@aa ;" to become "@aa; " without a prior choice. In the source the remover is armed only by `handleSelection` (line 274), so that change is left as typed (`FreshRemoverKeepsSpace`). The rewrite itself is shown by `ArmedRemoverMovesSpace`.
- After a rewrite the source returns before disarming (line 204), so the remover stays armed. The model keeps that behaviour (`ChangeOutcomes`).

## Findings

| source | as written | input that shows it | evidently intended | confidence | as-written member | corrected member |
|---|---|---|---|---|---|---|
| src/AutoCompleteTextField.jsx:297 | re-showing the list spreads the new match into the state and keeps the old `selection`, even when the new list is shorter | candidates "aa", "ab", "abc"; type "@a" (three options), press arrow down twice (selection 2), type "@ab" (two options, selection still 2); Enter then splices `options[2]`, which is `undefined`, and line 273 throws on `slug.length` | keep the selection only while it names one of the new options, otherwise select the first | not executed | Selection.ShowAsWrittenLeavesRange | Selection.ShowList |
| src/AutoCompleteTextField.jsx:327 | the row looks for `value.substr(matchStart, matchLength)`, the slug in the case it was typed, while the options were filtered by the lower-cased slug (line 284) | default props, candidates "abc"; type "@Ab": "abc" is offered, `indexOf("Ab")` is -1, and the row renders "ab", a bold "c" and "bc" | look for the slug the options were filtered by, so that the bold piece is the slug and the row spells the option | not executed | Selection.MixedCaseRowGarbled | Selection.LoweredRowHighlightsSlug |
| src/AutoCompleteTextField.jsx:362 | `render` takes the state value only when it is truthy, so the empty text the user just typed falls through to `defaultValue` | uncontrolled, `defaultValue` "hello"; select all and delete: `onChange("")` is called and the state value is "", but the input shows "hello" again | take the state value whenever the component holds one, as is done for the controlled value | not executed | WidgetProperties.ClearedFieldShowsDefault | WidgetProperties.UncontrolledShowsEveryChange |
