# Autocomplete widget: highlight, list visibility and text matcher, in Dafny

This project models the three pieces of logic in the autocomplete widget's
source and proves what the component, its tests and its doc comments promise
about them.

- `Highlight` (`highlight.dfy`): the `HighlightText` component. A label is
  split by the regular expression `(highlight)` with flags `gi`, so every
  case-insensitive, left-to-right, non-overlapping occurrence of the
  highlight becomes its own part. Each part is then rendered bold or plain
  according to `regex.test(part)` on the same global expression, whose
  `lastIndex` carries over from one call to the next. The model keeps that
  `lastIndex` and proves the stateful classification equals "odd-indexed
  parts are the matched ones". The split is also proved equal to an
  independent leftmost-split description, in both directions.
- `Autocomplete` (`autocomplete.dfy`): the `showAutocompleteList` boolean.
  Focus opens the list. While it is open, a window click outside both the
  list and the input closes it. While it is closed no click listener exists,
  so clicks change nothing. The list is hidden exactly when the state is
  closed, and it always holds the three placeholder items. Every event
  sequence is proved to agree with a reference description: the list is
  open iff a focus happened and no outside click came after the last one.
- `TextMatcher` (`text_matcher.dfy`): the test helper `textContentMatcher`,
  over a tree of element and text nodes whose `textContent` is the
  concatenation of the descendants' text. It is proved that a matching
  element has no matching element child. It is also proved that whenever an
  element's text satisfies the check, some element at or below it matches.
- `Options` (`options.dfy`): the `Option` type standing for `undefined`
  and `null`; `Strings` (`strings.dfy`): the string concatenation that
  `Highlight` and `TextMatcher` share.

Three facts about the code shape the model:
- The component accepts only `label` and holds a single boolean of state.
  There is no debouncing, lookup, loading or error state and no option
  selection, so only that boolean is modelled.
- The highlight goes to `new RegExp` unescaped, which throws on an invalid
  pattern and reads metacharacters as pattern syntax. The model therefore
  requires a highlight free of metacharacters (`Highlight.IsLiteral`).
- `split` with a capture group keeps a leading empty part when the text
  starts with an occurrence: "Fake 1" under "Fake" gives
  `["" plain, "Fake" bold, " 1" plain]`, which is what
  `Highlight.Fake1IsHighlighted` proves.

## Model

| member | source | states |
|---|---|---|
| Highlight.FindFrom | src/components/Autocomplete/HighlightText.tsx:9-10 | the search returns an occurrence at or after the start position, with no occurrence between the start and it; "none" means there is no occurrence from the start on |
| Highlight.Split | src/components/Autocomplete/HighlightText.tsx:9-10 | the split has an odd number of parts, concatenates back to the text, every odd part equals the highlight up to case, and no even part contains an occurrence |
| Highlight.SplitIsLeftmost | src/components/Autocomplete/HighlightText.tsx:9-10 | the split meets the reference description: parts rebuild the text, alternate plain/occurrence, and no occurrence in the text starts inside a plain part (leftmost, non-overlapping) |
| Highlight.LeftmostSplitUnique | src/components/Autocomplete/HighlightText.tsx:9-10 | any sequence of parts meeting the reference description is the split, so the description determines it |
| Highlight.SplitCharacterized | src/components/Autocomplete/HighlightText.tsx:9-10 | both directions: a sequence of parts meets the leftmost-split description iff it is the split |
| Highlight.RegexTest | src/components/Autocomplete/HighlightText.tsx:9-15 | `test` on the global expression succeeds iff an occurrence starts at or after `lastIndex`; a failure resets `lastIndex` to 0; a success sets it to the end of the leftmost occurrence at or after the old `lastIndex` |
| Highlight.Classify | src/components/Autocomplete/HighlightText.tsx:14-22 | the rendering loop emits one segment per part, keeping every part's text in order |
| Highlight.PlainPartFails | src/components/Autocomplete/HighlightText.tsx:15-21 | a part holding no occurrence is classified plain and resets `lastIndex` to 0, whatever `lastIndex` it met |
| Highlight.MatchedPartPasses | src/components/Autocomplete/HighlightText.tsx:15-19 | an occurrence part passed to `test` with `lastIndex` 0 is classified bold |
| Highlight.ClassifyIsParity | src/components/Autocomplete/HighlightText.tsx:10-22 | the stateful `test` calls mark exactly the odd-indexed parts of the split as matched, whatever `lastIndex` the first call meets |
| Highlight.HighlightText | src/components/Autocomplete/HighlightText.tsx:6-25 | no or empty highlight gives one plain segment equal to the text; otherwise the segments rebuild the text, are odd in number, are matched exactly at odd positions, and matched parts equal the highlight up to case; plain parts hold no occurrence; the texts form the leftmost split |
| Highlight.SingleSegmentIffNoOccurrence | src/components/Autocomplete/HighlightText.tsx:7-22 | the output is one plain segment equal to the text iff the highlight is absent or empty or occurs nowhere in the text |
| Highlight.AnotherRandomHasNoHighlight | src/components/Autocomplete/index.spec.tsx:139-144 | "Another Random" under "Fake" renders with no highlighted segment |
| Highlight.Fake1IsHighlighted | src/components/Autocomplete/index.spec.tsx:126-137 | "Fake 1" under "Fake" or "fake" renders "", bold "Fake" in the label's own case, then " 1" |
| Autocomplete.OnWindowClick | src/components/Autocomplete/index.tsx:17-25 | the listener never opens the list; a click inside the list or the input leaves the state unchanged, and any other click closes the list |
| Autocomplete.Step | src/components/Autocomplete/index.tsx:14-32 | after focus the list is open; after a click it is open iff it was open and the click landed inside the list or the input |
| Autocomplete.HiddenAfter | src/components/Autocomplete/index.tsx:10-48 | after any event sequence from mount, the list is hidden iff there was no focus or an outside click followed the last focus |
| Autocomplete.RunMatchesReference | src/components/Autocomplete/index.tsx:10-43 | for every event sequence from mount, the list is open iff some focus occurred and no outside click followed the last one |
| Autocomplete.MountedViewAndItems | src/components/Autocomplete/index.tsx:10-53 | on mount the list is hidden, and in every state it holds the same items "Mock 1", "Mock 2", "Mock 3" |
| Autocomplete.FocusOpensIdempotently | src/components/Autocomplete/index.tsx:41-43 | focus opens the list from either state, a second focus changes nothing, and the opened list is shown |
| Autocomplete.OpenListClicks | src/components/Autocomplete/index.tsx:17-24 | with the list open, a click keeps it open iff it lands inside the list or the input |
| Autocomplete.ClosedListIgnoresClicks | src/components/Autocomplete/index.tsx:14-15 | with the list closed no listener is installed and no click changes the state |
| Autocomplete.ClickOnInputOpens | src/components/Autocomplete/index.tsx:19-23 | the click that follows focusing the input keeps the list open, so the order of focus and listener installation does not matter |
| Autocomplete.OpenThenOutsideClickScenario | src/components/Autocomplete/index.spec.tsx:25-32 | clicking the input shows the list, clicking the list keeps it shown, clicking outside hides it |
| TextMatcher.ElementChildren | src/tests/utils.ts:24 | `children` holds exactly the child nodes that are elements |
| TextMatcher.NoneHasText | src/tests/utils.ts:24 | `every(child => !hasText(child))` holds iff no child in the sequence satisfies the check |
| TextMatcher.Matches | src/tests/utils.ts:21-25 | null never matches; an element failing the check never matches; an element passing it matches iff none of its element children passes it |
| TextMatcher.LeafMatchesOnText | src/tests/utils.ts:22-24 | an element without element children matches iff its text passes the check |
| TextMatcher.MatchIsDeepest | src/tests/utils.ts:21-24 | no element child of a matching element matches |
| TextMatcher.DeepestMatchExists | src/tests/utils.ts:1-3 | whenever an element's text passes the check, some element at or below it matches |
| TextMatcher.HelloWorldExample | src/tests/utils.ts:4-11 | "Hello World" split over two spans matches at the enclosing div and at neither span |

## Left out

- React machinery: `useId`, the refs, and adding and removing the listener in the effect (src/components/Autocomplete/index.tsx:9-12,27-31). The effect appears only as "clicks are ignored while the list is closed" (`Autocomplete.ListenerInstalled`).
- The DOM `contains` test on the click target is abstracted to the three targets `InList`, `InInput` and `Outside`.
- CSS modules, JSX markup, the label element, React keys and the `<span>` wrapper. An empty plain part renders as nothing in the page; the model keeps it as a segment.
- The demo page (src/App.tsx) and the type declarations (src/env.d.ts) carry no logic of the core.
- Debouncing, the asynchronous option lookup, loading and "no options found" rows, option selection and error handling. The component as written implements none of them.
- Timers, promises and concurrency: the component has none of its own.
- Highlight.HighlightText: case folding is ASCII only, and non-ASCII characters compare exactly. A JavaScript `i` expression also folds non-ASCII letters.
- Highlight.HighlightText: requires a highlight without regular-expression metacharacters. With such characters `new RegExp` may throw or read the highlight as a pattern, and the regular-expression engine is not modelled.
- Determinism and purity of the segmentation hold by construction, since every Dafny function is deterministic. No separate lemma states them.
- TextMatcher.HasText: a pattern is a pure predicate on the text. A regular expression with the `g` or `y` flag would carry `lastIndex` between calls; the tests use neither flag.
- The `?? ""` fallback on `textContent` (src/tests/utils.ts:19) has no case to act on. An element's `textContent` is never null, so the model's text content is total.
- The component test checks that the element with test id `autocomplete-list` is or is not in the document. The component as written sets no such id and never removes the list; it sets `hidden`. The model reads "in the document" as "not hidden" (`Autocomplete.OpenThenOutsideClickScenario`).
- The matcher's `toString` (src/tests/utils.ts:27) and its unused `_content` argument only serve error messages.
