# Combobox interaction model

A model of the combobox widget in its two versions. A text field gets a drop-down list of items. Focus and typing rebuild the list from the items the `onFilter` option accepts. Typed text of three or more characters emphasises every item whose name contains it, ignoring case, and highlights the first of them. The arrow keys move the highlight without wrapping around and scroll the list: the current version brings the new entry into view, the older one only aligns one edge of it (see `Navigation.ScrollDown`). Enter, a blur onto an entry's button, or (in the current version) a click on an entry's button or a span directly inside it selects an item into a hidden field (id and name); a click elsewhere in the list, including the bold part of a name, only closes it. The older version has no click handler. Any other blur closes the list and restores the text to the selected name, except that the current version ignores focus moving to the div's first child: the list's `ul`, or, while no list has been rendered yet, nowhere (a null `relatedTarget`), so that leaving the field before any list has been shown keeps the typed text.

Each version is a class. Its fields stand for the DOM state the source reads and writes:

- `items`;
- the rendered entries;
- the one highlighted entry;
- whether the list is shown;
- the hidden id and name;
- the text field's value;
- the list's `scrollTop`;
- the `onSelect` calls made.

The browser's layout (each entry's `offsetTop` and `offsetHeight`, and the container height) is a `Geometry` parameter. Where focus goes on a blur, and what a click or the pointer lands on, is a `Target` parameter.

- `wrappers.dfy`: the `Option` type.
- `text.dfy`: the string operations the widget depends on:
  - ASCII `toLowerCase`;
  - `indexOf` (first occurrence);
  - `substring` with JavaScript's clamping and swapping;
  - the `textContent` of markup.
- `listing.dfy`: rendering rules both versions share:
  - the order-preserving `onFilter` pass;
  - the three-character, case-insensitive match;
  - the "first match, else previous selection, else first entry" highlight rule;
  - `querySelector` as the first entry with a given id (ids are restricted to letters, digits, `-` and `_`).
- `navigation.dfy`:
  - key standardisation;
  - moving to a sibling entry;
  - the scroll adjustments;
  - event targets.
- `js_combobox.dfy`: the current version, src/js/ComboBox.js.
- `legacy_combobox.dfy`: the older version, src/ComboBox.js.
- `scenarios.dfy`: the two-city walkthrough, and what re-rendering after a selection highlights.

Where the documentation and the code disagree, the model follows the code:

- **Letter case of the bold text.** The current version replaces the match with the text as typed, so typing "tur" shows `<strong>tur</strong>in` rather than "Tur" in bold. The older version bolds the name's own letters. `Scenarios.TurEmphasis` states both.
- **Request URL.** The request URL is `endpoint + text`, without URL-encoding the text.
- **Re-render after a selection.** It does not always highlight the selected item. For a selected name of three or more characters it highlights the first item whose name contains that name; see `Scenarios.SelectThenRenderCanMove`. A shorter name matches nothing, so the selection itself is highlighted (`Listing.ShortTextFallsBack`).

The older version's class renders names with the splice exactly as src/ComboBox.js:103 writes it. That splice loses characters for a match past the start of a name (see "## Findings"). The corrected splice is stated and proved beside it, but the class does not use it.

## Model

| member | source | states |
|---|---|---|
| Text.IndexOf | src/js/ComboBox.js:300 | `indexOf` gives a position where the needle occurs that is no later than any other, and `None` exactly when it occurs nowhere |
| Text.TextContentStrong | src/ComboBox.js:152 | the text content of tag-free text with one `<strong>` segment is the text with the tags removed |
| Listing.PassingIsOrderedFilter | src/js/ComboBox.js:287-288 | the rendered items are the items `onFilter` accepts, each once, in their original order, and an item's position is rendered exactly when it passes |
| Listing.PassingMembers | src/ComboBox.js:87-88 | an item is rendered if and only if it is in `items` and passes `onFilter` |
| Listing.Find | src/js/ComboBox.js:329 | `querySelector('li.item' + id)` finds the first entry carrying the id, and nothing exactly when no entry carries it, for ids of letters, digits, `-` and `_` |
| Listing.MatchesMeansContains | src/js/ComboBox.js:298-300 | a name matches the text if and only if the text has at least 3 characters and the lower-cased name contains the lower-cased text |
| Listing.FirstMatch | src/js/ComboBox.js:297-308 | `fid` is the first rendered item whose name matches, and no rendered item matches when there is none |
| Listing.HighlightRule | src/js/ComboBox.js:281-330 | after a rebuild exactly one entry is highlighted: the first match if any (the same index when ids are distinct), else the entry of the previous selection, else the first entry |
| Listing.HighlightAmongEntries | src/js/ComboBox.js:328-330 | the id `fid`, else `sid`, is found among entries rendered one per passing item, at the position the highlight rule names |
| Listing.ShortTextFallsBack | src/js/ComboBox.js:293-298 | text shorter than 3 characters never matches, so the highlight is the previous selection or the first entry |
| Navigation.StandardizeKey | src/js/ComboBox.js:397-407 | every key other than `Up`, `Down` and `Esc` is kept, and none of those three is ever produced |
| Navigation.StandardizeKeyMapsLegacyNames | src/ComboBox.js:230-240 | `Up`, `Down`, `Esc` become `ArrowUp`, `ArrowDown`, `Escape` |
| Navigation.StandardizeKeyIdempotent | src/js/ComboBox.js:397-407 | standardising twice is the same as standardising once |
| Navigation.Sibling | src/js/ComboBox.js:131-134 | the next or previous entry stays in the list and is adjacent, and there is none exactly at the last entry (down) or the first (up): no wrap-around |
| Navigation.ScrollIntoView | src/js/ComboBox.js:139-144 | the new scroll position is the old one, top-aligned or bottom-aligned; it is unchanged if the entry is visible; an entry that fits ends visible; no visible position is closer to the old one |
| Navigation.ScrollDown | src/ComboBox.js:215-217 | ArrowDown only scrolls down, only to bottom-align the entry, and leaves its bottom edge no lower than the view's bottom (an entry above the view stays above it) |
| Navigation.ScrollUp | src/ComboBox.js:218-220 | ArrowUp only scrolls up, only to top-align the entry, and leaves its top edge no higher than the view's top (an entry below the view stays below it) |
| Navigation.OldScrollAgreesWithNew | src/ComboBox.js:215-220 | each older adjustment equals the current one when the entry lies on the side its key moves towards |
| Navigation.ClosestRowClimbs | src/js/ComboBox.js:338 | the entry the pointer handler uses is the one `closest('li')` finds by checking the element and then each ancestor in turn, for a widget that no `li` of the page encloses |
| JsComboBox.EmphasizeUnmatched | src/js/ComboBox.js:297-310 | a name that does not match (including any text shorter than 3) is shown unchanged |
| JsComboBox.EmphasizeFirstOccurrence | src/js/ComboBox.js:300-304 | on a match, the first case-insensitive occurrence is replaced by the typed text in `<strong>` |
| JsComboBox.EmphasizeKeepsText | src/js/ComboBox.js:304 | stripped of tags, the shown name equals the name up to letter case |
| JsComboBox.RenderedEntries | src/js/ComboBox.js:312-320 | one entry per passing item, in order, with its id and description; `data-item-name` keeps the raw name |
| JsComboBox.BuildList | src/js/ComboBox.js:281-321 | the loop renders the passing items and computes `sid` and `fid`, and `fid`, else `sid`, is the highlight rule's id |
| JsComboBox.ClickedEntryTakesParentStep | src/js/ComboBox.js:246-251 | the entry a click selects is what `onClick` computes: nothing for a missing element; an element whose parent is a button stands for that button; a button selects its entry. So a button or a span directly inside it selects, and the `<strong>` inside the name does not |
| JsComboBox.ComboBox.constructor | src/js/ComboBox.js:30-41 | the list starts empty and hidden, with no selection, no request and the given options |
| JsComboBox.ComboBox.Update | src/js/ComboBox.js:271-334 | with no items nothing changes; otherwise the list shows exactly the rendered passing items with the rule's entry highlighted and scrolled to the top; selection and text are untouched |
| JsComboBox.ComboBox.Rebuild | src/js/ComboBox.js:276-334 | the list is shown, rendered and highlighted by the rule, and scrolled to the highlighted entry |
| JsComboBox.ComboBox.Highlight | src/js/ComboBox.js:365-368 | the highlight moves to the given entry, and one entry stays highlighted |
| JsComboBox.ComboBox.Select | src/js/ComboBox.js:379-385 | the hidden id and name and the text take the entry's id and raw name, and `onSelect` is called once if configured |
| JsComboBox.ComboBox.OnFocus | src/js/ComboBox.js:99-101 | a shown list is left alone; a hidden one is updated |
| JsComboBox.ComboBox.OnClick | src/js/ComboBox.js:239-257 | the list closes and the text becomes the selected name; then a click on an entry's button (or its span) highlights and selects it, so the text ends as the new name |
| JsComboBox.ComboBox.OnBlur | src/js/ComboBox.js:215-225 | a blur to the div's first child (the `ul` once a list is rendered, a null target before) or to the field changes nothing; any other blur is a click on its target |
| JsComboBox.ComboBox.OnKeyDown | src/js/ComboBox.js:114-147 | nothing without a highlight; Enter selects and closes; Escape closes and restores the text without changing the selection; an arrow moves to an adjacent entry if one exists and scrolls it into view; other keys change nothing |
| JsComboBox.ComboBox.OnKeyUp | src/js/ComboBox.js:162-202 | keys handled on keydown do nothing; with an endpoint, text of 3 or more characters aborts the previous request and issues one for `endpoint + text`; without one the list is updated |
| JsComboBox.ComboBox.OnPointerMove | src/js/ComboBox.js:336-343 | the entry under the pointer becomes highlighted, and nothing else changes |
| LegacyComboBox.AsWrittenAtStart | src/ComboBox.js:103 | for a match at the start of the name (or no match), the splice as written is the intended one and keeps the name's text |
| LegacyComboBox.AsWrittenDropsText | src/ComboBox.js:103 | for "Turin" and typed "uri" the splice as written shows `T<strong>ur</strong>n`, whose text is "Turn" |
| LegacyComboBox.SpliceAgreesAtStart | src/ComboBox.js:103 | at position 0 the splice as written and the intended splice coincide |
| LegacyComboBox.SpliceKeepsName | src/ComboBox.js:103 | the intended splice's text content is the name |
| LegacyComboBox.EmphasizeKeepsName | src/ComboBox.js:97-109 | the corrected half of the finding: stripped of tags, the markup built with the intended splice is the name itself |
| LegacyComboBox.EmphasizeUnmatched | src/ComboBox.js:97-109 | a name that does not match is shown unchanged |
| LegacyComboBox.AsWrittenText | src/ComboBox.js:103 | stripped of tags, the markup as written is the name before the match, then `substring(pos, str.length)`, then the name after the match |
| LegacyComboBox.AsWrittenLosesText | src/ComboBox.js:103 | a match starting at position `pos` with `0 < pos <= str.length` leaves a text `pos` characters shorter than the name, so it is not the name |
| LegacyComboBox.RenderedEntries | src/ComboBox.js:111-116 | one entry per passing item, in order, with its id and description; the name span and `data-item-name` both hold the markup as written; its text is the name when the text does not match or matches at the start |
| LegacyComboBox.BuildList | src/ComboBox.js:80-117 | the loop renders the passing items with the splice as written and computes `sid` and `fid`, and `fid`, else `sid`, is the highlight rule's id |
| LegacyComboBox.ComboBox.constructor | src/ComboBox.js:9-38 | the list starts empty and hidden, with no selection and the given options |
| LegacyComboBox.ComboBox.Open | src/ComboBox.js:76-129 | the list shows exactly the passing items rendered for the given text with the splice as written, with the rule's entry highlighted and scrolled to the top |
| LegacyComboBox.ComboBox.Highlight | src/ComboBox.js:140-143 | the highlight moves to the given entry |
| LegacyComboBox.ComboBox.Select | src/ComboBox.js:150-157 | the hidden id becomes the entry's id; the hidden name and the text become the text content of its name markup; `onSelect` is called once if configured |
| LegacyComboBox.ComboBox.OnFocus | src/ComboBox.js:50-52 | focus opens the list for empty text exactly when there are items |
| LegacyComboBox.ComboBox.OnBlur | src/ComboBox.js:164-183 | a blur to the field changes nothing; any other blur closes the list, a blur to an entry's button also highlights and selects it, and the text ends equal to the selected name |
| LegacyComboBox.ComboBox.ProcessKeyboardEvents | src/ComboBox.js:191-227 | keydown: Enter selects and closes, Escape closes and restores the text without changing the selection, other keys do nothing; keyup: an arrow moves to an adjacent entry if one exists, ArrowDown only bottom-aligning and ArrowUp only top-aligning it; any other keyup returns the text, changing nothing |
| LegacyComboBox.ComboBox.OnKey | src/ComboBox.js:59-68 | text returned on keyup reopens the list with it unless an endpoint is set, in which case nothing changes; otherwise the key's effect is that of `processKeyboardEvents` |
| Scenarios.FocusHighlightsFirst | src/js/ComboBox.js:293-295 | Rome/Turin with no selection and empty text highlights Rome |
| Scenarios.TypingTurHighlightsTurin | src/js/ComboBox.js:297-308 | typing "tur" highlights Turin and not Rome |
| Scenarios.TurEmphasis | src/ComboBox.js:103 | for "Turin" and "tur" the current version bolds the typed "tur" and the older one's splice as written bolds the name's "Tur" |
| Scenarios.NameMatchesItself | src/js/ComboBox.js:298-300 | a name of 3 or more characters matches itself |
| Scenarios.SelectThenRender | src/js/ComboBox.js:379-382 | after a selection, rebuilding highlights the selected item unless an earlier item's name contains the selected name |
| Scenarios.UriHighlightsTurin | src/ComboBox.js:86-126 | Turin alone, typed "uri", passes, matches and is highlighted |
| Scenarios.UriRendersTurn | src/ComboBox.js:103 | the older version renders Turin, typed "uri", as markup whose text is "Turn" |
| Scenarios.UriThenEnterStoresTurn | src/ComboBox.js:59-66 | in the older version, with "uri" typed, a keyup and then Enter select Turin, store "Turn" as the hidden name and the text, and close the list |
| Scenarios.BlurBeforeRenderKeepsText | src/js/ComboBox.js:217-220 | before any list is rendered, a blur to nowhere keeps the typed "ro" and leaves the selection empty |
| Scenarios.BlurAfterRenderRestores | src/js/ComboBox.js:217-243 | once the two-city list is shown, the same blur closes it and restores the (empty) selected name |
| Scenarios.SelectThenRenderCanMove | src/js/ComboBox.js:297-308 | selecting "Turin" below "Turing" and rebuilding highlights "Turing" |

## Left out

- The network request and its promise chain (`fetch`, `r.json()`, `onFetch`, replacing `items`, the catch that logs an abort), in src/js/ComboBox.js:184-195. This is asynchronous I/O. Only the decision is kept: whether to issue a request, its URL, and which controller is aborted. `AbortController` is taken to exist.
- DOM construction and styling: the wrapping div, the hidden input, the `<style>` for the highlight colour, and event-listener wiring. Construction is reduced to the initial field values.
- The `icon` span of the current version (src/js/ComboBox.js:316-318). It holds no text, so it does not affect names, matching or highlighting.
- `scrollPage` in both versions. It depends on `getBoundingClientRect`, the viewport and `window.scrollBy`.
- The refocus on `ul.onscroll` (src/js/ComboBox.js:346). It is timer-driven.
- `ul.onclick` (src/js/ComboBox.js:349) is `onClick` on the click's target, which `JsComboBox.ComboBox.OnClick` models. The wiring of the handler is not modelled.
- The browser's clamping of an assigned `scrollTop` to the scrollable range. The model keeps the assigned integer.
- JsComboBox.Emphasize: treats the typed text as a literal string (no regular-expression metacharacters) and takes the first case-insensitive occurrence, as `indexOf` does. Full `RegExp` semantics are not modelled.
- HTML escaping of names and descriptions, and markup inside names. Lemmas about text content require names without `<` or `>`.
- Non-ASCII case folding. `toLowerCase` is modelled on ASCII letters only.
- UTF-16 code units. The model counts lengths and positions in Unicode characters; JavaScript's `length`, `indexOf` and `substring` count UTF-16 code units. The three-character threshold and the older version's splice bounds therefore differ for characters outside the Basic Multilingual Plane: typed "😀a" has length 3 in JavaScript and can match, but has 2 characters in the model and never matches.
- Paths on which the source dereferences `null` are preconditions instead:
  - a previous selection missing from the rebuilt list;
  - an empty rebuilt list;
  - in the older version, Enter or an arrow with nothing highlighted.
- Listing.Find: ids are limited to ASCII letters, digits, `-` and `_` (`Listing.ItemId`). The source finds an entry with the selector `li.item` + id over `class="item<id>"` (src/js/ComboBox.js:312, 329; src/ComboBox.js:111, 125), which matches class tokens, so only for such ids is it an exact id lookup. An id with whitespace gives the entry several classes and can be found under a shorter id; one with `.` makes the selector miss and the source dereference `null`; one with `:` and other selector punctuation makes `querySelector` throw. None of these is modelled.
- Typing. The browser edits the field's value between keydown and keyup; no operation models that edit. The value is the constructor's `text` or whatever a caller assigns to `inputText` before `OnKeyUp`/`OnKey`. Likewise the user scrolling the list by hand (wheel or scrollbar) changes `ul.scrollTop` outside every modelled operation; `scrollTop` is left to the caller, and the arrow-key contracts hold for any old value.
- Navigation.ClosestRowClimbs: the walk, and so `JsComboBox.ComboBox.OnPointerMove`, assume that no `li` of the host page encloses the widget; `Parent` sends the `ul` and everything outside it to `Outside`, where the walk finds nothing. In the source, `closest('li')` (src/js/ComboBox.js:338) climbs to the document root: with the widget inside a page `li` and the pointer on the `ul` itself (its padding or scrollbar), line 341 moves the `highlighted` class onto that page `li`, no entry stays highlighted, keydown is then ignored (line 121), and the next move onto an entry dereferences a null `previous_li` (line 366). Likewise no element outside the widget is taken to carry the `combobox-button` class, which the tests at src/js/ComboBox.js:249-251 and src/ComboBox.js:173 would accept.
- The demo pages and the build configuration are not part of this model.
- LegacyComboBox.ComboBox.constructor: starts with the list hidden. The source leaves the hidden state to the class's stylesheet.

## Findings

| source | as written | input that shows it | evidently intended | confidence | as-written member | corrected member |
|---|---|---|---|---|---|---|
| src/ComboBox.js:103 | the bold part is `name.substring(pos, str.length)`, which ends at index `str.length` and swaps its bounds when `pos` exceeds it | name "Turin", typed "uri": shows `T<strong>ur</strong>n`, and selecting it stores "Turn" | `name.substring(pos, pos + str.length)`, so the markup keeps every character of the name | high; not executed | LegacyComboBox.AsWrittenDropsText | LegacyComboBox.EmphasizeKeepsName |

`LegacyComboBox.EntryOf`, and so the older class, use the splice as written. `Scenarios.UriThenEnterStoresTurn` follows the row's input through a keyup and Enter to the stored "Turn". `LegacyComboBox.Emphasize` is the intended splice, with its property proved in `LegacyComboBox.EmphasizeKeepsName`.
