# Amazon Filter — a verified model of the listing filter

This project models the part of the Amazon Filter browser extension that
decides which product listings of a search-results page are hidden, and
proves what that decision promises.

The content script (`content.js`) receives a config. For every listing
that is not *preserved*, it sets or clears the class `amazon-filter-hidden`
in a first pass. A listing is hidden when its lowercased text includes a
remove word, or when there are keep words and its text includes none of
them. A second pass marks every element that matches one of the config's
remove selectors. Preserved elements are skipped by both passes. They are
the related-searches block and any element that contains, or sits inside,
a `MAIN-PAGINATION` widget. The related-searches block is the nearest
`div[data-asin]` ancestor of the first `h2` whose text mentions "related
searches". `clearFilter` removes the marker and the injected style element.
`getVisibleCount` counts the listings that are neither preserved nor
hidden. The popup (`popup.js`) turns its textarea into a word list and
splits its status message at `(`.

Modules:

- `Wrappers` (`wrappers.dfy`): `Option`, `Result` and `Outcome`.
- `Text` (`text.dfy`): ASCII `toLowerCase`, `includes` with its proof against contiguous-substring containment, and the white-space class `\s`.
- `Content` (`content.dfy`):
  - the page as a value: an element's text, the selectors it matches, its pagination flags and its `hidden` flag, plus the `h2` headings;
  - both passes and `clearFilter` as functions of the page, with lemmas about them;
  - a class `Page` whose methods update an `array<Element>` in place. Each method is proved to produce exactly what the functions describe.
- `Popup` (`popup.dfy`): the tokeniser, the status split and the config the popup sends.

What the code does with the word lists and with new listings:

- No code splits words on a `+`/`-` prefix. The content script reads two lists, `removeWords` and `keepWords` (content.js:77-83).
- Nothing watches the page for new listings, so nothing re-applies the filter after they load.
- A missing word list is not treated as empty. `config.removeWords.some` raises a TypeError, and the model returns that error (`FilterError`).
- The popup sends its word list as `words` and sends neither `removeWords` nor `keepWords` (popup.js:40-44, popup.js:60-64). `Popup.PopupConfigFails` proves that filtering with the popup's config fails as soon as one listing is not preserved.

## Model

| member | source | states |
|---|---|---|
| Text.LowerChar | content.js:75 | an upper-case ASCII letter maps to its lower-case letter; every other character is left as it is |
| Text.Lower | content.js:75 | `toLowerCase` keeps the length and lowercases each character in place |
| Text.IsSpace | popup.js:26 | the white-space class `\s`: the ECMAScript WhiteSpace and LineTerminator characters |
| Text.Includes | content.js:78 | `t.includes(w)` holds exactly when `w` occurs as a contiguous block of `t` |
| Content.MentionsRelated | content.js:38-40 | a heading mentions related searches exactly when "related searches" occurs in its lowercased text |
| Content.FindRelatedSearchesContainer | content.js:37-46 | the result is the nearest listing ancestor of the first heading whose lowercased text includes "related searches"; it is `None` when no heading mentions it or that heading has no listing ancestor |
| Content.AnyIncluded | content.js:77-79 | `some(word => text.includes(word.toLowerCase()))` holds exactly when some lowercased word is a substring of the text |
| Content.WordHides | content.js:75-85 | a listing is hidden exactly when a lowercased remove word occurs in its lowercased text, or keep words exist and none occurs |
| Content.Preserved | content.js:68-70 | an element is exempt from both passes when it is the related-searches container or contains or sits inside a pagination widget |
| Content.WordPass | content.js:67-90 | the word pass fails exactly when some element is visited and not skipped while `removeWords` or `keepWords` is missing, with the TypeError of `removeWords` first; on success only `hidden` flags change, and only those of visited elements that are not preserved |
| Content.RemovePass | content.js:92-102 | the remove-selector pass changes only `hidden` flags; an element ends hidden exactly when it was hidden already, or it is not preserved and matches a remove selector |
| Content.Filter | content.js:48-103 | `filterElements` fails exactly when the word pass fails; on success it changes nothing but `hidden` flags |
| Content.WordPassDecides | content.js:67-90 | after the word pass, a candidate that is not preserved is hidden exactly when a remove word occurs or keep words exist and none occurs; every other element is unchanged |
| Content.RemoveWordBeatsKeepWord | content.js:85-86 | a candidate whose text includes both a keep word and a remove word ends hidden |
| Content.EmptyRulesShowEverything | content.js:77-88 | with empty remove and keep lists and no matching remove selector, every candidate that is not preserved ends visible |
| Content.DefaultConfigShowsListings | content.js:48-53 | the default config leaves every listing that is not preserved visible |
| Content.WirelessMouseKept | content.js:75-89 | a listing with the keep word "Wireless" (in any case) and no remove word stays visible |
| Content.RefurbishedMouseHidden | content.js:85-86 | a listing with the remove word is hidden even though it has the keep word |
| Content.WiredKeyboardHidden | content.js:81-86 | a listing with none of the keep words is hidden |
| Content.FilterKeepsPreserved | content.js:67-73 | the related-searches container and elements in or around pagination come through both passes unchanged |
| Content.RemoveSelectorsWin | content.js:92-101 | the remove-selector pass never clears a flag, and every element that is not preserved and matches a remove selector ends hidden |
| Content.FilterIdempotent | content.js:67-102 | filtering a filtered page again with the same config gives the same page |
| Content.StylesAfterFilter | content.js:55-60 | a style element is added only when none exists: with none before there is one after, and with any before the count is unchanged |
| Content.FilterLeavesOneStyle | content.js:55-60 | with at most one style element before filtering, exactly one exists after |
| Content.Cleared | content.js:113-116 | after clearing, no element carries the marker and nothing else changed |
| Content.StylesAfterClear | content.js:108-111 | clearing removes one style element when any exists, and never more than one |
| Content.ClearUndoesFilter | content.js:105-117 | clearing after a filter gives the same elements as clearing alone |
| Content.ClearLeavesNoStyle | content.js:108-111 | with at most one style element before clearing, none remains |
| Content.CountVisiblePrefix | content.js:19-29 | the count equals the number of listings that are neither preserved nor hidden, and never exceeds the number of listings |
| Content.VisibleCount | content.js:14-32 | the reported count is the number of `div[data-asin]` elements that are neither preserved nor hidden, at most the number of listings |
| Content.VisibleWithinListings | content.js:19-29 | no more listings are counted visible than there are listings |
| Content.ClearedCountsAllUnpreserved | content.js:19-29 | after clearing, the count is the number of listings that are not preserved |
| Content.Page.FilterElements | content.js:48-103 | inserts the style element only when none exists, so at most one before means exactly one after; on success the elements become the two passes' result, and on a missing word list it fails with that list's TypeError and leaves the elements unchanged |
| Content.Page.ApplyWordPass | content.js:67-90 | the in-place loop leaves the elements equal to the word pass's result, or fails with the elements unchanged |
| Content.Page.ApplyRemovePass | content.js:92-102 | the nested in-place loops leave the elements equal to the remove-selector pass's result |
| Content.Page.ClearFilter | content.js:105-117 | removes one style element if any exists, so at most one before means none after, and clears every element's marker |
| Popup.SplitOnSpace | popup.js:26 | `split(/[\n\s]+/)` gives at least one piece, and exactly one when the text holds no white space; where it cuts is stated by the three lemmas below |
| Popup.SplitSingleWord | popup.js:26 | text without white space is one piece, the text itself |
| Popup.SplitWordThenGap | popup.js:26 | a word, then a non-empty run of any white-space characters (newlines, tabs, spaces mixed), then a word or the end: the word is the first piece, the whole run is one cut, and the rest is split on its own |
| Popup.SplitLeadingGap | popup.js:26 | a leading run of white space gives one empty first piece and is otherwise skipped |
| Popup.Trim | popup.js:27 | `trim` returns a block of the input with only white space around it, and the block neither starts nor ends with white space |
| Popup.TrimAll | popup.js:27 | `map(word => word.trim())` keeps the number of pieces and trims each one in place |
| Popup.DropEmpty | popup.js:28 | `filter(word => word !== '')` keeps only non-empty pieces of the input, and every non-empty piece exactly as many times as it occurs |
| Popup.DropEmptyAppend | popup.js:28 | the filter keeps the order: filtering a concatenation is the concatenation of the filtered parts |
| Popup.Tokenise | popup.js:25-28 | no token is empty and no token contains white space |
| Popup.SplitPiecesHaveNoSpace | popup.js:26 | no piece of `split(/[\n\s]+/)` contains white space |
| Popup.TrimIsNoOpOnPieces | popup.js:26-27 | the `trim` on every piece changes nothing |
| Popup.TokensConcat | popup.js:25-28 | the tokens joined in order are the input with every white-space character deleted |
| Popup.BlankTextHasNoTokens | popup.js:25-28 | an input made only of white space gives no tokens |
| Popup.TokeniseCons | popup.js:25-28 | white space (or nothing), a word, then white space or the end: the word is the first token, followed by the tokens of the rest |
| Popup.TokeniseJoinRoundTrip | popup.js:25-28 | non-empty, space-free words separated by non-empty runs of any white space, with any white space before the first and after the last, tokenise back to exactly those words in order |
| Popup.OneWordPerLine | popup.js:25-28 | a textarea holding "Wireless", a newline, "Mouse" and a newline gives the tokens "Wireless" and "Mouse" |
| Popup.RetokeniseIsStable | popup.js:25-28 | re-tokenising the tokens joined by single spaces gives the same tokens |
| Popup.IndexOf | popup.js:105 | the position of the first `(`, or the length of the text when it holds none; no `(` comes before it |
| Popup.SplitOnChar | popup.js:105 | `split('(')` gives one more piece than there are `(`, and no piece contains `(` |
| Popup.FirstTwoPieces | popup.js:105 | the first piece is the text before the first `(`; the first piece, `(` and the second piece are a prefix of the text that ends it or is followed by `(` |
| Popup.SplitOnCharJoin | popup.js:105 | joining the pieces of `split('(')` with `(` gives the message back |
| Popup.Occurrences | popup.js:105 | the count of a character is positive exactly when the character occurs |
| Popup.ShowStatus | popup.js:103-109 | a message is split exactly when it includes "items shown"; otherwise it is shown as it is; the main part is the whole message when it has no `(` and otherwise the text before its first `(`; a count part exists exactly when the message holds `(`; the count part holds no `(` and runs from just after the first `(` to the second `(` or the end |
| Popup.ShowStatusRoundTrip | popup.js:104-106 | for a message with "items shown" and exactly one `(`, `mainMessage + "(" + countPart` is the message |
| Popup.PopupConfig | popup.js:38-64 | the popup's config has the listing selector, sends neither `removeWords` nor `keepWords`, and its remove selectors include the non-result listing selector |
| Popup.PopupConfigFails | popup.js:38-45 | with the config the popup sends, the word pass raises the TypeError for the missing `removeWords` when some listing is not preserved; otherwise only the remove-selector pass runs |

## Left out

- Extension messaging is not modelled: `chrome.runtime`/`chrome.tabs` messages, the `contentScriptLoaded` ping, `sendResponse`, and the popup's re-inject-and-retry path (content.js:2, content.js:6-35, popup.js:34-101). The action dispatch is host I/O. The visible-count branch is modelled as `Content.VisibleCount`.
- DOM querying is not modelled. Selector matching (`querySelectorAll`, `querySelector`, `closest`) and `textContent` are precomputed per element. An element's `matches` is assumed not to depend on the marker class. An invalid selector, which would throw a SyntaxError, is not modelled.
- `background.js` is not part of this model. It only enables the action icon and opens the popup through host APIs.
- The popup's storage of the textarea text, its keyboard shortcuts, and the `innerHTML`, class and style writes of `showStatus` are not modelled (popup.js:9-22, popup.js:106-112).
- `console.log` calls are not modelled.
- `Content.Config` has no `words` field. The popup's `words` list is dropped because the content script never reads it.
- Text.Lower: lower-cases ASCII letters only, not the full Unicode mapping of `toLowerCase`.
- Text.Includes: works on code points; JavaScript strings are UTF-16 code units, which agree for containment of well-formed text.
