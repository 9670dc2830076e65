# Spoiler Shield — a Dafny model

Spoiler Shield is a Chrome extension with two parts:

- The **popup** keeps a list of blocked topics in `chrome.storage.sync` under the key `spoilers`.
  Adding a topic trims the typed text, lower-cases it, ignores it if it is empty, and appends it.
  Removing a topic filters out one row index.
  Both write the new list and then render it. The completion callback does not check `chrome.runtime.lastError`, so after a failed write the popup shows a list that was never stored.
- The **content script** runs on the video feed. It first checks the gates:
  - the `LanguageModel` API is present;
  - its availability is `'readily'`;
  - the stored topic list is not empty;
  - a model session can be created.

  If all pass, it hands every feed item element to `processVideoElement`: first all items on the page, then all items the mutation observer reports.
  `processVideoElement` does these steps in order:
  1. Skip the element if it is already marked `spoilerChecked`.
  2. Mark it.
  3. Skip it if it has no `#video-title` or the trimmed title is empty.
  4. Ask the model whether the title relates to any topic.
  5. Blur the element if the lower-cased answer contains `"yes"`.
  6. If the prompt call rejects, the element stays unblurred.

The model is functional. Element states, the topic list and the popup are immutable values, and every operation is a pure function.
The language model is an oracle. It only supplies an availability status, whether the session could be created, and one `Reply` for each element: `Answered(text)` or `Threw`.

Modules:
- `Text` (text.dfy): JavaScript `trim`, `toLowerCase`, `includes` and `join`, each tied to an independent characterisation.
- `Storage` (storage.dfy): the `spoilers` entry, read with the default `[]`.
- `Popup` (popup.dfy): `popup.js`.
- `Classify` (classify.dfy): `processVideoElement` and the prompt it builds.
- `Feed` (feed.dfy): the start-up gates, the observer's element-selection rule, and processing a sequence of elements.
- `Wrappers` (wrappers.dfy): `Option`.

`content.js` reads the topic list once at start-up and calls the model directly from the observer callback.

## Model

| member | source | states |
|---|---|---|
| `Text.TrimStart` | popup.js:27 | the result is a suffix of the input, everything dropped is white space, and it does not start with white space |
| `Text.TrimEnd` | popup.js:27 | the result is a prefix of the input, everything dropped is white space, and it does not end with white space |
| `Text.Trim` | popup.js:27 | `trim` yields the input's white-space-free core (`IsTrimOf`): a slice with only white space on both sides and none at its ends |
| `Text.TrimUnique` | content.js:34 | at most one string is the trimmed core of a given string, so `trim` is fully determined by that description |
| `Text.TrimIdempotent` | content.js:34 | trimming a trimmed title changes nothing |
| `Text.TrimEmptyIff` | popup.js:28 | the trimmed text is empty exactly when the input is all white space |
| `Text.Contains` | content.js:42 | `includes`: recursive scan for the needle; `Text.ContainsIffSubstring` ties it to an occurrence at some index |
| `Text.ToLower` | popup.js:27 | `toLowerCase` keeps the length and maps every character through the A-Z lower-case mapping |
| `Text.ToLowerIdempotent` | popup.js:27 | after lower-casing no capital A-Z is left, and lower-casing again changes nothing |
| `Text.TrimToLowerCommute` | popup.js:27 | trimming then lower-casing equals lower-casing then trimming |
| `Text.ContainsIffSubstring` | content.js:42 | `includes` is true exactly when the needle occurs at some position of the string |
| `Text.Join` | content.js:37 | `join(', ')`: the parts with the separator between neighbours; characterised by `Text.JoinPlacesParts`, `Text.JoinPlacesSeparators` and `Text.JoinLength` |
| `Text.JoinPlacesParts` | content.js:37 | `join` puts every topic, in order, at the offset made of all earlier topics and separators |
| `Text.JoinPlacesSeparators` | content.js:37 | between each two neighbouring topics `join` puts exactly the separator |
| `Text.JoinLength` | content.js:37 | the joined text ends right after the last topic, with no trailing separator |
| `Storage.Spoilers` | popup.js:29 | `get({ spoilers: [] })`: the stored list, or `[]` when the key was never written |
| `Popup.Normalize` | popup.js:27 | `value.trim().toLowerCase()`; `Popup.NormalizeYieldsTopic` says what it yields |
| `Popup.NormalizeYieldsTopic` | popup.js:27-28 | typed text normalises to "" iff it is all white space; otherwise the result is non-empty, trimmed and lower case; normalising twice equals normalising once |
| `Popup.AddTopic` | popup.js:27-30 | empty normalised input leaves the list unchanged; otherwise the length grows by one, earlier topics keep their places, the normalised input is last, and the multiset gains exactly that topic |
| `Popup.AddKeepsDuplicates` | popup.js:30 | adding a topic already in the list stores a second copy; there is no deduplication |
| `Popup.KeepOthers` | popup.js:42 | the index filter `index !== indexToRemove`, element by element; `Popup.KeepOthersSlices` says what it removes |
| `Popup.KeepOthersSlices` | popup.js:42 | the index filter, run from any start position, removes exactly the element at the index when it is in range and nothing otherwise |
| `Popup.RemoveAt` | popup.js:42 | an in-range index deletes exactly that element, the list gets one shorter and the rest keep their order; an out-of-range index changes nothing |
| `Popup.EditsOnlyAddInput` | popup.js:30-42 | after an add, every topic was there before or is the normalised input; after a remove, every topic was there before |
| `Popup.EditsKeepTopics` | popup.js:26-47 | if every stored topic is non-empty, trimmed and lower case, this stays true after an add or a remove |
| `Popup.Open` | popup.js:50-52 | the popup opens showing the stored list (or `[]`) with an empty input box |
| `Popup.AddSpoiler` | popup.js:26-37 | blank input touches nothing, not even the input box; otherwise the list shown is the stored list plus the normalised input, the box is cleared, and the stored entry becomes the shown list when the write succeeds and stays as it was when it fails |
| `Popup.RemoveSpoiler` | popup.js:40-47 | the filtered list is shown, and written even when the index is out of range; the stored entry becomes the shown list when the write succeeds and stays as it was when it fails; the input box is untouched |
| `Popup.EditsKeepSynced` | popup.js:29-46 | after a successful write, an add keeps the screen showing the stored list and a remove always brings them in step; after a failed write, an add of real input, or a remove of an existing row, leaves the screen showing a list that is not stored |
| `Classify.Prompt` | content.js:37 | the prompt template: lead-in, topics joined by `", "`, the question, the quoted title; `Classify.PromptTitleRoundTrip`, `Classify.PromptMentionsTopics` and `Classify.PromptEndsWithTitle` state its shape |
| `Classify.TitleOf` | content.js:37 | any title read back from a prompt fills exactly the span between the preamble and the closing quote |
| `Classify.PromptTitleRoundTrip` | content.js:37 | reading the title back from the prompt returns it; any string that reads back is exactly the prompt for that title |
| `Classify.PromptMentionsTopics` | content.js:37 | every topic occurs in the prompt, at its place in the `", "`-joined list after the fixed lead-in |
| `Classify.PromptEndsWithTitle` | content.js:37 | the prompt ends with the trimmed title and a closing quote |
| `Classify.IsAffirmative` | content.js:42 | `toLowerCase().includes('yes')`; `Classify.AffirmativeIffYesOccurs` says what it accepts |
| `Classify.AffirmativeIffYesOccurs` | content.js:42 | a response is a match exactly when `"yes"` occurs anywhere in its lower-cased text |
| `Classify.StartsWithYes` | content.js:42 | a response beginning with y-e-s in any mix of case is a match |
| `Classify.YesRelatedIsAffirmative` | content.js:42 | the answer "Yes, related" is a match |
| `Classify.NoIsNotAffirmative` | content.js:42 | the answer "No." is not a match |
| `Classify.EyesIsAffirmative` | content.js:42 | "Eyes" is a match too: the test is a substring test, not a word test |
| `Classify.Process` | content.js:27-52 | a checked element is returned unchanged and unprompted; otherwise it ends checked; it is prompted iff it has a title that is non-empty after trimming; the prompt is built from the topics and the trimmed title; it ends blurred iff it already was or the answer is a match |
| `Classify.ProcessIdempotent` | content.js:28-29 | a second call on a processed element, with any inputs, changes nothing and sends no prompt |
| `Classify.MissingTitleSkips` | content.js:29-35 | an element with no `#video-title`, or only white space in it, ends checked, unprompted and no more blurred than before |
| `Classify.FailOpen` | content.js:39-51 | if the prompt rejects, a fresh element ends checked and unblurred, and a later call does not prompt it again |
| `Classify.BlurredIffYes` | content.js:40-48 | a fresh element with a real title ends blurred iff `"yes"` occurs in the lower-cased answer |
| `Feed.Start` | content.js:2-25 | processing starts iff the API is present, availability is `'readily'` without throwing, the stored list is non-empty and the session is created; each failure maps to its own stop reason |
| `Feed.MatchingIn` | content.js:70 | `querySelectorAll` of the item selector over a forest, in document order; `Feed.MatchingInIff` says what it finds |
| `Feed.MatchingInIff` | content.js:61 | `querySelectorAll` yields exactly the item elements at any depth of the forest |
| `Feed.Targets` | content.js:57-62 | one added node: itself if it matches, then its matching descendants, nothing for a non-element; `Feed.TargetsIff` characterises it |
| `Feed.NodesTargets` | content.js:56-63 | the targets of every added node of one mutation record, in order |
| `Feed.BatchTargets` | content.js:55-64 | the targets of every mutation record of one callback, in order |
| `Feed.CallbackTargets` | content.js:54-66 | the targets of a series of observer callbacks, one after another |
| `Feed.Visited` | content.js:62-70 | the elements handed to `processVideoElement`: the initial scan, then every callback |
| `Feed.TargetsIff` | content.js:57-62 | an added node yields exactly the item elements of its subtree, itself included; a non-element yields nothing |
| `Feed.ProcessAll` | content.js:58-62 | processing a sequence of elements, with repeats allowed, never prompts an element twice and only prompts elements unchecked at the start; `Feed.EligiblePrompted` and `Feed.OnlyEligiblePrompted` pin down exactly which elements it prompts |
| `Feed.ProcessAllFrame` | content.js:28-29 | every visited element ends checked; an element already checked is left as it was; unvisited elements are untouched; every prompted element was visited |
| `Feed.PromptedBlurIff` | content.js:42-44 | after a run, a prompted element is blurred iff it was blurred before or its answer is a match |
| `Feed.FirstVisitPrompts` | content.js:28-48 | an element unchecked at the start of a run, with a real title, is prompted at its first visit and ends blurred iff it was before or its answer contains `"yes"` |
| `Feed.EligiblePrompted` | content.js:58-62 | the same for every such element of a run at once |
| `Feed.PromptedOnlyTitledFirst` | content.js:28-35 | an element is prompted only if its first visit in the run had a real title; a later visit with a title does not prompt it |
| `Feed.UnpromptedKeepsBlur` | content.js:28-35 | an element a run never prompts keeps its blur |
| `Feed.OnlyEligiblePrompted` | content.js:58-62 | both facts for every element of a run at once |
| `Feed.ContentScript` | content.js:18-70 | when start-up stops, no element is touched and nothing is prompted; otherwise no element is prompted twice across the initial scan and all observer callbacks, an element is prompted exactly when its first visit has a real title, and then ends blurred iff its answer contains `"yes"`; every other element stays unblurred |
| `Feed.NoTopicsNoWork` | content.js:21-23 | with an empty stored topic list, no element is processed or prompted |

## Left out

- Styling and hover: the blur filter, its transition, and the mouseenter/mouseleave toggling (content.js:44-47) are one `blurred` flag. This flag says the blur was installed. It does not say whether the mouse is over the element right now.
- Console logging (content.js:3, 10, 14, 43, 50) is left out. It has no effect on state.
- The `LanguageModel` API is not modelled. `availability()` becomes the `Availability` input, `fromDefault()` becomes the `sessionCreated` flag, and `prompt()` becomes a `Reply`. In a run, replies are a total function from element identity to `Reply`. The model's answers are not modelled.
- The DOM is reduced to a tree of `Node` values. Each element has an identity, a tag, children and a title. The title abstracts `querySelector('#video-title').textContent`. The selector is matched by tag name only. Setting up the `MutationObserver` (content.js:54-56, 66-68) becomes a sequence of callbacks, each a list of mutation records, and each record a list of added nodes.
- Concurrency: content.js does not await `processVideoElement`, so several prompts can be in flight at once. The model runs the calls one after another. Interleaving is out of scope. The `spoilerChecked` mark is written before the first `await`, so the prompt-at-most-once property does not depend on ordering.
- Storage I/O: each `chrome.storage.sync` get-then-set is one atomic step. Whether the write succeeds is the `written` input of `Popup.AddSpoiler` and `Popup.RemoveSpoiler`; a failed read is assumed not to happen. Races between overlapping add and remove callbacks are out of scope. So are changes made by other devices through sync.
- Popup rendering and event wiring (popup.js:7-23, 54-60) are left out. This covers the list markup, the per-row remove buttons, the click handler and the Enter-key handler. The model keeps only the list last shown (`shown`) and the input box text.
- `Text.ToLower`: changes only the ASCII letters A-Z. JavaScript's `toLowerCase` follows full Unicode case mapping, which can also change a string's length (for example U+0130). No such mapping produces the letters y, e or s, so the `"yes"` test is unaffected. Stored topics with non-ASCII capitals would differ.
- `Text.Trim`: uses the ECMAScript WhiteSpace and LineTerminator code points, with the space separators of current Unicode. JavaScript strings are UTF-16, and lone surrogates cannot be written as Dafny `char`s.
