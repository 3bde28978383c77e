# Job-list page script, modelled in Dafny

The repository's page script loads a catalog of psychology careers
(categories, each with jobs that carry links and videos). It shows the jobs
twenty at a time with a heading at every change of category. It filters them
with a debounced search box and embeds YouTube players for the videos. Six
versions of the script exist. They share one pipeline and differ in two
places:

- **Rendering.** `app.js` appends each loaded chunk and remembers the last
  category it headed. The other five re-render the whole displayed prefix.
- **Video controller.** Docked/floating players that hand off on click
  (`app.js`, `floating_vid_backup/2/app.js`). Return-to-spot
  (`floating_vid_backup/app.js`). Move-to-body (`playing_vid_stays/app.js`).
  Play/pause by visibility (`vids_auto_play/app.js`). Plain click-to-embed
  (`backup/app.js`).

Modules follow that structure:

| file | module | models |
|---|---|---|
| options.dfy | `Options` | `Option` and `Result` |
| text.dfy | `Text` | `toLowerCase` (ASCII), `split` on one character, `includes`, `split(...).pop()` |
| catalog.dfy | `Catalog` | the catalog and its flattening into entries |
| search.dfy | `Search` | search words, the match predicate, `filterJobs` and a reference filter |
| paging.dfy | `Paging` | `loadMoreJobs`, `resetJobs` and the search handler on the cursor |
| render.dfy | `Rendering` | the category-heading rule as a sequence of heading and job items |
| replace_page.dfy | `ReplacePage` | the page of the five replace-render versions |
| append_page.dfy | `AppendPage` | the page of `app.js`, which appends chunks |
| browser.dfy | `Browser` | element identities, parsed JSON, `message` events |
| docking_player.dfy | `DockingPlayer` | the controller of `app.js` and `floating_vid_backup/2/app.js` |
| return_to_spot.dfy | `ReturnToSpot` | the controller of `floating_vid_backup/app.js` |
| body_float.dfy | `BodyFloat` | the controller of `playing_vid_stays/app.js` |
| auto_play.dfy | `AutoPlay` | the observer of `vids_auto_play/app.js` |
| click_embed.dfy | `ClickEmbed` | the click handler of `backup/app.js` |
| video_id.dfy | `VideoIds` | `extractVideoId` |

Timers, scrolling, observers and messages are events that the page or
controller step functions take as inputs. Every operation is a pure
function. The properties are stated as invariants that each step keeps, as
reference definitions with all-inputs equivalence lemmas, and as round trips.

## Behaviour worth knowing

- In `vids_auto_play/app.js` an entry is intersecting whenever any part of the player is in view. The 0.5 threshold only adds deliveries when half visibility is crossed. So a player that drops below half visible is told to play again, and it is told to pause only once it is entirely out of view.
- A search that matches nothing leaves `filteredJobs` empty. `loadMoreJobs`
  then pages through the whole catalog again, so the list is not empty.
- Search text is split on the space character only. Tabs and other
  whitespace stay inside words.
- `extractVideoId` throws when `new URL(url)` rejects the address. The model
  returns an error value.

## Model

| member | source | states |
|---|---|---|
| Text.LowerIsLower | app.js:14 | lowercased search text holds no upper-case ASCII letter, lowercasing twice equals lowercasing once, and lower-case characters are kept |
| Text.Split | app.js:15 | the pieces of `split(' ')` hold no separator, come from the text, and joined back with the separator give the text |
| Text.SplitJoin | app.js:15 | splitting a join of separator-free pieces gives the pieces back |
| Text.JoinAllSeparators | app.js:15 | text made only of separators splits into empty pieces only, and conversely |
| Text.IncludesIff | app.js:77-81 | `includes` holds exactly when the word occurs at some position of the text |
| Text.LastPiece | backup/app.js:170 | `split('/').pop()` is the longest slash-free suffix: it has no slash and ends the text, and a slash precedes it unless it is the whole text |
| Catalog.FlattenLayout | app.js:48-54 | one entry per job, laid out category after category and, within each category, in the order `Object.entries` yields them, at offset `FlatIndex` |
| Catalog.FlattenSources | app.js:48-54 | every flattened entry is some job of some category |
| Search.NonEmptyPieces | app.js:15 | dropping empty pieces keeps every non-empty piece, in order and as often as it occurs, and nothing else; it yields nothing exactly when every piece is empty |
| Search.WordsShape | app.js:14-15 | the search words are exactly the non-empty pieces of the lowercased text split on spaces, in text order and with their multiplicity; they are space-free and lowercase, and there are none exactly when the text is all spaces |
| Search.MatchesIffSomeWordHits | app.js:77-84 | an entry matches exactly when some word is a substring of its lowercased title or of some link's lowercased url or category |
| Search.Keep | app.js:73-92 | the reference filter is a subsequence of its input that keeps only matching entries, and each matching entry as often as the input holds it |
| Search.KeepAppend | app.js:74-75 | filtering distributes over concatenation, which is what allows filtering category by category |
| Search.CategoryFilter | app.js:74-90 | filtering one category's pairs and then labelling them equals labelling them and then filtering |
| Search.FilterJobsIsKeep | app.js:73-92 | `filterJobs` equals the reference filter applied to the flattened catalog |
| Search.FilterJobsSpec | floating_vid_backup/2/app.js:71-90 | the search result is an order-preserving subsequence of the flattened catalog, holds only matching entries, and holds each matching entry as often as the catalog does |
| Paging.Slice | app.js:56 | `slice(lo, hi)` is empty from the end of the list on and otherwise holds the elements from `lo` up to `min(hi, length)` |
| Paging.LoadMoreStep | app.js:47-63 | the cursor stays consistent; once the active list is exhausted a load changes nothing; otherwise the index grows by exactly 20 and the display is the first `min(index, length)` entries of the active list |
| Paging.CommitSpec | app.js:18-28 | a blank search gives an empty filter and the first chunk of the full list; otherwise the filter is `filterJobs` of the words; zero matches leave the filter empty and show the full list; otherwise the first chunk of the matches is shown |
| Paging.CommitFilterIsSubsequence | app.js:23 | the filter a search leaves behind is a subsequence of the flattened catalog |
| Paging.FortyFiveEntries | app.js:56-60 | with 45 entries, loads display 20, 40 and 45 entries at index 20, 40 and 60, and a fourth load changes nothing |
| Rendering.RenderFromSpec | floating_vid_backup/2/app.js:95-111 | the rendered items list the entries in order, each under a heading of its own category, with a heading only where the category changes, and the last category is the one in effect at the end |
| Rendering.RenderFromUnique | floating_vid_backup/2/app.js:96-102 | any item list with those three properties is the rendered one, so the heading rule is fully determined |
| Rendering.RenderFromAppend | app.js:97-123 | rendering a list in two calls, the second starting from the category the first ended with, equals rendering it in one call |
| ReplacePage.LoadAndDisplayKeepsInv | floating_vid_backup/2/app.js:46-62 | a load keeps the list equal to the rendered displayed prefix and the label equal to the first displayed category |
| ReplacePage.StepKeepsInv | floating_vid_backup/2/app.js:13-28 | searches and scrolls keep the page invariant, and a search leaves the cursor that `Commit` describes |
| ReplacePage.RunKeepsInv | floating_vid_backup/2/app.js:324-327 | from the initial load through any events, the label is the first displayed entry's category once anything is displayed |
| ReplacePage.RevealMoreWhenExhausted | vids_auto_play/app.js:50-52 | scrolling once everything is shown changes nothing |
| AppendPage.LoadAndAppendKeepsInv | app.js:47-63 | appending a chunk extends the list by the chunk rendered from the stored category, which is then the chunk's last category |
| AppendPage.StepKeepsInv | app.js:97-126 | as written, the list is always the header rule applied to the displayed prefix from some starting category, and the stored category is where that rule ends |
| AppendPage.StepCorrectedKeepsInv | app.js:65-71 | when resets also clear the stored category, the list is always exactly the rendered displayed prefix |
| AppendPage.LoadedMatchesReplace | app.js:36-38 | after the initial load, appending shows the same list, cursor and label as the replace-render versions |
| AppendPage.ScrollMatchesReplace | app.js:97-99 | from pages that agree, a scroll leaves app.js and the replace-render versions showing the same list |
| AppendPage.StaleHeadingAfterSearch | app.js:26 | after loading one category with jobs `x` and `y` and searching `y`, the list shows `y` without its heading; with the corrected reset it starts with the heading |
| DockingPlayer.FloatSizeBounds | app.js:199-200 | the floating width is 200 to 320, exactly half the wrapper width rounded up in the 400 to 640 range, the height is 113 to 180, and `16·height` is within 8 of `9·width` |
| DockingPlayer.FloatSizeMonotone | floating_vid_backup/2/app.js:204 | a wider wrapper never gives a narrower floating box |
| DockingPlayer.BindSpec | app.js:270-278 | re-scanning binds each wrapper that has a thumbnail at most once, keeps earlier bindings, binds nothing else, and a second scan of the same wrappers changes nothing |
| DockingPlayer.BindCovered | app.js:276 | a scan of already-bound wrappers changes nothing |
| DockingPlayer.StepKeepsInv | app.js:156-294 | the active iframe always exists and is observed, ids are fresh, and no wrapper is bound twice |
| DockingPlayer.ClickHandOff | app.js:279-291 | a click pauses the attached active player, disconnects its observer and only then creates a fresh docked player, which becomes the one active player |
| DockingPlayer.ClickOnPlayedIgnored | app.js:185 | a wrapper whose thumbnail was replaced cannot start another player |
| DockingPlayer.OnlyActiveResponds | app.js:204-247 | observer callbacks and messages concerning any iframe but the active one change nothing |
| DockingPlayer.InactiveFrameKeepsMode | app.js:199-262 | under any event, an iframe that is not the active one keeps its mode and floating size, so a released floating iframe stays floating |
| DockingPlayer.ObserveActive | app.js:207-227 | the active iframe floats exactly when its wrapper is out of view; its floating size, the other iframes, the active and observed iframes, the bound and played wrappers and the id counter are unchanged |
| DockingPlayer.ReceiveSpec | app.js:242-262 | a message changes the controller only if it is non-empty JSON text with a truthy value from the attached active iframe that reports a pause, and then only docks that iframe |
| DockingPlayer.PauseShapes | app.js:250-251 | both player message shapes report a pause for state 2 and for no other state |
| DockingPlayer.ReleasedPlayerKeepsFloating | app.js:280-288 | as written, a floating player released by a click keeps floating beside the new active one |
| DockingPlayer.StepCorrectedKeepsOnlyActiveFloats | floating_vid_backup/2/app.js:304-313 | when the released player is redocked, no iframe in the document floats except the active one |
| ReturnToSpot.StepKeepsInv | floating_vid_backup/app.js:146-211 | the observer belongs to the current video, that video's style carries the stored size, and every other iframe is docked |
| ReturnToSpot.ReturnVideoToSpotSpec | floating_vid_backup/app.js:214-226 | returning docks the current video at its stored size, leaves nothing current and disconnects the observer, and does nothing when nothing is current |
| ReturnToSpot.FloatKeepsSize | floating_vid_backup/app.js:182-202 | floating and docking change only the mode of the current video's style, never its size |
| ReturnToSpot.NonCurrentKeepsStyle | floating_vid_backup/app.js:146-239 | under any click, observer callback or message, an iframe that is not the current video keeps its style |
| ReturnToSpot.StaleObserverIgnored | floating_vid_backup/app.js:184 | observer callbacks of iframes that are not current change nothing |
| ReturnToSpot.ReceiveSpec | floating_vid_backup/app.js:229-239 | the sender is ignored; an `infoDelivery` pause returns the current video, and every other message (not text, empty, not JSON, not a pause, or with nothing current) changes nothing, the `onStateChange` shape included |
| BodyFloat.StepKeepsInv | playing_vid_stays/app.js:147-204 | at most one iframe exists, it is the current one, and it is either on the body at 320 by 180 or in its wrapper at 560 by 315 |
| BodyFloat.ClickSpec | playing_vid_stays/app.js:152-176 | a click removes the previous player and leaves only the new one, docked in the clicked wrapper |
| BodyFloat.ObserveSpec | playing_vid_stays/app.js:179-199 | the current player is on the body exactly when its wrapper is out of view, and observers of old players change nothing |
| AutoPlay.DispatchSpec | vids_auto_play/app.js:149-165 | a batch sends, in order, play for intersecting and pause for other entries, up to the first removed iframe, where posting throws |
| AutoPlay.LastCommandFollowsLastSighting | vids_auto_play/app.js:146-168 | after any batch, each player seen among the entries before the first removed iframe was last told to play exactly when its last such entry was intersecting, and other players are untouched; with no removed iframe those entries are the whole batch |
| ClickEmbed.EmbedSrcRoundTrip | backup/app.js:145 | the video id can be read back from the embed address |
| ClickEmbed.ClickSpec | backup/app.js:139-152 | a click turns exactly the clicked wrapper into a player of its own video and leaves every other wrapper as it was |
| ClickEmbed.PlayersAccumulate | backup/app.js:138-155 | two clicks leave two players: nothing pauses or removes the first |
| VideoIds.ExtractVideoId | backup/app.js:168-171 | an unparsable address is an error; a non-empty `v` parameter is the id; otherwise the id is the last slash-free segment of the address |
| VideoIds.ShortLinkId | backup/app.js:170 | for an address without `v`, the id is whatever follows the last slash |

## Left out

- Loading `jobs.json`: the catalog is an input, and events before it loads are not modelled.
- HTML templates and `innerHTML`: the list is a sequence of heading and job items. Link, video and table markup are not modelled, and neither is escaping.
- Debounce timers and the scroll-bottom test: a committed search and a reveal-more request are plain events. The words are taken from the text at commit time.
- `IntersectionObserver`, `postMessage`, `event.source` and iframe `load` events are events carrying element identities. The `listening` and `addEventListener` commands sent on load are not modelled.
- `JSON.parse` and `URL`/`URLSearchParams` are abstracted: a message carries what parsing yields, and an address carries its `v` parameter or its rejection.
- Unicode case mapping: lowercasing covers ASCII letters only.
- ReplacePage.LoadAndDisplay and AppendPage.LoadAndAppend assume every video address in the catalog parses. In the source, `extractVideoId` throws on an address `new URL` rejects (app.js:304-305). The throw comes while the chunk is rendered (app.js:140), after `loadMoreJobs` has advanced `currentIndex` and `displayedJobs` (app.js:59-60). The replace versions then keep the previous list, and `app.js` keeps a partly appended chunk without its `lastCategory` update (app.js:106-123). The page invariants then no longer hold.
- Messages with a null `source` are not modelled. A removed iframe's `contentWindow` is null, so the model lets such an iframe match no sender.
- `Object.entries` ordering: each category's jobs are given in the order it yields them.
- Widths: wrapper widths are whole pixels and `Math.round` is modelled exactly.
- Styles: only docked or floating (or body or wrapper) and the pixel size are modelled.
- `Math.random` player ids: iframes get counter ids.
- Iframe reloads when an element is moved are not modelled.
- The 0.5 visibility threshold of `vids_auto_play/app.js` only decides when the browser delivers an entry. Which entries arrive is an input, and the threshold is not computed.
- The player controllers and the page models are separate. In the replace versions every load replaces `innerHTML` and so removes every player iframe inside the list (floating_vid_backup/2/app.js:113, floating_vid_backup/app.js:107, playing_vid_stays/app.js:109). `app.js` clears the list only at app.js:26 and app.js:69. `DockingPlayer`'s `ListCleared` event is not tied to those loads. `ReturnToSpot` and `BodyFloat` have no removal event at all, so a player that `playing_vid_stays/app.js` moved to the body surviving a re-render is not modelled either.
- In `floating_vid_backup/app.js` and `playing_vid_stays/app.js`, a wrapper without a thumbnail makes the binding loop throw. Re-rendering always produces thumbnails, so this never happens.

## Findings

| source | as written | input that shows it | evidently intended | confidence | as-written member | corrected member |
|---|---|---|---|---|---|---|
| app.js:26 | the search handler and `resetJobs` (app.js:69) clear the list but not `dataset.lastCategory`, so the first appended entry is compared with the category that ended the old list | one category `A` with jobs `x` and `y`; after loading, search `y`: `y` is appended with no `A` heading | a cleared list restarts the heading rule, as the replace-render versions do | high (not executed) | AppendPage.StaleHeadingAfterSearch | AppendPage.StepCorrectedKeepsInv |
| app.js:280-288 | the hand-off pauses the old player and disconnects its observer, but leaves its inline style alone, so a player floating in the corner stays there | click the thumbnail of wrapper 7, scroll it out of view, click the thumbnail of wrapper 8: the paused first player stays fixed in the corner | a released player returns to its wrapper; only the active player floats | medium (not executed) | DockingPlayer.ReleasedPlayerKeepsFloating | DockingPlayer.StepCorrectedKeepsOnlyActiveFloats |
