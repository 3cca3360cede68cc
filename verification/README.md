# Client rules of a blogging front end, in Dafny

The application is a community blog (posts with image galleries, likes,
bookmarks, comments, topics, messaging). Its browser script is almost all
DOM and REST glue; this project models the parts of `public/script.js` that
are sequential rules over strings, integers and lists, and proves what they
promise:

- **Thumbnail convention** (`Thumbnail`): `getThumbnailUrl` rewrites an
  upload URL `…/uploads/<name>` to `/uploads/thumbnails/thumb_<name>`, on
  top of an exact model of JavaScript's `split` and `includes` (`Strings`).
- **Feed image grid** (`Grid`): `generateImagesGrid` as a structure — tiles,
  the `grid-k` layout class and the "+N" overlay.
- **Post editor staging list** (`Staging`): the pixel limits of
  `checkImageDimensions`, batch admission for the file picker and the drop
  zones (cap of 15, 5 MB per file, all-or-nothing screening), appending the
  upload reply, `removeImage` with `splice` semantics, and the URL list sent
  by `submitPost`.
- **Submitting the editor** (`Editor`): the guards, create vs update, and the
  navigation afterwards.
- **Fullscreen gallery** (`Gallery`): wrap-around navigation of
  `showFullscreenImage` and the inputs that drive it.
- **Like / bookmark toggles** (`Reaction`): the single-flight flag as a state
  machine over clicks and replies.
- **Display helpers** (`Display`): `escapeHtml`, clamped counters, the
  "99+" badge, the 50-character preview and the relative-time buckets.

Server replies, file sizes, MIME types and decoded pixel sizes are inputs;
the signed-in user and the post being edited are fields of the modelled
state. Everything is pure functions over immutable datatypes.

## Model

| member | source | states |
|---|---|---|
| Strings.Split | public/script.js:908 | `split` with a non-empty separator: joining the parts with the separator gives the input back, no part contains the separator, a single part occurs exactly when the separator is absent, and every cut is at the first separator left of it: each part but the last, followed by the separator, has its first separator at its end |
| Strings.IndexOf | public/script.js:905 | the first occurrence: the returned position holds the pattern, no earlier position does, and none is returned exactly when the text does not contain it |
| Strings.ContainsFacts | public/script.js:905 | `includes` finds the empty pattern and every prefix, never a pattern longer than the text, and answers yes exactly when `indexOf` finds a position |
| Strings.ReplaceAll | public/script.js:1551 | a global one-character replace: every character of the result comes from the text or the replacement, every other character of the text survives, and the pattern character is gone when the replacement lacks it |
| Strings.ReplaceAllOfOne | public/script.js:1551 | a one-character text becomes the replacement iff it is the pattern, and stays itself otherwise |
| Strings.ReplaceAllAppend | public/script.js:1551 | replacing in a concatenation equals concatenating the replaced halves, which with the one-character case fixes the replace exactly |
| Strings.ReplaceAllAbsent | public/script.js:1551 | replacing a character that does not occur leaves the text unchanged |
| Thumbnail.ThumbnailUrl | public/script.js:901-914 | empty URLs, URLs containing `/thumbnails/`, URLs without `/uploads/` and URLs with a second `/uploads/` after the first are returned unchanged; otherwise the result is `/uploads/thumbnails/thumb_` plus the text after the first `/uploads/`, dropping what precedes it; any changed URL contains `/thumbnails/` |
| Thumbnail.ThumbnailIdempotent | public/script.js:905-911 | rewriting a rewritten URL changes nothing |
| Thumbnail.ThumbnailOfUpload | public/script.js:907-911 | for a slash-free host and file name, `host/uploads/name` becomes `/uploads/thumbnails/thumb_name` |
| Grid.ImagesGrid | public/script.js:916-936 | a missing or empty list gives no grid; otherwise min(N,5) tiles in input order, each showing its image's thumbnail and numbered from 1, layout class min(N,5), and an overlay exactly on tile 5 when N>5, carrying N−5 |
| Grid.GridAccountsForEveryImage | public/script.js:919-927 | drawn tiles plus the overlay count equal N, and the overlay is present exactly when N>5 |
| Grid.GridIgnoresPriorRewrite | public/script.js:925-926 | a grid built from thumbnail URLs equals the grid built from the originals |
| Staging.CheckDimensions | public/script.js:2332-2348 | an image fits iff it decoded, both sides are at most 10000 and the area at most 25,000,000; an over-long side is reported as such even when the area is also too big; a decoding error is a rejection |
| Staging.DimensionCheckMonotone | public/script.js:2332-2345 | shrinking either side of a fitting image keeps it fitting |
| Staging.DimensionLimitsAreIndependent | public/script.js:2332-2345 | 10000×10000 fails only the area limit, 10001×1 only the side limit, and 20000×20000 reports the side |
| Staging.FirstRejectionFrom | public/script.js:3131-3149 | screening finds nothing iff every file is at most 5 MB and fits; otherwise it reports the first failing file, size before dimensions |
| Staging.RejectionOf | public/script.js:3131-3146 | the alert names the failing file's position; it is the 5 MB alert iff the file is over 5 MB, and otherwise the 25-megapixel alert iff the dimension check failed on pixel count, else the 10000-pixel side alert |
| Staging.ImageFiles | public/script.js:2996 | the drop filter keeps exactly the files whose type starts with `image/` and keeps a list of images as it is |
| Staging.ImageFilesOfOne | public/script.js:2996 | one file is kept iff its type starts with `image/` |
| Staging.ImageFilesAppend | public/script.js:2996 | filtering a concatenation is the concatenation of the filtered halves, which with the one-file case determines the filter as order-preserving selection |
| Staging.Admit | public/script.js:3122-3149 | an admitted batch fits in 15 minus the staged count, holds only acceptable files, is the picked list (picker) or the non-empty image subset (drop); a drop with no images is refused first; too many files, or any failing file that is screened, refuses the batch, and in a batch that fits, the first failing file's alert is the refusal; a drop with images, or any picked batch, that exceeds the room is refused as too many before any screening; conversely a picked batch that fits and is all acceptable, or a drop whose non-empty image subset fits and is all acceptable, is uploaded as it is |
| Staging.ApplyReply | public/script.js:3153-3161 | a failed upload leaves the list alone; a reply appends one `{original, thumbnail}` pair per returned image, in order, after the untouched earlier entries |
| Staging.HandleBatch | public/script.js:3122-3170 | a request is sent exactly when `Admit` uploads, carrying its batch; otherwise the refusal is `Admit`'s reason and the staged list is unchanged; an accepted batch stages the reply; the list stays within 15 when the server returns no more images than were sent |
| Staging.CapAdmitsFifteenthNotSixteenth | public/script.js:3124-3129 | a fitting image is admitted onto 14 staged images and refused onto 15 with no room left |
| Staging.PickerGuardMatchesCap | public/script.js:2970-2976 | the placeholder opens the picker exactly when a picked file could still be admitted: while it stays shut a one-file batch is refused as too many, and while it opens an acceptable file is admitted |
| Staging.SpliceStart | public/script.js:3189 | `splice` start: an index in range is used as is, a negative index counts from the end, the start never passes the end |
| Staging.Remove | public/script.js:3188-3189 | removing index i of a list drops exactly entry i, shortening it by one and keeping the others in order; an index past the end changes nothing |
| Staging.RemoveKeepsTheRest | public/script.js:3189 | the removed list plus the removed entry is the original multiset |
| Staging.RemoveUndoesAppend | public/script.js:3189 | removing the entry just appended restores the list |
| Staging.SentUrls | public/script.js:3222-3224 | the sent list has the staged list's length and order; strings are kept, pairs become their original |
| Staging.LoadForEdit | public/script.js:2923-2925 | editing an existing post stages one string entry per stored URL |
| Staging.EditRoundTrip | public/script.js:3222-3224 | the URLs of an edited post staged as strings are sent back unchanged |
| Staging.SentUrlsAfterUpload | public/script.js:3155-3159 | after an upload, the sent list is the earlier URLs followed by the server's URLs |
| Staging.SentUrlsAfterRemove | public/script.js:3189 | removing then normalising equals normalising then removing |
| Editor.Submit | public/script.js:3205-3237 | an empty title or an empty staged list stops before any request; a signed-out submit stops with the missing-user error; otherwise a request is sent iff a user is signed in, an update of the edited post when an editing id is set and a create otherwise, carrying the title, content, topic, author and normalised image list |
| Editor.AfterSubmit | public/script.js:3239-3260 | a thrown request alerts; a create goes to the author's profile; an update re-opens the viewer iff the editor came from it, clearing that flag, and reloads otherwise |
| Editor.ProfileOnlyAfterCreate | public/script.js:3214-3260 | for every form that is sent and answered, the author's profile opens iff no post was being edited |
| Editor.NewPostExample | public/script.js:3205-3247 | title "Test", topic "3" and one uploaded image create a post with the original URL and lead to the author's profile |
| Editor.ResaveKeepsImages | public/script.js:3222-3234 | re-saving an edited post sends an update with its own image URLs |
| Gallery.Open | public/script.js:3685-3702 | an empty list leaves the viewer untouched; otherwise it opens on the given list and start index |
| Gallery.Close | public/script.js:3704-3710 | closing keeps the list and index |
| Gallery.Show | public/script.js:3712-3727 | an index below 0 becomes the last, an index at or past the end becomes 0, an index in range is kept, and the stored index always lies in range when there are images |
| Gallery.Next | public/script.js:3744-3746 | the next button keeps the list and open flag and moves a well-placed index to (i+1) mod len |
| Gallery.Prev | public/script.js:3740-3742 | the previous button keeps the list and open flag and moves a well-placed index to (i−1) mod len |
| Gallery.PrevUndoesNext | public/script.js:3740-3746 | previous after next, and next after previous, return to the same image |
| Gallery.ForwardCycles | public/script.js:3744-3746 | n forward steps from image i show image (i+n) mod len |
| Gallery.BackwardCycles | public/script.js:3740-3742 | n backward steps from image i show image (i−n) mod len |
| Gallery.FullRoundReturns | public/script.js:3712-3719 | len steps in either direction return to the starting viewer |
| Gallery.Handle | public/script.js:3736-3801 | inputs never change the list; while closed, keys and the wheel change nothing at all; the next button, and while open the right arrow and wheel-down, step forward; the previous button, and while open the left arrow and wheel-up, step back; the close button, the backdrop and (while open) Escape close it, keeping the list and index; a well-placed index stays well placed |
| Reaction.Press | public/script.js:1847-1860 | a click while in flight is ignored with nothing changed; a signed-out click prompts sign-in and leaves the flag clear; a request is sent iff not in flight and signed in, setting the flag |
| Reaction.Run | public/script.js:1847-1944 | replaying clicks and answers never sends more requests than there were events, never changes which post or viewer post the page shows or how many counters it holds, and an empty run changes nothing |
| Reaction.ShowReply | public/script.js:1885-1935 | a success writes the server's state and count (absent = 0) into the card, into the viewer only when it shows the same post, and into the other feed controls only for likes |
| Reaction.SettleAsWritten | public/script.js:1873-1944 | as written: a non-2xx reply leaves the page and the flag untouched, a thrown error only clears the flag, a success writes the reply into the controls as `ShowReply` states and clears the flag |
| Reaction.Settle | public/script.js:1873-1944 | corrected: the flag is clear after every reply, failures change nothing else, and a success writes the reply into the controls as `ShowReply` states |
| Reaction.SettleDiffersOnlyInFlag | public/script.js:1877-1882 | the as-written and corrected endings agree except for the flag after a non-2xx reply |
| Reaction.CountIsServerAuthoritative | public/script.js:1885-1901 | after a success the controls do not depend on the counts shown before |
| Reaction.ClicksWhileBusyAreDropped | public/script.js:1848 | while in flight, any run of clicks sends nothing and changes nothing |
| Reaction.BurstSendsAtMostOne | public/script.js:1848-1849 | any burst of clicks with no answer in between sends at most one request |
| Reaction.StuckAfterHttpError | public/script.js:1877-1882 | as written, after one non-2xx reply no later click sends a request |
| Reaction.ClickAfterAnswerIsServed | public/script.js:1938-1942 | with the flag always released, a click after any answer sends a second request |
| Reaction.FailureKeepsControls | public/script.js:1873-1944 | a failed request leaves every control as it was in both readings |
| Display.EscapeHtml | public/script.js:1550-1552 | the escaped text contains no double or single quote |
| Display.EscapeIsPerCharacter | public/script.js:1551 | the two global replacements equal replacing each character on its own (`"` by `&quot;`, `'` by `&#39;`) |
| Display.EscapeKeepsQuoteFreeText | public/script.js:1551 | text without quotes is unchanged |
| Display.Decrement | public/script.js:1821 | the decremented counter is never negative and is n−1 for n ≥ 1 |
| Display.SubscriberCount | public/script.js:3310 | subscribing adds one; unsubscribing subtracts one from a count of at least 1 and shows 0 from a count of 1 or less |
| Display.SubscribeThenUnsubscribe | public/script.js:3310 | subscribing then unsubscribing restores a non-negative count |
| Display.UnreadBadge | public/script.js:3938-3945 | no badge for a count ≤ 0, the number for 1..99, "99+" above 99 |
| Display.BadgeIsMonotone | public/script.js:3938-3945 | more unread items never show a smaller badge (none < 1..99 < "99+") |
| Display.Preview | public/script.js:3398-3400 | an empty message shows the placeholder; a message of more than 50 characters becomes its first 50 plus "...", 53 in all; shorter ones are kept |
| Display.PreviewIsIdempotent | public/script.js:3398-3400 | a preview is its own preview, for every message |
| Display.FormatAge | public/script.js:1266-1277 | under a minute (or in the future) is "just now"; minutes 1–59, hours 1–23 and days 1–6 are the floor of the elapsed time in their bucket; a week or more shows the date |
| Display.AgeIsMonotone | public/script.js:1272-1277 | more elapsed time never gives a finer bucket |

## Left out

- Rendering: markup, CSS classes, preview tiles, counters in the DOM and
  `renderImagePreview`. After `removeImage` the previews of string entries
  show the stored URL itself rather than its thumbnail (public/script.js:3193);
  this presentation detail is not modelled.
- Network and storage: `fetch`, `uploadMultipleFiles`, `localStorage`,
  navigation. Their results are inputs: the signed-in user as an option, the
  upload reply as an optional image list, toggle replies as `Reply`.
- Per-file server rejections of an upload (`result.errors`) only raise an
  alert and are not modelled.
- Image decoding: width and height (or a decoding failure) are given.
- Alert and message texts, including the Russian time strings and the
  calendar date shown after a week; `FormatAge` returns the bucket only.
- `Display.Preview` counts characters, where the script counts UTF-16 code
  units; they differ for characters outside the Basic Multilingual Plane.
- `parseInt(text) || 0` of the counters: counters are given as integers.
- Global click dispatch, timers (search debounce, notification polling),
  the post viewer, comments, profiles, topics and messaging beyond the
  preview text.
- Gallery.Open: the start index is stored unchecked, as in the script; the
  viewer is assumed to find its DOM elements.
- Reaction.ShowReply: a like rewrites the counter of every element whose
  `onclick` text contains `toggleLike(<id>` (public/script.js:1932). The
  model takes that set as `copies` and does not derive it from the page. It
  may be empty, since the feed cards (public/script.js:1044, 2713) carry only
  a `data-id`. It may also hold controls of other posts whose id starts with
  the same digits (post 1 also matches posts 10–19). A thrown error after the
  DOM was partly updated is not modelled.
- Staging.HandleBatch: batches are handled one at a time. The script reads
  the staged count (public/script.js:3003, 3075, 3124) before it awaits the
  dimension checks and the upload, so two overlapping batches can together
  stage more than 15 images; that interleaving is not modelled.
- Reaction: the in-flight flag is one per kind for the whole page, as in the
  script, not one per post.
- Editor.AfterSubmit: the HTTP status of the create/update reply is never
  examined by the script, so any reply is treated as success, as modelled.

## Findings

| source | as written | input that shows it | evidently intended | confidence | as-written member | corrected member |
|---|---|---|---|---|---|---|
| public/script.js:1877-1882 | on a non-2xx reply `toggleLike` returns without resetting `isLiking` (and `toggleBookmark` likewise `isBookmarking`, public/script.js:1970-1973) | a signed-in click answered with status 500, then any further click | the flag is released on every exit, as on the success and error paths | medium, not executed | Reaction.StuckAfterHttpError | Reaction.ClickAfterAnswerIsServed |
