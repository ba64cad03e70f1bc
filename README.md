# MOC Content Strategy Hub: verified model of the dashboard logic

The Content Strategy Hub is a single-page dashboard. A ministry's media team uses it to list, add, edit and delete news items, and to follow milestone KPIs. This project models the logic inside that application, with proofs:

- **The application shell** (`App.tsx`): an `AppController` class. It holds the loaded news items, the `loading` flag and the active tab. It has one method per handler: load, add, update, delete, tab switch, plus the wiring of the form's callbacks. Each method takes the store's reply as a parameter and reconciles the list from it: prepend the echoed row, replace by id, or filter out by id. On a failed add, update or delete it raises an alert and leaves the list alone. The add handler uses the corrected reconciliation of the one entry under "## Findings"; the code as written is modelled beside it. The list transformations are pure functions in `NewsList`.
- **The dashboard arithmetic** (`components/Dashboard.tsx`): the milestone percentage, the colour of the progress bar, the chart rows, and the guard that shows "no live data". Values are integers, and the percentage is computed exactly. `Math.round(100*c/t)` for `t > 0` is `(200*c + t) / (2*t)` with floor division. The colour thresholds are cross-multiplied comparisons.
- **The daily-operations form** (`components/DailyOps.tsx`): a `DailyOpsForm` class. It holds the modal flag, the item being edited and the draft. Its methods are open-add, open-edit, submit, close, and the three field editors. The form has controls only for summary, category and status; content type and date keep the value they were seeded with. The insert and update payloads are pure functions.
- **The `manualChunks` hook** (`vite.config.ts`): the function that maps a module id to a bundle chunk name. It is modelled as a pure string function that returns no chunk, a chunk name, or the TypeError it throws.

Files: `records.dfy` (record shapes), `news_list.dfy`, `app.dfy`, `dashboard.dfy`, `daily_ops.dfy`, `vite_config.dfy`.

In these places the model follows the code:

- A failed load leaves the previous list in place. It does not empty it.
- A successful insert reconciles from the echoed row only, never from the input.
- The percentage has no lower clamp, so a negative current value can show a negative percentage.
- No pending count is computed.
- The chunk name stops at the next `/` or at the next `node_modules/`, whichever comes first, because `split('node_modules/')[1]` ends at a second `node_modules/`. `NextMarkerEndsChunk` states this: `node_modules/xnode_modules/y` goes to chunk `x`.

The colour of a progress bar follows the unrounded share, while its label is rounded. `ColourLagsRoundedLabel` shows that 199 of 200 reads "100%" on a blue bar.

## Model

| member | source | states |
|---|---|---|
| Records.WithId | App.tsx:44-48 | the inserted row carries the fresh id and exactly the fields of the new item (dropping the id gives the item back) |
| NewsList.CountId | App.tsx:93 | the number of items holding an id is at most the length, and is zero exactly when no item holds it |
| NewsList.PublishedCount | App.tsx:105 | the published count never exceeds the number of items; it equals it iff every item is published, and is zero iff none is |
| NewsList.PublishedCountAppend | App.tsx:105 | the published count of a concatenation is the sum of the counts |
| NewsList.AfterInsert | App.tsx:51-55 | a successful insert with an echoed row yields that row followed by the old list in order (length plus one); an error, a null echo or an empty echo leaves the list exactly as it was |
| NewsList.AfterInsertAsWritten | App.tsx:51-52 | as written, a truthy `data` always adds one entry, so the length grows by one even for an empty echo |
| NewsList.EmptyEchoLeavesUndefinedHead | App.tsx:51-52 | as written, a successful insert echoing an empty array raises no alert and puts an undefined entry at the head of the list, followed by the old list |
| NewsList.AfterInsertCorrectsOnlyEmptyEcho | App.tsx:51-55 | the corrected add agrees with the code as written on every reply except a successful empty echo |
| NewsList.ReplaceById | App.tsx:77 | the update keeps length and order; every item with the updated id becomes the updated item, every other item is unchanged |
| NewsList.ReplaceByIdKeepsIds | App.tsx:77 | the ids stay where they were, so unique ids stay unique |
| NewsList.ReplaceByIdIdempotent | App.tsx:77 | applying the same update twice is the same as applying it once |
| NewsList.ReplaceByIdAbsent | App.tsx:77 | updating an id no item holds leaves the list unchanged |
| NewsList.RemoveById | App.tsx:93 | after a delete, an item is present iff it was present and has a different id; the length drops by the number of items holding the id |
| NewsList.RemoveByIdAppend | App.tsx:93 | the filter keeps the original order: it distributes over concatenation |
| NewsList.RemoveByIdAbsent | App.tsx:82-95 | deleting an id no item holds leaves the list unchanged |
| NewsList.RemoveByIdKeepsUnique | App.tsx:93 | deleting keeps ids unique |
| NewsList.DeletePresentUniqueDropsOne | App.tsx:93 | with unique ids, deleting a present id removes exactly one item |
| NewsList.RemoveAfterReplace | App.tsx:77-93 | deleting an id after updating it gives the same list as deleting it directly |
| NewsList.PatchTouchesOnlySentColumns | App.tsx:62-70 | the stored row keeps its id, timestamp and highlight flag and takes the six sent columns; it equals the local copy iff the updated item agrees with it on id, timestamp and highlight |
| App.AppController.constructor | App.tsx:19-21 | the shell starts on the dashboard tab, with no items and loading |
| App.AppController.FetchData | App.tsx:28-41 | a successful load replaces the list wholesale by the rows (null gives empty); an error leaves it; loading is false afterwards |
| App.AppController.AddNews | App.tsx:44-56 | sends the new item with the fresh id; alerts iff no row was echoed; the new list is the echoed row before the old list, or the old list on failure |
| App.AppController.UpdateNews | App.tsx:59-79 | sends only the six update columns; alerts iff the write failed; on success replaces by id, otherwise leaves the list |
| App.AppController.DeleteNews | App.tsx:82-95 | alerts iff the write failed; on success no item with the id remains and the rest are filtered in order; otherwise the list is unchanged |
| App.AppController.SelectTab | App.tsx:134-144 | switching tabs changes only the active tab |
| App.AppController.SubmitForm | App.tsx:109-114 | a form submission runs exactly the add or the update handler that its request names, and nothing when the browser blocks an empty summary; it returns the row sent with the fresh id or the patch sent, and the handler's alert; the modal closes exactly when the submission went through |
| App.AppController.ConfirmDelete | components/DailyOps.tsx:81-85 | without confirmation nothing is deleted and nothing is alerted; with it the delete handler runs |
| App.AppController.RenderContent | App.tsx:97-124 | while loading only the placeholder is produced; otherwise the active tab's view, the dashboard with the published count of the items (never above their number) and never the no-data screen |
| App.EditedItemMatchesStore | App.tsx:62-70 | after an edit from the form, the row in the store equals the item the shell keeps |
| App.SubmittedAddBecomesHead | App.tsx:44-52 | an add from the form whose row is echoed becomes the first item, carrying the fresh id and the draft, with the old list behind it |
| Dashboard.RoundedPercent | components/Dashboard.tsx:60 | the result is the integer nearest to 100 * current / target, halves rounded up, as `Math.round` does |
| Dashboard.Percentage | components/Dashboard.tsx:60 | the percentage is at most 100; 0 when the target is not positive; exactly 100 when current reaches a positive target; not negative for a non-negative current value |
| Dashboard.PercentageMonotone | components/Dashboard.tsx:60 | a larger current value never shows a smaller percentage |
| Dashboard.PercentageFullIff | components/Dashboard.tsx:60 | the label reads 100 iff the share is at least 99.5% |
| Dashboard.NegativeCurrentNotClamped | components/Dashboard.tsx:60 | a negative current value shows at most 0, and below -0.5% a negative percentage (no lower clamp) |
| Dashboard.ProgressColour | components/Dashboard.tsx:14-19 | green iff the target is positive and reached; blue iff half but not all of a positive target is reached; amber otherwise, including every non-positive target |
| Dashboard.ColourAgreesWithLabelAtTheEnds | components/Dashboard.tsx:60-79 | a green bar always reads 100%, and a bar reading below 50% is always amber |
| Dashboard.ColourLagsRoundedLabel | components/Dashboard.tsx:60-79 | the colour and the rounded label disagree near the thresholds: 199/200 reads 100% on blue, 99/200 reads 50% on amber |
| Dashboard.ChartData | components/Dashboard.tsx:21-25 | one chart row per milestone, in order, with the milestone's name, current value and target |
| Dashboard.ChartDataAppend | components/Dashboard.tsx:21-25 | the chart rows of a concatenation are the concatenated rows |
| Dashboard.Render | components/Dashboard.tsx:28-82 | the no-data screen is shown iff both the roadmap and the milestones are empty; otherwise one bar per milestone, each at most 100% and reading 100% when green |
| DailyOps.EditPayload | components/DailyOps.tsx:62-67 | the update payload keeps the item's id, original text, highlight flag and timestamp and takes the five draft fields |
| DailyOps.AddPayload | components/DailyOps.tsx:68-75 | the insert payload is the draft plus original text equal to the summary, no highlight and the given timestamp |
| DailyOps.RequestFor | components/DailyOps.tsx:62-76 | a submission is an update iff an item is being edited, and then carries the edited item overlaid with the draft; otherwise an add of the insert payload |
| DailyOps.EditRoundTrip | components/DailyOps.tsx:46-67 | submitting an unchanged edit sends the item itself, and re-applying an item's own draft restores it |
| DailyOps.DeleteRequest | components/DailyOps.tsx:81-85 | the delete callback receives the id iff the user confirms |
| DailyOps.DailyOpsForm.constructor | components/DailyOps.tsx:20-30 | the form starts closed, adding, with the default draft |
| DailyOps.DailyOpsForm.OpenAdd | components/DailyOps.tsx:33-43 | open-add clears the item being edited, resets the draft to empty summary, Economic, Video, Draft and the given day, and opens the modal |
| DailyOps.DailyOpsForm.OpenEdit | components/DailyOps.tsx:46-56 | open-edit remembers the item, copies its five draft fields and opens the modal |
| DailyOps.DailyOpsForm.Submit | components/DailyOps.tsx:59-78 | an empty summary blocks the submit (the textarea is required); otherwise exactly one request is built from the edited item and the draft, and the modal closes |
| DailyOps.DailyOpsForm.Close | components/DailyOps.tsx:149 | the close button only closes the modal |
| DailyOps.DailyOpsForm.SetSummary | components/DailyOps.tsx:157 | editing the summary changes only the summary |
| DailyOps.DailyOpsForm.SetCategory | components/DailyOps.tsx:168 | editing the category changes only the category |
| DailyOps.DailyOpsForm.SetStatus | components/DailyOps.tsx:180 | editing the status changes only the status |
| ViteConfig.IndexOf | vite.config.ts:35 | the result is the first position where the pattern occurs, and none exactly when it does not occur |
| ViteConfig.UpTo | vite.config.ts:35 | `split(sep)[0]`: the prefix before the first occurrence of the separator (no occurrence within it), or the whole text exactly when the separator does not occur |
| ViteConfig.SecondPiece | vite.config.ts:35 | `split(sep)[1]` is undefined exactly when the separator does not occur; otherwise it is the text after the first occurrence, up to the next one |
| ViteConfig.BeforeSlash | vite.config.ts:35 | `split('/')[0]` is a `/`-free prefix that ends at the end of the text or at a `/` |
| ViteConfig.ManualChunks | vite.config.ts:32-37 | no chunk iff the id has no `node_modules`; a crash iff it has `node_modules` but never `node_modules/`; a chunk name never contains `/` |
| ViteConfig.MarkerContainsDir | vite.config.ts:33-35 | an id containing `node_modules/` contains `node_modules`, so it never gets no chunk |
| ViteConfig.ChunkAfterFirstMarker | vite.config.ts:35 | the chunk name is a `/`-free prefix of the text after the first `node_modules/`, ending at its end, at a `/`, or at the next `node_modules/`, with no `node_modules/` starting inside it |
| ViteConfig.SegmentChunk | vite.config.ts:35 | `pre/node_modules/seg/post` goes to chunk `seg` (less a trailing `node_modules`) whatever `post` is, when `pre` has no `node_modules/` and `seg` has no `/` |
| ViteConfig.PackageChunk | vite.config.ts:35 | `pre/node_modules/seg/post` goes to chunk `seg` when `pre` has no `node_modules/` and `seg` has no `/` and no `node_modules` |
| ViteConfig.ScopedPackageChunk | vite.config.ts:35 | a scoped package `pre/node_modules/@scope/pkg/...` goes to chunk `@scope` when `pre` has no `node_modules/`, the scope has no `/`, and `@scope` does not end in `node_modules` |
| ViteConfig.SamePackageSameChunk | vite.config.ts:35 | two ids that agree up to and including a `/`-free package segment map to the same chunk |
| ViteConfig.NextMarkerEndsChunk | vite.config.ts:35 | a second `node_modules/` right after a `/`-free segment ends the chunk name there |

## Left out

- The hosted database client, its network, auth and query behaviour. Each call is a reply value passed in (`LoadResult`, `InsertResult`, `WriteResult`). The `order('date', descending)` of the load is the store's job, and the rows are taken as given.
- `crypto.randomUUID` and `new Date()`: the fresh id, the day and the timestamp are parameters. Id uniqueness is not enforced by the code, so the lemmas that need it take `UniqueIds` as a hypothesis.
- `alert`, `console.error` and `window.confirm`: an alert is a returned boolean, and the confirmation is a boolean input.
- Asynchronous interleaving: overlapping handlers, a state update after unmount, and the `await` inside submit. Each handler runs to completion in one step.
- Floating point: milestone values are integers, and the percentage and colour use exact integer arithmetic. The source computes `(c / t) * 100` in doubles, which can differ from the exact value at a .5 boundary. Non-integer milestone values are not modelled.
- The `default` branch of `renderContent` (App.tsx:121-122) cannot be reached, because the tab type has three values.
- `services/geminiService.ts` (an external generative-AI call; it throws when the key is missing), `components/Archive.tsx` (rendering only), JSX, styling, charts and icons.
- The rest of the bundler configuration: server, plugins, define, alias and the chunk size limit.
- App.AppController.AddNews: reconciles with the corrected `NewsList.AfterInsert`, so on an insert reply with no error and `data = []` it alerts and keeps the list, where App.tsx:51-54 prepends `undefined` without an alert; that behaviour is `NewsList.AfterInsertAsWritten`.
- `types.ts` is not part of this model. The record fields follow their use in the modelled files.

## Findings

| source | as written | input that shows it | evidently intended | confidence | as-written member | corrected member |
|---|---|---|---|---|---|---|
| App.tsx:51-52 | `if (!error && data)` prepends `data[0]`; an empty array is truthy, so `data[0]` is `undefined` | an insert reply with no error and `data = []` | treat an empty echo like a failed insert: alert and keep the list | low (depends on the store ever echoing no row without an error); not executed | NewsList.EmptyEchoLeavesUndefinedHead | NewsList.AfterInsert |
