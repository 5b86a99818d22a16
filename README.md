# Excel image embedder — a Dafny model

The server takes an uploaded `.xlsx` workbook and scans every cell for
text that starts with `http` and names an image file (`jpg`, `jpeg`,
`png`, `gif`, `webp`). It downloads each such url in batches of ten, with
three attempts per download, and anchors each downloaded picture over the
cell that held its link. The cell's value then becomes null. The workbook
is written back, and every stage is reported to the subscribers of a
progress id over server-sent events. On the browser side, two small
configuration files pick an environment from the hostname and build the
upload url.

This project models that core in Dafny, module by module:

| file | module | what it models |
|---|---|---|
| `extension.dfy` | `ImageExtension` | `getImageExtensionFromUrl`, with Node's `path.extname` written out |
| `progress_bus.dfy` | `ProgressBus` | `updateProgress`, the SSE subscribe/close bookkeeping and the delayed teardown. It is a class `Bus` whose fields hold the two kinds of `progressMap` entry it uses: the latest event per id and the `<id>_connections` lists. |
| `workbook.dfy` | `Workbook` | the parts of an ExcelJS workbook the router touches: sheets, sparse rows, cells, media, anchors |
| `link_scan.dfy` | `LinkScan` | the scan that builds `imageCellMap` and `imageTasks` |
| `download.dfy` | `Download` | `downloadImageBuffer` (retry loop), the batching and the download progress |
| `percent.dfy` | `Percent` | the two progress formulas |
| `embed.dfy`, `embed_facts.dfy` | `Embed`, `EmbedFacts` | the counting loop and the embedding loop, and what they do to the workbook |
| `pipeline.dfy` | `Pipeline` | `processExcelWithImages` end to end, and the `/upload` route |
| `env_manager.dfy` | `EnvManager` | `EnvironmentManager` in `frontend/src/env-manager.js`. It is a class whose `currentEnv` field `setEnvironment` updates. |
| `app_config.dfy` | `AppConfig` | `frontend/src/config.js` |
| `strings.dfy`, `wrappers.dfy` | `Strings`, `Wrappers` | `startsWith`, `includes`, ASCII `toLowerCase`, `lastIndexOf`; `Option` |

## Parameters for the outside world

- **URL parsing.** `new URL(text)` is a parameter `parse: string -> Option<Url>`; None stands for a throw.
- **Network.** Each task's attempts are a parameter `net(k): nat -> Attempt`, where attempt j either answers with bytes or throws with a message.
- **Completion order.** The order in which the downloads of batch b finish is `orders(b)`, a permutation of the batch's positions.
- **ExcelJS failures.** A failure of ExcelJS on embedding job k is `fault(k)`:
  - `workbook.addImage` throws: nothing is added;
  - `worksheet.addImage` throws: the media entry is added, but no anchor is and the cell keeps its value;
  - otherwise nothing throws.
- **Reading and writing.** A workbook that cannot be read is `None`. Whether `writeFile` succeeds is a boolean.
- **Hostname.** The hostname is a parameter in place of `window.location.hostname`.

## Model

| member | source | states |
|---|---|---|
| `ImageExtension.GetImageExtensionFromUrl` | src/router/excelImage.cjs:92-101 | A parse failure gives null. Any result is one of the five whitelisted lower-case extensions. |
| `ImageExtension.ExtensionOfPath` | src/router/excelImage.cjs:95-97 | `extname(pathname).toLowerCase().replace('.', '')`, kept only when whitelisted; a result is always in the whitelist. |
| `ImageExtension.Extname` | src/router/excelImage.cjs:95 | Node's `path.extname` is empty or starts with a dot. |
| `ImageExtension.ExtnameShape` | src/router/excelImage.cjs:95 | A non-empty extname ends the base name and holds no further dot, so it runs from the base name's last dot. |
| `ImageExtension.ExtensionOfFileName` | src/router/excelImage.cjs:95-97 | For a path whose last file name is `stem.x` (any directory, trailing slashes allowed), the result is `lower(x)` if whitelisted, else null. |
| `ImageExtension.ExtensionShape` | src/router/excelImage.cjs:95-97 | Conversely, every accepted pathname has that shape, and the result is the lower-cased text after its last dot. |
| `ImageExtension.ExtensionOfExtname` | src/router/excelImage.cjs:95-97 | The result depends only on `extname`: `.x` gives `lower(x)` when that is whitelisted. |
| `ImageExtension.NoExtnameNoExtension` | src/router/excelImage.cjs:95-97 | An empty `extname` gives null. |
| `ImageExtension.ExtensionNeedsExtname` | src/router/excelImage.cjs:95-97 | Any accepted pathname has a non-empty `extname`. |
| `ImageExtension.WhitelistedLength` | src/router/excelImage.cjs:96 | Every whitelisted extension has at least three letters. |
| `ImageExtension.ExtnameLower` | src/router/excelImage.cjs:95 | `extname` commutes with lower-casing. |
| `ImageExtension.CaseInsensitive` | src/router/excelImage.cjs:95 | Lower-casing the pathname first never changes the answer. |
| `ImageExtension.PhotoPngWithQuery` | src/router/excelImage.cjs:94-97 | `…/photo.PNG` gives `png` whatever the query string and fragment, since only the pathname is read. |
| `ImageExtension.TextFileRejected` | src/router/excelImage.cjs:96-97 | `…/file.txt` gives null. |
| `ImageExtension.DotFileRejected` | src/router/excelImage.cjs:95-97 | A dot-file such as `.png` has no extension and gives null. |
| `ProgressBus.Clamp` | src/router/excelImage.cjs:26 | The stored percentage is always in [0, 100]. A value already in range is kept; below 0 gives 0; above 100 gives 100. |
| `ProgressBus.ConnectedEvent` | src/router/excelImage.cjs:56-62 | The greeting has stage `connected`, percentage 0 and the subscriber's id. |
| `ProgressBus.IndexOf` | src/router/excelImage.cjs:79 | `indexOf` returns -1 exactly when the handle is absent; otherwise it returns the first position holding it. |
| `ProgressBus.SpliceRemovesHandle` | src/router/excelImage.cjs:79-82 | `splice(index, 1)` on a list with distinct handles removes exactly one entry, leaves no entry with that handle, and keeps the handles distinct. |
| `ProgressBus.Bus.constructor` | src/router/excelImage.cjs:13 | The map starts empty. |
| `ProgressBus.Bus.Greeting` | src/router/excelImage.cjs:55-74 | A new subscriber is first sent `connected`, then the stored latest event if there is one, and nothing else. |
| `ProgressBus.Bus.UpdateProgress` | src/router/excelImage.cjs:21-40 | The clamped event replaces the latest one for the id. It is appended to the outbox of every unfinished connection of that id. Finished connections and other ids are untouched. |
| `ProgressBus.Bus.Subscribe` | src/router/excelImage.cjs:43-74 | The new response joins the end of the id's list with the greeting in its outbox. The latest events do not change. |
| `ProgressBus.Bus.Close` | src/router/excelImage.cjs:77-85 | The one connection with that handle is removed. Afterwards no connection of the id has that handle. An unknown handle changes nothing. |
| `ProgressBus.Bus.Teardown` | src/router/excelImage.cjs:312-321 | Every connection of the id ends finished, and the id's list is deleted. |
| `ProgressBus.LateSubscriber` | src/router/excelImage.cjs:21-74 | A subscriber that arrives after `complete` receives exactly the greeting and the stored completion event. |
| `ProgressBus.CloseTwice` | src/router/excelImage.cjs:21-85 | A registered subscriber receives the update clamped from 250 to 100. After closing it is gone, and a second close changes nothing. |
| `Workbook.CellText` | src/router/excelImage.cjs:152-153 | `cell.value?.text ?? cell.value` is a string exactly for a string value, or an object with string `text`. |
| `Workbook.SetValue` | src/router/excelImage.cjs:262 | `cell.value = null`: the target cell gets the new value. No cell appears or disappears, and the media and anchors are unchanged. |
| `Workbook.SetValueOtherCell` | src/router/excelImage.cjs:262 | Every other cell is unchanged. |
| `Workbook.AddMedia` | src/router/excelImage.cjs:241-244 | `workbook.addImage` appends one media entry and changes nothing else. |
| `Workbook.AddAnchor` | src/router/excelImage.cjs:250-260 | `worksheet.addImage` appends one anchor to that sheet only. Cells and media are unchanged. |
| `Workbook.AddAnchorCell` | src/router/excelImage.cjs:250-260 | Every cell keeps its contents when an anchor is added. |
| `LinkScan.CellRef` | src/router/excelImage.cjs:152-158 | A registration records the cell's own position, text that starts with `http` as its url, and a whitelisted extension. A cell without string text is never registered. |
| `LinkScan.CellRefMeaning` | src/router/excelImage.cjs:152-159 | A cell is registered exactly when its text starts with `http` and its url has a whitelisted extension. The registration records that url, that extension and the cell's position. |
| `LinkScan.ScanRow` | src/router/excelImage.cjs:151-178 | The slot loop over one present row appends exactly that row's registrations to `imageCellMap` and `imageTasks`, skipping holes. |
| `LinkScan.ScanLinks` | src/router/excelImage.cjs:147-180 | The scan's loops build exactly `Index` and `Urls` of the registrations, in visiting order (sheet, row, slot), skipping missing rows and holes. |
| `LinkScan.IndexIsFilter` | src/router/excelImage.cjs:161-174 | A url is a key of `imageCellMap` exactly when some cell registers it. Its list is exactly those registrations, in order, so it is never empty. |
| `LinkScan.TaskCountIsListLength` | src/router/excelImage.cjs:161-176 | `imageTasks` holds each url as many times as its list has entries, and has one entry per registration. |
| `LinkScan.BookRefsOrdered` | src/router/excelImage.cjs:147-151 | Registrations come in strictly increasing (sheet, row, slot) order. |
| `LinkScan.ScanRegistersExactly` | src/router/excelImage.cjs:147-180 | A reference is registered exactly when it names a present cell whose value qualifies. |
| `LinkScan.ScanMapMeaning` | src/router/excelImage.cjs:147-180 | `x` is in the list of `u` exactly when `x.url == u` and `x`'s cell is present and registers `x`. |
| `LinkScan.RowAsWrittenMeaning` | src/router/excelImage.cjs:151-153 | The slot loop as written reads `cell.value` before `!cell`, so it fails exactly when the row has a hole. Otherwise it yields the row's registrations. |
| `LinkScan.SheetAsWrittenMeaning` | src/router/excelImage.cjs:148-153 | The row loop as written skips absent rows, and fails exactly when some present row has a hole. Otherwise it yields the sheet's registrations. |
| `LinkScan.BookAsWrittenMeaning` | src/router/excelImage.cjs:147-153 | The worksheet loop as written fails exactly when some sheet has a hole. Otherwise it yields the workbook's registrations. |
| `LinkScan.ScanAsWrittenMeaning` | src/router/excelImage.cjs:147-180 | The scan as written throws exactly when some present row has a hole. Otherwise it builds the same `imageCellMap` and `imageTasks` as `ScanLinks`. |
| `LinkScan.HoleAbortsScan` | src/router/excelImage.cjs:151-153 | A row with values in A1 and C1 but none in B1 makes the scan as written fail. Skipping the hole finds no link and lets the run complete. |
| `LinkScan.HoleHidesLinks` | src/router/excelImage.cjs:151-176 | In any workbook with a hole, the scan as written fails even though every image link in it is one the corrected scan registers. |
| `Download.FetchFrom` | src/router/excelImage.cjs:106-128 | The retry loop from attempt `from` on: the result always carries the requested url. |
| `Download.Fetch` | src/router/excelImage.cjs:104-133 | `undefined` exactly when `maxRetries <= 0`; any result carries the requested url. |
| `Download.FetchSucceedsAtFirstSuccess` | src/router/excelImage.cjs:106-117 | The first attempt that answers, if within budget, gives success with its bytes. |
| `Download.FetchSuccessHasAttempt` | src/router/excelImage.cjs:106-117 | A success always comes from an attempt within budget that only failures preceded. |
| `Download.FetchFailsOnlyAfterAllAttempts` | src/router/excelImage.cjs:118-128 | Failure happens exactly when all `maxRetries` attempts throw, and carries the last error. |
| `Download.DownloadImageBuffer` | src/router/excelImage.cjs:104-133 | The loop returns `Fetch`'s result after at most `maxRetries` requests. It stops at the first answer, and fails only after exactly `maxRetries` throws. |
| `Download.Batches` | src/router/excelImage.cjs:196-198 | `imageTasks.slice(i, i + 10)` for i = 0, 10, …: no batch exactly when there is no task, and never more batches than tasks. |
| `Download.BatchesFlatten` | src/router/excelImage.cjs:197-208 | Putting the batches back together gives `imageTasks`. |
| `Download.BatchesCount` | src/router/excelImage.cjs:197-198 | There are ceil(n/size) batches, and none when n is 0. |
| `Download.BatchSizes` | src/router/excelImage.cjs:197-198 | Every batch holds 1 to size tasks, and all but the last hold exactly size. |
| `Download.BatchAt` | src/router/excelImage.cjs:197-198 | Batch b is `imageTasks.slice(b*size, b*size+size)`. |
| `Download.TwelveTasks` | src/router/excelImage.cjs:196-198 | Twelve tasks run as ten, then two. |
| `Download.RunBatch` | src/router/excelImage.cjs:198-207 | In any completion order, a batch's results land in task order. The k-th download to finish overall reports `DownloadPercent(k, n)`. |
| `Download.DownloadAll` | src/router/excelImage.cjs:192-209 | `downloadResults` has one result per task, in task order, each being that url's retried download. The progress reports are 1..n of the download formula. |
| `Percent.DownloadPercentBounds` | src/router/excelImage.cjs:203 | Download progress lies in [20, 70] and is 70 at the last download (n > 0, guaranteed by the early return). |
| `Percent.DownloadPercentMonotone` | src/router/excelImage.cjs:203 | Download progress never decreases as the counter grows. |
| `Percent.EmbedPercentBounds` | src/router/excelImage.cjs:266 | Embed progress lies in [75, 90] and is 90 at the last reference. |
| `Percent.EmbedPercentMonotone` | src/router/excelImage.cjs:266 | Embed progress never decreases as the counter grows. |
| `Embed.Placement` | src/router/excelImage.cjs:246-260 | The anchor names the media index and puts its top-left corner on the cell (0-based column and row, one less than the cell's 1-based ones). It is 100 by 100 and `oneCell`. |
| `Embed.EmbedReports` | src/router/excelImage.cjs:262-267 | Only jobs that did not throw report, so there are never more reports than jobs. |
| `EmbedFacts.EmbedReportsCount` | src/router/excelImage.cjs:262-271 | With no throw there is one report per job. A job that did not throw reports `EmbedPercent(processed, total)` last. A job that threw adds no report. |
| `Embed.EmbedStep` | src/router/excelImage.cjs:235-272 | One reference stops at the first ExcelJS call that throws. It never adds or removes a cell. What it adds and clears is stated by `EmbedFacts.StepGrows`, `EmbedFacts.JobAnchored` and `EmbedFacts.ApplyCell`. |
| `Embed.Apply` | src/router/excelImage.cjs:228-274 | Running the jobs in order never adds or removes a cell. |
| `Embed.JobsPointInto` | src/router/excelImage.cjs:228-234 | Every job of a successful, mapped result names a present cell. |
| `Embed.ApplyStep` | src/router/excelImage.cjs:234-272 | One more job is one more `EmbedStep` on the workbook so far, with that job's fault. |
| `Embed.CountImagesToProcess` | src/router/excelImage.cjs:214-225 | `totalImagesToProcess` is the number of references of successful results whose url has a list, i.e. the number of jobs. |
| `Embed.EmbedOne` | src/router/excelImage.cjs:235-272 | The try/catch body performs exactly `EmbedStep`. |
| `Embed.EmbedJob` | src/router/excelImage.cjs:234-272 | One reference advances `processedImages` by one whether or not it throws. It reports progress only when nothing threw. |
| `Embed.EmbedReferences` | src/router/excelImage.cjs:234-273 | The inner loop runs the jobs of one result in list order. |
| `Embed.EmbedResult` | src/router/excelImage.cjs:228-233 | Failed results, and results whose url has no list, are skipped. |
| `Embed.EmbedImages` | src/router/excelImage.cjs:214-274 | The workbook after both loops is `Apply` of all jobs in order. `processedImages` ends equal to `totalImagesToProcess`. The reports are those of the jobs that did not throw. |
| `EmbedFacts.StepGrows` | src/router/excelImage.cjs:241-260 | One job appends at most one media entry, and none when `workbook.addImage` throws. Anchors are only appended. |
| `EmbedFacts.ApplyGrows` | src/router/excelImage.cjs:228-274 | From any prefix of the jobs to all of them, media and each sheet's anchors only grow. |
| `EmbedFacts.JobAnchored` | src/router/excelImage.cjs:241-260 | A job that did not throw leaves its bytes and extension at the media index it was given. It also leaves an anchor with that index over its original cell: (col-1, row-1), 100 by 100, `oneCell`. |
| `EmbedFacts.ApplyPlacement` | src/router/excelImage.cjs:246-255 | No cell moves, so a placement computed later uses the original row and column. |
| `EmbedFacts.ApplyCell` | src/router/excelImage.cjs:262 | After the pass every cell is still present with its row and column. Its value is null exactly when a job that did not throw targets it, and is unchanged otherwise. |
| `EmbedFacts.EmbedReportsRange` | src/router/excelImage.cjs:266-267 | The embedding reports lie in [75, 90] and never decrease. |
| `EmbedFacts.JobsOrigin` | src/router/excelImage.cjs:228-234 | Every job comes from a successful result whose url has a list containing the job's reference. |
| `EmbedFacts.DuplicateUrlEmbedsTwice` | src/router/excelImage.cjs:161-176 | A url in two cells gives two download tasks and one `imageCellMap` list holding both cells. Two successful downloads then give four jobs `[x, y, x, y]`, so each cell is the target of two jobs. |
| `EmbedFacts.JobsCover` | src/router/excelImage.cjs:228-234 | Every reference in the list of a successful result's url becomes a job with that result's bytes. |
| `Pipeline.ScanPointsInto` | src/router/excelImage.cjs:147-180 | Every reference in `imageCellMap` names a present cell. |
| `Pipeline.ProcessExcelWithImages` | src/router/excelImage.cjs:136-286 | The whole run gives `Output` and `Trace`: reading 10, scanning 20, then either complete 100 (no link) or the download, `downloaded` 75, the embedding, `saving` 95 and `complete` 100 after a successful write. An unreadable workbook gives nothing; a failed write gives no output. |
| `Pipeline.EmbedAndWrite` | src/router/excelImage.cjs:185-285 | After the scan: the early return when `imageTasks` is empty, else download, embed and write. |
| `Pipeline.DownloadAndEmbed` | src/router/excelImage.cjs:192-277 | Downloading then embedding gives `Embedded` and the reports between `scanning` and the write. |
| `Pipeline.HandleUpload` | src/router/excelImage.cjs:288-334 | The route's outcome is `UploadOutcome`. |
| `Pipeline.TraceProgress` | src/router/excelImage.cjs:141-283 | The run's percentages never decrease and stay in [10, 100]. Its last report is `complete` 100 exactly when the workbook was readable and either the write succeeded or there was no link. Whenever there is an output, the last report is `complete` 100. |
| `Pipeline.AfterScanProgress` | src/router/excelImage.cjs:185-283 | After the scan, progress climbs within [20, 100] and ends with `complete` unless a write with links failed. |
| `Pipeline.MiddleRange` | src/router/excelImage.cjs:192-277 | Between the scan and the write, progress climbs within [20, 95]. |
| `Pipeline.DownloadReportsRange` | src/router/excelImage.cjs:202-204 | The download reports never decrease and lie in [20, 70]. |
| `Pipeline.UploadProgress` | src/router/excelImage.cjs:288-334 | The route answers exactly when a file arrived. It stores a result, keeps the upload and schedules the teardown exactly when the run succeeded; its reports then never decrease from 5 and end with `complete` 100. Otherwise the last report is `error` 0 and the uploaded file is removed. |
| `Pipeline.NoLinkFailedWrite` | src/router/excelImage.cjs:185-189 | With no link and a failing write, subscribers see `complete` 100 followed by `error` 0. |
| `Pipeline.ClearedIsFetched` | src/router/excelImage.cjs:228-262 | A cell cleared by the pass held a registered image link whose download succeeded. |
| `Pipeline.FetchedIsCleared` | src/router/excelImage.cjs:228-262 | When no ExcelJS call throws, every cell holding a successfully downloaded image link is cleared. |
| `Pipeline.OnlyFetchedLinksChange` | src/router/excelImage.cjs:136-286 | In the written workbook every input cell is present with its row and column. A cell whose value changed became null and held a successfully downloaded image link; cells whose downloads failed keep their text. |
| `Pipeline.FetchedLinksCleared` | src/router/excelImage.cjs:136-286 | When nothing throws in the embedding loop, a cell is null afterwards exactly when it held a successfully downloaded image link (or was null before). Otherwise it keeps its value. |
| `Pipeline.NoLinksUnchanged` | src/router/excelImage.cjs:185-189 | A workbook without image links is written back unchanged. |
| `EnvManager.DetectEnvironment` | frontend/src/env-manager.js:35-57 | The result is always a key of `environments`. |
| `EnvManager.DetectEnvironmentCases` | frontend/src/env-manager.js:41-56 | `development` exactly for `localhost`/`127.0.0.1`. `testing` exactly for other hosts containing `test`. `staging` exactly for the remaining hosts containing `staging`. `production` otherwise. |
| `EnvManager.TestBeatsStaging` | frontend/src/env-manager.js:46-53 | Any non-local host containing both `test` and `staging` is a testing host, never a staging one. |
| `EnvManager.TestStagingHost` | frontend/src/env-manager.js:46-53 | `test.staging.example.com` is a testing host. |
| `EnvManager.SwitchAsWritten` | frontend/src/env-manager.js:60-67 | The guard as written: the result is the requested name exactly when the lookup is truthy, own key or inherited one (or the name is already current). Otherwise it is the current one. |
| `EnvManager.PrototypeKeySwitch` | frontend/src/env-manager.js:60-67 | As written, `setEnvironment("toString")` passes the guard. `currentEnv` then names no environment, and the upload url becomes `undefined/excel/upload`. |
| `EnvManager.Switch` | frontend/src/env-manager.js:60-67 | Switching yields either the requested name or the current one. |
| `EnvManager.SwitchKeepsKey` | frontend/src/env-manager.js:60-67 | With the own-key guard, `currentEnv` stays a key. A known name is taken exactly; an unknown one changes nothing. |
| `EnvManager.EnvironmentManager.constructor` | frontend/src/env-manager.js:3-32 | `currentEnv` is the detected environment, which is a key of `environments`. |
| `EnvManager.EnvironmentManager.SetEnvironment` | frontend/src/env-manager.js:60-67 | `currentEnv` becomes `Switch(old currentEnv, env)` and stays a key. |
| `EnvManager.EnvironmentManager.GetConfig` | frontend/src/env-manager.js:70-72 | Always one of the four configured entries, whose base url starts with `http://`. |
| `EnvManager.EnvironmentManager.GetCurrentEnvironment` | frontend/src/env-manager.js:75-77 | The current name, which is a key whose entry is `getConfig()`. |
| `EnvManager.EnvironmentManager.BuildApiUrl` | frontend/src/env-manager.js:80-83 | The result is the current base url followed by exactly the endpoint. |
| `EnvManager.EnvironmentManager.GetExcelUploadUrl` | frontend/src/env-manager.js:86-88 | The result is the current base url followed by `/excel/upload`. |
| `EnvManager.LocalUploadUrl` | frontend/src/env-manager.js:3-88 | A manager on `localhost` uploads to `http://localhost:3000/excel/upload`. |
| `EnvManager.SwitchThenUpload` | frontend/src/env-manager.js:60-88 | Switching to an unknown name keeps the upload url. Switching to `staging` moves it to the staging server. |
| `AppConfig.GetCurrentEnvironment` | frontend/src/config.js:21-40 | The result is always a key of `config`. |
| `AppConfig.CurrentEnvironmentCases` | frontend/src/config.js:25-32 | `development` exactly for local hosts, `testing` exactly for other hosts containing `test`, and `production` for all others. `staging` is never returned. |
| `AppConfig.GetConfig` | frontend/src/config.js:43-46 | Always a defined entry, whose upload path is `/excel/upload`. |
| `AppConfig.GetApiUrl` | frontend/src/config.js:49-52 | The result is the base url followed by `/excel/upload`, whatever the endpoint. |
| `AppConfig.ApiUrlIgnoresEndpoint` | frontend/src/config.js:49-52 | Two calls with different endpoints give the same url. |
| `AppConfig.AgreesWithManager` | frontend/src/config.js:2-52 | Wherever the manager would not pick staging, both files choose the same environment and the same upload url. |
| `AppConfig.StagingHostDiffers` | frontend/src/config.js:25-32 | On a host that mentions `staging` but not `test`, the manager picks staging, while this file uploads to production. |

## Left out

- Progress percentages are exact integer arithmetic. The source computes `Math.floor((k / n) * 50)` in IEEE doubles, which can be one below the exact value when `k / n` rounds down (for example k = 29, n = 50). The modelled values keep the bounds and the monotonicity the double-based ones have.
- Messages and timestamps are left out. The pipeline's reports are (stage, percentage); the Chinese message texts with their counters, and the ISO timestamps of events, are not modelled. The bus keeps a message field, which the pipeline does not fill.
- `Promise.all` concurrency is modelled as one completion order per batch; interleaving with other requests is not modelled.
- The 500 ms back-off between attempts and the 5000 ms teardown delay are left out; the teardown is modelled as scheduled (a flag) and as the `Bus.Teardown` operation.
- The Express routing, the multer upload, SSE headers and the `data: …` framing are left out. `res.json` is a `responded` flag.
- The download route (src/router/excelImage.cjs:337-378) is not part of this model.
- Temporary file names are not modelled: the output path, `Date.now()`/`Math.random()` progress ids and the `_result`/`_originalFile` entries. The stored result is the output workbook itself. Deleting the upload is a `removed` flag.
- ExcelJS reading and writing are left out, and so is every `addImage` detail beyond appending media and an anchor. Cell identity is the cell's position, which `imageCellMap` refers to.
- `EnvironmentManager.fetch`, `logEnvironmentInfo`, the `console` logging and the `window.*` globals are left out; they are browser I/O.
- `ImageExtension.GetImageExtensionFromUrl`: lower-casing is ASCII-only, which is exact for WHATWG pathnames (percent-encoded ASCII).
- `Pipeline.ProcessExcelWithImages` uses the corrected scan (`LinkScan.ScanLinks`). The failure the scan as written raises on a hole is modelled separately (`LinkScan.ScanAsWritten`, see Findings).
- `ProgressBus.Bus.Subscribe`: key collisions inside the single `progressMap` are not modelled. In the source, the latest events, `<id>_connections`, `<id>_result` and `<id>_originalFile` share one map (src/router/excelImage.cjs:30, 65-68, 308-309), and the subscribe route replays `progressMap.get(id)` for any id (71-74). So subscribing to `<id>_result` replays the stored output path, and subscribing to `<id>_connections` tries to serialise response objects. The model keeps latest events and connection lists in two separate maps and does not store the `_result`/`_originalFile` entries on the bus.
- `EnvManager.EnvironmentManager.SetEnvironment` uses the own-key guard. The guard as written is `EnvManager.SwitchAsWritten` (see Findings).

## Behaviour of the code worth knowing

- When the scan finds no link, `complete` 100 is reported before the workbook is written (src/router/excelImage.cjs:185-189). A failing write then makes the route report `error` 0 after `complete`, with no output (`Pipeline.NoLinkFailedWrite`).
- A cell's text is cleared only when both `addImage` calls succeed (src/router/excelImage.cjs:241-262). If `worksheet.addImage` throws, the media entry added by `workbook.addImage` stays and the cell keeps its text.
- A url that appears in N cells is pushed to `imageTasks` N times, so it is downloaded N times. Each successful download embeds into all N cells of its `imageCellMap` list, so every such cell is the target of N embedding jobs (`EmbedFacts.DuplicateUrlEmbedsTwice` shows N = 2).
- When `req.file` is missing, `req.file.path` throws before `res.json`. The route then sends no response and reports `error` 0 to a progress id nobody knows.

## Findings

| source | as written | input that shows it | evidently intended | confidence | as-written member | corrected member |
|---|---|---|---|---|---|---|
| src/router/excelImage.cjs:151-153 | `cell.value?.text` is evaluated before the `!cell` test, so a hole in the sparse `row._cells` array throws a TypeError and the whole job fails | a row with values in A1 and C1 and nothing ever written to B1 | skip the hole, as the `!cell` test intends, and carry on scanning | not executed | `LinkScan.HoleAbortsScan` | `LinkScan.ScanLinks` |
| frontend/src/env-manager.js:61 | `if (this.environments[env])` also accepts names inherited from `Object.prototype` | `switchEnv("toString")`: `currentEnv` becomes `"toString"` and `getExcelUploadUrl()` returns `"undefined/excel/upload"` | accept only the four own keys, so `currentEnv` always names an environment | not executed | `EnvManager.PrototypeKeySwitch` | `EnvManager.SwitchKeepsKey` |
