/**
 * `processExcelWithImages` and the upload route: read the workbook, scan it
 * for image links, download them in batches, embed the pictures, write the
 * result, and report progress at every stage.
 */
module Pipeline {
  import opened Wrappers
  import opened Workbook
  import opened LinkScan
  import opened Download
  import opened Percent
  import opened Embed
  import opened EmbedFacts
  import ProgressBus

  type Stage = ProgressBus.Stage

  /** One `updateProgress` call of the pipeline: its stage and percentage. */
  datatype Report = Report(stage: Stage, percentage: int)

  /**
   * What the upload route leaves behind: whether it answered the request,
   * the progress it reported, the result stored under `<id>_result`, whether
   * it removed the uploaded file, and whether it scheduled the teardown of
   * the subscribers.
   */
  datatype Upload = Upload(responded: bool, reports: seq<Report>, result: Option<Book>, removed: bool, teardown: bool)

  /** The scan's registrations, in visiting order. */
  function Refs(b: Book, parse: Parser): seq<ImageRef> {
    BookRefs(b.sheets, parse)
  }

  /** `downloadResults`: task k is fetched over network behaviour `net(k)`. */
  function Results(tasks: seq<string>, net: nat -> Network): seq<DownloadResult> {
    seq(|tasks|, k requires 0 <= k < |tasks| => Downloaded(tasks[k], net(k)))
  }

  /** The jobs of the embedding loop for this workbook. */
  function JobsIn(b: Book, parse: Parser, net: nat -> Network): seq<Job> {
    var refs := Refs(b, parse);
    Jobs(Results(Urls(refs), net), Index(refs))
  }

  /** Every reference of the scan's map names a present cell. */
  lemma ScanPointsInto(b: Book, parse: Parser)
    ensures PointsInto(b, Index(Refs(b, parse)))
  {
    var m := Index(Refs(b, parse));
    forall u, k | u in m && 0 <= k < |m[u]|
      ensures At(b, m[u][k])
    {
      ScanMapMeaning(b, parse, u, m[u][k]);
    }
  }

  /** The workbook after the embedding loop. */
  function Embedded(b: Book, parse: Parser, net: nat -> Network, fault: nat -> EmbedFault): Book {
    var refs := Refs(b, parse);
    ScanPointsInto(b, parse);
    JobsPointInto(b, Results(Urls(refs), net), Index(refs));
    Apply(b, JobsIn(b, parse, net), fault)
  }

  /** The same stage and percentage for every value of `ps`. */
  function Tagged(stage: Stage, ps: seq<int>): seq<Report> {
    seq(|ps|, k requires 0 <= k < |ps| => Report(stage, ps[k]))
  }

  /** The download stage's reports: the k-th finished download reports `DownloadPercent(k, n)`. */
  function DownloadReports(n: nat): seq<Report> {
    seq(n, k requires 0 <= k < n => Report(ProgressBus.Downloading, DownloadPercent(k + 1, n)))
  }

  /** The reports between the scan and the write, when the scan found links. */
  function Middle(b: Book, parse: Parser, net: nat -> Network, fault: nat -> EmbedFault): seq<Report> {
    var total := |JobsIn(b, parse, net)|;
    DownloadReports(|Refs(b, parse)|) + [Report(ProgressBus.Downloaded, 75)]
    + Tagged(ProgressBus.Embedding, EmbedReports(total, fault, total)) + [Report(ProgressBus.Saving, 95)]
  }

  /** What follows the scan's report: completion at once without links, else the middle reports and completion after the write. */
  function AfterScan(b: Book, parse: Parser, net: nat -> Network, fault: nat -> EmbedFault, writeOk: bool): seq<Report> {
    if |Refs(b, parse)| == 0 then [Report(ProgressBus.Complete, 100)]
    else Middle(b, parse, net, fault) + (if writeOk then [Report(ProgressBus.Complete, 100)] else [])
  }

  /** What `processExcelWithImages` reports, in order; nothing when the workbook cannot be read. */
  function Trace(input: Option<Book>, parse: Parser, net: nat -> Network, fault: nat -> EmbedFault, writeOk: bool): seq<Report> {
    if input.None? then []
    else [Report(ProgressBus.Reading, 10), Report(ProgressBus.Scanning, 20)] + AfterScan(input.value, parse, net, fault, writeOk)
  }

  /** The workbook `processExcelWithImages` writes; None when it throws. */
  function Output(input: Option<Book>, parse: Parser, net: nat -> Network, fault: nat -> EmbedFault, writeOk: bool): Option<Book> {
    if input.None? || !writeOk then None else Some(Embedded(input.value, parse, net, fault))
  }

  /** Every batch of the download has a completion order. */
  ghost predicate ValidOrders(tasks: seq<string>, orders: nat -> seq<nat>) {
    forall b | 0 <= b < |Batches(tasks, ConcurrencyLimit)| :: CompletionOrder(orders(b), |Batches(tasks, ConcurrencyLimit)[b]|)
  }

  /**
   * `processExcelWithImages`. `input` is what `readFile` yields (None when
   * it throws), `net` and `orders` drive the downloads, `fault` the
   * ExcelJS calls of the embedding loop, and `writeOk` whether `writeFile`
   * succeeds.
   */
  method ProcessExcelWithImages(input: Option<Book>, parse: Parser, net: nat -> Network, orders: nat -> seq<nat>,
                                fault: nat -> EmbedFault, writeOk: bool)
    returns (output: Option<Book>, trace: seq<Report>)
    requires input.Some? ==> ValidOrders(Urls(Refs(input.value, parse)), orders)
    ensures output == Output(input, parse, net, fault, writeOk)
    ensures trace == Trace(input, parse, net, fault, writeOk)
  {
    if input.None? {
      return None, [];
    }
    var b := input.value;
    trace := [Report(ProgressBus.Reading, 10)];
    var imageCellMap, imageTasks := ScanLinks(b, parse);
    trace := trace + [Report(ProgressBus.Scanning, 20)];
    var rest;
    output, rest := EmbedAndWrite(b, parse, net, orders, fault, writeOk, imageCellMap, imageTasks);
    trace := trace + rest;
  }

  /** Everything after the scan: the early return without links, or downloading, embedding and writing. */
  method EmbedAndWrite(b: Book, parse: Parser, net: nat -> Network, orders: nat -> seq<nat>, fault: nat -> EmbedFault,
                       writeOk: bool, imageCellMap: map<string, seq<ImageRef>>, imageTasks: seq<string>)
    returns (output: Option<Book>, reports: seq<Report>)
    requires imageCellMap == Index(Refs(b, parse)) && imageTasks == Urls(Refs(b, parse))
    requires ValidOrders(imageTasks, orders)
    ensures output == Output(Some(b), parse, net, fault, writeOk)
    ensures reports == AfterScan(b, parse, net, fault, writeOk)
  {
    if |imageTasks| == 0 {
      reports := [Report(ProgressBus.Complete, 100)];
      NoLinksUnchanged(b, parse, net, fault);
      output := if writeOk then Some(b) else None;
      return;
    }
    var embedded;
    embedded, reports := DownloadAndEmbed(b, parse, net, orders, fault, imageCellMap, imageTasks);
    if writeOk {
      reports := reports + [Report(ProgressBus.Complete, 100)];
      output := Some(embedded);
    } else {
      output := None;
    }
  }

  /** The download loop and the embedding loop, with the reports between the scan and the write. */
  method DownloadAndEmbed(b: Book, parse: Parser, net: nat -> Network, orders: nat -> seq<nat>, fault: nat -> EmbedFault,
                          imageCellMap: map<string, seq<ImageRef>>, imageTasks: seq<string>)
    returns (embedded: Book, reports: seq<Report>)
    requires imageCellMap == Index(Refs(b, parse)) && imageTasks == Urls(Refs(b, parse))
    requires ValidOrders(imageTasks, orders)
    ensures embedded == Embedded(b, parse, net, fault)
    ensures reports == Middle(b, parse, net, fault)
  {
    var results, percents := DownloadAll(imageTasks, net, orders);
    assert results == Results(imageTasks, net);
    assert Tagged(ProgressBus.Downloading, percents) == DownloadReports(|imageTasks|);
    ScanPointsInto(b, parse);
    var processed, total, embedPercents;
    embedded, processed, total, embedPercents := EmbedImages(b, results, imageCellMap, fault);
    reports := Tagged(ProgressBus.Downloading, percents) + [Report(ProgressBus.Downloaded, 75)]
      + Tagged(ProgressBus.Embedding, embedPercents) + [Report(ProgressBus.Saving, 95)];
  }

  /** The route's outcome. `file` is `req.file`: None when multer stored nothing. */
  function UploadOutcome(file: Option<Option<Book>>, parse: Parser, net: nat -> Network, fault: nat -> EmbedFault, writeOk: bool): Upload {
    if file.None? then Upload(false, [Report(ProgressBus.Error, 0)], None, false, false)
    else
      var out := Output(file.value, parse, net, fault, writeOk);
      var failure := if out.None? then [Report(ProgressBus.Error, 0)] else [];
      Upload(true, [Report(ProgressBus.Uploaded, 5)] + Trace(file.value, parse, net, fault, writeOk) + failure, out, out.None?, out.Some?)
  }

  /**
   * The `/upload` route: answer with the progress id, report the upload,
   * run the pipeline, then store the result and schedule the teardown, or
   * report the error and remove the uploaded file.
   */
  method HandleUpload(file: Option<Option<Book>>, parse: Parser, net: nat -> Network, orders: nat -> seq<nat>,
                      fault: nat -> EmbedFault, writeOk: bool)
    returns (u: Upload)
    requires file.Some? && file.value.Some? ==> ValidOrders(Urls(Refs(file.value.value, parse)), orders)
    ensures u == UploadOutcome(file, parse, net, fault, writeOk)
  {
    if file.None? {
      return Upload(false, [Report(ProgressBus.Error, 0)], None, false, false);
    }
    var reports := [Report(ProgressBus.Uploaded, 5)];
    var output, trace := ProcessExcelWithImages(file.value, parse, net, orders, fault, writeOk);
    reports := reports + trace;
    if output.Some? {
      u := Upload(true, reports, output, false, true);
    } else {
      u := Upload(true, reports + [Report(ProgressBus.Error, 0)], None, true, false);
    }
  }

  // ---------------------------------------------------------------------
  // Progress never goes backwards

  predicate Ascending(rs: seq<Report>) {
    forall i, j | 0 <= i <= j < |rs| :: rs[i].percentage <= rs[j].percentage
  }

  predicate Within(rs: seq<Report>, lo: int, hi: int) {
    forall i | 0 <= i < |rs| :: lo <= rs[i].percentage <= hi
  }

  lemma Join(a: seq<Report>, b: seq<Report>, lo: int, mid: int, hi: int)
    requires lo <= mid <= hi
    requires Ascending(a) && Within(a, lo, mid) && Ascending(b) && Within(b, mid, hi)
    ensures Ascending(a + b) && Within(a + b, lo, hi)
  {
    var ab := a + b;
    forall i, j | 0 <= i <= j < |ab|
      ensures ab[i].percentage <= ab[j].percentage
    {
      if j < |a| {
        assert ab[i] == a[i] && ab[j] == a[j];
      } else if i < |a| {
        assert ab[i] == a[i] && ab[j] == b[j - |a|];
      } else {
        assert ab[i] == b[i - |a|] && ab[j] == b[j - |a|];
      }
    }
    forall i | 0 <= i < |ab|
      ensures lo <= ab[i].percentage <= hi
    {
      if i < |a| {
        assert ab[i] == a[i];
      } else {
        assert ab[i] == b[i - |a|];
      }
    }
  }

  lemma DownloadReportsRange(n: nat)
    requires 0 < n
    ensures Ascending(DownloadReports(n)) && Within(DownloadReports(n), 20, 70)
  {
    var d := DownloadReports(n);
    forall i, j | 0 <= i <= j < |d|
      ensures d[i].percentage <= d[j].percentage
    {
      DownloadPercentMonotone(i + 1, j + 1, n);
    }
    forall i | 0 <= i < |d|
      ensures 20 <= d[i].percentage <= 70
    {
      DownloadPercentBounds(i + 1, n);
    }
  }

  lemma EmbeddingRange(total: nat, fault: nat -> EmbedFault)
    ensures var e := Tagged(ProgressBus.Embedding, EmbedReports(total, fault, total));
      Ascending(e) && Within(e, 75, 90)
  {
    EmbedReportsRange(total, fault, total);
  }

  /**
   * The pipeline's percentages never decrease and stay between 10 and 100;
   * it ends with "complete" at 100 exactly when it wrote the workbook, or
   * when there was no link at all (that branch reports completion before it
   * writes).
   */
  lemma TraceProgress(input: Option<Book>, parse: Parser, net: nat -> Network, fault: nat -> EmbedFault, writeOk: bool)
    ensures var t := Trace(input, parse, net, fault, writeOk);
      && Ascending(t) && Within(t, 10, 100)
      && (|t| > 0 && t[|t| - 1] == Report(ProgressBus.Complete, 100) <==>
            input.Some? && (writeOk || |Refs(input.value, parse)| == 0))
      && (Output(input, parse, net, fault, writeOk).Some? ==> |t| > 0 && t[|t| - 1] == Report(ProgressBus.Complete, 100))
  {
    if input.Some? {
      var head := [Report(ProgressBus.Reading, 10), Report(ProgressBus.Scanning, 20)];
      var rest := AfterScan(input.value, parse, net, fault, writeOk);
      AfterScanProgress(input.value, parse, net, fault, writeOk);
      Join(head, rest, 10, 20, 100);
      assert (head + rest)[|head + rest| - 1] == rest[|rest| - 1];
    }
  }

  /** After the scan, progress climbs from 20 to 100 and ends with completion unless a write with links failed. */
  lemma AfterScanProgress(b: Book, parse: Parser, net: nat -> Network, fault: nat -> EmbedFault, writeOk: bool)
    ensures var rest := AfterScan(b, parse, net, fault, writeOk);
      && Ascending(rest) && Within(rest, 20, 100) && |rest| > 0
      && (rest[|rest| - 1] == Report(ProgressBus.Complete, 100) <==> writeOk || |Refs(b, parse)| == 0)
  {
    if |Refs(b, parse)| > 0 {
      var mid := Middle(b, parse, net, fault);
      var tail: seq<Report> := if writeOk then [Report(ProgressBus.Complete, 100)] else [];
      MiddleRange(b, parse, net, fault);
      Join(mid, tail, 20, 95, 100);
      assert |mid| > 0 && mid[|mid| - 1] == Report(ProgressBus.Saving, 95);
    }
  }

  /** Between the scan and the write, progress climbs from 20 to 95. */
  lemma MiddleRange(b: Book, parse: Parser, net: nat -> Network, fault: nat -> EmbedFault)
    requires |Refs(b, parse)| > 0
    ensures Ascending(Middle(b, parse, net, fault)) && Within(Middle(b, parse, net, fault), 20, 95)
  {
    var total := |JobsIn(b, parse, net)|;
    var d := DownloadReports(|Refs(b, parse)|);
    var e := Tagged(ProgressBus.Embedding, EmbedReports(total, fault, total));
    DownloadReportsRange(|Refs(b, parse)|);
    EmbeddingRange(total, fault);
    Join(d, [Report(ProgressBus.Downloaded, 75)], 20, 70, 75);
    Join(d + [Report(ProgressBus.Downloaded, 75)], e, 20, 75, 90);
    Join(d + [Report(ProgressBus.Downloaded, 75)] + e, [Report(ProgressBus.Saving, 95)], 20, 90, 95);
  }

  /**
   * The route answers exactly when a file arrived; it stores a result,
   * keeps the upload and schedules the teardown exactly when the pipeline
   * succeeded, and then its last report is "complete" at 100 after a
   * progress that never went backwards from 5; otherwise its last report is
   * "error" at 0.
   */
  lemma UploadProgress(file: Option<Option<Book>>, parse: Parser, net: nat -> Network, fault: nat -> EmbedFault, writeOk: bool)
    ensures var u := UploadOutcome(file, parse, net, fault, writeOk);
      && (u.responded <==> file.Some?)
      && |u.reports| > 0
      && (u.result.Some? <==> u.teardown)
      && (u.result.Some? <==> file.Some? && file.value.Some? && writeOk)
      && (u.removed <==> file.Some? && u.result.None?)
      && (u.result.Some? ==> Ascending(u.reports) && Within(u.reports, 5, 100) && u.reports[|u.reports| - 1] == Report(ProgressBus.Complete, 100))
      && (u.result.None? ==> u.reports[|u.reports| - 1] == Report(ProgressBus.Error, 0))
  {
    if file.Some? {
      var t := Trace(file.value, parse, net, fault, writeOk);
      TraceProgress(file.value, parse, net, fault, writeOk);
      Join([Report(ProgressBus.Uploaded, 5)], t, 5, 10, 100);
    }
  }

  /**
   * With no link and a failing write, the subscribers see "complete" at 100
   * and then "error" at 0.
   */
  lemma NoLinkFailedWrite(b: Book, parse: Parser, net: nat -> Network, fault: nat -> EmbedFault)
    requires Refs(b, parse) == []
    ensures UploadOutcome(Some(Some(b)), parse, net, fault, false).reports ==
      [Report(ProgressBus.Uploaded, 5), Report(ProgressBus.Reading, 10), Report(ProgressBus.Scanning, 20), Report(ProgressBus.Complete, 100), Report(ProgressBus.Error, 0)]
  {
  }

  // ---------------------------------------------------------------------
  // What the pipeline does to the cells

  /**
   * The cell (s, r, c) holds an image link the scan registers, and some
   * download of that url succeeded.
   */
  ghost predicate FetchedLink(b: Book, parse: Parser, net: nat -> Network, s: nat, r: nat, c: nat) {
    && HasCell(b, s, r, c)
    && CellRef(s, r, c, CellAt(b, s, r, c), parse).Some?
    && var tasks := Urls(Refs(b, parse));
       exists k | 0 <= k < |tasks| ::
         tasks[k] == CellRef(s, r, c, CellAt(b, s, r, c), parse).value.url && Downloaded(tasks[k], net(k)).Fetched?
  }

  /** A job that clears a cell comes from a link in that cell whose download succeeded. */
  lemma ClearedIsFetched(b: Book, parse: Parser, net: nat -> Network, fault: nat -> EmbedFault, s: nat, r: nat, c: nat)
    requires Cleared(JobsIn(b, parse, net), fault, s, r, c)
    ensures FetchedLink(b, parse, net, s, r, c)
  {
    var refs := Refs(b, parse);
    var tasks := Urls(refs);
    var results := Results(tasks, net);
    var m := Index(refs);
    var jobs := Jobs(results, m);
    var j :| 0 <= j < |jobs| && fault(j).NoFault? && jobs[j].ref.sheet == s && jobs[j].ref.row == r && jobs[j].ref.slot == c;
    var x := jobs[j].ref;
    JobsOrigin(results, m, j);
    var i :| 0 <= i < |results| && results[i].Fetched? && results[i].url in m && x in m[results[i].url];
    ScanMapMeaning(b, parse, results[i].url, x);
    assert results[i] == Downloaded(tasks[i], net(i));
    assert tasks[i] == x.url;
  }

  /** When no ExcelJS call throws, every cell with a successfully downloaded link is cleared. */
  lemma FetchedIsCleared(b: Book, parse: Parser, net: nat -> Network, fault: nat -> EmbedFault, s: nat, r: nat, c: nat)
    requires forall k: nat :: fault(k).NoFault?
    requires FetchedLink(b, parse, net, s, r, c)
    ensures Cleared(JobsIn(b, parse, net), fault, s, r, c)
  {
    var refs := Refs(b, parse);
    var tasks := Urls(refs);
    var results := Results(tasks, net);
    var m := Index(refs);
    var x := CellRef(s, r, c, CellAt(b, s, r, c), parse).value;
    CellRefMeaning(s, r, c, CellAt(b, s, r, c), parse);
    var k :| 0 <= k < |tasks| && tasks[k] == x.url && Downloaded(tasks[k], net(k)).Fetched?;
    ScanMapMeaning(b, parse, x.url, x);
    var t :| 0 <= t < |m[x.url]| && m[x.url][t] == x;
    assert results[k] == Downloaded(tasks[k], net(k));
    JobsCover(results, m, k, t);
    var jobs := Jobs(results, m);
    var j :| 0 <= j < |jobs| && jobs[j] == Job(x, results[k].buffer);
    assert fault(j).NoFault?;
  }

  /**
   * In the written workbook every cell of the input is still there with its
   * row and column; a cell whose value changed held a registered image link
   * whose download succeeded, and its value became null.
   */
  lemma OnlyFetchedLinksChange(input: Option<Book>, parse: Parser, net: nat -> Network, fault: nat -> EmbedFault, writeOk: bool, s: nat, r: nat, c: nat)
    requires input.Some? && HasCell(input.value, s, r, c)
    requires Output(input, parse, net, fault, writeOk).Some?
    ensures var b := input.value;
            var b' := Output(input, parse, net, fault, writeOk).value;
      && HasCell(b', s, r, c)
      && CellAt(b', s, r, c).row == CellAt(b, s, r, c).row
      && CellAt(b', s, r, c).col == CellAt(b, s, r, c).col
      && (CellAt(b', s, r, c).value != CellAt(b, s, r, c).value ==>
            CellAt(b', s, r, c).value == Null && FetchedLink(b, parse, net, s, r, c))
  {
    var b := input.value;
    var refs := Refs(b, parse);
    ScanPointsInto(b, parse);
    JobsPointInto(b, Results(Urls(refs), net), Index(refs));
    var jobs := JobsIn(b, parse, net);
    ApplyCell(b, jobs, fault, s, r, c);
    if Cleared(jobs, fault, s, r, c) {
      ClearedIsFetched(b, parse, net, fault, s, r, c);
    }
  }

  /**
   * When no ExcelJS call throws, the written workbook's cell (s, r, c) is
   * null exactly when it held a successfully downloaded image link, and
   * keeps its value otherwise.
   */
  lemma FetchedLinksCleared(b: Book, parse: Parser, net: nat -> Network, fault: nat -> EmbedFault, s: nat, r: nat, c: nat)
    requires forall k: nat :: fault(k).NoFault?
    requires HasCell(b, s, r, c)
    ensures var b' := Embedded(b, parse, net, fault);
      && HasCell(b', s, r, c)
      && CellAt(b', s, r, c) == CellAt(b, s, r, c).(value := if FetchedLink(b, parse, net, s, r, c) then Null else CellAt(b, s, r, c).value)
  {
    var refs := Refs(b, parse);
    ScanPointsInto(b, parse);
    JobsPointInto(b, Results(Urls(refs), net), Index(refs));
    var jobs := JobsIn(b, parse, net);
    ApplyCell(b, jobs, fault, s, r, c);
    if Cleared(jobs, fault, s, r, c) {
      ClearedIsFetched(b, parse, net, fault, s, r, c);
    }
    if FetchedLink(b, parse, net, s, r, c) {
      FetchedIsCleared(b, parse, net, fault, s, r, c);
    }
  }

  /** A workbook without image links is written back unchanged. */
  lemma NoLinksUnchanged(b: Book, parse: Parser, net: nat -> Network, fault: nat -> EmbedFault)
    requires Refs(b, parse) == []
    ensures Output(Some(b), parse, net, fault, true) == Some(b)
  {
    assert Results(Urls(Refs(b, parse)), net) == [];
  }
}
