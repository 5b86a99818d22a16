/**
 * The embedding pass of `processExcelWithImages`: every reference of every
 * successful download gets the image anchored over its cell and its value
 * cleared; a failing ExcelJS call skips the rest of that reference but still
 * counts it as processed.
 */
module Embed {
  import opened Wrappers
  import opened Workbook
  import opened LinkScan
  import opened Download
  import opened Percent

  /** Which ExcelJS call, if any, throws while one reference is embedded. */
  datatype EmbedFault =
    | NoFault
    | MediaFault   // `workbook.addImage` throws: nothing changes
    | AnchorFault  // `worksheet.addImage` throws: the media entry stays, no anchor, value kept

  /** One reference to embed, with the downloaded buffer of its result. */
  datatype Job = Job(ref: ImageRef, buffer: Bytes)

  /** The size of every embedded picture. */
  const ImageSize: int := 100

  /** The cell a reference names is present. */
  ghost predicate At(b: Book, ref: ImageRef) {
    HasCell(b, ref.sheet, ref.row, ref.slot)
  }

  function CellOf(b: Book, ref: ImageRef): Cell
    requires At(b, ref)
  {
    CellAt(b, ref.sheet, ref.row, ref.slot)
  }

  /** Every job names a present cell. */
  ghost predicate AllAt(b: Book, jobs: seq<Job>)
    decreases |jobs|
  {
    |jobs| == 0 || (AllAt(b, jobs[..|jobs| - 1]) && At(b, jobs[|jobs| - 1].ref))
  }

  /** Every reference of the map names a present cell. */
  ghost predicate PointsInto(b: Book, cellMap: map<string, seq<ImageRef>>) {
    forall u, k | u in cellMap && 0 <= k < |cellMap[u]| :: At(b, cellMap[u][k])
  }

  /** The anchor `worksheet.addImage` receives for a cell: one-based address minus one, 100 by 100, "oneCell". */
  function Placement(cell: Cell, imageId: nat): (a: Anchor)
    ensures a.imageId == imageId && a.tlCol + 1 == cell.col && a.tlRow + 1 == cell.row
    ensures a.width == a.height == 100 && a.editAs == "oneCell"
  {
    Anchor(imageId, cell.col - 1, cell.row - 1, ImageSize, ImageSize, "oneCell")
  }

  /** The jobs of one successful result, written over its references. */
  function JobsFor(refs: seq<ImageRef>, buffer: Bytes): seq<Job> {
    seq(|refs|, k requires 0 <= k < |refs| => Job(refs[k], buffer))
  }

  /** The jobs one result contributes: its references, in map order, when it succeeded. */
  function JobsOf(result: DownloadResult, cellMap: map<string, seq<ImageRef>>): seq<Job> {
    if result.Fetched? && result.url in cellMap then JobsFor(cellMap[result.url], result.buffer) else []
  }

  /** All jobs, in the order the nested loops visit them. */
  function Jobs(results: seq<DownloadResult>, cellMap: map<string, seq<ImageRef>>): seq<Job>
    decreases |results|
  {
    if |results| == 0 then []
    else Jobs(results[..|results| - 1], cellMap) + JobsOf(results[|results| - 1], cellMap)
  }

  /** Embedding one job, with the fault that strikes it. */
  function EmbedStep(b: Book, job: Job, fault: EmbedFault): (b': Book)
    requires At(b, job.ref)
    ensures Shape(b') == Shape(b)
  {
    var p := job.ref;
    match fault
    case MediaFault => b
    case AnchorFault => AddMedia(b, Media(job.buffer, p.ext))
    case NoFault =>
      var b1 := AddMedia(b, Media(job.buffer, p.ext));
      var b2 := AddAnchor(b1, p.sheet, Placement(CellOf(b1, p), |b.media|));
      SetValue(b2, p.sheet, p.row, p.slot, Null)
  }

  /** The workbook after the first |jobs| jobs; `fault(k)` strikes job k. */
  function Apply(b: Book, jobs: seq<Job>, fault: nat -> EmbedFault): (b': Book)
    requires AllAt(b, jobs)
    ensures Shape(b') == Shape(b)
    decreases |jobs|
  {
    if |jobs| == 0 then b
    else
      var n := |jobs| - 1;
      var prev := Apply(b, jobs[..n], fault);
      var p := jobs[n].ref;
      assert At(b, p);
      ShapeHasCell(prev, b, p.sheet, p.row, p.slot);
      EmbedStep(prev, jobs[n], fault(n))
  }

  /** The progress reports of the first m jobs: one per job that did not throw. */
  function EmbedReports(m: nat, fault: nat -> EmbedFault, total: nat): (r: seq<int>)
    requires m <= total
    ensures |r| <= m
  {
    if m == 0 then []
    else if fault(m - 1).NoFault? then EmbedReports(m - 1, fault, total) + [EmbedPercent(m, total)]
    else EmbedReports(m - 1, fault, total)
  }

  lemma JobsOfPointInto(b: Book, result: DownloadResult, cellMap: map<string, seq<ImageRef>>)
    requires PointsInto(b, cellMap)
    ensures AllAt(b, JobsOf(result, cellMap))
  {
    if result.Fetched? && result.url in cellMap {
      JobsForAt(b, cellMap[result.url], result.buffer);
    }
  }

  lemma {:induction false} JobsForAt(b: Book, refs: seq<ImageRef>, buffer: Bytes)
    requires forall k | 0 <= k < |refs| :: At(b, refs[k])
    ensures AllAt(b, JobsFor(refs, buffer))
    decreases |refs|
  {
    if |refs| > 0 {
      var n := |refs| - 1;
      JobsForAt(b, refs[..n], buffer);
      assert JobsFor(refs, buffer)[..n] == JobsFor(refs[..n], buffer);
    }
  }

  /** Every job of an AllAt list names a present cell. */
  lemma {:induction false} AllAtIndex(b: Book, jobs: seq<Job>, k: nat)
    requires AllAt(b, jobs) && k < |jobs|
    ensures At(b, jobs[k].ref)
    decreases |jobs|
  {
    if k < |jobs| - 1 {
      AllAtIndex(b, jobs[..|jobs| - 1], k);
    }
  }

  lemma AllAtSnoc(b: Book, jobs: seq<Job>, job: Job)
    requires AllAt(b, jobs) && At(b, job.ref)
    ensures AllAt(b, jobs + [job])
  {
    assert (jobs + [job])[..|jobs|] == jobs;
  }

  /** Jobs only name cells of the workbook when the map does. */
  lemma {:induction false} JobsPointInto(b: Book, results: seq<DownloadResult>, cellMap: map<string, seq<ImageRef>>)
    requires PointsInto(b, cellMap)
    ensures AllAt(b, Jobs(results, cellMap))
    decreases |results|
  {
    if |results| > 0 {
      var init := results[..|results| - 1];
      JobsPointInto(b, init, cellMap);
      JobsOfPointInto(b, results[|results| - 1], cellMap);
      AllAtAppend(b, Jobs(init, cellMap), JobsOf(results[|results| - 1], cellMap));
    }
  }

  lemma JobsStep(results: seq<DownloadResult>, cellMap: map<string, seq<ImageRef>>, i: nat)
    requires i < |results|
    ensures Jobs(results[..i + 1], cellMap) == Jobs(results[..i], cellMap) + JobsOf(results[i], cellMap)
  {
    assert results[..i + 1][..i] == results[..i];
  }

  lemma {:induction false} JobsPrefixLength(results: seq<DownloadResult>, cellMap: map<string, seq<ImageRef>>, i: nat)
    requires i <= |results|
    ensures |Jobs(results[..i], cellMap)| <= |Jobs(results, cellMap)|
    decreases |results| - i
  {
    if i < |results| {
      JobsStep(results, cellMap, i);
      JobsPrefixLength(results, cellMap, i + 1);
    } else {
      assert results[..i] == results;
    }
  }

  lemma {:induction false} AllAtAppend(b: Book, jobs: seq<Job>, more: seq<Job>)
    requires AllAt(b, jobs) && AllAt(b, more)
    ensures AllAt(b, jobs + more)
    decreases |more|
  {
    if |more| > 0 {
      var n := |more| - 1;
      assert AllAt(b, more[..n]) && At(b, more[n].ref);
      AllAtAppend(b, jobs, more[..n]);
      assert jobs + more == (jobs + more[..n]) + [more[n]];
      AllAtSnoc(b, jobs + more[..n], more[n]);
    } else {
      assert jobs + more == jobs;
    }
  }

  lemma ApplyStep(b: Book, jobs: seq<Job>, job: Job, fault: nat -> EmbedFault)
    requires AllAt(b, jobs) && At(b, job.ref)
    ensures AllAt(b, jobs + [job]) && At(Apply(b, jobs, fault), job.ref)
    ensures Apply(b, jobs + [job], fault) == EmbedStep(Apply(b, jobs, fault), job, fault(|jobs|))
  {
    ShapeHasCell(Apply(b, jobs, fault), b, job.ref.sheet, job.ref.row, job.ref.slot);
    AllAtSnoc(b, jobs, job);
  }

  lemma ReportsStep(m: nat, fault: nat -> EmbedFault, total: nat)
    requires m < total
    ensures EmbedReports(m + 1, fault, total) ==
      if fault(m).NoFault? then EmbedReports(m, fault, total) + [EmbedPercent(m + 1, total)] else EmbedReports(m, fault, total)
  {
  }

  lemma TakeStep<T>(s: seq<T>, j: nat)
    requires j < |s|
    ensures s[..j + 1] == s[..j] + [s[j]]
  {
  }

  lemma LastSplit<T>(s: seq<T>)
    requires |s| > 0
    ensures s == s[..|s| - 1] + [s[|s| - 1]]
  {
  }

  lemma TakeOfTake<T>(s: seq<T>, n: nat, i: nat)
    requires i <= n <= |s|
    ensures s[..n][..i] == s[..i]
  {
  }

  lemma TakeSnoc<T>(prefix: seq<T>, s: seq<T>, j: nat)
    requires j < |s|
    ensures prefix + s[..j + 1] == (prefix + s[..j]) + [s[j]]
  {
    assert s[..j + 1] == s[..j] + [s[j]];
  }

  /** The first loop of the pass: `totalImagesToProcess`. */
  method CountImagesToProcess(results: seq<DownloadResult>, cellMap: map<string, seq<ImageRef>>) returns (total: nat)
    ensures total == |Jobs(results, cellMap)|
  {
    total := 0;
    for i := 0 to |results|
      invariant total == |Jobs(results[..i], cellMap)|
    {
      JobsStep(results, cellMap, i);
      var result := results[i];
      if result.Fetched? {
        if result.url in cellMap {
          total := total + |cellMap[result.url]|;
        }
      }
    }
    assert results[..|results|] == results;
  }

  /**
   * The body of the `try` block for one reference: add the media, anchor it
   * over the cell and clear the cell's value, stopping at the call that throws.
   */
  method EmbedOne(b: Book, job: Job, fault: EmbedFault) returns (b': Book)
    requires At(b, job.ref)
    ensures b' == EmbedStep(b, job, fault)
  {
    var ref := job.ref;
    match fault
    case MediaFault =>
      b' := b;
    case AnchorFault =>
      b' := AddMedia(b, Media(job.buffer, ref.ext));
    case NoFault =>
      var imageId := |b.media|;
      b' := AddMedia(b, Media(job.buffer, ref.ext));
      var cell := CellOf(b', ref);
      b' := AddAnchor(b', ref.sheet, Placement(cell, imageId));
      b' := SetValue(b', ref.sheet, ref.row, ref.slot, Null);
  }

  /**
   * The inner loop of the pass, over the references of one successful
   * result; `done` are the jobs already run on the original workbook `b0`.
   */
  /**
   * One reference: the `try` block, then `processedImages++` and, when
   * nothing threw, a progress report. `cur` are the jobs run before it.
   */
  method EmbedJob(b0: Book, ghost cur: seq<Job>, b: Book, job: Job, fault: nat -> EmbedFault,
                  processed: nat, total: nat, percents: seq<int>)
    returns (b': Book, processed': nat, percents': seq<int>)
    requires AllAt(b0, cur) && At(b0, job.ref)
    requires b == Apply(b0, cur, fault) && processed == |cur| < total
    requires percents == EmbedReports(processed, fault, total)
    ensures AllAt(b0, cur + [job])
    ensures b' == Apply(b0, cur + [job], fault)
    ensures processed' == processed + 1
    ensures percents' == EmbedReports(processed', fault, total)
  {
    ApplyStep(b0, cur, job, fault);
    ReportsStep(processed, fault, total);
    var f := fault(processed);
    b' := EmbedOne(b, job, f);
    processed' := processed + 1;
    percents' := percents;
    if f.NoFault? {
      percents' := percents' + [EmbedPercent(processed', total)];
    }
  }

  /**
   * The inner loop of the pass, over the references of one successful
   * result; `done` are the jobs already run on the original workbook `b0`.
   */
  method EmbedReferences(b0: Book, ghost done: seq<Job>, b: Book, result: DownloadResult, refs: seq<ImageRef>,
                         fault: nat -> EmbedFault, processed: nat, total: nat, percents: seq<int>)
    returns (b': Book, processed': nat, percents': seq<int>)
    requires result.Fetched?
    requires AllAt(b0, done) && AllAt(b0, JobsFor(refs, result.buffer))
    requires b == Apply(b0, done, fault) && processed == |done| && processed + |refs| <= total
    requires percents == EmbedReports(processed, fault, total)
    ensures AllAt(b0, done + JobsFor(refs, result.buffer))
    ensures b' == Apply(b0, done + JobsFor(refs, result.buffer), fault)
    ensures processed' == processed + |refs|
    ensures percents' == EmbedReports(processed', fault, total)
  {
    ghost var todo := JobsFor(refs, result.buffer);
    b', processed', percents' := b, processed, percents;
    assert done + todo[..0] == done;
    for j := 0 to |refs|
      invariant processed' == |done| + j
      invariant AllAt(b0, done + todo[..j])
      invariant b' == Apply(b0, done + todo[..j], fault)
      invariant percents' == EmbedReports(processed', fault, total)
    {
      var job := Job(refs[j], result.buffer);
      AllAtIndex(b0, todo, j);
      assert todo[j] == job;
      TakeSnoc(done, todo, j);
      b', processed', percents' := EmbedJob(b0, done + todo[..j], b', job, fault, processed', total, percents');
    }
    assert todo[..|refs|] == todo;
  }

  /** One download result: its references when it succeeded, nothing otherwise. */
  method EmbedResult(b0: Book, ghost done: seq<Job>, b: Book, result: DownloadResult, cellMap: map<string, seq<ImageRef>>,
                     fault: nat -> EmbedFault, processed: nat, total: nat, percents: seq<int>)
    returns (b': Book, processed': nat, percents': seq<int>)
    requires PointsInto(b0, cellMap) && AllAt(b0, done)
    requires b == Apply(b0, done, fault) && processed == |done| && processed + |JobsOf(result, cellMap)| <= total
    requires percents == EmbedReports(processed, fault, total)
    ensures AllAt(b0, done + JobsOf(result, cellMap))
    ensures b' == Apply(b0, done + JobsOf(result, cellMap), fault)
    ensures processed' == processed + |JobsOf(result, cellMap)|
    ensures percents' == EmbedReports(processed', fault, total)
  {
    if result.FetchFailed? || result.url !in cellMap {
      assert done + JobsOf(result, cellMap) == done;
      return b, processed, percents;
    }
    var refs := cellMap[result.url];
    JobsOfPointInto(b0, result, cellMap);
    b', processed', percents' := EmbedReferences(b0, done, b, result, refs, fault, processed, total, percents);
  }

  /**
   * The second loop of the pass. Every job counts towards `processedImages`,
   * which ends equal to `totalImagesToProcess`; only jobs that did not throw
   * report progress.
   */
  method EmbedImages(b: Book, results: seq<DownloadResult>, cellMap: map<string, seq<ImageRef>>, fault: nat -> EmbedFault)
    returns (b': Book, processed: nat, total: nat, percents: seq<int>)
    requires PointsInto(b, cellMap)
    ensures total == |Jobs(results, cellMap)| && processed == total
    ensures AllAt(b, Jobs(results, cellMap))
    ensures b' == Apply(b, Jobs(results, cellMap), fault)
    ensures percents == EmbedReports(total, fault, total)
  {
    total := CountImagesToProcess(results, cellMap);
    b', processed, percents := b, 0, [];
    for i := 0 to |results|
      invariant processed == |Jobs(results[..i], cellMap)| <= total
      invariant AllAt(b, Jobs(results[..i], cellMap))
      invariant b' == Apply(b, Jobs(results[..i], cellMap), fault)
      invariant percents == EmbedReports(processed, fault, total)
    {
      JobsStep(results, cellMap, i);
      JobsPrefixLength(results, cellMap, i + 1);
      b', processed, percents := EmbedResult(b, Jobs(results[..i], cellMap), b', results[i], cellMap, fault, processed, total, percents);
    }
    assert results[..|results|] == results;
  }
}
