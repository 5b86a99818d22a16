/**
 * What the embedding pass does to the workbook: which cells lose their
 * value, where the pictures are anchored, what only grows, and the range of
 * the progress it reports.
 */
module EmbedFacts {
  import opened Wrappers
  import opened Workbook
  import opened LinkScan
  import opened Percent
  import opened Download
  import opened Embed

  /** Media and anchors are only appended to; the sheets stay the same in number. */
  ghost predicate Grows(b: Book, b': Book) {
    && |b'.sheets| == |b.sheets|
    && b.media <= b'.media
    && forall s | 0 <= s < |b.sheets| :: b.sheets[s].images <= b'.sheets[s].images
  }

  /** Some job that did not throw targets the cell at (s, r, c). */
  ghost predicate Cleared(jobs: seq<Job>, fault: nat -> EmbedFault, s: nat, r: nat, c: nat) {
    exists k | 0 <= k < |jobs| :: fault(k).NoFault? && jobs[k].ref.sheet == s && jobs[k].ref.row == r && jobs[k].ref.slot == c
  }

  lemma GrowsTransitive(b1: Book, b2: Book, b3: Book)
    requires Grows(b1, b2) && Grows(b2, b3)
    ensures Grows(b1, b3)
  {
    forall s | 0 <= s < |b1.sheets|
      ensures b1.sheets[s].images <= b3.sheets[s].images
    {
      assert b1.sheets[s].images <= b2.sheets[s].images;
    }
  }

  /** One job appends at most one media entry and at most one anchor, and nothing else of these changes. */
  lemma StepGrows(b: Book, job: Job, f: EmbedFault)
    requires At(b, job.ref)
    ensures Grows(b, EmbedStep(b, job, f))
    ensures |EmbedStep(b, job, f).media| == |b.media| + (if f.MediaFault? then 0 else 1)
  {
    var p := job.ref;
    if f.NoFault? {
      var b1 := AddMedia(b, Media(job.buffer, p.ext));
      var b2 := AddAnchor(b1, p.sheet, Placement(CellOf(b1, p), |b.media|));
      var b3 := SetValue(b2, p.sheet, p.row, p.slot, Null);
      assert EmbedStep(b, job, f) == b3;
      forall s | 0 <= s < |b.sheets|
        ensures b.sheets[s].images <= b3.sheets[s].images
      {
        assert b3.sheets[s].images == b2.sheets[s].images;
      }
    }
  }

  /** The workbook only grows along the jobs: from any prefix to the whole list. */
  lemma {:induction false} ApplyGrows(b: Book, jobs: seq<Job>, fault: nat -> EmbedFault, i: nat)
    requires AllAt(b, jobs) && i <= |jobs|
    ensures AllAt(b, jobs[..i])
    ensures Grows(Apply(b, jobs[..i], fault), Apply(b, jobs, fault))
    decreases |jobs|
  {
    AllAtTake(b, jobs, i);
    if i == |jobs| {
      assert jobs[..i] == jobs;
    } else {
      var n := |jobs| - 1;
      var init := jobs[..n];
      TakeOfTake(jobs, n, i);
      ApplyGrows(b, init, fault, i);
      ApplyStep(b, init, jobs[n], fault);
      LastSplit(jobs);
      StepGrows(Apply(b, init, fault), jobs[n], fault(n));
      GrowsTransitive(Apply(b, jobs[..i], fault), Apply(b, init, fault), Apply(b, jobs, fault));
    }
  }

  /** A job that did not throw appends its media entry and anchors it over its cell. */
  lemma StepAnchored(b: Book, job: Job)
    requires At(b, job.ref)
    ensures var b' := EmbedStep(b, job, NoFault);
            var p := job.ref;
            && |b.media| < |b'.media| && b'.media[|b.media|] == Media(job.buffer, p.ext)
            && p.sheet < |b'.sheets|
            && Placement(CellOf(b, p), |b.media|) in b'.sheets[p.sheet].images
  {
    var p := job.ref;
    var b1 := AddMedia(b, Media(job.buffer, p.ext));
    var anchor := Placement(CellOf(b1, p), |b.media|);
    var b2 := AddAnchor(b1, p.sheet, anchor);
    var b3 := SetValue(b2, p.sheet, p.row, p.slot, Null);
    assert b3.sheets[p.sheet].images == b2.sheets[p.sheet].images;
    assert b2.sheets[p.sheet].images[|b1.sheets[p.sheet].images|] == anchor;
  }

  /**
   * A job that did not throw leaves its picture in the media list, at the
   * index that was the list's length when it ran, and an anchor for it over
   * its cell: column and row minus one, 100 by 100, "oneCell".
   */
  lemma JobAnchored(b: Book, jobs: seq<Job>, fault: nat -> EmbedFault, k: nat)
    requires AllAt(b, jobs) && k < |jobs| && fault(k).NoFault?
    ensures AllAt(b, jobs[..k]) && At(b, jobs[k].ref)
    ensures var id := |Apply(b, jobs[..k], fault).media|;
            var p := jobs[k].ref;
            var b' := Apply(b, jobs, fault);
            && id < |b'.media| && b'.media[id] == Media(jobs[k].buffer, p.ext)
            && p.sheet < |b'.sheets|
            && Placement(CellAt(b, p.sheet, p.row, p.slot), id) in b'.sheets[p.sheet].images
  {
    var p := jobs[k].ref;
    AllAtTake(b, jobs, k);
    AllAtIndex(b, jobs, k);
    AnchoredAfter(b, jobs[..k], jobs[k], fault);
    TakeStep(jobs, k);
    var after := Apply(b, jobs[..k + 1], fault);
    ApplyGrows(b, jobs, fault, k + 1);
    var b' := Apply(b, jobs, fault);
    assert after.media <= b'.media;
    assert after.sheets[p.sheet].images <= b'.sheets[p.sheet].images;
  }

  /** JobAnchored, right after the job has run. */
  lemma AnchoredAfter(b: Book, cur: seq<Job>, job: Job, fault: nat -> EmbedFault)
    requires AllAt(b, cur) && At(b, job.ref) && fault(|cur|).NoFault?
    ensures AllAt(b, cur + [job])
    ensures var id := |Apply(b, cur, fault).media|;
            var p := job.ref;
            var after := Apply(b, cur + [job], fault);
            && id < |after.media| && after.media[id] == Media(job.buffer, p.ext)
            && p.sheet < |after.sheets|
            && Placement(CellAt(b, p.sheet, p.row, p.slot), id) in after.sheets[p.sheet].images
  {
    ApplyStep(b, cur, job, fault);
    StepAnchored(Apply(b, cur, fault), job);
    ApplyPlacement(b, cur, fault, job.ref);
  }

  /** The pass moves no cell, so a placement computed later is the one the original cell gives. */
  lemma ApplyPlacement(b: Book, jobs: seq<Job>, fault: nat -> EmbedFault, p: ImageRef)
    requires AllAt(b, jobs) && At(b, p)
    ensures At(Apply(b, jobs, fault), p)
    ensures CellOf(Apply(b, jobs, fault), p).row == CellAt(b, p.sheet, p.row, p.slot).row
    ensures CellOf(Apply(b, jobs, fault), p).col == CellAt(b, p.sheet, p.row, p.slot).col
  {
    ApplyCell(b, jobs, fault, p.sheet, p.row, p.slot);
  }

  lemma {:induction false} AllAtTake(b: Book, jobs: seq<Job>, i: nat)
    requires AllAt(b, jobs) && i <= |jobs|
    ensures AllAt(b, jobs[..i])
    decreases |jobs|
  {
    if i == |jobs| {
      assert jobs[..i] == jobs;
    } else {
      var n := |jobs| - 1;
      TakeOfTake(jobs, n, i);
      AllAtTake(b, jobs[..n], i);
    }
  }

  /** The effect of one job on any present cell. */
  lemma StepCell(b: Book, job: Job, f: EmbedFault, s: nat, r: nat, c: nat)
    requires At(b, job.ref) && HasCell(b, s, r, c)
    ensures var b' := EmbedStep(b, job, f);
            var hit := f.NoFault? && job.ref.sheet == s && job.ref.row == r && job.ref.slot == c;
            && HasCell(b', s, r, c)
            && CellAt(b', s, r, c) == CellAt(b, s, r, c).(value := if hit then Null else CellAt(b, s, r, c).value)
  {
    var p := job.ref;
    if f.NoFault? {
      var b1 := AddMedia(b, Media(job.buffer, p.ext));
      var b2 := AddAnchor(b1, p.sheet, Placement(CellOf(b1, p), |b.media|));
      assert HasCell(b2, s, r, c) && CellAt(b2, s, r, c) == CellAt(b, s, r, c);
      assert HasCell(b2, p.sheet, p.row, p.slot) && CellAt(b2, p.sheet, p.row, p.slot) == CellAt(b, p.sheet, p.row, p.slot);
    }
  }

  /**
   * After the pass, every cell of the workbook is still present with its row
   * and column; its value is null exactly when some job that did not throw
   * targets it, and unchanged otherwise.
   */
  lemma {:induction false} ApplyCell(b: Book, jobs: seq<Job>, fault: nat -> EmbedFault, s: nat, r: nat, c: nat)
    requires AllAt(b, jobs) && HasCell(b, s, r, c)
    ensures var b' := Apply(b, jobs, fault);
            && HasCell(b', s, r, c)
            && CellAt(b', s, r, c) == CellAt(b, s, r, c).(value := if Cleared(jobs, fault, s, r, c) then Null else CellAt(b, s, r, c).value)
    decreases |jobs|
  {
    if |jobs| > 0 {
      var n := |jobs| - 1;
      var init := jobs[..n];
      var job := jobs[n];
      ApplyCell(b, init, fault, s, r, c);
      ApplyStep(b, init, job, fault);
      LastSplit(jobs);
      StepCell(Apply(b, init, fault), job, fault(n), s, r, c);
      ClearedStep(init, job, fault, s, r, c);
    } else {
      assert !Cleared(jobs, fault, s, r, c);
    }
  }

  lemma ClearedStep(jobs: seq<Job>, job: Job, fault: nat -> EmbedFault, s: nat, r: nat, c: nat)
    ensures Cleared(jobs + [job], fault, s, r, c) <==>
      Cleared(jobs, fault, s, r, c) || (fault(|jobs|).NoFault? && job.ref.sheet == s && job.ref.row == r && job.ref.slot == c)
  {
    var all := jobs + [job];
    if Cleared(jobs, fault, s, r, c) {
      var k :| 0 <= k < |jobs| && fault(k).NoFault? && jobs[k].ref.sheet == s && jobs[k].ref.row == r && jobs[k].ref.slot == c;
      assert all[k] == jobs[k];
    }
    if Cleared(all, fault, s, r, c) {
      var k :| 0 <= k < |all| && fault(k).NoFault? && all[k].ref.sheet == s && all[k].ref.row == r && all[k].ref.slot == c;
      if k < |jobs| {
        assert all[k] == jobs[k];
      }
    }
    if fault(|jobs|).NoFault? && job.ref.sheet == s && job.ref.row == r && job.ref.slot == c {
      assert all[|jobs|] == job;
    }
  }

  /** The reports of the embedding stage lie between 75 and 90 and never decrease. */
  lemma {:induction false} EmbedReportsRange(m: nat, fault: nat -> EmbedFault, total: nat)
    requires m <= total
    ensures forall i | 0 <= i < |EmbedReports(m, fault, total)| :: 75 <= EmbedReports(m, fault, total)[i] <= 90
    ensures forall i, j | 0 <= i <= j < |EmbedReports(m, fault, total)| ::
      EmbedReports(m, fault, total)[i] <= EmbedReports(m, fault, total)[j]
    ensures forall i | 0 <= i < |EmbedReports(m, fault, total)| :: EmbedReports(m, fault, total)[i] <= EmbedPercent(m, total)
    decreases m
  {
    if m > 0 {
      var prev := EmbedReports(m - 1, fault, total);
      EmbedReportsRange(m - 1, fault, total);
      EmbedPercentBounds(m, total);
      forall i | 0 <= i < |prev|
        ensures prev[i] <= EmbedPercent(m, total)
      {
        EmbedPercentMonotone(m - 1, m, total);
      }
    }
  }

  /**
   * One report per job that did not throw: as many reports as jobs when
   * none throws, and a job that did not throw reports last.
   */
  lemma {:induction false} EmbedReportsCount(m: nat, fault: nat -> EmbedFault, total: nat)
    requires m <= total
    ensures (forall k | 0 <= k < m :: fault(k).NoFault?) ==> |EmbedReports(m, fault, total)| == m
    ensures m > 0 && fault(m - 1).NoFault? ==>
      EmbedReports(m, fault, total) != [] && EmbedReports(m, fault, total)[|EmbedReports(m, fault, total)| - 1] == EmbedPercent(m, total)
    ensures m > 0 && !fault(m - 1).NoFault? ==> EmbedReports(m, fault, total) == EmbedReports(m - 1, fault, total)
    decreases m
  {
    if m > 0 {
      EmbedReportsCount(m - 1, fault, total);
    }
  }

  /** Every job comes from a successful result whose url the map lists, and names one of its references. */
  lemma {:induction false} JobsOrigin(results: seq<DownloadResult>, cellMap: map<string, seq<ImageRef>>, j: nat)
    requires j < |Jobs(results, cellMap)|
    ensures exists i | 0 <= i < |results| ::
      results[i].Fetched? && results[i].url in cellMap && Jobs(results, cellMap)[j].ref in cellMap[results[i].url]
    decreases |results|
  {
    var n := |results| - 1;
    var init := results[..n];
    var before := Jobs(init, cellMap);
    var last := JobsOf(results[n], cellMap);
    assert Jobs(results, cellMap) == before + last;
    if j < |before| {
      assert Jobs(results, cellMap)[j] == before[j];
      JobsOrigin(init, cellMap, j);
      var i :| 0 <= i < |init| && init[i].Fetched? && init[i].url in cellMap && before[j].ref in cellMap[init[i].url];
      assert results[i] == init[i];
    } else {
      var t := j - |before|;
      assert Jobs(results, cellMap)[j] == last[t];
      assert last[t].ref == cellMap[results[n].url][t];
    }
  }

  /** Every reference listed for the url of a successful result becomes a job, with that result's buffer. */
  lemma {:induction false} JobsCover(results: seq<DownloadResult>, cellMap: map<string, seq<ImageRef>>, i: nat, t: nat)
    requires i < |results| && results[i].Fetched? && results[i].url in cellMap && t < |cellMap[results[i].url]|
    ensures exists j | 0 <= j < |Jobs(results, cellMap)| ::
      Jobs(results, cellMap)[j] == Job(cellMap[results[i].url][t], results[i].buffer)
    decreases |results|
  {
    var n := |results| - 1;
    var init := results[..n];
    var before := Jobs(init, cellMap);
    var last := JobsOf(results[n], cellMap);
    assert Jobs(results, cellMap) == before + last;
    var job := Job(cellMap[results[i].url][t], results[i].buffer);
    if i < n {
      assert init[i] == results[i];
      JobsCover(init, cellMap, i, t);
      var j :| 0 <= j < |before| && before[j] == job;
      assert Jobs(results, cellMap)[j] == job;
    } else {
      assert last[t] == job;
      assert Jobs(results, cellMap)[|before| + t] == job;
    }
  }

  /**
   * A url that appears in two cells is downloaded twice (one task per cell),
   * and each successful download embeds into every cell of the url's list:
   * four jobs, each cell anchored twice.
   */
  lemma {:induction false} DuplicateUrlEmbedsTwice(x: ImageRef, y: ImageRef, buf: Bytes)
    requires x.url == y.url
    ensures Urls([x, y]) == [x.url, x.url]
    ensures Index([x, y]) == map[x.url := [x, y]]
    ensures Jobs([Fetched(x.url, buf), Fetched(x.url, buf)], Index([x, y])) ==
      [Job(x, buf), Job(y, buf), Job(x, buf), Job(y, buf)]
  {
    RegisterStep([], x);
    assert [] + [x] == [x];
    RegisterStep([x], y);
    assert [x] + [y] == [x, y];
    var m := Index([x, y]);
    var r := Fetched(x.url, buf);
    assert JobsOf(r, m) == [Job(x, buf), Job(y, buf)];
    assert [r, r][..1] == [r] && [r][..0] == [];
    assert Jobs([r], m) == JobsOf(r, m);
  }
}
