/**
 * What one production run (handleStartGeneration) produces, as functions of
 * the outline it starts from and of the outcomes of its awaited calls: the
 * chapters it writes, the log lines it appends, the progress snapshots it
 * publishes and the book it commits. App.BookSmith.HandleStartGeneration is
 * proved to do exactly this; the lemmas below are what the run promises.
 */
module Production {
  import opened Types
  import opened GeminiService

  const STARTING_LINE := "Starting creative process..."
  const CRITICAL_LINE := "Critical error during generation."
  const COVER_DONE_LINE := "Cover art generated."
  const COVER_SKIPPED_LINE := "Cover art skipped (unavailable)."
  const DESIGNING_TASK := "Designing cover art..."
  const FINALIZING_TASK := "Finalizing book layout..."
  const DONE_TASK := "Done!"
  const DEFAULT_AUDIENCE := "General Audience"

  /** The character of decimal digit `d`. */
  function DigitChar(d: nat): (c: char)
    requires d < 10
    ensures '0' <= c <= '9' && c as int - '0' as int == d
  {
    ('0' as int + d) as char
  }

  /** Decimal rendering of a natural number, as a template literal prints it. */
  function NatToString(n: nat): (s: string)
    ensures |s| > 0
    decreases n
  {
    if n < 10 then [DigitChar(n)] else NatToString(n / 10) + [DigitChar(n % 10)]
  }

  /** The number a string of decimal digits denotes, most significant first. */
  function DecimalValue(s: string): int {
    if s == [] then 0 else DecimalValue(s[..|s| - 1]) * 10 + (s[|s| - 1] as int - '0' as int)
  }

  /**
   * The rendering is digits only, most significant first, with no leading
   * zero, and reading it back gives the number: no two numbers print alike.
   */
  lemma {:induction false} NatToStringValue(n: nat)
    ensures var s := NatToString(n);
      && (forall k :: 0 <= k < |s| ==> '0' <= s[k] <= '9')
      && (|s| > 1 ==> s[0] != '0')
      && DecimalValue(s) == n
    decreases n
  {
    var s := NatToString(n);
    if n >= 10 {
      var m := NatToString(n / 10);
      NatToStringValue(n / 10);
      assert s == m + [DigitChar(n % 10)];
      assert s[..|s| - 1] == m;
      assert forall k :: 0 <= k < |m| ==> s[k] == m[k];
    }
  }

  /** `Writing "<title>"...` */
  function WritingLine(c: Chapter): string {
    "Writing \"" + c.title + "\"..."
  }

  /** `Chapter <i+1> completed.` */
  function ChapterDoneLine(i: nat): string {
    "Chapter " + NatToString(i + 1) + " completed."
  }

  /** `Writing Chapter <i+1>: <title>` */
  function WritingTask(i: nat, c: Chapter): string {
    "Writing Chapter " + NatToString(i + 1) + ": " + c.title
  }

  /** The chapter's title reads back from its "Writing" line: distinct titles log distinct lines. */
  lemma WritingLineTitle(c: Chapter, d: Chapter)
    ensures |WritingLine(c)| == |c.title| + 13 && WritingLine(c)[9..9 + |c.title|] == c.title
    ensures WritingLine(c) == WritingLine(d) ==> c.title == d.title
  {
    var r, q := WritingLine(c), WritingLine(d);
    assert r[9..9 + |c.title|] == c.title;
    if r == q {
      assert q[9..9 + |d.title|] == d.title;
    }
  }

  /** The chapter's number reads back from its "completed" line: distinct chapters log distinct lines. */
  lemma ChapterDoneLineInjective(i: nat, j: nat)
    ensures ChapterDoneLine(i) == ChapterDoneLine(j) ==> i == j
  {
    var a, b := NatToString(i + 1), NatToString(j + 1);
    var r, q := ChapterDoneLine(i), ChapterDoneLine(j);
    assert r[8..|r| - 11] == a;
    assert q[8..|q| - 11] == b;
    NatToStringValue(i + 1);
    NatToStringValue(j + 1);
  }

  /** The chapter's number and title read back from its "Writing Chapter" task. */
  lemma WritingTaskParts(i: nat, c: Chapter)
    ensures var r, m := WritingTask(i, c), NatToString(i + 1);
      |r| == 18 + |m| + |c.title| && r[16..16 + |m|] == m && r[|r| - |c.title|..] == c.title
  {
    var r, m := WritingTask(i, c), NatToString(i + 1);
    assert r[16..16 + |m|] == m;
    assert r[|r| - |c.title|..] == c.title;
  }

  /** The line the cover promise logs when it settles: "generated" exactly when there is a cover. */
  function CoverLine(cover: Option<string>): (r: string)
    ensures r == COVER_DONE_LINE <==> Truthy(cover)
    ensures r != COVER_DONE_LINE ==> r == COVER_SKIPPED_LINE
  {
    if Truthy(cover) then COVER_DONE_LINE else COVER_SKIPPED_LINE
  }

  /** The guard: chapters present (an empty array is truthy), title and topic non-empty. */
  predicate Ready(b: PartialBook)
    ensures Ready(b) <==>
      b.chapters.Some? && b.title.Some? && b.title.value != "" && b.topic.Some? && b.topic.value != ""
  {
    b.chapters.Some? && Truthy(b.title) && Truthy(b.topic)
  }

  /** `targetAudience || "General Audience"` */
  function Audience(targetAudience: Option<string>): (r: string)
    ensures r != ""
    ensures Truthy(targetAudience) ==> r == targetAudience.value
    ensures !Truthy(targetAudience) ==> r == DEFAULT_AUDIENCE
  {
    if Truthy(targetAudience) then targetAudience.value else DEFAULT_AUDIENCE
  }

  /** The one fatal error a run may meet: at the await of chapter `index`, or at the await of the cover. */
  datatype Fault = NoFault | ChapterFault(index: nat) | CoverFault

  /** The outcome of each chapter call, by position in the loop and arguments. */
  type ChapterService = (nat, ChapterRequest) -> Reply<Option<string>>

  /** `totalOps`: one operation per chapter plus one for the cover, so never zero. */
  function TotalOps(b: PartialBook): (t: nat)
    requires b.chapters.Some?
    ensures t > 0 && t - 1 == |b.chapters.value|
  {
    |b.chapters.value| + 1
  }

  /** A fatal error is met before the run commits. */
  predicate Aborts(b: PartialBook, fault: Fault)
    requires b.chapters.Some?
  {
    fault == CoverFault || (fault.ChapterFault? && fault.index < |b.chapters.value|)
  }

  /** The call made for chapter `i`: the book's title, that chapter and the defaulted audience. */
  function Request(b: PartialBook, i: nat): (r: ChapterRequest)
    requires Ready(b) && i < |b.chapters.value|
    ensures r.bookTitle == b.title.value && r.bookTitle != ""
    ensures r.chapter == b.chapters.value[i]
    ensures r.audience == Audience(b.targetAudience) && r.audience != ""
  {
    ChapterRequest(b.title.value, b.chapters.value[i], Audience(b.targetAudience))
  }

  /** `{ ...chapter, content }` for chapter `i`. */
  function Written(b: PartialBook, service: ChapterService, i: nat): (r: Chapter)
    requires Ready(b) && i < |b.chapters.value|
    ensures r.content.Some? && r.(content := b.chapters.value[i].content) == b.chapters.value[i]
  {
    b.chapters.value[i].(content := Some(GenerateChapterContent(service(i, Request(b, i)))))
  }

  /** `filledChapters` after `k` turns of the loop. */
  function Fill(b: PartialBook, service: ChapterService, k: nat): (r: seq<Chapter>)
    requires Ready(b) && k <= |b.chapters.value|
    ensures |r| == k
  {
    if k == 0 then [] else Fill(b, service, k - 1) + [Written(b, service, k - 1)]
  }

  /**
   * Chapter `i` as written: chapter `i` of the outline with only `content` set,
   * to what the call for chapter `i` (with the audience defaulted) produced;
   * the display flags are left as they were.
   */
  lemma WrittenSpec(b: PartialBook, service: ChapterService, i: nat)
    requires Ready(b) && i < |b.chapters.value|
    ensures var c, o := Written(b, service, i), b.chapters.value[i];
      && c.title == o.title && c.description == o.description
      && c.isGenerating == o.isGenerating && c.isDone == o.isDone
      && c.content == Some(GenerateChapterContent(service(i, ChapterRequest(b.title.value, o, Audience(b.targetAudience)))))
      && c.(content := o.content) == o
  {
  }

  /** The chapters are written in order: after `k` turns, entry `i` is chapter `i` as written. */
  lemma {:induction false} FillSpec(b: PartialBook, service: ChapterService, k: nat)
    requires Ready(b) && k <= |b.chapters.value|
    ensures |Fill(b, service, k)| == k
    ensures forall i :: 0 <= i < k ==> Fill(b, service, k)[i] == Written(b, service, i)
  {
    if k > 0 {
      var prev := Fill(b, service, k - 1);
      FillSpec(b, service, k - 1);
      assert Fill(b, service, k) == prev + [Written(b, service, k - 1)];
      forall i | 0 <= i < k ensures Fill(b, service, k)[i] == Written(b, service, i) {
        if i < k - 1 {
          assert Fill(b, service, k)[i] == prev[i];
        }
      }
    }
  }

  /** The cover line, unless the cover promise rejects (it is then never logged). */
  function CoverEntry(cover: Option<string>, fault: Fault): seq<string> {
    if fault == CoverFault then [] else [CoverLine(cover)]
  }

  /**
   * The lines logged while chapter `i` is written; when the cover settles
   * during that chapter's await (`coverSlot == i`), its line falls in between.
   */
  function Window(b: PartialBook, cover: Option<string>, coverSlot: nat, fault: Fault, i: nat): seq<string>
    requires b.chapters.Some? && i < |b.chapters.value|
  {
    [WritingLine(b.chapters.value[i])]
    + (if coverSlot == i then CoverEntry(cover, fault) else [])
    + [ChapterDoneLine(i)]
  }

  /** The lines logged by the first `k` turns of the loop. */
  function LoopLog(b: PartialBook, cover: Option<string>, coverSlot: nat, fault: Fault, k: nat): seq<string>
    requires b.chapters.Some? && k <= |b.chapters.value|
  {
    if k == 0 then [] else LoopLog(b, cover, coverSlot, fault, k - 1) + Window(b, cover, coverSlot, fault, k - 1)
  }

  /** How many chapters the loop finishes: all of them, unless a chapter's await throws first. */
  function Stop(b: PartialBook, fault: Fault): (k: nat)
    requires b.chapters.Some?
    ensures k <= |b.chapters.value|
  {
    if fault.ChapterFault? && fault.index < |b.chapters.value| then fault.index else |b.chapters.value|
  }

  /** The lines a run logs after the loop's finished chapters. */
  function RunTail(b: PartialBook, cover: Option<string>, coverSlot: nat, fault: Fault): seq<string>
    requires b.chapters.Some?
  {
    var chapters := b.chapters.value;
    if fault.ChapterFault? && fault.index < |chapters| then
      [WritingLine(chapters[fault.index])]
      + (if coverSlot == fault.index then CoverEntry(cover, fault) else [])
      + [CRITICAL_LINE]
    else if fault == CoverFault then [CRITICAL_LINE]
    else if coverSlot >= |chapters| then [CoverLine(cover)]
    else []
  }

  /** Every line a run appends to the log, in order. */
  function RunLog(b: PartialBook, cover: Option<string>, coverSlot: nat, fault: Fault): (r: seq<string>)
    requires b.chapters.Some?
    ensures |r| > 0 && r[0] == STARTING_LINE
  {
    [STARTING_LINE] + LoopLog(b, cover, coverSlot, fault, Stop(b, fault)) + RunTail(b, cover, coverSlot, fault)
  }

  /** `progressPercent` for `completed` of `total` operations. */
  function Percent(completed: nat, total: nat): real
    requires total > 0
  {
    (completed as real / total as real) * 100.0
  }

  /** What updateProgress publishes. */
  function Snapshot(task: string, completed: nat, total: nat): GenerationProgress
    requires total > 0
  {
    GenerationProgress(task, Percent(completed, total), completed, total)
  }

  /** The snapshots published by the first `k` turns of the loop. */
  function LoopSnapshots(b: PartialBook, k: nat): seq<GenerationProgress>
    requires b.chapters.Some? && k <= |b.chapters.value|
  {
    if k == 0 then []
    else LoopSnapshots(b, k - 1) + [Snapshot(WritingTask(k - 1, b.chapters.value[k - 1]), k - 1, TotalOps(b))]
  }

  /** Every snapshot a run publishes, in order. */
  function RunSnapshots(b: PartialBook, fault: Fault): (r: seq<GenerationProgress>)
    requires b.chapters.Some?
    ensures |r| > 0 && r[0] == Snapshot(DESIGNING_TASK, 0, TotalOps(b))
  {
    var n := |b.chapters.value|;
    [Snapshot(DESIGNING_TASK, 0, TotalOps(b))]
    + if fault.ChapterFault? && fault.index < n then LoopSnapshots(b, fault.index + 1)
      else LoopSnapshots(b, n) + Closing(b, fault)
  }

  /** The snapshots after the loop: "Finalizing", then "Done!" unless the cover rejects. */
  function Closing(b: PartialBook, fault: Fault): seq<GenerationProgress>
    requires b.chapters.Some?
  {
    var n := |b.chapters.value|;
    if fault == CoverFault then [Snapshot(FINALIZING_TASK, n, TotalOps(b))]
    else [Snapshot(FINALIZING_TASK, n, TotalOps(b))] + [Snapshot(DONE_TASK, n + 1, TotalOps(b))]
  }

  /** One more turn of the loop adds chapter `i`'s window to the loop's lines. */
  lemma {:induction false} LoopLogStep(logs0: seq<string>, b: PartialBook, cover: Option<string>, coverSlot: nat, fault: Fault, i: nat)
    requires b.chapters.Some? && i < |b.chapters.value|
    ensures logs0 + LoopLog(b, cover, coverSlot, fault, i) + Window(b, cover, coverSlot, fault, i)
         == logs0 + LoopLog(b, cover, coverSlot, fault, i + 1)
  {
    SeqAssoc(logs0, LoopLog(b, cover, coverSlot, fault, i), Window(b, cover, coverSlot, fault, i));
  }

  /** One more turn of the loop adds chapter `i`'s snapshot. */
  lemma {:induction false} LoopSnapshotsStep(snapshots0: seq<GenerationProgress>, b: PartialBook, i: nat)
    requires b.chapters.Some? && i < |b.chapters.value|
    ensures snapshots0 + LoopSnapshots(b, i) + [Snapshot(WritingTask(i, b.chapters.value[i]), i, TotalOps(b))]
         == snapshots0 + LoopSnapshots(b, i + 1)
  {
    SeqAssoc(snapshots0, LoopSnapshots(b, i), [Snapshot(WritingTask(i, b.chapters.value[i]), i, TotalOps(b))]);
  }

  /** The log of a run, assembled from its phases; `k` is the number of chapters the loop finishes. */
  lemma {:induction false} RunLogAssembled(logs0: seq<string>, b: PartialBook, cover: Option<string>, coverSlot: nat, fault: Fault, k: nat)
    requires b.chapters.Some? && k == Stop(b, fault)
    ensures logs0 + [STARTING_LINE] + LoopLog(b, cover, coverSlot, fault, k) + RunTail(b, cover, coverSlot, fault)
         == logs0 + RunLog(b, cover, coverSlot, fault)
  {
    SeqAssoc(logs0, [STARTING_LINE], LoopLog(b, cover, coverSlot, fault, k));
    SeqAssoc(logs0, [STARTING_LINE] + LoopLog(b, cover, coverSlot, fault, k), RunTail(b, cover, coverSlot, fault));
  }

  /** The snapshots of a run that a chapter's fatal error ends, assembled from its phases. */
  lemma {:induction false} AbortedSnapshotsAssembled(snapshots0: seq<GenerationProgress>, b: PartialBook, fault: Fault)
    requires b.chapters.Some? && fault.ChapterFault? && fault.index < |b.chapters.value|
    ensures snapshots0 + [Snapshot(DESIGNING_TASK, 0, TotalOps(b))] + LoopSnapshots(b, Stop(b, fault) + 1)
         == snapshots0 + RunSnapshots(b, fault)
  {
    SeqAssoc(snapshots0, [Snapshot(DESIGNING_TASK, 0, TotalOps(b))], LoopSnapshots(b, fault.index + 1));
  }

  /** The snapshots of a run that finishes its loop, assembled from its phases. */
  lemma {:induction false} FinishedSnapshotsAssembled(snapshots0: seq<GenerationProgress>, b: PartialBook, fault: Fault)
    requires b.chapters.Some? && !(fault.ChapterFault? && fault.index < |b.chapters.value|)
    ensures snapshots0 + [Snapshot(DESIGNING_TASK, 0, TotalOps(b))] + LoopSnapshots(b, Stop(b, fault)) + Closing(b, fault)
         == snapshots0 + RunSnapshots(b, fault)
  {
    var first, loop := [Snapshot(DESIGNING_TASK, 0, TotalOps(b))], LoopSnapshots(b, |b.chapters.value|);
    SeqAssoc(snapshots0, first, loop);
    SeqAssoc(snapshots0, first + loop, Closing(b, fault));
  }

  /** A run that is not aborted ends with the cover's line only if the cover settles after the loop, and with "Finalizing" then "Done!". */
  lemma CommitTail(b: PartialBook, cover: Option<string>, coverSlot: nat, fault: Fault)
    requires b.chapters.Some? && !Aborts(b, fault)
    ensures RunTail(b, cover, coverSlot, fault) == if coverSlot >= |b.chapters.value| then [CoverLine(cover)] else []
    ensures var n := |b.chapters.value|;
      Closing(b, fault) == [Snapshot(FINALIZING_TASK, n, TotalOps(b))] + [Snapshot(DONE_TASK, n + 1, TotalOps(b))]
  {
  }

  /** A run that rejects at the cover's await ends with the error line, after "Finalizing" only. */
  lemma CoverRejectedTail(b: PartialBook, cover: Option<string>, coverSlot: nat, fault: Fault)
    requires b.chapters.Some? && fault == CoverFault
    ensures RunTail(b, cover, coverSlot, fault) == [CRITICAL_LINE]
    ensures Closing(b, fault) == [Snapshot(FINALIZING_TASK, |b.chapters.value|, TotalOps(b))]
  {
  }

  /** A run that throws at chapter `i`'s await ends with that chapter's window cut short by the error line. */
  lemma ChapterFaultTail(b: PartialBook, cover: Option<string>, coverSlot: nat, fault: Fault, i: nat)
    requires b.chapters.Some? && i < |b.chapters.value| && fault == ChapterFault(i)
    ensures RunTail(b, cover, coverSlot, fault)
         == [WritingLine(b.chapters.value[i])] + (if coverSlot == i then CoverEntry(cover, fault) else []) + [CRITICAL_LINE]
  {
  }

  /** The book a run that is not aborted commits, in one update. */
  function Committed(b: PartialBook, service: ChapterService, cover: Option<string>): (r: PartialBook)
    requires Ready(b)
    ensures r.chapters.Some? && |r.chapters.value| == |b.chapters.value| && r.coverImageBase64 == cover
    ensures r.(chapters := b.chapters, coverImageBase64 := b.coverImageBase64) == b
  {
    b.(chapters := Some(Fill(b, service, |b.chapters.value|)), coverImageBase64 := cover)
  }

  // ---------------------------------------------------------------------------
  // Progress accounting

  /**
   * The percentage of a snapshot stays within 0..100 and reaches 100 exactly
   * when every operation is done; the snapshot carries the task, the count
   * and the total as given.
   */
  lemma PercentBounds(task: string, completed: nat, total: nat)
    requires 0 < total && completed <= total
    ensures var s := Snapshot(task, completed, total);
      && s.currentTask == task && s.completedChapters == completed && s.totalChapters == total
      && 0.0 <= s.progressPercent <= 100.0
      && (s.progressPercent == 100.0 <==> completed == total)
  {
    var c, t := completed as real, total as real;
    var q := c / t;
    assert q * t == c;
    assert (1.0 - q) * t == t - c;
    if completed == total {
      assert q == 1.0;
    }
  }

  /** The snapshot published when chapter `i` is announced shows `i` operations done. */
  lemma {:induction false} LoopSnapshotsAt(b: PartialBook, k: nat)
    requires b.chapters.Some? && k <= |b.chapters.value|
    ensures |LoopSnapshots(b, k)| == k
    ensures forall i :: 0 <= i < k ==>
      LoopSnapshots(b, k)[i] == Snapshot(WritingTask(i, b.chapters.value[i]), i, TotalOps(b))
  {
    if k > 0 {
      LoopSnapshotsAt(b, k - 1);
      assert forall i :: 0 <= i < k - 1 ==> LoopSnapshots(b, k)[i] == LoopSnapshots(b, k - 1)[i];
    }
  }

  /** The snapshots of a run that a chapter's fatal error ends: the first one, then one per chapter reached. */
  lemma {:induction false} AbortedRunSnapshots(b: PartialBook, fault: Fault)
    requires b.chapters.Some? && fault.ChapterFault? && fault.index < |b.chapters.value|
    ensures var s := RunSnapshots(b, fault);
      && |s| == fault.index + 2
      && s[0] == Snapshot(DESIGNING_TASK, 0, TotalOps(b))
      && forall j :: 1 <= j < |s| ==> s[j] == Snapshot(WritingTask(j - 1, b.chapters.value[j - 1]), j - 1, TotalOps(b))
  {
    var s, first, loop := RunSnapshots(b, fault), Snapshot(DESIGNING_TASK, 0, TotalOps(b)), LoopSnapshots(b, fault.index + 1);
    LoopSnapshotsAt(b, fault.index + 1);
    assert s == [first] + loop;
    assert forall j :: 1 <= j < |s| ==> s[j] == loop[j - 1];
  }

  /** The snapshots of a run that finishes its loop: the first one, one per chapter, then the closing ones. */
  lemma {:induction false} FinishedRunSnapshots(b: PartialBook, fault: Fault)
    requires b.chapters.Some? && !(fault.ChapterFault? && fault.index < |b.chapters.value|)
    ensures var s, n := RunSnapshots(b, fault), |b.chapters.value|;
      && |s| == n + 1 + |Closing(b, fault)|
      && s[0] == Snapshot(DESIGNING_TASK, 0, TotalOps(b))
      && (forall j :: 1 <= j <= n ==> s[j] == Snapshot(WritingTask(j - 1, b.chapters.value[j - 1]), j - 1, TotalOps(b)))
      && (forall j :: 0 <= j < |Closing(b, fault)| ==> s[n + 1 + j] == Closing(b, fault)[j])
  {
    var s, n, first := RunSnapshots(b, fault), |b.chapters.value|, Snapshot(DESIGNING_TASK, 0, TotalOps(b));
    var loop, closing := LoopSnapshots(b, n), Closing(b, fault);
    LoopSnapshotsAt(b, n);
    assert s == [first] + loop + closing;
    assert forall j :: 1 <= j <= n ==> s[j] == loop[j - 1];
  }

  /** On every path, snapshot `j` of a run shows `j - 1` operations done, except the fixed first and last ones. */
  lemma RunSnapshotsShape(b: PartialBook, fault: Fault)
    requires b.chapters.Some?
    ensures var s, n := RunSnapshots(b, fault), |b.chapters.value|;
      && s[0] == Snapshot(DESIGNING_TASK, 0, n + 1)
      && (forall j :: 1 <= j <= n && j < |s| ==>
            s[j] == Snapshot(WritingTask(j - 1, b.chapters.value[j - 1]), j - 1, n + 1))
      && (fault.ChapterFault? && fault.index < n ==> |s| == fault.index + 2)
      && (fault == CoverFault ==> |s| == n + 2)
      && (!Aborts(b, fault) ==> |s| == n + 3)
      && (!(fault.ChapterFault? && fault.index < n) ==> s[n + 1] == Snapshot(FINALIZING_TASK, n, n + 1))
      && (!Aborts(b, fault) ==> s[n + 2] == Snapshot(DONE_TASK, n + 1, n + 1))
  {
    if fault.ChapterFault? && fault.index < |b.chapters.value| {
      AbortedRunSnapshots(b, fault);
    } else {
      FinishedRunSnapshots(b, fault);
      var n := |b.chapters.value|;
      assert RunSnapshots(b, fault)[n + 1 + 0] == Closing(b, fault)[0];
      if !Aborts(b, fault) {
        assert RunSnapshots(b, fault)[n + 1 + 1] == Closing(b, fault)[1];
      }
    }
  }


  /**
   * Within a run the snapshots never go backwards: they start at 0, never
   * exceed the total of chapters plus one, and the percentage stays in 0..100.
   */
  lemma {:induction false} RunSnapshotsMonotone(b: PartialBook, fault: Fault)
    requires b.chapters.Some?
    ensures var s := RunSnapshots(b, fault);
      && |s| > 0 && s[0].completedChapters == 0
      && (forall i :: 0 <= i < |s| ==>
            && 0 <= s[i].completedChapters <= s[i].totalChapters == TotalOps(b)
            && 0.0 <= s[i].progressPercent <= 100.0)
      && (forall i, j :: 0 <= i <= j < |s| ==> s[i].completedChapters <= s[j].completedChapters)
  {
    var s, n := RunSnapshots(b, fault), |b.chapters.value|;
    RunSnapshotsShape(b, fault);
    assert forall i :: 1 <= i < |s| ==> s[i].completedChapters == i - 1;
    forall i | 0 <= i < |s|
      ensures 0 <= s[i].completedChapters <= s[i].totalChapters == TotalOps(b)
      ensures 0.0 <= s[i].progressPercent <= 100.0
    {
      PercentBounds(s[i].currentTask, s[i].completedChapters, TotalOps(b));
    }
  }

  /**
   * A run that is not aborted ends on "Done!" with every operation counted:
   * completed equals total, chapters plus one, and the percentage is 100.
   */
  lemma RunSnapshotsFinish(b: PartialBook, fault: Fault)
    requires b.chapters.Some? && !Aborts(b, fault)
    ensures var s := RunSnapshots(b, fault);
      && |s| == |b.chapters.value| + 3
      && s[|s| - 2].currentTask == FINALIZING_TASK
      && s[|s| - 2].completedChapters == |b.chapters.value|
      && s[|s| - 1].currentTask == DONE_TASK
      && s[|s| - 1].completedChapters == s[|s| - 1].totalChapters == |b.chapters.value| + 1
      && s[|s| - 1].progressPercent == 100.0
  {
    RunSnapshotsShape(b, fault);
    PercentBounds(DONE_TASK, |b.chapters.value| + 1, |b.chapters.value| + 1);
  }

  // ---------------------------------------------------------------------------
  // Log ordering

  /** A chapter's window opens with its "Writing" line and closes with its "completed" line. */
  lemma WindowShape(b: PartialBook, cover: Option<string>, coverSlot: nat, fault: Fault, i: nat)
    requires b.chapters.Some? && i < |b.chapters.value|
    ensures var w := Window(b, cover, coverSlot, fault, i);
      && |w| >= 2
      && w[0] == WritingLine(b.chapters.value[i])
      && w[|w| - 1] == ChapterDoneLine(i)
  {
  }

  /** Within the loop's lines, chapter `i`'s window starts with its "Writing" line and ends with its "completed" line. */
  lemma {:induction false} LoopLogAt(b: PartialBook, cover: Option<string>, coverSlot: nat, fault: Fault, k: nat, i: nat)
    requires b.chapters.Some? && i < k <= |b.chapters.value|
    ensures var log, start, end :=
      LoopLog(b, cover, coverSlot, fault, k), |LoopLog(b, cover, coverSlot, fault, i)|, |LoopLog(b, cover, coverSlot, fault, i + 1)|;
      && start + 2 <= end <= |log|
      && log[start] == WritingLine(b.chapters.value[i])
      && log[end - 1] == ChapterDoneLine(i)
  {
    var prev, w := LoopLog(b, cover, coverSlot, fault, k - 1), Window(b, cover, coverSlot, fault, k - 1);
    assert LoopLog(b, cover, coverSlot, fault, k) == prev + w;
    if i < k - 1 {
      LoopLogAt(b, cover, coverSlot, fault, k - 1, i);
      assert |LoopLog(b, cover, coverSlot, fault, i + 1)| <= |prev|;
    } else {
      WindowShape(b, cover, coverSlot, fault, i);
      assert |LoopLog(b, cover, coverSlot, fault, i + 1)| == |prev| + |w|;
    }
  }


  /** Where chapter `i`'s lines begin in the run log. */
  function WindowStart(b: PartialBook, cover: Option<string>, coverSlot: nat, fault: Fault, i: nat): nat
    requires b.chapters.Some? && i <= |b.chapters.value|
  {
    1 + |LoopLog(b, cover, coverSlot, fault, i)|
  }

  /** Past "Starting creative process...", the run log repeats the loop's lines. */
  lemma {:induction false} RunLogPrefix(b: PartialBook, cover: Option<string>, coverSlot: nat, fault: Fault, k: nat)
    requires b.chapters.Some? && k < |LoopLog(b, cover, coverSlot, fault, Stop(b, fault))|
    ensures var log, loop := RunLog(b, cover, coverSlot, fault), LoopLog(b, cover, coverSlot, fault, Stop(b, fault));
      |loop| < |log| && log[1 + k] == loop[k]
  {
    var loop := LoopLog(b, cover, coverSlot, fault, Stop(b, fault));
    assert RunLog(b, cover, coverSlot, fault) == [STARTING_LINE] + loop + RunTail(b, cover, coverSlot, fault);
  }

  /** Each chapter the loop reaches opens with its "Writing" line. */
  lemma {:induction false} RunLogWritingAt(b: PartialBook, cover: Option<string>, coverSlot: nat, fault: Fault, j: nat)
    requires b.chapters.Some? && j < |b.chapters.value|
    requires !(fault.ChapterFault? && fault.index < j)
    ensures var log := RunLog(b, cover, coverSlot, fault);
      && WindowStart(b, cover, coverSlot, fault, j) < |log|
      && log[WindowStart(b, cover, coverSlot, fault, j)] == WritingLine(b.chapters.value[j])
  {
    var stop := Stop(b, fault);
    var loop := LoopLog(b, cover, coverSlot, fault, stop);
    if j < stop {
      LoopLogAt(b, cover, coverSlot, fault, stop, j);
      RunLogPrefix(b, cover, coverSlot, fault, |LoopLog(b, cover, coverSlot, fault, j)|);
    } else {
      var tail := RunTail(b, cover, coverSlot, fault);
      assert RunLog(b, cover, coverSlot, fault) == [STARTING_LINE] + loop + tail;
      assert tail[0] == WritingLine(b.chapters.value[j]);
    }
  }

  /** Each chapter the loop finishes closes with its "Chapter i+1 completed." line. */
  lemma {:induction false} RunLogDoneAt(b: PartialBook, cover: Option<string>, coverSlot: nat, fault: Fault, i: nat)
    requires b.chapters.Some? && i < |b.chapters.value|
    requires !(fault.ChapterFault? && fault.index <= i)
    ensures var log, d := RunLog(b, cover, coverSlot, fault), WindowStart(b, cover, coverSlot, fault, i + 1) - 1;
      d < |log| && log[d] == ChapterDoneLine(i)
  {
    var end := |LoopLog(b, cover, coverSlot, fault, i + 1)|;
    var stop := Stop(b, fault);
    assert i < stop;
    LoopLogAt(b, cover, coverSlot, fault, stop, i);
    RunLogPrefix(b, cover, coverSlot, fault, end - 1);
    assert 1 + (end - 1) == WindowStart(b, cover, coverSlot, fault, i + 1) - 1;
  }

  /**
   * "Starting creative process..." comes first; each chapter that the run
   * finishes has its "Writing" line followed by its "Chapter i+1 completed."
   * line, and the next chapter's "Writing" line comes right after both.
   */
  lemma {:induction false} RunLogOrder(b: PartialBook, cover: Option<string>, coverSlot: nat, fault: Fault, i: nat)
    requires b.chapters.Some? && i < |b.chapters.value|
    requires !(fault.ChapterFault? && fault.index <= i)
    ensures var log, chapters := RunLog(b, cover, coverSlot, fault), b.chapters.value;
      var w, d := WindowStart(b, cover, coverSlot, fault, i), WindowStart(b, cover, coverSlot, fault, i + 1) - 1;
      && log[0] == STARTING_LINE
      && w < d < |log|
      && log[w] == WritingLine(chapters[i])
      && log[d] == ChapterDoneLine(i)
      && (i + 1 < |chapters| ==> d + 1 < |log| && log[d + 1] == WritingLine(chapters[i + 1]))
  {
    RunLogWritingAt(b, cover, coverSlot, fault, i);
    RunLogDoneAt(b, cover, coverSlot, fault, i);
    LoopLogAt(b, cover, coverSlot, fault, i + 1, i);
    if i + 1 < |b.chapters.value| {
      RunLogWritingAt(b, cover, coverSlot, fault, i + 1);
    }
  }

  /** An aborted run ends its log with the critical-error line. */
  lemma AbortedRunLogsCritical(b: PartialBook, cover: Option<string>, coverSlot: nat, fault: Fault)
    requires b.chapters.Some? && Aborts(b, fault)
    ensures var log := RunLog(b, cover, coverSlot, fault);
      log[0] == STARTING_LINE && log[|log| - 1] == CRITICAL_LINE
  {
  }

  // ---------------------------------------------------------------------------
  // The committed book

  /**
   * A run that is not aborted commits every chapter of the outline, in order,
   * each with content, together with the cover's result; nothing else of the
   * book changes. An absent cover is committed as absent.
   */
  lemma CommittedBook(b: PartialBook, service: ChapterService, cover: Option<string>)
    requires Ready(b)
    ensures var r := Committed(b, service, cover);
      && r.title == b.title && r.topic == b.topic && r.targetAudience == b.targetAudience
      && r.coverImageBase64 == cover
      && r.chapters.Some? && |r.chapters.value| == |b.chapters.value|
      && (forall i :: 0 <= i < |b.chapters.value| ==>
            && r.chapters.value[i] == Written(b, service, i)
            && r.chapters.value[i].content.Some?)
  {
    FillSpec(b, service, |b.chapters.value|);
  }

  /** A chapter whose call failed carries the fixed error text; the others keep their own results. */
  lemma {:induction false} FailedChapterIsDegraded(b: PartialBook, service: ChapterService, i: nat)
    requires Ready(b) && i < |b.chapters.value|
    requires service(i, Request(b, i)).Threw?
    ensures |Fill(b, service, |b.chapters.value|)| == |b.chapters.value|
    ensures Fill(b, service, |b.chapters.value|)[i].content == Some(CHAPTER_ERROR_TEXT)
  {
    FillSpec(b, service, |b.chapters.value|);
  }

  /** An outline with an empty chapter list still passes the guard: one operation, the cover. */
  lemma EmptyOutlineRun(b: PartialBook)
    requires b.chapters == Some([]) && Truthy(b.title) && Truthy(b.topic)
    ensures Ready(b) && TotalOps(b) == 1
    ensures RunSnapshots(b, NoFault) ==
      [Snapshot(DESIGNING_TASK, 0, 1), Snapshot(FINALIZING_TASK, 0, 1), Snapshot(DONE_TASK, 1, 1)]
  {
  }
}
