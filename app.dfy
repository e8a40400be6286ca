/**
 * The wizard component: its state fields and the three handlers that move it
 * between the steps. Every awaited service call is a parameter holding that
 * call's outcome. Two ghost fields record what the interface observes over
 * time: every step that is set and every progress snapshot that is published.
 */
module App {
  import opened Types
  import opened GeminiService
  import opened Production

  const OUTLINE_OK_LINE := "Outline generated successfully."
  const OUTLINE_ERROR_LINE := "Error generating outline."

  /** `Analyzing topic: <topic>...` */
  function AnalyzingLine(topic: string): string {
    "Analyzing topic: " + topic + "..."
  }

  /** The topic reads back from its "Analyzing" line, so distinct topics log distinct lines. */
  lemma AnalyzingLineTopic(topic: string, other: string)
    ensures |AnalyzingLine(topic)| == |topic| + 20 && AnalyzingLine(topic)[17..17 + |topic|] == topic
    ensures AnalyzingLine(topic) == AnalyzingLine(other) ==> topic == other
  {
    var r, q := AnalyzingLine(topic), AnalyzingLine(other);
    assert r[17..17 + |topic|] == topic;
    if r == q {
      assert q[17..17 + |other|] == other;
    }
  }

  /** The characters String.prototype.trim removes that a typed topic can hold. */
  predicate IsSpace(c: char) {
    c == ' ' || c == '\t' || c == '\n' || c == '\r' || c == '\U{000B}' || c == '\U{000C}' || c == '\U{00A0}'
  }

  /** The input without its leading white space. */
  function TrimStart(s: string): (r: string)
    ensures |r| <= |s| && r == s[|s| - |r|..]
    ensures |s| > 0 && IsSpace(s[0]) ==> |r| < |s|
    ensures r == [] || !IsSpace(r[0])
    ensures forall k :: 0 <= k < |s| - |r| ==> IsSpace(s[k])
  {
    if |s| > 0 && IsSpace(s[0]) then
      var r := TrimStart(s[1..]);
      assert forall k :: 1 <= k < |s| ==> s[k] == s[1..][k - 1];
      r
    else s
  }

  /** The input without its trailing white space. */
  function TrimEnd(s: string): (r: string)
    ensures |r| <= |s| && r == s[..|r|]
    ensures |s| > 0 && IsSpace(s[|s| - 1]) ==> |r| < |s|
    ensures r == [] || !IsSpace(r[|r| - 1])
    ensures forall k :: |r| <= k < |s| ==> IsSpace(s[k])
  {
    if |s| > 0 && IsSpace(s[|s| - 1]) then
      var r := TrimEnd(s[..|s| - 1]);
      assert forall k :: 0 <= k < |s| - 1 ==> s[k] == s[..|s| - 1][k];
      r
    else s
  }

  /**
   * `input.trim()`: a slice of the input that neither starts nor ends with
   * white space, with only white space cut off at the two ends.
   */
  function Trim(s: string): (r: string)
    ensures r == [] || (!IsSpace(r[0]) && !IsSpace(r[|r| - 1]))
    ensures exists i, j :: 0 <= i <= j <= |s| && r == s[i..j] && forall k :: 0 <= k < |s| && !(i <= k < j) ==> IsSpace(s[k])
  {
    var t := TrimStart(s);
    var r := TrimEnd(t);
    CutBothEnds(s, t, r);
    r
  }

  /**
   * Cutting white space off the front of `s` (leaving `t`) and then off the
   * back of `t` (leaving `r`) keeps a slice of `s` and cuts only white space.
   */
  lemma CutBothEnds(s: string, t: string, r: string)
    requires |t| <= |s| && t == s[|s| - |t|..] && forall k :: 0 <= k < |s| - |t| ==> IsSpace(s[k])
    requires |r| <= |t| && r == t[..|r|] && forall k :: |r| <= k < |t| ==> IsSpace(t[k])
    ensures var i := |s| - |t|;
      && r == s[i..i + |r|]
      && forall k :: 0 <= k < |s| && !(i <= k < i + |r|) ==> IsSpace(s[k])
  {
    var i := |s| - |t|;
    forall k | i + |r| <= k < |s| ensures IsSpace(s[k]) {
      assert s[k] == t[k - i];
    }
  }

  /** A topic the input form can submit: non-empty, with no white space at either end. */
  predicate Submittable(topic: string) {
    |topic| > 0 && !IsSpace(topic[0]) && !IsSpace(topic[|topic| - 1])
  }

  /**
   * The input form submits `input.trim()`, and only when it is not empty: a
   * submitted topic is exactly a non-empty string that trimming leaves as it is.
   */
  lemma SubmittableIsTrimmed(topic: string)
    ensures Submittable(topic) <==> topic != "" && Trim(topic) == topic
  {
  }

  /**
   * The wizard's steps and the moves between them: the outline arriving, a run
   * starting, a run finishing or falling back to the outline, and a reset,
   * which is possible from every step.
   */
  predicate Edge(from: WizardStep, to: WizardStep)
    ensures to == Input ==> Edge(from, to)
    ensures to == Outline ==> (Edge(from, to) <==> from == Input || from == Generating)
    ensures to == Generating ==> (Edge(from, to) <==> from == Outline)
    ensures to == Result ==> (Edge(from, to) <==> from == Generating)
  {
    || to == Input
    || (from == Input && to == Outline)
    || (from == Outline && to == Generating)
    || (from == Generating && (to == Result || to == Outline))
  }

  /** Leaving the result step is only possible by a reset, and a run is only entered from the outline. */
  lemma EdgeShape(from: WizardStep, to: WizardStep)
    requires Edge(from, to)
    ensures from == Result ==> to == Input
    ensures to == Generating ==> from == Outline
    ensures to == Result ==> from == Generating
  {
  }

  /** A history of steps that starts at INPUT and only takes the wizard's moves. */
  ghost predicate StepTrace(steps: seq<WizardStep>) {
    |steps| > 0 && steps[0] == Input && forall i :: 0 < i < |steps| ==> Edge(steps[i - 1], steps[i])
  }

  /**
   * Along every history of steps: RESULT is only reached from GENERATING, a
   * run is only entered from OUTLINE, and RESULT is only left by a reset.
   */
  lemma TraceShape(steps: seq<WizardStep>)
    requires StepTrace(steps)
    ensures forall i :: 0 < i < |steps| && steps[i] == Result ==> steps[i - 1] == Generating
    ensures forall i :: 0 < i < |steps| && steps[i] == Generating ==> steps[i - 1] == Outline
    ensures forall i :: 0 < i < |steps| && steps[i - 1] == Result ==> steps[i] == Input
  {
    forall i | 0 < i < |steps| {
      EdgeShape(steps[i - 1], steps[i]);
    }
  }

  /** A history extended by one of the wizard's moves is again a history. */
  lemma StepTraceExtend(steps: seq<WizardStep>, next: WizardStep)
    requires StepTrace(steps) && Edge(steps[|steps| - 1], next)
    ensures StepTrace(steps + [next])
  {
    var t := steps + [next];
    forall i | 0 < i < |t| ensures Edge(t[i - 1], t[i]) {
      if i < |steps| {
        assert t[i - 1] == steps[i - 1] && t[i] == steps[i];
      }
    }
  }

  /** The operation count of a progress record stays within its total. */
  predicate Bounded(p: GenerationProgress) {
    0 <= p.completedChapters <= p.totalChapters
  }

  class BookSmith {
    var step: WizardStep
    var isLoading: bool
    var bookData: PartialBook
    var progress: GenerationProgress
    var logs: seq<string>

    /** Every step set so far, the current one last. */
    ghost var steps: seq<WizardStep>
    /** Every progress record set so far, the current one last. */
    ghost var snapshots: seq<GenerationProgress>

    ghost predicate Valid()
      reads this
    {
      && StepTrace(steps) && steps[|steps| - 1] == step
      && |snapshots| > 0 && snapshots[|snapshots| - 1] == progress
      && Bounded(progress)
      && (step == Result ==>
            bookData.chapters.Some? && forall c :: c in bookData.chapters.value ==> c.content.Some?)
    }

    /** The initial state: step INPUT, not loading, an empty book, zeroed progress, no logs. */
    constructor ()
      ensures Valid()
      ensures step == Input && !isLoading && bookData == EMPTY_BOOK && progress == ZERO_PROGRESS && logs == []
    {
      step := Input;
      isLoading := false;
      bookData := EMPTY_BOOK;
      progress := ZERO_PROGRESS;
      logs := [];
      steps := [Input];
      snapshots := [ZERO_PROGRESS];
    }

    /** addLog: appends one line. */
    method AddLog(msg: string)
      modifies this`logs
      ensures logs == old(logs) + [msg]
    {
      logs := logs + [msg];
    }

    /** setStep */
    method SetStep(s: WizardStep)
      modifies this`step, this`steps
      ensures step == s && steps == old(steps) + [s]
    {
      step := s;
      steps := steps + [s];
    }

    /** updateProgress: publishes the snapshot for `task` with the current operation count. */
    method UpdateProgress(task: string, completedOps: nat, totalOps: nat)
      requires totalOps > 0
      modifies this`progress, this`snapshots
      ensures progress == Snapshot(task, completedOps, totalOps)
      ensures snapshots == old(snapshots) + [progress]
    {
      progress := GenerationProgress(task, (completedOps as real / totalOps as real) * 100.0, completedOps, totalOps);
      snapshots := snapshots + [progress];
    }

    /**
     * handleInputSubmit: the book restarts as `{ topic }`; when the outline
     * arrives it is spread over it and the wizard moves to OUTLINE, otherwise
     * the step stays and the error is logged. Loading is off afterwards.
     */
    method HandleInputSubmit(topic: string, reply: Reply<Option<string>>, parse: string -> Reply<PartialBook>)
      requires Valid() && step == Input && Submittable(topic)
      modifies this
      ensures Valid()
      ensures var outline := GenerateBookOutline(reply, parse);
        && bookData == (if outline.Returned? then Merge(TopicOnly(topic), outline.value) else TopicOnly(topic))
        && step == (if outline.Returned? then Outline else Input)
        && steps == old(steps) + (if outline.Returned? then [Outline] else [])
        && logs == old(logs) + [AnalyzingLine(topic), if outline.Returned? then OUTLINE_OK_LINE else OUTLINE_ERROR_LINE]
      ensures !isLoading
      ensures progress == old(progress) && snapshots == old(snapshots)
    {
      isLoading := true;
      bookData := TopicOnly(topic);
      AddLog(AnalyzingLine(topic));
      var outline := GenerateBookOutline(reply, parse);
      if outline.Returned? {
        bookData := Merge(bookData, outline.value);
        StepTraceExtend(steps, Outline);
        SetStep(Outline);
        AddLog(OUTLINE_OK_LINE);
      } else {
        AddLog(OUTLINE_ERROR_LINE);
      }
      isLoading := false;
    }

    /**
     * handleStartGeneration. Without chapters, title or topic it does nothing
     * at all. Otherwise it launches the cover, writes the chapters in order,
     * joins the cover and commits chapters and cover in one update before
     * moving to RESULT; a fatal error moves back to OUTLINE and commits nothing.
     * `coverSlot` is the chapter during whose await the cover settles (from
     * the number of chapters on: the final await); `fault` is the fatal error.
     */
    method HandleStartGeneration(coverReply: Reply<ImageResponse>, service: ChapterService, coverSlot: nat, fault: Fault)
      requires Valid() && step == Outline
      modifies this
      ensures Valid()
      ensures !Ready(old(bookData)) ==> unchanged(this)
      ensures Ready(old(bookData)) ==>
        var b, cover := old(bookData), CoverImageOf(coverReply);
        && logs == old(logs) + RunLog(b, cover, coverSlot, fault)
        && snapshots == old(snapshots) + RunSnapshots(b, fault)
        && progress == snapshots[|snapshots| - 1]
        && bookData == (if Aborts(b, fault) then b else Committed(b, service, cover))
        && step == (if Aborts(b, fault) then Outline else Result)
        && steps == old(steps) + [Generating] + [step]
        && isLoading == old(isLoading)
    {
      if !Ready(bookData) {
        return;
      }
      ghost var b, cover := bookData, CoverImageOf(coverReply);
      Produce(coverReply, service, coverSlot, fault);
      RunLogAssembled(old(logs), b, cover, coverSlot, fault, Stop(b, fault));
      if fault.ChapterFault? && fault.index < |b.chapters.value| {
        AbortedSnapshotsAssembled(old(snapshots), b, fault);
      } else {
        FinishedSnapshotsAssembled(old(snapshots), b, fault);
      }
      StepTraceExtend(old(steps), Generating);
      StepTraceExtend(old(steps) + [Generating], step);
      if !Aborts(b, fault) {
        CommittedBook(b, service, cover);
      }
    }

    /**
     * handleStartGeneration once the guard has passed, with the log and the
     * snapshots stated phase by phase: the opening, the chapter loop up to
     * where it stops, and what follows it.
     */
    method Produce(coverReply: Reply<ImageResponse>, service: ChapterService, coverSlot: nat, fault: Fault)
      requires Ready(bookData)
      modifies this
      ensures var b, cover := old(bookData), CoverImageOf(coverReply);
        logs == old(logs) + [STARTING_LINE] + LoopLog(b, cover, coverSlot, fault, Stop(b, fault)) + RunTail(b, cover, coverSlot, fault)
      ensures var b := old(bookData);
        fault.ChapterFault? && fault.index < |b.chapters.value| ==>
          snapshots == old(snapshots) + [Snapshot(DESIGNING_TASK, 0, TotalOps(b))] + LoopSnapshots(b, Stop(b, fault) + 1)
      ensures var b := old(bookData);
        !(fault.ChapterFault? && fault.index < |b.chapters.value|) ==>
          snapshots == old(snapshots) + [Snapshot(DESIGNING_TASK, 0, TotalOps(b))] + LoopSnapshots(b, Stop(b, fault)) + Closing(b, fault)
      ensures |snapshots| > 0 && progress == snapshots[|snapshots| - 1] && Bounded(progress)
      ensures var b, cover := old(bookData), CoverImageOf(coverReply);
        && bookData == (if Aborts(b, fault) then b else Committed(b, service, cover))
        && step == (if Aborts(b, fault) then Outline else Result)
        && steps == old(steps) + [Generating] + [step]
        && isLoading == old(isLoading)
    {
      var book := bookData;
      Launch(book);
      // the cover's result is fixed at launch and consumed after the loop
      var coverImage := GenerateCoverImage(coverReply);
      var filledChapters, completedOps, aborted :=
        WriteChapters(book, coverImage, service, coverSlot, fault, old(logs), old(snapshots), old(steps));
      if !aborted {
        if fault == CoverFault {
          CoverRejected(book, completedOps, coverImage, coverSlot, fault);
        } else {
          Commit(book, filledChapters, completedOps, coverImage, service, coverSlot, fault);
        }
      }
    }

    /** The run's start: step GENERATING, the opening log line and the cover's snapshot. */
    method Launch(book: PartialBook)
      requires Ready(book)
      modifies this`step, this`steps, this`logs, this`progress, this`snapshots
      ensures step == Generating && steps == old(steps) + [Generating]
      ensures logs == old(logs) + [STARTING_LINE]
      ensures progress == Snapshot(DESIGNING_TASK, 0, TotalOps(book)) && snapshots == old(snapshots) + [progress]
    {
      SetStep(Generating);
      AddLog(STARTING_LINE);
      UpdateProgress(DESIGNING_TASK, 0, |book.chapters.value| + 1);
    }

    /**
     * After the loop, when the cover promise rejects: "Finalizing" is
     * published, the join throws, the error is logged and the wizard goes
     * back to OUTLINE with nothing committed.
     */
    method CoverRejected(book: PartialBook, completedOps: nat, coverImage: Option<string>, coverSlot: nat, fault: Fault)
      requires Ready(book) && fault == CoverFault && completedOps == |book.chapters.value|
      modifies this`logs, this`progress, this`snapshots, this`step, this`steps
      ensures logs == old(logs) + RunTail(book, coverImage, coverSlot, fault)
      ensures snapshots == old(snapshots) + Closing(book, fault)
      ensures |snapshots| > 0 && progress == snapshots[|snapshots| - 1] && Bounded(progress)
      ensures step == Outline && steps == old(steps) + [Outline]
    {
      CoverRejectedTail(book, coverImage, coverSlot, fault);
      UpdateProgress(FINALIZING_TASK, completedOps, |book.chapters.value| + 1);
      AddLog(CRITICAL_LINE);
      SetStep(Outline);
    }

    /**
     * After the loop, when the cover resolves: "Finalizing" is published, the
     * cover's line is logged if it settles only now, the cover is counted,
     * chapters and cover are committed in one update, "Done!" is published and
     * the wizard moves to RESULT.
     */
    method Commit(book: PartialBook, filledChapters: seq<Chapter>, completedOps: nat, coverImage: Option<string>,
                  service: ChapterService, coverSlot: nat, fault: Fault)
      requires Ready(book) && !Aborts(book, fault)
      requires completedOps == |book.chapters.value| && filledChapters == Fill(book, service, |book.chapters.value|)
      modifies this`logs, this`progress, this`snapshots, this`step, this`steps, this`bookData
      ensures logs == old(logs) + RunTail(book, coverImage, coverSlot, fault)
      ensures snapshots == old(snapshots) + Closing(book, fault)
      ensures |snapshots| > 0 && progress == snapshots[|snapshots| - 1] && Bounded(progress)
      ensures bookData == Committed(book, service, coverImage)
      ensures step == Result && steps == old(steps) + [Result]
    {
      var totalOps := |book.chapters.value| + 1;
      UpdateProgress(FINALIZING_TASK, completedOps, totalOps);
      ghost var finalizing := progress;
      CommitTail(book, coverImage, coverSlot, fault);
      if coverSlot >= |book.chapters.value| {
        AddLog(CoverLine(coverImage));
      } else {
        assert logs == old(logs) + [];
      }
      bookData := book.(chapters := Some(filledChapters), coverImageBase64 := coverImage);
      assert bookData == Committed(book, service, coverImage);
      UpdateProgress(DONE_TASK, completedOps + 1, totalOps);
      SeqAssoc(old(snapshots), [finalizing], [progress]);
      SetStep(Result);
    }

    /**
     * The chapter loop: strictly in array order, until every chapter is
     * written or the fatal error of `fault` is met. The operation count
     * equals the loop index throughout.
     */
    method WriteChapters(book: PartialBook, coverImage: Option<string>, service: ChapterService, coverSlot: nat, fault: Fault,
                         ghost logs0: seq<string>, ghost snapshots0: seq<GenerationProgress>, ghost steps0: seq<WizardStep>)
      returns (filled: seq<Chapter>, completedOps: nat, aborted: bool)
      requires Ready(book)
      requires logs == logs0 + [STARTING_LINE]
      requires snapshots == snapshots0 + [progress] && progress == Snapshot(DESIGNING_TASK, 0, TotalOps(book))
      requires steps == steps0 + [Generating]
      modifies this`logs, this`progress, this`snapshots, this`step, this`steps
      ensures aborted == (fault.ChapterFault? && fault.index < |book.chapters.value|)
      ensures |snapshots| > 0 && progress == snapshots[|snapshots| - 1] && Bounded(progress)
      ensures aborted ==>
        && logs == logs0 + [STARTING_LINE] + LoopLog(book, coverImage, coverSlot, fault, Stop(book, fault)) + RunTail(book, coverImage, coverSlot, fault)
        && snapshots == snapshots0 + [Snapshot(DESIGNING_TASK, 0, TotalOps(book))] + LoopSnapshots(book, Stop(book, fault) + 1)
        && step == Outline && steps == steps0 + [Generating] + [Outline]
      ensures !aborted ==>
        && filled == Fill(book, service, |book.chapters.value|)
        && completedOps == |book.chapters.value|
        && logs == logs0 + [STARTING_LINE] + LoopLog(book, coverImage, coverSlot, fault, Stop(book, fault))
        && snapshots == snapshots0 + [Snapshot(DESIGNING_TASK, 0, TotalOps(book))] + LoopSnapshots(book, Stop(book, fault))
        && step == old(step) && steps == old(steps)
    {
      ghost var logsBefore, snapshotsBefore := logs, snapshots;
      assert logsBefore + LoopLog(book, coverImage, coverSlot, fault, 0) == logsBefore;
      assert snapshotsBefore + LoopSnapshots(book, 0) == snapshotsBefore;
      filled, completedOps := [], 0;
      for i := 0 to |book.chapters.value|
        invariant completedOps == i
        invariant filled == Fill(book, service, i)
        invariant logs == logsBefore + LoopLog(book, coverImage, coverSlot, fault, i)
        invariant snapshots == snapshotsBefore + LoopSnapshots(book, i)
        invariant |snapshots| > 0 && progress == snapshots[|snapshots| - 1] && Bounded(progress)
        invariant !(fault.ChapterFault? && fault.index < i)
        invariant step == old(step) && steps == old(steps)
      {
        var written := WriteChapter(book, coverImage, service, coverSlot, fault, i, logsBefore, snapshotsBefore);
        if written.None? {
          assert i == Stop(book, fault);
          return filled, completedOps, true;
        }
        assert Fill(book, service, i + 1) == Fill(book, service, i) + [Written(book, service, i)];
        filled := filled + [written.value];
        completedOps := completedOps + 1;
      }
      assert |book.chapters.value| == Stop(book, fault);
      return filled, completedOps, false;
    }

    /**
     * One turn of the chapter loop: announce chapter `i`, log its "Writing"
     * line (and the cover's line if the cover settles during this await), then
     * either meet the fatal error, log it and go back to OUTLINE, or write the
     * chapter and log its completion. `logs0` and `snapshots0` are the log and
     * the snapshots before the loop.
     */
    method WriteChapter(book: PartialBook, coverImage: Option<string>, service: ChapterService, coverSlot: nat, fault: Fault, i: nat,
                        ghost logs0: seq<string>, ghost snapshots0: seq<GenerationProgress>)
      returns (written: Option<Chapter>)
      requires Ready(book) && i < |book.chapters.value|
      requires logs == logs0 + LoopLog(book, coverImage, coverSlot, fault, i)
      requires snapshots == snapshots0 + LoopSnapshots(book, i)
      modifies this`logs, this`progress, this`snapshots, this`step, this`steps
      ensures snapshots == snapshots0 + LoopSnapshots(book, i + 1)
      ensures progress == snapshots[|snapshots| - 1] && Bounded(progress)
      ensures fault == ChapterFault(i) ==>
        && written.None?
        && logs == logs0 + LoopLog(book, coverImage, coverSlot, fault, i) + RunTail(book, coverImage, coverSlot, fault)
        && step == Outline && steps == old(steps) + [Outline]
      ensures fault != ChapterFault(i) ==>
        && written == Some(Written(book, service, i))
        && logs == logs0 + LoopLog(book, coverImage, coverSlot, fault, i + 1)
        && step == old(step) && steps == old(steps)
    {
      var chapter := book.chapters.value[i];
      ghost var before := logs;
      ghost var coverPart := if coverSlot == i then CoverEntry(coverImage, fault) else [];
      AnnounceChapter(book, coverImage, coverSlot, fault, i, snapshots0);
      if fault == ChapterFault(i) {
        ChapterFaultTail(book, coverImage, coverSlot, fault, i);
        AddLog(CRITICAL_LINE);
        SetStep(Outline);
        SeqAssoc3(before, [WritingLine(chapter)], coverPart, [CRITICAL_LINE]);
        return None;
      }
      var content := GenerateChapterContent(service(i, ChapterRequest(book.title.value, chapter, Audience(book.targetAudience))));
      AddLog(ChapterDoneLine(i));
      SeqAssoc3(before, [WritingLine(chapter)], coverPart, [ChapterDoneLine(i)]);
      LoopLogStep(logs0, book, coverImage, coverSlot, fault, i);
      return Some(chapter.(content := Some(content)));
    }

    /**
     * The start of one turn: chapter `i`'s snapshot at `i` operations done,
     * its "Writing" line, and the cover's line when the cover settles during
     * this chapter's await.
     */
    method AnnounceChapter(book: PartialBook, coverImage: Option<string>, coverSlot: nat, fault: Fault, i: nat,
                           ghost snapshots0: seq<GenerationProgress>)
      requires Ready(book) && i < |book.chapters.value|
      requires snapshots == snapshots0 + LoopSnapshots(book, i)
      modifies this`logs, this`progress, this`snapshots
      ensures snapshots == snapshots0 + LoopSnapshots(book, i + 1)
      ensures progress == snapshots[|snapshots| - 1] && Bounded(progress)
      ensures logs == old(logs) + [WritingLine(book.chapters.value[i])] + (if coverSlot == i then CoverEntry(coverImage, fault) else [])
    {
      var chapter := book.chapters.value[i];
      UpdateProgress(WritingTask(i, chapter), i, |book.chapters.value| + 1);
      LoopSnapshotsStep(snapshots0, book, i);
      AddLog(WritingLine(chapter));
      if coverSlot == i && fault != CoverFault {
        AddLog(CoverLine(coverImage));
      } else {
        assert logs + [] == logs;
      }
    }

    /** handleReset: an empty book, no logs, zeroed progress, step INPUT. */
    method HandleReset()
      requires Valid()
      modifies this
      ensures Valid()
      ensures bookData == EMPTY_BOOK && logs == [] && step == Input && progress == ZERO_PROGRESS
      ensures steps == old(steps) + [Input] && snapshots == old(snapshots) + [ZERO_PROGRESS]
      ensures isLoading == old(isLoading)
    {
      bookData := EMPTY_BOOK;
      logs := [];
      SetStep(Input);
      progress := ZERO_PROGRESS;
      snapshots := snapshots + [progress];
    }
  }
}
