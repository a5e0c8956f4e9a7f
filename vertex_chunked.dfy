/**
 * The archived Vertex AI chunking script
 * (`archive/analyze_video_vertex_chunked.py`): the duration it works with,
 * its decision to chunk (with no short-video guard), the per-segment
 * request and the text or error string it returns, and the completion loop
 * that fills the results dict and the `errors` list before the results are
 * shown in segment order.
 */
module VertexChunked {
  import opened Wrappers
  import opened PyText
  import opened Responses
  import opened Segments
  import opened Reassembly

  // ---------------------------------------------------------------------
  // The duration and the decision
  // ---------------------------------------------------------------------

  /**
   * `video_duration`: the `--video-duration` argument, replaced by the
   * detected duration only when the argument is missing or 0 and yt-dlp is
   * installed.
   */
  function ResolveDuration(explicit: Option<int>, ytDlpAvailable: bool, detected: Option<int>): (d: Option<int>)
    ensures Truthy(explicit) ==> d == explicit
    ensures !Truthy(explicit) && ytDlpAvailable ==> d == detected
    ensures !Truthy(explicit) && !ytDlpAvailable ==> d == explicit
  {
    if !Truthy(explicit) && ytDlpAvailable then detected else explicit
  }

  /** `if args.enable_chunking and video_duration:` as written. */
  predicate ChunkAsWritten(enableChunking: bool, videoDuration: Option<int>) {
    enableChunking && Truthy(videoDuration)
  }

  /**
   * As written, there is no short-video guard and no check of the segment
   * length: every known, non-zero duration is chunked whatever the segment
   * length, so a video no longer than one segment is still chunked, and a
   * positive duration with segments of 0 seconds or less reaches the
   * segmenting loop, which never moves `start` up to the duration.
   */
  lemma ChunkAsWrittenUnguarded(d: int, len: int)
    requires d != 0
    ensures ChunkAsWritten(true, Some(d))
    ensures len <= 0 < d ==> forall passes: nat :: StartAfter(passes, d, len) < d
  {
    if len <= 0 < d {
      forall passes: nat ensures StartAfter(passes, d, len) < d {
        NonPositiveLengthNeverFinishes(d, len, passes);
      }
    }
  }

  /** The decision with the segment length checked before the segments are made. */
  predicate ChunkChecked(enableChunking: bool, videoDuration: Option<int>, segmentDuration: int) {
    ChunkAsWritten(enableChunking, videoDuration) && segmentDuration > 0
  }

  /**
   * The checked decision agrees with the one as written for every positive
   * segment length, and when it chunks, the segmenting loop ends after
   * `ceil(duration / length)` passes.
   */
  lemma ChunkCheckedCorrected(enableChunking: bool, videoDuration: Option<int>, segmentDuration: int)
    ensures segmentDuration > 0 ==>
      (ChunkChecked(enableChunking, videoDuration, segmentDuration) <==> ChunkAsWritten(enableChunking, videoDuration))
    ensures ChunkChecked(enableChunking, videoDuration, segmentDuration) && videoDuration.value > 0 ==>
      StartAfter(SegmentCount(videoDuration.value, segmentDuration), videoDuration.value, segmentDuration)
      == videoDuration.value
  {
    if ChunkChecked(enableChunking, videoDuration, segmentDuration) && videoDuration.value > 0 {
      PositiveLengthFinishes(videoDuration.value, segmentDuration, 0);
    }
  }

  // ---------------------------------------------------------------------
  // analyze_segment_with_vertex
  // ---------------------------------------------------------------------

  const ArchivedPromptPrefix: string := "Analyze the video segment from "
  const TimestampRequest: string := ". If you reference any events, please include their timestamps. "

  /** The segment prompt: the window's offsets, a request for timestamps, then the user's prompt. */
  function ArchivedSegmentPrompt(prompt: string, segment: VideoSegment): string {
    ArchivedPromptPrefix + OffsetText(segment.startOffset) + " to " + OffsetText(segment.endOffset) + TimestampRequest + prompt
  }

  /** Reads an archived segment prompt back into (start, end, user prompt). */
  function ParseArchivedPrompt(s: string): (int, int, string) {
    ParseWindowPrompt(s, |ArchivedPromptPrefix|, |TimestampRequest|)
  }

  /** The request for one segment: the model by its bare name, the video clipped to the window. */
  function ArchivedSegmentRequest(youtubeUrl: string, prompt: string, segment: VideoSegment, model: string): (r: Request)
    ensures r.model == model && r.fileUri == youtubeUrl
    ensures r.mimeType == Some(VideoMimeType) && r.clip.Some?
  {
    Request(model, youtubeUrl, Some(VideoMimeType),
            Some(Clip(OffsetText(segment.startOffset), OffsetText(segment.endOffset))),
            ArchivedSegmentPrompt(prompt, segment))
  }

  /**
   * The archived request names its window in the clip offsets and again in
   * the prompt, and the prompt ends with the user's prompt.
   */
  lemma ArchivedRequestNamesWindow(youtubeUrl: string, prompt: string, segment: VideoSegment, model: string)
    ensures var r := ArchivedSegmentRequest(youtubeUrl, prompt, segment, model);
      && ParseOffset(r.clip.value.startOffset) == segment.startOffset
      && ParseOffset(r.clip.value.endOffset) == segment.endOffset
      && ParseArchivedPrompt(r.prompt) == (segment.startOffset, segment.endOffset, prompt)
  {
    OffsetRoundTrip(segment.startOffset);
    OffsetRoundTrip(segment.endOffset);
    WindowPromptFields(ArchivedPromptPrefix, IntStr(segment.startOffset), IntStr(segment.endOffset), TimestampRequest, prompt);
  }

  /** `"Error processing" in result`: what the completion loop counts as a failed segment. */
  predicate Flagged(text: string) {
    Contains(text, "Error processing")
  }

  /** A string that begins with `sub` contains it. */
  lemma ContainsPrefix(sub: string, rest: string)
    ensures Contains(sub + rest, sub)
  {
    assert (sub + rest)[..|sub|] == sub;
  }

  /** `f"Error processing {segment}: {e}"`, which the completion loop always flags. */
  function ErrorText(segment: VideoSegment, message: string): (r: string)
    ensures Flagged(r)
  {
    var tail := " " + Label(segment) + ": " + message;
    ContainsPrefix("Error processing", tail);
    "Error processing" + tail
  }

  /**
   * `analyze_segment_with_vertex`: the segment it was given with the joined
   * text, `"No response for {segment}"` when that text is empty, or
   * `"Error processing {segment}: {e}"` when the call raises.
   */
  function AnalyzeSegmentWithVertex(service: Service, youtubeUrl: string, prompt: string, segment: VideoSegment, model: string): (r: SegmentResult)
    ensures r.segment == segment
    ensures r.text != ""
    ensures service(ArchivedSegmentRequest(youtubeUrl, prompt, segment, model)).Raised? ==>
      r.text == ErrorText(segment, service(ArchivedSegmentRequest(youtubeUrl, prompt, segment, model)).message)
      && Flagged(r.text)
    ensures service(ArchivedSegmentRequest(youtubeUrl, prompt, segment, model)).Responded? ==>
      var response := service(ArchivedSegmentRequest(youtubeUrl, prompt, segment, model)).response;
      && (BlankCandidates(CandidatesOf(response)) ==> r.text == "No response for " + Label(segment))
      && (!BlankCandidates(CandidatesOf(response)) ==> r.text == JoinedText(response) && IsStripped(r.text))
  {
    match service(ArchivedSegmentRequest(youtubeUrl, prompt, segment, model))
    case Responded(response) =>
      JoinedTextEmptyIff(response);
      var text := JoinedText(response);
      SegmentResult(segment, if text == "" then "No response for " + Label(segment) else text)
    case Raised(message) => SegmentResult(segment, ErrorText(segment, message))
  }

  /** The text `analyze_segment_with_vertex` gives for each segment of the list. */
  function ArchivedTexts(service: Service, youtubeUrl: string, prompt: string, segments: seq<VideoSegment>, model: string): (r: seq<string>)
    ensures |r| == |segments|
    ensures forall j :: 0 <= j < |r| ==> r[j] == AnalyzeSegmentWithVertex(service, youtubeUrl, prompt, segments[j], model).text
  {
    seq(|segments|, j requires 0 <= j < |segments| => AnalyzeSegmentWithVertex(service, youtubeUrl, prompt, segments[j], model).text)
  }

  // ---------------------------------------------------------------------
  // The completion loop: results and errors
  // ---------------------------------------------------------------------

  /** `errors` after the segments at positions `done` completed: the flagged ones' indices, in completion order. */
  function FlaggedIndices(segs: seq<VideoSegment>, texts: seq<string>, done: seq<nat>): seq<int>
    requires |texts| == |segs|
    requires forall p :: 0 <= p < |done| ==> done[p] < |segs|
  {
    if done == [] then []
    else
      var j := done[|done| - 1];
      FlaggedIndices(segs, texts, done[..|done| - 1]) + (if Flagged(texts[j]) then [segs[j].segmentIndex] else [])
  }

  /** Recording one more completed position, as the completion loop does. */
  lemma FlaggedPrefixStep(segs: seq<VideoSegment>, texts: seq<string>, order: seq<nat>, i: nat)
    requires |texts| == |segs| && i < |order|
    requires forall p :: 0 <= p < |order| ==> order[p] < |segs|
    ensures FlaggedIndices(segs, texts, order[..i + 1])
         == FlaggedIndices(segs, texts, order[..i]) + (if Flagged(texts[order[i]]) then [segs[order[i]].segmentIndex] else [])
  {
    assert order[..i + 1][..i] == order[..i];
  }

  /** `errors` lists the index of every completed segment whose text is flagged, and nothing else. */
  lemma {:induction false} FlaggedIndicesMembers(segs: seq<VideoSegment>, texts: seq<string>, done: seq<nat>)
    requires |texts| == |segs|
    requires forall p :: 0 <= p < |done| ==> done[p] < |segs|
    ensures forall x :: x in FlaggedIndices(segs, texts, done) <==>
      exists p :: 0 <= p < |done| && Flagged(texts[done[p]]) && segs[done[p]].segmentIndex == x
  {
    if done != [] {
      var init := done[..|done| - 1];
      FlaggedIndicesMembers(segs, texts, init);
      assert forall p :: 0 <= p < |init| ==> init[p] == done[p];
      var j := done[|done| - 1];
      forall x | exists p :: 0 <= p < |done| && Flagged(texts[done[p]]) && segs[done[p]].segmentIndex == x
        ensures x in FlaggedIndices(segs, texts, done)
      {
        var p :| 0 <= p < |done| && Flagged(texts[done[p]]) && segs[done[p]].segmentIndex == x;
        if p < |init| {
          assert x in FlaggedIndices(segs, texts, init);
        }
      }
    }
  }

  /**
   * Segments with distinct indices, each completed once, put no index in
   * `errors` twice: `len(errors)` counts the flagged segments.
   */
  lemma {:induction false} FlaggedIndicesDistinct(segs: seq<VideoSegment>, texts: seq<string>, done: seq<nat>)
    requires |texts| == |segs|
    requires forall p :: 0 <= p < |done| ==> done[p] < |segs|
    requires DistinctIndices(segs)
    requires forall p, q :: 0 <= p < q < |done| ==> done[p] != done[q]
    ensures DistinctInts(FlaggedIndices(segs, texts, done))
  {
    if done != [] {
      var init := done[..|done| - 1];
      var j := done[|done| - 1];
      assert forall p :: 0 <= p < |init| ==> init[p] == done[p];
      FlaggedIndicesDistinct(segs, texts, init);
      var before := FlaggedIndices(segs, texts, init);
      if Flagged(texts[j]) {
        var x := segs[j].segmentIndex;
        FlaggedIndicesMembers(segs, texts, init);
        forall p | 0 <= p < |init|
          ensures segs[init[p]].segmentIndex != x
        {
          assert init[p] != j;
        }
        assert x !in before;
        assert forall p :: 0 <= p < |before| ==> before[p] in before;
      }
    }
  }

  /** `errors` has one entry per completed segment at most, and as many exactly when every one is flagged. */
  lemma {:induction false} FlaggedCount(segs: seq<VideoSegment>, texts: seq<string>, done: seq<nat>)
    requires |texts| == |segs|
    requires forall p :: 0 <= p < |done| ==> done[p] < |segs|
    ensures |FlaggedIndices(segs, texts, done)| <= |done|
    ensures |FlaggedIndices(segs, texts, done)| == |done| <==> forall p :: 0 <= p < |done| ==> Flagged(texts[done[p]])
  {
    if done != [] {
      var init := done[..|done| - 1];
      FlaggedCount(segs, texts, init);
      assert forall p :: 0 <= p < |init| ==> init[p] == done[p];
    }
  }

  /**
   * `len(errors) == len(segments)` after every segment completed, whatever
   * the order, exactly when every segment's text is flagged.
   */
  lemma AllFlaggedIff(segs: seq<VideoSegment>, texts: seq<string>, order: seq<nat>)
    requires |texts| == |segs|
    requires IsCompletionOrder(order, |segs|)
    ensures |FlaggedIndices(segs, texts, order)| == |segs| <==> forall j :: 0 <= j < |segs| ==> Flagged(texts[j])
  {
    FlaggedCount(segs, texts, order);
    if forall p :: 0 <= p < |order| ==> Flagged(texts[order[p]]) {
      forall j | 0 <= j < |segs| ensures Flagged(texts[j]) {
        assert j in order;
        var p :| 0 <= p < |order| && order[p] == j;
      }
    }
  }

  /**
   * The completion loop of `main`: each finished segment's result goes into
   * the dict under its index, and its index is appended to `errors` when
   * its text is flagged.
   */
  method CollectSegments(service: Service, youtubeUrl: string, prompt: string, segments: seq<VideoSegment>, model: string, order: seq<nat>)
    returns (results: Results, errors: seq<int>)
    requires IsCompletionOrder(order, |segments|)
    ensures ValidResults(results)
    ensures results == Stored(segments, ArchivedTexts(service, youtubeUrl, prompt, segments, model), order)
    ensures errors == FlaggedIndices(segments, ArchivedTexts(service, youtubeUrl, prompt, segments, model), order)
  {
    ghost var texts := ArchivedTexts(service, youtubeUrl, prompt, segments, model);
    results := Results([], map[]);
    errors := [];
    var i := 0;
    while i < |order|
      invariant 0 <= i <= |order|
      invariant results == Stored(segments, texts, order[..i])
      invariant errors == FlaggedIndices(segments, texts, order[..i])
    {
      var done := AnalyzeSegmentWithVertex(service, youtubeUrl, prompt, segments[order[i]], model);
      assert done == SegmentResult(segments[order[i]], texts[order[i]]);
      StoredPrefixStep(segments, texts, order, i);
      FlaggedPrefixStep(segments, texts, order, i);
      results := Put(results, done.segment.segmentIndex, done);
      if Flagged(done.text) {
        errors := errors + [done.segment.segmentIndex];
      }
      i := i + 1;
    }
    assert order[..i] == order;
  }

  /** What the script warns after the loop. */
  datatype FailureNote =
    | NoFailures
    | SomeFailed(failed: nat, total: nat)      // "Warning: {failed}/{total} segments failed."
    | AllFailed(total: nat)                    // ... and "VideoMetadata chunking is not working."

  /** `if errors:` and `if len(errors) == len(segments):`. */
  function FailureWarning(errors: seq<int>, segmentCount: nat): FailureNote {
    if errors == [] then NoFailures
    else if |errors| == segmentCount then AllFailed(segmentCount)
    else SomeFailed(|errors|, segmentCount)
  }

  // ---------------------------------------------------------------------
  // main
  // ---------------------------------------------------------------------

  const AbortAdvice: string :=
    "\n\nMake sure:\n"
    + "1. You have authenticated with 'gcloud auth application-default login'\n"
    + "2. Your project has Vertex AI API enabled\n"
    + "3. Your project has billing enabled\n"
    + "4. VideoMetadata may not be fully supported yet"

  /** The single-pass request: the model by its bare name and the whole video as `video/mp4`. */
  function ArchivedFullRequest(youtubeUrl: string, prompt: string, model: string): (r: Request)
    ensures r.model == model && r.fileUri == youtubeUrl && r.prompt == prompt
    ensures r.mimeType == Some(VideoMimeType) && r.clip.None?
  {
    Request(model, youtubeUrl, Some(VideoMimeType), None, prompt)
  }

  /** What a run shows, or the message it exits with. */
  datatype ArchivedReport =
    | ChunkedRun(shown: seq<SegmentResult>, errors: seq<int>, warning: FailureNote)
    | FullRun(text: string)
    | Aborted(message: string)

  /**
   * `main` after argument parsing, with the checked decision. A chunked run
   * shows every window of the video in order with its own result, lists in
   * `errors` exactly the indices of the flagged windows, each once (so
   * `len(errors)` is the number of failed windows), and warns as
   * `errors` dictates: no failures exactly when no window is flagged, all
   * failed exactly when every window is. A single pass shows the extracted
   * text, and an exception from it ends the run with the advice message.
   */
  method RunArchived(service: Service, youtubeUrl: string, prompt: string, model: string, enableChunking: bool,
                     explicitDuration: Option<int>, ytDlpAvailable: bool, detectedDuration: Option<int>,
                     segmentDuration: int, order: seq<nat>)
    returns (report: ArchivedReport)
    requires var d := ResolveDuration(explicitDuration, ytDlpAvailable, detectedDuration);
      ChunkChecked(enableChunking, d, segmentDuration) ==> IsCompletionOrder(order, SegmentCount(d.value, segmentDuration))
    ensures var d := ResolveDuration(explicitDuration, ytDlpAvailable, detectedDuration);
      ChunkChecked(enableChunking, d, segmentDuration) ==>
        && report.ChunkedRun?
        && |report.shown| == SegmentCount(d.value, segmentDuration)
        && (forall k :: 0 <= k < |report.shown| ==>
              report.shown[k] == AnalyzeSegmentWithVertex(service, youtubeUrl, prompt, Window(d.value, segmentDuration, k), model))
        && (forall x :: x in report.errors <==>
              exists k :: 0 <= k < |report.shown| && Flagged(report.shown[k].text) && report.shown[k].segment.segmentIndex == x)
        && DistinctInts(report.errors)
        && report.warning == FailureWarning(report.errors, |report.shown|)
        && (report.warning.NoFailures? <==> forall k :: 0 <= k < |report.shown| ==> !Flagged(report.shown[k].text))
        && (report.warning.AllFailed? <==>
              report.shown != [] && forall k :: 0 <= k < |report.shown| ==> Flagged(report.shown[k].text))
    ensures var d := ResolveDuration(explicitDuration, ytDlpAvailable, detectedDuration);
      !ChunkChecked(enableChunking, d, segmentDuration) ==>
        var reply := service(ArchivedFullRequest(youtubeUrl, prompt, model));
        && (reply.Responded? ==> report == FullRun(ExtractedText(reply.response)))
        && (reply.Raised? ==> report == Aborted("Error: " + reply.message + AbortAdvice))
  {
    var videoDuration := ResolveDuration(explicitDuration, ytDlpAvailable, detectedDuration);
    if ChunkChecked(enableChunking, videoDuration, segmentDuration) {
      var d := videoDuration.value;
      var segments := CreateVideoSegments(d, segmentDuration);
      var results, errors := CollectSegments(service, youtubeUrl, prompt, segments, model, order);
      ArchivedShown(service, youtubeUrl, prompt, model, segments, d, segmentDuration, order);
      report := ChunkedRun(DisplayOrder(results), errors, FailureWarning(errors, |segments|));
    } else {
      match service(ArchivedFullRequest(youtubeUrl, prompt, model)) {
        case Responded(response) =>
          var text := ExtractText(response);
          report := FullRun(text);
        case Raised(message) =>
          report := Aborted("Error: " + message + AbortAdvice);
      }
    }
  }

  /**
   * The windows of a video, collected in any completion order, are shown
   * in window order, and the `errors` list and the all-failed warning
   * follow the flagged windows.
   */
  lemma ArchivedShown(service: Service, youtubeUrl: string, prompt: string, model: string,
                      segments: seq<VideoSegment>, total: int, len: int, order: seq<nat>)
    requires len > 0
    requires |segments| == SegmentCount(total, len)
    requires forall k :: 0 <= k < |segments| ==> segments[k] == Window(total, len, k)
    requires IsCompletionOrder(order, |segments|)
    ensures var texts := ArchivedTexts(service, youtubeUrl, prompt, segments, model);
      var shown := DisplayOrder(Stored(segments, texts, order));
      var errors := FlaggedIndices(segments, texts, order);
      && |shown| == |segments|
      && (forall k :: 0 <= k < |shown| ==>
            shown[k] == AnalyzeSegmentWithVertex(service, youtubeUrl, prompt, Window(total, len, k), model))
      && (forall x :: x in errors <==>
            exists k :: 0 <= k < |shown| && Flagged(shown[k].text) && shown[k].segment.segmentIndex == x)
      && DistinctInts(errors)
      && (FailureWarning(errors, |segments|).NoFailures? <==> forall k :: 0 <= k < |shown| ==> !Flagged(shown[k].text))
      && (FailureWarning(errors, |segments|).AllFailed? <==>
            shown != [] && forall k :: 0 <= k < |shown| ==> Flagged(shown[k].text))
  {
    var texts := ArchivedTexts(service, youtubeUrl, prompt, segments, model);
    assert IncreasingIndices(segments);
    ShownInSegmentOrder(segments, texts, order);
    ErrorsFollowSegments(segments, texts, order);
  }

  /**
   * After every segment completed, whatever the order, `errors` holds the
   * indices of exactly the flagged segments (each once, when the indices
   * are distinct), and the all-failed warning is given exactly when there
   * are segments and every one is flagged.
   */
  lemma ErrorsFollowSegments(segs: seq<VideoSegment>, texts: seq<string>, order: seq<nat>)
    requires |texts| == |segs|
    requires IsCompletionOrder(order, |segs|)
    ensures forall x :: x in FlaggedIndices(segs, texts, order) <==>
      exists k :: 0 <= k < |segs| && Flagged(texts[k]) && segs[k].segmentIndex == x
    ensures DistinctIndices(segs) ==> DistinctInts(FlaggedIndices(segs, texts, order))
    ensures FailureWarning(FlaggedIndices(segs, texts, order), |segs|).NoFailures? <==>
      forall k :: 0 <= k < |segs| ==> !Flagged(texts[k])
    ensures FailureWarning(FlaggedIndices(segs, texts, order), |segs|).AllFailed? <==>
      segs != [] && forall k :: 0 <= k < |segs| ==> Flagged(texts[k])
  {
    var errors := FlaggedIndices(segs, texts, order);
    if DistinctIndices(segs) {
      FlaggedIndicesDistinct(segs, texts, order);
    }
    FlaggedIndicesMembers(segs, texts, order);
    forall x | exists k :: 0 <= k < |segs| && Flagged(texts[k]) && segs[k].segmentIndex == x
      ensures x in errors
    {
      var k :| 0 <= k < |segs| && Flagged(texts[k]) && segs[k].segmentIndex == x;
      assert k in order;
      var p :| 0 <= p < |order| && order[p] == k;
      assert Flagged(texts[order[p]]) && segs[order[p]].segmentIndex == x;
    }
    if errors != [] {
      assert errors[0] in errors;
    }
    if exists k :: 0 <= k < |segs| && Flagged(texts[k]) {
      var k :| 0 <= k < |segs| && Flagged(texts[k]);
      assert segs[k].segmentIndex in errors;
    }
    AllFlaggedIff(segs, texts, order);
    FlaggedCount(segs, texts, order);
    if segs != [] && forall k :: 0 <= k < |segs| ==> Flagged(texts[k]) {
      assert order[0] < |segs|;
      assert Flagged(texts[order[0]]);
    }
  }

  /**
   * Without a guard on short videos, a video no longer than one segment is
   * still chunked, into the single window `[0, duration)`.
   */
  lemma ShortVideoSingleWindow(total: int, len: int)
    requires 0 < total <= len
    ensures SegmentCount(total, len) == 1
    ensures Window(total, len, 0) == VideoSegment(0, total, 1)
  {
    CountUnique(total, len, 1);
  }
}
