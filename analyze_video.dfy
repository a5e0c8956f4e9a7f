/**
 * The unified analyser (`analyze_video.py`): the requests it sends for a
 * whole video and for one segment, what it makes of each reply, the
 * choice between a single pass and chunked analysis, and the chunked run
 * that collects segment results as they complete and shows them sorted by
 * segment index.
 *
 * The model service is a function from a request to a reply, so each
 * request is answered the same way whenever it is sent; the worker pool is
 * a completion order, any permutation of the segment positions.
 */
module VideoAnalyzer {
  import opened Wrappers
  import opened PyText
  import opened Responses
  import opened Segments
  import opened Reassembly

  /** `--api`: `google-ai` or `vertex-ai`. */
  datatype Api = GoogleAI | VertexAI

  const ChunkingUnsupported: string := "Error: Chunking only works with Vertex AI"

  /** `self.model_prefix`: Google AI names models `models/<name>`, Vertex AI by bare name. */
  function ModelPrefix(api: Api): string {
    if api == GoogleAI then "models/" else ""
  }

  // ---------------------------------------------------------------------
  // analyze_full_video
  // ---------------------------------------------------------------------

  /** The request for the whole video: Vertex AI also names the MIME type. */
  function FullVideoRequest(api: Api, youtubeUrl: string, prompt: string, model: string): (r: Request)
    ensures r.model == ModelPrefix(api) + model && r.fileUri == youtubeUrl && r.prompt == prompt
    ensures r.mimeType.Some? <==> api == VertexAI
    ensures r.mimeType.Some? ==> r.mimeType.value == VideoMimeType
    ensures r.clip.None?
  {
    Request(ModelPrefix(api) + model, youtubeUrl, if api == VertexAI then Some(VideoMimeType) else None, None, prompt)
  }

  /** `analyze_full_video`: the extracted text, or `"Error: "` and the exception's message. */
  function AnalyzeFullVideo(api: Api, service: Service, youtubeUrl: string, prompt: string, model: string): (r: string)
    ensures r != ""
    ensures service(FullVideoRequest(api, youtubeUrl, prompt, model)).Raised? ==>
      r == "Error: " + service(FullVideoRequest(api, youtubeUrl, prompt, model)).message
    ensures service(FullVideoRequest(api, youtubeUrl, prompt, model)).Responded? ==>
      r == ExtractedText(service(FullVideoRequest(api, youtubeUrl, prompt, model)).response)
  {
    match service(FullVideoRequest(api, youtubeUrl, prompt, model))
    case Responded(response) =>
      ExtractedTextFallback(response);
      ExtractedText(response)
    case Raised(message) => "Error: " + message
  }

  // ---------------------------------------------------------------------
  // analyze_segment: the request for one segment
  // ---------------------------------------------------------------------

  const SegmentPromptPrefix: string := "Analyze video from "

  /** `f"Analyze video from {start}s to {end}s. {prompt}"`. */
  function SegmentPrompt(prompt: string, segment: VideoSegment): string {
    SegmentPromptPrefix + OffsetText(segment.startOffset) + " to " + OffsetText(segment.endOffset) + ". " + prompt
  }

  /** Reads a segment prompt back into (start, end, user prompt). */
  function ParseSegmentPrompt(s: string): (int, int, string) {
    ParseWindowPrompt(s, |SegmentPromptPrefix|, 2)
  }

  /** The request for one segment: a Vertex AI request clipped to the segment's offsets. */
  function SegmentRequest(youtubeUrl: string, prompt: string, segment: VideoSegment, model: string): (r: Request)
    ensures r.model == ModelPrefix(VertexAI) + model && r.fileUri == youtubeUrl
    ensures r.mimeType == Some(VideoMimeType) && r.clip.Some?
  {
    Request(ModelPrefix(VertexAI) + model, youtubeUrl, Some(VideoMimeType),
            Some(Clip(OffsetText(segment.startOffset), OffsetText(segment.endOffset))),
            SegmentPrompt(prompt, segment))
  }

  /**
   * The segment request tells the service exactly which window to look at,
   * twice: the clip offsets read back as the segment's start and end, and
   * so do the offsets named in the prompt, which ends with the user's prompt.
   */
  lemma SegmentRequestNamesWindow(youtubeUrl: string, prompt: string, segment: VideoSegment, model: string)
    ensures var r := SegmentRequest(youtubeUrl, prompt, segment, model);
      && ParseOffset(r.clip.value.startOffset) == segment.startOffset
      && ParseOffset(r.clip.value.endOffset) == segment.endOffset
      && ParseSegmentPrompt(r.prompt) == (segment.startOffset, segment.endOffset, prompt)
  {
    OffsetRoundTrip(segment.startOffset);
    OffsetRoundTrip(segment.endOffset);
    WindowPromptFields(SegmentPromptPrefix, IntStr(segment.startOffset), IntStr(segment.endOffset), ". ", prompt);
  }

  // ---------------------------------------------------------------------
  // analyze_segment and analyze_chunked
  // ---------------------------------------------------------------------

  /**
   * `analyze_segment`: the segment it was given, with the chunking error
   * outside Vertex AI, else the extracted text or `"Error in segment: "`
   * and the exception's message. The text is never empty.
   */
  function AnalyzeSegment(api: Api, service: Service, youtubeUrl: string, prompt: string, segment: VideoSegment, model: string): (r: SegmentResult)
    ensures r.segment == segment
    ensures r.text != ""
    ensures api != VertexAI ==> r.text == ChunkingUnsupported
    ensures api == VertexAI && service(SegmentRequest(youtubeUrl, prompt, segment, model)).Raised? ==>
      r.text == "Error in segment: " + service(SegmentRequest(youtubeUrl, prompt, segment, model)).message
    ensures api == VertexAI && service(SegmentRequest(youtubeUrl, prompt, segment, model)).Responded? ==>
      r.text == ExtractedText(service(SegmentRequest(youtubeUrl, prompt, segment, model)).response)
  {
    if api != VertexAI then SegmentResult(segment, ChunkingUnsupported)
    else match service(SegmentRequest(youtubeUrl, prompt, segment, model))
      case Responded(response) =>
        ExtractedTextFallback(response);
        SegmentResult(segment, ExtractedText(response))
      case Raised(message) => SegmentResult(segment, "Error in segment: " + message)
  }

  /** The text `analyze_segment` gives for each segment of the list. */
  function SegmentTexts(api: Api, service: Service, youtubeUrl: string, prompt: string, segments: seq<VideoSegment>, model: string): (r: seq<string>)
    ensures |r| == |segments|
    ensures forall j :: 0 <= j < |r| ==> r[j] == AnalyzeSegment(api, service, youtubeUrl, prompt, segments[j], model).text
  {
    seq(|segments|, j requires 0 <= j < |segments| => AnalyzeSegment(api, service, youtubeUrl, prompt, segments[j], model).text)
  }

  /**
   * `analyze_chunked`: outside Vertex AI, the single chunking error under
   * index 1; on Vertex AI, the dict filled as the segments complete in
   * `order`, which holds every segment's own result under its own index.
   */
  method AnalyzeChunked(api: Api, service: Service, youtubeUrl: string, prompt: string, segments: seq<VideoSegment>, model: string, order: seq<nat>)
    returns (results: Results)
    requires api == VertexAI || |segments| > 0
    requires IsCompletionOrder(order, |segments|)
    ensures ValidResults(results)
    ensures api != VertexAI ==> results == Results([1], map[1 := SegmentResult(segments[0], ChunkingUnsupported)])
    ensures api == VertexAI ==>
      results == Stored(segments, SegmentTexts(api, service, youtubeUrl, prompt, segments, model), order)
    ensures api == VertexAI && DistinctIndices(segments) ==>
      results.entries == ResultsByIndex(segments, SegmentTexts(api, service, youtubeUrl, prompt, segments, model))
  {
    if api != VertexAI {
      return Results([1], map[1 := SegmentResult(segments[0], ChunkingUnsupported)]);
    }
    ghost var texts := SegmentTexts(api, service, youtubeUrl, prompt, segments, model);
    results := Results([], map[]);
    var i := 0;
    while i < |order|
      invariant 0 <= i <= |order|
      invariant results == Stored(segments, texts, order[..i])
    {
      var done := AnalyzeSegment(api, service, youtubeUrl, prompt, segments[order[i]], model);
      assert done == SegmentResult(segments[order[i]], texts[order[i]]);
      StoredPrefixStep(segments, texts, order, i);
      results := Put(results, done.segment.segmentIndex, done);
      i := i + 1;
    }
    assert order[..i] == order;
    if DistinctIndices(segments) {
      StoredIsByIndex(segments, texts, order);
    }
  }

  // ---------------------------------------------------------------------
  // main: single pass or chunks
  // ---------------------------------------------------------------------

  /** Why `main` analyses the whole video in one pass. */
  datatype FallbackReason =
    | NotRequested          // chunking not enabled
    | UnsupportedApi        // chunking asked for with Google AI: warned and ignored
    | UnknownDuration       // no duration, or a duration of 0
    | TooShort              // duration at most one segment
    | InvalidSegmentLength  // a segment length of 0 or less

  datatype Mode = Chunked | FullVideo(reason: FallbackReason)

  /** The decision in `main` as written. */
  function ChooseModeAsWritten(enableChunking: bool, api: Api, videoDuration: Option<int>, segmentDuration: int): Mode {
    if enableChunking && api == VertexAI then
      if !Truthy(videoDuration) then FullVideo(UnknownDuration)
      else if videoDuration.value <= segmentDuration then FullVideo(TooShort)
      else Chunked
    else if enableChunking && api == GoogleAI then FullVideo(UnsupportedApi)
    else FullVideo(NotRequested)
  }

  /**
   * As written, chunks are made exactly when chunking is enabled on Vertex
   * AI and the duration is known, non-zero and longer than one segment.
   */
  lemma ChunkedIffAsWritten(enableChunking: bool, api: Api, videoDuration: Option<int>, segmentDuration: int)
    ensures ChooseModeAsWritten(enableChunking, api, videoDuration, segmentDuration) == Chunked
       <==> enableChunking && api == VertexAI && Truthy(videoDuration) && videoDuration.value > segmentDuration
    ensures enableChunking && api == VertexAI && videoDuration == Some(segmentDuration) && segmentDuration != 0 ==>
      ChooseModeAsWritten(enableChunking, api, videoDuration, segmentDuration) == FullVideo(TooShort)
  {
  }

  /**
   * As written, a segment length of 0 or less gets past the guard: any
   * positive duration is longer than one segment, so the video is sent to
   * `create_video_segments`, whose loop never moves `start` up to the
   * duration.
   */
  lemma NonPositiveLengthIsChunked(d: int, len: int)
    requires len <= 0 < d
    ensures ChooseModeAsWritten(true, VertexAI, Some(d), len) == Chunked
    ensures forall passes: nat :: StartAfter(passes, d, len) < d
  {
    forall passes: nat ensures StartAfter(passes, d, len) < d {
      NonPositiveLengthNeverFinishes(d, len, passes);
    }
  }

  /** The decision with the segment length checked before the segments are made. */
  function ChooseMode(enableChunking: bool, api: Api, videoDuration: Option<int>, segmentDuration: int): (m: Mode)
    ensures m == Chunked ==> videoDuration.Some? && 0 < segmentDuration < videoDuration.value
  {
    if enableChunking && api == VertexAI then
      if !Truthy(videoDuration) then FullVideo(UnknownDuration)
      else if videoDuration.value <= segmentDuration then FullVideo(TooShort)
      else if segmentDuration <= 0 then FullVideo(InvalidSegmentLength)
      else Chunked
    else if enableChunking && api == GoogleAI then FullVideo(UnsupportedApi)
    else FullVideo(NotRequested)
  }

  /**
   * The checked decision differs from the one as written only on segment
   * lengths of 0 or less; when it chunks, the video gets at least two
   * windows, and the segmenting loop terminates.
   */
  lemma ChooseModeCorrected(enableChunking: bool, api: Api, videoDuration: Option<int>, segmentDuration: int)
    ensures segmentDuration > 0 ==>
      ChooseMode(enableChunking, api, videoDuration, segmentDuration)
      == ChooseModeAsWritten(enableChunking, api, videoDuration, segmentDuration)
    ensures ChooseMode(enableChunking, api, videoDuration, segmentDuration) == Chunked ==>
      && ChooseModeAsWritten(enableChunking, api, videoDuration, segmentDuration) == Chunked
      && SegmentCount(videoDuration.value, segmentDuration) >= 2
      && StartAfter(SegmentCount(videoDuration.value, segmentDuration), videoDuration.value, segmentDuration)
         == videoDuration.value
  {
    if ChooseMode(enableChunking, api, videoDuration, segmentDuration) == Chunked {
      var d := videoDuration.value;
      CountBounds(d, segmentDuration);
      PositiveLengthFinishes(d, segmentDuration, 0);
    }
  }

  // ---------------------------------------------------------------------
  // main: the long-video note and the whole run
  // ---------------------------------------------------------------------

  const LongVideoHeader: string := "Note: Long video detected. Consider:"
  const UseChunkingHint: string := "  - Using --api vertex-ai --enable-chunking for faster parallel processing"
  const MoreTokensHint: string := "  - Increasing --max-output-tokens for detailed results"

  /** The advice printed before a single pass: only for videos over ten minutes. */
  function LongVideoAdvice(api: Api, videoDuration: Option<int>): (r: seq<string>)
    ensures r != [] <==> Truthy(videoDuration) && videoDuration.value > 600
    ensures r != [] ==> r[0] == LongVideoHeader && r[|r| - 1] == MoreTokensHint
    ensures UseChunkingHint in r <==> r != [] && api == GoogleAI
  {
    if Truthy(videoDuration) && videoDuration.value > 600 then
      [LongVideoHeader] + (if api == GoogleAI then [UseChunkingHint] else []) + [MoreTokensHint]
    else []
  }

  /** What a run shows: the segments in order, or one text with the advice printed before it. */
  datatype Report =
    | ChunkedReport(shown: seq<SegmentResult>)
    | FullVideoReport(reason: FallbackReason, advice: seq<string>, text: string)

  /**
   * `main` after argument parsing, with the checked decision: either every
   * window of the video, in order, each with its own analysis, or the
   * single-pass analysis with the reason for it.
   */
  method RunAnalysis(api: Api, service: Service, youtubeUrl: string, prompt: string, model: string,
                     enableChunking: bool, videoDuration: Option<int>, segmentDuration: int, order: seq<nat>)
    returns (report: Report)
    requires ChooseMode(enableChunking, api, videoDuration, segmentDuration) == Chunked ==>
      IsCompletionOrder(order, SegmentCount(videoDuration.value, segmentDuration))
    ensures ChooseMode(enableChunking, api, videoDuration, segmentDuration) == Chunked ==>
      && report.ChunkedReport?
      && |report.shown| == SegmentCount(videoDuration.value, segmentDuration)
      && forall k :: 0 <= k < |report.shown| ==>
           report.shown[k] == AnalyzeSegment(api, service, youtubeUrl, prompt, Window(videoDuration.value, segmentDuration, k), model)
    ensures ChooseMode(enableChunking, api, videoDuration, segmentDuration).FullVideo? ==>
      report == FullVideoReport(ChooseMode(enableChunking, api, videoDuration, segmentDuration).reason,
                                LongVideoAdvice(api, videoDuration),
                                AnalyzeFullVideo(api, service, youtubeUrl, prompt, model))
  {
    var mode := ChooseMode(enableChunking, api, videoDuration, segmentDuration);
    if mode == Chunked {
      var d := videoDuration.value;
      var segments := CreateVideoSegments(d, segmentDuration);
      var results := AnalyzeChunked(api, service, youtubeUrl, prompt, segments, model, order);
      ShownWindows(api, service, youtubeUrl, prompt, model, segments, d, segmentDuration, order);
      report := ChunkedReport(DisplayOrder(results));
    } else {
      report := FullVideoReport(mode.reason, LongVideoAdvice(api, videoDuration),
                                AnalyzeFullVideo(api, service, youtubeUrl, prompt, model));
    }
  }

  /** The windows of a video, analysed in any completion order, are shown in window order. */
  lemma ShownWindows(api: Api, service: Service, youtubeUrl: string, prompt: string, model: string,
                     segments: seq<VideoSegment>, total: int, len: int, order: seq<nat>)
    requires len > 0
    requires |segments| == SegmentCount(total, len)
    requires forall k :: 0 <= k < |segments| ==> segments[k] == Window(total, len, k)
    requires IsCompletionOrder(order, |segments|)
    ensures var shown := DisplayOrder(Stored(segments, SegmentTexts(api, service, youtubeUrl, prompt, segments, model), order));
      && |shown| == |segments|
      && forall k :: 0 <= k < |shown| ==> shown[k] == AnalyzeSegment(api, service, youtubeUrl, prompt, Window(total, len, k), model)
  {
    var texts := SegmentTexts(api, service, youtubeUrl, prompt, segments, model);
    assert IncreasingIndices(segments);
    ShownInSegmentOrder(segments, texts, order);
  }
}
