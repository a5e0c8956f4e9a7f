# YouTube video analyser: segmentation, reassembly and text extraction

This project models the logic of three Python scripts that send a YouTube video to Gemini and print what the model says:

- `analyze_video.py`, the unified analyser. It can run on Google AI or Vertex AI, and on Vertex AI it can cut the video into time windows analysed in parallel.
- `archive/analyze_video_vertex_chunked.py`, an earlier Vertex AI chunking script.
- `archive/analyze_video_old.py`, the first single-pass script.

The model, in Dafny, covers:

- `VideoSegment` and its `Segment i: MM:SS - MM:SS` label;
- `create_video_segments`, as the original `while` loop;
- the decision between a single pass and chunked analysis;
- the request each analysis sends, and the text or error string it returns;
- the completion loop that stores results in a dict keyed by segment index, and the `errors` list of the archived script;
- the display by `sorted(results.keys())`;
- `_extract_text` / `extract_text` / `_text_parts`, with `format_duration` and the duration guidance of the old script.

Modules:

- `Wrappers`: `Optional` values and the `if video_duration` truthiness test.
- `PyText`: the Python `str` behaviour used by the scripts. It covers `isspace`, `strip`, `join`, `in`, and f-string rendering of ints (`{n}`, `{n:02d}`), each rendering with a parser and a round-trip lemma.
- `Responses`: the shape of a `generate_content` response (candidates, parts, optional text), the text the extraction loops collect from it, `_extract_text` itself, and the requests the scripts send.
- `Segments`: `VideoSegment`, its label, and `create_video_segments`. Both chunking scripts carry identical copies of these, so they are defined once. It also holds the `"<n>s"` offsets that segment requests name their windows by.
- `Reassembly`: the results dict and its sorted display.
- `VideoAnalyzer`: `analyze_video.py`.
- `VertexChunked`: `archive/analyze_video_vertex_chunked.py`.
- `OldAnalyzer`: `archive/analyze_video_old.py`.

The model service is a parameter `service: Request -> Reply`. A reply is a response or an exception with its message, so the model covers every outcome of a call. The thread pool's `as_completed` is a parameter `order`: any permutation of the segment positions. The properties are proved for every service and every order.

## Model

| member | source | states |
|---|---|---|
| Segments.ClockText | analyze_video.py:55-58 | `MM:SS` of an offset, with minutes `offset // 60` and seconds `offset % 60`, each `:02d`, reads back as the offset |
| Segments.LabelRoundTrip | analyze_video.py:53-59 | `str(segment)` = `Segment {i}: {MM}:{SS} - {MM}:{SS}` names its segment completely: index, start and end read back from the label (the archived script's `__str__`, archive/analyze_video_vertex_chunked.py:64-70, is the same) |
| Segments.CreateVideoSegments | analyze_video.py:265-277 | the `while` loop builds exactly `ceil(total / len)` windows; window k is `[k*len, min(k*len+len, total))` numbered k+1; they tile `[0, total)` contiguously with lengths in `(0, len]`, only the last shorter; the list is empty iff `total <= 0`; a video no longer than one segment gives the single window `[0, total)` (the archived copy, archive/analyze_video_vertex_chunked.py:102-114, is the same loop) |
| Segments.WindowsTile | analyze_video.py:267-275 | the closed-form windows satisfy the tiling predicate: first start 0, each start the previous end, last end `total`, lengths positive and at most `len`, indices 1..n |
| Segments.WindowOfSecond | analyze_video.py:271-274 | every second `t` of `[0, total)` lies in exactly one window, the one at position `t / len` |
| Segments.CountBounds | analyze_video.py:271-274 | the window count n = `ceil(total / len)` satisfies `(n-1)*len < total <= n*len` |
| Segments.CountUnique | analyze_video.py:271-274 | that inequality determines the count: any n satisfying it equals `ceil(total / len)` |
| Segments.PositiveLengthFinishes | analyze_video.py:271-274 | with a positive length, the loop guard `start < total_duration` holds after exactly the first `ceil(total / len)` passes, and then `start == total` |
| Segments.NonPositiveLengthNeverFinishes | analyze_video.py:271-274 | with a segment length of 0 or less and a positive duration, `start` never becomes positive, so the guard never fails |
| Reassembly.Put | analyze_video.py:216 | `results[k] = v` keeps the dict valid (each key listed once) and maps k to v, leaving every other key unchanged; a new key is appended to the key order, an existing one keeps its place |
| Reassembly.StoredKeys | analyze_video.py:214-216 | after the loop has stored the completed positions, the dict's keys are exactly those positions' segment indices |
| Reassembly.StoredValues | analyze_video.py:214-216 | with distinct indices, each completed segment's own `(segment, text)` is under its index |
| Reassembly.StoredIsByIndex | analyze_video.py:199-219 | for segments with distinct indices, which `create_video_segments` guarantees, whatever the completion order, the filled dict equals the order-independent map from each segment's index to its own result |
| Reassembly.SortedKeys | analyze_video.py:434 | `sorted(keys)` of a dict's keys is strictly increasing and has the same members |
| Reassembly.AscendingUnique | analyze_video.py:434 | two strictly increasing sequences with the same members are equal, so the sorted key list is unique |
| Reassembly.DisplayFollowsIndexOrder | analyze_video.py:434-439 | a dict holding each segment's result under its index, indices increasing along the list, is shown in list order |
| Reassembly.ShownInSegmentOrder | analyze_video.py:214-219 | for every completion order, the display shows the k-th segment with its own text at position k (the same holds for the archived loop and display) |
| Responses.ExtractText | analyze_video.py:221-231 | the nested loops compute the stripped texts of all text parts of all candidates, in order, joined by `"\n\n"` and stripped, or `"No response generated."` when that is empty; never empty |
| Responses.ExtractedTextFallback | analyze_video.py:230-231 | the result is the fallback exactly when every text part is whitespace only (or there is none); otherwise the stripped join, which is itself stripped |
| Responses.JoinedTextEmptyIff | analyze_video.py:224-230 | the joined, stripped text is empty iff no part of any candidate has a non-whitespace character |
| Responses.PartTextsBlank | analyze_video.py:226-228 | the texts collected from a candidate's parts are all whitespace iff every part with text is whitespace only |
| Responses.CandidateTextsBlank | analyze_video.py:224-228 | the same over all candidates |
| PyText.Strip | analyze_video.py:228 | `s.strip()` removes exactly the leading and trailing whitespace (Python's `isspace` set): the result is a stripped slice of `s`, empty iff `s` is whitespace only |
| PyText.StripIdentity | analyze_video.py:230 | stripping a string with no whitespace at either end leaves it unchanged |
| PyText.JoinAllSpace | analyze_video.py:230 | with a whitespace separator, the join is whitespace only iff every part is |
| PyText.JoinOfStrippedIsStripped | archive/analyze_video_old.py:168 | joining non-empty stripped strings gives a stripped string |
| PyText.IntStrRoundTrip | analyze_video.py:157 | `f"{n}"` reads back as n and uses only digits and `-` |
| PyText.Pad2 | analyze_video.py:59 | `f"{n:02d}"` has at least two characters, exactly two for 0..99, and reads back as n |
| VideoAnalyzer.FullVideoRequest | analyze_video.py:114-133 | the whole-video request names the model with the API's prefix, the URL and the prompt, no clip, and the MIME type `video/mp4` iff on Vertex AI |
| VideoAnalyzer.AnalyzeFullVideo | analyze_video.py:102-139 | the result is the extracted text of the reply, or `"Error: "` and the exception's message; never empty |
| VideoAnalyzer.SegmentRequest | analyze_video.py:161-179 | the segment request uses the Vertex AI model name, the URL, `video/mp4`, and a clip |
| VideoAnalyzer.SegmentRequestNamesWindow | analyze_video.py:156-172 | the clip offsets `f"{start}s"`/`f"{end}s"` read back as the segment's start and end; the prompt `Analyze video from {start}s to {end}s. {prompt}` reads back as (start, end, prompt) |
| Segments.OffsetRoundTrip | analyze_video.py:168-169 | `f"{n}s"` reads back as n |
| Segments.WindowPromptFields | analyze_video.py:156-159 | any prompt `{head}{start}s to {end}s{sep}{prompt}` with integer offsets reads back into its offsets and the user prompt |
| VideoAnalyzer.AnalyzeSegment | analyze_video.py:141-184 | returns the segment it was given; outside Vertex AI the fixed chunking error; else the extracted text or `"Error in segment: "` and the message; never empty |
| VideoAnalyzer.AnalyzeChunked | analyze_video.py:186-219 | outside Vertex AI exactly `{1: (segments[0], error)}`; on Vertex AI the dict the completion loop builds, which for distinct indices is each segment's own result under its own index |
| VideoAnalyzer.ChunkedIffAsWritten | analyze_video.py:405-413 | as written, chunks are made iff chunking is enabled, the API is Vertex AI, the duration is truthy and it exceeds the segment length; at `duration == segment_duration` it falls back to a single pass |
| VideoAnalyzer.NonPositiveLengthIsChunked | analyze_video.py:405-413 | as written, every positive duration with a segment length of 0 or less is chunked, and for it the segmenting loop's guard `start < total_duration` holds after every pass (the loop never ends) |
| VideoAnalyzer.ChooseMode | analyze_video.py:405-413 | the checked decision chunks only for a known duration longer than a positive segment length |
| VideoAnalyzer.ChooseModeCorrected | analyze_video.py:405-413 | the checked decision agrees with the written one for every positive segment length; when it chunks, there are at least two windows and the loop ends |
| VideoAnalyzer.LongVideoAdvice | analyze_video.py:452-456 | the long-video note is printed iff the duration is truthy and over 600 s; the chunking hint appears in it iff on Google AI; it ends with the max-output-tokens hint |
| VideoAnalyzer.RunAnalysis | analyze_video.py:404-470 | `main` with the corrected decision `ChooseMode` of the Findings, not the decision as written: a chunked run shows `ceil(d / len)` results, the k-th being window k's own analysis; otherwise the single-pass text, with the reason (including the Google AI warning at line 446) and the long-video advice |
| VideoAnalyzer.ShownWindows | analyze_video.py:413-439 | the windows, analysed in any completion order, are shown in window order, each with its own analysis |
| VertexChunked.ResolveDuration | archive/analyze_video_vertex_chunked.py:269-271 | an explicit, non-zero `--video-duration` wins; auto-detection is used only when it is absent or 0 and yt-dlp is installed |
| VertexChunked.ChunkAsWrittenUnguarded | archive/analyze_video_vertex_chunked.py:290-298 | as written there is no short-video guard and no length check: every known, non-zero duration is chunked whatever the segment length, and for a positive duration with a length of 0 or less the segmenting loop never ends |
| VertexChunked.ShortVideoSingleWindow | archive/analyze_video_vertex_chunked.py:290-298 | a video no longer than one segment is chunked into the single window `[0, duration)` |
| VertexChunked.ChunkCheckedCorrected | archive/analyze_video_vertex_chunked.py:290-298 | the checked decision agrees with the written one for every positive length, and the segmenting loop then ends |
| VertexChunked.ArchivedFullRequest | archive/analyze_video_vertex_chunked.py:353-363 | the single-pass request uses the bare model name, the URL, the prompt, `video/mp4`, and no clip |
| VertexChunked.ArchivedSegmentRequest | archive/analyze_video_vertex_chunked.py:143-160 | the archived request uses the bare model name, the URL, `video/mp4`, and a clip |
| VertexChunked.ArchivedRequestNamesWindow | archive/analyze_video_vertex_chunked.py:135-157 | the clip offsets read back as the segment's start and end; the prompt `Analyze the video segment from {start}s to {end}s. If you reference any events, please include their timestamps. {prompt}` reads back as (start, end, prompt) |
| VertexChunked.ErrorText | archive/analyze_video_vertex_chunked.py:177 | `f"Error processing {segment}: {e}"` always contains `"Error processing"` |
| VertexChunked.AnalyzeSegmentWithVertex | archive/analyze_video_vertex_chunked.py:117-179 | returns its segment with the joined text, `"No response for {segment}"` exactly when that is empty, or the flagged error string when the call raises; never empty |
| VertexChunked.CollectSegments | archive/analyze_video_vertex_chunked.py:303-328 | the completion loop builds the dict of stored results and the list of indices whose text contains `"Error processing"`, in completion order |
| VertexChunked.FlaggedIndicesMembers | archive/analyze_video_vertex_chunked.py:327-328 | `errors` contains exactly the indices of the completed segments whose text is flagged |
| VertexChunked.FlaggedIndicesDistinct | archive/analyze_video_vertex_chunked.py:322-328 | when the segments have distinct indices and each completes once, `errors` lists no index twice, so `len(errors)` is the number of flagged segments |
| VertexChunked.FlaggedCount | archive/analyze_video_vertex_chunked.py:327-328 | `errors` has at most one entry per completed segment, and as many exactly when every one is flagged |
| VertexChunked.AllFlaggedIff | archive/analyze_video_vertex_chunked.py:331-334 | after every segment completed, `len(errors) == len(segments)` iff every segment's text is flagged |
| VertexChunked.ErrorsFollowSegments | archive/analyze_video_vertex_chunked.py:322-334 | for any completion order, `errors` holds exactly the flagged segments' indices, each once when the indices are distinct; no warning is given iff no segment is flagged, and the all-failed warning iff there are segments and all are flagged |
| VertexChunked.RunArchived | archive/analyze_video_vertex_chunked.py:268-388 | `main` with the corrected decision `ChunkChecked` of the Findings, not the decision as written: a chunked run shows every window in order with its own result, `errors` names exactly the flagged windows, each once, so the failed count `len(errors)` in the warning is the number of flagged windows; the warning is computed from `errors` and the window count, with no warning iff no window is flagged and the all-failed warning iff all are; a single pass shows the extracted text, and an exception ends the run with `Error: {e}` and the advice text |
| VertexChunked.ArchivedShown | archive/analyze_video_vertex_chunked.py:322-346 | the windows collected in any order are shown in window order; the errors list names each flagged window once, and the warning follows the flagged windows |
| OldAnalyzer.DurationFields | archive/analyze_video_old.py:78-80 | `3600*h + 60*m + s` equals the duration, with `0 <= m < 60` and `0 <= s < 60` |
| OldAnalyzer.FormatDurationRoundTrip | archive/analyze_video_old.py:76-87 | for a duration of 0 or more, the rendering reads back as the duration; it has an `h` field iff there is a whole hour and an `m` field iff there is a whole minute |
| OldAnalyzer.TextParts | archive/analyze_video_old.py:171-179 | every kept text is non-empty and stripped |
| OldAnalyzer.TextPartsDropsBlanks | archive/analyze_video_old.py:175-179 | `_text_parts` is the newer extraction's part texts with the empty strings removed, in order |
| OldAnalyzer.OldTextsDropBlanks | archive/analyze_video_old.py:163-168 | over all candidates, the old texts are the newer extraction's texts without the empty ones |
| OldAnalyzer.OldExtractedTextFacts | archive/analyze_video_old.py:163-168 | the final `.strip()` changes nothing; the text is empty iff every part is whitespace only, the same condition as for the newer extraction |
| OldAnalyzer.ExtractTextOld | archive/analyze_video_old.py:163-168 | the loop extending `texts` candidate by candidate computes the old extracted text, which is empty iff every text part is blank |
| OldAnalyzer.AnalyzeVideoOld | archive/analyze_video_old.py:200-230 | the extracted text, `"Gemini did not return any text."` exactly when it is empty, or `"Error processing video: "` and the message; never empty |
| OldAnalyzer.DurationGuidance | archive/analyze_video_old.py:252-258 | three-way classification: over 1800 s the long-video advice, 600 < d <= 1800 the max-tokens note, otherwise none |
| OldAnalyzer.OldRun | archive/analyze_video_old.py:243-298 | the duration is shown iff truthy, as `format_duration`'s text, which reads back as the duration (DurationFields, FormatDurationRoundTrip); the guidance is `DurationGuidance`'s note for the duration (its three iffs); the result is the analysis text; the closing chunking note appears iff the duration is over 600 s, which is also exactly when there is guidance |

## Left out

- Network and SDK calls: `genai.Client` creation, `generate_content` and the `types.*` wrappers are reduced to the strings they carry (`Request`). The reply is a parameter (`Service`), so a call always answers the same request in the same way.
- Client creation failing inside the archived script's `try` (archive/analyze_video_vertex_chunked.py:278) is not modelled. Only `generate_content` raising is.
- `get_video_duration` (yt-dlp): the detected duration is an input `Option<int>`. `None` stands for a missing yt-dlp, a failed fetch or no duration.
- Durations and offsets are integers. The dataclass declares float offsets, but every value the scripts build is an int, so `int(offset)` is the identity here.
- `ThreadPoolExecutor`, `as_completed` and `max_workers` are replaced by the completion order, an arbitrary permutation. Thread interleaving, timing and worker limits are not modelled.
- A `--max-workers` of 0 or less is not modelled. `ThreadPoolExecutor` then raises `ValueError`: in analyze_video.py:201 it ends the run through the top-level `sys.exit` at lines 480-481, and in archive/analyze_video_vertex_chunked.py:306 through the advice exit at lines 383-388.
- Exceptions raised from a worker are not modelled. The `future.result()` call could re-raise one, but every segment function catches its own exceptions.
- argparse, environment variables, API-key and project resolution, `sys.exit` on configuration errors, and `time.time()` reporting are not modelled. All `print` output except the texts and notes named above is left out, including the progress lines and `print_safety_warnings`.
- The sampling configuration (`temperature`, `top_k`, `top_p`, `max_output_tokens`) is not modelled. It is passed to the service unchanged.
- VideoAnalyzer.AnalyzeChunked requires a non-empty segment list outside Vertex AI. The source indexes `segments[0]` and would raise `IndexError` on an empty list, but `main` never calls it that way.
- OldAnalyzer.FormatDurationRoundTrip is stated for durations of 0 or more only. For negative input, floor division makes the hours negative, so they are not shown: `-1` renders as `"59m 59s"`, which reads back as 3599.
- VideoAnalyzer.RunAnalysis models `main` with the corrected decision `ChooseMode`, not the decision as written (see Findings). A segment length of 0 or less therefore gives a single pass where the script would segment. For a positive duration the script never finishes segmenting. When the duration is negative and the length is below it (duration -5, length -10), the script makes no segments and shows an empty chunked run, while the model runs a single pass.
- VertexChunked.RunArchived models `main` with the corrected decision `ChunkChecked`, not the decision as written (see Findings). A segment length of 0 or less therefore gives a single pass where the script would segment. For a positive duration the script never finishes segmenting. For a negative `--video-duration` the script makes no segments and shows an empty chunked run with no warning, while the model runs a single pass.
- OldAnalyzer.OldRun takes the fetched duration as given. The `args.show_duration or YT_DLP_AVAILABLE` condition only decides whether the network fetch happens.
- `archive/analyze_video_vertex.py` and the archived test scripts are not part of this model. They are live-API scripts whose only logic is a copy of the text extraction already modelled.

## Findings

| source | as written | input that shows it | evidently intended | confidence | as-written member | corrected member |
|---|---|---|---|---|---|---|
| analyze_video.py:405-413 | the guard checks the duration against `--segment-duration` but never that the length is positive, then calls `create_video_segments` | `--api vertex-ai --enable-chunking --segment-duration 0` on a 400-second video: `start` stays 0 and the loop never ends (a negative length makes `start` fall, so it never ends either) | a segment length of 0 or less falls back to a single pass | not executed | VideoAnalyzer.NonPositiveLengthIsChunked | VideoAnalyzer.ChooseModeCorrected |
| archive/analyze_video_vertex_chunked.py:290-298 | `if args.enable_chunking and video_duration:` goes straight to `create_video_segments` with the given length | `--enable-chunking --video-duration 400 --segment-duration 0`: the segmenting loop never ends | the segment length is checked to be positive before segmenting | not executed | VertexChunked.ChunkAsWrittenUnguarded | VertexChunked.ChunkCheckedCorrected |
