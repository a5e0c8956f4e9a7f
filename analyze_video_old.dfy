/**
 * The first, single-pass analyser (`archive/analyze_video_old.py`): the
 * `h m s` rendering of a duration, its text extraction, which drops parts
 * that are only whitespace, the fallback and error strings of
 * `analyze_video`, and the guidance `main` prints for long videos.
 */
module OldAnalyzer {
  import opened Wrappers
  import opened PyText
  import opened Responses

  // ---------------------------------------------------------------------
  // format_duration
  // ---------------------------------------------------------------------

  /** `format_duration`: `"{h}h {m}m {s}s"`, dropping leading fields that are not positive. */
  function FormatDuration(seconds: int): string {
    var hours := seconds / 3600;
    var minutes := (seconds % 3600) / 60;
    var secs := seconds % 60;
    if hours > 0 then IntStr(hours) + "h " + IntStr(minutes) + "m " + IntStr(secs) + "s"
    else if minutes > 0 then IntStr(minutes) + "m " + IntStr(secs) + "s"
    else IntStr(secs) + "s"
  }

  /**
   * The three fields decompose the duration: with Python's floor division
   * by a positive divisor, `3600 h + 60 m + s` is the duration again and
   * the minutes and seconds are each below 60.
   */
  lemma DurationFields(seconds: int)
    ensures var hours, minutes, secs := seconds / 3600, (seconds % 3600) / 60, seconds % 60;
      && 3600 * hours + 60 * minutes + secs == seconds
      && 0 <= minutes < 60 && 0 <= secs < 60
  {
    var r := seconds % 3600;
    assert seconds == 3600 * (seconds / 3600) + r;
    assert r == 60 * (r / 60) + r % 60;
    assert r % 60 == seconds % 60 by {
      assert seconds == 60 * (60 * (seconds / 3600) + r / 60) + r % 60;
    }
  }

  /** The value of a `"<n><unit>"` field. */
  function FieldValue(field: string): int {
    if field == [] then 0 else ParseInt(field[..|field| - 1])
  }

  /** Reads a rendered duration back into seconds: one, two or three space-separated fields. */
  function ParseDuration(s: string): int {
    var (first, rest) := SplitAt(s, ' ');
    if rest == [] then FieldValue(first)
    else
      var (second, third) := SplitAt(rest, ' ');
      if third == [] then 60 * FieldValue(first) + FieldValue(second)
      else 3600 * FieldValue(first) + 60 * FieldValue(second) + FieldValue(third)
  }

  /** `f"{n}{unit}"` reads back as `n` and holds no space. */
  lemma FieldRoundTrip(n: int, unit: char)
    requires unit != ' '
    ensures FieldValue(IntStr(n) + [unit]) == n
    ensures forall k :: 0 <= k < |IntStr(n) + [unit]| ==> (IntStr(n) + [unit])[k] != ' '
  {
    IntStrRoundTrip(n);
    assert (IntStr(n) + [unit])[..|IntStr(n)|] == IntStr(n);
  }

  /**
   * For a duration of zero or more seconds the rendering loses nothing:
   * reading it back gives the duration, and it has an hours field exactly
   * when there is a whole hour, a minutes field exactly when there is a
   * whole minute.
   */
  lemma FormatDurationRoundTrip(seconds: int)
    requires seconds >= 0
    ensures ParseDuration(FormatDuration(seconds)) == seconds
    ensures var f := FormatDuration(seconds);
      && (('h' in f) <==> seconds >= 3600)
      && (('m' in f) <==> seconds >= 60)
  {
    DurationFields(seconds);
    var hours, minutes, secs := seconds / 3600, (seconds % 3600) / 60, seconds % 60;
    var h, m, s := IntStr(hours) + "h", IntStr(minutes) + "m", IntStr(secs) + "s";
    FieldRoundTrip(hours, 'h');
    FieldRoundTrip(minutes, 'm');
    FieldRoundTrip(secs, 's');
    NoUnitIn(hours, 'm');
    NoUnitIn(minutes, 'h');
    NoUnitIn(secs, 'h');
    NoUnitIn(secs, 'm');
    if hours > 0 {
      assert FormatDuration(seconds) == h + " " + m + " " + s;
      ThreeFields(h, m, s);
    } else if minutes > 0 {
      assert FormatDuration(seconds) == m + " " + s;
      TwoFields(m, s);
    } else {
      assert FormatDuration(seconds) == s;
      OneField(s);
    }
  }

  /** `f"{n}{u}"` holds no letter other than `u`. */
  lemma NoUnitIn(n: int, c: char)
    requires c == 'h' || c == 'm'
    ensures c !in IntStr(n)
  {
    IntStrRoundTrip(n);
  }

  lemma ThreeFields(h: string, m: string, s: string)
    requires |h| > 0 && |m| > 0 && |s| > 0
    requires forall k :: 0 <= k < |h| ==> h[k] != ' '
    requires forall k :: 0 <= k < |m| ==> m[k] != ' '
    ensures ParseDuration(h + " " + m + " " + s) == 3600 * FieldValue(h) + 60 * FieldValue(m) + FieldValue(s)
  {
    assert h + " " + m + " " + s == h + [' '] + (m + " " + s);
    SplitAtConcat(h, ' ', m + " " + s);
    SplitAtConcat(m, ' ', s);
  }

  lemma TwoFields(m: string, s: string)
    requires |m| > 0 && |s| > 0
    requires forall k :: 0 <= k < |m| ==> m[k] != ' '
    requires forall k :: 0 <= k < |s| ==> s[k] != ' '
    ensures ParseDuration(m + " " + s) == 60 * FieldValue(m) + FieldValue(s)
  {
    SplitAtConcat(m, ' ', s);
    assert IndexOf(s, ' ') == |s|;
    assert s[..|s|] == s;
    assert SplitAt(s, ' ') == (s, []);
  }

  lemma OneField(s: string)
    requires forall k :: 0 <= k < |s| ==> s[k] != ' '
    ensures ParseDuration(s) == FieldValue(s)
  {
    assert IndexOf(s, ' ') == |s|;
    assert s[..|s|] == s;
    assert SplitAt(s, ' ') == (s, []);
  }

  // ---------------------------------------------------------------------
  // _text_parts and extract_text
  // ---------------------------------------------------------------------

  /**
   * `_text_parts`: the stripped text of each part whose text is present and
   * not blank, in order; none when the content or its parts are missing.
   */
  function TextParts(parts: seq<Part>): (r: seq<string>)
    ensures forall k :: 0 <= k < |r| ==> r[k] != "" && IsStripped(r[k])
  {
    if parts == [] then []
    else
      var last := parts[|parts| - 1];
      TextParts(parts[..|parts| - 1])
        + (if HasText(last) && Strip(last.text.value) != "" then [Strip(last.text.value)] else [])
  }

  /** The strings of `ts` that are not empty, in order. */
  function NonEmptyOnly(ts: seq<string>): (r: seq<string>)
    ensures forall k :: 0 <= k < |r| ==> r[k] != ""
  {
    if ts == [] then []
    else NonEmptyOnly(ts[..|ts| - 1]) + (if ts[|ts| - 1] != "" then [ts[|ts| - 1]] else [])
  }

  lemma NonEmptyOnlyConcat(a: seq<string>, b: seq<string>)
    ensures NonEmptyOnly(a + b) == NonEmptyOnly(a) + NonEmptyOnly(b)
    decreases |b|
  {
    if b != [] {
      assert (a + b)[..|a + b| - 1] == a + b[..|b| - 1];
      NonEmptyOnlyConcat(a, b[..|b| - 1]);
    } else {
      assert a + b == a;
    }
  }

  /**
   * The old extraction keeps what the new one keeps, minus the parts that
   * strip to nothing: it is the new list with its empty strings removed.
   */
  lemma {:induction false} TextPartsDropsBlanks(parts: seq<Part>)
    ensures TextParts(parts) == NonEmptyOnly(PartTexts(parts))
  {
    if parts != [] {
      var init, last := parts[..|parts| - 1], parts[|parts| - 1];
      TextPartsDropsBlanks(init);
      var tail := if HasText(last) then [Strip(last.text.value)] else [];
      NonEmptyOnlyConcat(PartTexts(init), tail);
      if tail != [] {
        assert tail[..|tail| - 1] == [];
      }
    }
  }

  /** `texts` after `extend(_text_parts(candidate.content))` for each candidate of `cs`. */
  function OldTexts(cs: seq<Candidate>): seq<string> {
    if cs == [] then [] else OldTexts(cs[..|cs| - 1]) + TextParts(PartsOf(cs[|cs| - 1]))
  }

  lemma {:induction false} OldTextsDropBlanks(cs: seq<Candidate>)
    ensures OldTexts(cs) == NonEmptyOnly(CandidateTexts(cs))
  {
    if cs != [] {
      var init := cs[..|cs| - 1];
      OldTextsDropBlanks(init);
      TextPartsDropsBlanks(PartsOf(cs[|cs| - 1]));
      NonEmptyOnlyConcat(CandidateTexts(init), PartTexts(PartsOf(cs[|cs| - 1])));
    }
  }

  /** Every text the old extraction keeps is non-empty and stripped. */
  lemma {:induction false} OldTextsStripped(cs: seq<Candidate>)
    ensures forall k :: 0 <= k < |OldTexts(cs)| ==> OldTexts(cs)[k] != "" && IsStripped(OldTexts(cs)[k])
  {
    if cs != [] {
      var init := cs[..|cs| - 1];
      OldTextsStripped(init);
      var a, b := OldTexts(init), TextParts(PartsOf(cs[|cs| - 1]));
      assert OldTexts(cs) == a + b;
      forall k | 0 <= k < |a + b| ensures (a + b)[k] != "" && IsStripped((a + b)[k]) {
        if k >= |a| { assert (a + b)[k] == b[k - |a|]; }
      }
    }
  }

  lemma {:induction false} NonEmptyOnlyEmpty(ts: seq<string>)
    requires forall k :: 0 <= k < |ts| ==> IsStripped(ts[k])
    ensures NonEmptyOnly(ts) == [] <==> forall k :: 0 <= k < |ts| ==> AllSpace(ts[k])
  {
    if ts != [] {
      var last := ts[|ts| - 1];
      NonEmptyOnlyEmpty(ts[..|ts| - 1]);
      if last != [] { assert !IsSpace(last[0]); }
      assert forall k :: 0 <= k < |ts| - 1 ==> ts[..|ts| - 1][k] == ts[k];
    }
  }

  /** `extract_text`: the kept texts joined by a blank line, stripped. */
  function OldExtractedText(response: Response): string {
    Strip(Join(OldTexts(CandidatesOf(response)), Separator))
  }

  /**
   * Every kept text is non-empty and stripped, so the final `.strip()`
   * changes nothing; the text is empty exactly when no part carries a
   * non-whitespace character, the same condition as for the newer
   * extraction.
   */
  lemma OldExtractedTextFacts(response: Response)
    ensures OldExtractedText(response) == Join(OldTexts(CandidatesOf(response)), Separator)
    ensures OldExtractedText(response) == "" <==> BlankCandidates(CandidatesOf(response))
    ensures OldExtractedText(response) == "" <==> JoinedText(response) == ""
  {
    var cs := CandidatesOf(response);
    OldStripIsNoop(cs);
    OldJoinEmptyIff(cs);
    JoinedTextEmptyIff(response);
  }

  /** The final `.strip()` of `extract_text` changes nothing. */
  lemma OldStripIsNoop(cs: seq<Candidate>)
    ensures Strip(Join(OldTexts(cs), Separator)) == Join(OldTexts(cs), Separator)
  {
    OldTextsStripped(cs);
    JoinOfStrippedIsStripped(OldTexts(cs), Separator);
    StripIdentity(Join(OldTexts(cs), Separator));
  }

  /** The joined old texts are empty exactly when every text part is blank. */
  lemma OldJoinEmptyIff(cs: seq<Candidate>)
    ensures Join(OldTexts(cs), Separator) == "" <==> BlankCandidates(cs)
  {
    OldTextsStripped(cs);
    OldJoinEmpty(OldTexts(cs));
    OldTextsDropBlanks(cs);
    CandidateTextsStripped(cs);
    NonEmptyOnlyEmpty(CandidateTexts(cs));
    CandidateTextsBlank(cs);
  }

  lemma {:induction false} CandidateTextsStripped(cs: seq<Candidate>)
    ensures forall k :: 0 <= k < |CandidateTexts(cs)| ==> IsStripped(CandidateTexts(cs)[k])
  {
    if cs != [] {
      CandidateTextsStripped(cs[..|cs| - 1]);
      PartTextsStripped(PartsOf(cs[|cs| - 1]));
      var a, b := CandidateTexts(cs[..|cs| - 1]), PartTexts(PartsOf(cs[|cs| - 1]));
      forall k | 0 <= k < |a + b| ensures IsStripped((a + b)[k]) {
        if k >= |a| { assert (a + b)[k] == b[k - |a|]; }
      }
    }
  }

  lemma {:induction false} PartTextsStripped(ps: seq<Part>)
    ensures forall k :: 0 <= k < |PartTexts(ps)| ==> IsStripped(PartTexts(ps)[k])
  {
    if ps != [] {
      PartTextsStripped(ps[..|ps| - 1]);
    }
  }

  /** Joining non-empty texts gives the empty string only when there are none. */
  lemma OldJoinEmpty(ts: seq<string>)
    requires forall k :: 0 <= k < |ts| ==> ts[k] != ""
    ensures Join(ts, Separator) == "" <==> ts == []
  {
    if ts != [] {
      JoinEnds(ts, Separator);
    }
  }

  /** `extract_text`: the loop that extends `texts` candidate by candidate. */
  method ExtractTextOld(response: Response) returns (text: string)
    ensures text == OldExtractedText(response)
    ensures text == "" <==> BlankCandidates(CandidatesOf(response))
  {
    var texts: seq<string> := [];
    var candidates := CandidatesOf(response);
    var i := 0;
    while i < |candidates|
      invariant 0 <= i <= |candidates|
      invariant texts == OldTexts(candidates[..i])
    {
      texts := texts + TextParts(PartsOf(candidates[i]));
      assert candidates[..i + 1][..i] == candidates[..i];
      i := i + 1;
    }
    assert candidates[..i] == candidates;
    text := Strip(Join(texts, Separator));
    OldExtractedTextFacts(response);
  }

  // ---------------------------------------------------------------------
  // analyze_video and main
  // ---------------------------------------------------------------------

  const NoTextFallback: string := "Gemini did not return any text."

  /** The request: the model name as given (its default carries `models/`), the video and the prompt. */
  function OldRequest(youtubeUrl: string, prompt: string, model: string): Request {
    Request(model, youtubeUrl, None, None, prompt)
  }

  /**
   * `analyze_video`: the extracted text, the fallback sentence when it is
   * empty, or `"Error processing video: "` and the exception's message.
   */
  function AnalyzeVideoOld(service: Service, youtubeUrl: string, prompt: string, model: string): (r: string)
    ensures r != ""
    ensures service(OldRequest(youtubeUrl, prompt, model)).Raised? ==>
      r == "Error processing video: " + service(OldRequest(youtubeUrl, prompt, model)).message
    ensures service(OldRequest(youtubeUrl, prompt, model)).Responded? ==>
      var response := service(OldRequest(youtubeUrl, prompt, model)).response;
      && (BlankCandidates(CandidatesOf(response)) ==> r == NoTextFallback)
      && (!BlankCandidates(CandidatesOf(response)) ==>
            r == Join(OldTexts(CandidatesOf(response)), Separator) && IsStripped(r))
  {
    match service(OldRequest(youtubeUrl, prompt, model))
    case Responded(response) =>
      OldExtractedTextFacts(response);
      var text := OldExtractedText(response);
      if text == "" then NoTextFallback else text
    case Raised(message) => "Error processing video: " + message
  }

  /** The guidance printed under the duration. */
  datatype DurationNote = NoNote | MaxTokensNote | LongVideoNote

  /** `video_duration > 1800`: long-video advice; over 600: the max-tokens note; otherwise none. */
  function DurationGuidance(videoDuration: Option<int>): (n: DurationNote)
    ensures n == LongVideoNote <==> Truthy(videoDuration) && videoDuration.value > 1800
    ensures n == MaxTokensNote <==> Truthy(videoDuration) && 600 < videoDuration.value <= 1800
    ensures n == NoNote <==> !Truthy(videoDuration) || videoDuration.value <= 600
  {
    if !Truthy(videoDuration) then NoNote
    else if videoDuration.value > 1800 then LongVideoNote
    else if videoDuration.value > 600 then MaxTokensNote
    else NoNote
  }

  /** What `main` shows: the duration line, its guidance, the result, and the closing note on chunking. */
  datatype OldReport = OldReport(shownDuration: Option<string>, guidance: DurationNote, result: string, chunkingNote: bool)

  /**
   * `main` after argument parsing, given the fetched duration: the
   * duration is shown as `format_duration` renders it, readable back as
   * seconds, only when it is known and not 0; the guidance is the one the
   * duration calls for; and the closing note says chunking is unsupported
   * exactly for videos over ten minutes.
   */
  function OldRun(service: Service, youtubeUrl: string, prompt: string, model: string, videoDuration: Option<int>): (r: OldReport)
    ensures r.shownDuration == (if Truthy(videoDuration) then Some(FormatDuration(videoDuration.value)) else None)
    ensures r.guidance == DurationGuidance(videoDuration)
    ensures r.shownDuration.Some? <==> Truthy(videoDuration)
    ensures r.shownDuration.Some? && videoDuration.value >= 0 ==> ParseDuration(r.shownDuration.value) == videoDuration.value
    ensures r.chunkingNote <==> Truthy(videoDuration) && videoDuration.value > 600
    ensures r.chunkingNote <==> r.guidance != NoNote
    ensures r.result == AnalyzeVideoOld(service, youtubeUrl, prompt, model) && r.result != ""
  {
    var shown := if Truthy(videoDuration) then Some(FormatDuration(videoDuration.value)) else None;
    var report := OldReport(shown, DurationGuidance(videoDuration), AnalyzeVideoOld(service, youtubeUrl, prompt, model),
                            Truthy(videoDuration) && videoDuration.value > 600);
    if Truthy(videoDuration) && videoDuration.value >= 0 then
      FormatDurationRoundTrip(videoDuration.value);
      report
    else report
  }
}
