/**
 * `VideoSegment`, its `__str__` label, and `create_video_segments`, which
 * both chunking scripts carry in identical copies: the video `[0, total)`
 * is cut into windows of `segment_duration` seconds, the last one possibly
 * shorter, numbered from 1. Also the `"<n>s"` offsets and prompt text a
 * segment request names its window by.
 */
module Segments {
  import opened PyText

  /** A window `[startOffset, endOffset)` of the video, in seconds, and its 1-based number. */
  datatype VideoSegment = VideoSegment(startOffset: int, endOffset: int, segmentIndex: int)

  function Min(a: int, b: int): int {
    if a <= b then a else b
  }

  // ---------------------------------------------------------------------
  // The label: "Segment i: MM:SS - MM:SS"
  // ---------------------------------------------------------------------

  /** `MM:SS` for an offset: minutes `offset // 60`, seconds `offset % 60`, each `:02d`. */
  function ClockText(offset: int): (r: string)
    ensures |r| >= 5 && r[|r| - 3] == ':'
    ensures ClockValue(r) == offset
  {
    var minutes, seconds := Pad2(offset / 60), Pad2(offset % 60);
    assert forall k :: 0 <= k < |minutes| ==> minutes[k] != ':';
    SplitAtConcat(minutes, ':', seconds);
    minutes + ":" + seconds
  }

  /** Reads `MM:SS` back into seconds. */
  function ClockValue(s: string): int {
    var (minutes, seconds) := SplitAt(s, ':');
    60 * ParseInt(minutes) + ParseInt(seconds)
  }

  /** `str(segment)`: `"Segment {i}: {MM}:{SS} - {MM}:{SS}"`. */
  function Label(seg: VideoSegment): string {
    "Segment " + IntStr(seg.segmentIndex) + ": " + ClockText(seg.startOffset) + " - " + ClockText(seg.endOffset)
  }

  /** Reads a label back into (index, start, end). */
  function ParseLabel(s: string): (int, int, int) {
    var (index, rest) := SplitAt(Drop(s, 8), ':');
    var (start, rest') := SplitAt(Drop(rest, 1), ' ');
    (ParseInt(index), ClockValue(start), ClockValue(Drop(rest', 2)))
  }

  /**
   * The label names its segment completely: index, start and end can be
   * read back from it, so two different segments never share a label.
   */
  lemma LabelRoundTrip(seg: VideoSegment)
    ensures ParseLabel(Label(seg)) == (seg.segmentIndex, seg.startOffset, seg.endOffset)
  {
    IntStrRoundTrip(seg.segmentIndex);
    ClockHasNoSpace(seg.startOffset);
    ParseLabelFields(IntStr(seg.segmentIndex), ClockText(seg.startOffset), ClockText(seg.endOffset));
  }

  lemma ClockHasNoSpace(offset: int)
    ensures forall k :: 0 <= k < |ClockText(offset)| ==> ClockText(offset)[k] != ' '
  {
    var m, sec := Pad2(offset / 60), Pad2(offset % 60);
    var c := ClockText(offset);
    assert c == m + ":" + sec;
    forall k | 0 <= k < |c| ensures c[k] != ' ' {
      if k < |m| { assert c[k] == m[k]; }
      else if k > |m| { assert c[k] == sec[k - |m| - 1]; }
    }
  }

  lemma ParseLabelFields(index: string, start: string, end: string)
    requires forall k :: 0 <= k < |index| ==> index[k] != ':'
    requires forall k :: 0 <= k < |start| ==> start[k] != ' '
    ensures ParseLabel("Segment " + index + ": " + start + " - " + end)
         == (ParseInt(index), ClockValue(start), ClockValue(end))
  {
    var s := "Segment " + index + ": " + start + " - " + end;
    var rest := " " + start + " - " + end;
    assert Drop(s, 8) == index + [':'] + rest;
    SplitAtConcat(index, ':', rest);
    assert Drop(rest, 1) == start + [' '] + ("- " + end);
    SplitAtConcat(start, ' ', "- " + end);
    assert Drop("- " + end, 2) == end;
  }

  // ---------------------------------------------------------------------
  // create_video_segments
  // ---------------------------------------------------------------------

  /** `ceil(total / len)` windows for a positive total, none otherwise. */
  function SegmentCount(total: int, len: int): nat
    requires len > 0
  {
    if total <= 0 then 0 else (total + len - 1) / len
  }

  /** The `k`-th window (0-based position) of a `total`-second video cut every `len` seconds. */
  function Window(total: int, len: int, k: nat): VideoSegment
    requires len > 0
  {
    VideoSegment(k * len, Min(k * len + len, total), k + 1)
  }

  /**
   * `segs` cut `[0, total)` into consecutive windows: the first starts at
   * 0, each later one starts where the previous one ends, the last ends at
   * `total`; every window is non-empty and at most `len` long, and only the
   * last may be shorter; windows are numbered 1, 2, ..., n in list order.
   */
  ghost predicate Tiles(segs: seq<VideoSegment>, total: int, len: int) {
    && (segs == [] <==> total <= 0)
    && (segs != [] ==> segs[0].startOffset == 0 && segs[|segs| - 1].endOffset == total)
    && (forall k :: 0 < k < |segs| ==> segs[k].startOffset == segs[k - 1].endOffset)
    && (forall k :: 0 <= k < |segs| ==> 0 < segs[k].endOffset - segs[k].startOffset <= len)
    && (forall k :: 0 <= k < |segs| - 1 ==> segs[k].endOffset - segs[k].startOffset == len)
    && (forall k :: 0 <= k < |segs| ==> segs[k].segmentIndex == k + 1)
  }

  lemma MulMonotone(a: int, b: int, c: int)
    requires a <= b && c >= 0
    ensures a * c <= b * c
  {
    assert b * c - a * c == (b - a) * c;
  }

  /** `n = ceil(total / len)` is the one count with `(n - 1) * len < total <= n * len`. */
  lemma CountBounds(total: int, len: int)
    requires total > 0 && len > 0
    ensures var n := SegmentCount(total, len); n >= 1 && (n - 1) * len < total <= n * len
  {
    var x := total + len - 1;
    var n := x / len;
    assert x == n * len + x % len;
    assert (n - 1) * len == n * len - len;
    if n < 1 { MulMonotone(n, 0, len); }
  }

  /** A count with `(n - 1) * len < total <= n * len` is `ceil(total / len)`. */
  lemma CountUnique(total: int, len: int, n: int)
    requires total > 0 && len > 0
    requires (n - 1) * len < total <= n * len
    ensures n == SegmentCount(total, len)
  {
    CountBounds(total, len);
    var m := SegmentCount(total, len);
    assert (n - 1) * len == n * len - len;
    assert (m - 1) * len == m * len - len;
    if n < m { MulMonotone(n, m - 1, len); }
    if m < n { MulMonotone(m, n - 1, len); }
  }

  /** The closed-form windows tile the video. */
  lemma WindowsTile(total: int, len: int)
    requires len > 0
    ensures Tiles(seq(SegmentCount(total, len), k requires k >= 0 => Window(total, len, k)), total, len)
  {
    var n := SegmentCount(total, len);
    var segs := seq(n, k requires k >= 0 => Window(total, len, k));
    if total > 0 {
      CountBounds(total, len);
      forall k | 0 <= k < n
        ensures k * len < total
        ensures k * len + len == (k + 1) * len
      {
        MulMonotone(k, n - 1, len);
      }
      forall k | 0 <= k < n - 1
        ensures segs[k].endOffset == (k + 1) * len
      {
        MulMonotone(k + 1, n - 1, len);
      }
      assert segs[n - 1].endOffset == total;
    }
  }

  /**
   * Every second `t` of the video lies in exactly one window: the one at
   * position `t / len`.
   */
  lemma WindowOfSecond(total: int, len: int, t: int, k: nat)
    requires len > 0 && 0 <= t < total
    requires k < SegmentCount(total, len)
    ensures t / len < SegmentCount(total, len)
    ensures Window(total, len, k).startOffset <= t < Window(total, len, k).endOffset <==> k == t / len
  {
    var q := t / len;
    assert t == q * len + t % len;
    assert (q + 1) * len == q * len + len;
    CountBounds(total, len);
    var n := SegmentCount(total, len);
    if q >= n { MulMonotone(n, q, len); }
    if k < q { MulMonotone(k + 1, q, len); assert (k + 1) * len == k * len + len; }
    if k > q { MulMonotone(q + 1, k, len); }
  }

  /** The windows the loop has built when it stops are all `ceil(total / len)` of them. */
  lemma LoopExitCount(total: int, len: int, n: nat)
    requires len > 0
    requires n == 0 ==> total <= 0
    requires n > 0 ==> (n - 1) * len < total <= n * len
    ensures n == SegmentCount(total, len)
  {
    if n > 0 {
      MulMonotone(0, n - 1, len);
      CountUnique(total, len, n);
    }
  }

  lemma ClosedFormTiles(segs: seq<VideoSegment>, total: int, len: int)
    requires len > 0
    requires |segs| == SegmentCount(total, len)
    requires forall k :: 0 <= k < |segs| ==> segs[k] == Window(total, len, k)
    ensures Tiles(segs, total, len)
    ensures 0 < total <= len ==> segs == [VideoSegment(0, total, 1)]
  {
    assert segs == seq(SegmentCount(total, len), k requires k >= 0 => Window(total, len, k));
    WindowsTile(total, len);
    if 0 < total <= len {
      CountUnique(total, len, 1);
    }
  }

  /**
   * `create_video_segments(total_duration, segment_duration)`: the loop
   * that walks `start` from 0 and appends `[start, min(start + len, total))`.
   */
  method CreateVideoSegments(totalDuration: int, segmentDuration: int) returns (segments: seq<VideoSegment>)
    requires segmentDuration > 0
    ensures |segments| == SegmentCount(totalDuration, segmentDuration)
    ensures forall k :: 0 <= k < |segments| ==> segments[k] == Window(totalDuration, segmentDuration, k)
    ensures Tiles(segments, totalDuration, segmentDuration)
    ensures 0 < totalDuration <= segmentDuration ==> segments == [VideoSegment(0, totalDuration, 1)]
  {
    segments := [];
    var start := 0;
    var segmentIndex := 1;
    while start < totalDuration
      invariant segmentIndex == |segments| + 1
      invariant forall k :: 0 <= k < |segments| ==> segments[k] == Window(totalDuration, segmentDuration, k)
      invariant |segments| > 0 ==> (|segments| - 1) * segmentDuration < totalDuration
      invariant start == if segments == [] then 0 else Min(|segments| * segmentDuration, totalDuration)
      decreases totalDuration - start
    {
      ghost var n := |segments|;
      assert start == n * segmentDuration;
      var end := Min(start + segmentDuration, totalDuration);
      assert (n + 1) * segmentDuration == n * segmentDuration + segmentDuration;
      assert VideoSegment(start, end, segmentIndex) == Window(totalDuration, segmentDuration, n);
      segments := segments + [VideoSegment(start, end, segmentIndex)];
      start := end;
      segmentIndex := segmentIndex + 1;
    }
    LoopExitCount(totalDuration, segmentDuration, |segments|);
    ClosedFormTiles(segments, totalDuration, segmentDuration);
  }

  // ---------------------------------------------------------------------
  // The loop as written, for any segment length
  // ---------------------------------------------------------------------

  /** One pass of the loop body: `start = min(start + segment_duration, total_duration)`. */
  function NextStart(start: int, total: int, len: int): int {
    Min(start + len, total)
  }

  /** `start` after `passes` passes of the loop body, starting from 0. */
  function StartAfter(passes: nat, total: int, len: int): int {
    if passes == 0 then 0 else NextStart(StartAfter(passes - 1, total, len), total, len)
  }

  /**
   * With a segment length of 0 or less and a positive duration, `start`
   * never grows, so the guard `start < total_duration` holds after every
   * pass: the loop does not terminate.
   */
  lemma {:induction false} NonPositiveLengthNeverFinishes(total: int, len: int, passes: nat)
    requires total > 0 && len <= 0
    ensures StartAfter(passes, total, len) <= 0 < total
  {
    if passes > 0 {
      NonPositiveLengthNeverFinishes(total, len, passes - 1);
    }
  }

  lemma {:induction false} StartAfterClosed(total: int, len: int, passes: nat)
    requires total > 0 && len > 0
    ensures StartAfter(passes, total, len) == Min(passes * len, total)
  {
    if passes > 0 {
      StartAfterClosed(total, len, passes - 1);
      assert passes * len == (passes - 1) * len + len;
    }
  }

  /**
   * With a positive segment length the guard first fails after exactly
   * `ceil(total / len)` passes, when `start` has reached `total`.
   */
  lemma PositiveLengthFinishes(total: int, len: int, passes: nat)
    requires total > 0 && len > 0
    ensures StartAfter(passes, total, len) < total <==> passes < SegmentCount(total, len)
    ensures StartAfter(SegmentCount(total, len), total, len) == total
  {
    var n := SegmentCount(total, len);
    CountBounds(total, len);
    StartAfterClosed(total, len, passes);
    StartAfterClosed(total, len, n);
    if passes < n { MulMonotone(passes, n - 1, len); }
    else { MulMonotone(n, passes, len); }
  }

  // ---------------------------------------------------------------------
  // Offsets as the segment requests send them
  // ---------------------------------------------------------------------

  /** `f"{offset}s"`. */
  function OffsetText(offset: int): string {
    IntStr(offset) + "s"
  }

  /** Reads `"<n>s"` back into `n`. */
  function ParseOffset(s: string): int {
    if s == [] then 0 else ParseInt(s[..|s| - 1])
  }

  /**
   * Reads `{head}{start}s to {end}s{sep}{prompt}` back into (start, end,
   * prompt), given the lengths of `head` and `sep`.
   */
  function ParseWindowPrompt(s: string, headLength: nat, sepLength: nat): (int, int, string) {
    var (start, rest) := SplitAt(Drop(s, headLength), 's');
    var (end, rest') := SplitAt(Drop(rest, 4), 's');
    (ParseInt(start), ParseInt(end), Drop(rest', sepLength))
  }

  /** `f"{n}s"` reads back as `n`, and carries no `s` before its last character. */
  lemma OffsetRoundTrip(n: int)
    ensures ParseOffset(OffsetText(n)) == n
    ensures forall k :: 0 <= k < |IntStr(n)| ==> IsDigit(IntStr(n)[k]) || IntStr(n)[k] == '-'
  {
    IntStrRoundTrip(n);
    assert OffsetText(n)[..|IntStr(n)|] == IntStr(n);
  }

  /** A prompt laid out around two offsets reads back into those offsets and the user prompt. */
  lemma WindowPromptFields(head: string, start: string, end: string, sep: string, prompt: string)
    requires forall k :: 0 <= k < |start| ==> IsDigit(start[k]) || start[k] == '-'
    requires forall k :: 0 <= k < |end| ==> IsDigit(end[k]) || end[k] == '-'
    ensures ParseWindowPrompt(head + (start + "s") + " to " + (end + "s") + sep + prompt, |head|, |sep|)
         == (ParseInt(start), ParseInt(end), prompt)
  {
    var tail := sep + prompt;
    var rest := " to " + (end + ['s'] + tail);
    assert head + (start + "s") + " to " + (end + "s") + sep + prompt == head + (start + ['s'] + rest);
    assert Drop(head + (start + ['s'] + rest), |head|) == start + ['s'] + rest;
    SplitAtConcat(start, 's', rest);
    assert Drop(rest, 4) == end + ['s'] + tail;
    SplitAtConcat(end, 's', tail);
    assert Drop(tail, |sep|) == prompt;
  }
}
