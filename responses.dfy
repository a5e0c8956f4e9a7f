/**
 * The shape of a `generate_content` response as the scripts read it, and
 * the text-extraction rule they share: the stripped text of every part
 * that has text, in candidate order and part order, joined with a blank
 * line and stripped again; and the requests a script sends, with the
 * model service as a function from a request to its reply.
 */
module Responses {
  import opened Wrappers
  import opened PyText

  /** One part of a candidate's content; `text` is what `getattr(part, "text", None)` reads. */
  datatype Part = Part(text: Option<string>)

  /** A candidate; `parts` is `None` when it has no content or its content has no parts. */
  datatype Candidate = Candidate(parts: Option<seq<Part>>)

  /** `response.candidates`, which may be `None`. */
  datatype Response = Response(candidates: Option<seq<Candidate>>)

  /** What one model call gave back: a response, or the text of the exception it raised. */
  datatype Reply = Responded(response: Response) | Raised(message: string)

  const Separator: string := "\n\n"

  /** `getattr(part, "text", None)` is truthy: the text is present and not empty. */
  predicate HasText(p: Part) {
    p.text.Some? && p.text.value != ""
  }

  /** The parts the loops visit: none when content or parts are missing. */
  function PartsOf(c: Candidate): seq<Part> {
    if c.parts.Some? then c.parts.value else []
  }

  /** `response.candidates or []`. */
  function CandidatesOf(r: Response): seq<Candidate> {
    if r.candidates.Some? then r.candidates.value else []
  }

  /** The stripped texts appended for the parts `ps`, in order. */
  function PartTexts(ps: seq<Part>): seq<string>
  {
    if ps == [] then []
    else
      var last := ps[|ps| - 1];
      PartTexts(ps[..|ps| - 1]) + (if HasText(last) then [Strip(last.text.value)] else [])
  }

  /** One more part adds its stripped text when it has text. */
  lemma PartTextsStep(ps: seq<Part>, k: nat)
    requires k < |ps|
    ensures PartTexts(ps[..k + 1]) == PartTexts(ps[..k]) + (if HasText(ps[k]) then [Strip(ps[k].text.value)] else [])
  {
    assert ps[..k + 1][..k] == ps[..k];
  }

  /** The inner loop of `_extract_text` keeps `texts` equal to what came before plus the texts of the parts seen. */
  lemma AppendPart(before: seq<string>, ps: seq<Part>, k: nat, texts: seq<string>)
    requires k < |ps| && texts == before + PartTexts(ps[..k])
    ensures (if HasText(ps[k]) then texts + [Strip(ps[k].text.value)] else texts) == before + PartTexts(ps[..k + 1])
  {
    PartTextsStep(ps, k);
  }

  /** The stripped texts appended for the candidates `cs`, candidate after candidate. */
  function CandidateTexts(cs: seq<Candidate>): seq<string>
  {
    if cs == [] then [] else CandidateTexts(cs[..|cs| - 1]) + PartTexts(PartsOf(cs[|cs| - 1]))
  }

  /** One more candidate adds the texts of its parts. */
  lemma CandidateTextsStep(cs: seq<Candidate>, i: nat)
    requires i < |cs|
    ensures CandidateTexts(cs[..i + 1]) == CandidateTexts(cs[..i]) + PartTexts(PartsOf(cs[i]))
  {
    assert cs[..i + 1][..i] == cs[..i];
  }

  /** `"\n\n".join(texts).strip()` over every text part of the response. */
  function JoinedText(r: Response): string {
    Strip(Join(CandidateTexts(CandidatesOf(r)), Separator))
  }

  /** Every part that has text carries only whitespace. */
  predicate BlankParts(ps: seq<Part>) {
    forall k :: 0 <= k < |ps| && HasText(ps[k]) ==> AllSpace(ps[k].text.value)
  }

  predicate BlankCandidates(cs: seq<Candidate>) {
    forall i :: 0 <= i < |cs| ==> BlankParts(PartsOf(cs[i]))
  }

  predicate AllBlank(ts: seq<string>) {
    forall k :: 0 <= k < |ts| ==> AllSpace(ts[k])
  }

  lemma AllBlankConcat(a: seq<string>, b: seq<string>)
    ensures AllBlank(a + b) <==> AllBlank(a) && AllBlank(b)
  {
    if AllBlank(a + b) {
      forall k | 0 <= k < |a| ensures AllSpace(a[k]) { assert a[k] == (a + b)[k]; }
      forall k | 0 <= k < |b| ensures AllSpace(b[k]) { assert b[k] == (a + b)[|a| + k]; }
    }
  }

  /** A stripped string is all whitespace only when it is empty. */
  lemma StripAllSpace(s: string)
    ensures AllSpace(Strip(s)) <==> AllSpace(s)
  {
    var r := Strip(s);
    if r != [] {
      assert !IsSpace(r[0]);
    }
  }

  lemma {:induction false} PartTextsBlank(ps: seq<Part>)
    ensures AllBlank(PartTexts(ps)) <==> BlankParts(ps)
  {
    if ps != [] {
      var init, last := ps[..|ps| - 1], ps[|ps| - 1];
      var tail := if HasText(last) then [Strip(last.text.value)] else [];
      PartTextsBlank(init);
      assert PartTexts(ps) == PartTexts(init) + tail;
      AllBlankConcat(PartTexts(init), tail);
      LastPartBlank(last);
      BlankPartsSnoc(ps);
    }
  }

  lemma LastPartBlank(last: Part)
    ensures AllBlank(if HasText(last) then [Strip(last.text.value)] else [])
       <==> (HasText(last) ==> AllSpace(last.text.value))
  {
    if HasText(last) {
      StripAllSpace(last.text.value);
      assert [Strip(last.text.value)][0] == Strip(last.text.value);
    }
  }

  lemma BlankPartsSnoc(ps: seq<Part>)
    requires ps != []
    ensures BlankParts(ps) <==> BlankParts(ps[..|ps| - 1]) && (HasText(ps[|ps| - 1]) ==> AllSpace(ps[|ps| - 1].text.value))
  {
    var init := ps[..|ps| - 1];
    assert forall k :: 0 <= k < |init| ==> ps[k] == init[k];
  }

  lemma {:induction false} CandidateTextsBlank(cs: seq<Candidate>)
    ensures AllBlank(CandidateTexts(cs)) <==> BlankCandidates(cs)
  {
    if cs != [] {
      var init := cs[..|cs| - 1];
      CandidateTextsBlank(init);
      PartTextsBlank(PartsOf(cs[|cs| - 1]));
      AllBlankConcat(CandidateTexts(init), PartTexts(PartsOf(cs[|cs| - 1])));
      assert forall i :: 0 <= i < |init| ==> init[i] == cs[i];
    }
  }

  /**
   * The joined text is empty exactly when no part of any candidate carries
   * a character other than whitespace; this is when the scripts fall back
   * to their "no response" messages.
   */
  lemma JoinedTextEmptyIff(r: Response)
    ensures JoinedText(r) == "" <==> BlankCandidates(CandidatesOf(r))
  {
    var ts := CandidateTexts(CandidatesOf(r));
    CandidateTextsBlank(CandidatesOf(r));
    JoinAllSpace(ts, Separator);
  }

  // ---------------------------------------------------------------------
  // The requests the scripts send
  // ---------------------------------------------------------------------

  const NoResponse: string := "No response generated."
  const VideoMimeType: string := "video/mp4"

  /** The clip of the video a request asks about: `video_metadata` offsets. */
  datatype Clip = Clip(startOffset: string, endOffset: string)

  /** What one `generate_content` call carries, apart from the sampling config. */
  datatype Request = Request(model: string, fileUri: string, mimeType: Option<string>, clip: Option<Clip>, prompt: string)

  /** The model service, answering each request with a response or an exception. */
  type Service = Request -> Reply


  // ---------------------------------------------------------------------
  // _extract_text (inlined in the archived Vertex AI script)
  // ---------------------------------------------------------------------

  /** What `_extract_text` returns: the joined text, or the fallback when that is empty. */
  function ExtractedText(response: Response): string {
    var result := JoinedText(response);
    if result != "" then result else NoResponse
  }

  /**
   * The extracted text is never empty: a response whose text parts are all
   * whitespace (or that has none) gives the fallback, any other gives the
   * stripped texts joined by a blank line, itself stripped.
   */
  lemma ExtractedTextFallback(response: Response)
    ensures ExtractedText(response) != ""
    ensures BlankCandidates(CandidatesOf(response)) ==> ExtractedText(response) == NoResponse
    ensures !BlankCandidates(CandidatesOf(response)) ==>
      && ExtractedText(response) == Strip(Join(CandidateTexts(CandidatesOf(response)), Separator))
      && IsStripped(ExtractedText(response))
  {
    JoinedTextEmptyIff(response);
  }

  /** `_extract_text`: the nested loops that append the stripped text of every text part. */
  method ExtractText(response: Response) returns (text: string)
    ensures text == ExtractedText(response)
    ensures text != ""
  {
    var texts: seq<string> := [];
    var candidates := CandidatesOf(response);
    var i := 0;
    while i < |candidates|
      invariant 0 <= i <= |candidates|
      invariant texts == CandidateTexts(candidates[..i])
    {
      var parts := PartsOf(candidates[i]);
      ghost var before := texts;
      var k := 0;
      while k < |parts|
        invariant 0 <= k <= |parts|
        invariant texts == before + PartTexts(parts[..k])
      {
        var part := parts[k];
        AppendPart(before, parts, k, texts);
        if HasText(part) {
          texts := texts + [Strip(part.text.value)];
        }
        k := k + 1;
      }
      assert parts[..k] == parts;
      CandidateTextsStep(candidates, i);
      i := i + 1;
    }
    assert candidates[..i] == candidates;
    var result := Strip(Join(texts, Separator));
    assert result == JoinedText(response);
    text := if result != "" then result else NoResponse;
    JoinedTextEmptyIff(response);
  }

}
