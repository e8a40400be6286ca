/**
 * The three adapters around the content-generation service. The service call
 * itself is not modelled: each adapter receives the call's outcome, either the
 * response or the error it raised, and only the adapter's own logic remains.
 */
module GeminiService {
  import opened Types

  /** An error raised by the service or by an adapter. */
  datatype Error = Error(message: string)

  /** The outcome of an awaited call: it returned a value or it threw. */
  datatype Reply<+T> = Returned(value: T) | Threw(error: Error)

  const NO_RESPONSE := Error("No response from Gemini")
  const CHAPTER_ERROR_TEXT := "Error generating content. Please try again."

  /**
   * generateBookOutline: an empty or missing response text is an error; every
   * error, the service's, this one, or the one the JSON decoder raises, reaches
   * the caller unchanged. `parse` stands for JSON.parse of the response text.
   */
  function GenerateBookOutline(reply: Reply<Option<string>>, parse: string -> Reply<PartialBook>): (r: Reply<PartialBook>)
    ensures reply.Threw? ==> r == Threw(reply.error)
    ensures reply.Returned? && !Truthy(reply.value) ==> r == Threw(NO_RESPONSE)
    ensures reply.Returned? && Truthy(reply.value) ==> r == parse(reply.value.value)
    ensures r.Returned? ==> reply.Returned? && Truthy(reply.value)
  {
    match reply
    case Threw(e) => Threw(e)
    case Returned(text) =>
      if !Truthy(text) then Threw(NO_RESPONSE) else parse(text.value)
  }

  /** The arguments of one generateChapterContent call. */
  datatype ChapterRequest = ChapterRequest(bookTitle: string, chapter: Chapter, audience: string)

  /**
   * generateChapterContent never throws: the response text if there is one,
   * the empty string if the response has none, and a fixed error text when
   * the call failed. An empty response is not reported as a failure.
   */
  function GenerateChapterContent(reply: Reply<Option<string>>): (r: string)
    ensures reply.Threw? ==> r == CHAPTER_ERROR_TEXT
    ensures reply.Returned? && Truthy(reply.value) ==> r == reply.value.value
    ensures reply.Returned? && !Truthy(reply.value) ==> r == ""
    ensures r == "" ==> reply.Returned?
  {
    match reply
    case Threw(_) => CHAPTER_ERROR_TEXT
    case Returned(text) => if Truthy(text) then text.value else ""
  }

  /** The parts of an image response that the cover adapter looks at. */
  datatype InlineData = InlineData(data: Option<string>)
  datatype Part = Part(inlineData: Option<InlineData>)
  datatype Content = Content(parts: Option<seq<Part>>)
  datatype Candidate = Candidate(content: Option<Content>)
  datatype ImageResponse = ImageResponse(candidates: Option<seq<Candidate>>)

  /** `response.candidates?.[0]?.content?.parts` */
  function PartsOf(response: ImageResponse): (r: Option<seq<Part>>)
    ensures r.Some? <==>
      response.candidates.Some? && |response.candidates.value| > 0
      && response.candidates.value[0].content.Some?
      && response.candidates.value[0].content.value.parts.Some?
    ensures r.Some? ==> r.value == response.candidates.value[0].content.value.parts.value
  {
    match response.candidates
    case None => None
    case Some(candidates) =>
      if |candidates| == 0 then None
      else match candidates[0].content
        case None => None
        case Some(content) => content.parts
  }

  /** `part.inlineData && part.inlineData.data` */
  predicate CarriesData(part: Part)
    ensures CarriesData(part) <==>
      part.inlineData.Some? && part.inlineData.value.data.Some? && part.inlineData.value.data.value != ""
  {
    part.inlineData.Some? && Truthy(part.inlineData.value.data)
  }

  /** The image data of a part that carries some: never empty. */
  function DataOf(part: Part): (r: string)
    requires CarriesData(part)
    ensures r != "" && part.inlineData.value.data == Some(r)
  {
    part.inlineData.value.data.value
  }

  /** Part `j` is the first, in order, that carries image data. */
  ghost predicate IsFirstWithData(parts: seq<Part>, j: int) {
    0 <= j < |parts| && CarriesData(parts[j]) && forall k :: 0 <= k < j ==> !CarriesData(parts[k])
  }

  /** The data of the first part that carries any. */
  function FirstData(parts: seq<Part>): (r: Option<string>)
    ensures r.Some? ==> r.value != ""
    ensures r.Some? ==> exists j :: 0 <= j < |parts| && CarriesData(parts[j]) && DataOf(parts[j]) == r.value
  {
    if |parts| == 0 then None
    else if CarriesData(parts[0]) then Some(DataOf(parts[0]))
    else FirstData(parts[1..])
  }

  /** FirstData finds the first part with data, and finds nothing only when no part has any. */
  lemma {:induction false} FirstDataIsFirst(parts: seq<Part>)
    ensures FirstData(parts).None? <==> forall k :: 0 <= k < |parts| ==> !CarriesData(parts[k])
    ensures FirstData(parts).Some? ==>
      exists j :: IsFirstWithData(parts, j) && DataOf(parts[j]) == FirstData(parts).value
    ensures FirstData(parts).Some? ==> FirstData(parts).value != ""
  {
    if |parts| > 0 && !CarriesData(parts[0]) {
      FirstDataIsFirst(parts[1..]);
      assert forall k :: 1 <= k < |parts| ==> parts[k] == parts[1..][k - 1];
      if FirstData(parts).Some? {
        var j :| IsFirstWithData(parts[1..], j) && DataOf(parts[1..][j]) == FirstData(parts).value;
        assert IsFirstWithData(parts, j + 1);
      }
    } else if |parts| > 0 {
      assert IsFirstWithData(parts, 0);
    }
  }

  /** What generateCoverImage resolves to: the first image data, or nothing. */
  function CoverImageOf(reply: Reply<ImageResponse>): (r: Option<string>)
    ensures reply.Threw? ==> r.None?
    ensures r.Some? ==> reply.Returned? && PartsOf(reply.value).Some? && r.value != ""
  {
    match reply
    case Threw(_) => None
    case Returned(response) =>
      match PartsOf(response)
      case None => None
      case Some(parts) => FirstData(parts)
  }

  /**
   * generateCoverImage: scans the parts in order and returns the data of the
   * first one that carries any; a failed call, absent parts or no data at all
   * give no cover. It never throws.
   */
  method GenerateCoverImage(reply: Reply<ImageResponse>) returns (r: Option<string>)
    ensures r == CoverImageOf(reply)
  {
    if reply.Threw? {
      return None;
    }
    var parts := PartsOf(reply.value);
    if parts.Some? {
      var ps := parts.value;
      for i := 0 to |ps|
        invariant FirstData(ps[i..]) == FirstData(ps)
      {
        assert ps[i..][1..] == ps[i + 1..];
        if CarriesData(ps[i]) {
          return Some(DataOf(ps[i]));
        }
      }
    }
    return None;
  }

  /** The cover adapter's promise, stated on the response: which data it picks and when it gives none. */
  lemma CoverImageOfSpec(reply: Reply<ImageResponse>)
    ensures CoverImageOf(reply).None? <==>
      || reply.Threw?
      || PartsOf(reply.value).None?
      || forall k :: 0 <= k < |PartsOf(reply.value).value| ==> !CarriesData(PartsOf(reply.value).value[k])
    ensures CoverImageOf(reply).Some? ==>
      && reply.Returned? && PartsOf(reply.value).Some?
      && CoverImageOf(reply).value != ""
      && exists j :: IsFirstWithData(PartsOf(reply.value).value, j)
                     && DataOf(PartsOf(reply.value).value[j]) == CoverImageOf(reply).value
  {
    if reply.Returned? && PartsOf(reply.value).Some? {
      FirstDataIsFirst(PartsOf(reply.value).value);
    }
  }
}
