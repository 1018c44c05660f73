/**
 * The part of services/geminiService.ts that does not talk to the network:
 * the normaliser applied to the model's reply, the prompt texts, and the
 * list of request parts. The reply itself is a parameter: the model of the
 * remote call is "some outcome", nothing more.
 */
module GeminiService {
  import opened Wrappers
  import opened Text

  const Fence := "```html"
  const Doctype := "<!DOCTYPE html>"

  /** The page the normaliser wraps a reply in when it has no doctype: the head, then the reply as the body. */
  const PageHead := "\n<html lang=\"en\">\n<head>\n    <meta charset=\"UTF-8\">\n"
    + "    <meta name=\"viewport\" content=\"width=device-width, initial-scale=1.0\">\n"
    + "    <script src=\"https://cdn.tailwindcss.com\"></script>\n"
    + "    <title>Generated Website</title>\n</head>\n"
  const PageEnd := "\n</html>"

  function WrapPage(body: string): (r: string)
    ensures StartsWith(r, Doctype)
    ensures r != [] && r[0] == '<' && r[|r| - 1] == '>'
  {
    var r := Doctype + (PageHead + ("<body>" + body + "</body>") + PageEnd);
    Pieces(Doctype, PageHead + ("<body>" + body + "</body>"), PageEnd);
    assert Doctype[0] == '<' && PageEnd[|PageEnd| - 1] == '>';
    r
  }

  /** Where the pieces of a concatenation sit. */
  lemma Pieces(a: string, b: string, c: string)
    ensures (a + b + c)[..|a|] == a && (a + b + c)[|a|..|a| + |b|] == b && (a + b + c)[|a| + |b|..] == c
    ensures a + (b + c) == a + b + c
  {
  }

  /** `cleanHtmlResponse`: trim, then unwrap a Markdown fence, keep a page with a doctype, or wrap anything else. */
  function CleanHtmlResponse(text: string): (r: string)
    ensures !StartsWith(Trim(text), Fence) ==> StartsWith(r, Doctype)
  {
    var cleaned := Trim(text);
    if StartsWith(cleaned, Fence) then Trim(JsSubstring(cleaned, 7, |cleaned| - 3))
    else if StartsWith(cleaned, Doctype) then cleaned
    else WrapPage(cleaned)
  }

  /** A reply fenced as ```html ... ``` gives what is between the fences, trimmed. */
  lemma CleanFenced(text: string, inner: string)
    requires Trim(text) == Fence + inner + "```"
    ensures CleanHtmlResponse(text) == Trim(inner)
  {
    var t := Trim(text);
    assert StartsWith(t, Fence) by { assert t[..|Fence|] == Fence; }
    assert JsSubstring(t, 7, |t| - 3) == t[7..|t| - 3] == inner;
  }

  /**
   * A fenced reply shorter than ten characters: `substring` swaps its
   * bounds, so the result is a piece of the fence itself.
   */
  lemma CleanShortFence(text: string)
    requires StartsWith(Trim(text), Fence) && |Trim(text)| < 10
    ensures CleanHtmlResponse(text) == Trim(Trim(text)[|Trim(text)| - 3..7])
  {
    var t := Trim(text);
    assert |t| >= 7;
    assert JsSubstring(t, 7, |t| - 3) == t[|t| - 3..7];
  }

  /**
   * A fenced reply of ten characters or more loses its first seven and its
   * last three characters, whether or not it ends with a closing fence: a
   * reply that stops at "</html>" comes out ending in "</ht".
   */
  lemma CleanLongFence(text: string)
    requires StartsWith(Trim(text), Fence) && |Trim(text)| >= 10
    ensures CleanHtmlResponse(text) == Trim(Trim(text)[7..|Trim(text)| - 3])
  {
    var t := Trim(text);
    JsSubstringWithin(t, 7, |t| - 3);
  }

  /** The bare fence "```html" comes out as "tml". */
  lemma CleanBareFence()
    ensures CleanHtmlResponse(Fence) == "tml"
  {
    TrimUnchanged(Fence);
    assert StartsWith(Fence, Fence);
    assert JsSubstring(Fence, 7, 4) == "tml";
    TrimUnchanged("tml");
  }

  lemma FirstCharacters(t: string)
    ensures StartsWith(t, Fence) ==> t[0] == '`'
    ensures StartsWith(t, Doctype) ==> t[0] == '<'
  {
    if StartsWith(t, Fence) {
      assert t[0] == t[..|Fence|][0];
    }
    if StartsWith(t, Doctype) {
      assert t[0] == t[..|Doctype|][0];
    }
  }

  /** The two tests never both hold, so the fence test coming first decides nothing else. */
  lemma FenceOrDoctype(t: string)
    ensures !(StartsWith(t, Fence) && StartsWith(t, Doctype))
  {
    FirstCharacters(t);
  }

  /** A reply that already starts with a doctype is only trimmed. */
  lemma CleanDoctype(text: string)
    requires StartsWith(Trim(text), Doctype)
    ensures CleanHtmlResponse(text) == Trim(text)
  {
    FenceOrDoctype(Trim(text));
  }

  /** Anything else is wrapped: the trimmed reply becomes the body of a page. */
  lemma CleanWraps(text: string)
    requires !StartsWith(Trim(text), Fence) && !StartsWith(Trim(text), Doctype)
    ensures StartsWith(CleanHtmlResponse(text), Doctype)
    ensures Contains(CleanHtmlResponse(text), "<body>" + Trim(text) + "</body>")
  {
    var t := Trim(text);
    assert CleanHtmlResponse(text) == WrapPage(t);
    WrapContains(t);
  }

  lemma WrapContains(body: string)
    ensures Contains(WrapPage(body), "<body>" + body + "</body>")
  {
    var part := "<body>" + body + "</body>";
    assert OccursAt(part, part, 0);
    ContainsRight(PageHead, part, part);
    ContainsLeft(PageHead + part, PageEnd, part);
    ContainsRight(Doctype, PageHead + part + PageEnd, part);
  }

  /** The result never begins or ends with white space. */
  lemma CleanTrimmed(text: string)
    ensures Trim(CleanHtmlResponse(text)) == CleanHtmlResponse(text)
  {
    var t := Trim(text);
    if StartsWith(t, Fence) {
      var inner := JsSubstring(t, 7, |t| - 3);
      assert CleanHtmlResponse(text) == Trim(inner);
      TrimIdempotent(inner);
    } else if StartsWith(t, Doctype) {
      assert CleanHtmlResponse(text) == t;
      TrimIdempotent(text);
    } else {
      assert CleanHtmlResponse(text) == WrapPage(t);
      WrapTrimmed(t);
    }
  }

  lemma WrapTrimmed(body: string)
    ensures Trim(WrapPage(body)) == WrapPage(body)
  {
    TrimUnchanged(WrapPage(body));
  }

  /** Normalising again changes nothing, unless the reply was fenced. */
  lemma CleanStable(text: string)
    requires !StartsWith(Trim(text), Fence)
    ensures CleanHtmlResponse(CleanHtmlResponse(text)) == CleanHtmlResponse(text)
  {
    var r := CleanHtmlResponse(text);
    CleanTrimmed(text);
    FenceOrDoctype(r);
    CleanDoctype(r);
  }

  // ---------------------------------------------------------------------
  // prompts and request parts

  const GenerationLead := "The user has provided the following description: \""
  const GenerationImageNote := "The user has also provided an image. "
    + "You MUST incorporate this image into the website. "
    + "Use the provided inline data URI for the image source."

  function ImageNote(hasImage: bool, note: string): string
  {
    if hasImage then note else ""
  }

  /** `fullPrompt` of `generateWebsite`: the description in quotes, then a note when an image comes with it. */
  function GenerationPrompt(prompt: string, hasImage: bool): (r: string)
    ensures |r| >= |GenerationLead| + |prompt| + 2
    ensures StartsWith(r, GenerationLead)
    ensures r[|GenerationLead|..|GenerationLead| + |prompt|] == prompt
    ensures OccursAt(r, "\"\n", |GenerationLead| + |prompt|)
    ensures hasImage <==> |r| > |GenerationLead| + |prompt| + 2
  {
    var note := ImageNote(hasImage, GenerationImageNote);
    var r := GenerationLead + (prompt + ("\"\n" + note));
    GenerationShape(r, GenerationLead, prompt, "\"\n", note);
    r
  }

  /** Where the pieces of a generation prompt sit. */
  lemma GenerationShape(r: string, lead: string, prompt: string, close: string, note: string)
    requires r == lead + (prompt + (close + note))
    ensures |r| == |lead| + |prompt| + |close| + |note|
    ensures StartsWith(r, lead)
    ensures r[..|lead|] == lead && r[|lead|..|lead| + |prompt|] == prompt
    ensures OccursAt(r, close, |lead| + |prompt|)
  {
    var i := |lead| + |prompt|;
    assert r[..|lead|] == lead;
    assert r[|lead|..] == prompt + (close + note);
    assert r[|lead|..|lead| + |prompt|] == (prompt + (close + note))[..|prompt|];
    assert r[i..] == close + note;
    assert r[i..i + |close|] == (close + note)[..|close|];
  }

  const RefinementLead := "Here is the current HTML code of the website:\n---\n"
  const RefinementMiddle := "\n---\n\nThe user wants you to make the following changes: \""
  const RefinementImageNote := "The user has also provided a new image. "
    + "You should use it as instructed, "
    + "or replace an existing image if it makes sense. "
    + "Use the provided inline data URI for the image source."

  /** `fullPrompt` of `refineWebsite`: the current page verbatim between "---" lines, then the request in quotes. */
  function RefinementPrompt(currentHtml: string, prompt: string, hasImage: bool): (r: string)
    ensures |r| >= |RefinementLead| + |currentHtml| + |RefinementMiddle| + |prompt| + 3
    ensures StartsWith(r, RefinementLead)
    ensures r[|RefinementLead|..|RefinementLead| + |currentHtml|] == currentHtml
    ensures OccursAt(r, RefinementMiddle, |RefinementLead| + |currentHtml|)
    ensures var p := |RefinementLead| + |currentHtml| + |RefinementMiddle|;
            r[p..p + |prompt|] == prompt && OccursAt(r, "\"\n\n", p + |prompt|)
            && (hasImage <==> |r| > p + |prompt| + 3)
  {
    var note := ImageNote(hasImage, RefinementImageNote);
    var r := RefinementLead + (currentHtml + (RefinementMiddle + (prompt + ("\"\n\n" + note))));
    RefinementLayout(r, RefinementLead, currentHtml, RefinementMiddle, prompt, "\"\n\n", note);
    r
  }

  /** Where the pieces of a refinement prompt sit. */
  lemma RefinementLayout(r: string, lead: string, html: string, middle: string, prompt: string, close: string, note: string)
    requires r == lead + (html + (middle + (prompt + (close + note))))
    ensures |r| == |lead| + |html| + |middle| + |prompt| + |close| + |note|
    ensures StartsWith(r, lead)
    ensures r[|lead|..|lead| + |html|] == html
    ensures OccursAt(r, middle, |lead| + |html|)
    ensures var p := |lead| + |html| + |middle|;
            r[p..p + |prompt|] == prompt && OccursAt(r, close, p + |prompt|)
  {
    var tail := prompt + (close + note);
    var p := |lead| + |html| + |middle|;
    RefinementShape(r, lead, html, middle, tail);
    GenerationShape(tail, [], prompt, close, note);
    SuffixSlices(r, p, |prompt|, |close|);
  }

  /** Where the current page and the middle text of a refinement prompt sit. */
  lemma RefinementShape(r: string, lead: string, html: string, middle: string, tail: string)
    requires r == lead + (html + (middle + tail))
    ensures |r| == |lead| + |html| + |middle| + |tail|
    ensures r[..|lead|] == lead && r[|lead|..|lead| + |html|] == html
    ensures OccursAt(r, middle, |lead| + |html|)
    ensures r[|lead| + |html| + |middle|..] == tail
  {
    GenerationShape(r, lead, html, middle, tail);
    var i := |lead| + |html|;
    assert r[i..] == middle + tail;
    assert r[i + |middle|..] == (middle + tail)[|middle|..];
  }

  /** Slices of a suffix are slices of the whole. */
  lemma SuffixSlices(r: string, p: nat, k: nat, m: nat)
    requires p + k + m <= |r|
    ensures r[p..][..k] == r[p..p + k] && r[p..][k..k + m] == r[p + k..p + k + m]
  {
  }

  /** `UploadedImage`: the image's base 64 data and its media type; types.ts is not part of this model. */
  datatype UploadedImage = UploadedImage(base64: string, mimeType: string)

  /** An element of `parts`: `{ text }` or `{ inlineData: { mimeType, data } }`. */
  datatype Part = TextPart(text: string) | InlineData(mimeType: string, data: string)

  /** `parts`: the prompt, then the image when there is one. */
  method BuildParts(fullPrompt: string, image: Option<UploadedImage>) returns (parts: seq<Part>)
    ensures |parts| == if image.Some? then 2 else 1
    ensures parts[0] == TextPart(fullPrompt)
    ensures image.Some? ==> parts[1] == InlineData(image.value.mimeType, image.value.base64)
  {
    parts := [TextPart(fullPrompt)];
    if image.Some? {
      parts := parts + [InlineData(image.value.mimeType, image.value.base64)];
    }
  }

  /** How the remote call ended: it threw, or it answered, with or without text. */
  datatype Outcome = Threw | Answered(text: Option<string>)

  const GenerationFailure := "Failed to generate website from AI. " + "Please check your API key and try again."
  const RefinementFailure := "Failed to refine website from AI. " + "Please check your prompt and try again."

  /**
   * The end of both service functions: an empty or missing text throws
   * inside the `try`, so it and any failure of the call reach the caller as
   * the function's one fixed message; a text is normalised.
   */
  function Finish(outcome: Outcome, failure: string): (r: Result<string, string>)
    ensures r.Failure? <==> (outcome.Threw? || outcome.text == None || outcome.text == Some(""))
    ensures r.Failure? ==> r.error == failure
    ensures r.Success? ==> r.value == CleanHtmlResponse(outcome.text.value)
  {
    match outcome
    case Threw => Failure(failure)
    case Answered(text) => if text == None || text == Some("") then Failure(failure) else Success(CleanHtmlResponse(text.value))
  }

  /** `generateWebsite`: the parts sent, and the page or the error it ends with. */
  method GenerateWebsite(prompt: string, image: Option<UploadedImage>, outcome: Outcome)
    returns (parts: seq<Part>, result: Result<string, string>)
    ensures |parts| == (if image.Some? then 2 else 1) && parts[0] == TextPart(GenerationPrompt(prompt, image.Some?))
    ensures image.Some? ==> parts[1] == InlineData(image.value.mimeType, image.value.base64)
    ensures result == Finish(outcome, GenerationFailure)
  {
    parts := BuildParts(GenerationPrompt(prompt, image.Some?), image);
    result := Finish(outcome, GenerationFailure);
  }

  /** `refineWebsite`. */
  method RefineWebsite(currentHtml: string, prompt: string, image: Option<UploadedImage>, outcome: Outcome)
    returns (parts: seq<Part>, result: Result<string, string>)
    ensures |parts| == (if image.Some? then 2 else 1) && parts[0] == TextPart(RefinementPrompt(currentHtml, prompt, image.Some?))
    ensures image.Some? ==> parts[1] == InlineData(image.value.mimeType, image.value.base64)
    ensures result == Finish(outcome, RefinementFailure)
  {
    parts := BuildParts(RefinementPrompt(currentHtml, prompt, image.Some?), image);
    result := Finish(outcome, RefinementFailure);
  }
}
