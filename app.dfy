/**
 * The application's session: the current document, its version history,
 * the loading flag and the error message, and the handlers that change
 * them. The model runs each handler to completion; awaiting the remote
 * model is replaced by the outcome handed to the handler.
 */
module App {
  import opened Wrappers
  import opened Text
  import History
  import Transfer
  import GeminiService
  import Json
  import ShareModal

  const PageStart := "\n<!DOCTYPE html>\n<html lang=\"en\">\n<head>\n"
  const PageMeta := "    <meta charset=\"UTF-8\">\n    <meta name=\"viewport\" content=\"width=device-width, initial-scale=1.0\">\n    <title>Welcome</title>\n"
  const TailwindOpen := "    <script src=\"https://cdn.tailwindcss.com\">"
  const PageStyle := "\n    <style>\n      body { font-family: 'Inter', sans-serif; }\n    </style>\n"
  const PagePreconnect := "    <link rel=\"preconnect\" href=\"https://fonts.googleapis.com\">\n    <link rel=\"preconnect\" href=\"https://fonts.gstatic.com\" crossorigin>\n"
  const PageFonts := "    <link href=\"https://fonts.googleapis.com/css2?family=Inter:wght@400;500;600;700&display=swap\" rel=\"stylesheet\">\n</head>\n"
  const PageBodyOpen := "<body class=\"bg-slate-50 flex items-center justify-center min-h-screen\">\n    <div class=\"text-center p-8 bg-white rounded-2xl shadow-2xl max-w-lg mx-auto\">\n"
  const PageHeading := "        <h1 class=\"text-5xl font-bold text-slate-800 mb-4\">AI Website Builder</h1>\n"
  const PageIntro := "        <p class=\"text-xl text-slate-600\">Describe your desired website in the control panel to begin creating.</p>\n"
  const PageEnd := "    </div>\n</body>\n</html>\n"

  const InitialHead := PageStart + PageMeta + TailwindOpen

  const InitialTail := PageStyle + PagePreconnect + PageFonts + PageBodyOpen + PageHeading + PageIntro + PageEnd

  /** The page shown before anything has been generated; its Tailwind script element is closed by "</script>". */
  const InitialHtml := InitialHead + ("</script>" + InitialTail)

  const EmptyPromptError := "Please enter a description for your website."
  const EmptyRefinementError := "Please enter a refinement prompt or upload a new image."
  const ReadError := "Could not read the selected file."

  /** What the file input yields: no file chosen, a file the reader fails on, or the text of the file. */
  datatype FileChoice = NoFile | Unreadable | Read(text: string)

  /** The values of the session's fields at one moment. */
  datatype State = State(htmlContent: string, history: seq<string>, isLoading: bool, error: Option<string>, urlCleaned: bool)

  class Session {
    var htmlContent: string
    var history: seq<string>
    var isLoading: bool
    var error: Option<string>
    /** Whether the location has been replaced by one without its fragment. */
    var urlCleaned: bool

    function Snapshot(): State
      reads this
    {
      State(htmlContent, history, isLoading, error, urlCleaned)
    }

    /** The state before the mount effect has run. */
    constructor ()
      ensures Snapshot() == State(InitialHtml, [], false, None, false)
    {
      htmlContent, history, isLoading, error, urlCleaned := InitialHtml, [], false, None, false;
    }

    /**
     * Mounting the application at a location with the given hash: a hash
     * without a project gives the starting page as the only version; one
     * that fails to decode does the same and cleans the location; a decoded
     * project with both fields truthy is installed, and otherwise the
     * history stays empty.
     */
    constructor Open(hash: string)
      ensures var load := Transfer.LoadFragment(hash);
              var installed := load.Loaded? && load.data.Fields?;
              htmlContent == (if installed then load.data.html else InitialHtml)
              && history == (if installed then load.data.history else if load.Loaded? then [] else [InitialHtml])
              && urlCleaned == !load.NoProject?
              && !isLoading && error == None
    {
      htmlContent, history, isLoading, error, urlCleaned := InitialHtml, [], false, None, false;
      new;
      LoadFromUrl(hash);
    }

    /** The mount effect: reads a project from the location hash. */
    method LoadFromUrl(hash: string)
      modifies this
      ensures var load := Transfer.LoadFragment(hash);
              var installed := load.Loaded? && load.data.Fields?;
              Snapshot() == old(Snapshot()).(
                htmlContent := if installed then load.data.html else old(htmlContent),
                history := if installed then load.data.history else if load.Loaded? then old(history) else [InitialHtml],
                urlCleaned := old(urlCleaned) || !load.NoProject?)
    {
      var load := Transfer.LoadFragment(hash);
      match load {
        case NoProject =>
          history := [InitialHtml];
        case Corrupt =>
          history := [InitialHtml];
          urlCleaned := true;
        case Loaded(data) =>
          if data.Fields? {
            htmlContent := data.html;
            history := data.history;
          }
          urlCleaned := true;
      }
    }

    /** Puts a new version in front and keeps the newest twenty. */
    method AddToHistory(doc: string)
      modifies this
      ensures Snapshot() == old(Snapshot()).(history := History.Push(old(history), doc))
      ensures |history| <= History.MaxHistoryLength && history[0] == doc
    {
      history := History.Push(history, doc);
    }

    /**
     * Generating from a description: an empty one only sets the error.
     * Otherwise the request is sent; a reply installs the cleaned page as
     * the document and the newest version, a failure sets the error and
     * keeps the document. The loading flag is down again at the end.
     */
    method Generate(prompt: string, image: Option<GeminiService.UploadedImage>, outcome: GeminiService.Outcome)
      returns (request: Option<seq<GeminiService.Part>>)
      modifies this
      ensures prompt == [] ==> request == None && Snapshot() == old(Snapshot()).(error := Some(EmptyPromptError))
      ensures prompt != [] ==>
                request.Some? && |request.value| == (if image.Some? then 2 else 1)
                && request.value[0] == GeminiService.TextPart(GeminiService.GenerationPrompt(prompt, image.Some?))
                && (image.Some? ==> request.value[1] == GeminiService.InlineData(image.value.mimeType, image.value.base64))
      ensures prompt != [] ==>
                var r := GeminiService.Finish(outcome, GeminiService.GenerationFailure);
                Snapshot() == if r.Success?
                  then old(Snapshot()).(htmlContent := r.value, history := History.Push(old(history), r.value), isLoading := false, error := None)
                  else old(Snapshot()).(isLoading := false, error := Some(r.error))
    {
      if prompt == [] {
        error := Some(EmptyPromptError);
        return None;
      }
      isLoading := true;
      error := None;
      var parts, result := GeminiService.GenerateWebsite(prompt, image, outcome);
      match result {
        case Success(page) =>
          htmlContent := page;
          AddToHistory(page);
        case Failure(message) =>
          error := Some(message);
      }
      isLoading := false;
      request := Some(parts);
    }

    /**
     * Refining the current document: refused only when there is neither a
     * prompt nor an image. The request carries the current document.
     */
    method Refine(prompt: string, image: Option<GeminiService.UploadedImage>, outcome: GeminiService.Outcome)
      returns (request: Option<seq<GeminiService.Part>>)
      modifies this
      ensures prompt == [] && image.None? ==> request == None && Snapshot() == old(Snapshot()).(error := Some(EmptyRefinementError))
      ensures prompt != [] || image.Some? ==>
                request.Some? && |request.value| == (if image.Some? then 2 else 1)
                && request.value[0] == GeminiService.TextPart(GeminiService.RefinementPrompt(old(htmlContent), prompt, image.Some?))
                && (image.Some? ==> request.value[1] == GeminiService.InlineData(image.value.mimeType, image.value.base64))
      ensures prompt != [] || image.Some? ==>
                var r := GeminiService.Finish(outcome, GeminiService.RefinementFailure);
                Snapshot() == if r.Success?
                  then old(Snapshot()).(htmlContent := r.value, history := History.Push(old(history), r.value), isLoading := false, error := None)
                  else old(Snapshot()).(isLoading := false, error := Some(r.error))
    {
      if prompt == [] && image.None? {
        error := Some(EmptyRefinementError);
        return None;
      }
      isLoading := true;
      error := None;
      var parts, result := GeminiService.RefineWebsite(htmlContent, prompt, image, outcome);
      match result {
        case Success(page) =>
          htmlContent := page;
          AddToHistory(page);
        case Failure(message) =>
          error := Some(message);
      }
      isLoading := false;
      request := Some(parts);
    }

    /** The page offered for download, nothing when the document is empty; the session is left as it is. */
    method Download() returns (file: Option<string>)
      ensures file == Transfer.ProjectFile(htmlContent, history)
      ensures file.None? <==> htmlContent == []
    {
      if htmlContent == [] {
        return None;
      }
      file := Transfer.ProjectFile(htmlContent, history);
    }

    /**
     * Importing a file. `dataText` stands for the browser's HTML parser: the
     * text content of the element with id "ai-website-builder-data" in a
     * page, `None` when there is no such element.
     */
    method Import(choice: FileChoice, dataText: string -> Option<string>)
      modifies this
      ensures choice.NoFile? ==> Snapshot() == old(Snapshot())
      ensures choice.Unreadable? ==> Snapshot() == old(Snapshot()).(error := Some(ReadError))
      ensures choice.Read? ==>
                var d := Transfer.ImportDecision(choice.text, dataText(choice.text));
                Snapshot() == old(Snapshot()).(htmlContent := d.0, history := d.1)
    {
      match choice {
        case NoFile =>
        case Unreadable =>
          error := Some(ReadError);
        case Read(text) =>
          var d := Transfer.ImportDecision(text, dataText(text));
          htmlContent, history := d.0, d.1;
      }
    }

    /** Makes a stored version the document again; the history is not changed. */
    method RestoreHistory(index: int)
      requires 0 <= index < |history|
      modifies this
      ensures Snapshot() == old(Snapshot()).(htmlContent := old(history)[index])
    {
      htmlContent := history[index];
    }

    /** Drops the version at `index`, if there is one; the document is not changed. */
    method DeleteHistoryItem(index: int)
      modifies this
      ensures Snapshot() == old(Snapshot()).(history := History.Without(old(history), index))
      ensures 0 <= index < |old(history)| ==> history == old(history)[..index] + old(history)[index + 1..]
      ensures !(0 <= index < |old(history)|) ==> history == old(history)
    {
      History.WithoutRemovesOne(history, index);
      history := History.Without(history, index);
    }

    /** Keeps only the oldest version and makes it the document; an empty history changes nothing. */
    method ClearHistory()
      modifies this
      ensures old(history) == [] ==> Snapshot() == old(Snapshot())
      ensures old(history) != [] ==>
                Snapshot() == old(Snapshot()).(htmlContent := old(history)[|old(history)| - 1], history := [old(history)[|old(history)| - 1]])
    {
      var oldest := History.KeepOldest(history);
      if history != [] {
        htmlContent := history[|history| - 1];
      }
      history := oldest;
    }

    /** An edit in the code editor replaces the document and leaves the history alone. */
    method EditDocument(doc: string)
      modifies this
      ensures Snapshot() == old(Snapshot()).(htmlContent := doc)
    {
      htmlContent := doc;
    }

    /**
     * Downloading and importing the result again restores the session's
     * document and history, provided the parser returns the data element's
     * text as it was written.
     */
    method DownloadThenImport(dataText: string -> Option<string>) returns (file: string)
      requires htmlContent != []
      requires dataText(Transfer.ProjectFile(htmlContent, history).value) == Some(Transfer.DataText(htmlContent, history))
      modifies this
      ensures Snapshot() == old(Snapshot())
    {
      var downloaded := Download();
      file := downloaded.value;
      Transfer.DownloadImportRoundTrip(htmlContent, history, dataText(file));
      Import(Read(file), dataText);
    }
  }

  /**
   * Opening the edit link copied from a session recreates its document and
   * history. A session whose document is empty shares a project that is
   * found falsy, so the opened session keeps the starting page and an empty
   * history.
   */
  method OpenEditLink(s: Session, origin: string, pathname: string) returns (t: Session)
    requires forall i :: 0 <= i < |origin + pathname| ==> (origin + pathname)[i] != '#'
    ensures fresh(t)
    ensures s.htmlContent != [] ==> t.htmlContent == s.htmlContent && t.history == s.history
    ensures s.htmlContent == [] ==> t.htmlContent == InitialHtml && t.history == []
    ensures t.urlCleaned && !t.isLoading && t.error == None
  {
    var link := ShareModal.HandleCopy(ShareModal.Edit, origin, pathname, s.htmlContent, s.history);
    Transfer.EditLinkLoads(origin, pathname, s.htmlContent, s.history);
    t := new Session.Open(Transfer.HashOf(link.url));
  }

  /** The starting page closes its script element, so the text "</script" is in it. */
  lemma InitialHtmlClosesScript()
    ensures Contains(InitialHtml, "</script")
  {
    var pattern := "</script";
    assert OccursAt(InitialHtml, pattern, |InitialHead|) by {
      assert InitialHtml[|InitialHead|..|InitialHead| + |pattern|] == ("</script>" + InitialTail)[..|pattern|];
    }
  }

  /**
   * The page downloaded while the starting page is the document holds
   * "</script" inside its data element, whatever the history.
   */
  lemma InitialDownloadClosesEarly(history: seq<string>)
    ensures Contains(Transfer.DataText(InitialHtml, history), "</script")
  {
    InitialHtmlClosesScript();
    Transfer.DataTextClosesEarly(InitialHtml, history);
  }
}
