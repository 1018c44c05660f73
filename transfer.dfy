/**
 * The formats through which a project leaves and re-enters the
 * application: the `#project=` fragment of a shared edit link, and the
 * downloaded page that carries the project as JSON in a data element.
 */
module Transfer {
  import opened Wrappers
  import opened Text
  import Utf8
  import Base64
  import UriCoding
  import Json
  import ShareModal

  /**
   * What `if (projectData.htmlContent && projectData.history)` finds in a
   * parsed value that is not null: both fields truthy and of the state's
   * types (`Fields`), one of them falsy or missing (`Falsy`), or both truthy
   * with a value of another type (`Untyped`).
   */
  datatype ProjectData = Fields(html: string, history: seq<string>) | Falsy | Untyped

  predicate AllStr(vs: seq<Json.Value>)
  {
    forall i :: 0 <= i < |vs| ==> vs[i].Str?
  }

  function StrValues(vs: seq<Json.Value>): (r: seq<string>)
    requires AllStr(vs)
    ensures Json.Strs(r) == vs
  {
    var r := seq(|vs|, i requires 0 <= i < |vs| => vs[i].s);
    assert Json.Strs(r) == vs;
    r
  }

  /** The two field reads and the truthiness test; `None` where reading a field of null throws. */
  function ReadProject(v: Json.Value): (r: Option<ProjectData>)
    ensures r.None? <==> v.Null?
    ensures r == Some(Falsy) <==> !v.Null? && !(Json.Truthy(Json.Get(v, "htmlContent")) && Json.Truthy(Json.Get(v, "history")))
    ensures r.Some? && r.value.Fields? ==>
              r.value.html != []
              && Json.Get(v, "htmlContent") == Some(Json.Str(r.value.html))
              && Json.Get(v, "history") == Some(Json.Array(Json.Strs(r.value.history)))
    ensures var h, hs := Json.Get(v, "htmlContent"), Json.Get(v, "history");
            !v.Null? && Json.Truthy(h) && Json.Truthy(hs)
            && h.value.Str? && hs.value.Array? && AllStr(hs.value.items)
            ==> r == Some(Fields(h.value.s, StrValues(hs.value.items)))
    ensures var h, hs := Json.Get(v, "htmlContent"), Json.Get(v, "history");
            r == Some(Untyped) <==>
              !v.Null? && Json.Truthy(h) && Json.Truthy(hs)
              && !(h.value.Str? && hs.value.Array? && AllStr(hs.value.items))
  {
    if v.Null? then None
    else
      var h, hs := Json.Get(v, "htmlContent"), Json.Get(v, "history");
      if !(Json.Truthy(h) && Json.Truthy(hs)) then Some(Falsy)
      else if h.value.Str? && hs.value.Array? && AllStr(hs.value.items) then Some(Fields(h.value.s, StrValues(hs.value.items)))
      else Some(Untyped)
  }

  /** A project object is read back as its fields exactly when its document is not empty; an empty history is accepted. */
  lemma ReadProjectValue(html: string, history: seq<string>)
    ensures ReadProject(Json.ProjectValue(html, history)) == Some(if html != [] then Fields(html, history) else Falsy)
  {
    var v := Json.ProjectValue(html, history);
    var ms := v.members;
    assert |ms| == 2 && ms[1].0 == "history" && "history" != "htmlContent";
    assert ms[..1] == [("htmlContent", Json.Str(html))];
    assert Json.LastMember(ms, "htmlContent") == Json.LastMember(ms[..1], "htmlContent");
    assert Json.Get(v, "htmlContent") == Some(Json.Str(html));
    assert Json.Get(v, "history") == Some(Json.Array(Json.Strs(history)));
    if html != [] {
      assert StrValues(Json.Strs(history)) == history;
    }
  }

  // ---------------------------------------------------------------------
  // the shared edit link

  /** `decodeURIComponent(escape(atob(encoded)))`; `None` where a step throws. */
  function DecodeState(encoded: string): Option<string>
  {
    match Base64.Atob(encoded)
    case None => None
    case Some(binary) => UriCoding.DecodeUriComponent(UriCoding.Escape(binary))
  }

  /** Decoding undoes the share dialog's encoding on every string. */
  lemma DecodeEncodedState(json: string)
    ensures ShareModal.EncodeState(json).Some?
    ensures DecodeState(ShareModal.EncodeState(json).value) == Some(json)
  {
    Base64.AtobEncode(Utf8.Encode(json));
    UriCoding.DecodeEscapeBinary(json);
  }

  /** What loading from a location hash finds: no project marker, a project that fails to decode, or a decoded project. */
  datatype UrlLoad = NoProject | Corrupt | Loaded(data: ProjectData)

  function LoadFragment(hash: string): (r: UrlLoad)
    ensures r.NoProject? <==> !StartsWith(hash, ShareModal.ProjectMarker)
    ensures StartsWith(hash, ShareModal.ProjectMarker) ==>
              var decoded := DecodeState(hash[|ShareModal.ProjectMarker|..]);
              (r.Corrupt? <==> decoded.None? || Json.Parse(decoded.value).None? || ReadProject(Json.Parse(decoded.value).value).None?)
    ensures r.Loaded? ==>
              var decoded := DecodeState(hash[|ShareModal.ProjectMarker|..]);
              decoded.Some? && Json.Parse(decoded.value).Some? && ReadProject(Json.Parse(decoded.value).value) == Some(r.data)
  {
    if !StartsWith(hash, ShareModal.ProjectMarker) then NoProject
    else match DecodeState(hash[|ShareModal.ProjectMarker|..])
      case None => Corrupt
      case Some(json) =>
        match Json.Parse(json)
        case None => Corrupt
        case Some(v) =>
          match ReadProject(v)
          case None => Corrupt
          case Some(data) => Loaded(data)
  }

  /** `location.hash` of a URL: from its first '#' on, or empty when there is none or nothing follows it. */
  function HashOf(url: string): (r: string)
    ensures r == [] || (r[0] == '#' && |r| >= 2)
  {
    if url == [] then []
    else if url[0] == '#' then (if |url| == 1 then [] else url)
    else HashOf(url[1..])
  }

  lemma {:induction false} HashAfter(prefix: string, rest: string)
    requires forall i :: 0 <= i < |prefix| ==> prefix[i] != '#'
    requires |rest| >= 2 && rest[0] == '#'
    ensures HashOf(prefix + rest) == rest
  {
    if prefix == [] {
      assert prefix + rest == rest;
    } else {
      assert (prefix + rest)[1..] == prefix[1..] + rest;
      HashAfter(prefix[1..], rest);
    }
  }

  lemma LoadFromParts(e: string, json: string, v: Json.Value)
    requires DecodeState(e) == Some(json) && Json.Parse(json) == Some(v)
    ensures LoadFragment(ShareModal.ProjectMarker + e) == if ReadProject(v).None? then Corrupt else Loaded(ReadProject(v).value)
  {
    var hash := ShareModal.ProjectMarker + e;
    assert hash[|ShareModal.ProjectMarker|..] == e;
  }

  /** The fragment the share dialog writes loads back as the project it was made from. */
  lemma LoadEncodedState(html: string, history: seq<string>)
    ensures ShareModal.EncodeState(ShareModal.StateJson(html, history)).Some?
    ensures LoadFragment(ShareModal.ProjectMarker + ShareModal.EncodeState(ShareModal.StateJson(html, history)).value)
            == Loaded(if html != [] then Fields(html, history) else Falsy)
  {
    var json := ShareModal.StateJson(html, history);
    var e := ShareModal.EncodeState(json).value;
    DecodeEncodedState(json);
    ShareModal.StateJsonParses(html, history);
    ReadProjectValue(html, history);
    LoadFromParts(e, json, Json.ProjectValue(html, history));
  }

  /**
   * Opening an edit link loads the project it was copied from, when the
   * page's origin and path hold no '#' (a URL's origin and path never do).
   * A project with an empty document is found falsy and not installed.
   */
  lemma EditLinkLoads(origin: string, pathname: string, html: string, history: seq<string>)
    requires forall i :: 0 <= i < |origin + pathname| ==> (origin + pathname)[i] != '#'
    ensures LoadFragment(HashOf(ShareModal.EditLink(origin, pathname, html, history)))
            == Loaded(if html != [] then Fields(html, history) else Falsy)
  {
    var url := ShareModal.EditLink(origin, pathname, html, history);
    var json := ShareModal.StateJson(html, history);
    var e := ShareModal.EncodeState(json).value;
    assert e == Base64.Encode(Utf8.Encode(json));
    SplitAfter(url, origin + pathname, ShareModal.ProjectMarker, e);
    HashAfter(origin + pathname, ShareModal.ProjectMarker + e);
    LoadEncodedState(html, history);
  }

  lemma SplitAfter(url: string, base: string, marker: string, e: string)
    requires StartsWith(url, base + marker) && url[|base + marker|..] == e
    ensures url == base + (marker + e)
  {
    assert url == url[..|base + marker|] + url[|base + marker|..];
  }

  // ---------------------------------------------------------------------
  // the downloaded page

  /** What the page holds after the document: a comment and the opening tag of the data element. */
  const DataOpen := "\n<!-- Project data for AI Website Builder -->\n<script id=\"ai-website-builder-data\" type=\"application/json\">"

  const DataClose := "</script>"

  /** The text written inside the data element: the indented project JSON on a line of its own. */
  function DataText(html: string, history: seq<string>): string
  {
    "\n" + Json.ProjectText(html, history, Json.Indented) + "\n"
  }

  lemma DataTextParses(html: string, history: seq<string>)
    ensures Json.Parse(DataText(html, history)) == Some(Json.ProjectValue(html, history))
  {
    Json.ParseIndented(html, history);
  }

  /** The downloaded page: nothing when the document is empty, else the document followed by the data element. */
  function ProjectFile(html: string, history: seq<string>): (r: Option<string>)
    ensures r.None? <==> html == []
    ensures r.Some? ==> StartsWith(r.value, html)
    ensures r.Some? ==> r.value[|html|..] == DataOpen + DataText(html, history) + DataClose
  {
    if html == [] then None
    else
      var tail := DataOpen + DataText(html, history) + DataClose;
      assert (html + tail)[|html|..] == tail;
      Some(html + tail)
  }

  /**
   * When the document contains "</script", so does the text inside the data
   * element: an HTML parser ends the element there, before the JSON ends.
   */
  lemma DataTextClosesEarly(html: string, history: seq<string>)
    requires Contains(html, "</script")
    ensures Contains(DataText(html, history), "</script")
  {
    Json.ProjectTextKeeps(html, history, Json.Indented, "</script");
    ContainsRight("\n", Json.ProjectText(html, history, Json.Indented), "</script");
    ContainsLeft("\n" + Json.ProjectText(html, history, Json.Indented), "\n", "</script");
  }

  // ---------------------------------------------------------------------
  // importing a page

  /**
   * The project an import installs, given the text content of the page's
   * data element (`None` when there is no such element): present when the
   * content is not empty, parses, and reads as the two fields.
   */
  function ImportedProject(dataText: Option<string>): (r: Option<(string, seq<string>)>)
    ensures r.Some? <==>
              dataText.Some? && dataText.value != [] && Json.Parse(dataText.value).Some?
              && ReadProject(Json.Parse(dataText.value).value).Some?
              && ReadProject(Json.Parse(dataText.value).value).value.Fields?
    ensures r.Some? ==> r.value.0 != []
    ensures r.Some? ==> ReadProject(Json.Parse(dataText.value).value) == Some(Fields(r.value.0, r.value.1))
  {
    match dataText
    case None => None
    case Some(content) =>
      if content == [] then None
      else match Json.Parse(content)
        case None => None
        case Some(v) =>
          match ReadProject(v)
          case Some(Fields(html, history)) => Some((html, history))
          case _ => None
  }

  /**
   * The document and history an import of `text` ends with: the project
   * from the data element, or else the whole page as the document and as
   * the only version.
   */
  function ImportDecision(text: string, dataText: Option<string>): (r: (string, seq<string>))
    ensures ImportedProject(dataText).None? ==> r == (text, [text])
    ensures ImportedProject(dataText).Some? ==> r == ImportedProject(dataText).value
  {
    match ImportedProject(dataText)
    case None => (text, [text])
    case Some(project) => project
  }

  /**
   * Importing a downloaded page gives back the project it was made from,
   * provided the page's data element reads back with the text written into it.
   */
  lemma DownloadImportRoundTrip(html: string, history: seq<string>, dataText: Option<string>)
    requires html != []
    requires dataText == Some(DataText(html, history))
    ensures ProjectFile(html, history).Some?
    ensures ImportDecision(ProjectFile(html, history).value, dataText) == (html, history)
  {
    DataTextParses(html, history);
    ReadProjectValue(html, history);
    ImportFromParts(ProjectFile(html, history).value, DataText(html, history), Json.ProjectValue(html, history), html, history);
  }

  lemma ImportFromParts(text: string, content: string, v: Json.Value, html: string, history: seq<string>)
    requires content != [] && Json.Parse(content) == Some(v) && ReadProject(v) == Some(Fields(html, history))
    ensures ImportDecision(text, Some(content)) == (html, history)
  {
  }
}
