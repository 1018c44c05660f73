/**
 * The two links of the share dialog: a view-only link that carries the
 * document in a `data:` URI, and an edit link that carries the whole
 * project state, as JSON, base 64 and UTF-8 encoded, in a `#project=`
 * fragment of the application's own address.
 */
module ShareModal {
  import opened Wrappers
  import opened Bytes
  import opened Text
  import Utf8
  import Base64
  import UriCoding
  import Json

  datatype LinkType = View | Edit

  const ViewPrefix := "data:text/html;charset=utf-8,"
  const ProjectMarker := "#project="

  /**
   * The view-only link. It is built from the document alone, so the
   * history never travels with it; percent-decoding what follows the
   * prefix gives the document back.
   */
  function ViewLink(html: string): (url: string)
    ensures StartsWith(url, ViewPrefix)
    ensures UriCoding.IsComponentEncoded(url[|ViewPrefix|..])
    ensures UriCoding.DecodeUriComponent(url[|ViewPrefix|..]) == Some(html)
  {
    var data := UriCoding.EncodeUriComponent(html);
    UriCoding.EncodeUriComponentAlphabet(html);
    UriCoding.DecodeEncodeUriComponent(html);
    assert (ViewPrefix + data)[|ViewPrefix|..] == data;
    ViewPrefix + data
  }

  /** `JSON.stringify({ htmlContent, history })`. */
  function StateJson(html: string, history: seq<string>): string
  {
    Json.ProjectText(html, history, Json.Compact)
  }

  /** The state text is a JSON object with the two fields, in that order, the history kept whole. */
  lemma StateJsonParses(html: string, history: seq<string>)
    ensures Json.Parse(StateJson(html, history)) == Some(Json.ProjectValue(html, history))
  {
    Json.ParseCompact(html, history);
  }

  /**
   * `btoa(unescape(encodeURIComponent(json)))`, `None` where a step would
   * throw. No step throws on a string of scalar values, and the chain is
   * the base 64 encoding of the string's UTF-8 octets.
   */
  function EncodeState(json: string): (r: Option<string>)
    ensures r == Some(Base64.Encode(Utf8.Encode(json)))
  {
    UriCoding.UnescapeEncodeUriComponent(json);
    BinaryStringRoundTrip(Utf8.Encode(json));
    match UriCoding.Unescape(UriCoding.EncodeUriComponent(json))
    case None => None
    case Some(binary) => Base64.Btoa(binary)
  }

  /** The encoded state is made of base 64 digits with '=' padding only at its end, four characters per three octets. */
  lemma EncodedStateShape(json: string)
    ensures EncodeState(json).Some?
    ensures var e := EncodeState(json).value;
            |e| == 4 * ((|Utf8.Encode(json)| + 2) / 3)
            && forall i :: 0 <= i < |e| ==> Base64.IsDigit(e[i]) || (e[i] == '=' && i >= |e| - 2)
  {
    var b := Utf8.Encode(json);
    var e := Base64.Encode(b);
    Base64.EncodeShape(b);
    assert EncodeState(json) == Some(e);
  }

  /**
   * The edit link: the page's origin and path, the project marker, and
   * the encoded state, which is the base 64 text of the UTF-8 octets of
   * the state JSON.
   */
  function EditLink(origin: string, pathname: string, html: string, history: seq<string>): (url: string)
    ensures StartsWith(url, origin + pathname + ProjectMarker)
    ensures url[|origin + pathname + ProjectMarker|..] == Base64.Encode(Utf8.Encode(StateJson(html, history)))
  {
    var base := origin + pathname + ProjectMarker;
    var encoded := EncodeState(StateJson(html, history)).value;
    assert (base + encoded)[|base|..] == encoded;
    base + encoded
  }

  /** What a click on one of the copy buttons leaves behind: the clipboard text and the link marked as copied. */
  datatype Copied = Copied(url: string, copiedLink: LinkType)

  function HandleCopy(kind: LinkType, origin: string, pathname: string, html: string, history: seq<string>): (c: Copied)
    ensures c.copiedLink == kind
    ensures kind == View ==> c.url == ViewLink(html)
    ensures kind == Edit ==> c.url == EditLink(origin, pathname, html, history)
  {
    match kind
    case View => Copied(ViewLink(html), View)
    case Edit => Copied(EditLink(origin, pathname, html, history), Edit)
  }

  /** Two view links differ whenever their documents differ. */
  lemma ViewLinkInjective(a: string, b: string)
    requires ViewLink(a) == ViewLink(b)
    ensures a == b
  {
    assert Some(a) == UriCoding.DecodeUriComponent(ViewLink(a)[|ViewPrefix|..]);
  }
}
