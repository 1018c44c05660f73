# AI Website Builder: project state and transfer, in Dafny

This project models the logic of the AI Website Builder that has stated behaviour.
It covers four parts:

- **The session** (`App.Session`). This is the current document and a newest-first history of versions, at most twenty after a push (a history installed by a load or an import keeps its length). The session has a loading flag, an error message, and a flag saying whether the address has been cleaned. Its handlers are mount-time loading from the `#project=` fragment, generate, refine, download, import, restore, delete, clear, and editing in the code editor.
- **The share dialog's links** (`ShareModal`).
  - The view link is percent-encoding of the document in a `data:` URI.
  - The edit link carries `JSON.stringify({htmlContent, history})` as `btoa(unescape(encodeURIComponent(json)))`. That is base 64 (section 4 of RFC 4648) of the UTF-8 octets (section 3 of RFC 3629) of the JSON text.
- **The AI service's normaliser and request assembly** (`GeminiService`).
  - `cleanHtmlResponse` strips an `html` code fence, or keeps a page that starts with a doctype, or else wraps the reply in a fixed page.
  - The two prompts and `parts` lists are what is sent to the model.
  - The model's answer is a parameter (`Outcome`).
- **The history panel's presentation rules** (`HistoryPanel`). These are the version labels, which entries offer a delete control, and when "Clear All" is enabled.

The model needs some of the browser's built-ins, so it defines them:

- UTF-8 (`Utf8`);
- base 64 with the forgiving `atob` of the WHATWG HTML Living Standard (`Base64`);
- `encodeURIComponent`, `decodeURIComponent`, `escape` and `unescape` (`UriCoding`);
- `trim` and `substring` (`Text`);
- binary strings (`Bytes`);
- a `JSON.stringify`/`JSON.parse` restricted to what the application uses (`Json`). This means a serializer for exactly `{htmlContent: string, history: string[]}`, in compact and two-space-indented layout with string escaping per section 7 of RFC 8259, and a parser for RFC 8259 except for `\u` escapes of lone surrogates (see "## Left out").

Strings are sequences of Unicode scalar values.

The centre of the proofs is the edit-link round trip, `Transfer.EditLinkLoads`. For every document and history, the fragment of the copied link decodes with `decodeURIComponent(escape(atob(..)))` and parses back to the same project. Emoji and any other characters are included. A project whose document is empty is found falsy, as the source's truthiness test does. `App.OpenEditLink` lifts this to sessions: opening the edit link copied from a session whose document is not empty gives a fresh session with the same document and history. The share button has no guard, so a session whose document was emptied in the editor can be shared too; its project is then found falsy, and the opened session keeps the starting page and an empty history.

The download→import round trip is stated only under a condition. The page's data element must read back as the text written into it (`Transfer.DownloadImportRoundTrip`, `App.Session.DownloadThenImport`). The model proves a fact that bears on this condition, without modelling the HTML parser. The JSON keeps `</script` inside strings, and the starting page contains `</script` (App.tsx:22). So the text written into the data element of every download of that page holds `</script` (`App.InitialDownloadClosesEarly`, `Transfer.DataTextClosesEarly`). An HTML parser, which the model leaves out, ends a script element at `</script` (in any letter case) followed by white space, `/` or `>`, as the starting page's `</script>` is. For that page the condition then does not hold, and the import would fall back to loading the file as plain HTML. The model says nothing about a `</SCRIPT>` written in other letter cases, or about a `</script` followed by another letter, which does not end the element.

## Model

| member | source | states |
|---|---|---|
| History.Push | App.tsx:80-82 | the new history has length min(old length + 1, 20), the new document first, and after it the longest prefix of the old history that fits, so the oldest versions are evicted first |
| History.PushAllKeepsNewest | App.tsx:80-82 | a run of pushes leaves the newest twenty of all versions, newest first |
| History.WithoutRemovesOne | App.tsx:190-192 | deleting an index in range removes exactly that position and keeps the others in order; an index out of range changes nothing |
| HistoryPanel.ClearedHistoryLocked | components/HistoryPanel.tsx:21-49 | after clearing, the panel shows "Clear All" disabled and offers no delete control |
| App.Session.constructor | App.tsx:42-45 | before mounting: the starting page, an empty history, not loading, no error, address not cleaned |
| App.Session.Open | App.tsx:49-78 | mounting at a hash: no marker or a fragment that fails to decode or parse gives the starting page as document and only version; a decoded project with both fields truthy installs both; one with a falsy field leaves the history empty; the address is cleaned exactly when the marker is present |
| App.Session.LoadFromUrl | App.tsx:52-74 | the mount effect's new state in terms of the old: install, keep, or reset the history to the starting page; clean the address when the marker is present |
| App.Session.AddToHistory | App.tsx:80-82 | only the history changes, to the pushed history, which is at most twenty long and starts with the new document |
| App.Session.Generate | App.tsx:84-101 | an empty description only sets its error and sends nothing; otherwise the request is the generation parts, a reply installs the cleaned page as the document and newest version, a failure sets the service's error and keeps document and history, and loading is off at the end |
| App.Session.Refine | App.tsx:103-120 | refused, with its error only, when there is neither a prompt nor an image; otherwise the request carries the current document and the outcome is committed as for generating |
| App.Session.Download | App.tsx:122-130 | the file is the project page of the current state, nothing when the document is empty, and the session is not changed |
| App.Session.Import | App.tsx:142-183 | no file changes nothing; a read error sets the error only; a read file sets document and history to the import decision and nothing else |
| App.Session.RestoreHistory | App.tsx:186-188 | the document becomes the stored version; the history and everything else are unchanged |
| App.Session.DeleteHistoryItem | App.tsx:190-192 | the history loses exactly position `index` (no change when out of range) and the document is never touched; there is no guard for the oldest version |
| App.Session.ClearHistory | App.tsx:194-199 | an empty history changes nothing; otherwise the oldest version becomes the document and the only version |
| App.Session.EditDocument | App.tsx:237 | an edit replaces the document and pushes nothing onto the history |
| App.Session.DownloadThenImport | App.tsx:122-173 | downloading and importing the file leaves the whole state unchanged when the data element reads back as written |
| App.OpenEditLink | components/ShareModal.tsx:18-22 | a session opened from the edit link of another has its document and history when that document is not empty, and otherwise the starting page and an empty history; either way the address is cleaned, there is no error and it is not loading |
| App.InitialHtmlClosesScript | App.tsx:22 | the starting page contains "</script" |
| App.InitialDownloadClosesEarly | App.tsx:126-130 | the data element of a download of the starting page contains "</script", whatever the history |
| ShareModal.ViewLink | components/ShareModal.tsx:16 | the view link is the `data:` prefix followed by percent-encoded text that uses only the unreserved characters and `%XX` triplets, and decodes to the document exactly |
| ShareModal.ViewLinkInjective | components/ShareModal.tsx:16 | different documents give different view links |
| ShareModal.StateJsonParses | components/ShareModal.tsx:18-19 | the state text parses as an object with `htmlContent` then `history`, the history whole and in order |
| ShareModal.EncodeState | components/ShareModal.tsx:21 | the chain never throws and is the base 64 text of the JSON's UTF-8 octets |
| ShareModal.EncodedStateShape | components/ShareModal.tsx:21 | the encoded state has length 4·⌈n/3⌉ for n UTF-8 octets, only base 64 digits, and `=` only in its last two places |
| ShareModal.EditLink | components/ShareModal.tsx:22 | the edit link starts with origin, path and `#project=`, and what follows is exactly the encoded state |
| ShareModal.HandleCopy | components/ShareModal.tsx:13-25 | a copy records the link type that was copied and puts the view or edit link on the clipboard according to it |
| Transfer.ReadProject | App.tsx:59 | reading the fields of null throws; otherwise the project is falsy exactly when a field is missing or falsy; two truthy fields that are a string and an array of strings are the project's fields, read exactly; two truthy fields of other types are `Untyped`, and only then |
| Transfer.ReadProjectValue | App.tsx:59 | the shared or downloaded object reads back as its own fields exactly when its document is not empty, an empty history included |
| Transfer.DecodeEncodedState | App.tsx:56 | the decode chain inverts the share dialog's encoding on every string |
| Transfer.LoadFragment | App.tsx:54-74 | a hash without the marker is no project; with the marker, the load is corrupt exactly when the fragment fails to decode, its text fails to parse, or it parses to null; otherwise the loaded data is the project read from the parsed value |
| Transfer.HashOf | App.tsx:53 | the location's hash is empty or a '#' followed by at least one character |
| Transfer.HashAfter | App.tsx:53 | the hash of a URL whose origin and path hold no '#' is the fragment the link was built with |
| Transfer.LoadEncodedState | App.tsx:54-62 | the fragment written by the share dialog loads as the project it was made from, or as falsy when its document is empty |
| Transfer.EditLinkLoads | App.tsx:54-62 | loading the hash of an edit link gives back the project it was copied from |
| Transfer.DataTextParses | App.tsx:129 | the indented JSON on its own line parses to the project object |
| Transfer.ProjectFile | App.tsx:123-130 | nothing for an empty document; otherwise the document followed by the comment, the data element's opening tag, the indented JSON and the closing tag |
| Transfer.DataTextClosesEarly | App.tsx:126-130 | a document containing "</script" puts "</script" inside the data element's text |
| Transfer.ImportedProject | App.tsx:153-158 | a project is installed exactly when the data element exists, has non-empty text that parses, and reads as two fields; what is installed is those two fields, and its document is not empty |
| Transfer.ImportDecision | App.tsx:153-173 | an installed project's fields, else the whole file as the document and only version |
| Transfer.DownloadImportRoundTrip | App.tsx:122-173 | importing a downloaded page gives back its document and history when the data element reads back as written |
| GeminiService.WrapPage | services/geminiService.ts:20-29 | the fallback page starts with the doctype and begins with '<' and ends with '>' |
| GeminiService.CleanHtmlResponse | services/geminiService.ts:16-29 | a reply that is not fenced comes out starting with the doctype, whether it is kept as it is or wrapped |
| GeminiService.CleanFenced | services/geminiService.ts:13-14 | a trimmed reply that is the `html` fence, a body and a closing fence gives the trimmed body |
| GeminiService.CleanShortFence | services/geminiService.ts:13-14 | a fenced reply shorter than ten characters gives a piece of the fence, because `substring` swaps its bounds |
| GeminiService.CleanLongFence | services/geminiService.ts:13-14 | a fenced reply of ten characters or more loses its first seven and last three characters, then is trimmed, even when it has no closing fence |
| GeminiService.CleanBareFence | services/geminiService.ts:13-14 | the bare fence comes out as "tml" |
| GeminiService.FenceOrDoctype | services/geminiService.ts:13-16 | no text starts with both the fence and the doctype, so the two tests never compete |
| GeminiService.CleanDoctype | services/geminiService.ts:16-17 | an unfenced reply that starts with the doctype gives the trimmed reply |
| GeminiService.CleanWraps | services/geminiService.ts:20-29 | any other reply gives a page that starts with the doctype and contains `<body>`, the trimmed reply and `</body>` |
| GeminiService.WrapContains | services/geminiService.ts:28 | the fallback page holds the body between `<body>` and `</body>` |
| GeminiService.CleanTrimmed | services/geminiService.ts:11-30 | every result is its own trim |
| GeminiService.WrapTrimmed | services/geminiService.ts:20-29 | the fallback page is its own trim |
| GeminiService.CleanStable | services/geminiService.ts:11-30 | cleaning an unfenced reply twice gives what cleaning it once gives |
| GeminiService.GenerationPrompt | services/geminiService.ts:48-49 | the prompt is embedded verbatim in quotes after the lead and followed by a line break, and text follows exactly when there is an image |
| GeminiService.GenerationShape | services/geminiService.ts:48-49 | where the lead, prompt, closing quote and note lie in the generation prompt |
| GeminiService.RefinementPrompt | services/geminiService.ts:93-100 | the current document is embedded verbatim after the lead and its `---` line and is followed by the closing `---` line; the user prompt follows in quotes, and text follows the blank line exactly when there is an image |
| GeminiService.RefinementLayout | services/geminiService.ts:93-100 | where the lead, document, middle, prompt, closing quote and note lie in the refinement prompt |
| GeminiService.RefinementShape | services/geminiService.ts:93-98 | where the document lies between the delimiter lines |
| GeminiService.BuildParts | services/geminiService.ts:51-60 | the text part comes first, and one inline-data part with the image's MIME type and base 64 follows exactly when there is an image |
| GeminiService.Finish | services/geminiService.ts:71-79 | a thrown call, an absent answer or an empty answer all fail with the single fixed message; any other answer succeeds with the cleaned page |
| GeminiService.GenerateWebsite | services/geminiService.ts:32-80 | the generation parts as sent and the outcome reported with the generation failure message |
| GeminiService.RefineWebsite | services/geminiService.ts:82-131 | the refinement parts as sent and the outcome reported with the refinement failure message |
| HistoryPanel.Render | components/HistoryPanel.tsx:21-65 | "Clear All" is enabled exactly when there is more than one version; an empty history shows only the placeholder; otherwise there is one entry per version, each with a restore control, its label, and a delete control exactly when it is not the oldest |
| HistoryPanel.OffersDeleteExactly | components/HistoryPanel.tsx:49 | a delete control is offered at exactly the indices 0 … length − 2 |
| HistoryPanel.VersionLabelsRange | components/HistoryPanel.tsx:60 | the newest entry is labelled with the history's length and the oldest "Version 1" |
| HistoryPanel.VersionLabelsDistinct | components/HistoryPanel.tsx:60 | no two entries have the same label |
| HistoryPanel.OfferedDeletesKeepOldest | components/HistoryPanel.tsx:49 | deleting only through offered controls keeps a non-empty history non-empty, with its oldest version last |
| Text.TrimIsCore | services/geminiService.ts:12 | `trim` keeps a contiguous part of the text and cuts only white space on either side |
| Text.TrimIdempotent | services/geminiService.ts:12 | trimming twice is trimming once |
| Text.JsSubstring | services/geminiService.ts:14 | `substring` gives the characters of the string between its two bounds clamped to the string, whichever bound is smaller |
| Text.JsSubstringSymmetric | services/geminiService.ts:14 | swapping the bounds of `substring` gives the same text |
| Text.JsSubstringWithin | services/geminiService.ts:14 | bounds in order inside the string select exactly the characters between them |
| Utf8.DecodeEncode | components/ShareModal.tsx:21 | decoding the UTF-8 octets of a string gives the string back |
| Utf8.EncodeDecode | App.tsx:56 | octets that decode are the UTF-8 encoding of what they decode to |
| Utf8.EncodeAppend | components/ShareModal.tsx:21 | UTF-8 encodes a concatenation piecewise |
| Bytes.BinaryStringRoundTrip | components/ShareModal.tsx:21 | reading the octets of the binary string of some octets gives those octets |
| Base64.EncodeLength | components/ShareModal.tsx:21 | the encoding of n octets is 4·⌈n/3⌉ characters long |
| Base64.EncodeShape | components/ShareModal.tsx:21 | the encoding uses only base 64 digits, with `=` only in its last two places |
| Base64.Btoa | components/ShareModal.tsx:21 | `btoa` succeeds exactly on binary strings |
| Base64.DecodeEncodeDigits | App.tsx:56 | the digits of the encoding decode to the encoded octets |
| Base64.AtobEncode | App.tsx:56 | `atob` of the encoding of some octets is their binary string |
| Base64.AtobBtoa | App.tsx:56 | `atob` undoes `btoa` |
| UriCoding.EncodeUriComponentAlphabet | components/ShareModal.tsx:16 | `encodeURIComponent` writes only its unreserved characters and upper-case `%XX` triplets |
| UriCoding.DecodeEncodeUriComponent | components/ShareModal.tsx:16 | `decodeURIComponent` undoes `encodeURIComponent` |
| UriCoding.UnescapeEncodeUriComponent | components/ShareModal.tsx:21 | `unescape(encodeURIComponent(s))` is one character below 256 per UTF-8 octet of s |
| UriCoding.EscapeHighOctets | App.tsx:56 | `escape` writes octets of 0x80 and above as their `%XX` triplets |
| UriCoding.DecodeEscapeBinary | App.tsx:56 | `decodeURIComponent(escape(..))` turns the binary string of the UTF-8 octets of s back into s |
| Json.ParseCompact | components/ShareModal.tsx:19 | the compact serialization of the project parses to the project object |
| Json.ParseIndented | App.tsx:129 | the two-space-indented serialization, on a line of its own, parses to the project object |
| Json.ProjectTextKeeps | App.tsx:129 | text without quotes, backslashes or control characters that occurs in the document still occurs in the serialization |
| Json.LastMember | App.tsx:59 | a property is found exactly when the object has a member with that name, and its value is that of the last such member |

## Left out

- The React rendering is not modelled. This covers the JSX, the mobile tab state `activeView` (App.tsx:46) and the share dialog's visibility, and the header, editor and preview components beyond the editor's `onChange`.
- The model never calls the Gemini SDK.
  - The network call, the `API_KEY` check, the system instructions and the `console.error` calls are left out.
  - The answer is an `Outcome` parameter: thrown, or a text that may be absent.
  - The inner "API returned an empty response" errors are never seen by a caller, because the surrounding catch replaces them with the fixed failure message. So they are not modelled separately.
- Browser I/O is left out: FileReader, Blob, object URLs, clicking the download anchor, the clipboard and the two-and-a-half-second reset timer. `window.history.replaceState` is modelled only as the flag `urlCleaned`. The file dialog's outcome is a `FileChoice` parameter.
- `DOMParser` and `getElementById(..).textContent` are modelled only as the given function `dataText`. HTML tokenization is not modelled. Because the script element ends at `</script`, the download→import round trip holds only under the stated condition that the data element reads back as written.
- Handlers do not interleave in the model. Stale closures (the `htmlContent` captured by the refine handler, the `history` read by the clear handler) and overlapping asynchronous handlers are out. The model is one sequential timeline.
- Text.JsSubstring: JavaScript's `length` and `substring` count UTF-16 code units, while the model counts Unicode scalar values. The two agree on strings with no character above U+FFFF. On other strings the bounds fall in different places, and a JavaScript result can end in half of a surrogate pair, which the model's strings cannot hold.
- GeminiService.CleanShortFence: the "shorter than ten" test and the swapped bounds count scalar values. They agree with the source when the trimmed reply has no character above U+FFFF. For example, for "```html😀" the source cuts at code units and gives "l", where the model gives "ml".
- GeminiService.CleanLongFence: the seven characters cut from the front are always the fence. The three cut from the end count scalar values, so they agree with the source when the trimmed reply has no character above U+FFFF. A reply with a closing fence (`GeminiService.CleanFenced`) always agrees, since its last three characters are code units.
- Lone surrogates are left out: strings are sequences of Unicode scalar values, on which `encodeURIComponent` never throws.
- Json.ParseEscape: a `\u` escape of a lone surrogate, such as `"\uD800"`, is accepted by RFC 8259 and `JSON.parse` but cannot be held by the model's strings, so the model rejects it. A crafted fragment holding one loads as corrupt, and a crafted data element holding one falls back to plain HTML, where the source would install the project.
- Transfer.ReadProject: when both fields are truthy but of other types (a non-string document, a non-array history, or an array history holding a non-string such as `[1]`), the source installs those values as they are. The model's state can only hold strings, so these cases are recorded as `Untyped`:
  - on load, such a project is not installed and the history stays empty;
  - on import, it falls back to loading the file as plain HTML.
- App.Session.RestoreHistory: it requires an index in range. The history panel only offers restore controls for existing entries. An index out of range would set the document to `undefined`, which the model's state cannot hold.
- The message 'An unknown error occurred.' is left out. It is unreachable, because the service only ever throws `Error` objects.
- JSON numbers are kept as their lexemes. Their truthiness is decided by whether the mantissa is all zeros. Floating-point values are not modelled, so a lexeme such as `1e-400`, which rounds to zero, counts as truthy.
- The model of `atob` follows the WHATWG forgiving-base64 decode. It accepts ASCII white space and optional padding only as that algorithm does.
- The control panel (image upload, `fileToBase64`, form state and button disabling) and the spinner's timed messages are not modelled. The control panel's disabling only repeats the session's guards.
- types.ts is not part of this model. `UploadedImage` is modelled with the two fields the service reads: `base64`, and `mimeType`, which the source names `type`.
