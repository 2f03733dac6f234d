# YouTube transcript-to-notes: a Dafny model

The application takes a YouTube link and resolves it to a video identifier.
It fetches that video's caption transcript and asks a language model
(`gemini-1.5-pro`) for a bullet-point summary, which it shows on a web page.
This project models the decision logic of `app.py`:

- `get_video_id`: `urlparse` of the link, then a dispatch on the exact netloc.
  For `www.youtube.com` / `youtube.com` the answer is the first kept `v` value of `parse_qs(query)`.
  For `youtu.be` it is the path with its leading slashes stripped.
  Anything else gives `None`.
- `extract_transcript_details`: give up without a usable identifier.
  Otherwise ask the transcript service and join the fragments' texts with single spaces.
  Any failure becomes `None`.
- `generate_gemini_content`: one request, the prompt followed by the transcript.
  The reply's text is chosen by a fixed priority: the text, else the first candidate, else a fixed failure message.
  An exception becomes an error text.
- The page: the thumbnail preview for a typed link.
  The button handler, which summarizes only when the transcript is non-empty.

The Python standard library's `urlparse` and `parse_qs` decide what the resolver sees.
They are modelled after CPython 3.12:

- The input is stripped of leading C0 controls and spaces.
- Tab, CR and LF are deleted anywhere.
- The scheme rule.
- The `//` authority.
- `#` and `?`.
- `;params` for the schemes that use them.
- `&`-separated fields split at the first `=`, with blank values dropped.
- `+` decoded as a space.

The two network services are not modelled as code. Each is a function parameter:

- `Transcript.TranscriptService`: identifier → fragments or failure.
- `Summarizer.ModelService`: request → reply or exception.

"The service is not consulted" is therefore stated as "the result is the same for every service".

Each function is split where the source itself draws a line.

- `Resolver.Resolve` is `get_video_id` after `urlparse`.
- `Transcript.FetchTranscript` is `extract_transcript_details` after the identifier is known.
- `App.PreviewFor` and `App.NotesFor` are the page's reactions to an identifier and to a transcript.

Most properties are stated at that level. `UrlParse.ParseCompose` and `Resolver.ComposedLinkResolves` carry them over to link texts: a link written out from its components parses back to exactly those components.

Files: `wrappers.dfy` (Option/Result), `text.dfy` (string helpers standing in for Python's `str` methods), `urlparse.dfy`, `querystring.dfy`, `resolver.dfy`, `transcript.dfy`, `summarizer.dfy`, `app.dfy`.

## Model

| member | source | states |
|---|---|---|
| UrlParse.Sanitize | app.py:38 | the text urlparse works on has no tab, CR or LF; a link that starts with a letter and has none of them is used unchanged |
| UrlParse.LeadingBlankIgnored | app.py:38 | a link pasted after any run of C0 controls and spaces is read as the link itself |
| UrlParse.UnsafeDeletedInPlace | app.py:38 | a tab, CR or LF anywhere in a link that starts with a letter is deleted in place: the link reads as if it had never been there |
| Text.RemoveConcat | app.py:38 | deleting characters works piece by piece, so the kept characters stay in order |
| UrlParse.SplitScheme | app.py:38 | the scheme is the lower-cased text before the first ':', split off only when that text is a non-empty run of scheme characters starting with a letter, and always split off when it is; the rest is the text after that ':'; otherwise the text is untouched |
| UrlParse.SplitNetloc | app.py:38 | the netloc exists only after a leading "//", runs to the first '/', '?' or '#', and holds none of them; without "//" the netloc is empty |
| UrlParse.SplitParams | app.py:38 | `;params` never contain '/', and no ';' of the kept path lies after its last '/': the cut is at the first ';' after the last '/' |
| UrlParse.SplitParamsDetermined | app.py:38 | the cut is unique: any split into a path without a ';' after its last '/' and params without '/' (or no split, when there is no such ';') is the one made |
| UrlParse.Parse | app.py:38 | the netloc never contains '/', '?' or '#'; the path contains no '?' or '#'; the query contains no '#'; params appear only for schemes that use them |
| UrlParse.ParseCompose | app.py:38 | round trip: writing out well-formed components as `scheme://netloc/path;params?query#fragment` and parsing gives back exactly those components |
| UrlParse.SchemelessHasNoNetloc | app.py:38 | a link that starts with a letter and has no ':' (such as `youtube.com/watch?v=x`) parses with an empty netloc |
| UrlParse.EmptyHasNoNetloc | app.py:38 | the empty link parses with an empty netloc |
| QueryString.Unquote | app.py:40 | decoding keeps the length and maps each character on its own: '+' becomes a space, everything else stays; text without '+' is unchanged |
| QueryString.ValuesOf | app.py:40 | a name has values exactly when some kept pair carries it |
| QueryString.ParseQs | app.py:40 | the dictionary's keys are exactly the names some `&`-field carries with a non-blank value, each mapped to the decoded values of those fields in field order (`CarriedValues`, defined over the fields directly) |
| QueryString.CarriedValues | app.py:40 | reference definition over the `&`-fields: the decoded values of the fields that carry the name, in field order; none of them is blank, since blank raw values are dropped and decoding keeps the length |
| QueryString.ValuesAreCarried | app.py:40 | the values the pair list keeps for a name are exactly the decoded values of the fields carrying it, in field order |
| QueryString.FirstCarried | app.py:40 | a name has no carried values exactly when no field carries it; otherwise its first carried value is the value of the first field that carries it |
| QueryString.FirstCarrier | app.py:40 | reference definition: the index of the first `&`-field that is `name=value` with a non-blank value, or none when no field is |
| QueryString.GetFirst | app.py:40 | `parse_qs(q).get(name, [None])[0]` is None exactly when no field carries the name; otherwise it is the decoded value of the first field that does |
| QueryString.FirstValueOfFields | app.py:40 | the first value `parse_qs` keeps for a name is the value of the first field carrying it, and it keeps none exactly when no field carries it |
| QueryString.LeadingField | app.py:40 | for a name without '=', '&' or '+', a query that opens with `name=x` (x non-empty, without '&') yields x with every '+' read as a space, whatever fields follow, including later repeats |
| Text.JoinSplit | app.py:40 | splitting the query at '&' loses nothing: joining the fields with '&' restores it |
| Resolver.Resolve | app.py:39-43 | an identifier comes only from an exactly matching host; on a long-form host it exists exactly when some field carries a non-blank `v`, and it is the first such value; on the short-link host it always exists and is the path with its leading slashes removed |
| Resolver.GetVideoId | app.py:37-43 | an identifier is returned only when the parsed netloc is one of the three hosts exactly |
| Resolver.ComposedLinkResolves | app.py:37-43 | a link written out from well-formed components resolves exactly as those components do, so the properties below hold of concrete link texts |
| Resolver.ShortLinkId | app.py:41-42 | a short link always resolves, to the path without its leading slashes; the identifier contains no '?' or '#' |
| Resolver.ShortLinkSlashX | app.py:41-42 | a short link with path `/X`, where X does not start with '/', resolves to exactly X (the empty X included) |
| Resolver.LongFormIdNonEmpty | app.py:39-40 | a long-form host never resolves to the empty identifier |
| Resolver.LongFormFirstV | app.py:39-40 | a long-form query that opens with `v=X`, X non-empty and without '&', resolves to X with every '+' read as a space, whatever follows |
| Resolver.LongFormWithoutV | app.py:40 | a long-form host whose query has no `v` with a value, including `v=` alone, resolves to None |
| Resolver.SchemelessUnresolved | app.py:37-43 | a link that starts with a letter and holds no ':' (such as `youtube.com/watch?v=x`) resolves to None |
| Resolver.OtherHostResolvesNone | app.py:43 | any other netloc (another host, a sub-domain, a port, different letter case) resolves to None |
| Resolver.NoNetlocUnresolved | app.py:39-43 | a link that parses without a netloc (the empty link among them) resolves to None |
| Transcript.Texts | app.py:53 | one text per fragment, in the order returned |
| Transcript.JoinFragments | app.py:53 | the fragments' texts joined by single spaces, in the order returned: no fragments give "", one fragment gives its text unchanged (placed and measured in general by `JoinFragmentsPlaces` and `JoinFragmentsLength`) |
| Transcript.FetchTranscript | app.py:49-57 | None without a present, non-empty identifier; with one, a transcript exactly when the service succeeds |
| Transcript.ExtractTranscriptDetails | app.py:46-57 | for a link, None unless it resolves to a non-empty identifier; otherwise a transcript exactly when the service succeeds for that identifier |
| Transcript.ServiceNotConsultedWithoutId | app.py:48-50 | without a usable identifier the result is None whatever the transcript service would answer |
| Transcript.ServiceAskedOnlyAboutId | app.py:52 | the service is asked about the resolved identifier only: services that agree on it give the same result |
| Transcript.SuccessJoinsFragments | app.py:52-55 | on success the transcript is the fragments' texts joined by single spaces |
| Transcript.FailureCollapses | app.py:56-57 | every service failure becomes None |
| Transcript.JoinFragmentsLength | app.py:53 | the transcript's length is the texts' total length plus one space between each two fragments; no fragments give "" |
| Transcript.JoinFragmentsInOrder | app.py:53 | when no text holds a space, splitting the transcript at spaces gives back the texts in order |
| Transcript.JoinFragmentsPlaces | app.py:53 | whatever the texts hold, spaces included, each fragment's text appears whole at its offset (the earlier texts' total length plus one per earlier fragment), followed by a single space unless it is the last |
| Text.JoinPlaces | app.py:53 | each piece of a join sits whole at its offset (the earlier pieces' total length plus one separator per earlier piece), followed by the separator unless it is the last |
| Transcript.HelloWorld | app.py:53 | the fragments "Hello" and "world" give "Hello world" |
| Summarizer.SelectText | app.py:66-74 | the reply's text field wins; otherwise its first candidate; otherwise the fixed failure message; an exception becomes "❌ Error: " followed by its message |
| Summarizer.GenerateGeminiContent | app.py:60-74 | a failed call is reported as text that starts with the error prefix and ends with the exception's message |
| Summarizer.OnlyTheRequestMatters | app.py:62-63 | the summary depends only on the service's answer to one request: the named model, with the prompt followed by the transcript |
| Summarizer.TextWinsOverCandidates | app.py:66-67 | a reply with a text field gives that text, whatever its candidates |
| Summarizer.ErrorKeepsMessage | app.py:73-74 | an exception "quota exceeded" gives "❌ Error: quota exceeded" |
| App.ThumbnailUrl | app.py:85 | the image address is the fixed prefix, then the identifier, then "/0.jpg", so the identifier can be read back from it |
| App.PreviewFor | app.py:82-87 | nothing is shown for an empty field; otherwise the thumbnail appears exactly when the identifier is present and non-empty, with that identifier's image address |
| App.ShowPreview | app.py:82-87 | for a link: nothing for an empty field, otherwise the thumbnail exactly when the link resolves to a non-empty identifier |
| App.NotesFor | app.py:93-98 | notes are shown exactly when the transcript is present and non-empty, and they are the summary of that transcript with the fixed prompt |
| App.GetDetailedNotes | app.py:90-98 | the button shows notes exactly when the link's transcript is present and non-empty |
| App.SummarizerNotCalledWithoutText | app.py:93-98 | without transcript text the outcome is the error, whatever the language model would have answered |
| App.NoFragmentsNoNotes | app.py:91-98 | a video whose transcript has no fragments gives the error, not a summary of empty text |
| App.RejectedLinkNoNotes | app.py:82-98 | a link the preview rejects, or an empty field, never yields notes |
| App.NotesComeFromTheVideo | app.py:82-96 | notes imply that the preview showed a thumbnail and the service returned non-empty text, and they are the model's reply to the prompt followed by that text |

## Left out

- The Streamlit page rendering (title, text input, image, markdown, button widget) is not modelled. The page's choices are modelled as the `Preview` and `Notes` values.
- Loading `.env` and the `GOOGLE_API_KEY` check with `st.stop()` (app.py:9-17) are left out: they are environment I/O.
- `list_available_models` (app.py:29-34) is never called by the page and is left out.
- The transcript and language-model services are network calls. They are modelled as function parameters, with no assumption on their answers.
- QueryString.Unquote: percent-escapes (`%41`) are not decoded. Only '+' is turned into a space, so an identifier written with escapes is modelled as written.
- UrlParse.Parse: the IPv6 bracket checks and the NFKC netloc check of CPython's `urlsplit` raise ValueError. The model returns the parse instead. Such netlocs never equal one of the three hosts, so inside `extract_transcript_details`, which catches the exception, the result is None either way.
- App.ShowPreview: at app.py:83 `get_video_id` is called outside any `try`. A bracketed netloc such as `https://[x/` therefore stops the page there with an uncaught ValueError, and the button at app.py:90 is never drawn. The model shows `InvalidUrl` for such a link instead.
- UrlParse.Parse: caching, `bytes` input, and the `allow_fragments`/default-scheme arguments (never used here) are not modelled.
- Summarizer.SelectText: `hasattr` is modelled as the reply's `text` being present or absent. A `text` property that raises something other than AttributeError propagates in Python to the `except` branch. The model covers that only as a service that raises.
- Summarizer.SelectText: `candidates[0].content` is a content object, not text. It is modelled as the string the page would display.
- Transcript.ExtractTranscriptDetails: a fragment without a `text` key, or with non-string text, raises and is caught as None in Python. The model's fragments always carry text.
- The fragment timing fields (`start`, `duration`) are carried but never read, and are modelled as `real`.
- `str(e)` of an exception is modelled as the exception's message string.
- The libraries `youtube_transcript_api` and `google.generativeai` are not modelled as code: they are the two service parameters. `urllib.parse` is modelled after its CPython 3.12 behaviour as described above.
- `youtu.be` links resolve to the whole path with its leading slashes removed. That may be empty (`https://youtu.be/`) or hold further segments (`https://youtu.be/a/b` gives `a/b`). `Resolver.ShortLinkSlashX` states it.
