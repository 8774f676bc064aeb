# spt-v2 resolver core in Dafny

spt-v2 resolves a Spotify track URL through the spotifysave.com service. It has three
entry points that share most of their logic:

- `ftm.py` is a Flask endpoint `/ftmdl`. It returns the track metadata and the direct
  download link, found by following the download endpoint's redirects.
- `index.py` is a command-line tool. It downloads the MP3 under a sanitised file name.
- `api/ftm.py` is a serverless handler. It streams the MP3 back to the caller.

This project models the decision logic of those three files and proves properties of it:

- the content-decoding relay `decompress_response`, which is identical in all three files;
- the two track-URL patterns;
- the file name that `index.py` derives from `content-disposition`, and its sanitiser;
- the early-return pipeline of each entry point, over abstract upstream outcomes.

Each pipeline returns the trace of the upstream calls it made together with its answer.
That makes "no call after a failure" and "metadata before download" statable.

Modules:

| module | file | contents |
|---|---|---|
| `Wrappers` | wrappers.dfy | `Option` |
| `Utf8` | utf8.dfy | strict UTF-8 decoding of `bytes.decode('utf-8')`, with its encoder and both round trips |
| `Text` | text.dfy | `str.split(',')` and `str.strip()` |
| `Relay` | relay.dfy | `decompress_response`: the fold `Run`, the function `Decompress`, and the loop `DecompressResponse` proved equal to it |
| `TrackUrl` | track_url.dfy | the lenient pattern of ftm.py, and the strict pattern of index.py and api/ftm.py |
| `Filename` | filename.dfy | the `filename="(.+)"` capture (leftmost, greedy), the fallback name, the sanitiser |
| `Upstream` | upstream.dfy | shared outcome types, metadata values, `raise_for_status`, the body of `get_track_info` and its narrow `except` |
| `FtmApp` | ftm_app.dfy | `get_info_and_direct_link` and `get_direct_download_link` of ftm.py |
| `IndexCli` | index_cli.dfy | `main` and `download_file` of index.py |
| `ApiHandler` | api_handler.dfy | `handler` and the catch-all `get_track_info` of api/ftm.py |

Abstractions:

- The brotli, gzip and zstd decompressors are one abstract partial function,
  `decode: (Codec, Bytes) -> Option<Bytes>`. None stands for the library raising.
- `response.text` is an abstract `Bytes -> string`.
- `json.loads` is an abstract `string -> JsonParse`. It yields a parsed object, a
  JSONDecodeError, or any other exception.
- Every HTTP exchange is a datatype of its possible outcomes: a `requests.RequestException`,
  any other exception the session raises, or a response with the fields the code reads.
  The narrow `except requests.RequestException` clauses of ftm.py and index.py let the
  second kind through; the bare `except` of api/ftm.py's get_track_info does not.
- The console, the file system, Flask and the serverless runtime are not modelled.

## Model

| member | source | states |
|---|---|---|
| Text.Split | ftm.py:16 | `str.split` on one character always yields at least one piece, and no piece holds the separator |
| Text.JoinSplit | ftm.py:16 | joining the pieces of the split with the separator gives back the header |
| Text.SplitIsEmptyPiece | ftm.py:16-19 | the split is `['']` exactly when the header is empty, so only an absent or empty header takes the early return |
| Text.SplitWithoutSep | ftm.py:16 | a header without a comma is a single token |
| Text.SplitAtFirstSep | ftm.py:16 | the first token ends at the first comma, and the rest of the header splits on its own |
| Text.StripLeftSpec | ftm.py:21 | left stripping removes exactly a leading run of whitespace, and what is left does not start with whitespace |
| Text.StripRightSpec | ftm.py:21 | right stripping removes exactly a trailing run of whitespace, and what is left does not end with whitespace |
| Text.Strip | ftm.py:21 | `str.strip()`; no contract of its own: its properties are the rows Text.StripLeftSpec, Text.StripRightSpec and Text.StripPadded |
| Text.StripPadded | ftm.py:21 | stripping a word padded with whitespace gives back the word |
| Utf8.Decode | ftm.py:32 | `bytes.decode('utf-8')`, None for a UnicodeDecodeError; no contract of its own: its properties are the rows Utf8.DecodeEncode and Utf8.EncodeDecode |
| Utf8.DecodeEncode | ftm.py:32 | decoding the UTF-8 encoding of any string gives that string back |
| Utf8.EncodeDecode | ftm.py:32 | bytes that decode are exactly the encoding of their decoded text, so the decoder accepts only well-formed UTF-8 |
| Relay.CodecFor | ftm.py:23-28 | the codec a stripped token names; no contract of its own: its properties are the rows Relay.UnknownTokensPassThrough and Relay.HeaderOrderIsKept |
| Relay.Run | ftm.py:20-30 | the walk over the tokens with the early return on a decoder failure; no contract of its own: its properties are the rows Relay.RunFollowsHeader, Relay.RunAppend, Relay.UnknownTokensPassThrough, Relay.NoKnownTokenNoStep and Relay.DecoderFailureIsRawText |
| Relay.Decompress | ftm.py:14-34 | the relay always returns a string: the raw text, or the UTF-8 text of the output of the decoder chain |
| Relay.DecompressResponse | ftm.py:14-34 | the loop that reassigns `data` and returns early computes the fold `Decompress` |
| Relay.RunFollowsHeader | ftm.py:20-28 | decoders are invoked in header order: a prefix of the named codecs, the first on the raw body, each on its predecessor's output, all of them when none fails |
| Relay.RunAppend | ftm.py:20-28 | the walk over `a + b` is the walk over `a` continued over `b` on its output, so tokens are never re-sorted |
| Relay.UnknownTokensPassThrough | ftm.py:21-28 | tokens naming no codec (`deflate`, the empty token, `GZIP`) leave the walk unchanged |
| Relay.NoKnownTokenNoStep | ftm.py:21-28 | a header of unknown tokens invokes no decoder and keeps the data |
| Relay.EmptyHeaderIsRawText | ftm.py:16-19 | an absent or empty header returns the raw text, and no decoder influences the result |
| Relay.UnknownHeaderIsUtf8OfRaw | ftm.py:20-34 | a non-empty header of unknown tokens returns the UTF-8 text of the raw body, or the raw text if that fails |
| Relay.DecoderFailureIsRawText | ftm.py:29-30 | when a decoder fails the result is exactly the raw text, and the failing decoder is the last one invoked |
| Relay.DecodedTextOrRawText | ftm.py:31-34 | for a non-empty header: the UTF-8 text of the fully decoded bytes when both succeed, otherwise the raw text |
| Relay.HeaderOrderIsKept | ftm.py:20-28 | `br, gzip` runs brotli on the raw body and then gzip on brotli's output |
| TrackUrl.IsLenientTrackUrl | ftm.py:84 | the lenient URL check; no contract of its own: its properties are the rows TrackUrl.LenientCheckIsPattern, TrackUrl.LenientAcceptsQuery and TrackUrl.StrictImpliesLenient |
| TrackUrl.LenientCheckIsPattern | ftm.py:84 | the lenient check accepts exactly what `^https://open\.spotify\.com/track/[a-zA-Z0-9]+.*$` matches under `re.match` |
| TrackUrl.LenientAcceptsQuery | ftm.py:84 | a track id followed by any newline-free suffix, such as a query string, is accepted |
| TrackUrl.IsStrictTrackUrl | index.py:79 | the intended strict URL check, prefix plus an all-alphanumeric id; no contract of its own: its properties are the rows TrackUrl.StrictIsPrefixAndId, TrackUrl.StrictRejectsSuffix, TrackUrl.StrictImpliesLenient and TrackUrl.StrictChecksAgreeWithoutNewline |
| TrackUrl.IsStrictAsWritten | api/ftm.py:56 | the strict check as `re.match` evaluates it, with `$` before a final newline; no contract of its own: its properties are the rows TrackUrl.StrictAsWrittenCheckIsPattern, TrackUrl.StrictAsWrittenAdmitsFinalNewline, TrackUrl.StrictAsWrittenCounterexample and TrackUrl.StrictChecksAgreeWithoutNewline |
| TrackUrl.StrictAsWrittenAdmitsFinalNewline | api/ftm.py:56 | the strict pattern as written matches the intended URLs and also each of them with one trailing newline |
| TrackUrl.StrictAsWrittenCheckIsPattern | api/ftm.py:56 | the direct as-written check accepts exactly what the strict pattern matches under `re.match` |
| TrackUrl.StrictChecksAgreeWithoutNewline | index.py:79 | on a newline-free string the pattern as written and the intended check agree |
| TrackUrl.StrictAsWrittenCounterexample | api/ftm.py:56 | the pattern as written accepts `https://open.spotify.com/track/abc` followed by a newline, which the intended check rejects |
| TrackUrl.StrictIsPrefixAndId | api/ftm.py:56 | the intended strict check accepts the prefix plus an id exactly when the id is one or more ASCII letters and digits |
| TrackUrl.StrictRejectsSuffix | index.py:79 | any character after the id that is not a letter or digit (a `?`, a `/`) makes the strict check fail |
| TrackUrl.StrictImpliesLenient | index.py:79 | every URL the strict check accepts, the lenient one accepts too |
| Filename.Capture | index.py:66 | `re.search(r'filename="(.+)"', ...).group(1)`; no contract of its own: its properties are the rows Filename.CaptureIsLeftmostLongest, Filename.CaptureOfQuotedName and Filename.GreedyCaptureSpansParameters |
| Filename.LineEnd | index.py:66 | the reach of `.`: the first newline from a position, or the end |
| Filename.LastQuote | index.py:66 | the last quote before the line end, or None when the line has none |
| Filename.LastQuoteIsLongest | index.py:66 | where the literal `filename="` occurs, the last quote on the line ends the longest match, and without one there is no match there |
| Filename.SearchIsLeftmostLongest | index.py:66 | the search finds nothing exactly when nothing matches, and otherwise the longest capture of the leftmost match |
| Filename.CaptureIsLeftmostLongest | index.py:66 | `re.search(r'filename="(.+)"', ...).group(1)` is None exactly when there is no match, and otherwise the leftmost, longest capture |
| Filename.CaptureOfQuotedName | index.py:66 | with a quote-free prefix the capture is the whole quoted name, quotes inside it included |
| Filename.GreedyCaptureSpansParameters | index.py:66 | a later quoted parameter is swallowed: `filename="a.mp3"; size="3"` captures `a.mp3"; size="3` |
| Filename.Sanitize | index.py:68 | the sanitised name has the same length, each of the nine illegal characters (angle brackets, colon, double quote, slash, backslash, vertical bar, question mark, asterisk) becomes `_`, and every other character is kept |
| Filename.SanitizedIsSafe | index.py:68 | the sanitised name holds none of the nine characters |
| Filename.SafeIsFixed | index.py:68 | a name that holds none of them is left unchanged |
| Filename.SanitizeIdempotent | index.py:68 | sanitising twice is sanitising once |
| Filename.SanitizeExample | index.py:68 | `My/Song:1.mp3` becomes `My_Song_1.mp3` |
| Filename.SavedName | index.py:65-68 | the name download_file saves under; no contract of its own: its properties are the rows Filename.SavedNameIsSanitisedChoice, Filename.SavedNameNonEmpty and Filename.SavedNameExample |
| Filename.SavedNameIsSanitisedChoice | index.py:66-68 | the capture, or the fallback `<title> - <artist>.mp3` exactly when nothing matches, is sanitised: same length, safe characters kept, no illegal character left |
| Filename.SavedNameNonEmpty | index.py:66-68 | the saved name is never empty |
| Filename.SavedNameExample | index.py:66-68 | the header `attachment; filename="My/Song:1.mp3"` saves the file as `My_Song_1.mp3` |
| Upstream.TryTrackInfo | ftm.py:45-50 | the body of get_track_info before any `except` applies; no contract of its own: its properties are the rows Upstream.NarrowTrackInfoOutcomes and ApiHandler.GetTrackInfoCatchesAll |
| Upstream.NarrowTrackInfo | ftm.py:36-53 | get_track_info of ftm.py and of index.py:31-46, with the narrow `except`; no contract of its own: its properties are the row Upstream.NarrowTrackInfoOutcomes |
| Upstream.NarrowTrackInfoOutcomes | ftm.py:47-53 | get_track_info (this copy and index.py's) returns the parsed metadata exactly when the request and its status succeed and `json.loads` yields an object; a RequestException, a 4xx/5xx status and malformed JSON give None; any other exception, from the session or the parser, escapes |
| FtmApp.GetDirectDownloadLink | ftm.py:55-80 | the resolved link, None on a RequestException, with other exceptions passing through; no contract of its own: its properties are the rows FtmApp.FalsyLinkIs500, FtmApp.SuccessIsFullPipeline and FtmApp.UncaughtExceptionIsUnhandled |
| FtmApp.GetInfoAndDirectLink | ftm.py:91-126 | the `/ftmdl` endpoint as a trace of upstream calls and the answer; no contract of its own: its properties are the rows FtmApp.InvalidUrlMakesNoCall through FtmApp.UncaughtExceptionIsUnhandled |
| FtmApp.InvalidUrlMakesNoCall | ftm.py:96-102 | no upstream call is made exactly when the URL is missing, empty or fails the lenient check, and then the answer is 400 |
| FtmApp.PrimeFailureIs503 | ftm.py:104-108 | a RequestException from the priming GET is answered 503 with the error text appended, and no metadata is fetched |
| FtmApp.PrimeStatusIgnored | ftm.py:104-108 | the priming response's status never changes the outcome |
| FtmApp.CallsFollowPipeline | ftm.py:104-118 | calls come in the order priming, metadata, link; the link request carries the complete metadata's title and artist |
| FtmApp.IncompleteMetadataIs500 | ftm.py:111-113 | metadata that is None, empty, or lacks `title` or `artist` is answered 500 and the link is never requested |
| FtmApp.FalsyLinkIs500 | ftm.py:118-121 | a link that failed or is empty is answered 500 after the link request |
| FtmApp.SuccessIsFullPipeline | ftm.py:123-126 | success exactly when every step succeeded, and then the answer is the whole metadata and the resolved link |
| FtmApp.UncaughtExceptionIsUnhandled | ftm.py:105-118 | an exception other than RequestException from priming, the metadata POST or the link POST escapes the endpoint, and nothing else does |
| IndexCli.DownloadFile | index.py:48-75 | a name download_file returns is never empty and holds none of the nine characters the sanitiser replaces; when it returns one, and what it is, are stated by the row IndexCli.SavedIsFullPipeline |
| IndexCli.Main | index.py:77-108 | the command-line flow as a trace of upstream calls and the outcome; no contract of its own: its properties are the rows IndexCli.InvalidUrlMakesNoCall through IndexCli.UncaughtExceptionIsUnhandled |
| IndexCli.InvalidUrlMakesNoCall | index.py:79-81 | no upstream call is made exactly when the URL fails the strict check, and then the tool stops with its message |
| IndexCli.InputLineChecksAgree | index.py:78-79 | on a line `input()` can return, which holds no newline, the strict pattern as written and the intended check agree |
| IndexCli.PrimeFailureStops | index.py:83-89 | a RequestException from priming or a 4xx/5xx status stops the tool before the metadata call |
| IndexCli.CallsFollowPipeline | index.py:83-103 | calls come in the order priming, metadata, download; the download carries the metadata's title and artist, None when absent, and is made only for non-empty metadata |
| IndexCli.SavedIsFullPipeline | index.py:103-108 | a file is reported saved exactly when every step succeeds, under the sanitised name download_file chose; a None from download_file is reported as failure |
| IndexCli.UncaughtExceptionIsUnhandled | index.py:84-103 | an exception other than RequestException from priming, the metadata POST or the download ends the program, and nothing else does |
| ApiHandler.GetTrackInfoCatchesAll | api/ftm.py:39-44 | the catch-all get_track_info never raises: the parsed metadata exactly when the request, its status and the parse succeed, and None on any failure, including exceptions the narrow copies let through |
| ApiHandler.GetTrackInfo | api/ftm.py:30-44 | get_track_info with the bare `except`; no contract of its own: its properties are the row ApiHandler.GetTrackInfoCatchesAll |
| ApiHandler.Mp3Filename | api/ftm.py:69 | the served file name; no contract of its own: its properties are the row ApiHandler.AudioFilenameIsUnsanitised |
| ApiHandler.HandleWith | api/ftm.py:47-74 | the handler with its URL check as a parameter; no contract of its own: its properties are the rows ApiHandler.OtherMethodIs405 through ApiHandler.AudioFilenameIsUnsanitised, each stated for any check |
| ApiHandler.HandleAsWritten | api/ftm.py:47-74 | the handler with the check as `re.match` evaluates it; no contract of its own: its properties are the rows of ApiHandler.HandleWith and ApiHandler.AsWrittenHandlerSendsNewlineUrl |
| ApiHandler.Handle | api/ftm.py:47-74 | the handler with the intended check; no contract of its own: its properties are the rows of ApiHandler.HandleWith and ApiHandler.HandlersAgreeWithoutFinalNewline |
| ApiHandler.OtherMethodIs405 | api/ftm.py:49-54 | for either URL check, the answer is 405 exactly when the method is neither GET nor POST, and then no upstream call is made |
| ApiHandler.InvalidUrlMakesNoCall | api/ftm.py:56-57 | for GET and POST and either URL check, no upstream call is made exactly when the URL is missing, empty or rejected by the check, and then the answer is 400 |
| ApiHandler.CallsFollowPipeline | api/ftm.py:59-67 | for either URL check, no priming request: the first call is the metadata fetch, and the MP3 is fetched only from a truthy `url` of the metadata |
| ApiHandler.MissingMediaUrlIs500 | api/ftm.py:62-63 | metadata that is None, empty or has no truthy `url` is answered 500 and the MP3 is never fetched |
| ApiHandler.AudioFilenameIsUnsanitised | api/ftm.py:69 | the served name is the `title` value, or `Unknown` when the key is absent, then ` - `, then the `artist` value, or `Unknown` when that key is absent, then `.mp3`; it is not sanitised: a title `AC/DC` keeps its slash |
| ApiHandler.AsWrittenHandlerSendsNewlineUrl | api/ftm.py:56-60 | the handler as written sends a GET `url` of a track URL plus a trailing newline on to the metadata endpoint, while the intended handler answers 400 with no call |
| ApiHandler.HandlersAgreeWithoutFinalNewline | api/ftm.py:56 | the handler as written and the intended handler agree on every request whose URL does not end in a newline |

## Left out

- The brotli, gzip and zstd libraries are foreign code. They are the abstract `Relay.Decoder`.
- `response.text` depends on the HTTP client's charset guess. It is the abstract `rawText`.
- HTTP, cloudscraper's challenge solving and redirect following are network I/O. Their
  results are datatype parameters.
- `json.loads` is an abstract parser. A JSON document that is not an object (a list, a
  number, `null`) is not modelled, so what the entry points would do with one is not covered.
- `print`, `input`, the file write loop of index.py:69-72, an `OSError` from `open`, and
  `os.path.abspath` are console and file-system I/O.
- The `PORT` environment variable, Flask, `jsonify` and the serverless response object
  are runtime glue. `request.json()` on a body that is not an object, or a `url` that is
  not a string, is not modelled.
- Sending and streaming the MP3 bytes (api/ftm.py:67, 72-74) is I/O. The model keeps the
  file name and the content only.
- The literal header dictionaries are constant data.
- `Relay.Decompress` does not distinguish ftm.py's `except Exception` from the bare
  `except` of the other two copies. A decoder failure is one None either way, so a
  `BaseException` such as `KeyboardInterrupt` is not modelled.
- The `not encodings` test of decompress_response can never hold, because a split is
  never empty (`Text.Split` proves it). The model has only the `['']` test.
- Codec names are compared exactly, as the source does. `GZIP` names no codec.
- The GET of the MP3 in api/ftm.py checks no status. The model gives its body whatever
  the status; only an exception from the GET is `Unhandled`.
- IndexCli.Main uses the intended strict check `TrackUrl.IsStrictTrackUrl`. On the lines
  `input()` returns it agrees with the pattern as written (`IndexCli.InputLineChecksAgree`).
  The handler exists in both forms: `ApiHandler.HandleAsWritten` and the intended
  `ApiHandler.Handle` (see Findings).
- An exception other than RequestException is one `...Exception` outcome per call. The
  model does not say which exception classes cloudscraper raises.

Points where the code does something a reader might not expect, and the model follows the code:

- `raise_for_status()` raises for statuses 400 to 599 only (`Upstream.RaisesForStatus`), so a
  1xx or 3xx priming status does not stop index.py.
- `Text.IsSpace` is exactly the set of characters CPython's `str.isspace()` accepts, which
  is what `str.strip()` removes.
- A header of only whitespace is not the early return. It splits into one blank token, so
  the raw body is decoded as UTF-8.
- The filename capture is greedy to the last quote on the line, as the regex reads.

## Findings

| source | as written | input that shows it | evidently intended | confidence | as-written member | corrected member |
|---|---|---|---|---|---|---|
| api/ftm.py:56 | `re.match` with `[a-zA-Z0-9]+$` accepts a URL followed by one trailing newline, because Python's `$` also matches just before a final newline | the query parameter `url` equal to `https://open.spotify.com/track/abc` followed by `\n` (sent as `%0A`) | a full match: the prefix, one or more letters and digits, and nothing else | not executed | ApiHandler.HandleAsWritten, ApiHandler.AsWrittenHandlerSendsNewlineUrl | ApiHandler.Handle, TrackUrl.IsStrictTrackUrl |

`TrackUrl.MatchesStrictAsWritten` reads the pattern literally, and `TrackUrl.StrictAsWrittenCounterexample`
shows the URL it wrongly accepts. The handler's other properties are proved for both checks.
index.py:79 has the same pattern. There the URL comes from `input()`, which never returns a
newline, so both checks agree on every URL the tool can read (`IndexCli.InputLineChecksAgree`).
