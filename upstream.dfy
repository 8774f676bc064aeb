/** What the three entry points share: the abstract results of the upstream calls, the
    parsed metadata, the trace of calls made, and the body of get_track_info (identical in
    ftm.py:36-53, index.py:31-46 and api/ftm.py:30-44 except for its `except` clause). */
module Upstream {
  import opened Wrappers
  import opened Utf8
  import Relay

  /** A JSON value inside the metadata, kept to what the code uses: a string, or any other
      value with its Python truthiness and its `str()` rendering (`None`, `True`, `3`, ...). */
  datatype Value = Str(s: string) | Other(truthy: bool, shown: string)

  /** Python's `None`, which `dict.get` returns for a missing key. */
  const Null: Value := Other(false, "None")

  /** Python truthiness: a string is true when non-empty. */
  predicate Truthy(v: Value) {
    match v
    case Str(s) => s != ""
    case Other(t, _) => t
  }

  /** `str(v)`, as an f-string renders it. */
  function Display(v: Value): string {
    match v
    case Str(s) => s
    case Other(_, shown) => shown
  }

  /** A JSON object as `json.loads` returns it. */
  type Metadata = map<string, Value>

  /** `m.get(key, default)`. */
  function Get(m: Metadata, key: string, default: Value): Value {
    if key in m then m[key] else default
  }

  /** When `raise_for_status()` raises: for the 4xx and 5xx statuses. */
  predicate RaisesForStatus(status: int) { 400 <= status < 600 }

  /** An inbound request: its method (`verb`), the `url` query parameter and the `url` of the JSON body. */
  datatype Request = Request(verb: string, query: Option<string>, body: Option<string>)

  /** The URL a request carries: the `url` query parameter for GET, the JSON body's `url`
      otherwise (ftm.py:96; api/ftm.py:49-52 reads it the same way for GET and POST and turns
      every other method away before reading it). */
  function RequestedUrl(req: Request): Option<string> {
    if req.verb == "GET" then req.query else req.body
  }

  /** The priming GET of the upstream origin: a `requests.RequestException` with its text,
      any other exception the session raises, or a response with its status. */
  datatype PrimeReply = PrimeFailed(reason: string) | PrimeException | PrimeResponse(status: int)

  /** The metadata POST: a `requests.RequestException`, any other exception the session
      raises, or a response (its `content-encoding`, "" when absent, and its raw body). */
  datatype HttpReply = RequestFailed | OtherException | Responded(status: int, contentEncoding: string, body: Bytes)

  /** The decompressors and the client's `.text` of a raw body. */
  datatype Codecs = Codecs(decode: Relay.Decoder, text: Bytes -> string)

  /** `json.loads` of the decoded text: an object, a JSONDecodeError, or any other exception. */
  datatype JsonParse = Parsed(doc: Metadata) | Malformed | Unexpected

  /** How the `try` block of get_track_info ends: the parsed object, a RequestException
      (from the POST or `raise_for_status()`), a JSONDecodeError, or any other exception. */
  datatype Attempt = Got(doc: Metadata) | RequestError | JsonError | OtherError

  /** The `try` block: POST, `raise_for_status()`, relay, `json.loads`. */
  function TryTrackInfo(reply: HttpReply, codecs: Codecs, parse: string -> JsonParse): Attempt {
    match reply
    case RequestFailed => RequestError
    case OtherException => OtherError
    case Responded(status, encoding, body) =>
      if RaisesForStatus(status) then RequestError
      else match parse(Relay.Decompress(encoding, body, codecs.decode, codecs.text))
        case Parsed(doc) => Got(doc)
        case Malformed => JsonError
        case Unexpected => OtherError
  }

  /** What the caller of a helper sees: a returned value, or an exception passing through. */
  datatype Fetch<T> = Returned(value: T) | Raised

  /** get_track_info of ftm.py and index.py: `except (requests.RequestException,
      json.JSONDecodeError)` turns those two into None and lets any other exception through. */
  function NarrowTrackInfo(reply: HttpReply, codecs: Codecs, parse: string -> JsonParse): Fetch<Option<Metadata>> {
    match TryTrackInfo(reply, codecs, parse)
    case Got(doc) => Returned(Some(doc))
    case RequestError => Returned(None)
    case JsonError => Returned(None)
    case OtherError => Raised
  }

  /** The metadata is the parse of the relayed body exactly when the request and its status
      succeed and `json.loads` yields an object; request errors, 4xx/5xx statuses and
      malformed JSON give None; any other exception, from the session or the parser, escapes. */
  lemma NarrowTrackInfoOutcomes(reply: HttpReply, codecs: Codecs, parse: string -> JsonParse)
    ensures var f := NarrowTrackInfo(reply, codecs, parse);
      && (f.Returned? && f.value.Some? <==>
            reply.Responded? && !RaisesForStatus(reply.status) &&
            parse(Relay.Decompress(reply.contentEncoding, reply.body, codecs.decode, codecs.text)).Parsed?)
      && (f.Returned? && f.value.Some? ==>
            parse(Relay.Decompress(reply.contentEncoding, reply.body, codecs.decode, codecs.text)) == Parsed(f.value.value))
      && (f.Raised? <==>
            reply.OtherException? ||
            (reply.Responded? && !RaisesForStatus(reply.status) &&
             parse(Relay.Decompress(reply.contentEncoding, reply.body, codecs.decode, codecs.text)).Unexpected?))
  {
  }

  /** An upstream call the pipeline made, with what it sent. */
  datatype Call =
    | Prime                                               // GET https://spotifysave.com
    | TrackInfo(url: string)                              // POST /track-info {url}
    | DirectLink(url: string, title: Value, artist: Value)   // POST /download, redirects followed
    | Download(url: string, title: Value, artist: Value)     // POST /download, body streamed
    | Mp3(location: Value)                                // GET of the metadata's `url`

  /** What an entry point did: the upstream calls in the order made, and its result. */
  datatype Trace<R> = Trace(calls: seq<Call>, result: R)
}
