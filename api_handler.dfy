/** The serverless handler of api/ftm.py: dispatch on the method, validate the URL with
    the strict pattern, fetch the metadata without priming, then fetch the MP3 at the
    metadata's `url` and send it under an unsanitised `"<title> - <artist>.mp3"`. */
module ApiHandler {
  import opened Wrappers
  import opened Upstream
  import TrackUrl
  import Filename

  /** The GET of the MP3 location: an error (network, or a location requests cannot use),
      or the response body.  Its status is never checked. */
  datatype MediaReply = MediaFailed | MediaResponse(content: Utf8.Bytes)

  datatype Service = Service(trackInfo: HttpReply, codecs: Codecs, parse: string -> JsonParse,
                             media: MediaReply)

  /** The handler's answer: a JSON error with its status, the MP3 bytes with the file name of
      their Content-Disposition, or an exception escaping the handler. */
  datatype Response =
    | Error(status: int, message: string)
    | Audio(filename: string, content: Utf8.Bytes)
    | Unhandled

  const NotAllowed: string := "Only GET and POST allowed"
  const InvalidUrl: string := "Invalid or missing Spotify track URL"
  const NoTrackInfo: string := "Failed to fetch track info"

  /** get_track_info of api/ftm.py: the bare `except:` turns every failure into None. */
  function GetTrackInfo(reply: HttpReply, codecs: Codecs, parse: string -> JsonParse): Option<Metadata> {
    match TryTrackInfo(reply, codecs, parse)
    case Got(doc) => Some(doc)
    case _ => None
  }

  /** The served file name: the shown `title` and `artist` values, each defaulting to
      `Unknown` when its key is absent, joined by ` - ` and followed by `.mp3`. */
  function Mp3Filename(m: Metadata): string {
    Filename.FallbackName(Display(Get(m, "title", Str("Unknown"))), Display(Get(m, "artist", Str("Unknown"))))
  }

  /** Metadata the handler accepts: a non-empty object with a truthy `url`. */
  predicate HasMediaUrl(info: Option<Metadata>) {
    info.Some? && |info.value| > 0 && Truthy(Get(info.value, "url", Null))
  }

  /** handler over the request and the upstream's answers, for a given URL check. */
  function HandleWith(req: Request, s: Service, accepts: string -> bool): Trace<Response> {
    if req.verb != "GET" && req.verb != "POST" then Trace([], Error(405, NotAllowed))
    else
      var url := RequestedUrl(req);
      if url.None? || url.value == "" || !accepts(url.value) then Trace([], Error(400, InvalidUrl))
      else
        var info := GetTrackInfo(s.trackInfo, s.codecs, s.parse);
        if !HasMediaUrl(info) then Trace([TrackInfo(url.value)], Error(500, NoTrackInfo))
        else
          var m := info.value;
          var calls := [TrackInfo(url.value), Mp3(m["url"])];
          match s.media
          case MediaFailed => Trace(calls, Unhandled)
          case MediaResponse(content) => Trace(calls, Audio(Mp3Filename(m), content))
  }

  /** handler as api/ftm.py writes it: the strict pattern with Python's `$`. */
  function HandleAsWritten(req: Request, s: Service): Trace<Response> {
    HandleWith(req, s, TrackUrl.IsStrictAsWritten)
  }

  /** handler with the evidently intended full match of the strict pattern. */
  function Handle(req: Request, s: Service): Trace<Response> {
    HandleWith(req, s, TrackUrl.IsStrictTrackUrl)
  }

  // ---------------------------------------------------------------------------
  // Properties, for either URL check

  /** get_track_info never raises: it yields the parsed metadata exactly when the request,
      its status and the parse all succeed, and None on every failure, including an
      exception the narrow copies let through. */
  lemma GetTrackInfoCatchesAll(reply: HttpReply, codecs: Codecs, parse: string -> JsonParse)
    ensures GetTrackInfo(reply, codecs, parse).Some? <==>
      reply.Responded? && !RaisesForStatus(reply.status) &&
      parse(Relay.Decompress(reply.contentEncoding, reply.body, codecs.decode, codecs.text)).Parsed?
    ensures GetTrackInfo(reply, codecs, parse).Some? ==>
      parse(Relay.Decompress(reply.contentEncoding, reply.body, codecs.decode, codecs.text))
        == Parsed(GetTrackInfo(reply, codecs, parse).value)
    ensures GetTrackInfo(reply, codecs, parse) ==
      match NarrowTrackInfo(reply, codecs, parse) case Returned(info) => info case Raised => None
  {
  }

  /** A method other than GET and POST is answered 405 before the URL is looked at or any
      upstream call is made. */
  lemma OtherMethodIs405(req: Request, s: Service, accepts: string -> bool)
    ensures HandleWith(req, s, accepts).result == Error(405, NotAllowed) <==> req.verb != "GET" && req.verb != "POST"
    ensures req.verb != "GET" && req.verb != "POST" ==> HandleWith(req, s, accepts).calls == []
  {
  }

  /** For GET and POST a missing URL, or one the check rejects, is answered 400 with no
      upstream call. */
  lemma InvalidUrlMakesNoCall(req: Request, s: Service, accepts: string -> bool)
    requires req.verb == "GET" || req.verb == "POST"
    ensures var url := RequestedUrl(req);
      && (HandleWith(req, s, accepts).calls == [] <==> url.None? || url.value == "" || !accepts(url.value))
      && (HandleWith(req, s, accepts).calls == [] ==> HandleWith(req, s, accepts).result == Error(400, InvalidUrl))
  {
  }

  /** There is no priming request: the first call is the metadata fetch, and the MP3 is
      fetched only from a truthy `url` of the metadata. */
  lemma CallsFollowPipeline(req: Request, s: Service, accepts: string -> bool)
    ensures var run := HandleWith(req, s, accepts);
      var url := RequestedUrl(req);
      var info := GetTrackInfo(s.trackInfo, s.codecs, s.parse);
      && Prime !in run.calls
      && |run.calls| <= 2
      && (|run.calls| >= 1 ==> url.Some? && run.calls[0] == TrackInfo(url.value))
      && (|run.calls| == 2 ==> HasMediaUrl(info) && run.calls[1] == Mp3(info.value["url"]))
      && (run.result == Error(500, NoTrackInfo) <==> |run.calls| == 1)
  {
  }

  /** Metadata that is None, empty or without a truthy `url` is answered 500 and the MP3 is
      never fetched. */
  lemma MissingMediaUrlIs500(req: Request, s: Service, accepts: string -> bool)
    requires req.verb == "GET" || req.verb == "POST"
    requires var url := RequestedUrl(req); url.Some? && url.value != "" && accepts(url.value)
    requires !HasMediaUrl(GetTrackInfo(s.trackInfo, s.codecs, s.parse))
    ensures HandleWith(req, s, accepts) == Trace([TrackInfo(RequestedUrl(req).value)], Error(500, NoTrackInfo))
  {
  }

  /** On success the file name is the shown `title` value (`Unknown` when the key is
      absent), ` - `, the shown `artist` value (likewise) and `.mp3`, and it is sent
      unsanitised: a title `AC/DC` keeps its slash. */
  lemma AudioFilenameIsUnsanitised(req: Request, s: Service, accepts: string -> bool)
    requires HandleWith(req, s, accepts).result.Audio?
    ensures var m := GetTrackInfo(s.trackInfo, s.codecs, s.parse).value;
      HandleWith(req, s, accepts).result.filename ==
        Display(Get(m, "title", Str("Unknown"))) + " - " + Display(Get(m, "artist", Str("Unknown"))) + ".mp3"
    ensures var m := GetTrackInfo(s.trackInfo, s.codecs, s.parse).value;
      Get(m, "title", Null) == Str("AC/DC") ==> !Filename.IsSafe(HandleWith(req, s, accepts).result.filename)
  {
    var m := GetTrackInfo(s.trackInfo, s.codecs, s.parse).value;
    if Get(m, "title", Null) == Str("AC/DC") {
      assert HandleWith(req, s, accepts).result.filename[2] == '/';
    }
  }

  // ---------------------------------------------------------------------------
  // The handler as written and as intended

  /** The input that shows it: a GET whose `url` is a track URL with a trailing newline gets
      past the handler as written and is sent to the metadata endpoint, while the intended
      handler answers 400 without any call. */
  lemma AsWrittenHandlerSendsNewlineUrl(s: Service)
    ensures var u := TrackUrl.Prefix + "abc\n";
      var req := Request("GET", Some(u), None);
      && |HandleAsWritten(req, s).calls| >= 1
      && HandleAsWritten(req, s).calls[0] == TrackInfo(u)
      && Handle(req, s) == Trace([], Error(400, InvalidUrl))
  {
    var u := TrackUrl.Prefix + "abc\n";
    TrackUrl.StrictAsWrittenCounterexample();
    TrackUrl.StrictAsWrittenCheckIsPattern(u);
  }

  /** The two handlers differ only on a URL that ends in a newline. */
  lemma HandlersAgreeWithoutFinalNewline(req: Request, s: Service)
    requires var url := RequestedUrl(req); url.None? || url.value == "" || url.value[|url.value| - 1] != '\n'
    ensures HandleAsWritten(req, s) == Handle(req, s)
  {
  }
}
