/** The Flask endpoint `/ftmdl` of ftm.py (get_info_and_direct_link): validate the URL
    with the lenient pattern, prime the session, fetch the metadata, then resolve the
    direct link by following the download endpoint's redirects. */
module FtmApp {
  import opened Wrappers
  import opened Upstream
  import TrackUrl

  /** The download POST with redirects followed: a `requests.RequestException`, any other
      exception the session raises, or the final response with its status and final URL. */
  datatype LinkReply = LinkFailed | LinkException | LinkResponse(status: int, finalUrl: string)

  datatype Service = Service(prime: PrimeReply, trackInfo: HttpReply, codecs: Codecs,
                             parse: string -> JsonParse, link: LinkReply)

  /** The endpoint's answer: a JSON error with its status, the success payload, or an
      exception Flask turns into its own 500 page. */
  datatype Response =
    | Error(status: int, message: string)
    | Links(trackinfo: Metadata, downloadurl: string)
    | Unhandled

  function StatusOf(r: Response): int {
    match r
    case Error(status, _) => status
    case Links(_, _) => 200
    case Unhandled => 500
  }

  const MissingUrl: string := "URL parameter is missing or invalid"
  const BadFormat: string := "Invalid Spotify track URL format"
  const ServiceDown: string := "Failed to access the download service: "
  const NoMetadata: string := "Failed to retrieve complete track metadata from the source"
  const NoLink: string := "Failed to resolve the direct download link"

  /** get_direct_download_link: the final URL after redirects; None on a RequestException
      or a 4xx/5xx final status; any other exception passes through. */
  function GetDirectDownloadLink(reply: LinkReply): Fetch<Option<string>> {
    match reply
    case LinkFailed => Returned(None)
    case LinkException => Raised
    case LinkResponse(status, finalUrl) => if RaisesForStatus(status) then Returned(None) else Returned(Some(finalUrl))
  }

  /** Metadata the endpoint accepts: a non-empty object with `title` and `artist` keys
      (their values are not checked). */
  predicate Complete(info: Option<Metadata>) {
    info.Some? && |info.value| > 0 && "title" in info.value && "artist" in info.value
  }

  /** get_info_and_direct_link over the upstream's answers. */
  function GetInfoAndDirectLink(req: Request, s: Service): Trace<Response> {
    var url := RequestedUrl(req);
    if url.None? || url.value == "" then Trace([], Error(400, MissingUrl))
    else if !TrackUrl.IsLenientTrackUrl(url.value) then Trace([], Error(400, BadFormat))
    else match s.prime
      case PrimeFailed(reason) => Trace([Prime], Error(503, ServiceDown + reason))
      case PrimeException => Trace([Prime], Unhandled)
      case PrimeResponse(_) =>
        var calls := [Prime, TrackInfo(url.value)];
        match NarrowTrackInfo(s.trackInfo, s.codecs, s.parse)
        case Raised => Trace(calls, Unhandled)
        case Returned(info) =>
          if !Complete(info) then Trace(calls, Error(500, NoMetadata))
          else
            var m := info.value;
            var calls' := calls + [DirectLink(url.value, m["title"], m["artist"])];
            match GetDirectDownloadLink(s.link)
            case Raised => Trace(calls', Unhandled)
            case Returned(link) =>
              if link.None? || link.value == "" then Trace(calls', Error(500, NoLink))
              else Trace(calls', Links(m, link.value))
  }

  // ---------------------------------------------------------------------------
  // Properties

  /** A missing, empty or malformed URL is answered 400 before any upstream call, and the
      endpoint makes no call exactly in that case. */
  lemma InvalidUrlMakesNoCall(req: Request, s: Service)
    ensures var url := RequestedUrl(req);
      var run := GetInfoAndDirectLink(req, s);
      && (run.calls == [] <==> url.None? || url.value == "" || !TrackUrl.IsLenientTrackUrl(url.value))
      && (run.calls == [] ==> StatusOf(run.result) == 400)
      && (url.None? || url.value == "" ==> run.result == Error(400, MissingUrl))
  {
  }

  /** A RequestException from the priming GET is answered 503 with its text, and no
      metadata is fetched. */
  lemma PrimeFailureIs503(req: Request, s: Service)
    requires var url := RequestedUrl(req); url.Some? && url.value != "" && TrackUrl.IsLenientTrackUrl(url.value)
    requires s.prime.PrimeFailed?
    ensures GetInfoAndDirectLink(req, s) == Trace([Prime], Error(503, ServiceDown + s.prime.reason))
  {
  }

  /** The priming response's status is never looked at: any two statuses give the same run. */
  lemma PrimeStatusIgnored(req: Request, s: Service, status: int)
    requires s.prime.PrimeResponse?
    ensures GetInfoAndDirectLink(req, s) == GetInfoAndDirectLink(req, s.(prime := PrimeResponse(status)))
  {
  }

  /** The calls come in the order priming, metadata, link and stop at the first failure;
      the link is requested only with complete metadata, with that metadata's title and artist. */
  lemma CallsFollowPipeline(req: Request, s: Service)
    ensures var run := GetInfoAndDirectLink(req, s);
      var url := RequestedUrl(req).GetOr("");
      var info := NarrowTrackInfo(s.trackInfo, s.codecs, s.parse);
      && |run.calls| <= 3
      && (|run.calls| >= 1 ==> run.calls[0] == Prime)
      && (|run.calls| >= 2 ==> run.calls[1] == TrackInfo(url) && s.prime.PrimeResponse?)
      && (|run.calls| == 3 ==>
            info.Returned? && Complete(info.value) &&
            run.calls[2] == DirectLink(url, info.value.value["title"], info.value.value["artist"]))
      && (StatusOf(run.result) == 503 ==> run.calls == [Prime])
      && (run.result == Error(500, NoMetadata) ==> |run.calls| == 2)
  {
  }

  /** Incomplete metadata (None, an empty object, no `title` or no `artist`) is answered 500
      and the link is never requested. */
  lemma IncompleteMetadataIs500(req: Request, s: Service)
    requires var url := RequestedUrl(req); url.Some? && url.value != "" && TrackUrl.IsLenientTrackUrl(url.value)
    requires s.prime.PrimeResponse?
    requires var info := NarrowTrackInfo(s.trackInfo, s.codecs, s.parse); info.Returned? && !Complete(info.value)
    ensures GetInfoAndDirectLink(req, s) == Trace([Prime, TrackInfo(RequestedUrl(req).value)], Error(500, NoMetadata))
  {
  }

  /** With complete metadata, a link that failed or resolved to "" is answered 500 after
      the download request was made with the metadata's title and artist. */
  lemma FalsyLinkIs500(req: Request, s: Service)
    requires var url := RequestedUrl(req); url.Some? && url.value != "" && TrackUrl.IsLenientTrackUrl(url.value)
    requires s.prime.PrimeResponse?
    requires var info := NarrowTrackInfo(s.trackInfo, s.codecs, s.parse); info.Returned? && Complete(info.value)
    requires var link := GetDirectDownloadLink(s.link); link.Returned? && (link.value.None? || link.value.value == "")
    ensures var m := NarrowTrackInfo(s.trackInfo, s.codecs, s.parse).value.value;
      var url := RequestedUrl(req).value;
      GetInfoAndDirectLink(req, s) ==
        Trace([Prime, TrackInfo(url), DirectLink(url, m["title"], m["artist"])], Error(500, NoLink))
  {
  }

  /** The endpoint succeeds exactly when the URL is valid, priming reached the service, the
      metadata is complete and the link resolved to a non-empty URL; it then returns the
      whole metadata and that URL. */
  lemma SuccessIsFullPipeline(req: Request, s: Service)
    ensures var run := GetInfoAndDirectLink(req, s);
      var url := RequestedUrl(req);
      var info := NarrowTrackInfo(s.trackInfo, s.codecs, s.parse);
      var link := GetDirectDownloadLink(s.link);
      && (run.result.Links? <==>
            url.Some? && url.value != "" && TrackUrl.IsLenientTrackUrl(url.value) &&
            s.prime.PrimeResponse? && info.Returned? && Complete(info.value) &&
            link.Returned? && link.value.Some? && link.value.value != "")
      && (run.result.Links? ==>
            run.result == Links(info.value.value, link.value.value) && |run.calls| == 3)
  {
  }

  /** Only RequestException is caught around the session's calls (and JSONDecodeError around
      the parse): any other exception from priming, the metadata fetch or the link request
      escapes the endpoint, and only such an exception does. */
  lemma UncaughtExceptionIsUnhandled(req: Request, s: Service)
    ensures var url := RequestedUrl(req);
      var info := NarrowTrackInfo(s.trackInfo, s.codecs, s.parse);
      GetInfoAndDirectLink(req, s).result == Unhandled <==>
        url.Some? && url.value != "" && TrackUrl.IsLenientTrackUrl(url.value) &&
        (s.prime.PrimeException? ||
         (s.prime.PrimeResponse? &&
          (info.Raised? || (Complete(info.value) && GetDirectDownloadLink(s.link).Raised?))))
  {
  }
}
