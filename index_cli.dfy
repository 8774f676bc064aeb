/** The command-line tool of index.py (main and download_file): validate the URL with the
    strict pattern, prime the session and check its status, fetch the metadata, then
    download the file under a name taken from `content-disposition`. */
module IndexCli {
  import opened Wrappers
  import opened Upstream
  import TrackUrl
  import Filename

  /** The download POST, body streamed: a `requests.RequestException` while sending, any
      other exception the session raises, or a response with its status, its
      `content-disposition` ("" when absent) and whether streaming the body to the file went
      through without a RequestException. */
  datatype DownloadReply = DownloadFailed | DownloadException | DownloadResponse(status: int, contentDisposition: string, streamed: bool)

  datatype Service = Service(prime: PrimeReply, trackInfo: HttpReply, codecs: Codecs,
                             parse: string -> JsonParse, download: DownloadReply)

  /** How main ends: it prints a message and returns, it reports the saved file, or an
      exception ends the program. */
  datatype Outcome = Stopped(message: string) | Saved(filename: string) | Unhandled

  const InvalidUrl: string := "Invalid Spotify track URL"
  const ServiceDown: string := "Failed to access spotifysave.com"
  const NoTrackInfo: string := "Failed to retrieve track information"
  const NoFile: string := "Failed to download the file"

  /** download_file: the saved file's name; None on a RequestException (sending, a 4xx/5xx
      status, or while streaming the body); any other exception passes through.  A name it
      returns is never empty and holds none of the characters the sanitiser replaces. */
  function DownloadFile(reply: DownloadReply, title: Value, artist: Value): (name: Fetch<Option<string>>)
    ensures name.Returned? && name.value.Some? ==> |name.value.value| > 0 && Filename.IsSafe(name.value.value)
  {
    match reply
    case DownloadFailed => Returned(None)
    case DownloadException => Raised
    case DownloadResponse(status, disposition, streamed) =>
      if RaisesForStatus(status) then Returned(None)
      else
        var t, a := Display(title), Display(artist);
        Filename.SavedNameNonEmpty(disposition, t, a);
        Filename.SavedNameIsSanitisedChoice(disposition, t, a);
        var name := Filename.SavedName(disposition, t, a);
        if streamed then Returned(Some(name)) else Returned(None)
  }

  /** The priming step fails: a RequestException, or a 4xx/5xx status from `raise_for_status()`. */
  predicate PrimeRejected(prime: PrimeReply) {
    prime.PrimeFailed? || (prime.PrimeResponse? && RaisesForStatus(prime.status))
  }

  /** main over the line read and the upstream's answers. */
  function Main(url: string, s: Service): Trace<Outcome> {
    if !TrackUrl.IsStrictTrackUrl(url) then Trace([], Stopped(InvalidUrl))
    else if PrimeRejected(s.prime) then Trace([Prime], Stopped(ServiceDown))
    else if s.prime.PrimeException? then Trace([Prime], Unhandled)
    else
      var calls := [Prime, TrackInfo(url)];
      match NarrowTrackInfo(s.trackInfo, s.codecs, s.parse)
      case Raised => Trace(calls, Unhandled)
      case Returned(info) =>
        if info.None? || |info.value| == 0 then Trace(calls, Stopped(NoTrackInfo))
        else
          var m := info.value;
          var title, artist := Get(m, "title", Null), Get(m, "artist", Null);
          var calls' := calls + [Download(url, title, artist)];
          match DownloadFile(s.download, title, artist)
          case Raised => Trace(calls', Unhandled)
          case Returned(None) => Trace(calls', Stopped(NoFile))
          case Returned(Some(name)) => if name == "" then Trace(calls', Stopped(NoFile)) else Trace(calls', Saved(name))
  }

  // ---------------------------------------------------------------------------
  // Properties

  /** An invalid URL stops the tool before any upstream call, and only an invalid URL does. */
  lemma InvalidUrlMakesNoCall(url: string, s: Service)
    ensures (Main(url, s).calls == []) <==> !TrackUrl.IsStrictTrackUrl(url)
    ensures Main(url, s).calls == [] ==> Main(url, s).result == Stopped(InvalidUrl)
  {
  }

  /** `input()` never returns a newline, so on every line it can return the intended strict
      check that Main applies agrees with the pattern of index.py:79 as written. */
  lemma InputLineChecksAgree(url: string)
    requires TrackUrl.NoNewline(url)
    ensures TrackUrl.MatchesStrictAsWritten(url) <==> TrackUrl.IsStrictTrackUrl(url)
  {
    TrackUrl.StrictChecksAgreeWithoutNewline(url);
  }

  /** A priming failure, a RequestException or a 4xx/5xx status, stops the tool before the
      metadata call. */
  lemma PrimeFailureStops(url: string, s: Service)
    requires TrackUrl.IsStrictTrackUrl(url)
    requires PrimeRejected(s.prime)
    ensures Main(url, s) == Trace([Prime], Stopped(ServiceDown))
  {
  }

  /** The calls come in order and stop at the first failure; the download is requested
      only with non-empty metadata, passing its title and artist (None when absent). */
  lemma CallsFollowPipeline(url: string, s: Service)
    ensures var run := Main(url, s);
      var info := NarrowTrackInfo(s.trackInfo, s.codecs, s.parse);
      && |run.calls| <= 3
      && (|run.calls| >= 1 ==> run.calls[0] == Prime)
      && (|run.calls| >= 2 ==> run.calls[1] == TrackInfo(url) && s.prime.PrimeResponse? && !RaisesForStatus(s.prime.status))
      && (|run.calls| == 3 ==>
            info.Returned? && info.value.Some? && |info.value.value| > 0 &&
            run.calls[2] == Download(url, Get(info.value.value, "title", Null), Get(info.value.value, "artist", Null)))
      && (run.result == Stopped(NoTrackInfo) ==> |run.calls| == 2)
  {
  }

  /** The tool saves a file exactly when every step succeeds, and the file's name is the
      sanitised name download_file chose; a None from download_file is reported as failure. */
  lemma SavedIsFullPipeline(url: string, s: Service)
    ensures var run := Main(url, s);
      var info := NarrowTrackInfo(s.trackInfo, s.codecs, s.parse);
      && (run.result.Saved? <==>
            TrackUrl.IsStrictTrackUrl(url) && s.prime.PrimeResponse? && !RaisesForStatus(s.prime.status) &&
            info.Returned? && info.value.Some? && |info.value.value| > 0 &&
            s.download.DownloadResponse? && !RaisesForStatus(s.download.status) && s.download.streamed)
      && (run.result.Saved? ==>
            run.result.filename == Filename.SavedName(s.download.contentDisposition,
              Display(Get(info.value.value, "title", Null)), Display(Get(info.value.value, "artist", Null))) &&
            Filename.IsSafe(run.result.filename))
  {
    var info := NarrowTrackInfo(s.trackInfo, s.codecs, s.parse);
    if s.download.DownloadResponse? && info.Returned? && info.value.Some? {
      var m := info.value.value;
      var t, a := Display(Get(m, "title", Null)), Display(Get(m, "artist", Null));
      Filename.SavedNameNonEmpty(s.download.contentDisposition, t, a);
      Filename.SavedNameIsSanitisedChoice(s.download.contentDisposition, t, a);
    }
  }

  /** Only RequestException is caught around the session's calls (and JSONDecodeError around
      the parse): any other exception from priming, the metadata fetch or the download ends
      the program, and only such an exception does. */
  lemma UncaughtExceptionIsUnhandled(url: string, s: Service)
    ensures var info := NarrowTrackInfo(s.trackInfo, s.codecs, s.parse);
      Main(url, s).result == Unhandled <==>
        TrackUrl.IsStrictTrackUrl(url) &&
        (s.prime.PrimeException? ||
         (s.prime.PrimeResponse? && !RaisesForStatus(s.prime.status) &&
          (info.Raised? || (info.value.Some? && |info.value.value| > 0 && s.download.DownloadException?))))
  {
  }
}
