/** How index.py's download_file names the saved file: the `filename="..."` capture of
    the `content-disposition` header (regex `filename="(.+)"`, searched leftmost and
    greedy), falling back to `"<title> - <artist>.mp3"`, and then every character of
    `< > : " / \ | ? *` replaced by `_` (regex `[<>:"/\\|?*]`). */
module Filename {
  import opened Wrappers

  const Key: string := "filename=\""

  // ---------------------------------------------------------------------------
  // What the regex `filename="(.+)"` matches

  /** A match of the regex with the literal starting at `i` and the closing quote at `k`:
      the capture `.+` is `s[i + |Key|..k]`, non-empty and free of newlines. */
  ghost predicate MatchEnd(s: string, i: int, k: int) {
    0 <= i && i + |Key| < k < |s| && s[i..i + |Key|] == Key && s[k] == '"' &&
    forall m | i + |Key| <= m < k :: s[m] != '\n'
  }

  /** No match starts before `i`. */
  ghost predicate NoMatchBefore(s: string, i: int) {
    forall i', k' | 0 <= i' < i :: !MatchEnd(s, i', k')
  }

  /** No match starting at `i` ends later than `k`. */
  ghost predicate LongestAt(s: string, i: int, k: int) {
    forall k' | MatchEnd(s, i, k') :: k' <= k
  }

  /** The first newline at or after `j`, or the end of `s`: how far `.` can reach. */
  function LineEnd(s: string, j: nat): (e: nat)
    requires j <= |s|
    ensures j <= e <= |s| && (e < |s| ==> s[e] == '\n')
    ensures forall m | j <= m < e :: s[m] != '\n'
    decreases |s| - j
  {
    if j == |s| || s[j] == '\n' then j else LineEnd(s, j + 1)
  }

  /** The last quote strictly between `lo` and `hi`. */
  function LastQuote(s: string, lo: nat, hi: nat): (r: Option<nat>)
    requires lo <= hi <= |s|
    ensures r.Some? ==> lo < r.value < hi && s[r.value] == '"'
    ensures r.Some? ==> forall k | r.value < k < hi :: s[k] != '"'
    ensures r.None? ==> forall k | lo < k < hi :: s[k] != '"'
    decreases hi
  {
    if hi <= lo + 1 then None
    else if s[hi - 1] == '"' then Some(hi - 1)
    else LastQuote(s, lo, hi - 1)
  }

  /** `re.search` from position `i`: the first start with a match, and there the longest capture. */
  function Search(s: string, i: nat): Option<string>
    decreases |s| - i
  {
    if i + |Key| > |s| then None
    else if s[i..i + |Key|] == Key then
      match LastQuote(s, i + |Key|, LineEnd(s, i + |Key|))
      case Some(k) => Some(s[i + |Key|..k])
      case None => Search(s, i + 1)
    else Search(s, i + 1)
  }

  /** `re.search(r'filename="(.+)"', header).group(1)`, or None when there is no match. */
  function Capture(header: string): Option<string> {
    Search(header, 0)
  }

  /** `.` stops at a newline, so a match ends before the line does. */
  lemma MatchWithinLine(s: string, i: nat, k: int)
    requires MatchEnd(s, i, k)
    ensures k < LineEnd(s, i + |Key|)
  {
    var e := LineEnd(s, i + |Key|);
    assert e < |s| ==> s[e] == '\n';
    assert s[k] == '"';
  }

  /** At a start where the literal occurs, the search's end is the longest match there. */
  lemma LastQuoteIsLongest(s: string, i: nat)
    requires i + |Key| <= |s| && s[i..i + |Key|] == Key
    ensures var j := i + |Key|;
      match LastQuote(s, j, LineEnd(s, j))
      case Some(k) => MatchEnd(s, i, k) && LongestAt(s, i, k)
      case None => forall k | 0 <= k :: !MatchEnd(s, i, k)
  {
    var j := i + |Key|;
    var e := LineEnd(s, j);
    forall k' | MatchEnd(s, i, k') ensures k' < e {
      MatchWithinLine(s, i, k');
    }
    match LastQuote(s, j, e)
    case Some(k) =>
      assert forall m | j <= m < k :: s[m] != '\n';
      assert MatchEnd(s, i, k);
    case None =>
  }

  /** Search finds the leftmost start at or after `i` that has a match, and the longest
      capture from it; it finds nothing exactly when no match starts at or after `i`. */
  lemma {:induction false} SearchIsLeftmostLongest(s: string, i: nat)
    requires NoMatchBefore(s, i)
    ensures Search(s, i).None? <==> forall i', k' :: !MatchEnd(s, i', k')
    ensures Search(s, i).Some? ==>
      exists i0, k :: MatchEnd(s, i0, k) && Search(s, i).value == s[i0 + |Key|..k] &&
        NoMatchBefore(s, i0) && LongestAt(s, i0, k)
    decreases |s| - i
  {
    if i + |Key| > |s| {
      assert forall i', k' :: !MatchEnd(s, i', k');
    } else if s[i..i + |Key|] == Key {
      LastQuoteIsLongest(s, i);
      var j := i + |Key|;
      match LastQuote(s, j, LineEnd(s, j))
      case Some(k) =>
        assert MatchEnd(s, i, k);
      case None =>
        SearchIsLeftmostLongest(s, i + 1);
    } else {
      assert forall k' :: !MatchEnd(s, i, k');
      SearchIsLeftmostLongest(s, i + 1);
    }
  }

  /** The capture is what the regex yields: None exactly when nothing matches, and
      otherwise the longest capture of the leftmost match. */
  lemma CaptureIsLeftmostLongest(header: string)
    ensures Capture(header).None? <==> forall i, k :: !MatchEnd(header, i, k)
    ensures Capture(header).Some? ==>
      exists i, k :: MatchEnd(header, i, k) && Capture(header).value == header[i + |Key|..k] &&
        NoMatchBefore(header, i) && LongestAt(header, i, k)
  {
    SearchIsLeftmostLongest(header, 0);
  }

  // ---------------------------------------------------------------------------
  // The sanitiser

  /** The characters `[<>:"/\\|?*]` matches. */
  predicate IsIllegal(c: char) {
    c == '<' || c == '>' || c == ':' || c == '"' || c == '/' || c == '\\' || c == '|' || c == '?' || c == '*'
  }

  /** `re.sub(r'[<>:"/\\|?*]', '_', name)`. */
  function Sanitize(name: string): (r: string)
    ensures |r| == |name|
    ensures forall k | 0 <= k < |name| :: r[k] == (if IsIllegal(name[k]) then '_' else name[k])
  {
    if name == "" then "" else [if IsIllegal(name[0]) then '_' else name[0]] + Sanitize(name[1..])
  }

  predicate IsSafe(name: string) { forall k | 0 <= k < |name| :: !IsIllegal(name[k]) }

  /** The sanitised name holds none of the nine characters. */
  lemma SanitizedIsSafe(name: string)
    ensures IsSafe(Sanitize(name))
  {
  }

  /** A name that is already safe is left as it is. */
  lemma SafeIsFixed(name: string)
    requires IsSafe(name)
    ensures Sanitize(name) == name
  {
    SanitizeIs(name, name);
  }

  /** Sanitising twice is sanitising once. */
  lemma SanitizeIdempotent(name: string)
    ensures Sanitize(Sanitize(name)) == Sanitize(name)
  {
    SanitizedIsSafe(name);
    SafeIsFixed(Sanitize(name));
  }

  // ---------------------------------------------------------------------------
  // The saved name

  /** The unsanitised fallback, `f"{title} - {artist}.mp3"`, for already formatted parts. */
  function FallbackName(title: string, artist: string): string {
    title + " - " + artist + ".mp3"
  }

  /** download_file's file name (index.py:65-68): the capture, or the fallback, sanitised. */
  function SavedName(contentDisposition: string, title: string, artist: string): string {
    Sanitize(Capture(contentDisposition).GetOr(FallbackName(title, artist)))
  }

  /** Whichever way the name was chosen it is sanitised: it has the chosen name's length,
      keeps its safe characters, and holds no illegal character; the fallback is used
      exactly when the header has no match. */
  lemma SavedNameIsSanitisedChoice(contentDisposition: string, title: string, artist: string)
    ensures var chosen := if Capture(contentDisposition).Some? then Capture(contentDisposition).value
                          else FallbackName(title, artist);
      && |SavedName(contentDisposition, title, artist)| == |chosen|
      && IsSafe(SavedName(contentDisposition, title, artist))
      && (forall k | 0 <= k < |chosen| && !IsIllegal(chosen[k]) :: SavedName(contentDisposition, title, artist)[k] == chosen[k])
    ensures Capture(contentDisposition).None? <==> forall i, k :: !MatchEnd(contentDisposition, i, k)
  {
    SanitizedIsSafe(Capture(contentDisposition).GetOr(FallbackName(title, artist)));
    CaptureIsLeftmostLongest(contentDisposition);
  }

  /** The saved name is never empty, so download_file's caller can only see "no file" as None. */
  lemma SavedNameNonEmpty(contentDisposition: string, title: string, artist: string)
    ensures |SavedName(contentDisposition, title, artist)| > 0
  {
    CaptureIsLeftmostLongest(contentDisposition);
  }

  /** The literal cannot start inside a quote-free prefix of `pre + Key + rest`. */
  lemma KeyNotInPrefix(pre: string, rest: string, i: nat)
    requires forall m | 0 <= m < |pre| :: pre[m] != '"'
    requires i < |pre|
    ensures var h := pre + Key + rest; i + |Key| <= |h| ==> h[i..i + |Key|] != Key
  {
    var h := pre + Key + rest;
    if i + |Key| <= |h| {
      if i + 9 < |pre| {
        assert h[i + 9] == pre[i + 9];
      } else {
        assert h[i + 9] == Key[i + 9 - |pre|];
      }
      assert h[i..i + |Key|][9] != Key[9];
    }
  }

  /** A header `<pre>filename="<name>"` whose `pre` holds no quote yields `name`, however
      many quotes `name` itself holds: the capture runs to the last quote on the line. */
  lemma CaptureOfQuotedName(pre: string, name: string)
    requires forall m | 0 <= m < |pre| :: pre[m] != '"'
    requires |name| > 0 && forall m | 0 <= m < |name| :: name[m] != '\n'
    ensures Capture(pre + Key + name + "\"") == Some(name)
  {
    var h := pre + Key + name + "\"";
    var p, last := |pre|, |h| - 1;
    assert h == pre + Key + (name + "\"");
    QuotedNameMatches(pre, name);
    CaptureIsLeftmostLongest(h);
    var i0, k :| MatchEnd(h, i0, k) && Capture(h).value == h[i0 + |Key|..k] && NoMatchBefore(h, i0) && LongestAt(h, i0, k);
    if i0 < p {
      KeyNotInPrefix(pre, name + "\"", i0);
    }
    assert i0 == p;
    assert k == last;
  }

  /** In `<pre>filename="<name>"` the literal at `|pre|` and the final quote make a match
      whose capture is `name`. */
  lemma QuotedNameMatches(pre: string, name: string)
    requires |name| > 0 && forall m | 0 <= m < |name| :: name[m] != '\n'
    ensures var h := pre + Key + name + "\"";
      MatchEnd(h, |pre|, |h| - 1) && h[|pre| + |Key|..|h| - 1] == name
  {
    var h := pre + Key + name + "\"";
    var p := |pre|;
    assert h[p..p + |Key|] == Key;
    assert h[p + |Key|..|h| - 1] == name;
  }

  /** Greediness: with a second quoted parameter after the file name, the capture runs
      past the file name's closing quote up to the last quote of the header. */
  lemma GreedyCaptureSpansParameters(h: string)
    requires h == "attachment; filename=\"a.mp3\"; size=\"3\""
    ensures Capture(h) == Some("a.mp3\"; size=\"3")
  {
    var pre, name := "attachment; ", "a.mp3\"; size=\"3";
    assert h == pre + Key + name + "\"";
    QuoteFreeAndOneLine(pre, name);
  }

  lemma QuoteFreeAndOneLine(pre: string, name: string)
    requires pre == "attachment; "
    requires |name| > 0 && forall m | 0 <= m < |name| :: name[m] != '\n'
    ensures Capture(pre + Key + name + "\"") == Some(name)
  {
    assert forall m | 0 <= m < |pre| :: pre[m] != '"';
    CaptureOfQuotedName(pre, name);
  }

  /** The header `attachment; filename="My/Song:1.mp3"` saves the file as `My_Song_1.mp3`:
      `/` and `:` are replaced and the rest of the name is kept. */
  lemma SavedNameExample(h: string, title: string, artist: string)
    requires h == "attachment; filename=\"My/Song:1.mp3\""
    ensures SavedName(h, title, artist) == "My_Song_1.mp3"
  {
    var pre, name := "attachment; ", "My/Song:1.mp3";
    assert h == pre + Key + name + "\"";
    QuoteFreeAndOneLine(pre, name);
    SanitizeExample(name);
  }

  lemma SanitizeExample(name: string)
    requires name == "My/Song:1.mp3"
    ensures Sanitize(name) == "My_Song_1.mp3"
  {
    var e := "My_Song_1.mp3";
    assert forall k | 0 <= k < |name| :: e[k] == (if IsIllegal(name[k]) then '_' else name[k]);
    SanitizeIs(name, e);
  }

  /** Sanitize is determined character by character. */
  lemma SanitizeIs(name: string, e: string)
    requires |e| == |name|
    requires forall k | 0 <= k < |name| :: e[k] == (if IsIllegal(name[k]) then '_' else name[k])
    ensures Sanitize(name) == e
  {
    assert forall k | 0 <= k < |name| :: Sanitize(name)[k] == e[k];
  }
}
