/** The two track-URL patterns.  Python's `re.match` anchors at the start only, `.`
    matches any character but '\n', and `$` matches at the end of the string or just
    before a final '\n'.  Each pattern is given twice: as the regular expression reads
    (an existential over where its parts end) and as a direct check proved equivalent. */
module TrackUrl {

  const Prefix: string := "https://open.spotify.com/track/"

  /** The class `[a-zA-Z0-9]`. */
  predicate IsAlnum(c: char) { 'a' <= c <= 'z' || 'A' <= c <= 'Z' || '0' <= c <= '9' }

  predicate AllAlnum(s: string) { forall k | 0 <= k < |s| :: IsAlnum(s[k]) }

  predicate NoNewline(s: string) { forall k | 0 <= k < |s| :: s[k] != '\n' }

  /** Where `$` can match in `s`: the end, or just before a final newline. */
  predicate DollarAt(s: string, j: int) {
    j == |s| || (0 <= j == |s| - 1 && s[j] == '\n')
  }

  predicate StartsWithPrefix(s: string) { |s| >= |Prefix| && s[..|Prefix|] == Prefix }

  // ---------------------------------------------------------------------------
  // The lenient pattern of ftm.py: ^https://open\.spotify\.com/track/[a-zA-Z0-9]+.*$

  /** The lenient pattern read literally: the id `[a-zA-Z0-9]+` ends at `i`, `.*` ends at `j`. */
  ghost predicate MatchesLenient(s: string) {
    StartsWithPrefix(s) &&
    exists i, j | |Prefix| < i <= j <= |s| ::
      AllAlnum(s[|Prefix|..i]) && NoNewline(s[i..j]) && DollarAt(s, j)
  }

  /** The lenient check: the prefix, one letter or digit, then a newline-free rest
      (save for an optional final newline). */
  predicate IsLenientTrackUrl(s: string) {
    StartsWithPrefix(s) && |s| > |Prefix| && IsAlnum(s[|Prefix|]) &&
    (NoNewline(s[|Prefix| + 1..]) || (s[|s| - 1] == '\n' && NoNewline(s[|Prefix| + 1..|s| - 1])))
  }

  /** The lenient check accepts exactly what the lenient pattern matches. */
  lemma LenientCheckIsPattern(s: string)
    ensures IsLenientTrackUrl(s) <==> MatchesLenient(s)
  {
    var p := |Prefix|;
    if IsLenientTrackUrl(s) {
      var i := p + 1;
      var j := if NoNewline(s[i..]) then |s| else |s| - 1;
      assert AllAlnum(s[p..i]) && NoNewline(s[i..j]) && DollarAt(s, j);
    }
    if MatchesLenient(s) {
      var i, j :| p < i <= j <= |s| && AllAlnum(s[p..i]) && NoNewline(s[i..j]) && DollarAt(s, j);
      assert IsAlnum(s[p..i][0]);
      forall k | p + 1 <= k < j ensures s[k] != '\n' {
        if k < i {
          assert IsAlnum(s[p..i][k - p]);
        } else {
          assert s[i..j][k - i] == s[k];
        }
      }
      if j == |s| {
        assert NoNewline(s[p + 1..]);
      } else {
        assert NoNewline(s[p + 1..|s| - 1]);
      }
    }
  }

  /** The lenient pattern lets a query string follow the id. */
  lemma LenientAcceptsQuery(id: string, query: string)
    requires |id| >= 1 && AllAlnum(id) && NoNewline(query)
    ensures IsLenientTrackUrl(Prefix + id + query)
  {
    var s := Prefix + id + query;
    assert s[..|Prefix|] == Prefix;
    assert s[|Prefix|] == id[0];
    assert s[|Prefix| + 1..] == id[1..] + query;
  }

  // ---------------------------------------------------------------------------
  // The strict pattern of index.py and api/ftm.py: ^https://open\.spotify\.com/track/[a-zA-Z0-9]+$

  /** The strict pattern read literally, with Python's `$`: the id ends at `i`, where `$` matches. */
  ghost predicate MatchesStrictAsWritten(s: string) {
    StartsWithPrefix(s) &&
    exists i | |Prefix| < i <= |s| :: AllAlnum(s[|Prefix|..i]) && DollarAt(s, i)
  }

  /** The strict pattern as evidently intended (a full match): the prefix followed by one
      or more letters and digits and nothing else. */
  predicate IsStrictTrackUrl(s: string) {
    StartsWithPrefix(s) && |s| > |Prefix| && AllAlnum(s[|Prefix|..])
  }

  /** The strict pattern as written, as a direct check: the intended check, on the URL or on
      the URL without one final newline. */
  predicate IsStrictAsWritten(s: string) {
    IsStrictTrackUrl(s) || (|s| > 0 && s[|s| - 1] == '\n' && IsStrictTrackUrl(s[..|s| - 1]))
  }

  /** The direct check accepts exactly what the strict pattern as written matches. */
  lemma StrictAsWrittenCheckIsPattern(s: string)
    ensures IsStrictAsWritten(s) <==> MatchesStrictAsWritten(s)
  {
    StrictAsWrittenAdmitsFinalNewline(s);
  }

  /** On a line without a newline, the strict pattern as written and the intended check agree. */
  lemma StrictChecksAgreeWithoutNewline(s: string)
    requires NoNewline(s)
    ensures MatchesStrictAsWritten(s) <==> IsStrictTrackUrl(s)
  {
    StrictAsWrittenAdmitsFinalNewline(s);
  }

  /** The strict pattern as written matches what the intended check accepts, and also each
      of those URLs with one newline appended. */
  lemma StrictAsWrittenAdmitsFinalNewline(s: string)
    ensures MatchesStrictAsWritten(s) <==>
      IsStrictTrackUrl(s) || (|s| > 0 && s[|s| - 1] == '\n' && IsStrictTrackUrl(s[..|s| - 1]))
  {
    var p := |Prefix|;
    if IsStrictTrackUrl(s) {
      assert AllAlnum(s[p..|s|]) && DollarAt(s, |s|);
    }
    if |s| > 0 && s[|s| - 1] == '\n' && IsStrictTrackUrl(s[..|s| - 1]) {
      var t := s[..|s| - 1];
      assert t[..p] == s[..p];
      assert t[p..] == s[p..|s| - 1];
      assert AllAlnum(s[p..|s| - 1]) && DollarAt(s, |s| - 1);
    }
    if MatchesStrictAsWritten(s) {
      var i :| p < i <= |s| && AllAlnum(s[p..i]) && DollarAt(s, i);
      if i == |s| - 1 {
        var t := s[..|s| - 1];
        assert t[..p] == s[..p];
        assert t[p..] == s[p..i];
      }
    }
  }

  /** The input that shows it: the strict pattern as written accepts a track URL with a
      trailing newline, which the intended check rejects. */
  lemma StrictAsWrittenCounterexample()
    ensures MatchesStrictAsWritten(Prefix + "abc\n")
    ensures !IsStrictTrackUrl(Prefix + "abc\n")
  {
    var s := Prefix + "abc\n";
    assert s[..|s| - 1] == Prefix + "abc";
    StrictAsWrittenAdmitsFinalNewline(s);
    assert s[|Prefix|..][3] == '\n';
  }

  /** The intended strict check accepts exactly the prefix followed by a non-empty id. */
  lemma StrictIsPrefixAndId(id: string)
    ensures IsStrictTrackUrl(Prefix + id) <==> |id| >= 1 && AllAlnum(id)
  {
    assert (Prefix + id)[..|Prefix|] == Prefix;
    assert (Prefix + id)[|Prefix|..] == id;
  }

  /** Anything after the id (a query string, a slash) makes the strict check fail. */
  lemma StrictRejectsSuffix(id: string, rest: string)
    requires rest != "" && !IsAlnum(rest[0])
    ensures !IsStrictTrackUrl(Prefix + id + rest)
  {
    var s := Prefix + id + rest;
    assert s[|Prefix|..][|id|] == rest[0];
  }

  /** Every URL the strict check accepts, the lenient one accepts too. */
  lemma StrictImpliesLenient(s: string)
    requires IsStrictTrackUrl(s)
    ensures IsLenientTrackUrl(s)
  {
    var p := |Prefix|;
    assert IsAlnum(s[p..][0]);
    forall k | p + 1 <= k < |s| ensures s[k] != '\n' {
      assert IsAlnum(s[p..][k - p]);
    }
    assert NoNewline(s[p + 1..]);
  }
}
