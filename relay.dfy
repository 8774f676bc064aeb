/** The content-decoding relay, `decompress_response`, one definition for its three
    identical copies (ftm.py, index.py, api/ftm.py).  The brotli, gzip and zstd
    decompressors are an abstract partial `Decoder`; the response's `.text` (the body as
    text under the charset the HTTP client guesses) is the abstract `rawText`. */
module Relay {
  import opened Wrappers
  import opened Utf8
  import Text

  datatype Codec = Brotli | Gzip | Zstd

  /** A decompressor per codec: the decompressed bytes, or None where the library raises. */
  type Decoder = (Codec, Bytes) -> Option<Bytes>

  /** One decompressor invocation and the bytes it was given. */
  datatype Step = Step(codec: Codec, input: Bytes)

  /** What walking the tokens did: the invocations in the order made, and the bytes left
      at the end, or None when an invocation failed. */
  datatype Chain = Chain(steps: seq<Step>, output: Option<Bytes>)

  /** The codec a stripped token names; the comparison is exact (so `GZIP` names none). */
  function CodecFor(token: string): Option<Codec> {
    if token == "br" then Some(Brotli)
    else if token == "gzip" then Some(Gzip)
    else if token == "zstd" then Some(Zstd)
    else None
  }

  /** The codecs the header names, in header order, with every other token dropped. */
  function Named(tokens: seq<string>): seq<Codec> {
    if tokens == [] then []
    else match CodecFor(Text.Strip(tokens[0]))
      case None => Named(tokens[1..])
      case Some(c) => [c] + Named(tokens[1..])
  }

  /** The `for` loop of decompress_response as a fold: each known token's decoder is
      applied to the previous stage's output; the first failure ends the walk. */
  function Run(tokens: seq<string>, data: Bytes, decode: Decoder): Chain {
    if tokens == [] then Chain([], Some(data))
    else match CodecFor(Text.Strip(tokens[0]))
      case None => Run(tokens[1..], data, decode)
      case Some(c) =>
        match decode(c, data)
        case None => Chain([Step(c, data)], None)
        case Some(next) =>
          Prepend(Step(c, data), Run(tokens[1..], next, decode))
  }

  /** The whole relay: the header is split on ',' (an absent header reads as ""); the
      single empty piece returns the raw text; otherwise the decoders run in header
      order, and any decoder failure or a final UTF-8 failure returns the raw text. */
  function Decompress(header: string, raw: Bytes, decode: Decoder, rawText: Bytes -> string): (text: string)
    ensures text == rawText(raw) || exists out :: Run(Text.Split(header, ','), raw, decode).output == Some(out) && Utf8.Decode(out) == Some(text)
  {
    var encodings := Text.Split(header, ',');
    if encodings == [""] then rawText(raw)
    else match Run(encodings, raw, decode).output
      case None => rawText(raw)
      case Some(data) =>
        match Utf8.Decode(data)
        case None => rawText(raw)
        case Some(s) => s
  }

  /** decompress_response as the source writes it: a loop that reassigns `data` and
      returns the raw text from inside the loop on the first decoder failure. */
  method DecompressResponse(header: string, raw: Bytes, decode: Decoder, rawText: Bytes -> string)
    returns (text: string)
    ensures text == Decompress(header, raw, decode, rawText)
  {
    var encodings := Text.Split(header, ',');
    var data := raw;
    if encodings == [""] {
      return rawText(raw);
    }
    for i := 0 to |encodings|
      invariant Run(encodings, raw, decode).output == Run(encodings[i..], data, decode).output
    {
      var encoding := Text.Strip(encodings[i]);
      assert encodings[i..][1..] == encodings[i + 1..];
      var codec := CodecFor(encoding);
      if codec.Some? {
        var out := decode(codec.value, data);
        if out.None? {
          return rawText(raw);
        }
        data := out.value;
      }
    }
    var decoded := Utf8.Decode(data);
    if decoded.None? {
      return rawText(raw);
    }
    return decoded.value;
  }

  // ---------------------------------------------------------------------------
  // Properties of the walk

  /** `ch` invokes a prefix of `named` in order, the first invocation sees `data`, each
      later one its predecessor's output, and the output is the last invocation's result;
      when it succeeded it invoked every codec of `named`. */
  predicate FollowsHeader(ch: Chain, named: seq<Codec>, data: Bytes, decode: Decoder) {
    && |ch.steps| <= |named|
    && (forall i | 0 <= i < |ch.steps| :: ch.steps[i].codec == named[i])
    && (|ch.steps| > 0 ==> ch.steps[0].input == data)
    && (forall i | 0 <= i < |ch.steps| - 1 ::
          decode(ch.steps[i].codec, ch.steps[i].input) == Some(ch.steps[i + 1].input))
    && ch.output == (if ch.steps == [] then Some(data)
                     else decode(ch.steps[|ch.steps| - 1].codec, ch.steps[|ch.steps| - 1].input))
    && (ch.output.Some? ==> |ch.steps| == |named|)
  }

  /** The walk makes its invocations in header order: the codecs invoked are a prefix of
      the codecs the header names, the first sees the raw data, each later one sees its
      predecessor's output, and the result is the last invocation's result.  It invokes
      every named codec when no invocation fails. */
  lemma {:induction false} RunFollowsHeader(tokens: seq<string>, data: Bytes, decode: Decoder)
    ensures FollowsHeader(Run(tokens, data, decode), Named(tokens), data, decode)
  {
    if tokens != [] {
      match CodecFor(Text.Strip(tokens[0]))
      case None =>
        RunFollowsHeader(tokens[1..], data, decode);
      case Some(c) =>
        match decode(c, data)
        case None =>
        case Some(next) =>
          RunFollowsHeader(tokens[1..], next, decode);
          FollowsHeaderPrepend(c, data, next, Run(tokens[1..], next, decode), Named(tokens[1..]), decode);
    }
  }

  /** One successful invocation in front of a walk that follows the rest of the header. */
  lemma FollowsHeaderPrepend(c: Codec, data: Bytes, next: Bytes, ch: Chain, named: seq<Codec>, decode: Decoder)
    requires decode(c, data) == Some(next)
    requires FollowsHeader(ch, named, next, decode)
    ensures FollowsHeader(Prepend(Step(c, data), ch), [c] + named, data, decode)
  {
    var steps := [Step(c, data)] + ch.steps;
    assert forall i | 0 < i < |steps| :: steps[i] == ch.steps[i - 1];
  }

  /** Walking `a + b` is walking `a` and then, if that succeeded, walking `b` on its output:
      the decoders are composed in header order and never re-sorted. */
  lemma {:induction false} RunAppend(a: seq<string>, b: seq<string>, data: Bytes, decode: Decoder)
    ensures Run(a + b, data, decode) == Then(Run(a, data, decode), b, decode)
  {
    if a == [] {
      assert a + b == b;
    } else {
      var tail := a[1..];
      assert (a + b)[1..] == tail + b;
      assert (a + b)[0] == a[0];
      var k := CodecFor(Text.Strip(a[0]));
      if k.None? {
        assert Run(a + b, data, decode) == Run(tail + b, data, decode);
        assert Run(a, data, decode) == Run(tail, data, decode);
        RunAppend(tail, b, data, decode);
      } else if decode(k.value, data).Some? {
        var next := decode(k.value, data).value;
        RunAppend(tail, b, next, decode);
        assert Run(a + b, data, decode) == Prepend(Step(k.value, data), Run(tail + b, next, decode));
        assert Run(a, data, decode) == Prepend(Step(k.value, data), Run(tail, next, decode));
      }
    }
  }

  /** Continue a walk that stopped at `first` with the tokens `b`. */
  function Then(first: Chain, b: seq<string>, decode: Decoder): Chain {
    match first.output
    case None => first
    case Some(mid) => Prepend'(first.steps, Run(b, mid, decode))
  }

  function Prepend(s: Step, ch: Chain): Chain { Chain([s] + ch.steps, ch.output) }

  function Prepend'(s: seq<Step>, ch: Chain): Chain { Chain(s + ch.steps, ch.output) }

  /** Tokens naming no known codec (`deflate`, the empty token, `GZIP`, ...) change nothing:
      the walk over the whole header equals the walk over its known tokens alone. */
  lemma {:induction false} UnknownTokensPassThrough(tokens: seq<string>, data: Bytes, decode: Decoder)
    ensures Run(tokens, data, decode) == Run(Known(tokens), data, decode)
  {
    if tokens != [] {
      UnknownTokensPassThrough(tokens[1..], data, decode);
      match CodecFor(Text.Strip(tokens[0]))
      case None =>
      case Some(c) =>
        assert Known(tokens) == [tokens[0]] + Known(tokens[1..]);
        assert Known(tokens)[1..] == Known(tokens[1..]);
        match decode(c, data)
        case None =>
        case Some(next) =>
          UnknownTokensPassThrough(tokens[1..], next, decode);
    }
  }

  /** The tokens that name a known codec, in header order. */
  function Known(tokens: seq<string>): (r: seq<string>)
    ensures forall t | t in r :: t in tokens && CodecFor(Text.Strip(t)).Some?
  {
    if tokens == [] then []
    else if CodecFor(Text.Strip(tokens[0])).Some? then [tokens[0]] + Known(tokens[1..])
    else Known(tokens[1..])
  }

  /** A header of unknown tokens only never reaches a decoder. */
  lemma {:induction false} NoKnownTokenNoStep(tokens: seq<string>, data: Bytes, decode: Decoder)
    requires forall i | 0 <= i < |tokens| :: CodecFor(Text.Strip(tokens[i])).None?
    ensures Run(tokens, data, decode) == Chain([], Some(data))
  {
    if tokens != [] {
      NoKnownTokenNoStep(tokens[1..], data, decode);
    }
  }

  // ---------------------------------------------------------------------------
  // Properties of the relay

  /** An absent or empty header returns the raw text, whatever the decoders would do. */
  lemma EmptyHeaderIsRawText(raw: Bytes, d1: Decoder, d2: Decoder, rawText: Bytes -> string)
    ensures Decompress("", raw, d1, rawText) == rawText(raw)
    ensures Decompress("", raw, d1, rawText) == Decompress("", raw, d2, rawText)
  {
  }

  /** Only the exactly empty header short-cuts: a non-empty header of unknown tokens (a
      blank, `deflate`, `,`) skips every decoder and returns the raw body decoded as UTF-8,
      falling back to the raw text only if that fails. */
  lemma UnknownHeaderIsUtf8OfRaw(header: string, raw: Bytes, decode: Decoder, rawText: Bytes -> string)
    requires header != ""
    requires forall t | t in Text.Split(header, ',') :: CodecFor(Text.Strip(t)).None?
    ensures Decompress(header, raw, decode, rawText) ==
      match Utf8.Decode(raw) case Some(s) => s case None => rawText(raw)
  {
    Text.SplitIsEmptyPiece(header, ',');
    var tokens := Text.Split(header, ',');
    assert forall i | 0 <= i < |tokens| :: tokens[i] in tokens;
    NoKnownTokenNoStep(tokens, raw, decode);
  }

  /** The fallback is the whole raw body: when some decoder fails the relay returns exactly
      the raw text, never a partially decoded buffer; the decoders after it are not run. */
  lemma DecoderFailureIsRawText(header: string, raw: Bytes, decode: Decoder, rawText: Bytes -> string)
    requires Run(Text.Split(header, ','), raw, decode).output.None?
    ensures Decompress(header, raw, decode, rawText) == rawText(raw)
    ensures var ch := Run(Text.Split(header, ','), raw, decode);
      |ch.steps| >= 1 && decode(ch.steps[|ch.steps| - 1].codec, ch.steps[|ch.steps| - 1].input).None?
  {
    RunFollowsHeader(Text.Split(header, ','), raw, decode);
  }

  /** On success the relay returns the UTF-8 text of the fully decoded bytes, and otherwise
      the raw text: it never fails and never returns anything else. */
  lemma DecodedTextOrRawText(header: string, raw: Bytes, decode: Decoder, rawText: Bytes -> string)
    requires header != ""
    ensures var out := Run(Text.Split(header, ','), raw, decode).output;
      Decompress(header, raw, decode, rawText) ==
        if out.Some? && Utf8.Decode(out.value).Some? then Utf8.Decode(out.value).value else rawText(raw)
  {
    Text.SplitIsEmptyPiece(header, ',');
  }

  /** The header `"br, gzip"` runs brotli on the raw body first and gzip on brotli's output
      second, in the order written, whether or not that is the order that would succeed. */
  lemma HeaderOrderIsKept(raw: Bytes, decode: Decoder)
    requires decode(Brotli, raw).Some?
    ensures Run(Text.Split("br, gzip", ','), raw, decode).steps == [Step(Brotli, raw), Step(Gzip, decode(Brotli, raw).value)]
  {
    BrGzipTokens();
    var next := decode(Brotli, raw).value;
    RunKnownToken("br", [" gzip"], Brotli, raw, decode);
    RunKnownToken(" gzip", [], Gzip, next, decode);
  }

  /** A known first token invokes its decoder on the data before anything else happens. */
  lemma RunKnownToken(t: string, rest: seq<string>, c: Codec, data: Bytes, decode: Decoder)
    requires CodecFor(Text.Strip(t)) == Some(c)
    ensures Run([t] + rest, data, decode) ==
      match decode(c, data)
      case None => Chain([Step(c, data)], None)
      case Some(next) => Prepend(Step(c, data), Run(rest, next, decode))
  {
    assert ([t] + rest)[0] == t && ([t] + rest)[1..] == rest;
  }

  /** The tokens of `"br, gzip"`, each of which names its codec once stripped. */
  lemma BrGzipTokens()
    ensures Text.Split("br, gzip", ',') == ["br"] + [" gzip"]
    ensures CodecFor(Text.Strip("br")) == Some(Brotli)
    ensures CodecFor(Text.Strip(" gzip")) == Some(Gzip)
  {
    BrGzipSplit();
    StripBr();
    StripGzip();
  }

  lemma BrGzipSplit()
    ensures Text.Split("br, gzip", ',') == ["br"] + [" gzip"]
  {
    assert "br, gzip" == "br" + [','] + " gzip";
    Text.SplitAtFirstSep("br", ',', " gzip");
    Text.SplitWithoutSep(" gzip", ',');
  }

  lemma StripBr()
    ensures Text.Strip("br") == "br"
  {
    Text.StripPadded("", "br", "");
    assert "" + "br" + "" == "br";
  }

  lemma StripGzip()
    ensures Text.Strip(" gzip") == "gzip"
  {
    Text.StripPadded(" ", "gzip", "");
    assert " " + "gzip" + "" == " gzip";
  }
}
