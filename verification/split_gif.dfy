/** `extractFrames` (splitGif.ts): sniff the format, decode with the matching
    decoder, refuse an empty frame list, select ten keyframes.

    The two decoders are parameters: each takes the whole buffer and either
    yields its frames or fails with the decoder's message. */
module SplitGif {
  import opened Results
  import opened Signatures
  import opened Frames
  import opened Keyframes

  /** The ways `extractFrames` can throw. */
  datatype ExtractError =
    | UnsupportedFormat
    | DecodeFailed(reason: string)
    | NoFrames

  /** The message each thrown `Error` carries; a decoder failure carries the
      decoder's own message. */
  function Message(e: ExtractError): (m: string)
    ensures e.DecodeFailed? ==> m == e.reason
    ensures !e.DecodeFailed? ==> m in {"Unsupported image format", "No frames extracted"}
    ensures e == UnsupportedFormat <==> !e.DecodeFailed? && m == "Unsupported image format"
  {
    match e
    case UnsupportedFormat => "Unsupported image format"
    case DecodeFailed(reason) => reason
    case NoFrames => "No frames extracted"
  }

  type GifDecoder = Bytes -> Result<seq<GifFrame>, string>
  type ApngDecoder = Bytes -> Result<ApngData, string>

  /** The decode step: the GIF path or the APNG path, chosen by the sniffer,
      with delays normalised by that path's rule. */
  function DecodeFrames(buffer: Bytes, format: Format, decodeGif: GifDecoder, decodeApng: ApngDecoder)
    : (r: Result<seq<Frame>, ExtractError>)
    ensures format == Gif && decodeGif(buffer).Success? ==>
              r == Success(GifFrames(decodeGif(buffer).value))
    ensures format == Png && decodeApng(buffer).Success? ==>
              r == Success(ApngFrames(decodeApng(buffer).value))
    ensures format == Gif && decodeGif(buffer).Failure? ==> r == Failure(DecodeFailed(decodeGif(buffer).error))
    ensures format == Png && decodeApng(buffer).Failure? ==> r == Failure(DecodeFailed(decodeApng(buffer).error))
  {
    match format
    case Gif =>
      (match decodeGif(buffer)
       case Success(gs) => Success(GifFrames(gs))
       case Failure(e) => Failure(DecodeFailed(e)))
    case Png =>
      (match decodeApng(buffer)
       case Success(d) => Success(ApngFrames(d))
       case Failure(e) => Failure(DecodeFailed(e)))
  }

  /** `extractFrames`: ten keyframes, or the error it throws. */
  function ExtractFrames(buffer: Bytes, decodeGif: GifDecoder, decodeApng: ApngDecoder)
    : (r: Result<seq<Bytes>, ExtractError>)
    ensures r == Failure(UnsupportedFormat) <==> !IsGif(buffer) && !IsPng(buffer)
    ensures r.Success? ==> |r.value| == KeyframeCount
    ensures r.Success? ==>
              && Sniff(buffer).Some?
              && var frames := DecodeFrames(buffer, Sniff(buffer).value, decodeGif, decodeApng);
              && frames.Success? && |frames.value| > 0
              && forall i :: 0 <= i < KeyframeCount ==>
                   exists k :: 0 <= k < |frames.value| && r.value[i] == frames.value[k].buffer
    ensures r == Failure(NoFrames) <==>
              && Sniff(buffer).Some?
              && DecodeFrames(buffer, Sniff(buffer).value, decodeGif, decodeApng) == Success([])
    ensures Sniff(buffer).Some? && DecodeFrames(buffer, Sniff(buffer).value, decodeGif, decodeApng).Failure? ==>
              r == Failure(DecodeFrames(buffer, Sniff(buffer).value, decodeGif, decodeApng).error)
    ensures Sniff(buffer).Some? ==>
              var frames := DecodeFrames(buffer, Sniff(buffer).value, decodeGif, decodeApng);
              frames.Success? && |frames.value| > 0 ==> r == Success(SelectKeyframes(frames.value))
  {
    var format :- Sniff(buffer).ToResult(UnsupportedFormat);
    var frames :- DecodeFrames(buffer, format, decodeGif, decodeApng);
    if |frames| == 0 then Failure(NoFrames)
    else
      KeyframesComeFromInput(frames);
      Success(SelectKeyframes(frames))
  }

  /** A GIF whose decoder succeeds with frames of raw delays yields the
      keyframes of those frames at ten times the delay; with no frames it
      fails with "No frames extracted". */
  lemma ExtractGif(buffer: Bytes, decodeGif: GifDecoder, decodeApng: ApngDecoder)
    requires IsGif(buffer)
    requires decodeGif(buffer).Success?
    ensures var gs := decodeGif(buffer).value;
            && (|gs| == 0 ==> Message(ExtractFrames(buffer, decodeGif, decodeApng).error) == "No frames extracted")
            && (|gs| > 0 ==> ExtractFrames(buffer, decodeGif, decodeApng) == Success(SelectKeyframes(GifFrames(gs))))
  {
  }

  /** A PNG-signed buffer goes to the APNG decoder, and a non-empty APNG
      never has a zero total duration. */
  lemma ExtractApng(buffer: Bytes, decodeGif: GifDecoder, decodeApng: ApngDecoder)
    requires IsPng(buffer)
    requires decodeApng(buffer).Success? && |decodeApng(buffer).value.frames| > 0
    ensures ExtractFrames(buffer, decodeGif, decodeApng) == Success(SelectKeyframes(ApngFrames(decodeApng(buffer).value)))
    ensures TotalDuration(ApngFrames(decodeApng(buffer).value)) > 0
  {
  }

  /** An unrecognised buffer is refused before any decoder runs: the result
      is the same whatever the decoders would do. */
  lemma UnsupportedIgnoresDecoders(buffer: Bytes, g1: GifDecoder, a1: ApngDecoder, g2: GifDecoder, a2: ApngDecoder)
    requires !IsGif(buffer) && !IsPng(buffer)
    ensures ExtractFrames(buffer, g1, a1) == ExtractFrames(buffer, g2, a2)
    ensures Message(ExtractFrames(buffer, g1, a1).error) == "Unsupported image format"
  {
  }
}
