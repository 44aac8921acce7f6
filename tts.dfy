/** The `/tts` endpoint of app.py and the parameter formatting of
    `generate_edge_tts`: the request body is validated, the pitch, rate and
    gap are rendered in the forms the speech service expects, and the audio it
    returns is sent back. The speech service itself is a parameter. */
module Tts {
  import opened Wrappers
  import opened Decimal

  type byte = x: int | 0 <= x < 256

  const DefaultVoice: string := "en-US-JennyNeural"
  const MaxTextLength: nat := 1000
  const AudioMimeType: string := "audio/mpeg"
  const AudioDisposition: string := "attachment; filename=speech.mp3"
  const AnyOrigin: string := "*"
  const SpeakOpen: string := "<speak><break time=\""
  const BreakClose: string := "ms\"/>"
  const SpeakClose: string := "</speak>"

  /** The JSON body of a request; a field that is absent is `None`. Only
      integer pitch, rate and gap values are modelled. */
  datatype TtsBody = TtsBody(
    text: Option<string>,
    voice: Option<string>,
    pitch: Option<int>,
    rate: Option<int>,
    gap: Option<int>)

  /** The arguments given to `edge_tts.Communicate`. */
  datatype SpeechRequest = SpeechRequest(text: string, voice: string, pitch: string, rate: string)

  /** The replies of the endpoint and of the rate-limit decorator around it.
      `RateLimited` is the 429 JSON body; its `"error"` field is always
      `"Rate limit exceeded"`, so the constructor stands for it and only the
      fields that vary are kept. */
  datatype Response =
    | JsonError(status: int, error: string)
    | Audio(data: seq<byte>, mimeType: string, allowOrigin: string, disposition: string)
    | RateLimited(message: string, waitTime: int, tryAgain: string)
    | InternalServerError

  function Status(r: Response): int
  {
    match r
    case JsonError(status, _) => status
    case Audio(_, _, _, _) => 200
    case RateLimited(_, _, _) => 429
    case InternalServerError => 500
  }

  function GetOr<T>(o: Option<T>, default: T): T
  {
    if o.Some? then o.value else default
  }

  /** `+{n}` for a number that is not negative, `{n}` (with its minus sign)
      otherwise: the sign is always written. */
  function Signed(n: int): (r: string)
    ensures |r| >= 2
    ensures r[0] == '+' <==> n >= 0
    ensures r[0] == '-' <==> n < 0
  {
    if n >= 0 then "+" + IntString(n) else IntString(n)
  }

  /** Reads back a signed number. */
  function ParseSigned(s: string): Option<int>
  {
    if s != [] && s[0] == '+' then
      match ParseInt(s[1..])
      case Some(n) => if n >= 0 then Some(n) else None
      case None => None
    else if s != [] && s[0] == '-' then ParseInt(s)
    else None
  }

  /** `pitch_str`: the pitch in hertz with its sign. */
  function PitchString(pitch: int): string
  {
    Signed(pitch) + "Hz"
  }

  /** `rate_str`: the rate change in percent with its sign. */
  function RateString(rate: int): string
  {
    Signed(rate) + "%"
  }

  /** The signed rendering reads back to the number. */
  lemma SignedRoundTrip(n: int)
    ensures ParseSigned(Signed(n)) == Some(n)
  {
    ParseIntString(n);
    if n >= 0 {
      assert Signed(n)[1..] == IntString(n);
    }
  }

  /** The pitch and rate strings are the signed number and their unit, so the
      number can be read back from them. */
  lemma SpeechParameters(pitch: int, rate: int)
    ensures PitchString(pitch)[..|PitchString(pitch)| - 2] == Signed(pitch)
    ensures PitchString(pitch)[|PitchString(pitch)| - 2..] == "Hz"
    ensures RateString(rate)[..|RateString(rate)| - 1] == Signed(rate)
    ensures RateString(rate)[|RateString(rate)| - 1] == '%'
    ensures ParseSigned(PitchString(pitch)[..|PitchString(pitch)| - 2]) == Some(pitch)
    ensures ParseSigned(RateString(rate)[..|RateString(rate)| - 1]) == Some(rate)
  {
    SignedRoundTrip(pitch);
    SignedRoundTrip(rate);
  }

  /** The SSML that opens a gap of `gap` milliseconds. */
  function GapOpen(gap: int): string
  {
    SpeakOpen + IntString(gap) + BreakClose
  }

  /** A positive gap wraps the text in SSML with a silence before it; any
      other gap leaves the text as it is. */
  function WrapGap(text: string, gap: int): (r: string)
    ensures gap <= 0 ==> r == text
    ensures gap > 0 ==> |r| > |text|
  {
    if gap > 0 then GapOpen(gap) + text + SpeakClose else text
  }

  /** The number of leading digits of `s`. */
  function DigitRun(s: string): (n: nat)
    ensures n <= |s| && AllDigits(s[..n])
    ensures n < |s| ==> !IsDigit(s[n])
  {
    if s == [] || !IsDigit(s[0]) then 0
    else
      var n := DigitRun(s[1..]);
      assert s[..n + 1] == [s[0]] + s[1..][..n];
      n + 1
  }

  /** Splits text made by `WrapGap` with a positive gap back into the gap and
      the text; `None` for anything not of that form. */
  function UnwrapGap(s: string): Option<(int, string)>
  {
    if |s| < |SpeakOpen| || s[..|SpeakOpen|] != SpeakOpen then None
    else UnwrapAfterOpen(s[|SpeakOpen|..])
  }

  /** The rest of `UnwrapGap` once the opening tag has been read. */
  function UnwrapAfterOpen(rest: string): Option<(int, string)>
  {
    var n := DigitRun(rest);
    var after := rest[n..];
    if n == 0 || |after| < |BreakClose| + |SpeakClose| || after[..|BreakClose|] != BreakClose
      || after[|after| - |SpeakClose|..] != SpeakClose then None
    else
      var gap := ParseNat(rest[..n]);
      if gap > 0 then Some((gap as int, after[|BreakClose|..|after| - |SpeakClose|])) else None
  }

  lemma DigitRunPrefix(d: string, t: string)
    requires d != [] && AllDigits(d)
    requires t != [] && !IsDigit(t[0])
    ensures DigitRun(d + t) == |d|
    decreases |d|
  {
    if |d| > 1 {
      assert (d + t)[1..] == d[1..] + t;
      DigitRunPrefix(d[1..], t);
    } else {
      assert (d + t)[1..] == t;
    }
  }

  /** Wrapping with a positive gap can be undone: both the gap and the text
      come back. */
  lemma WrapGapRoundTrip(text: string, gap: int)
    requires gap > 0
    ensures UnwrapGap(WrapGap(text, gap)) == Some((gap, text))
  {
    var digits := NatString(gap);
    var tail := BreakClose + text + SpeakClose;
    var s := WrapGap(text, gap);
    assert s == SpeakOpen + (digits + tail);
    assert s[..|SpeakOpen|] == SpeakOpen;
    assert s[|SpeakOpen|..] == digits + tail;
    ParseNatString(gap);
    UnwrapDigits(digits, text);
  }

  lemma UnwrapDigits(digits: string, text: string)
    requires digits != [] && AllDigits(digits) && ParseNat(digits) > 0
    ensures UnwrapAfterOpen(digits + (BreakClose + text + SpeakClose))
      == Some((ParseNat(digits) as int, text))
  {
    var tail := BreakClose + text + SpeakClose;
    var rest := digits + tail;
    DigitRunPrefix(digits, tail);
    assert rest[..|digits|] == digits;
    assert rest[|digits|..] == tail;
    assert tail[..|BreakClose|] == BreakClose;
    assert tail[|tail| - |SpeakClose|..] == SpeakClose;
    assert tail[|BreakClose|..|tail| - |SpeakClose|] == text;
  }

  /** What `generate_edge_tts` hands to the speech service. */
  function SpeechFor(text: string, voice: string, pitch: int, rate: int, gap: int): SpeechRequest
  {
    SpeechRequest(WrapGap(text, gap), voice, PitchString(pitch), RateString(rate))
  }

  /** The request the endpoint makes for a body, with the defaults for absent
      fields. */
  function RequestFor(body: TtsBody): SpeechRequest
  {
    SpeechFor(GetOr(body.text, ""), GetOr(body.voice, DefaultVoice),
              GetOr(body.pitch, 0), GetOr(body.rate, 0), GetOr(body.gap, 0))
  }

  /** The text of a body is present, not empty and at most 1000 characters. */
  predicate ValidText(b: TtsBody)
  {
    0 < |GetOr(b.text, "")| <= MaxTextLength
  }

  /** The endpoint. `body` is the parsed JSON or the message of the exception
      raised while reading it; `synthesize` is the speech service, giving the
      audio or the message of the exception it raised. */
  function TtsEndpoint(body: Result<TtsBody, string>,
                       synthesize: SpeechRequest -> Result<seq<byte>, string>): (r: Response)
    ensures Status(r) == 200 || Status(r) == 400 || Status(r) == 500
    ensures Status(r) == 200 ==>
      (r.Audio? && r.data != [] && r.mimeType == "audio/mpeg"
       && r.allowOrigin == "*" && r.disposition == "attachment; filename=speech.mp3")
    ensures Status(r) == 400 <==> body.Success? && !ValidText(body.value)
    ensures Status(r) == 500 <==>
      (body.Failure? ||
       (ValidText(body.value) && (synthesize(RequestFor(body.value)).Failure?
                                  || synthesize(RequestFor(body.value)).value == [])))
    ensures body.Failure? ==> r == JsonError(500, body.error)
    ensures body.Success? && GetOr(body.value.text, "") == [] ==>
      r == JsonError(400, "No text provided")
    ensures body.Success? && |GetOr(body.value.text, "")| > MaxTextLength ==>
      r == JsonError(400, "Text too long (max 1000 chars)")
    ensures body.Success? && ValidText(body.value) && synthesize(RequestFor(body.value)).Failure? ==>
      r == JsonError(500, synthesize(RequestFor(body.value)).error)
    ensures body.Success? && ValidText(body.value) && synthesize(RequestFor(body.value)) == Success([]) ==>
      r == JsonError(500, "Failed to generate audio")
  {
    match body
    case Failure(e) => JsonError(500, e)
    case Success(b) =>
      var text := GetOr(b.text, "");
      if text == [] then JsonError(400, "No text provided")
      else if |text| > MaxTextLength then JsonError(400, "Text too long (max 1000 chars)")
      else
        match synthesize(RequestFor(b))
        case Failure(e) => JsonError(500, e)
        case Success(audio) =>
          if audio == [] then JsonError(500, "Failed to generate audio")
          else Audio(audio, AudioMimeType, AnyOrigin, AudioDisposition)
  }

  /** A request is answered with audio exactly when the body was read, its
      text is present and at most 1000 characters long, and the speech service
      returned some audio; the audio is then exactly what the service returned
      for the request built from the body. */
  lemma TtsSucceeds(body: Result<TtsBody, string>,
                    synthesize: SpeechRequest -> Result<seq<byte>, string>)
    ensures Status(TtsEndpoint(body, synthesize)) == 200 <==>
      && body.Success?
      && 0 < |GetOr(body.value.text, "")| <= MaxTextLength
      && synthesize(RequestFor(body.value)).Success?
      && synthesize(RequestFor(body.value)).value != []
    ensures TtsEndpoint(body, synthesize).Audio? ==>
      TtsEndpoint(body, synthesize).data == synthesize(RequestFor(body.value)).value
  {
  }

  /** Invalid text is refused with 400 before the speech service is asked,
      whatever it would answer. */
  lemma TtsValidatesFirst(b: TtsBody,
                          s1: SpeechRequest -> Result<seq<byte>, string>,
                          s2: SpeechRequest -> Result<seq<byte>, string>)
    requires GetOr(b.text, "") == [] || |GetOr(b.text, "")| > MaxTextLength
    ensures TtsEndpoint(Success(b), s1) == TtsEndpoint(Success(b), s2)
    ensures Status(TtsEndpoint(Success(b), s1)) == 400
  {
  }

  /** A body holding only text asks for the default voice, no pitch or rate
      change and no gap. */
  lemma DefaultsApplied(text: string)
    ensures RequestFor(TtsBody(Some(text), None, None, None, None))
      == SpeechRequest(text, "en-US-JennyNeural", "+0Hz", "+0%")
  {
  }
}
