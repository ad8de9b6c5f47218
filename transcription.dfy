/** The transcript schema, the recognition response it is built from, the
    normalisation that maps one onto the other, the request timeout and the
    guard on the HTTP status. */
module Transcription {
  import opened Wrappers
  import opened Decimal
  import opened Whitespace

  // ---- The recognition service's response, as parsed JSON. ----
  // A field of type Option is a key the service may leave out; `None` is the
  // key being absent, so `GetOr(d)` is `dict.get(key, d)`.

  datatype RawWord = RawWord(word: Option<string>, start: Option<real>, end: Option<real>)

  datatype RawSegment = RawSegment(
    start: Option<real>,
    end: Option<real>,
    text: Option<string>,
    words: Option<seq<RawWord>>)

  datatype RawResponse = RawResponse(
    language: Option<string>,
    duration: Option<real>,
    segments: Option<seq<RawSegment>>)

  // ---- The transcript document the program writes. ----

  datatype Word = Word(word: string, start: real, end: real)

  /** `words` is `None` when the segment has no `words` key at all. */
  datatype Segment = Segment(start: real, end: real, text: string, words: Option<seq<Word>>)

  datatype Transcript = Transcript(
    audioFile: string,
    language: string,
    duration: real,
    segments: seq<Segment>)

  const DefaultLanguage: string := "en"

  /** One entry of a segment's `words` list. */
  function NormaliseWord(w: RawWord): (r: Word)
    ensures w.word.Some? ==> r.word == w.word.value
    ensures w.word.None? ==> r.word == ""
    ensures w.start.Some? ==> r.start == w.start.value
    ensures w.start.None? ==> r.start == 0.0
    ensures w.end.Some? ==> r.end == w.end.value
    ensures w.end.None? ==> r.end == 0.0
  {
    Word(w.word.GetOr(""), w.start.GetOr(0.0), w.end.GetOr(0.0))
  }

  /** The list comprehension over a segment's `words`. */
  function NormaliseWords(ws: seq<RawWord>): (r: seq<Word>)
    ensures |r| == |ws|
    ensures forall k :: 0 <= k < |ws| ==> r[k] == NormaliseWord(ws[k])
  {
    seq(|ws|, k requires 0 <= k < |ws| => NormaliseWord(ws[k]))
  }

  /** One segment of the response, read with defaults and its text stripped. */
  function NormaliseSegment(s: RawSegment): (r: Segment)
    ensures s.start.Some? ==> r.start == s.start.value
    ensures s.start.None? ==> r.start == 0.0
    ensures s.end.Some? ==> r.end == s.end.value
    ensures s.end.None? ==> r.end == 0.0
    ensures s.text.Some? ==> r.text == Strip(s.text.value)
    ensures s.text.None? ==> r.text == ""
    ensures IsStripped(r.text)
    ensures r.words.Some? <==> s.words.Some?
    ensures s.words.Some? ==> r.words.value == NormaliseWords(s.words.value)
  {
    Segment(
      s.start.GetOr(0.0),
      s.end.GetOr(0.0),
      Strip(s.text.GetOr("")),
      match s.words
      case Some(ws) => Some(NormaliseWords(ws))
      case None => None)
  }

  /** The response's segments, each normalised, in the same order. */
  function NormaliseSegments(raw: seq<RawSegment>): (r: seq<Segment>)
    ensures |r| == |raw|
  {
    if raw == [] then []
    else NormaliseSegments(raw[..|raw| - 1]) + [NormaliseSegment(raw[|raw| - 1])]
  }

  lemma {:induction false} NormaliseSegmentsAt(raw: seq<RawSegment>, k: nat)
    requires k < |raw|
    ensures NormaliseSegments(raw)[k] == NormaliseSegment(raw[k])
  {
    if k < |raw| - 1 {
      NormaliseSegmentsAt(raw[..|raw| - 1], k);
    }
  }

  lemma NormaliseSegmentsSnoc(raw: seq<RawSegment>, k: nat)
    requires k < |raw|
    ensures NormaliseSegments(raw[..k + 1]) == NormaliseSegments(raw[..k]) + [NormaliseSegment(raw[k])]
  {
    assert raw[..k + 1][..k] == raw[..k];
  }

  /** The transcript a response yields: the specification of `Normalise`. */
  function NormalisedTranscript(audioFile: string, response: RawResponse): Transcript {
    Transcript(
      audioFile,
      response.language.GetOr(DefaultLanguage),
      response.duration.GetOr(0.0),
      NormaliseSegments(response.segments.GetOr([])))
  }

  /** Builds the transcript from a response by appending one normalised segment
      per response segment, in order. */
  method Normalise(audioFile: string, response: RawResponse) returns (t: Transcript)
    ensures t == NormalisedTranscript(audioFile, response)
  {
    t := Transcript(
      audioFile,
      response.language.GetOr(DefaultLanguage),
      response.duration.GetOr(0.0),
      []);
    var raw := response.segments.GetOr([]);
    for k := 0 to |raw|
      invariant t == NormalisedTranscript(audioFile, response).(segments := NormaliseSegments(raw[..k]))
    {
      var segment := NormaliseSegment(raw[k]);
      NormaliseSegmentsSnoc(raw, k);
      t := t.(segments := t.segments + [segment]);
    }
    assert raw[..|raw|] == raw;
  }

  /** The transcript has one segment per response segment, in the response's
      order, and takes the response's top-level fields or their defaults. */
  lemma NormalisedShape(audioFile: string, response: RawResponse)
    ensures var t := NormalisedTranscript(audioFile, response);
      && t.audioFile == audioFile
      && (response.language.Some? ==> t.language == response.language.value)
      && (response.language.None? ==> t.language == "en")
      && (response.duration.Some? ==> t.duration == response.duration.value)
      && (response.duration.None? ==> t.duration == 0.0)
      && (response.segments.None? ==> t.segments == [])
      && (response.segments.Some? ==> |t.segments| == |response.segments.value|)
  {
  }

  /** Per segment: every text is stripped, a present text that was already
      stripped is kept as it is, and `words` is present exactly when the
      response segment had it, with one word per response word in order. */
  lemma NormalisedSegments(audioFile: string, response: RawResponse, k: nat)
    requires response.segments.Some? && k < |response.segments.value|
    ensures var s := response.segments.value[k];
            var r := NormalisedTranscript(audioFile, response).segments[k];
      && (s.text.Some? ==> r.text == Strip(s.text.value))
      && (s.text.None? ==> r.text == "")
      && IsStripped(r.text)
      && (s.text.Some? && IsStripped(s.text.value) ==> r.text == s.text.value)
      && (s.text.Some? ==> |r.text| <= |s.text.value|)
      && (r.words.Some? <==> s.words.Some?)
      && (s.words.Some? ==>
            && |r.words.value| == |s.words.value|
            && forall n :: 0 <= n < |s.words.value| ==> r.words.value[n] == NormaliseWord(s.words.value[n]))
  {
    var s := response.segments.value[k];
    NormaliseSegmentsAt(response.segments.value, k);
    if s.text.Some? && IsStripped(s.text.value) {
      StripStripped(s.text.value);
    }
  }

  /** The transcript read back as a response: every key present. The document
      written to disk has the same keys as the service's response. */
  function AsResponse(t: Transcript): (r: RawResponse)
    ensures r.segments.Some? && |r.segments.value| == |t.segments|
  {
    RawResponse(
      Some(t.language),
      Some(t.duration),
      Some(seq(|t.segments|, k requires 0 <= k < |t.segments| => AsRawSegment(t.segments[k]))))
  }

  function AsRawWord(w: Word): RawWord {
    RawWord(Some(w.word), Some(w.start), Some(w.end))
  }

  function AsRawSegment(s: Segment): RawSegment {
    RawSegment(
      Some(s.start),
      Some(s.end),
      Some(s.text),
      match s.words
      case Some(ws) => Some(seq(|ws|, k requires 0 <= k < |ws| => AsRawWord(ws[k])))
      case None => None)
  }

  predicate AllStripped(t: Transcript) {
    forall k :: 0 <= k < |t.segments| ==> IsStripped(t.segments[k].text)
  }

  lemma NormaliseWordsFixed(ws: seq<Word>)
    ensures NormaliseWords(seq(|ws|, k requires 0 <= k < |ws| => AsRawWord(ws[k]))) == ws
  {
    var raw := seq(|ws|, k requires 0 <= k < |ws| => AsRawWord(ws[k]));
    var r := NormaliseWords(raw);
    forall n | 0 <= n < |ws| ensures r[n] == ws[n] {
      assert raw[n] == AsRawWord(ws[n]);
    }
  }

  lemma NormaliseSegmentFixed(s: Segment)
    requires IsStripped(s.text)
    ensures NormaliseSegment(AsRawSegment(s)) == s
  {
    StripStripped(s.text);
    if s.words.Some? {
      NormaliseWordsFixed(s.words.value);
    }
  }

  /** Normalising a written transcript, read back as a response, gives the
      same transcript: nothing is lost or altered in a second pass. */
  lemma {:induction false} NormaliseFixedPoint(t: Transcript)
    requires AllStripped(t)
    ensures NormalisedTranscript(t.audioFile, AsResponse(t)) == t
  {
    var raw := AsResponse(t).segments.value;
    var u := NormaliseSegments(raw);
    forall k | 0 <= k < |t.segments| ensures u[k] == t.segments[k] {
      NormaliseSegmentsAt(raw, k);
      NormaliseSegmentFixed(t.segments[k]);
    }
    assert u == t.segments;
  }

  /** Normalisation is idempotent. */
  lemma NormaliseIdempotent(audioFile: string, response: RawResponse)
    ensures var t := NormalisedTranscript(audioFile, response);
            NormalisedTranscript(audioFile, AsResponse(t)) == t
  {
    var t := NormalisedTranscript(audioFile, response);
    forall k | 0 <= k < |t.segments| ensures IsStripped(t.segments[k].text) {
      NormaliseSegmentsAt(response.segments.value, k);
    }
    NormaliseFixedPoint(t);
  }

  // ---- Request timeout ----

  const MiB: nat := 1024 * 1024

  /** `max(120, int(size_mb / 10 * 60) + 60)` in whole seconds, for a file of
      `bytes` bytes: a 60 s margin plus 6 s per MiB, never below 120 s. */
  function RequestTimeout(bytes: nat): (t: nat)
    ensures t >= 120
    ensures t >= bytes * 60 / (10 * MiB) + 60
    ensures t == 120 || t == bytes * 60 / (10 * MiB) + 60
  {
    var scaled := bytes * 60 / (10 * MiB) + 60;
    if scaled > 120 then scaled else 120
  }

  lemma DivMonotone(a: nat, b: nat, d: nat)
    requires a <= b && d > 0
    ensures a / d <= b / d
  {
    var qa, qb := a / d, b / d;
    assert qa * d <= a;
    assert b < (qb + 1) * d;
    if qa > qb {
      MulMonotone(qb + 1, qa, d);
    }
  }

  lemma MulMonotone(x: nat, y: nat, d: nat)
    requires x <= y
    ensures x * d <= y * d
  {
    assert y * d == x * d + (y - x) * d;
  }

  /** A larger file never gets a shorter timeout. */
  lemma TimeoutMonotone(a: nat, b: nat)
    requires a <= b
    ensures RequestTimeout(a) <= RequestTimeout(b)
  {
    DivMonotone(a * 60, b * 60, 10 * MiB);
  }

  /** The 120 s floor applies exactly to files below 61/6 MiB. */
  lemma TimeoutFloorIff(bytes: nat)
    ensures RequestTimeout(bytes) == 120 <==> bytes * 6 < 61 * MiB
  {
    var q := bytes * 60 / (10 * MiB);
    assert bytes * 60 == q * (10 * MiB) + bytes * 60 % (10 * MiB);
  }

  lemma TimeoutExamples()
    ensures RequestTimeout(100 * MiB) == 660
    ensures RequestTimeout(MiB) == 120
  {
    assert 100 * MiB * 60 / (10 * MiB) == 600;
    assert MiB * 60 / (10 * MiB) == 6;
  }

  // ---- The HTTP status guard ----

  /** The error raised when the service does not answer 200. */
  function UpstreamError(status: nat, body: string): string {
    "Fireworks API error " + Show(status) + ": " + body
  }

  /** The part of `transcribe` after the upload: a non-200 status is an error
      carrying the status and the body verbatim; otherwise the parsed response
      is normalised. */
  method Transcribe(audioFile: string, status: nat, body: string, response: RawResponse)
    returns (r: Result<Transcript, string>)
    ensures r.Failure? <==> status != 200
    ensures r.Failure? ==> r.error == UpstreamError(status, body)
    ensures r.Success? ==> r.value == NormalisedTranscript(audioFile, response)
  {
    if status != 200 {
      return Failure(UpstreamError(status, body));
    }
    var t := Normalise(audioFile, response);
    return Success(t);
  }

  lemma SliceOfConcat(a: string, b: string, c: string)
    ensures (a + b + c)[|a|..|a| + |b|] == b
    ensures (a + b + c)[|a| + |b|..] == c
  {
  }

  /** The error message names the status and ends with the body unchanged. */
  lemma UpstreamErrorCarries(status: nat, body: string)
    ensures var e := UpstreamError(status, body);
            var n := |Show(status)|;
            |e| == 22 + n + |body|
            && e[22 + n..] == body
            && Decimal.Parse(e[20..20 + n]) == Some(status)
  {
    var prefix, code := "Fireworks API error ", Show(status);
    assert |prefix| == 20;
    assert UpstreamError(status, body) == prefix + code + (": " + body);
    SliceOfConcat(prefix, code, ": " + body);
    SliceOfConcat(prefix + code, ": ", body);
    ShowRoundTrip(status);
  }
}
