/** `print_transcript`: the lines printed for a transcript, each line being
    the argument of one `print` call. */
module Console {
  import opened Wrappers
  import opened Decimal
  import opened Timestamp
  import opened Transcription

  /** `'=' * 60` */
  const Rule: string := "============================================================"

  /** The five lines printed before the segments. */
  function Banner(t: Transcript): (b: seq<string>)
    ensures |b| == 5
  {
    [ "\n" + Rule,
      "TRANSCRIPT",
      "Duration: " + FormatSeconds(t.duration) + "  |  Language: " + t.language,
      "Segments: " + Show(|t.segments|),
      Rule + "\n" ]
  }

  /** The banner shows the rules, the duration as `format_timestamp` renders
      it (reading back to its whole seconds), the language, and the number of
      segments in decimal. */
  lemma BannerContents(t: Transcript)
    ensures var b, d, n := Banner(t), FormatSeconds(t.duration), |t.segments|;
      && b[0] == "\n" + Rule && b[1] == "TRANSCRIPT" && b[4] == Rule + "\n"
      && |b[2]| == 10 + |d| + 15 + |t.language|
      && b[2][..10] == "Duration: " && b[2][10..10 + |d|] == d
      && b[2][10 + |d|..10 + |d| + 15] == "  |  Language: "
      && b[2][10 + |d| + 15..] == t.language
      && (t.duration >= 0.0 ==> Timestamp.Parse(b[2][10..10 + |d|]) == Some(Truncate(t.duration)))
      && b[3][..10] == "Segments: " && Decimal.Parse(b[3][10..]) == Some(n)
  {
    var b, d, n := Banner(t), FormatSeconds(t.duration), |t.segments|;
    var x, y := "Duration: ", "  |  Language: ";
    assert b[2] == x + d + (y + t.language);
    SliceOfConcat(x, d, y + t.language);
    SliceOfConcat(x + d, y, t.language);
    assert (x + d + (y + t.language))[..10] == x;
    assert b[3] == "Segments: " + Show(n);
    SliceOfConcat("Segments: ", Show(n), []);
    assert "Segments: " + Show(n) + [] == b[3];
    ShowRoundTrip(n);
    if t.duration >= 0.0 {
      FormatRoundTrip(Truncate(t.duration));
    }
  }

  /** One segment as printed: `[<start> -> <end>]  <text>`. */
  function SegmentLine(s: Segment): string {
    "[" + FormatSeconds(s.start) + " -> " + FormatSeconds(s.end) + "]  " + s.text
  }

  /** The segment lines of `print_transcript`, one per segment, in order. */
  function SegmentLines(segments: seq<Segment>): (r: seq<string>)
    ensures |r| == |segments|
  {
    if segments == [] then []
    else SegmentLines(segments[..|segments| - 1]) + [SegmentLine(segments[|segments| - 1])]
  }

  lemma {:induction false} SegmentLinesAt(segments: seq<Segment>, k: nat)
    requires k < |segments|
    ensures SegmentLines(segments)[k] == SegmentLine(segments[k])
  {
    if k < |segments| - 1 {
      SegmentLinesAt(segments[..|segments| - 1], k);
    }
  }

  lemma SegmentLinesSnoc(segments: seq<Segment>, k: nat)
    requires k < |segments|
    ensures SegmentLines(segments[..k + 1]) == SegmentLines(segments[..k]) + [SegmentLine(segments[k])]
  {
    assert segments[..k + 1][..k] == segments[..k];
  }

  /** The printed text, one entry per `print` call: the banner, then one line
      per segment in order, then a closing rule. */
  method PrintTranscript(t: Transcript) returns (lines: seq<string>)
    ensures lines == Banner(t) + SegmentLines(t.segments) + ["\n" + Rule]
  {
    var body := [];
    for k := 0 to |t.segments|
      invariant body == SegmentLines(t.segments[..k])
    {
      var line := SegmentLine(t.segments[k]);
      SegmentLinesSnoc(t.segments, k);
      body := body + [line];
    }
    assert t.segments[..|t.segments|] == t.segments;
    lines := Banner(t) + body + ["\n" + Rule];
  }

  /** Line `5 + k` of the output is the line of segment `k`. */
  lemma PrintedSegment(t: Transcript, lines: seq<string>, k: nat)
    requires lines == Banner(t) + SegmentLines(t.segments) + ["\n" + Rule]
    requires k < |t.segments|
    ensures |lines| == 6 + |t.segments|
    ensures lines[5 + k] == SegmentLine(t.segments[k])
  {
    SegmentLinesAt(t.segments, k);
    ConcatAt(Banner(t), SegmentLines(t.segments), ["\n" + Rule], k);
  }

  lemma ConcatAt<T>(a: seq<T>, m: seq<T>, e: seq<T>, k: nat)
    requires k < |m|
    ensures |a + m + e| == |a| + |m| + |e| && (a + m + e)[|a| + k] == m[k]
  {
  }

  // ---- Reading a segment line back ----

  /** The first position of `c` in `s`. */
  function IndexOf(s: string, c: char): (r: Option<nat>)
    ensures r.Some? ==> r.value < |s| && s[r.value] == c && c !in s[..r.value]
    ensures r.None? ==> c !in s
  {
    if s == [] then None
    else if s[0] == c then Some(0)
    else
      match IndexOf(s[1..], c)
      case Some(i) =>
        assert s[..i + 1] == [s[0]] + s[1..][..i];
        Some(i + 1)
      case None => None
  }

  lemma IndexOfAt(x: string, c: char, y: string)
    requires c !in x
    ensures IndexOf(x + [c] + y, c) == Some(|x|)
  {
    var s := x + [c] + y;
    assert s[|x|] == c;
    assert s[..|x|] == x;
  }

  /** Characters a timestamp is made of: digits and the unit letters. */
  predicate IsClockChar(c: char) {
    IsDigit(c) || c == 'h' || c == 'm' || c == 's'
  }

  predicate ClockText(s: string) {
    forall i :: 0 <= i < |s| ==> IsClockChar(s[i])
  }

  lemma {:induction false} DigitsAreClockText(s: string)
    requires AllDigits(s)
    ensures ClockText(s)
  {
    if s != [] {
      DigitsAreClockText(s[..|s| - 1]);
      assert forall i :: 0 <= i < |s| - 1 ==> s[i] == s[..|s| - 1][i];
    }
  }

  lemma ClockTextJoin(a: string, unit: char, b: string)
    requires ClockText(a) && IsClockChar(unit) && ClockText(b)
    ensures ClockText(a + [unit] + b)
  {
    var s := a + [unit] + b;
    forall i | 0 <= i < |s| ensures IsClockChar(s[i]) {
      if i < |a| { assert s[i] == a[i]; }
      else if i > |a| { assert s[i] == b[i - |a| - 1]; }
    }
  }

  lemma FormatAlphabet(total: int)
    ensures ClockText(Format(total))
  {
    var c := Decompose(total);
    ShowDigits(c.minutes);
    Pad2Digits(c.minutes);
    Pad2Digits(c.seconds);
    DigitsAreClockText(Show(c.minutes));
    DigitsAreClockText(Pad2(c.minutes));
    DigitsAreClockText(Pad2(c.seconds));
    var secs := Pad2(c.seconds) + "s";
    ClockTextJoin(Pad2(c.seconds), 's', []);
    assert Pad2(c.seconds) + ['s'] + [] == secs;
    if c.hours > 0 {
      var head := Show(c.hours) + "h" + Pad2(c.minutes);
      ShowDigits(c.hours);
      DigitsAreClockText(Show(c.hours));
      ClockTextJoin(Show(c.hours), 'h', Pad2(c.minutes));
      ClockTextJoin(head, 'm', secs);
      assert Format(total) == head + ['m'] + secs;
    } else {
      ClockTextJoin(Show(c.minutes), 'm', secs);
      assert Format(total) == Show(c.minutes) + ['m'] + secs;
    }
  }

  /** Splits a printed line into its start, end and text; `None` when the
      line does not have the shape of `SegmentLine`. */
  function ParseLine(line: string): Option<(nat, nat, string)> {
    if line == [] || line[0] != '[' then None
    else
      match IndexOf(line, ']')
      case None => None
      case Some(k) =>
        var inner := line[1..k];
        match IndexOf(inner, ' ')
        case None => None
        case Some(p) =>
          if p + 4 <= |inner| && inner[p..p + 4] == " -> " && k + 3 <= |line| && line[k..k + 3] == "]  " then
            match Timestamp.Parse(inner[..p])
            case None => None
            case Some(a) =>
              match Timestamp.Parse(inner[p + 4..])
              case None => None
              case Some(b) => Some((a, b, line[k + 3..]))
          else None
  }

  lemma LineParts(a: string, b: string, text: string)
    requires ClockText(a) && ClockText(b)
    ensures var line := "[" + a + " -> " + b + "]  " + text;
            var k := 1 + |a| + 4 + |b|;
      && IndexOf(line, ']') == Some(k)
      && line[1..k] == a + " -> " + b
      && line[k..k + 3] == "]  "
      && line[k + 3..] == text
  {
    var line := "[" + a + " -> " + b + "]  " + text;
    var x := "[" + a + " -> " + b;
    assert line == x + [']'] + ("  " + text);
    assert ']' !in x by {
      forall i | 0 <= i < |x| ensures x[i] != ']' {
        if 1 <= i < 1 + |a| { assert x[i] == a[i - 1]; }
        else if 1 + |a| + 4 <= i { assert x[i] == b[i - 1 - |a| - 4]; }
      }
    }
    IndexOfAt(x, ']', "  " + text);
  }

  lemma InnerParts(a: string, b: string)
    requires ClockText(a)
    ensures var inner := a + " -> " + b;
      && IndexOf(inner, ' ') == Some(|a|)
      && inner[|a|..|a| + 4] == " -> "
      && inner[..|a|] == a
      && inner[|a| + 4..] == b
  {
    var inner := a + " -> " + b;
    assert inner == a + [' '] + ("-> " + b);
    assert ' ' !in a by {
      forall i | 0 <= i < |a| ensures a[i] != ' ' { assert IsClockChar(a[i]); }
    }
    IndexOfAt(a, ' ', "-> " + b);
  }

  lemma ParseLineOf(a: string, b: string, text: string)
    requires ClockText(a) && ClockText(b)
    requires Timestamp.Parse(a).Some? && Timestamp.Parse(b).Some?
    ensures ParseLine("[" + a + " -> " + b + "]  " + text)
            == Some((Timestamp.Parse(a).value, Timestamp.Parse(b).value, text))
  {
    var line := "[" + a + " -> " + b + "]  " + text;
    var k := 1 + |a| + 4 + |b|;
    LineParts(a, b, text);
    InnerParts(a, b);
    ParseLineSteps(line, k, |a|);
  }

  lemma ParseLineSteps(line: string, k: nat, p: nat)
    requires line != [] && line[0] == '[' && IndexOf(line, ']') == Some(k)
    requires IndexOf(line[1..k], ' ') == Some(p)
    requires p + 4 <= |line[1..k]| && line[1..k][p..p + 4] == " -> "
    requires k + 3 <= |line| && line[k..k + 3] == "]  "
    requires Timestamp.Parse(line[1..k][..p]).Some? && Timestamp.Parse(line[1..k][p + 4..]).Some?
    ensures ParseLine(line) == Some((Timestamp.Parse(line[1..k][..p]).value,
                                     Timestamp.Parse(line[1..k][p + 4..]).value,
                                     line[k + 3..]))
  {
  }

  /** A printed segment line gives back the whole seconds of its start and
      end and its text unchanged, so no two segments that differ in those are
      printed alike. */
  lemma {:induction false} SegmentLineRoundTrip(s: Segment)
    requires s.start >= 0.0 && s.end >= 0.0
    ensures ParseLine(SegmentLine(s)) == Some((Truncate(s.start), Truncate(s.end), s.text))
  {
    var a, b := FormatSeconds(s.start), FormatSeconds(s.end);
    FormatAlphabet(Truncate(s.start));
    FormatAlphabet(Truncate(s.end));
    FormatRoundTrip(Truncate(s.start));
    FormatRoundTrip(Truncate(s.end));
    ParseLineOf(a, b, s.text);
  }

  lemma ExampleTimestamps()
    ensures FormatSeconds(0.0) == "0m00s"
    ensures FormatSeconds(15.0) == "0m15s"
  {
    assert Show(0) == "0" && Show(5) == "5" && Show(15) == "15";
  }

  lemma ExampleTimestamp30()
    ensures FormatSeconds(30.0) == "0m30s"
  {
    assert Show(0) == "0" && Show(3) == "3" && Show(30) == "30";
  }

  lemma ExampleHelloSegment()
    ensures NormaliseSegment(RawSegment(Some(0.0), Some(15.0), Some(" hello"), None))
            == Segment(0.0, 15.0, "hello", None)
  {
    Whitespace.StripUnique(" hello", 1, 6);
  }

  lemma ExampleWorldSegment()
    ensures NormaliseSegment(RawSegment(Some(15.0), Some(30.0), Some(" world"), None))
            == Segment(15.0, 30.0, "world", None)
  {
    Whitespace.StripUnique(" world", 1, 6);
  }

  lemma ExampleHelloLine()
    ensures SegmentLine(Segment(0.0, 15.0, "hello", None)) == "[0m00s -> 0m15s]  hello"
  {
    ExampleTimestamps();
  }

  lemma ExampleWorldLine()
    ensures SegmentLine(Segment(15.0, 30.0, "world", None)) == "[0m15s -> 0m30s]  world"
  {
    ExampleTimestamps();
    ExampleTimestamp30();
  }

  lemma SegmentLinesPair(a: Segment, b: Segment)
    ensures SegmentLines([a, b]) == [SegmentLine(a), SegmentLine(b)]
  {
    assert [a, b][..1] == [a];
    assert [a][..0] == [];
  }

  lemma NormalisedPair(audioFile: string, language: Option<string>, duration: Option<real>, a: RawSegment, b: RawSegment)
    ensures var t := NormalisedTranscript(audioFile, RawResponse(language, duration, Some([a, b])));
            t.segments == [NormaliseSegment(a), NormaliseSegment(b)]
  {
    assert [a, b][..1] == [a] && [a][..0] == [];
    assert NormaliseSegments([a]) == [NormaliseSegment(a)];
    assert NormaliseSegments([a, b]) == NormaliseSegments([a]) + [NormaliseSegment(b)];
  }

  /** Two segments of a 30-second clip, as the service would return them, are
      printed as `[0m00s -> 0m15s]  hello` and `[0m15s -> 0m30s]  world`. */
  lemma TwoSegmentExample()
    ensures var hello := RawSegment(Some(0.0), Some(15.0), Some(" hello"), None);
            var world := RawSegment(Some(15.0), Some(30.0), Some(" world"), None);
            var t := NormalisedTranscript("clip.wav", RawResponse(Some("en"), Some(30.0), Some([hello, world])));
      && t.duration == 30.0
      && SegmentLines(t.segments) == ["[0m00s -> 0m15s]  hello", "[0m15s -> 0m30s]  world"]
  {
    var hello := RawSegment(Some(0.0), Some(15.0), Some(" hello"), None);
    var world := RawSegment(Some(15.0), Some(30.0), Some(" world"), None);
    NormalisedPair("clip.wav", Some("en"), Some(30.0), hello, world);
    ExampleHelloSegment();
    ExampleWorldSegment();
    SegmentLinesPair(Segment(0.0, 15.0, "hello", None), Segment(15.0, 30.0, "world", None));
    ExampleHelloLine();
    ExampleWorldLine();
  }
}
