/**
 * The two rendering helpers of `TranscriptService`: `_format_duration`, which
 * spells a number of seconds out in Japanese units, and `_format_transcript`,
 * which puts the header block above the cleaned text.
 */
module Render {
  import opened Wrappers
  import opened Text

  // ---------------------------------------------------------------------------
  // _format_duration

  /** How the number of seconds is broken up: which branch of `_format_duration` applies, with its numbers. */
  datatype Clock =
    | Seconds(count: int)
    | MinutesSeconds(mins: nat, secs: nat)
    | HoursMinutesSeconds(hours: nat, mins: nat, secs: nat)

  /** The number of seconds a breakdown stands for. */
  function Total(c: Clock): int {
    match c
    case Seconds(s) => s
    case MinutesSeconds(m, s) => m * 60 + s
    case HoursMinutesSeconds(h, m, s) => h * 3600 + m * 60 + s
  }

  /**
   * The breakdown `_format_duration` computes: under a minute the number is
   * printed as it is (negative numbers included); under an hour as minutes and
   * seconds; otherwise as hours, minutes and seconds. Every part after the
   * first is below 60 and the breakdown adds up to the input.
   */
  function SplitDuration(seconds: int): (c: Clock)
    ensures Total(c) == seconds
    ensures c.Seconds? <==> seconds < 60
    ensures c.MinutesSeconds? <==> 60 <= seconds < 3600
    ensures c.MinutesSeconds? ==> 1 <= c.mins < 60 && c.secs < 60
    ensures c.HoursMinutesSeconds? ==> c.hours >= 1 && c.mins < 60 && c.secs < 60
  {
    if seconds < 60 then Seconds(seconds)
    else if seconds < 3600 then MinutesSeconds(seconds / 60, seconds % 60)
    else
      var r := seconds % 3600;
      assert seconds == (seconds / 3600) * 3600 + r;
      assert r == (r / 60) * 60 + r % 60;
      assert r % 60 == seconds % 60 by {
        assert seconds == ((seconds / 3600) * 60 + r / 60) * 60 + r % 60;
      }
      HoursMinutesSeconds(seconds / 3600, r / 60, seconds % 60)
  }

  /** The f-string of each branch. */
  function ClockText(c: Clock): string {
    match c
    case Seconds(s) => IntToString(s) + "秒"
    case MinutesSeconds(m, s) => NatToString(m) + "分" + NatToString(s) + "秒"
    case HoursMinutesSeconds(h, m, s) => NatToString(h) + "時間" + NatToString(m) + "分" + NatToString(s) + "秒"
  }

  /** What `_format_duration(seconds)` returns. */
  function FormatDuration(seconds: int): string {
    ClockText(SplitDuration(seconds))
  }

  predicate AllDigits(s: string) {
    forall i :: 0 <= i < |s| ==> IsDigit(s[i])
  }

  /** Reads a decimal integer with an optional minus sign. */
  function ParseInt(s: string): Option<int> {
    if s != [] && s[0] == '-' && AllDigits(s[1..]) then Some(-(ParseNat(s[1..]) as int))
    else if AllDigits(s) then Some(ParseNat(s))
    else None
  }

  /** Reads a duration text back into seconds: the reference the rendering is checked against. */
  function ParseDuration(t: string): Option<int> {
    if t == [] || t[|t| - 1] != '秒' then None else ParseBody(t[..|t| - 1])
  }

  /** The text before the final `秒`: a bare integer, or minutes, `分` and seconds. */
  function ParseBody(body: string): Option<int> {
    match IndexOf(body, '分')
    case None => ParseInt(body)
    case Some(k) =>
      var secs := body[k + 1..];
      if !AllDigits(secs) then None
      else match ParseMinutes(body[..k])
        case None => None
        case Some(m) => Some(m * 60 + ParseNat(secs))
  }

  /** The text before `分`, as a number of minutes: bare minutes, or hours, `時間` and minutes. */
  function ParseMinutes(front: string): Option<int> {
    match IndexOf(front, '時')
    case None => if AllDigits(front) then Some(ParseNat(front)) else None
    case Some(j) =>
      if j + 1 < |front| && front[j + 1] == '間' && AllDigits(front[..j]) && AllDigits(front[j + 2..])
      then Some(ParseNat(front[..j]) * 60 + ParseNat(front[j + 2..]))
      else None
  }

  lemma DigitsLackUnit(s: string, c: char)
    requires AllDigits(s) && !IsDigit(c)
    ensures c !in s
  {
  }

  lemma ParseIntOfInt(i: int)
    ensures ParseInt(IntToString(i)) == Some(i)
  {
    if i < 0 {
      ParseIntOfNegative(-i);
    } else {
      var s := NatToString(i);
      assert IsDigit(s[0]) && s[0] != '-' && AllDigits(s);
      ParseNatToString(i);
    }
  }

  lemma ParseIntOfNegative(n: nat)
    ensures ParseInt("-" + NatToString(n)) == Some(-(n as int))
  {
    var d := NatToString(n);
    var s := "-" + d;
    assert s[0] == '-' && s[1..] == d;
    assert AllDigits(d);
    ParseNatToString(n);
  }

  lemma ParseSecondsText(s: int)
    requires s < 60
    ensures ParseDuration(ClockText(Seconds(s))) == Some(s)
  {
    var t := ClockText(Seconds(s));
    var a := IntToString(s);
    assert t[..|t| - 1] == a;
    forall i | 0 <= i < |a| ensures a[i] != '分' {
      if s < 0 && i > 0 {
        assert a[i] == NatToString(-s)[i - 1];
      }
    }
    assert IndexOf(a, '分') == None;
    ParseIntOfInt(s);
  }

  /** Minutes, `分` and the seconds read back as the total, once the minutes part reads back. */
  lemma ParseBodyOfMinutes(front: string, v: int, s: nat)
    requires '分' !in front && ParseMinutes(front) == Some(v)
    ensures ParseBody(front + "分" + NatToString(s)) == Some(v * 60 + s)
  {
    var d := NatToString(s);
    var body := front + "分" + d;
    IndexOfAt(body, '分', |front|);
    assert body[|front| + 1..] == d && body[..|front|] == front;
    ParseNatToString(s);
  }

  lemma ParseMinutesOfMinutes(m: nat)
    ensures ParseMinutes(NatToString(m)) == Some(m)
  {
    DigitsLackUnit(NatToString(m), '時');
    ParseNatToString(m);
  }

  lemma ParseMinutesOfHours(h: nat, m: nat)
    ensures ParseMinutes(NatToString(h) + "時間" + NatToString(m)) == Some(h * 60 + m)
  {
    var a, b := NatToString(h), NatToString(m);
    var front := a + "時間" + b;
    HoursFront(a, b);
    ParseNatToString(h);
    ParseNatToString(m);
    ParseMinutesAt(front, |a|, h, m);
  }

  /** Where the pieces of `a時間b` sit. */
  lemma HoursFront(a: string, b: string)
    requires AllDigits(a) && AllDigits(b)
    ensures var front := a + "時間" + b;
      && IndexOf(front, '時') == Some(|a|) && |a| + 1 < |front| && front[|a| + 1] == '間'
      && front[..|a|] == a && front[|a| + 2..] == b
  {
    var front := a + "時間" + b;
    DigitsLackUnit(a, '時');
    assert front[..|a|] == a;
    IndexOfAt(front, '時', |a|);
    assert front[|a| + 2..] == b;
  }

  lemma ParseMinutesAt(front: string, j: nat, h: nat, m: nat)
    requires IndexOf(front, '時') == Some(j) && j + 1 < |front| && front[j + 1] == '間'
    requires AllDigits(front[..j]) && AllDigits(front[j + 2..])
    requires ParseNat(front[..j]) == h && ParseNat(front[j + 2..]) == m
    ensures ParseMinutes(front) == Some(h * 60 + m)
  {
  }

  lemma ParseMinutesText(m: nat, s: nat)
    ensures ParseDuration(ClockText(MinutesSeconds(m, s))) == Some(m * 60 + s)
  {
    var t := ClockText(MinutesSeconds(m, s));
    var a := NatToString(m);
    assert t[..|t| - 1] == a + "分" + NatToString(s);
    DigitsLackUnit(a, '分');
    ParseMinutesOfMinutes(m);
    ParseBodyOfMinutes(a, m, s);
  }

  lemma ParseHoursText(h: nat, m: nat, s: nat)
    ensures ParseDuration(ClockText(HoursMinutesSeconds(h, m, s))) == Some(h * 3600 + m * 60 + s)
  {
    var t := ClockText(HoursMinutesSeconds(h, m, s));
    var a, b := NatToString(h), NatToString(m);
    var front := a + "時間" + b;
    assert t[..|t| - 1] == front + "分" + NatToString(s);
    DigitsLackUnit(a, '分');
    DigitsLackUnit(b, '分');
    assert '分' !in front;
    ParseMinutesOfHours(h, m);
    ParseBodyOfMinutes(front, h * 60 + m, s);
    assert (h * 60 + m) * 60 + s == h * 3600 + m * 60 + s;
  }

  /**
   * The rendering loses nothing: reading the text back gives the number of
   * seconds, so different durations are always rendered differently.
   */
  lemma ParseFormatDuration(seconds: int)
    ensures ParseDuration(FormatDuration(seconds)) == Some(seconds)
  {
    match SplitDuration(seconds)
    case Seconds(s) => ParseSecondsText(s);
    case MinutesSeconds(m, s) => ParseMinutesText(m, s);
    case HoursMinutesSeconds(h, m, s) => ParseHoursText(h, m, s);
  }

  /** Different numbers of seconds never render to the same text. */
  lemma FormatDurationInjective(a: int, b: int)
    requires FormatDuration(a) == FormatDuration(b)
    ensures a == b
  {
    ParseFormatDuration(a);
    ParseFormatDuration(b);
  }

  lemma FormatDurationExamples()
    ensures FormatDuration(0) == "0秒"
    ensures FormatDuration(65) == "1分5秒"
    ensures FormatDuration(3661) == "1時間1分1秒"
    ensures FormatDuration(-5) == "-5秒"
  {
    assert NatToString(0) == "0" && NatToString(1) == "1" && NatToString(5) == "5";
  }

  // ---------------------------------------------------------------------------
  // _format_transcript

  /** The `video_info` fields the rendering reads; `duration` is `None` when yt-dlp reported none. */
  datatype VideoInfo = VideoInfo(title: string, duration: Option<int>)

  /** The dictionary `_parse_subtitle_file` returns: the extracted text, the language label and the subtitle kind. */
  datatype SubtitleData = SubtitleData(text: string, language: string, kind: string)

  /** The reported duration, 0 when there is none. */
  function DurationOf(info: VideoInfo): int {
    match info.duration
    case None => 0
    case Some(d) => d
  }

  /** The label printed next to the language: only the kind `auto` counts as generated. */
  function KindLabel(kind: string): string {
    if kind == "auto" then "自動生成" else "手動"
  }

  const Banner: string := "=== YouTube動画yt-dlpトランスクリプト ==="
  const ContentMarker: string := "--- 内容 ---"

  /** The header lines above the content, in template order. */
  function HeaderLines(info: VideoInfo, sub: SubtitleData, url: string): seq<string> {
    [ Banner,
      "タイトル: " + info.title,
      "URL: " + url,
      "言語: " + sub.language + " (" + KindLabel(sub.kind) + ")",
      "時間: " + FormatDuration(DurationOf(info)),
      ContentMarker ]
  }

  /** What `_format_transcript(video_info, subtitle_data, url)` returns: the template's header lines, each ended by a line break, then the text. */
  function FormatTranscript(info: VideoInfo, sub: SubtitleData, url: string): string {
    Prefixed(HeaderLines(info, sub, url), sub.text)
  }

  /** Lines put in front of a text, each followed by a line break. */
  function Prefixed(lines: seq<string>, rest: string): string
    decreases |lines|
  {
    if lines == [] then rest else lines[0] + "\n" + Prefixed(lines[1..], rest)
  }

  lemma DurationHasNoBreak(seconds: int)
    ensures '\n' !in FormatDuration(seconds)
  {
    var c := SplitDuration(seconds);
    match c
    case Seconds(s) =>
      if s < 0 {
        assert forall i :: 1 <= i < |IntToString(s)| ==> IntToString(s)[i] == NatToString(-s)[i - 1];
      }
    case MinutesSeconds(m, s) =>
    case HoursMinutesSeconds(h, m, s) =>
  }

  lemma {:induction false} SplitPrefixed(lines: seq<string>, rest: string)
    requires forall i :: 0 <= i < |lines| ==> '\n' !in lines[i]
    ensures Split(Prefixed(lines, rest), '\n') == lines + Split(rest, '\n')
    decreases |lines|
  {
    if lines != [] {
      var tail := Prefixed(lines[1..], rest);
      forall i | 0 <= i < |lines[1..]| ensures '\n' !in lines[1..][i] {
        assert lines[1..][i] == lines[i + 1];
      }
      SplitPrefixed(lines[1..], rest);
      SplitAfterLine(lines[0], tail);
      ConsConcat(lines, Split(rest, '\n'));
    }
  }

  lemma SplitAfterLine(line: string, tail: string)
    requires '\n' !in line
    ensures Split(line + "\n" + tail, '\n') == [line] + Split(tail, '\n')
  {
    assert line + "\n" + tail == line + ['\n'] + tail;
    SplitConcat(line, tail, '\n');
    SplitWithoutSep(line, '\n');
  }

  lemma ConsConcat<T>(xs: seq<T>, ys: seq<T>)
    requires xs != []
    ensures [xs[0]] + (xs[1..] + ys) == xs + ys
  {
    assert xs == [xs[0]] + xs[1..];
  }

  /**
   * The transcript is the header block followed by the text verbatim: when the
   * title, the URL and the language label hold no line break, its lines are
   * the six header lines and then the lines of the text.
   */
  lemma TranscriptLines(info: VideoInfo, sub: SubtitleData, url: string)
    requires '\n' !in info.title && '\n' !in url && '\n' !in sub.language
    ensures Split(FormatTranscript(info, sub, url), '\n') == HeaderLines(info, sub, url) + Split(sub.text, '\n')
  {
    HeaderLinesHaveNoBreak(info, sub, url);
    SplitPrefixed(HeaderLines(info, sub, url), sub.text);
  }

  /** None of the header lines holds a line break when the title, the URL and the language label hold none. */
  lemma HeaderLinesHaveNoBreak(info: VideoInfo, sub: SubtitleData, url: string)
    requires '\n' !in info.title && '\n' !in url && '\n' !in sub.language
    ensures forall i :: 0 <= i < |HeaderLines(info, sub, url)| ==> '\n' !in HeaderLines(info, sub, url)[i]
  {
    var d := FormatDuration(DurationOf(info));
    DurationHasNoBreak(DurationOf(info));
    LabelsHaveNoBreak();
    assert '\n' !in KindLabel(sub.kind);
    assert '\n' !in "時間: " + d;
    assert '\n' !in "言語: " + sub.language + " (" + KindLabel(sub.kind) + ")";
    assert '\n' !in "タイトル: " + info.title && '\n' !in "URL: " + url;
  }

  /** The fixed parts of the header. */
  lemma LabelsHaveNoBreak()
    ensures '\n' !in Banner && '\n' !in ContentMarker
    ensures '\n' !in "タイトル: " && '\n' !in "URL: " && '\n' !in "言語: " && '\n' !in "時間: "
    ensures '\n' !in " (" && '\n' !in ")" && '\n' !in "自動生成" && '\n' !in "手動"
  {
  }

  /** The text ends the transcript unchanged, right after the content marker line. */
  lemma TranscriptEndsWithContent(info: VideoInfo, sub: SubtitleData, url: string)
    ensures EndsWith(FormatTranscript(info, sub, url), ContentMarker + "\n" + sub.text)
    ensures StartsWith(FormatTranscript(info, sub, url), Banner + "\n")
  {
    PrefixedEnds(HeaderLines(info, sub, url), sub.text);
  }

  lemma {:induction false} PrefixedEnds(lines: seq<string>, rest: string)
    requires lines != []
    ensures EndsWith(Prefixed(lines, rest), lines[|lines| - 1] + "\n" + rest)
    decreases |lines|
  {
    if |lines| > 1 {
      PrefixedEnds(lines[1..], rest);
    }
  }
}
