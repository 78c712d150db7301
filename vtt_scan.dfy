/**
 * The VTT reader of `TranscriptService._extract_text_from_vtt`: the four
 * tag-removing substitutions that clean a caption line, the classification
 * of a stripped line, and the line-by-line scan driven by the `skip_next` flag.
 */
module VttScan {
  import opened Wrappers
  import opened Text

  // ---------------------------------------------------------------------------
  // Regular-expression substitutions of the line cleaner

  /** The four patterns the cleaner removes, in the order it applies them. */
  datatype Pattern =
    | AnyTag          // any tag: `<`, one or more characters other than `>`, then `>`
    | TimestampTag    // an in-cue time stamp in angle brackets, hours to milliseconds
    | CueClassTag     // an opening class tag, `<c` up to the next `>`
    | CueClassClose   // the closing class tag

  /** `s` begins with `shape`, where 'D' in the shape stands for one decimal digit. */
  predicate MatchesShape(s: string, shape: string) {
    |shape| <= |s|
    && forall i :: 0 <= i < |shape| ==> if shape[i] == 'D' then IsDigit(s[i]) else s[i] == shape[i]
  }

  const TimingShape := "DD:DD:DD.DDD --> DD:DD:DD.DDD"
  const TimestampTagShape := "<DD:DD:DD.DDD>"

  /**
   * Length of the match of `p` anchored at the front of `s`, or 0 when there is
   * none. No pattern matches the empty string, and every match is `<...>`.
   */
  function MatchLength(p: Pattern, s: string): (n: nat)
    ensures n <= |s|
    ensures n > 0 ==> n >= 3 && s[0] == '<' && s[n - 1] == '>'
  {
    match p
    case AnyTag =>
      if |s| >= 2 && s[0] == '<' then
        match IndexOf(s[1..], '>')
        case Some(k) => if k >= 1 then k + 2 else 0
        case None => 0
      else 0
    case TimestampTag =>
      if MatchesShape(s, TimestampTagShape) then |TimestampTagShape| else 0
    case CueClassTag =>
      if |s| >= 2 && s[0] == '<' && s[1] == 'c' then
        match IndexOf(s[2..], '>')
        case Some(k) => k + 3
        case None => 0
      else 0
    case CueClassClose =>
      if StartsWith(s, "</c>") then 4 else 0
  }

  /** Substituting `p` by nothing: remove the leftmost non-overlapping matches, scanning left to right. */
  function Remove(p: Pattern, s: string): string
    decreases |s|
  {
    if s == [] then []
    else if MatchLength(p, s) > 0 then Remove(p, s[MatchLength(p, s)..])
    else [s[0]] + Remove(p, s[1..])
  }

  /** Length of the match of `p` starting at position `i` of `s`. */
  function MatchAt(p: Pattern, s: string, i: nat): nat
    requires i <= |s|
  {
    MatchLength(p, s[i..])
  }

  /** No match of `p` starts anywhere in `s`. */
  predicate Free(p: Pattern, s: string) {
    forall i :: 0 <= i < |s| ==> MatchAt(p, s, i) == 0
  }

  /** The four substitutions of the cleaner, in the order they are applied. */
  function CleanLine(line: string): string {
    Remove(CueClassClose, Remove(CueClassTag, Remove(TimestampTag, Remove(AnyTag, line))))
  }

  /** Each of the later three patterns only matches what the any-tag pattern matches too. */
  lemma EveryMatchIsTag(p: Pattern, s: string)
    requires MatchLength(p, s) > 0
    ensures MatchLength(AnyTag, s) > 0
  {
    var n := MatchLength(p, s);
    assert s[1] != '>' by {
      match p
      case AnyTag =>
      case TimestampTag => assert TimestampTagShape[1] == 'D';
      case CueClassTag =>
      case CueClassClose => assert s[..4] == "</c>";
    }
    assert s[1..][n - 2] == '>';
    var k := IndexOf(s[1..], '>');
    assert k.Some?;
    assert k.value != 0;
  }

  lemma FreeOfTagsIsFree(p: Pattern, s: string)
    requires Free(AnyTag, s)
    ensures Free(p, s)
  {
    forall i | 0 <= i < |s| ensures MatchAt(p, s, i) == 0 {
      assert MatchAt(AnyTag, s, i) == 0;
      if MatchLength(p, s[i..]) > 0 {
        EveryMatchIsTag(p, s[i..]);
      }
    }
  }

  /** Substituting a pattern that does not occur changes nothing. */
  lemma {:induction false} RemoveFree(p: Pattern, s: string)
    requires Free(p, s)
    ensures Remove(p, s) == s
    decreases |s|
  {
    if s != [] {
      assert MatchAt(p, s, 0) == 0;
      assert s[0..] == s;
      assert Free(p, s[1..]) by {
        forall i | 0 <= i < |s[1..]| ensures MatchAt(p, s[1..], i) == 0 {
          assert s[1..][i..] == s[i + 1..];
          assert MatchAt(p, s, i + 1) == 0;
        }
      }
      RemoveFree(p, s[1..]);
    }
  }

  /** A substitution never introduces a character. */
  lemma {:induction false} RemoveChars(p: Pattern, s: string, c: char)
    requires c in Remove(p, s)
    ensures c in s
    decreases |s|
  {
    if s != [] {
      var n := MatchLength(p, s);
      if n > 0 {
        RemoveChars(p, s[n..], c);
      } else if c != s[0] {
        RemoveChars(p, s[1..], c);
      }
    }
  }

  lemma RemoveLacks(p: Pattern, s: string, c: char)
    ensures c !in s ==> c !in Remove(p, s)
  {
    if c in Remove(p, s) {
      RemoveChars(p, s, c);
    }
  }

  lemma FreeCons(p: Pattern, c: char, t: string)
    requires MatchLength(p, [c] + t) == 0 && Free(p, t)
    ensures Free(p, [c] + t)
  {
    forall i | 0 <= i < |[c] + t| ensures MatchAt(p, [c] + t, i) == 0 {
      if i == 0 {
        assert ([c] + t)[0..] == [c] + t;
      } else {
        assert ([c] + t)[i..] == t[i - 1..];
        assert MatchAt(p, t, i - 1) == 0;
      }
    }
  }

  /** After removing the any-tag pattern no match of it is left. */
  lemma {:induction false} RemoveTagsLeavesNone(s: string)
    ensures Free(AnyTag, Remove(AnyTag, s))
    decreases |s|
  {
    if s != [] {
      var n := MatchLength(AnyTag, s);
      if n > 0 {
        RemoveTagsLeavesNone(s[n..]);
      } else {
        var rest := Remove(AnyTag, s[1..]);
        RemoveTagsLeavesNone(s[1..]);
        var r := [s[0]] + rest;
        assert r[1..] == rest;
        if s[0] == '<' && |s| >= 2 {
          match IndexOf(s[1..], '>')
          case None =>
            if '>' in rest {
              RemoveChars(AnyTag, s[1..], '>');
            }
            assert IndexOf(rest, '>') == None;
          case Some(k) =>
            assert k == 0 && s[1] == '>';
            assert MatchLength(AnyTag, s[1..]) == 0;
            assert rest == [s[1]] + Remove(AnyTag, s[2..]) by { assert s[1..][1..] == s[2..]; }
            IndexOfAt(rest, '>', 0);
        }
        FreeCons(AnyTag, s[0], rest);
      }
    }
  }

  /** The cleaner is the first substitution alone, and leaves no tag behind. */
  lemma CleanLineRemovesTags(line: string)
    ensures CleanLine(line) == Remove(AnyTag, line)
    ensures Free(AnyTag, CleanLine(line))
  {
    var t := Remove(AnyTag, line);
    RemoveTagsLeavesNone(line);
    FreeOfTagsIsFree(TimestampTag, t);
    FreeOfTagsIsFree(CueClassTag, t);
    FreeOfTagsIsFree(CueClassClose, t);
    RemoveFree(TimestampTag, t);
    RemoveFree(CueClassTag, t);
    RemoveFree(CueClassClose, t);
  }

  /** Cleaning an already cleaned line is a no-op. */
  lemma CleanLineIdempotent(line: string)
    ensures CleanLine(CleanLine(line)) == CleanLine(line)
  {
    var c := CleanLine(line);
    CleanLineRemovesTags(line);
    CleanLineRemovesTags(c);
    RemoveFree(AnyTag, c);
  }

  /** A tag in a prefix of `u` is a tag in `u`. */
  lemma TagInPrefix(t: string, u: string)
    requires |t| <= |u| && t == u[..|t|] && MatchLength(AnyTag, t) > 0
    ensures MatchLength(AnyTag, u) > 0
  {
    var k := IndexOf(t[1..], '>').value;
    assert t[1..] == u[1..][..|t| - 1];
    assert u[1..][..k] == t[1..][..k];
    IndexOfAt(u[1..], '>', k);
  }

  /** Slices of a tag-free string are tag-free; in particular its strip is. */
  lemma FreeSlice(s: string, a: nat, b: nat)
    requires a <= b <= |s| && Free(AnyTag, s)
    ensures Free(AnyTag, s[a..b])
  {
    forall i | 0 <= i < b - a ensures MatchAt(AnyTag, s[a..b], i) == 0 {
      var t := s[a..b][i..];
      var u := s[a + i..];
      assert t == u[..|t|];
      assert MatchAt(AnyTag, s, a + i) == 0;
      if MatchLength(AnyTag, t) > 0 {
        TagInPrefix(t, u);
      }
    }
  }

  lemma StripFree(s: string)
    requires Free(AnyTag, s)
    ensures Free(AnyTag, Strip(s))
  {
    var l := TrimLeft(s, IsSpace);
    FreeSuffix(s, |s| - |l|);
    var r := TrimRight(l, IsSpace);
    FreePrefix(l, |r|);
    assert Strip(s) == r;
  }

  lemma FreeSuffix(s: string, k: nat)
    requires k <= |s| && Free(AnyTag, s)
    ensures Free(AnyTag, s[k..])
  {
    FreeSlice(s, k, |s|);
    assert s[k..|s|] == s[k..];
  }

  lemma FreePrefix(s: string, k: nat)
    requires k <= |s| && Free(AnyTag, s)
    ensures Free(AnyTag, s[..k])
  {
    FreeSlice(s, 0, k);
    assert s[0..k] == s[..k];
  }

  // ---------------------------------------------------------------------------
  // Line classification and the scan

  /** What the scanner makes of one line once stripped; the tests are tried in the order the scanner tries them. */
  datatype LineKind = HeaderLine | TimingLine | BlankLine | SettingsLine | TextLine

  function KindOf(line: string): LineKind {
    if IsHeader(line) then HeaderLine
    else if IsTiming(line) then TimingLine
    else if line == "" then BlankLine
    else if IsSettings(line) then SettingsLine
    else TextLine
  }

  /** A header line of the file: it starts with `WEBVTT`, `Kind:` or `Language:`. */
  predicate IsHeader(line: string) {
    StartsWith(line, "WEBVTT") || StartsWith(line, "Kind:") || StartsWith(line, "Language:")
  }

  /** A cue timing line: it starts with two time stamps joined by an arrow. */
  predicate IsTiming(line: string) {
    MatchesShape(line, TimingShape)
  }

  /** A line of cue settings: it holds `align:` or `position:`. */
  predicate IsSettings(line: string) {
    Contains(line, "align:") || Contains(line, "position:")
  }

  /** The text a kept line contributes: cleaned, then stripped again. */
  function CueText(line: string): string {
    Strip(CleanLine(line))
  }

  /** A raw line as the loop sees it: the kind of its stripped form, and the text it would contribute. */
  datatype Line = Line(kind: LineKind, text: string)

  function ReadLine(raw: string): Line {
    var line := Strip(raw);
    Line(KindOf(line), CueText(line))
  }

  function ReadLines(raws: seq<string>): (ls: seq<Line>)
    ensures |ls| == |raws|
    ensures forall i :: 0 <= i < |raws| ==> ls[i] == ReadLine(raws[i])
  {
    seq(|raws|, i requires 0 <= i < |raws| => ReadLine(raws[i]))
  }

  /** The loop's state: the `skip_next` flag and the `text_lines` list. */
  datatype ScanState = ScanState(skipNext: bool, textLines: seq<string>)

  /** One iteration of the loop. */
  function Step(st: ScanState, l: Line): ScanState {
    match l.kind
    case HeaderLine => st
    case TimingLine => st.(skipNext := true)
    case BlankLine => st.(skipNext := false)
    case SettingsLine => st
    case TextLine => if !st.skipNext && l.text != "" then st.(textLines := st.textLines + [l.text]) else st
  }

  /** One step on a raw line, with the tests in the order the loop makes them. */
  lemma StepOfRaw(st: ScanState, raw: string)
    ensures var line := Strip(raw);
      Step(st, ReadLine(raw)) ==
        if IsHeader(line) then st
        else if IsTiming(line) then st.(skipNext := true)
        else if line == "" then st.(skipNext := false)
        else if IsSettings(line) || st.skipNext || CueText(line) == "" then st
        else st.(textLines := st.textLines + [CueText(line)])
  {
    StepOfLine(st, Strip(raw), CueText(Strip(raw)));
  }

  lemma StepOfLine(st: ScanState, line: string, text: string)
    ensures Step(st, Line(KindOf(line), text)) ==
      if IsHeader(line) then st
      else if IsTiming(line) then st.(skipNext := true)
      else if line == "" then st.(skipNext := false)
      else if IsSettings(line) || st.skipNext || text == "" then st
      else st.(textLines := st.textLines + [text])
  {
  }

  /** The state after the loop has seen `ls`, starting from `skip_next = False` and no text. */
  function Scan(ls: seq<Line>): ScanState
    decreases |ls|
  {
    if ls == [] then ScanState(false, [])
    else Step(Scan(ls[..|ls| - 1]), ls[|ls| - 1])
  }

  /** The same scan driven directly by the raw lines, reading each as it comes. */
  function ScanRaw(raws: seq<string>): ScanState
    decreases |raws|
  {
    if raws == [] then ScanState(false, [])
    else Step(ScanRaw(raws[..|raws| - 1]), ReadLine(raws[|raws| - 1]))
  }

  /** Reading every line first and scanning the read lines is scanning the raw lines. */
  lemma {:induction false} ScanRawIsScan(raws: seq<string>)
    ensures ScanRaw(raws) == Scan(ReadLines(raws))
    decreases |raws|
  {
    if raws != [] {
      var n := |raws| - 1;
      ScanRawIsScan(raws[..n]);
      var ls := ReadLines(raws);
      assert ls[..n] == ReadLines(raws[..n]);
    }
  }

  /** The text lines the reader keeps from a whole file: split at line feeds, then scanned. */
  function VttTextLines(content: string): seq<string> {
    Scan(ReadLines(Split(content, '\n'))).textLines
  }

  /**
   * The flag after a prefix of the file is set exactly when some timing line
   * occurred and no blank line has followed it: headers, settings lines and
   * text lines leave the flag alone.
   */
  lemma {:induction false} SkipNextIff(ls: seq<Line>)
    ensures Scan(ls).skipNext <==>
      exists j :: 0 <= j < |ls| && ls[j].kind == TimingLine
        && forall k :: j < k < |ls| ==> ls[k].kind != BlankLine
    decreases |ls|
  {
    if ls != [] {
      var n := |ls| - 1;
      SkipNextIff(ls[..n]);
      var kind := ls[n].kind;
      if kind == TimingLine {
        assert n < |ls| && ls[n].kind == TimingLine;
      } else if kind != BlankLine {
        PendingThroughLine(ls);
      }
    }
  }

  /** A line that is neither a timing line nor a blank line keeps a timing line pending, or not, as it was. */
  lemma PendingThroughLine(ls: seq<Line>)
    requires ls != [] && ls[|ls| - 1].kind != TimingLine && ls[|ls| - 1].kind != BlankLine
    ensures (exists j :: 0 <= j < |ls| && ls[j].kind == TimingLine && forall k :: j < k < |ls| ==> ls[k].kind != BlankLine)
      <==> (exists j :: 0 <= j < |ls| - 1 && ls[j].kind == TimingLine && forall k :: j < k < |ls| - 1 ==> ls[k].kind != BlankLine)
  {
  }

  /** The text list only grows: what a prefix of the file kept stays, in the same order, at the front. */
  lemma {:induction false} ScanKeepsPrefix(ls: seq<Line>, i: nat)
    requires i <= |ls|
    ensures Scan(ls[..i]).textLines <= Scan(ls).textLines
    decreases |ls| - i
  {
    if i < |ls| {
      ScanKeepsPrefix(ls, i + 1);
      assert ls[..i + 1][..i] == ls[..i];
    } else {
      assert ls[..i] == ls;
    }
  }

  /**
   * A line of nothing but whitespace strips to the empty string, so it is a
   * blank line: inside a cue it clears `skip_next` like an empty line does.
   */
  lemma WhitespaceLineIsBlank(st: ScanState, raw: string)
    requires forall i :: 0 <= i < |raw| ==> IsSpace(raw[i])
    ensures ReadLine(raw).kind == BlankLine
    ensures Step(st, ReadLine(raw)) == ScanState(false, st.textLines)
  {
    StripOfSpaces(raw);
    StepOfLine(st, Strip(raw), CueText(Strip(raw)));
  }

  /**
   * As written, a caption's text is never kept: a text line that follows a
   * timing line with no blank line in between adds nothing.
   */
  lemma CueTextIsDropped(ls: seq<Line>, j: nat, i: nat)
    requires j < i < |ls|
    requires ls[j].kind == TimingLine && forall k :: j < k < i ==> ls[k].kind != BlankLine
    ensures Scan(ls[..i + 1]).textLines == Scan(ls[..i]).textLines
  {
    var init := ls[..i];
    assert ls[..i + 1][..i] == init;
    assert init[j].kind == TimingLine && forall k :: j < k < |init| ==> init[k].kind != BlankLine;
    SkipNextIff(init);
  }

  /**
   * A text line is kept when no timing line has occurred since the last blank
   * line (or since the start), provided something is left after cleaning.
   */
  lemma LooseTextIsKept(ls: seq<Line>, i: nat)
    requires i < |ls| && ls[i].kind == TextLine && ls[i].text != ""
    requires forall j :: 0 <= j < i && ls[j].kind == TimingLine ==> exists k :: j < k < i && ls[k].kind == BlankLine
    ensures Scan(ls[..i + 1]).textLines == Scan(ls[..i]).textLines + [ls[i].text]
  {
    var init := ls[..i];
    assert ls[..i + 1][..i] == init;
    assert ls[..i + 1][i] == ls[i];
    forall j | 0 <= j < |init| && init[j].kind == TimingLine
      ensures exists k :: j < k < |init| && init[k].kind == BlankLine
    {
      assert ls[j] == init[j];
      var k :| j < k < i && ls[k].kind == BlankLine;
      assert init[k] == ls[k];
    }
    SkipNextIff(init);
    assert !Scan(init).skipNext;
  }

  /** Kept text consists of some of the lines' texts. */
  lemma {:induction false} ScanKeepsTexts(ls: seq<Line>, t: string)
    requires t in Scan(ls).textLines
    ensures exists i :: 0 <= i < |ls| && ls[i].kind == TextLine && ls[i].text == t && t != ""
    decreases |ls|
  {
    var n := |ls| - 1;
    if t in Scan(ls[..n]).textLines {
      ScanKeepsTexts(ls[..n], t);
      var i :| 0 <= i < n && ls[..n][i].kind == TextLine && ls[..n][i].text == t && t != "";
      assert ls[i] == ls[..n][i];
    } else {
      assert ls[n].kind == TextLine && ls[n].text == t;
    }
  }

  /** The text a line read from a file would contribute is stripped, tag-free and has no line break. */
  lemma ReadLineClean(raw: string)
    requires '\n' !in raw
    ensures var t := ReadLine(raw).text; IsStripped(t) && Free(AnyTag, t) && '\n' !in t
  {
    var line := Strip(raw);
    var c := CleanLine(line);
    CleanLineRemovesTags(line);
    StripFree(c);
    TrimLacks(raw, IsSpace, '\n');
    RemoveLacks(AnyTag, line, '\n');
    TrimLacks(c, IsSpace, '\n');
  }

  /** Every line the reader keeps from a file is non-empty, stripped, free of tags and of line breaks. */
  lemma VttTextLinesClean(content: string)
    ensures forall t :: t in VttTextLines(content) ==>
      t != "" && IsStripped(t) && Free(AnyTag, t) && '\n' !in t
  {
    var raws := Split(content, '\n');
    var ls := ReadLines(raws);
    forall t | t in Scan(ls).textLines ensures t != "" && IsStripped(t) && Free(AnyTag, t) && '\n' !in t {
      ScanKeepsTexts(ls, t);
      var i :| 0 <= i < |ls| && ls[i].kind == TextLine && ls[i].text == t && t != "";
      ReadLineClean(raws[i]);
    }
  }
}
