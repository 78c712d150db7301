/**
 * `TranscriptService` itself: the loops of the subtitle-to-prose pipeline as
 * methods, each proved to compute the function its module defines, and the
 * pipeline of `extract_transcript` once yt-dlp has delivered the video
 * information and the subtitle files.
 */
module TranscriptService {
  import opened Wrappers
  import opened Text
  import opened SubtitleSelect
  import opened VttScan
  import opened Prose
  import opened Render

  /** The text `_parse_subtitle_file` extracts from the contents of a VTT file. */
  function VttText(content: string): string {
    FormatText(Join(VttTextLines(content), ' '))
  }

  /** What `_parse_subtitle_file` returns for a subtitle map, given how files read. */
  function SubtitleDataOf(files: map<string, string>, read: string -> string): Result<SubtitleData, Error> {
    match Select(files)
    case Failure(e) => Failure(e)
    case Success(sel) => Success(SubtitleData(VttText(read(sel.path)), sel.language, sel.kind))
  }

  /** The dictionary `extract_transcript` returns. */
  datatype Transcript = Transcript(
    title: string,
    duration: string,
    language: string,
    subtitleType: string,
    formattedTranscript: string)

  class Service {
    /** The directory yt-dlp writes the subtitle files into. */
    const tempDir: string

    /** `tempfile.mkdtemp` is not modelled: the directory it made is given. */
    constructor (dir: string)
      ensures tempDir == dir
    {
      tempDir := dir;
    }

    /** `_find_subtitle_files` over the directory listing `names`, in listing order. */
    method FindSubtitleFiles(names: seq<string>) returns (r: Result<map<string, string>, Error>)
      ensures r == SubtitleSelect.FindSubtitleFiles(tempDir, names)
    {
      var files: map<string, string> := map[];
      var i := 0;
      while i < |names|
        invariant 0 <= i <= |names|
        invariant files == Classify(tempDir, names[..i])
      {
        var name := names[i];
        assert names[..i + 1][..i] == names[..i];
        if IsVttName(name) {
          var path := PathOf(tempDir, name);
          if Contains(name, ".ja.vtt") {
            files := files[ManualJa := path];
          } else if Contains(name, ".en.vtt") {
            files := files[ManualEn := path];
          } else if Contains(name, ".ja.auto.vtt") {
            files := files[AutoJa := path];
          } else if Contains(name, ".en.auto.vtt") {
            files := files[AutoEn := path];
          }
        }
        i := i + 1;
      }
      assert names[..i] == names;
      if files == map[] {
        return Failure(NoSubtitleFiles);
      }
      return Success(files);
    }

    /**
     * `_parse_subtitle_file`: the priority walk with its early exit, then the
     * text of the chosen file. Reading a file is the function `read` from
     * path to contents.
     */
    method ParseSubtitleFile(files: map<string, string>, read: string -> string) returns (r: Result<SubtitleData, Error>)
      ensures r == SubtitleDataOf(files, read)
    {
      var selected: Option<Selection> := None;
      var p := 0;
      while p < |Priority|
        invariant 0 <= p <= |Priority|
        invariant selected.None?
        invariant FirstPresent(files, Priority) == FirstPresent(files, Priority[p..])
      {
        var key := Priority[p];
        if key in files {
          selected := Some(Selection(key, files[key], KindOfKey(key), LanguageOfKey(key)));
          break;
        }
        assert Priority[p..][1..] == Priority[p + 1..];
        p := p + 1;
      }
      if selected.None? || selected.value.path == "" {
        return Failure(NoUsableSubtitle);
      }
      var content := read(selected.value.path);
      var text := ExtractTextFromVtt(content);
      return Success(SubtitleData(text, selected.value.language, selected.value.kind));
    }

    /** `_extract_text_from_vtt`: the line scan, then the cleaning of the joined lines. */
    method ExtractTextFromVtt(content: string) returns (text: string)
      ensures text == VttText(content)
    {
      var lines := Split(content, '\n');
      var textLines := ScanLines(lines);
      ScanRawIsScan(lines);
      var fullText := Join(textLines, ' ');
      text := CleanAndFormatText(fullText);
    }

    /** The scan loop of `_extract_text_from_vtt` over the lines of the file. */
    method ScanLines(lines: seq<string>) returns (textLines: seq<string>)
      ensures textLines == ScanRaw(lines).textLines
    {
      textLines := [];
      var skipNext := false;
      var i := 0;
      while i < |lines|
        invariant 0 <= i <= |lines|
        invariant ScanRaw(lines[..i]) == ScanState(skipNext, textLines)
      {
        ScanOneMore(lines, i);
        skipNext, textLines := ScanLine(skipNext, textLines, lines[i]);
        i := i + 1;
      }
      ScanRawOfAll(lines);
    }

    /** The body of the scan loop for one raw line. */
    method ScanLine(skipNext: bool, textLines: seq<string>, raw: string) returns (skip: bool, kept: seq<string>)
      ensures ScanState(skip, kept) == Step(ScanState(skipNext, textLines), ReadLine(raw))
    {
      StepOfRaw(ScanState(skipNext, textLines), raw);
      skip, kept := skipNext, textLines;
      var line := Strip(raw);
      if IsHeader(line) {
      } else if IsTiming(line) {
        skip := true;
      } else if line == "" {
        skip := false;
      } else if !IsSettings(line) && !skipNext {
        var clean := Remove(AnyTag, line);
        clean := Remove(TimestampTag, clean);
        clean := Remove(CueClassTag, clean);
        clean := Remove(CueClassClose, clean);
        var text := Strip(clean);
        assert text == CueText(line);
        if text != "" {
          kept := kept + [text];
        }
      }
    }

    /** `_clean_and_format_text`: drop repeated sentences, re-terminate, then break into paragraphs. */
    method CleanAndFormatText(text: string) returns (r: string)
      ensures r == FormatText(text)
    {
      var sentences := Split(text, Period);
      ghost var xs := SentencesOf(text);
      var unique: seq<string> := [];
      var i := 0;
      while i < |sentences|
        invariant 0 <= i <= |sentences|
        invariant unique == Dedup(xs[..i])
      {
        assert xs[..i + 1][..i] == xs[..i];
        var sentence := Strip(sentences[i]);
        if sentence != "" && sentence !in unique {
          unique := unique + [sentence];
        }
        i := i + 1;
      }
      assert xs[..i] == xs;
      var cleaned := Join(unique, Period);
      if !EndsWith(cleaned, [Period]) && cleaned != "" {
        cleaned := cleaned + [Period];
      }
      r := AddParagraphBreaks(cleaned);
    }

    /** `_add_paragraph_breaks`: close a paragraph at three sentences or at a keyword; flush the rest. */
    method AddParagraphBreaks(text: string) returns (r: string)
      ensures r == ParagraphText(text)
    {
      var sentences := Split(text, Period);
      ghost var xs := SentencesOf(text);
      var paragraphs: seq<string> := [];
      var current: seq<string> := [];
      ghost var g := Grouping([], []);
      var i := 0;
      while i < |sentences|
        invariant 0 <= i <= |sentences|
        invariant g == Group(xs[..i])
        invariant paragraphs == RenderParagraphs(g.done)
        invariant current == g.current
      {
        GroupOneMore(xs, i);
        var sentence := Strip(sentences[i]);
        assert sentence == xs[i];
        if sentence != "" {
          current := current + [sentence];
          if |current| >= 3 || HasKeyword(sentence) {
            RenderAppend(g.done, current);
            paragraphs := paragraphs + [RenderParagraph(current)];
            current := [];
          }
        }
        g := GroupStep(g, xs[i]);
        i := i + 1;
      }
      assert xs[..i] == xs;
      if current != [] {
        RenderAppend(g.done, current);
        paragraphs := paragraphs + [RenderParagraph(current)];
      }
      r := Join(paragraphs, '\n');
    }

    /**
     * `extract_transcript` after the two yt-dlp calls: `info` is what
     * `--dump-json` reported and `names` the files the subtitle download left
     * in the directory. It fails exactly when the classification or the
     * selection fails, and otherwise returns the rendered transcript.
     */
    method ExtractTranscript(info: VideoInfo, names: seq<string>, read: string -> string, url: string)
      returns (r: Result<Transcript, Error>)
      ensures SubtitleSelect.FindSubtitleFiles(tempDir, names).Failure? ==> r == Failure(NoSubtitleFiles)
      ensures SubtitleSelect.FindSubtitleFiles(tempDir, names).Success? ==>
        match SubtitleDataOf(Classify(tempDir, names), read)
        case Failure(e) => r == Failure(e)
        case Success(sub) => r == Success(Transcript(
          info.title, FormatDuration(DurationOf(info)), sub.language, sub.kind, FormatTranscript(info, sub, url)))
    {
      var files := FindSubtitleFiles(names);
      if files.Failure? {
        return Failure(files.error);
      }
      var sub := ParseSubtitleFile(files.value, read);
      if sub.Failure? {
        return Failure(sub.error);
      }
      var formatted := FormatTranscript(info, sub.value, url);
      return Success(Transcript(
        info.title, FormatDuration(DurationOf(info)), sub.value.language, sub.value.kind, formatted));
    }
  }

  lemma ScanRawOfAll(lines: seq<string>)
    ensures ScanRaw(lines[..|lines|]) == ScanRaw(lines)
  {
    assert lines[..|lines|] == lines;
  }

  lemma ScanOneMore(lines: seq<string>, i: nat)
    requires i < |lines|
    ensures ScanRaw(lines[..i + 1]) == Step(ScanRaw(lines[..i]), ReadLine(lines[i]))
  {
    assert lines[..i + 1][..i] == lines[..i];
  }

  lemma GroupOneMore(xs: seq<string>, i: nat)
    requires i < |xs|
    ensures Group(xs[..i + 1]) == GroupStep(Group(xs[..i]), xs[i])
  {
    assert xs[..i + 1][..i] == xs[..i];
  }

  lemma RenderAppend(done: seq<seq<string>>, p: seq<string>)
    ensures RenderParagraphs(done + [p]) == RenderParagraphs(done) + [RenderParagraph(p)]
  {
  }

  /** An empty directory gives the first `FileNotFoundError`. */
  lemma NoFilesNoTranscript(dir: string)
    ensures SubtitleSelect.FindSubtitleFiles(dir, []) == Failure(NoSubtitleFiles)
  {
  }
}
