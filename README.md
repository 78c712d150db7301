# Subtitle-to-prose pipeline and audio-extractor rules, modelled in Dafny

This project models two services of a small web back end that works on online videos.

`TranscriptService` turns the subtitle files that yt-dlp downloaded into a transcript document. The steps are:

- classify the `.vtt` file names into the four variants `manual_ja`, `manual_en`, `auto_ja` and `auto_en`;
- pick one variant by a fixed priority (manual Japanese, automatic Japanese, manual English, automatic English);
- scan the WebVTT text line by line, driven by the `skip_next` flag, and clean tags out of the lines;
- drop repeated `。`-sentences;
- regroup the sentences into paragraphs;
- fill the header template, including the duration spelled out in Japanese units.

`AudioExtractor` contributes the pure rules inside its I/O code:

- the centre-crop box of a cover image;
- the sanitised title and file name;
- the keep-newest-N rule of the temporary-file cleanup;
- the 11-character video-ID rules;
- the album and thumbnail fallbacks;
- the way `extract` redirects its working directory `temp_dir` to a custom output directory and restores it.

## Files

- `wrappers.dfy` — `Option` and `Result`.
- `text.dfy` — Python string primitives: `strip`/`rstrip` over the exact `str.isspace` set; `split`/`join` on one character; substring `in`; `startswith`/`endswith`; decimal rendering and parsing.
- `subtitle_select.dfy` — file-name classification and the priority selection.
- `vtt_scan.dfy` — the tag-removing substitutions, line classification and the `skip_next` scan, as functions.
- `prose.dfy` — sentence deduplication and paragraph grouping, as functions.
- `render.dfy` — `_format_duration` with a reference parser, and the transcript template.
- `transcript_service.dfy` — the class `Service`. Its methods hold the loops of the source, each proved equal to the function that specifies it.
- `media_rules.dfy` — the crop box, the title filter, the ID rules and the tag fallbacks.
- `retention.dfy` — the stable newest-first sort and the `files[keep_latest:]` slice.
- `audio_extractor.dfy` — the class `AudioExtractor`, holding the `temp_dir` field, the two loops of `cleanup_old_files` and one attempt of `extract`.

## Behaviour the code does not have

Some behaviour one might expect from a transcript cleaner is absent from the code, and so from the model:

- **Adjacent repeated words are not collapsed.** Only whole repeated sentences are dropped.
- **There is no script detection and no Latin-script formatting.** Sentences are always split on `。`, grouped by threes and joined with a line feed.
- **Keywords are substrings.** A paragraph closes when a sentence *contains* one of `です`, `ます`, `でしょう`, `ですね`, not only when it ends with one.
- **Text inside a cue is skipped until a blank line.** A timing line sets `skip_next`, and only a line that is empty after stripping clears it. Cue text before such a line is dropped (`VttScan.CueTextIsDropped`); text after it is kept (`VttScan.LooseTextIsKept`). A whitespace-only line is such a line (`VttScan.WhitespaceLineIsBlank`), so inside a cue it lets the rest of that cue through.
- **Music markers are not removed.** Only the four tag substitutions are applied.

## Model

| member | source | states |
|---|---|---|
| SubtitleSelect.Classify | app/services/transcript_service.py:113-127 | definition: the map after the loop over the listing; each `.vtt` name the if/elif chain classifies stores its path under its key, a later name overwriting an earlier one (proved about it: `ClassifyKeys`, `ClassifyLastWins`) |
| SubtitleSelect.FindSubtitleFiles | app/services/transcript_service.py:111-132 | definition: the classification map, or the not-found error when it is empty (proved about it: `FindSubtitleFilesFails`) |
| SubtitleSelect.ClassifyName | app/services/transcript_service.py:119-127 | the key of a name is always one of the four keys |
| SubtitleSelect.JaVttWins | app/services/transcript_service.py:119-120 | a name containing `.ja.vtt` is `manual_ja` whatever other pattern it contains |
| SubtitleSelect.ClassifyKeys | app/services/transcript_service.py:113-127 | only the four keys occur; a key is present exactly when some listed `.vtt` name yields it |
| SubtitleSelect.ClassifyLastWins | app/services/transcript_service.py:115-127 | the path stored under a key is that of the last listed name yielding the key |
| SubtitleSelect.FindSubtitleFilesFails | app/services/transcript_service.py:129-132 | the lookup fails exactly when no listed name yields a key |
| TranscriptService.Service.FindSubtitleFiles | app/services/transcript_service.py:111-132 | the loop over the listing returns the classification map, or the not-found error when it is empty |
| TranscriptService.NoFilesNoTranscript | app/services/transcript_service.py:129-130 | an empty directory gives the not-found error |
| SubtitleSelect.Select | app/services/transcript_service.py:135-151 | definition: the first priority key present, with its path and its `manual`/`auto` and `日本語`/`英語` labels, or the unusable-subtitle error when no key is present or its path is empty (proved about it: `SelectPriority`, `KeyLabels`) |
| SubtitleSelect.FirstPresent | app/services/transcript_service.py:143-148 | the key found is present and in the order; none is found only when no key of the order is present |
| SubtitleSelect.FirstPresentInPriority | app/services/transcript_service.py:137-148 | the priority walk is the if/elif chain manual_ja, auto_ja, manual_en, auto_en |
| SubtitleSelect.SelectPriority | app/services/transcript_service.py:137-151 | the chosen key is present, every key ahead of it in the priority list is absent, and selection fails exactly when no priority key is present or the chosen path is empty |
| SubtitleSelect.FoundFilesAreUsable | app/services/transcript_service.py:129-151 | when `_find_subtitle_files` succeeds, the selection succeeds on its result: the second `FileNotFoundError` is unreachable from it |
| SubtitleSelect.SelectOnlyReadsPriorityKeys | app/services/transcript_service.py:143-148 | two maps that agree on the four priority keys select the same file, whatever their other entries or order |
| SubtitleSelect.KeyLabels | app/services/transcript_service.py:146-147 | type is `manual` exactly for the manual keys and `auto` for the others; language is `日本語` exactly for the Japanese keys and `英語` for the others |
| SubtitleSelect.OnlyAutoEnglish | app/services/transcript_service.py:143-151 | a map holding only an automatic English file selects it, labelled `auto` and `英語` |
| TranscriptService.Service.ParseSubtitleFile | app/services/transcript_service.py:134-164 | the walk with early exit selects as the selection function does, fails on no usable file, and returns the extracted text of the chosen file with its labels |
| VttScan.Remove | app/services/transcript_service.py:195-200 | definition: one `re.sub(pattern, "", s)`, removing the leftmost non-overlapping matches from left to right (proved about it: `RemoveFree`, `RemoveChars`, `RemoveTagsLeavesNone`) |
| VttScan.CleanLine | app/services/transcript_service.py:195-200 | definition: the four substitutions in the order the source applies them (proved about it: `CleanLineRemovesTags`, `CleanLineIdempotent`) |
| VttScan.KindOf | app/services/transcript_service.py:176-191 | definition: header, timing, blank, settings or text line, by the first of the loop's tests that holds on the stripped line |
| VttScan.Step | app/services/transcript_service.py:173-203 | definition: one iteration; header and settings lines change nothing, a timing line sets `skip_next`, a blank line clears it, a text line appends its cleaned text when the flag is clear and the text is non-empty |
| VttScan.Scan | app/services/transcript_service.py:171-203 | definition: the flag and text list after the loop has seen the read lines, starting from a clear flag and no text (proved about it: `SkipNextIff`, `ScanKeepsPrefix`, `ScanKeepsTexts`) |
| VttScan.VttTextLines | app/services/transcript_service.py:168-203 | definition: the text lines kept from a whole file split at line feeds (proved about it: `VttTextLinesClean`) |
| VttScan.MatchLength | app/services/transcript_service.py:196-200 | a match of any of the four patterns is a `<`…`>` of at least three characters |
| VttScan.EveryMatchIsTag | app/services/transcript_service.py:196-200 | the timestamp and class patterns match only where the any-tag pattern matches |
| VttScan.RemoveFree | app/services/transcript_service.py:198-200 | a substitution of a pattern that does not occur leaves the line unchanged |
| VttScan.RemoveChars | app/services/transcript_service.py:196-200 | a substitution introduces no character |
| VttScan.RemoveTagsLeavesNone | app/services/transcript_service.py:196 | after the first substitution no tag is left |
| VttScan.CleanLineRemovesTags | app/services/transcript_service.py:196-200 | the four substitutions together equal the first one alone and leave no tag |
| VttScan.CleanLineIdempotent | app/services/transcript_service.py:196-200 | cleaning a cleaned line changes nothing |
| VttScan.StripFree | app/services/transcript_service.py:202-203 | stripping a tag-free line keeps it tag-free |
| VttScan.SkipNextIff | app/services/transcript_service.py:171-191 | the flag is set exactly when a timing line occurred and no blank line followed it; headers, settings and text lines leave it alone |
| VttScan.ScanKeepsPrefix | app/services/transcript_service.py:194-203 | kept lines are only appended, so they stay in file order |
| VttScan.WhitespaceLineIsBlank | app/services/transcript_service.py:173-187 | a line of nothing but whitespace strips to the empty string, reads as a blank line and clears `skip_next`, keeping the text so far |
| VttScan.CueTextIsDropped | app/services/transcript_service.py:180-194 | a line after a timing line with no blank line in between adds nothing |
| VttScan.LooseTextIsKept | app/services/transcript_service.py:184-203 | a text line with no open timing line is kept, cleaned and stripped, when something remains |
| VttScan.ScanKeepsTexts | app/services/transcript_service.py:194-203 | every kept entry is the non-empty cleaned text of some text line |
| VttScan.VttTextLinesClean | app/services/transcript_service.py:168-203 | every kept line is non-empty, stripped, tag-free and free of line feeds |
| TranscriptService.Service.ScanLine | app/services/transcript_service.py:173-203 | one loop body performs the scan step for the line's classification |
| TranscriptService.Service.ScanLines | app/services/transcript_service.py:171-203 | the scan loop yields the kept lines of the scan over the raw lines |
| VttScan.ScanRawIsScan | app/services/transcript_service.py:171-203 | scanning the raw lines one by one is the same as reading every line first and scanning the read lines |
| VttScan.StepOfRaw | app/services/transcript_service.py:173-203 | one step on a raw line, as the header, timing, blank and settings tests decide it in that order, and a text line adds its cleaned text only when not skipping and non-empty |
| TranscriptService.Service.ExtractTextFromVtt | app/services/transcript_service.py:166-209 | returns the formatted text of the kept lines joined by single spaces |
| Prose.Dedup | app/services/transcript_service.py:214-220 | definition: the non-empty stripped pieces, each kept at its first occurrence only (proved about it: `DedupCovers`, `DedupFirstSeen`) |
| Prose.CleanedText | app/services/transcript_service.py:211-225 | definition: the unique sentences joined by `。`, with a final `。` added when the result is non-empty and lacks one (proved about it: `CleanedTextSplits`) |
| Prose.SentencesOfAreSentences | app/services/transcript_service.py:214-218 | every piece is stripped and contains no `。` |
| Prose.DedupCovers | app/services/transcript_service.py:214-220 | the kept sentences are pairwise distinct, and a sentence is kept exactly when it is non-empty and occurs |
| Prose.DedupFirstSeen | app/services/transcript_service.py:217-220 | kept sentences appear in the order of their first occurrence |
| Prose.CleanedTextSplits | app/services/transcript_service.py:223-225 | the cleaned text is empty exactly when no sentence is kept, ends with `。` exactly when one is, and splits back into the kept sentences |
| TranscriptService.Service.CleanAndFormatText | app/services/transcript_service.py:211-230 | the dedup loop and re-termination compute the specified cleaned text, then its paragraphs |
| Prose.Group | app/services/transcript_service.py:234-246 | definition: the closed paragraphs and the open paragraph after the loop over the sentences (proved about it: `GroupInvariant`) |
| Prose.Paragraphs | app/services/transcript_service.py:234-250 | definition: the closed paragraphs, then the open one when it is non-empty (proved about it: `ParagraphsPartition`, `ParagraphsShape`) |
| Prose.ParagraphText | app/services/transcript_service.py:232-253 | definition: each paragraph joined by `。` and ended by `。`, the paragraphs joined by line feeds (proved about it: `ParagraphTextEmptyIff`, `ParagraphTextLines`) |
| Prose.FormatText | app/services/transcript_service.py:211-230 | definition: the cleaning, then the paragraph breaks (proved about it: `FormatTextSentences`) |
| Prose.HasKeywordWithoutDesune | app/services/transcript_service.py:245 | `ですね` is redundant among the keywords, because it contains `です` |
| Prose.GroupInvariant | app/services/transcript_service.py:238-247 | during grouping the closed paragraphs followed by the open one are exactly the non-empty sentences so far; every closed paragraph holds 1 to 3 sentences, has no keyword before its last sentence and closes at 3 or at a keyword; the open one has at most 2 sentences and no keyword |
| Prose.ParagraphsPartition | app/services/transcript_service.py:238-251 | concatenating the paragraphs gives exactly the non-empty sentences in order |
| Prose.ParagraphsShape | app/services/transcript_service.py:240-251 | every paragraph has 1 to 3 sentences with no keyword before its last one, and all but the last paragraph close at 3 sentences or at a keyword |
| Prose.ParagraphSentence | app/services/transcript_service.py:238-251 | every sentence in a paragraph is a non-empty input sentence |
| Prose.RenderParagraphSplits | app/services/transcript_service.py:246 | a rendered paragraph ends with `。` and splits back into its sentences |
| Prose.RenderedParagraphs | app/services/transcript_service.py:246-251 | each paragraph of a text has 1 to 3 sentences and renders into a `。`-terminated line that splits back into them |
| Prose.ParagraphTextEmptyIff | app/services/transcript_service.py:250-253 | the paragraph text is empty exactly when there is no non-empty sentence |
| Prose.ParagraphTextLines | app/services/transcript_service.py:253 | for a text without line feeds, the lines of the output are the rendered paragraphs |
| Prose.FormatTextSentences | app/services/transcript_service.py:211-253 | the sentences of all paragraphs of the cleaned text are exactly the deduplicated sentences, in order |
| TranscriptService.Service.AddParagraphBreaks | app/services/transcript_service.py:232-253 | the grouping loop with its final flush computes the specified paragraph text |
| Render.FormatDuration | app/services/transcript_service.py:274-286 | definition: the f-string of the branch `SplitDuration` picks (proved about it: `ParseFormatDuration`, `FormatDurationInjective`) |
| Render.FormatTranscript | app/services/transcript_service.py:255-272 | definition: the six header lines of the template, each followed by a line feed, then the content (proved about it: `TranscriptLines`, `TranscriptEndsWithContent`) |
| Render.SplitDuration | app/services/transcript_service.py:274-286 | seconds only below 60, minutes and seconds from 60 to 3599, hours otherwise; the parts add up to the input and the lower parts are below 60 |
| Render.ParseFormatDuration | app/services/transcript_service.py:276-286 | reading the rendered duration back gives the number of seconds |
| Render.FormatDurationInjective | app/services/transcript_service.py:276-286 | different durations render differently |
| Render.FormatDurationExamples | app/services/transcript_service.py:276-286 | 0, 65, 3661 and -5 seconds render as `0秒`, `1分5秒`, `1時間1分1秒` and `-5秒` |
| Render.DurationHasNoBreak | app/services/transcript_service.py:276-286 | a rendered duration contains no line feed |
| Render.TranscriptLines | app/services/transcript_service.py:255-272 | with no line feed in title, URL or language, the output's lines are the six header lines (banner, title, URL, language with `自動生成` exactly for `auto` and `手動` otherwise, duration, marker) followed by the body's lines |
| Render.TranscriptEndsWithContent | app/services/transcript_service.py:257-272 | the output starts with the banner line and ends with the marker line followed by the body unchanged |
| TranscriptService.Service.ExtractTranscript | app/services/transcript_service.py:17-44 | fails exactly when the lookup or the selection fails, otherwise returns title, duration, labels and the rendered transcript |
| Text.TrimIdempotent | app/services/transcript_service.py:173 | stripping twice is stripping once |
| Text.ContainsIff | app/services/transcript_service.py:119-127 | the substring test holds exactly when some window of the string equals the pattern |
| Text.JoinSplit | app/services/transcript_service.py:214-223 | joining the split pieces with the separator restores the text |
| Text.SplitJoin | app/services/transcript_service.py:223-234 | splitting a join of separator-free pieces gives the pieces back |
| Text.ParseNatToString | app/services/transcript_service.py:277-286 | the decimal rendering of a number reads back as the number |
| MediaRules.CenterCropBox | app/services/extractor.py:130-145 | no box exactly for a square image; otherwise a square of the smaller side inside the image, flush along the shorter side and centred along the longer one, the odd pixel going to the right or bottom margin |
| MediaRules.CenterCropExamples | app/services/extractor.py:130-145 | 1280×720 crops to (280,0,1000,720), 3×6 to (0,1,3,4), and 500×500 is left as it is |
| MediaRules.KeepAllowed | app/services/extractor.py:205 | the filtered title is no longer than the title and holds only alphanumerics, spaces, hyphens and underscores |
| MediaRules.KeepAllowedConcat | app/services/extractor.py:205 | the filter keeps characters in their order: it distributes over concatenation |
| MediaRules.KeepAllowedChar | app/services/extractor.py:205 | a character is kept exactly when it is allowed |
| MediaRules.KeepAllowedOfAllowed | app/services/extractor.py:205 | an all-allowed string passes unchanged |
| MediaRules.SafeTitle | app/services/extractor.py:205 | definition: the characters that are alphanumeric, a space, `-` or `_`, then trailing whitespace removed |
| MediaRules.SafeTitleShape | app/services/extractor.py:205 | the safe title is a prefix of the filtered title, holds only allowed characters, has no trailing whitespace, and only spaces were cut |
| MediaRules.SafeTitleIdempotent | app/services/extractor.py:205 | sanitising a safe title changes nothing |
| MediaRules.ExtractVideoId | app/services/extractor.py:432-453 | an extracted ID has exactly 11 characters |
| MediaRules.ExtractVideoIdRule | app/services/extractor.py:441-450 | a non-empty `v` decides; without it the slash-stripped path is used only when the URL contains `youtu.be`; anything but 11 characters is an error |
| MediaRules.ExtractedIsValid | app/services/extractor.py:441-477 | every URL whose ID can be extracted passes the validity check |
| MediaRules.ValidButNotExtractable | app/services/extractor.py:441-477 | `https://example.com/abcdefghijk` passes the validity check, but its ID cannot be extracted |
| MediaRules.IsValidYoutubeUrl | app/services/extractor.py:456-481 | definition: false for a URL the parser refuses; otherwise whether the first `v` value, or the slash-stripped path without one, has 11 characters |
| MediaRules.ValidUrlRule | app/services/extractor.py:456-481 | a URL the parser refuses is invalid; otherwise the candidate is `v`, or the slash-stripped path without it (no `youtu.be` test), and the URL is valid exactly when the candidate has 11 characters |
| MediaRules.StartRadioIrrelevant | app/services/extractor.py:472-477 | a `start_radio` parameter does not change the verdict; both branches of the source return the same test |
| MediaRules.TextTagDefaults | app/services/extractor.py:259-260 | an absent title or uploader gives an empty tag; a present one is copied |
| MediaRules.Album | app/services/extractor.py:261 | definition: a truthy `playlist_title`, otherwise the `album` field with `YouTube Music` when it is absent |
| MediaRules.AlbumFallback | app/services/extractor.py:261 | a non-empty playlist title wins; otherwise the album field, with `YouTube Music` only when it is absent |
| MediaRules.DateTag | app/services/extractor.py:266-267 | definition: the first four characters of a truthy `upload_date`, otherwise no date tag |
| MediaRules.DateTagRule | app/services/extractor.py:266-267 | a date tag exists exactly when the upload date is non-empty, and is its first four characters |
| MediaRules.FirstThumbnailUrl | app/services/extractor.py:273 | the result is the URL of the first entry whose URL is non-empty, every earlier entry having none; none only when no entry has one |
| MediaRules.FirstTruthy | app/services/extractor.py:278 | the result is the first non-empty candidate; none only when all are empty |
| MediaRules.ThumbnailUrl | app/services/extractor.py:270-278 | definition: the first truthy entry of the four-candidate list |
| MediaRules.ThumbnailFallback | app/services/extractor.py:271-278 | the thumbnail field if non-empty, else the first entry URL, else the maxres URL; always some URL, so the hq candidate is never used |
| Retention.CollectFiles | app/services/extractor.py:151-155 | definition: the regular files of the listing, with their joined paths and times, in listing order |
| Retention.SortByMtimeDesc | app/services/extractor.py:158 | definition: the stable sort, newest first (proved about it: `SortSortsAndPermutes`, `SortIsStable`) |
| Retention.Insert | app/services/extractor.py:158 | inserting adds exactly one entry |
| Retention.SortSortsAndPermutes | app/services/extractor.py:158 | the sort orders the files newest first and is a permutation |
| Retention.SortIsStable | app/services/extractor.py:158 | files of equal modification time keep their listing order |
| Retention.Scheduled | app/services/extractor.py:161-169 | definition: `files[keep_latest:]` (proved about it: `ScheduledCount`, `KeptAreNewest`) |
| Retention.SliceStart | app/services/extractor.py:161 | the slice start lies within the list |
| Retention.ScheduledCount | app/services/extractor.py:161-168 | kept and scheduled files split the list; the count is max(0, n − keep_latest), or min(n, −keep_latest) for a negative keep_latest |
| Retention.KeptAreNewest | app/services/extractor.py:158-161 | on the sorted list every kept file is at least as new as every scheduled one |
| AudioExtractorModel.AudioExtractor.constructor | app/services/extractor.py:17-18 | the working directory starts as `temp` |
| AudioExtractorModel.AudioExtractor.CleanupOldFiles | app/services/extractor.py:148-171 | the removals attempted are the paths of the sorted files past the first keep_latest, and the count is their number; a failed listing gives 0 |
| AudioExtractorModel.AudioExtractor.Extract | app/services/extractor.py:175-233 | the working directory is restored on every path; no info and a failed download are errors; success reports the output file in the target directory and the safe `.mp3` name; cleanup keeps 5 and runs only without an output directory |

## Left out

- Running yt-dlp, ffmpeg and the asyncio plumbing: `_get_video_info`, `_download_subtitles` and `_download_and_convert` are not modelled. Their results are inputs: the video information, the directory listing, and a flag saying whether download and conversion succeeded.
- The retry loop of `extract` (three attempts with a delay) is not modelled. `Extract` models one attempt; the exception-to-`HTTPException` mapping is left out as well.
- File-system calls are inputs. This covers `Path.glob`, `open`/`read`, `os.listdir`, `os.path.isfile`, `os.path.getmtime`, `os.remove`, `os.makedirs` and `tempfile.mkdtemp`. The file read is a function from path to contents, so a file changing between calls is not covered.
- A removal that fails inside the cleanup is only logged in the source, so the model does not track which removals succeed.
- mutagen tagging, PIL image decoding and encoding, and `requests.get` are foreign libraries. Only the crop box and the fallback rules are kept.
- `urllib.parse`: the parsed `v`, path and `start_radio` flag are inputs, and a URL the parser refuses is `None`.
- Logging is left out, as are the HTTP routes, the application entry point and the other utilities.
- MediaRules.IsAlnum: `str.isalnum` is approximated by ASCII letters and digits, hiragana, katakana, CJK unified ideographs and fullwidth letters and digits. It is not the full Unicode category test.
- VttScan.MatchLength: the regex class `\d` is taken as ASCII digits. Python's Unicode digits are wider.
- Render.DurationOf: a duration that is present but null, or a float, is not modelled. The source would raise on null and print a float. The model takes an optional integer, with 0 when absent.
- MediaRules.TextTagDefaults: a null title or uploader makes mutagen raise inside the tag writer, which the source logs and ignores. The model only reports the value read.
- MediaRules.FirstThumbnailUrl: a `thumbnails` field that is null, or an entry without a dictionary shape, is not modelled. Entries are given as their `url` field.
- SubtitleSelect.PathOf: the directory is taken without a trailing slash, as `mkdtemp` returns it.
- The `read` function stands for the text `open()` returns after its universal-newline translation, so a lone carriage return is not a line break in the model. A `UnicodeDecodeError` while reading is not modelled.
- Retention.DirEntry: the modification time is an integer, where `os.path.getmtime` returns a float. Only comparisons of times are used, so the order is the same.
- Retention.SortByMtimeDesc: the sort is specified as a stable insertion function, not as an in-place list sort. The order it produces is the one `list.sort(reverse=True)` produces.
- The class `Service` takes its temporary directory as a constructor argument instead of creating it.
