/**
 * The state-changing side of `AudioExtractor`: its `temp_dir` field, the
 * loops of `cleanup_old_files`, and the control flow of one attempt of
 * `extract`, which points `temp_dir` at a custom output directory for the
 * download and puts it back afterwards.
 */
module AudioExtractorModel {
  import opened Wrappers
  import opened Text
  import opened Retention
  import opened MediaRules

  /** The fields of the video information `extract` reads. */
  datatype VideoInfo = VideoInfo(id: string, title: string, duration: Option<int>)

  /** The dictionary `extract` returns. */
  datatype ExtractResult = ExtractResult(
    videoId: string,
    title: string,
    duration: Option<int>,
    filePath: string,
    filename: string)

  /** Why an attempt of `extract` fails. */
  datatype ExtractError = NoVideoInformation | DownloadFailed

  /** The downloaded file `_download_and_convert` produces in `dir` for the video `id`. */
  function OutputFile(dir: string, id: string): string {
    JoinPath(dir, id + ".mp3")
  }

  /** The directory the download goes to: the output directory when one is given, else `temp_dir`. */
  function TargetDir(tempDir: string, outputDir: string): string {
    if outputDir != "" then outputDir else tempDir
  }

  class AudioExtractor {
    /** The working directory for downloads. */
    var tempDir: string

    constructor ()
      ensures tempDir == "temp"
    {
      tempDir := "temp";
    }

    /**
     * `cleanup_old_files(keep_latest)`: `listing` is what `os.listdir` sees,
     * `None` when listing fails. The returned `attempted` are the paths handed
     * to `os.remove`, in order; a removal that fails is only logged, so the
     * count is the number scheduled either way.
     */
    method CleanupOldFiles(listing: Option<seq<DirEntry>>, keepLatest: int) returns (attempted: seq<string>, count: int)
      ensures listing.None? ==> attempted == [] && count == 0
      ensures listing.Some? ==>
        var files := SortByMtimeDesc(CollectFiles(tempDir, listing.value));
        && attempted == Paths(Scheduled(files, keepLatest))
        && count == |Scheduled(files, keepLatest)|
    {
      if listing.None? {
        return [], 0;
      }
      var entries := listing.value;
      var files: seq<FileEntry> := [];
      var i := 0;
      while i < |entries|
        invariant 0 <= i <= |entries|
        invariant files == CollectFiles(tempDir, entries[..i])
      {
        assert entries[..i + 1][..i] == entries[..i];
        var e := entries[i];
        var path := JoinPath(tempDir, e.name);
        if e.isFile {
          files := files + [FileEntry(path, e.mtime)];
        }
        i := i + 1;
      }
      assert entries[..i] == entries;
      files := SortByMtimeDesc(files);
      var doomed := files[SliceStart(|files|, keepLatest)..];
      attempted := [];
      var j := 0;
      while j < |doomed|
        invariant 0 <= j <= |doomed|
        invariant attempted == Paths(doomed[..j])
      {
        attempted := attempted + [doomed[j].path];
        j := j + 1;
      }
      assert doomed[..j] == doomed;
      count := |doomed|;
    }

    /**
     * One attempt of `extract(url, output_dir)` once `_get_video_info` has
     * answered `info`: `converted` says whether download, conversion and the
     * file checks succeeded, and `listing` is what the cleanup would list.
     * `temp_dir` is the output directory during the download and is restored
     * whatever happens; the cleanup runs only without an output directory.
     */
    method Extract(info: Option<VideoInfo>, outputDir: string, converted: bool, listing: Option<seq<DirEntry>>)
      returns (r: Result<ExtractResult, ExtractError>, cleaned: int)
      modifies this
      ensures tempDir == old(tempDir)
      ensures info.None? ==> r == Failure(NoVideoInformation) && cleaned == 0
      ensures info.Some? && !converted ==> r == Failure(DownloadFailed) && cleaned == 0
      ensures info.Some? && converted ==> r == Success(ExtractResult(
        info.value.id, info.value.title, info.value.duration,
        OutputFile(TargetDir(old(tempDir), outputDir), info.value.id),
        Mp3Name(info.value.title)))
      ensures info.Some? && converted && outputDir == "" && listing.Some? ==>
        cleaned == |Scheduled(SortByMtimeDesc(CollectFiles(old(tempDir), listing.value)), 5)|
      ensures outputDir != "" || listing.None? ==> cleaned == 0
    {
      cleaned := 0;
      if info.None? {
        return Failure(NoVideoInformation), 0;
      }
      var original := tempDir;
      if outputDir != "" {
        tempDir := outputDir;
      }
      var outputFile := OutputFile(tempDir, info.value.id);
      if !converted {
        if outputDir != "" {
          tempDir := original;
        }
        return Failure(DownloadFailed), 0;
      }
      var safeTitle := SafeTitle(info.value.title);
      r := Success(ExtractResult(info.value.id, info.value.title, info.value.duration, outputFile, safeTitle + ".mp3"));
      if outputDir == "" {
        var _, n := CleanupOldFiles(listing, 5);
        cleaned := n;
      }
      if outputDir != "" {
        tempDir := original;
      }
    }
  }
}
