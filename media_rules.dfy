/**
 * The pure decision rules inside `AudioExtractor`: the centre-crop box of
 * `center_crop_square`, the `safe_title` filter of `extract`, the video-ID
 * rules of `_extract_video_id` and `_is_valid_youtube_url`, and the tag and
 * thumbnail fallbacks of `_set_media_tags`.
 */
module MediaRules {
  import opened Wrappers
  import opened Text

  // ---------------------------------------------------------------------------
  // center_crop_square

  /** The `(left, top, right, bottom)` tuple handed to `img.crop`. */
  datatype CropBox = CropBox(left: int, top: int, right: int, bottom: int)

  function Min(a: int, b: int): int {
    if a <= b then a else b
  }

  /**
   * The crop of `center_crop_square` for an image of `width` x `height`: none
   * for a square image (it is returned as it is); otherwise a square of the
   * shorter side, inside the image, flush with the image along the shorter
   * side and centred along the longer one, the odd pixel going to the right
   * or bottom margin.
   */
  function CenterCropBox(width: nat, height: nat): (b: Option<CropBox>)
    ensures b.None? <==> width == height
    ensures b.Some? ==>
      var n := Min(width, height);
      var c := b.value;
      && c.right - c.left == n && c.bottom - c.top == n
      && 0 <= c.left && c.right <= width && 0 <= c.top && c.bottom <= height
      && c.left <= width - c.right <= c.left + 1
      && c.top <= height - c.bottom <= c.top + 1
      && (width < height ==> c.left == 0 && c.right == width)
      && (height < width ==> c.top == 0 && c.bottom == height)
  {
    if width == height then None
    else
      var n := Min(width, height);
      var left := (width - n) / 2;
      var top := (height - n) / 2;
      Some(CropBox(left, top, left + n, top + n))
  }

  lemma CenterCropExamples()
    ensures CenterCropBox(1280, 720) == Some(CropBox(280, 0, 1000, 720))
    ensures CenterCropBox(3, 6) == Some(CropBox(0, 1, 3, 4))
    ensures CenterCropBox(500, 500) == None
  {
  }

  // ---------------------------------------------------------------------------
  // safe_title and the file name

  /**
   * `str.isalnum()`: ASCII letters and digits, hiragana, katakana, the CJK
   * unified ideographs and the fullwidth letters and digits. Python accepts
   * more (every Unicode letter and number); this subset is what the model
   * decides on.
   */
  predicate IsAlnum(c: char) {
    || 'a' <= c <= 'z' || 'A' <= c <= 'Z' || '0' <= c <= '9'
    || 'ぁ' <= c <= 'ゖ' || 'ァ' <= c <= 'ヺ'
    || '一' <= c <= '鿿'
    || '０' <= c <= '９' || 'Ａ' <= c <= 'Ｚ' || 'ａ' <= c <= 'ｚ'
  }

  /** The characters the title filter keeps. */
  predicate IsAllowed(c: char) {
    IsAlnum(c) || c == ' ' || c == '-' || c == '_'
  }

  /** The title with every character dropped that is neither alphanumeric nor a space, hyphen or underscore. */
  function KeepAllowed(s: string): (r: string)
    ensures |r| <= |s|
    ensures forall i :: 0 <= i < |r| ==> IsAllowed(r[i])
    decreases |s|
  {
    if s == [] then ""
    else KeepAllowed(s[..|s| - 1]) + (if IsAllowed(s[|s| - 1]) then [s[|s| - 1]] else "")
  }

  /** `safe_title`: the filtered title with trailing whitespace removed. */
  function SafeTitle(title: string): string {
    RStrip(KeepAllowed(title))
  }

  /** The `filename` of the result. */
  function Mp3Name(title: string): string {
    SafeTitle(title) + ".mp3"
  }

  /** The filter distributes over concatenation: it keeps characters in their original order. */
  lemma {:induction false} KeepAllowedConcat(a: string, b: string)
    ensures KeepAllowed(a + b) == KeepAllowed(a) + KeepAllowed(b)
    decreases |b|
  {
    if b == [] {
      assert a + b == a;
    } else {
      var n := |b| - 1;
      assert (a + b)[..|a + b| - 1] == a + b[..n];
      assert (a + b)[|a + b| - 1] == b[n];
      KeepAllowedConcat(a, b[..n]);
    }
  }

  /** A character is kept exactly when it is allowed. */
  lemma KeepAllowedChar(c: char)
    ensures KeepAllowed([c]) == (if IsAllowed(c) then [c] else [])
  {
    assert [c][..0] == [];
  }

  /** A string of allowed characters passes the filter unchanged. */
  lemma {:induction false} KeepAllowedOfAllowed(s: string)
    requires forall i :: 0 <= i < |s| ==> IsAllowed(s[i])
    ensures KeepAllowed(s) == s
    decreases |s|
  {
    if s != [] {
      KeepAllowedOfAllowed(s[..|s| - 1]);
    }
  }

  /**
   * The safe title holds only allowed characters, does not end in a space,
   * and is the filtered title up to a tail of spaces.
   */
  lemma SafeTitleShape(title: string)
    ensures var t := SafeTitle(title); var k := KeepAllowed(title);
      && (forall i :: 0 <= i < |t| ==> IsAllowed(t[i]))
      && (t != "" ==> t[|t| - 1] != ' ')
      && |t| <= |k| && t == k[..|t|]
      && (forall i :: |t| <= i < |k| ==> k[i] == ' ')
  {
    var k := KeepAllowed(title);
    var t := SafeTitle(title);
    forall i | |t| <= i < |k| ensures k[i] == ' ' {
      assert IsSpace(k[i]) && IsAllowed(k[i]);
    }
    forall i | 0 <= i < |t| ensures IsAllowed(t[i]) {
      assert t[i] == k[i];
    }
  }

  /** Sanitising a safe title again changes nothing. */
  lemma SafeTitleIdempotent(title: string)
    ensures SafeTitle(SafeTitle(title)) == SafeTitle(title)
  {
    var t := SafeTitle(title);
    SafeTitleShape(title);
    KeepAllowedOfAllowed(t);
  }

  // ---------------------------------------------------------------------------
  // Video-ID rules

  /**
   * What `urllib.parse` yields for a URL, as far as the rules look at it: the
   * first value of the `v` query parameter, if any, the path, and whether a
   * `start_radio` parameter is present.
   */
  datatype ParsedUrl = ParsedUrl(v: Option<string>, path: string, hasStartRadio: bool)

  /** The `HTTPException` of `_extract_video_id`. */
  datatype IdError = NoValidVideoId

  /** The URL path with leading and trailing slashes removed. */
  function StripSlashes(path: string): string {
    Trim(path, c => c == '/')
  }

  /** The first `v` query value, with Python's truthiness: an empty value counts as missing. */
  function QueryId(p: ParsedUrl): string {
    match p.v
    case None => ""
    case Some(s) => s
  }

  /** `_extract_video_id(url)` for the parsed form `p` of `url`. */
  function ExtractVideoId(url: string, p: ParsedUrl): (r: Result<string, IdError>)
    ensures r.Success? ==> |r.value| == 11
  {
    var id := if QueryId(p) != "" then QueryId(p)
      else if Contains(url, "youtu.be") then StripSlashes(p.path)
      else "";
    if |id| != 11 then Failure(NoValidVideoId) else Success(id)
  }

  /** `_is_valid_youtube_url(url)`; `None` stands for a URL `urllib.parse` refuses. */
  function IsValidYoutubeUrl(p: Option<ParsedUrl>): bool {
    match p
    case None => false
    case Some(q) =>
      var id := if QueryId(q) != "" then QueryId(q) else StripSlashes(q.path);
      |id| == 11
  }

  /**
   * The `v` parameter takes precedence; the path is consulted only without
   * it, and then only for a `youtu.be` URL; the result is the candidate
   * exactly when it has eleven characters.
   */
  lemma ExtractVideoIdRule(url: string, p: ParsedUrl)
    ensures QueryId(p) != "" ==>
      (ExtractVideoId(url, p).Success? <==> |QueryId(p)| == 11)
      && (ExtractVideoId(url, p).Success? ==> ExtractVideoId(url, p).value == QueryId(p))
    ensures QueryId(p) == "" && !Contains(url, "youtu.be") ==> ExtractVideoId(url, p).Failure?
    ensures QueryId(p) == "" && Contains(url, "youtu.be") ==>
      ExtractVideoId(url, p) == if |StripSlashes(p.path)| == 11 then Success(StripSlashes(p.path)) else Failure(NoValidVideoId)
  {
  }

  /** Every URL the extraction accepts is one the validity check accepts. */
  lemma ExtractedIsValid(url: string, p: ParsedUrl)
    requires ExtractVideoId(url, p).Success?
    ensures IsValidYoutubeUrl(Some(p))
  {
  }

  /**
   * The converse fails: the validity check does not ask for `youtu.be`, so a
   * URL whose path is eleven characters long passes it and still has no
   * extractable ID.
   */
  lemma ValidButNotExtractable()
    ensures var url := "https://example.com/abcdefghijk";
      var p := ParsedUrl(None, "/abcdefghijk", false);
      IsValidYoutubeUrl(Some(p)) && ExtractVideoId(url, p).Failure?
  {
    var url := "https://example.com/abcdefghijk";
    MissingChar(url, "youtu.be", 'y');
    SlashesOfExample();
  }

  lemma SlashesOfExample()
    ensures StripSlashes("/abcdefghijk") == "abcdefghijk"
  {
    var drop := (c: char) => c == '/';
    var s := "/abcdefghijk";
    assert TrimLeft(s, drop) == TrimLeft(s[1..], drop);
    TrimLeftOfTrimmed(s[1..], drop);
    assert TrimRight(s[1..], drop) == s[1..];
  }

  /**
   * The validity check: a URL the parser refuses is invalid; otherwise the
   * candidate is the `v` value, or the slash-stripped path without one, and
   * the URL is valid exactly when the candidate has eleven characters.
   */
  lemma ValidUrlRule(p: Option<ParsedUrl>)
    ensures p.None? ==> !IsValidYoutubeUrl(p)
    ensures p.Some? && QueryId(p.value) != "" ==> (IsValidYoutubeUrl(p) <==> |QueryId(p.value)| == 11)
    ensures p.Some? && QueryId(p.value) == "" ==> (IsValidYoutubeUrl(p) <==> |StripSlashes(p.value.path)| == 11)
  {
  }

  /**
   * A `start_radio` parameter never changes the verdict: the Radio/Mix branch
   * of `_is_valid_youtube_url` returns the same test as the fall-through, so
   * the model holds one test and this lemma records that the branch is inert.
   */
  lemma StartRadioIrrelevant(p: ParsedUrl)
    ensures IsValidYoutubeUrl(Some(p.(hasStartRadio := true))) == IsValidYoutubeUrl(Some(p.(hasStartRadio := false)))
  {
  }

  // ---------------------------------------------------------------------------
  // Tag fallbacks of _set_media_tags

  /** A field of the yt-dlp info dictionary: absent, JSON null, or a string. */
  datatype Field = Missing | Null | Str(s: string)

  /** Reading a field with a default for when it is absent; a null value reads as `None`. */
  function Get(f: Field, default: Option<string>): Option<string> {
    match f
    case Missing => default
    case Null => None
    case Str(s) => Some(s)
  }

  /** Python's truthiness of an optional string. */
  predicate Truthy(v: Option<string>) {
    v.Some? && v.value != ""
  }

  /** `a or b` */
  function Or(a: Option<string>, b: Option<string>): Option<string> {
    if Truthy(a) then a else b
  }

  /** The fields of the info dictionary `_set_media_tags` reads; `thumbnails` lists the `url` of each entry. */
  datatype MediaInfo = MediaInfo(
    id: string,
    title: Field,
    uploader: Field,
    playlistTitle: Field,
    album: Field,
    uploadDate: Field,
    thumbnail: Field,
    thumbnails: seq<Field>)

  const DefaultAlbum: string := "YouTube Music"

  /** The album tag: the playlist title when it is truthy, else the album field with `YouTube Music` as its default. */
  function Album(info: MediaInfo): Option<string> {
    Or(Get(info.playlistTitle, Some("")), Get(info.album, Some(DefaultAlbum)))
  }

  /**
   * A non-empty playlist title wins; otherwise the album field is read with
   * the default — so an album that is present but empty yields the empty
   * string, not the default.
   */
  lemma AlbumFallback(info: MediaInfo)
    ensures (info.playlistTitle.Str? && info.playlistTitle.s != "") ==> Album(info) == Some(info.playlistTitle.s)
    ensures !(info.playlistTitle.Str? && info.playlistTitle.s != "") ==>
      Album(info) == match info.album
        case Missing => Some(DefaultAlbum)
        case Null => None
        case Str(a) => Some(a)
  {
  }

  /** The date tag: the first four characters of the upload date when that field is truthy, no tag otherwise. */
  function DateTag(info: MediaInfo): Option<string> {
    var d := Get(info.uploadDate, None);
    if Truthy(d) then Some(if |d.value| <= 4 then d.value else d.value[..4]) else None
  }

  /** The title and artist tags: the `title` and `uploader` fields, read with the empty string as default. */
  function TitleTag(info: MediaInfo): Option<string> {
    Get(info.title, Some(""))
  }

  function ArtistTag(info: MediaInfo): Option<string> {
    Get(info.uploader, Some(""))
  }

  /**
   * There is a date tag exactly when the upload date is a non-empty string;
   * it is then the year part: a prefix of the date, four characters long
   * unless the date is shorter.
   */
  lemma DateTagRule(info: MediaInfo)
    ensures DateTag(info).Some? <==> info.uploadDate.Str? && info.uploadDate.s != ""
    ensures DateTag(info).Some? ==>
      var d := info.uploadDate.s;
      && StartsWith(d, DateTag(info).value)
      && |DateTag(info).value| == Min(4, |d|)
    ensures info.uploadDate == Str("20240115") ==> DateTag(info) == Some("2024")
  {
    assert "20240115"[..4] == "2024";
  }

  /** An absent title or uploader gives an empty tag; a present one is copied as it is. */
  lemma TextTagDefaults(info: MediaInfo)
    ensures info.title.Missing? ==> TitleTag(info) == Some("")
    ensures info.title.Str? ==> TitleTag(info) == Some(info.title.s)
    ensures info.uploader.Missing? ==> ArtistTag(info) == Some("")
    ensures info.uploader.Str? ==> ArtistTag(info) == Some(info.uploader.s)
  {
  }

  /** The first truthy URL among the `thumbnails` entries, if any. */
  function FirstThumbnailUrl(ts: seq<Field>): (r: Option<string>)
    ensures r.Some? ==> r.value != "" && exists i :: (0 <= i < |ts| && ts[i] == Str(r.value)
      && forall j :: 0 <= j < i ==> !Truthy(Get(ts[j], None)))
    ensures r.None? ==> forall i :: 0 <= i < |ts| ==> !Truthy(Get(ts[i], None))
    decreases |ts|
  {
    if ts == [] then None
    else if Truthy(Get(ts[0], None)) then Some(ts[0].s)
    else
      var r := FirstThumbnailUrl(ts[1..]);
      assert forall i :: 1 <= i < |ts| ==> ts[i] == ts[1..][i - 1];
      assert r.Some? ==> exists i :: (0 <= i < |ts| && ts[i] == Str(r.value)
        && forall j :: 0 <= j < i ==> !Truthy(Get(ts[j], None))) by {
        if r.Some? {
          var k :| 0 <= k < |ts[1..]| && ts[1..][k] == Str(r.value)
            && forall j :: 0 <= j < k ==> !Truthy(Get(ts[1..][j], None));
          assert ts[k + 1] == Str(r.value);
          forall j | 0 <= j < k + 1 ensures !Truthy(Get(ts[j], None)) {
            if j > 0 {
              assert ts[j] == ts[1..][j - 1];
            }
          }
        }
      }
      r
  }

  function MaxresUrl(id: string): string {
    "https://i.ytimg.com/vi/" + id + "/maxresdefault.jpg"
  }

  function HqUrl(id: string): string {
    "https://i.ytimg.com/vi/" + id + "/hqdefault.jpg"
  }

  /** The candidate list, in order. */
  function ThumbnailCandidates(info: MediaInfo): seq<Option<string>> {
    [Get(info.thumbnail, None), FirstThumbnailUrl(info.thumbnails), Some(MaxresUrl(info.id)), Some(HqUrl(info.id))]
  }

  /** The first truthy candidate, if any. */
  function FirstTruthy(vs: seq<Option<string>>): (r: Option<string>)
    ensures r.Some? ==> r.value != "" && exists i :: 0 <= i < |vs| && vs[i] == r && forall j :: 0 <= j < i ==> !Truthy(vs[j])
    ensures r.None? ==> forall i :: 0 <= i < |vs| ==> !Truthy(vs[i])
    decreases |vs|
  {
    if vs == [] then None
    else if Truthy(vs[0]) then vs[0]
    else
      var r := FirstTruthy(vs[1..]);
      assert forall i :: 1 <= i < |vs| ==> vs[i] == vs[1..][i - 1];
      r
  }

  function ThumbnailUrl(info: MediaInfo): Option<string> {
    FirstTruthy(ThumbnailCandidates(info))
  }

  /**
   * The chosen thumbnail: the `thumbnail` field if truthy, else the first
   * truthy entry URL, else the maxres URL. There is always one, and the hq
   * candidate, coming after the maxres URL that is never empty, is never
   * reached: the first three candidates alone decide.
   */
  lemma ThumbnailFallback(info: MediaInfo)
    ensures Truthy(Get(info.thumbnail, None)) ==> ThumbnailUrl(info) == Some(info.thumbnail.s)
    ensures !Truthy(Get(info.thumbnail, None)) && FirstThumbnailUrl(info.thumbnails).Some? ==>
      ThumbnailUrl(info) == FirstThumbnailUrl(info.thumbnails)
    ensures !Truthy(Get(info.thumbnail, None)) && FirstThumbnailUrl(info.thumbnails).None? ==>
      ThumbnailUrl(info) == Some(MaxresUrl(info.id))
    ensures ThumbnailUrl(info).Some?
    ensures ThumbnailUrl(info) == FirstTruthy(ThumbnailCandidates(info)[..3])
  {
    var vs := ThumbnailCandidates(info);
    var m := MaxresUrl(info.id);
    assert m != "";
    assert vs[1..][0] == FirstThumbnailUrl(info.thumbnails);
    assert vs[1..][1..] == [Some(m), Some(HqUrl(info.id))];
    assert FirstTruthy(vs[1..][1..]) == Some(m);
    var ws := vs[..3];
    assert ws[1..][0] == FirstThumbnailUrl(info.thumbnails);
    assert ws[1..][1..] == [Some(m)];
    assert FirstTruthy(ws[1..][1..]) == Some(m);
  }
}
