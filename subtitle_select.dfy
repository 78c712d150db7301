/**
 * Which downloaded subtitle file `TranscriptService` reads: the classification
 * of file names done by `_find_subtitle_files` and the priority walk of
 * `_parse_subtitle_file`. The directory listing is an input here.
 */
module SubtitleSelect {
  import opened Wrappers
  import opened Text

  /** The two `FileNotFoundError`s of the selection, told apart by their messages. */
  datatype Error = NoSubtitleFiles | NoUsableSubtitle

  const ManualJa: string := "manual_ja"
  const ManualEn: string := "manual_en"
  const AutoJa: string := "auto_ja"
  const AutoEn: string := "auto_en"

  /** The four keys the classification can produce. */
  predicate IsKey(k: string) {
    k == ManualJa || k == ManualEn || k == AutoJa || k == AutoEn
  }

  /** The names the glob `*.vtt` yields. */
  predicate IsVttName(name: string) {
    EndsWith(name, ".vtt")
  }

  /** `str(Path(temp_dir) / name)` for a directory without a trailing slash. */
  function PathOf(dir: string, name: string): string {
    dir + "/" + name
  }

  /** The if/elif chain on substrings: the first pattern that occurs in the name decides its key. */
  function ClassifyName(name: string): (k: Option<string>)
    ensures k.Some? ==> IsKey(k.value)
  {
    if Contains(name, ".ja.vtt") then Some(ManualJa)
    else if Contains(name, ".en.vtt") then Some(ManualEn)
    else if Contains(name, ".ja.auto.vtt") then Some(AutoJa)
    else if Contains(name, ".en.auto.vtt") then Some(AutoEn)
    else None
  }

  /** The key one listed name contributes, if the glob yields it and the chain classifies it. */
  function KeyOf(name: string): Option<string> {
    if IsVttName(name) then ClassifyName(name) else None
  }

  /** One iteration of the loop filling `subtitle_files`: a later file overwrites an earlier one under the same key. */
  function ClassifyStep(files: map<string, string>, dir: string, name: string): map<string, string> {
    match KeyOf(name)
    case None => files
    case Some(k) => files[k := PathOf(dir, name)]
  }

  /** `subtitle_files` after the loop has seen `names`, in listing order. */
  function Classify(dir: string, names: seq<string>): map<string, string>
    decreases |names|
  {
    if names == [] then map[]
    else ClassifyStep(Classify(dir, names[..|names| - 1]), dir, names[|names| - 1])
  }

  /** What `_find_subtitle_files` returns, or the error it raises when no name classified. */
  function FindSubtitleFiles(dir: string, names: seq<string>): Result<map<string, string>, Error> {
    var files := Classify(dir, names);
    if files == map[] then Failure(NoSubtitleFiles) else Success(files)
  }

  /** A name holding `.ja.vtt` is always a manual Japanese subtitle, whatever else it holds. */
  lemma JaVttWins(name: string)
    requires Contains(name, ".ja.vtt")
    ensures ClassifyName(name) == Some(ManualJa)
  {
  }

  /** Only the four keys occur, and a key is present exactly when some listed name yields it. */
  lemma {:induction false} ClassifyKeys(dir: string, names: seq<string>, k: string)
    ensures k in Classify(dir, names) ==> IsKey(k)
    ensures k in Classify(dir, names) <==> exists i :: 0 <= i < |names| && KeyOf(names[i]) == Some(k)
    decreases |names|
  {
    if names != [] {
      var n := |names| - 1;
      var init := names[..n];
      ClassifyKeys(dir, init, k);
      if KeyOf(names[n]) != Some(k) {
        if i :| 0 <= i < |names| && KeyOf(names[i]) == Some(k) {
          assert init[i] == names[i];
        }
        if i :| 0 <= i < |init| && KeyOf(init[i]) == Some(k) {
          assert names[i] == init[i];
        }
      }
    }
  }

  /** A later file overwrites an earlier one: the path under a key is the one of the LAST name yielding it. */
  lemma {:induction false} ClassifyLastWins(dir: string, names: seq<string>, k: string)
    requires k in Classify(dir, names)
    ensures exists i ::
      && 0 <= i < |names| && KeyOf(names[i]) == Some(k)
      && Classify(dir, names)[k] == PathOf(dir, names[i])
      && forall j :: i < j < |names| ==> KeyOf(names[j]) != Some(k)
    decreases |names|
  {
    var n := |names| - 1;
    var init := names[..n];
    if KeyOf(names[n]) == Some(k) {
      assert Classify(dir, names)[k] == PathOf(dir, names[n]);
    } else {
      ClassifyLastWins(dir, init, k);
      var i :| && 0 <= i < |init| && KeyOf(init[i]) == Some(k)
        && Classify(dir, init)[k] == PathOf(dir, init[i])
        && forall j :: i < j < |init| ==> KeyOf(init[j]) != Some(k);
      assert names[i] == init[i];
      forall j | i < j < |names| ensures KeyOf(names[j]) != Some(k) {
        if j < n {
          assert names[j] == init[j];
        }
      }
    }
  }

  /** The classification fails exactly when no listed name yields a key. */
  lemma FindSubtitleFilesFails(dir: string, names: seq<string>)
    ensures FindSubtitleFiles(dir, names).Failure? <==> forall i :: 0 <= i < |names| ==> KeyOf(names[i]).None?
  {
    var files := Classify(dir, names);
    if i :| 0 <= i < |names| && KeyOf(names[i]).Some? {
      ClassifyKeys(dir, names, KeyOf(names[i]).value);
    }
    if files != map[] {
      var k :| k in files;
      ClassifyKeys(dir, names, k);
    }
  }

  // ---------------------------------------------------------------------------
  // Selection

  /** `priority_order`: manual Japanese, automatic Japanese, manual English, automatic English. */
  const Priority: seq<string> := [ManualJa, AutoJa, ManualEn, AutoEn]

  /** The first key of `order` present in `files`. */
  function FirstPresent(files: map<string, string>, order: seq<string>): (k: Option<string>)
    ensures k.Some? ==> k.value in files && k.value in order
    ensures k.None? ==> forall i :: 0 <= i < |order| ==> order[i] !in files
    decreases |order|
  {
    if order == [] then None
    else if order[0] in files then Some(order[0])
    else FirstPresent(files, order[1..])
  }

  /** The chosen file with its labels. */
  datatype Selection = Selection(key: string, path: string, kind: string, language: string)

  /** The subtitle type: `manual` when the key holds `manual`, else `auto`. */
  function KindOfKey(key: string): string {
    if Contains(key, "manual") then "manual" else "auto"
  }

  /** The language label: `日本語` when the key holds `ja`, else `英語`. */
  function LanguageOfKey(key: string): string {
    if Contains(key, "ja") then "日本語" else "英語"
  }

  /** The selection part of `_parse_subtitle_file`, or the error it raises when nothing usable is there. */
  function Select(files: map<string, string>): Result<Selection, Error> {
    match FirstPresent(files, Priority)
    case None => Failure(NoUsableSubtitle)
    case Some(k) =>
      if files[k] == "" then Failure(NoUsableSubtitle)
      else Success(Selection(k, files[k], KindOfKey(k), LanguageOfKey(k)))
  }

  /** The walk over the priority list, written out: it is a fixed if/elif chain over the four keys. */
  lemma FirstPresentInPriority(files: map<string, string>)
    ensures FirstPresent(files, Priority) ==
      if ManualJa in files then Some(ManualJa)
      else if AutoJa in files then Some(AutoJa)
      else if ManualEn in files then Some(ManualEn)
      else if AutoEn in files then Some(AutoEn)
      else None
  {
    assert Priority[0] == ManualJa && Priority[1..] == [AutoJa, ManualEn, AutoEn];
    assert FirstPresent(files, [AutoJa, ManualEn, AutoEn])
      == if AutoJa in files then Some(AutoJa) else FirstPresent(files, [ManualEn, AutoEn]);
    assert FirstPresent(files, [ManualEn, AutoEn])
      == if ManualEn in files then Some(ManualEn) else FirstPresent(files, [AutoEn]);
    assert FirstPresent(files, [AutoEn]) == if AutoEn in files then Some(AutoEn) else FirstPresent(files, []);
  }

  /**
   * The highest-priority key present wins: the selected key is in the map,
   * every key before it in the priority list is absent, and it fails only
   * when no priority key is present or the chosen path is empty.
   */
  lemma SelectPriority(files: map<string, string>)
    ensures Select(files).Success? ==>
      var k := Select(files).value.key;
      && k in files && Select(files).value.path == files[k]
      && exists p :: 0 <= p < |Priority| && Priority[p] == k && forall q :: 0 <= q < p ==> Priority[q] !in files
    ensures Select(files).Failure? <==>
      (forall p :: 0 <= p < |Priority| ==> Priority[p] !in files) || files[FirstPresent(files, Priority).value] == ""
  {
    FirstPresentInPriority(files);
    var r := FirstPresent(files, Priority);
    if r.Some? {
      var k := r.value;
      if k == ManualJa {
        assert Priority[0] == k;
      } else if k == AutoJa {
        assert Priority[1] == k;
      } else if k == ManualEn {
        assert Priority[2] == k;
      } else {
        assert Priority[3] == k;
      }
    }
  }

  /** The selection looks only at the four priority keys: other entries, and the map's order, do not matter. */
  lemma SelectOnlyReadsPriorityKeys(f: map<string, string>, g: map<string, string>)
    requires forall p :: 0 <= p < |Priority| ==> (Priority[p] in f <==> Priority[p] in g)
    requires forall p :: 0 <= p < |Priority| && Priority[p] in f ==> f[Priority[p]] == g[Priority[p]]
    ensures Select(f) == Select(g)
  {
    assert Priority[0] == ManualJa && Priority[1] == AutoJa && Priority[2] == ManualEn && Priority[3] == AutoEn;
    FirstPresentInPriority(f);
    FirstPresentInPriority(g);
  }

  lemma LabelsOfManualJa()
    ensures KindOfKey(ManualJa) == "manual" && LanguageOfKey(ManualJa) == "日本語"
  {
    assert StartsWith(ManualJa, "manual");
    ContainsAt(ManualJa, "ja", 7);
  }

  lemma LabelsOfManualEn()
    ensures KindOfKey(ManualEn) == "manual" && LanguageOfKey(ManualEn) == "英語"
  {
    assert StartsWith(ManualEn, "manual");
    MissingChar(ManualEn, "ja", 'j');
  }

  lemma LabelsOfAutoJa()
    ensures KindOfKey(AutoJa) == "auto" && LanguageOfKey(AutoJa) == "日本語"
  {
    MissingChar(AutoJa, "manual", 'm');
    ContainsAt(AutoJa, "ja", 5);
  }

  lemma LabelsOfAutoEn()
    ensures KindOfKey(AutoEn) == "auto" && LanguageOfKey(AutoEn) == "英語"
  {
    MissingChar(AutoEn, "manual", 'm');
    MissingChar(AutoEn, "ja", 'j');
  }

  /** The type is `manual` exactly for the manual keys and the language `日本語` exactly for the Japanese ones. */
  lemma KeyLabels(k: string)
    requires IsKey(k)
    ensures KindOfKey(k) == "manual" <==> (k == ManualJa || k == ManualEn)
    ensures KindOfKey(k) == "auto" <==> (k == AutoJa || k == AutoEn)
    ensures LanguageOfKey(k) == "日本語" <==> (k == ManualJa || k == AutoJa)
    ensures LanguageOfKey(k) == "英語" <==> (k == ManualEn || k == AutoEn)
  {
    LabelsOfManualJa();
    LabelsOfManualEn();
    LabelsOfAutoJa();
    LabelsOfAutoEn();
  }

  /**
   * Whatever the classification finds, the selection can use: every key it
   * stores is a priority key and every path it stores is non-empty, so the
   * second "not usable" error of `_parse_subtitle_file` is never raised on
   * what `_find_subtitle_files` returns.
   */
  lemma FoundFilesAreUsable(dir: string, names: seq<string>)
    ensures FindSubtitleFiles(dir, names).Success? ==> Select(FindSubtitleFiles(dir, names).value).Success?
  {
    var files := Classify(dir, names);
    if files != map[] {
      var k :| k in files;
      ClassifyKeys(dir, names, k);
      FirstPresentInPriority(files);
      var c := FirstPresent(files, Priority).value;
      ClassifyLastWins(dir, names, c);
      var i :| 0 <= i < |names| && files[c] == PathOf(dir, names[i]);
      assert files[c][|dir|] == '/';
    }
  }

  /** Only an automatic English subtitle is there: it is selected, as `auto` and `英語`. */
  lemma OnlyAutoEnglish(path: string)
    requires path != ""
    ensures Select(map[AutoEn := path]) == Success(Selection(AutoEn, path, "auto", "英語"))
  {
    KeyLabels(AutoEn);
    FirstPresentInPriority(map[AutoEn := path]);
  }
}
