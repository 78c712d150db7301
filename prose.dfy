/**
 * The two text passes of `TranscriptService` after the VTT scan:
 * `_clean_and_format_text` (split on the ideographic full stop, keep the first
 * occurrence of every non-empty stripped sentence, re-terminate) and
 * `_add_paragraph_breaks` (group sentences into paragraphs of at most three,
 * closing a paragraph early at a sentence that holds a keyword).
 */
module Prose {
  import opened Text

  /** The ideographic full stop U+3002, the only sentence delimiter the code knows. */
  const Period: char := '。'

  /** A sentence as both passes keep it: non-empty, stripped, without a full stop. */
  predicate IsSentence(s: string) {
    s != "" && IsStripped(s) && Period !in s
  }

  lemma StrippedPiece(piece: string)
    requires Period !in piece && Strip(piece) != ""
    ensures IsSentence(Strip(piece))
  {
    TrimLacks(piece, IsSpace, Period);
  }

  /** The pieces of a split, each stripped: what both loops look at. */
  function StripAll(pieces: seq<string>): (xs: seq<string>)
    ensures |xs| == |pieces| && forall i :: 0 <= i < |pieces| ==> xs[i] == Strip(pieces[i])
  {
    seq(|pieces|, i requires 0 <= i < |pieces| => Strip(pieces[i]))
  }

  /** The stripped pieces of a text split on the full stop. */
  function SentencesOf(text: string): seq<string> {
    StripAll(Split(text, Period))
  }

  /** Every non-empty stripped piece of a split on the full stop is a sentence. */
  lemma SentencesOfAreSentences(text: string)
    ensures forall i :: 0 <= i < |SentencesOf(text)| && SentencesOf(text)[i] != "" ==> IsSentence(SentencesOf(text)[i])
  {
    var pieces := Split(text, Period);
    forall i | 0 <= i < |pieces| && Strip(pieces[i]) != "" ensures IsSentence(Strip(pieces[i])) {
      StrippedPiece(pieces[i]);
    }
  }

  // ---------------------------------------------------------------------------
  // Sentence deduplication

  /** One iteration of the dedup loop on a stripped piece: append it unless it is empty or already kept. */
  function DedupStep(kept: seq<string>, s: string): seq<string> {
    if s != "" && s !in kept then kept + [s] else kept
  }

  /** `unique_sentences` after the loop has seen the stripped pieces `xs`. */
  function Dedup(xs: seq<string>): seq<string>
    decreases |xs|
  {
    if xs == [] then [] else DedupStep(Dedup(xs[..|xs| - 1]), xs[|xs| - 1])
  }

  predicate Distinct(xs: seq<string>) {
    forall i, j :: 0 <= i < j < |xs| ==> xs[i] != xs[j]
  }

  /** The kept sentences are pairwise distinct, and they are exactly the non-empty pieces. */
  lemma {:induction false} DedupCovers(xs: seq<string>)
    ensures Distinct(Dedup(xs))
    ensures forall t :: t in Dedup(xs) <==> t != "" && t in xs
    decreases |xs|
  {
    if xs != [] {
      var n := |xs| - 1;
      DedupCovers(xs[..n]);
      assert xs == xs[..n] + [xs[n]];
    }
  }

  /**
   * First-seen order: when one kept sentence comes before another, the first
   * occurs in the input before every occurrence of the second.
   */
  lemma {:induction false} DedupFirstSeen(xs: seq<string>)
    ensures forall i, j, q :: (0 <= i < j < |Dedup(xs)| && 0 <= q < |xs| && xs[q] == Dedup(xs)[j]
      ==> exists p :: 0 <= p < q && xs[p] == Dedup(xs)[i])
    decreases |xs|
  {
    if xs != [] {
      var n := |xs| - 1;
      var init := xs[..n];
      var d0 := Dedup(init);
      var d := Dedup(xs);
      DedupFirstSeen(init);
      DedupCovers(init);
      if |d| > |d0| {
        forall q | 0 <= q < n ensures xs[q] != xs[n] {
          assert xs[q] == init[q];
        }
      }
      forall i, j, q | 0 <= i < j < |d| && 0 <= q < |xs| && xs[q] == d[j]
        ensures exists p :: 0 <= p < q && xs[p] == d[i]
      {
        assert d[i] == d0[i] && d[i] in init;
        var pi :| 0 <= pi < |init| && init[pi] == d[i];
        if j < |d0| {
          assert d[j] == d0[j];
          if q < n {
            assert init[q] == xs[q];
            var p :| 0 <= p < q && init[p] == d0[i];
            assert xs[p] == init[p];
          } else {
            assert d[j] in init;
            var qj :| 0 <= qj < |init| && init[qj] == d[j];
            var p :| 0 <= p < qj && init[p] == d0[i];
            assert xs[p] == init[p];
          }
        } else {
          // d[j] is the newly appended sentence, so its only occurrence is the last
          assert xs[pi] == init[pi];
        }
      }
    }
  }

  /** A non-empty text that does not end with a full stop gets one appended. */
  function Terminate(s: string): string {
    if !EndsWith(s, [Period]) && s != "" then s + [Period] else s
  }

  /** The distinct sentences `_clean_and_format_text` keeps. */
  function UniqueSentences(text: string): seq<string> {
    Dedup(SentencesOf(text))
  }

  /** The text `_clean_and_format_text` hands to `_add_paragraph_breaks`. */
  function CleanedText(text: string): string {
    Terminate(Join(UniqueSentences(text), Period))
  }

  lemma UniqueSentencesAreSentences(text: string)
    ensures forall i :: 0 <= i < |UniqueSentences(text)| ==> IsSentence(UniqueSentences(text)[i])
  {
    var u := UniqueSentences(text);
    DedupCovers(SentencesOf(text));
    SentencesOfAreSentences(text);
    forall i | 0 <= i < |u| ensures IsSentence(u[i]) {
      assert u[i] in SentencesOf(text);
    }
  }

  /**
   * The cleaned text is the kept sentences, each followed by one full stop:
   * splitting it again gives them back, with the empty piece after the last
   * stop; it ends with a full stop exactly when it is non-empty.
   */
  lemma CleanedTextSplits(text: string)
    ensures var u := UniqueSentences(text);
      && (CleanedText(text) == "" <==> u == [])
      && (EndsWith(CleanedText(text), [Period]) <==> u != [])
      && Split(CleanedText(text), Period) == u + [""]
  {
    var u := UniqueSentences(text);
    UniqueSentencesAreSentences(text);
    TerminatedJoinSplits(u);
  }

  /** Joining non-empty, full-stop-free pieces and terminating the result gives a text that splits back into them. */
  lemma TerminatedJoinSplits(u: seq<string>)
    requires forall i :: 0 <= i < |u| ==> u[i] != "" && Period !in u[i]
    ensures Terminate(Join(u, Period)) == "" <==> u == []
    ensures EndsWith(Terminate(Join(u, Period)), [Period]) <==> u != []
    ensures Split(Terminate(Join(u, Period)), Period) == u + [""]
  {
    var j := Join(u, Period);
    JoinEmptyIff(u, Period);
    if u != [] {
      JoinLast(u, Period);
      var last := u[|u| - 1];
      assert last[|last| - 1] in last;
      assert !EndsWith(j, [Period]);
      assert Terminate(j) == j + [Period] + "";
      SplitConcat(j, "", Period);
      SplitJoin(u, Period);
    }
  }

  // ---------------------------------------------------------------------------
  // Paragraph grouping

  /** The sentence holds one of the four keywords as a substring. */
  predicate HasKeyword(s: string) {
    Contains(s, "です") || Contains(s, "ます") || Contains(s, "でしょう") || Contains(s, "ですね")
  }

  /** The fourth keyword adds nothing: a sentence holding 'ですね' already holds 'です'. */
  lemma HasKeywordWithoutDesune(s: string)
    ensures HasKeyword(s) <==> Contains(s, "です") || Contains(s, "ます") || Contains(s, "でしょう")
  {
    if Contains(s, "ですね") {
      ContainsIff(s, "ですね");
      var i :| OccursAt(s, "ですね", i);
      assert s[i..i + 2] == "ですね"[..2];
      assert OccursAt(s, "です", i);
      ContainsIff(s, "です");
    }
  }

  /** The loop's state: the finished `paragraphs` (as sentence lists) and `current_paragraph`. */
  datatype Grouping = Grouping(done: seq<seq<string>>, current: seq<string>)

  /** One iteration of the grouping loop on a stripped piece. */
  function GroupStep(g: Grouping, s: string): Grouping {
    if s == "" then g
    else
      var cur := g.current + [s];
      if |cur| >= 3 || HasKeyword(s) then Grouping(g.done + [cur], []) else Grouping(g.done, cur)
  }

  function Group(xs: seq<string>): Grouping
    decreases |xs|
  {
    if xs == [] then Grouping([], []) else GroupStep(Group(xs[..|xs| - 1]), xs[|xs| - 1])
  }

  /** The paragraphs, including the trailing partial one the code flushes after the loop. */
  function Paragraphs(xs: seq<string>): seq<seq<string>> {
    var g := Group(xs);
    if g.current != [] then g.done + [g.current] else g.done
  }

  /** A paragraph's sentences joined by full stops, with a closing full stop. */
  function RenderParagraph(p: seq<string>): string {
    Join(p, Period) + [Period]
  }

  function RenderParagraphs(ps: seq<seq<string>>): (rs: seq<string>)
    ensures |rs| == |ps| && forall i :: 0 <= i < |ps| ==> rs[i] == RenderParagraph(ps[i])
  {
    seq(|ps|, i requires 0 <= i < |ps| => RenderParagraph(ps[i]))
  }

  /** The paragraphs `_add_paragraph_breaks(text)` forms. */
  function ParagraphsOf(text: string): seq<seq<string>> {
    Paragraphs(SentencesOf(text))
  }

  /** What `_add_paragraph_breaks(text)` returns. */
  function ParagraphText(text: string): string {
    Join(RenderParagraphs(ParagraphsOf(text)), '\n')
  }

  /** What `_clean_and_format_text(text)` returns. */
  function FormatText(text: string): string {
    ParagraphText(CleanedText(text))
  }

  function Flatten(ps: seq<seq<string>>): seq<string>
    decreases |ps|
  {
    if ps == [] then [] else Flatten(ps[..|ps| - 1]) + ps[|ps| - 1]
  }

  /** The non-empty pieces, in order. */
  function NonBlank(xs: seq<string>): seq<string>
    decreases |xs|
  {
    if xs == [] then []
    else NonBlank(xs[..|xs| - 1]) + (if xs[|xs| - 1] != "" then [xs[|xs| - 1]] else [])
  }

  /** A paragraph as the loop forms it: one to three sentences, no keyword before the last one. */
  predicate WellGrouped(p: seq<string>) {
    1 <= |p| <= 3 && forall j :: 0 <= j < |p| - 1 ==> !HasKeyword(p[j])
  }

  /** A paragraph closed inside the loop: it reached three sentences or its last sentence held a keyword. */
  predicate ClosedProperly(p: seq<string>) {
    p != [] && (|p| == 3 || HasKeyword(p[|p| - 1]))
  }

  predicate GroupingInvariant(g: Grouping, xs: seq<string>) {
    && Flatten(g.done) + g.current == NonBlank(xs)
    && (forall i :: 0 <= i < |g.done| ==> WellGrouped(g.done[i]) && ClosedProperly(g.done[i]))
    && |g.current| <= 2 && forall j :: 0 <= j < |g.current| ==> !HasKeyword(g.current[j])
  }

  lemma FlattenAppend(ps: seq<seq<string>>, p: seq<string>)
    ensures Flatten(ps + [p]) == Flatten(ps) + p
  {
    assert (ps + [p])[..|ps|] == ps;
  }

  lemma GroupStepKeeps(g: Grouping, xs: seq<string>, s: string)
    requires GroupingInvariant(g, xs)
    ensures GroupingInvariant(GroupStep(g, s), xs + [s])
  {
    assert (xs + [s])[..|xs|] == xs;
    if s != "" {
      var cur := g.current + [s];
      if |cur| >= 3 || HasKeyword(s) {
        FlattenAppend(g.done, cur);
      }
    }
  }

  lemma {:induction false} GroupInvariant(xs: seq<string>)
    ensures GroupingInvariant(Group(xs), xs)
    decreases |xs|
  {
    if xs != [] {
      var n := |xs| - 1;
      GroupInvariant(xs[..n]);
      GroupStepKeeps(Group(xs[..n]), xs[..n], xs[n]);
      assert xs[..n] + [xs[n]] == xs;
    }
  }

  /** Every non-empty sentence lands in exactly one paragraph, in the original order. */
  lemma ParagraphsPartition(xs: seq<string>)
    ensures Flatten(Paragraphs(xs)) == NonBlank(xs)
  {
    GroupInvariant(xs);
    var g := Group(xs);
    if g.current != [] {
      FlattenAppend(g.done, g.current);
    }
  }

  /**
   * Every paragraph has one to three sentences and no keyword before its last
   * sentence; every paragraph but the last ended at three sentences or at a
   * keyword.
   */
  lemma ParagraphsShape(xs: seq<string>)
    ensures var ps := Paragraphs(xs);
      && (forall i :: 0 <= i < |ps| ==> WellGrouped(ps[i]))
      && (forall i :: 0 <= i < |ps| - 1 ==> ClosedProperly(ps[i]))
  {
    GroupInvariant(xs);
  }

  lemma {:induction false} FlattenMember(ps: seq<seq<string>>, i: nat, j: nat)
    requires i < |ps| && j < |ps[i]|
    ensures ps[i][j] in Flatten(ps)
    decreases |ps|
  {
    var n := |ps| - 1;
    if i < n {
      FlattenMember(ps[..n], i, j);
      assert ps[..n][i] == ps[i];
    } else {
      assert Flatten(ps)[|Flatten(ps[..n])| + j] == ps[i][j];
    }
  }

  lemma {:induction false} NonBlankMember(xs: seq<string>, t: string)
    requires t in NonBlank(xs)
    ensures t in xs && t != ""
    decreases |xs|
  {
    var n := |xs| - 1;
    if t in NonBlank(xs[..n]) {
      NonBlankMember(xs[..n], t);
    }
  }

  /** Every sentence of a paragraph formed from a text is a non-empty stripped piece of that text. */
  lemma ParagraphSentence(text: string, i: nat, j: nat)
    requires i < |ParagraphsOf(text)| && j < |ParagraphsOf(text)[i]|
    ensures ParagraphsOf(text)[i][j] in SentencesOf(text) && IsSentence(ParagraphsOf(text)[i][j])
  {
    var xs := SentencesOf(text);
    var ps := ParagraphsOf(text);
    ParagraphsPartition(xs);
    FlattenMember(ps, i, j);
    NonBlankMember(xs, ps[i][j]);
    SentencesOfAreSentences(text);
  }

  /** A rendered paragraph ends with a full stop and splits back into its sentences. */
  lemma RenderParagraphSplits(p: seq<string>)
    requires p != [] && forall j :: 0 <= j < |p| ==> IsSentence(p[j])
    ensures EndsWith(RenderParagraph(p), [Period])
    ensures Split(RenderParagraph(p), Period) == p + [""]
  {
    SplitConcat(Join(p, Period), "", Period);
    assert RenderParagraph(p) == Join(p, Period) + [Period] + "";
    SplitJoin(p, Period);
  }

  /** Each rendered paragraph of a text ends with a full stop and splits back into its one to three sentences. */
  lemma RenderedParagraphs(text: string, i: nat)
    requires i < |ParagraphsOf(text)|
    ensures var p := ParagraphsOf(text)[i];
      && 1 <= |p| <= 3
      && EndsWith(RenderParagraph(p), [Period])
      && Split(RenderParagraph(p), Period) == p + [""]
  {
    var p := ParagraphsOf(text)[i];
    ParagraphsShape(SentencesOf(text));
    forall j | 0 <= j < |p| ensures IsSentence(p[j]) {
      ParagraphSentence(text, i, j);
    }
    RenderParagraphSplits(p);
  }

  /** The paragraph text is empty exactly when the input holds no non-empty sentence. */
  lemma ParagraphTextEmptyIff(text: string)
    ensures ParagraphText(text) == "" <==> NonBlank(SentencesOf(text)) == []
  {
    var xs := SentencesOf(text);
    var ps := Paragraphs(xs);
    ParagraphsPartition(xs);
    ParagraphsShape(xs);
    var rs := RenderParagraphs(ps);
    JoinEmptyIff(rs, '\n');
    if ps != [] {
      FlattenMember(ps, 0, 0);
    }
  }

  /**
   * When the text has no line break of its own, splitting the result on line
   * breaks gives back the rendered paragraphs, one per line.
   */
  lemma ParagraphTextLines(text: string)
    requires '\n' !in text
    requires ParagraphsOf(text) != []
    ensures Split(ParagraphText(text), '\n') == RenderParagraphs(ParagraphsOf(text))
  {
    var ps := ParagraphsOf(text);
    var rs := RenderParagraphs(ps);
    forall i | 0 <= i < |rs| ensures '\n' !in rs[i] {
      if '\n' in rs[i] {
        assert '\n' in Join(ps[i], Period);
        JoinChars(ps[i], Period, '\n');
        var j :| 0 <= j < |ps[i]| && '\n' in ps[i][j];
        ParagraphSentence(text, i, j);
        SentenceCharsFromText(text, ps[i][j]);
      }
    }
    SplitJoin(rs, '\n');
  }

  /** A stripped piece of a text carries only characters of the text. */
  lemma SentenceCharsFromText(text: string, t: string)
    requires t in SentencesOf(text)
    ensures forall c :: c in t ==> c in text
  {
    var pieces := Split(text, Period);
    var xs := SentencesOf(text);
    var m :| 0 <= m < |xs| && xs[m] == t;
    assert t == Trim(pieces[m], IsSpace);
    JoinSplit(text, Period);
    forall c | c in t ensures c in text {
      TrimChars(pieces[m], IsSpace, c);
      JoinHasPiece(pieces, Period, m, c);
    }
  }

  lemma {:induction false} JoinHasPiece(parts: seq<string>, sep: char, m: nat, c: char)
    requires m < |parts| && c in parts[m]
    ensures c in Join(parts, sep)
    decreases |parts|
  {
    if |parts| > 1 {
      if m > 0 {
        JoinHasPiece(parts[1..], sep, m - 1, c);
      }
      assert Join(parts, sep) == parts[0] + [sep] + Join(parts[1..], sep);
    }
  }

  /** Sentences are their own strip, so re-splitting the cleaned text gives back the kept sentences. */
  lemma {:induction false} StripAllOfSentences(xs: seq<string>)
    requires forall j :: 0 <= j < |xs| ==> IsSentence(xs[j])
    ensures StripAll(xs + [""]) == xs + [""]
  {
    forall j | 0 <= j < |xs| ensures Strip(xs[j]) == xs[j] {
      StripOfStripped(xs[j]);
    }
    assert Strip("") == "";
  }

  lemma {:induction false} NonBlankOfNonEmpty(xs: seq<string>)
    requires forall j :: 0 <= j < |xs| ==> xs[j] != ""
    ensures NonBlank(xs + [""]) == xs
    decreases |xs|
  {
    assert (xs + [""])[..|xs|] == xs;
    NonBlankAll(xs);
  }

  lemma {:induction false} NonBlankAll(xs: seq<string>)
    requires forall j :: 0 <= j < |xs| ==> xs[j] != ""
    ensures NonBlank(xs) == xs
    decreases |xs|
  {
    if xs != [] {
      var n := |xs| - 1;
      NonBlankAll(xs[..n]);
      assert xs[..n] + [xs[n]] == xs;
    }
  }

  /**
   * The whole cleaning pass: the paragraphs' sentences, read in order, are
   * exactly the distinct non-empty sentences of the input in first-seen order.
   */
  lemma FormatTextSentences(text: string)
    ensures Flatten(ParagraphsOf(CleanedText(text))) == UniqueSentences(text)
  {
    var u := UniqueSentences(text);
    CleanedTextSplits(text);
    UniqueSentencesAreSentences(text);
    StripAllOfSentences(u);
    assert SentencesOf(CleanedText(text)) == u + [""];
    ParagraphsPartition(u + [""]);
    NonBlankOfNonEmpty(u);
  }
}
