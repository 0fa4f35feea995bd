/**
 * Chapter segmentation of `read_txt_file`, on text that is already decoded.
 *
 * `Step`, `Run` and `Flush` are the loop read as a left fold over the body's
 * lines; the class method `EpubGenerator.ReadTxtFile` is proved to compute
 * them. `Sections` is an independent description of the same result: the body
 * cut at every marker line, one section per marker plus a leading one, each
 * section kept when its text is not blank. `RunAsSections` proves the two agree.
 */
module Segmenter {
  import opened Text
  import opened Markers

  datatype Chapter = Chapter(title: string, content: string)

  /** The title the generator starts with, and the one the first line may not keep. */
  const DefaultTitle: string := "未命名小说"

  /** The title of the chapter that collects text before the first marker. */
  const Preface: string := "前言"

  /**
   * The book title: the first line stripped; when that is blank or the default
   * title, the file's stem instead, unless the stem is empty too.
   */
  function BookTitle(firstLine: string, stem: string): (t: string)
    ensures !IsBlank(firstLine) && Strip(firstLine) != DefaultTitle ==> t == Strip(firstLine)
    ensures (IsBlank(firstLine) || Strip(firstLine) == DefaultTitle) && stem != [] ==> t == stem
    ensures stem == [] ==> t == Strip(firstLine)
  {
    StripEmptyIffBlank(firstLine);
    var t := Strip(firstLine);
    if (t == [] || t == DefaultTitle) && stem != [] then stem else t
  }

  /** The loop's locals: the accumulator `current_chapter`, `chapter_title`, and the chapters found. */
  datatype SegState = SegState(acc: string, title: string, found: seq<Chapter>)

  /** The pending chapter, when its accumulated text is not blank. */
  function Keep(title: string, acc: string): (r: seq<Chapter>)
    ensures |r| <= 1
    ensures r != [] ==> r[0].title == title && r[0].content != [] && Strip(r[0].content) == r[0].content
    ensures r != [] ==> r[0].content == Strip(acc)
    ensures r == [] <==> IsBlank(acc)
  {
    StripIdempotent(acc);
    StripEmptyIffBlank(acc);
    if Strip(acc) != [] then [Chapter(title, Strip(acc))] else []
  }

  /** One iteration of the loop over the body's lines. */
  function Step(st: SegState, raw: string): SegState
  {
    var line := Strip(raw);
    if line == [] then st.(acc := st.acc + "\n")
    else if IsMarker(line) then SegState("", line, st.found + Keep(st.title, st.acc))
    else st.(acc := st.acc + line + "\n")
  }

  function Run(st: SegState, lines: seq<string>): SegState
    decreases |lines|
  {
    if lines == [] then st else Step(Run(st, lines[..|lines| - 1]), lines[|lines| - 1])
  }

  /** The chapters after the loop, including the pending one when it is not blank. */
  function Flush(st: SegState): seq<Chapter>
  {
    st.found + Keep(st.title, st.acc)
  }

  function InitialState(existing: seq<Chapter>): SegState
  {
    SegState("", Preface, existing)
  }

  /**
   * Every line the loop tests is a piece of `split('\n')`, stripped, so it
   * holds no newline, and patterns 3 and 4 take their single-line reading on it.
   */
  lemma BodyLinesAreSingleLines(body: string, k: nat)
    requires k < |Split(body, '\n')|
    ensures var line := Strip(Split(body, '\n')[k]);
      '\n' !in line &&
      (Matches(NumberedLine, line) <==>
        (Markers.Run(line, Digit) >= 1 && Markers.Run(line, Digit) < |line| && line[Markers.Run(line, Digit)] == '.')) &&
      (Matches(BracketedLine, line) <==> (|line| >= 2 && line[0] == '【' && line[|line| - 1] == '】'))
  {
    var piece := Split(body, '\n')[k];
    var line := Strip(piece);
    SplitPartsHaveNoSep(body, '\n');
    StripIsInfix(piece);
    assert forall j :: 0 <= j < |line| ==> line[j] == piece[StripStart(piece) + j];
    SingleLinePatterns(line);
  }

  /** One more line for the fold: the loop's step on the state so far. */
  lemma RunSnoc(st: SegState, lines: seq<string>, i: nat)
    requires i < |lines|
    ensures Run(st, lines[..i + 1]) == Step(Run(st, lines[..i]), lines[i])
  {
    assert lines[..i + 1][..i] == lines[..i];
  }

  /**
   * The chapter list after `read_txt_file`: `existing` (the list it appends to),
   * then the chapters of `body`; when that leaves the list empty, one chapter
   * titled with the book title holding the whole body, stripped.
   */
  function Segment(existing: seq<Chapter>, body: string, bookTitle: string): seq<Chapter>
  {
    var loop := Flush(Run(InitialState(existing), Split(body, '\n')));
    if loop == [] then [Chapter(bookTitle, Strip(body))] else loop
  }

  lemma {:induction false} RunCons(st: SegState, l: string, rest: seq<string>)
    ensures Run(st, [l] + rest) == Run(Step(st, l), rest)
    decreases |rest|
  {
    if rest != [] {
      var last := rest[|rest| - 1];
      var init := rest[..|rest| - 1];
      assert ([l] + rest)[..|rest|] == [l] + init;
      RunCons(st, l, init);
    }
  }

  /** What a non-marker line contributes to its section's text. */
  function Piece(raw: string): string
  {
    var line := Strip(raw);
    if line == [] then "\n" else line + "\n"
  }

  function Body(lines: seq<string>): string
  {
    if lines == [] then [] else Piece(lines[0]) + Body(lines[1..])
  }

  datatype Section = Section(title: string, lines: seq<string>)

  /** The lines cut at every marker: a section titled `title`, then one per marker line. */
  function Sections(title: string, lines: seq<string>): (r: seq<Section>)
    ensures |r| >= 1 && r[0].title == title
    decreases |lines|
  {
    if lines == [] then [Section(title, [])]
    else if IsMarker(Strip(lines[0])) then [Section(title, [])] + Sections(Strip(lines[0]), lines[1..])
    else
      var rest := Sections(title, lines[1..]);
      [Section(title, [lines[0]] + rest[0].lines)] + rest[1..]
  }

  /** The sections whose text is not blank, as chapters. */
  function KeepAll(secs: seq<Section>): seq<Chapter>
  {
    if secs == [] then [] else Keep(secs[0].title, Body(secs[0].lines)) + KeepAll(secs[1..])
  }

  /** As KeepAll, with `acc` already accumulated in front of the first section's text. */
  function KeepFrom(acc: string, secs: seq<Section>): seq<Chapter>
    requires |secs| >= 1
  {
    Keep(secs[0].title, acc + Body(secs[0].lines)) + KeepAll(secs[1..])
  }

  /** A marker line closes the pending chapter and opens one titled with the line. */
  lemma StepMarker(st: SegState, l: string)
    requires IsMarker(Strip(l))
    ensures Step(st, l) == SegState("", Strip(l), st.found + Keep(st.title, st.acc))
  {
    EmptyIsNoMarker();
  }

  /** A line that is not a marker only adds its piece to the accumulator. */
  lemma StepNonMarker(st: SegState, l: string)
    requires !IsMarker(Strip(l))
    ensures Step(st, l) == st.(acc := st.acc + Piece(l))
  {
    EmptyIsNoMarker();
    assert st.acc + Strip(l) + "\n" == st.acc + (Strip(l) + "\n");
  }

  lemma BodyCons(l: string, rest: seq<string>)
    ensures Body([l] + rest) == Piece(l) + Body(rest)
  {
    assert ([l] + rest)[1..] == rest;
  }

  /** The loop, from any state, yields the chapters of the sections it has yet to see. */
  lemma {:induction false} RunAsSections(acc: string, t: string, f: seq<Chapter>, lines: seq<string>)
    ensures Flush(Run(SegState(acc, t, f), lines)) == f + KeepFrom(acc, Sections(t, lines))
    decreases |lines|
  {
    if lines == [] {
      assert acc + Body([]) == acc;
    } else {
      var l, rest := lines[0], lines[1..];
      assert lines == [l] + rest;
      if IsMarker(Strip(l)) {
        RunAsSections("", Strip(l), f + Keep(t, acc), rest);
        MarkerRun(acc, t, f, l, rest);
      } else {
        RunAsSections(acc + Piece(l), t, f, rest);
        PlainRun(acc, t, f, l, rest);
      }
    }
  }

  /** RunAsSections one marker line further. */
  lemma MarkerRun(acc: string, t: string, f: seq<Chapter>, l: string, rest: seq<string>)
    requires IsMarker(Strip(l))
    requires Flush(Run(SegState("", Strip(l), f + Keep(t, acc)), rest)) ==
             (f + Keep(t, acc)) + KeepFrom("", Sections(Strip(l), rest))
    ensures Flush(Run(SegState(acc, t, f), [l] + rest)) == f + KeepFrom(acc, Sections(t, [l] + rest))
  {
    RunMarkerHead(SegState(acc, t, f), l, rest);
    MarkerCase(acc, t, l, rest);
    FlushChain(Run(SegState(acc, t, f), [l] + rest), Run(SegState("", Strip(l), f + Keep(t, acc)), rest),
               f, Keep(t, acc), KeepFrom("", Sections(Strip(l), rest)), KeepFrom(acc, Sections(t, [l] + rest)));
  }

  /** The equational step of MarkerRun, over plain values so that nothing is unfolded. */
  lemma FlushChain(r1: SegState, r2: SegState, f: seq<Chapter>, k: seq<Chapter>, later: seq<Chapter>, kf: seq<Chapter>)
    requires r1 == r2 && Flush(r2) == (f + k) + later && k + later == kf
    ensures Flush(r1) == f + kf
  {
  }

  /** A marker line at the head of the remaining lines: the loop goes on from the new chapter. */
  lemma RunMarkerHead(st: SegState, l: string, rest: seq<string>)
    requires IsMarker(Strip(l))
    ensures Run(st, [l] + rest) == Run(SegState("", Strip(l), st.found + Keep(st.title, st.acc)), rest)
  {
    RunCons(st, l, rest);
    StepMarker(st, l);
  }

  /** RunAsSections one plain line further. */
  lemma PlainRun(acc: string, t: string, f: seq<Chapter>, l: string, rest: seq<string>)
    requires !IsMarker(Strip(l))
    requires Flush(Run(SegState(acc + Piece(l), t, f), rest)) == f + KeepFrom(acc + Piece(l), Sections(t, rest))
    ensures Flush(Run(SegState(acc, t, f), [l] + rest)) == f + KeepFrom(acc, Sections(t, [l] + rest))
  {
    RunCons(SegState(acc, t, f), l, rest);
    StepNonMarker(SegState(acc, t, f), l);
    PlainCase(acc, t, l, rest);
  }

  /** The induction step of RunAsSections for a marker line. */
  lemma MarkerCase(acc: string, t: string, l: string, rest: seq<string>)
    requires IsMarker(Strip(l))
    ensures Keep(t, acc) + KeepFrom("", Sections(Strip(l), rest)) == KeepFrom(acc, Sections(t, [l] + rest))
  {
    var s := Sections(Strip(l), rest);
    assert ([l] + rest)[1..] == rest;
    assert Sections(t, [l] + rest) == [Section(t, [])] + s;
    assert "" + Body(s[0].lines) == Body(s[0].lines);
    assert acc + Body([]) == acc;
    assert ([Section(t, [])] + s)[1..] == s;
  }

  /** The induction step of RunAsSections for a line that is not a marker. */
  lemma PlainCase(acc: string, t: string, l: string, rest: seq<string>)
    requires !IsMarker(Strip(l))
    ensures KeepFrom(acc + Piece(l), Sections(t, rest)) == KeepFrom(acc, Sections(t, [l] + rest))
  {
    var s := Sections(t, rest);
    assert ([l] + rest)[1..] == rest;
    assert Sections(t, [l] + rest) == [Section(t, [l] + s[0].lines)] + s[1..];
    BodyCons(l, s[0].lines);
    assert acc + Piece(l) + Body(s[0].lines) == acc + (Piece(l) + Body(s[0].lines));
    assert ([Section(t, [l] + s[0].lines)] + s[1..])[1..] == s[1..];
  }

  /** The segmenter's result, stated through sections instead of the loop. */
  lemma SegmentBySections(existing: seq<Chapter>, body: string, bookTitle: string)
    ensures var chs := existing + KeepAll(Sections(Preface, Split(body, '\n')));
      Segment(existing, body, bookTitle) == if chs == [] then [Chapter(bookTitle, Strip(body))] else chs
  {
    var lines := Split(body, '\n');
    RunAsSections("", Preface, existing, lines);
    var s := Sections(Preface, lines);
    assert "" + Body(s[0].lines) == Body(s[0].lines);
  }

  function Titles(chs: seq<Chapter>): (r: seq<string>)
    ensures |r| == |chs| && forall i :: 0 <= i < |chs| ==> r[i] == chs[i].title
  {
    seq(|chs|, i requires 0 <= i < |chs| => chs[i].title)
  }

  /** The section titles, first to last; the first is the loop's initial title. */
  function SectionTitles(secs: seq<Section>): (r: seq<string>)
    ensures |r| == |secs| && forall i :: 0 <= i < |secs| ==> r[i] == secs[i].title
  {
    if secs == [] then [] else [secs[0].title] + SectionTitles(secs[1..])
  }

  /** Every line of every section, in order. */
  function AllLines(secs: seq<Section>): seq<string>
  {
    if secs == [] then [] else secs[0].lines + AllLines(secs[1..])
  }

  /** The marker lines of `lines`, stripped, in order. */
  function MarkerLines(lines: seq<string>): seq<string>
  {
    if lines == [] then []
    else (if IsMarker(Strip(lines[0])) then [Strip(lines[0])] else []) + MarkerLines(lines[1..])
  }

  /** The lines of `lines` that are not markers, in order. */
  function NonMarkerLines(lines: seq<string>): seq<string>
  {
    if lines == [] then []
    else (if IsMarker(Strip(lines[0])) then [] else [lines[0]]) + NonMarkerLines(lines[1..])
  }

  /** Sections begin exactly at the marker lines, in order, after one leading section. */
  lemma {:induction false} SectionTitlesAreMarkers(t: string, lines: seq<string>)
    ensures SectionTitles(Sections(t, lines)) == [t] + MarkerLines(lines)
    decreases |lines|
  {
    if lines != [] {
      var l, rest := lines[0], lines[1..];
      if IsMarker(Strip(l)) {
        SectionTitlesAreMarkers(Strip(l), rest);
        MarkerTitles(t, Sections(Strip(l), rest));
      } else {
        SectionTitlesAreMarkers(t, rest);
        PlainTitles(t, l, Sections(t, rest));
      }
    }
  }

  lemma MarkerTitles(t: string, s: seq<Section>)
    ensures SectionTitles([Section(t, [])] + s) == [t] + SectionTitles(s)
  {
    var a := SectionTitles([Section(t, [])] + s);
    var b := [t] + SectionTitles(s);
    forall i | 0 <= i < |a| ensures a[i] == b[i] {
      if i > 0 {
        assert ([Section(t, [])] + s)[i] == s[i - 1];
      }
    }
  }

  lemma PlainTitles(t: string, l: string, s: seq<Section>)
    requires |s| >= 1 && s[0].title == t
    ensures SectionTitles([Section(t, [l] + s[0].lines)] + s[1..]) == SectionTitles(s)
  {
    var r := [Section(t, [l] + s[0].lines)] + s[1..];
    var a := SectionTitles(r);
    var b := SectionTitles(s);
    forall i | 0 <= i < |a| ensures a[i] == b[i] {
      if i > 0 {
        assert r[i] == s[i];
      }
    }
  }

  /** Every line that is not a marker lands in exactly one section, in order. */
  lemma {:induction false} SectionLinesAreNonMarkers(t: string, lines: seq<string>)
    ensures AllLines(Sections(t, lines)) == NonMarkerLines(lines)
    decreases |lines|
  {
    if lines != [] {
      var l, rest := lines[0], lines[1..];
      if IsMarker(Strip(l)) {
        SectionLinesAreNonMarkers(Strip(l), rest);
        var s := Sections(Strip(l), rest);
        assert ([Section(t, [])] + s)[1..] == s;
      } else {
        SectionLinesAreNonMarkers(t, rest);
        var s := Sections(t, rest);
        var r := [Section(t, [l] + s[0].lines)] + s[1..];
        assert s == [s[0]] + s[1..];
        assert AllLines(s) == s[0].lines + AllLines(s[1..]);
        assert r[1..] == s[1..];
        assert AllLines(r) == ([l] + s[0].lines) + AllLines(s[1..]);
      }
    }
  }

  /** No section of `secs` holds a marker line. */
  predicate MarkerFree(secs: seq<Section>)
  {
    forall i, j :: 0 <= i < |secs| && 0 <= j < |secs[i].lines| ==> !IsMarker(Strip(secs[i].lines[j]))
  }

  /** No section holds a marker line. */
  lemma {:induction false} SectionsHoldNoMarker(t: string, lines: seq<string>)
    ensures forall i, j :: 0 <= i < |Sections(t, lines)| && 0 <= j < |Sections(t, lines)[i].lines| ==>
      !IsMarker(Strip(Sections(t, lines)[i].lines[j]))
  {
    SectionsMarkerFree(t, lines);
  }

  lemma {:induction false} SectionsMarkerFree(t: string, lines: seq<string>)
    ensures MarkerFree(Sections(t, lines))
    decreases |lines|
  {
    if lines != [] {
      var l, rest := lines[0], lines[1..];
      if IsMarker(Strip(l)) {
        SectionsMarkerFree(Strip(l), rest);
        MarkerFreeOpen(t, Sections(Strip(l), rest));
      } else {
        SectionsMarkerFree(t, rest);
        MarkerFreeExtend(t, l, Sections(t, rest));
      }
    }
  }

  /** A new empty section in front keeps the sections marker-free. */
  lemma MarkerFreeOpen(t: string, s: seq<Section>)
    requires MarkerFree(s)
    ensures MarkerFree([Section(t, [])] + s)
  {
    var r := [Section(t, [])] + s;
    forall i, j | 0 <= i < |r| && 0 <= j < |r[i].lines| ensures !IsMarker(Strip(r[i].lines[j])) {
      assert r[i] == s[i - 1];
    }
  }

  /** A non-marker line added to the first section keeps the sections marker-free. */
  lemma MarkerFreeExtend(t: string, l: string, s: seq<Section>)
    requires !IsMarker(Strip(l)) && |s| >= 1 && MarkerFree(s)
    ensures MarkerFree([Section(t, [l] + s[0].lines)] + s[1..])
  {
    var r := [Section(t, [l] + s[0].lines)] + s[1..];
    forall i, j | 0 <= i < |r| && 0 <= j < |r[i].lines| ensures !IsMarker(Strip(r[i].lines[j])) {
      if i == 0 && j > 0 {
        assert r[0].lines[j] == s[0].lines[j - 1];
      } else if i > 0 {
        assert r[i] == s[i];
      }
    }
  }

  /** Chapters are laid out as a subsequence of the sections. */
  predicate IsSubseq(a: seq<string>, b: seq<string>)
    decreases |b|
  {
    a == [] || (b != [] && ((a[0] == b[0] && IsSubseq(a[1..], b[1..])) || IsSubseq(a, b[1..])))
  }

  /** Every chapter the segmenter keeps has stripped, non-empty content. */
  lemma {:induction false} KeepAllContents(secs: seq<Section>)
    ensures forall c :: c in KeepAll(secs) ==> c.content != [] && Strip(c.content) == c.content
  {
    if secs != [] {
      KeepAllContents(secs[1..]);
    }
  }

  lemma {:induction false} KeepAllLength(secs: seq<Section>)
    ensures |KeepAll(secs)| <= |secs|
  {
    if secs != [] {
      KeepAllLength(secs[1..]);
    }
  }

  /** The kept chapters' titles appear in section order. */
  lemma {:induction false} KeepAllTitles(secs: seq<Section>)
    ensures IsSubseq(Titles(KeepAll(secs)), SectionTitles(secs))
  {
    if secs != [] {
      KeepAllTitles(secs[1..]);
      var k := Keep(secs[0].title, Body(secs[0].lines));
      var rest := KeepAll(secs[1..]);
      var st := SectionTitles(secs);
      assert st[1..] == SectionTitles(secs[1..]);
      if k == [] {
        assert KeepAll(secs) == rest;
        SubseqDropHead(Titles(rest), st);
      } else {
        assert KeepAll(secs) == k + rest;
        var ts := Titles(k + rest);
        assert ts[0] == st[0];
        assert ts[1..] == Titles(rest);
        SubseqKeepHead(ts, st);
      }
    }
  }

  lemma SubseqKeepHead(a: seq<string>, b: seq<string>)
    requires a != [] && b != [] && a[0] == b[0] && IsSubseq(a[1..], b[1..])
    ensures IsSubseq(a, b)
  {
  }

  lemma SubseqDropHead(a: seq<string>, b: seq<string>)
    requires b != [] && IsSubseq(a, b[1..])
    ensures IsSubseq(a, b)
  {
  }

  /**
   * The chapters `read_txt_file` finds in a body: contents stripped and non-empty,
   * titles a subsequence of `前言` followed by the marker lines in order, at most one
   * chapter per marker plus one; marker lines appear in no section's text.
   */
  lemma LoopChaptersShape(body: string)
    ensures var lines := Split(body, '\n');
      var chs := Flush(Run(InitialState([]), lines));
      (forall c :: c in chs ==> c.content != [] && Strip(c.content) == c.content) &&
      IsSubseq(Titles(chs), [Preface] + MarkerLines(lines)) &&
      |chs| <= 1 + |MarkerLines(lines)|
  {
    var lines := Split(body, '\n');
    RunAsSections("", Preface, [], lines);
    var s := Sections(Preface, lines);
    assert "" + Body(s[0].lines) == Body(s[0].lines);
    assert Flush(Run(InitialState([]), lines)) == KeepAll(s);
    SectionTitlesAreMarkers(Preface, lines);
    KeepAllContents(s);
    KeepAllTitles(s);
    KeepAllLength(s);
  }

  /** The chapter list is never empty; the fallback chapter appears exactly when nothing else was found. */
  lemma SegmentNeverEmpty(existing: seq<Chapter>, body: string, bookTitle: string)
    ensures |Segment(existing, body, bookTitle)| >= 1
    ensures existing == [] && KeepAll(Sections(Preface, Split(body, '\n'))) == [] ==>
      Segment(existing, body, bookTitle) == [Chapter(bookTitle, Strip(body))]
    ensures existing + KeepAll(Sections(Preface, Split(body, '\n'))) != [] ==>
      Segment(existing, body, bookTitle) == existing + KeepAll(Sections(Preface, Split(body, '\n')))
  {
    SegmentBySections(existing, body, bookTitle);
  }
}
