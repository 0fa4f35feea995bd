/**
 * The four chapter-marker patterns of `read_txt_file`, each read as a predicate
 * with the semantics `re.match` gives it: anchored at the start of the line,
 * `.` never matching a newline, `$` matching at the end or before a final newline.
 */
module Markers {
  import opened Text

  /** The character classes the patterns repeat. */
  datatype CharClass = Numeral | Space | Digit

  /** One of the Chinese numerals for one to ten, hundred, thousand and ten thousand, or an ASCII digit. */
  predicate IsNumeral(c: char)
  {
    c in "一二三四五六七八九十百千万" || IsDigit(c)
  }

  predicate InClass(c: char, k: CharClass)
  {
    match k
    case Numeral => IsNumeral(c)
    case Space => IsSpace(c)
    case Digit => IsDigit(c)
  }

  /** Length of the longest prefix of `s` inside class `k` (what a greedy repetition consumes). */
  function Run(s: string, k: CharClass): (n: nat)
    ensures n <= |s|
    decreases |s|
  {
    if s != [] && InClass(s[0], k) then 1 + Run(s[1..], k) else 0
  }

  /** The run is all in the class and stops at the first character outside it. */
  lemma {:induction false} RunSpec(s: string, k: CharClass)
    ensures forall i :: 0 <= i < Run(s, k) ==> InClass(s[i], k)
    ensures Run(s, k) < |s| ==> !InClass(s[Run(s, k)], k)
    decreases |s|
  {
    if s != [] && InClass(s[0], k) {
      RunSpec(s[1..], k);
    }
  }

  /** What `.*$` accepts: no newline before the end, save one that ends the string. */
  predicate DotStarEnd(t: string)
  {
    '\n' !in t || (t[|t| - 1] == '\n' && '\n' !in t[..|t| - 1])
  }

  datatype Pattern =
    | NumeralChapter   // 第, one or more numerals or digits, 章
    | EnglishChapter   // the word Chapter, optional whitespace, a digit
    | NumberedLine     // digits, a full stop, then the rest of the line
    | BracketedLine    // the whole line inside 【 and 】

  /** The patterns in the order the loop tries them. */
  const ChapterPatterns: seq<Pattern> := [NumeralChapter, EnglishChapter, NumberedLine, BracketedLine]

  predicate Matches(p: Pattern, line: string)
  {
    match p
    case NumeralChapter =>
      |line| >= 1 && line[0] == '第' &&
      var n := Run(line[1..], Numeral);
      n >= 1 && 1 + n < |line| && line[1 + n] == '章'
    case EnglishChapter =>
      StartsWith(line, "Chapter") &&
      var w := Run(line[7..], Space);
      7 + w < |line| && IsDigit(line[7 + w])
    case NumberedLine =>
      var n := Run(line, Digit);
      n >= 1 && n < |line| && line[n] == '.' && DotStarEnd(line[n + 1..])
    case BracketedLine =>
      |line| >= 1 && line[0] == '【' &&
      var t := line[1..];
      (|t| >= 1 && t[|t| - 1] == '】' && '\n' !in t[..|t| - 1]) ||
      (|t| >= 2 && t[|t| - 1] == '\n' && t[|t| - 2] == '】' && '\n' !in t[..|t| - 2])
  }

  /** A stripped line is a chapter marker when some pattern matches it. */
  predicate IsMarker(line: string)
  {
    exists j :: 0 <= j < |ChapterPatterns| && Matches(ChapterPatterns[j], line)
  }

  /**
   * The inner loop of `read_txt_file`: try the patterns in order and stop at the
   * first that matches.
   */
  method IsChapterTitle(line: string) returns (isTitle: bool)
    ensures isTitle <==> IsMarker(line)
  {
    isTitle := false;
    var k := 0;
    while k < |ChapterPatterns|
      invariant 0 <= k <= |ChapterPatterns|
      invariant !isTitle
      invariant forall j :: 0 <= j < k ==> !Matches(ChapterPatterns[j], line)
    {
      if Matches(ChapterPatterns[k], line) {
        isTitle := true;
        break;
      }
      k := k + 1;
    }
  }

  /** A greedy run stops exactly at the first character outside the class. */
  lemma {:induction false} RunStopsAt(s: string, k: CharClass, j: nat)
    requires j <= |s|
    requires forall i :: 0 <= i < j ==> InClass(s[i], k)
    requires j < |s| ==> !InClass(s[j], k)
    ensures Run(s, k) == j
    decreases j
  {
    if j > 0 {
      RunStopsAt(s[1..], k, j - 1);
    }
  }

  /** `第`, then exactly `k` numerals, then `章`: one way the regex of pattern 1 can match. */
  predicate NumeralChapterSplit(line: string, k: int)
  {
    1 <= k && 1 + k < |line| && line[0] == '第' && line[1 + k] == '章' &&
    forall i :: 1 <= i <= k ==> IsNumeral(line[i])
  }

  /**
   * The greedy reading of pattern 1 agrees with the regex's backtracking one:
   * some split into `第`, one or more numerals and `章` exists.
   */
  lemma NumeralChapterIff(line: string)
    ensures Matches(NumeralChapter, line) <==> exists k :: NumeralChapterSplit(line, k)
  {
    if k :| NumeralChapterSplit(line, k) {
      RunStopsAt(line[1..], Numeral, k);
    }
    if Matches(NumeralChapter, line) {
      var n := Run(line[1..], Numeral);
      RunSpec(line[1..], Numeral);
      forall i | 1 <= i <= n ensures IsNumeral(line[i]) {
        assert InClass(line[1..][i - 1], Numeral);
      }
      assert NumeralChapterSplit(line, n);
    }
  }

  /** `Chapter`, then exactly `w` whitespace characters, then a digit. */
  predicate EnglishChapterSplit(line: string, w: int)
  {
    0 <= w && 7 + w < |line| && StartsWith(line, "Chapter") && IsDigit(line[7 + w]) &&
    forall i :: 7 <= i < 7 + w ==> IsSpace(line[i])
  }

  /** Pattern 2 in plain terms: `Chapter`, optional whitespace, then a digit. */
  lemma EnglishChapterIff(line: string)
    ensures Matches(EnglishChapter, line) <==> exists w :: EnglishChapterSplit(line, w)
  {
    if w :| EnglishChapterSplit(line, w) {
      assert !IsSpace(line[7 + w]);
      RunStopsAt(line[7..], Space, w);
    }
    if Matches(EnglishChapter, line) {
      var n := Run(line[7..], Space);
      RunSpec(line[7..], Space);
      forall i | 7 <= i < 7 + n ensures IsSpace(line[i]) {
        assert InClass(line[7..][i - 7], Space);
      }
      assert EnglishChapterSplit(line, n);
    }
  }

  /**
   * On a line without a newline (every line the segmenter sees), pattern 3 is
   * "digits then a dot" and pattern 4 is "starts with 【 and ends with 】".
   */
  lemma SingleLinePatterns(line: string)
    requires '\n' !in line
    ensures Matches(NumberedLine, line) <==>
      (Run(line, Digit) >= 1 && Run(line, Digit) < |line| && line[Run(line, Digit)] == '.')
    ensures Matches(BracketedLine, line) <==> (|line| >= 2 && line[0] == '【' && line[|line| - 1] == '】')
  {
    var n := Run(line, Digit);
    if n < |line| {
      assert forall c :: c in line[n + 1..] ==> c in line;
    }
    if |line| >= 2 {
      assert line[1..][|line| - 2] == line[|line| - 1];
      assert forall c :: c in line[1..][..|line| - 2] ==> c in line;
    }
  }

  /** Blank lines are never markers: every pattern needs a first character. */
  lemma EmptyIsNoMarker()
    ensures !IsMarker([])
  {
    assert !Matches(ChapterPatterns[2], []);
  }

  /** `第1章 开端` is a marker, found by the first pattern. */
  lemma FirstChapterLineIsMarker()
    ensures Matches(ChapterPatterns[0], "第1章 开端") && IsMarker("第1章 开端")
  {
    var line := "第1章 开端";
    assert line[1..][0] == '1' && line[1..][1] == '章';
    assert Run(line[1..][1..], Numeral) == 0;
  }
}
