/**
 * `list.sort()` on file names: Python orders strings by code point,
 * comparing character by character, a proper prefix first.
 */
module Ordering {

  /** Python's `a <= b` on str. */
  predicate LexLe(a: string, b: string)
    decreases |a|
  {
    a == [] || (b != [] && (a[0] < b[0] || (a[0] == b[0] && LexLe(a[1..], b[1..]))))
  }

  lemma {:induction false} LexLeTotal(a: string, b: string)
    ensures LexLe(a, b) || LexLe(b, a)
    decreases |a|
  {
    if a != [] && b != [] && a[0] == b[0] {
      LexLeTotal(a[1..], b[1..]);
    }
  }

  lemma {:induction false} LexLeTrans(a: string, b: string, c: string)
    requires LexLe(a, b) && LexLe(b, c)
    ensures LexLe(a, c)
    decreases |a|
  {
    if a != [] && a[0] == b[0] && b[0] == c[0] {
      LexLeTrans(a[1..], b[1..], c[1..]);
    }
  }

  lemma {:induction false} LexLeAntisym(a: string, b: string)
    requires LexLe(a, b) && LexLe(b, a)
    ensures a == b
    decreases |a|
  {
    if a != [] {
      LexLeAntisym(a[1..], b[1..]);
      assert a == [a[0]] + a[1..] && b == [b[0]] + b[1..];
    }
  }

  predicate SortedLex(s: seq<string>)
  {
    forall i, j :: 0 <= i < j < |s| ==> LexLe(s[i], s[j])
  }

  function Insert(x: string, s: seq<string>): seq<string>
  {
    if s == [] || LexLe(x, s[0]) then [x] + s else [s[0]] + Insert(x, s[1..])
  }

  lemma {:induction false} LexLeRefl(a: string)
    ensures LexLe(a, a)
    decreases |a|
  {
    if a != [] {
      LexLeRefl(a[1..]);
    }
  }

  /** Insertion adds exactly `x`. */
  lemma {:induction false} InsertElements(x: string, s: seq<string>)
    ensures multiset(Insert(x, s)) == multiset(s) + multiset{x}
  {
    if s != [] && !LexLe(x, s[0]) {
      InsertElements(x, s[1..]);
      assert s == [s[0]] + s[1..];
    }
  }

  /** Insertion into a sorted list keeps it sorted. */
  lemma {:induction false} InsertSorted(x: string, s: seq<string>)
    requires SortedLex(s)
    ensures SortedLex(Insert(x, s))
  {
    if s == [] {
    } else if LexLe(x, s[0]) {
      forall y | y in s ensures LexLe(x, y) {
        HeadIsLeast(s, y);
        LexLeTrans(x, s[0], y);
      }
      SortedCons(x, s);
    } else {
      SortedTail(s);
      InsertSorted(x, s[1..]);
      InsertElements(x, s[1..]);
      LexLeTotal(x, s[0]);
      HeadBelowInsert(x, s);
      SortedCons(s[0], Insert(x, s[1..]));
    }
  }

  /** A name below every name of a sorted list can go in front of it. */
  lemma SortedCons(h: string, t: seq<string>)
    requires SortedLex(t)
    requires forall y :: y in t ==> LexLe(h, y)
    ensures SortedLex([h] + t)
  {
    var r := [h] + t;
    forall i, j | 0 <= i < j < |r| ensures LexLe(r[i], r[j]) {
      assert r[j] == t[j - 1];
      if i > 0 {
        assert r[i] == t[i - 1];
      }
    }
  }

  /** The head of a sorted list is below everything inserted into its tail. */
  lemma HeadBelowInsert(x: string, s: seq<string>)
    requires SortedLex(s) && s != [] && LexLe(s[0], x)
    requires multiset(Insert(x, s[1..])) == multiset(s[1..]) + multiset{x}
    ensures forall y :: y in Insert(x, s[1..]) ==> LexLe(s[0], y)
  {
    var t := Insert(x, s[1..]);
    forall y | y in t ensures LexLe(s[0], y) {
      assert y in multiset(t);
      if y != x {
        assert y in multiset(s[1..]);
        assert y in s;
        HeadIsLeast(s, y);
      }
    }
  }

  /** `sorted(names)`, as insertion sort. */
  function SortNames(s: seq<string>): seq<string>
  {
    if s == [] then [] else Insert(s[0], SortNames(s[1..]))
  }

  /** The sort yields an ordered rearrangement of its input. */
  lemma {:induction false} SortNamesSpec(s: seq<string>)
    ensures SortedLex(SortNames(s))
    ensures multiset(SortNames(s)) == multiset(s)
  {
    if s != [] {
      SortNamesSpec(s[1..]);
      InsertSorted(s[0], SortNames(s[1..]));
      InsertElements(s[0], SortNames(s[1..]));
      assert s == [s[0]] + s[1..];
    }
  }

  /**
   * Two ordered rearrangements of the same names are equal, so the result does
   * not depend on the sorting algorithm.
   */
  lemma {:induction false} SortedUnique(a: seq<string>, b: seq<string>)
    requires SortedLex(a) && SortedLex(b)
    requires multiset(a) == multiset(b)
    ensures a == b
    decreases |a|
  {
    if a == [] {
      assert |multiset(b)| == 0;
    } else {
      assert b != [] by { assert |multiset(b)| == |a|; }
      SameHead(a, b);
      SortedTail(a);
      SortedTail(b);
      TailMultiset(a);
      TailMultiset(b);
      SortedUnique(a[1..], b[1..]);
      assert a == [a[0]] + a[1..] && b == [b[0]] + b[1..];
    }
  }

  /** Two ordered rearrangements of the same names start with the same name. */
  lemma SameHead(a: seq<string>, b: seq<string>)
    requires SortedLex(a) && SortedLex(b) && a != [] && b != []
    requires multiset(a) == multiset(b)
    ensures a[0] == b[0]
  {
    assert a[0] in multiset(b);
    HeadIsLeast(b, a[0]);
    assert b[0] in multiset(a);
    HeadIsLeast(a, b[0]);
    LexLeAntisym(a[0], b[0]);
  }

  lemma HeadIsLeast(s: seq<string>, y: string)
    requires SortedLex(s) && y in s
    ensures LexLe(s[0], y)
  {
    var i :| 0 <= i < |s| && s[i] == y;
    if i == 0 { LexLeRefl(y); }
  }

  lemma SortedTail(s: seq<string>)
    requires SortedLex(s) && s != []
    ensures SortedLex(s[1..])
  {
    forall i, j | 0 <= i < j < |s| - 1 ensures LexLe(s[1..][i], s[1..][j]) {
      assert s[1..][i] == s[i + 1] && s[1..][j] == s[j + 1];
    }
  }

  lemma TailMultiset(s: seq<string>)
    requires s != []
    ensures multiset(s[1..]) == multiset(s) - multiset{s[0]}
  {
    assert s == [s[0]] + s[1..];
  }

  /** Python's sort puts `a.png` before `cover.png` before `z.png`. */
  lemma ExampleOrder()
    ensures SortNames(["cover.png", "a.png", "z.png"]) == ["a.png", "cover.png", "z.png"]
  {
    assert LexLe("a.png", "z.png");
    assert !LexLe("cover.png", "a.png");
    assert LexLe("cover.png", "z.png");
  }
}
