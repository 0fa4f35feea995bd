/**
 * The two regular-expression clean-ups of the generator, each a left-to-right
 * scan that replaces non-overlapping matches the way `re.sub` does.
 *
 * `_sanitize_content` renames every opening `div` tag (bare, or followed by
 * whitespace and attributes up to the first `>`) to `section`, keeping the
 * attributes, and then every closing `div` tag. `_sanitize_title` deletes every
 * run of `<`, at least one character other than `>`, and `>`, then strips.
 */
module Sanitize {
  import opened Wrappers
  import opened Text

  /**
   * How much of `t` (the text after `<div`) the rest of the opening-tag pattern
   * takes, closing `>` included: a bare `>`, or whitespace and everything up to
   * the first `>`.
   */
  function DivTail(t: string): (r: Option<nat>)
    ensures r.Some? ==> 1 <= r.value <= |t|
  {
    if t != [] && t[0] == '>' then Some(1)
    else if t != [] && IsSpace(t[0]) then
      match IndexOf(t[1..], '>')
      case Some(j) => Some(j + 2)
      case None => None
    else None
  }

  /** The first substitution: `<div…>` renamed to `<section…>`, attributes kept. */
  function RewriteOpen(s: string): string
    decreases |s|
  {
    if StartsWith(s, "<div") && DivTail(s[4..]).Some? then
      var n := 4 + DivTail(s[4..]).value;
      "<section" + s[4..n] + RewriteOpen(s[n..])
    else if s == [] then []
    else [s[0]] + RewriteOpen(s[1..])
  }

  /** The second substitution: `</div>` renamed to `</section>`. */
  function RewriteClose(s: string): string
    decreases |s|
  {
    if StartsWith(s, "</div>") then "</section>" + RewriteClose(s[6..])
    else if s == [] then []
    else [s[0]] + RewriteClose(s[1..])
  }

  function SanitizeContent(content: string): string
  {
    RewriteClose(RewriteOpen(content))
  }

  lemma {:induction false} RewriteOpenNoDiv(s: string)
    requires !Contains(s, "<div")
    ensures RewriteOpen(s) == s
    decreases |s|
  {
    if s != [] {
      RewriteOpenNoDiv(s[1..]);
    }
  }

  lemma {:induction false} RewriteCloseNoDiv(s: string)
    requires !Contains(s, "</div>")
    ensures RewriteClose(s) == s
    decreases |s|
  {
    if s != [] {
      RewriteCloseNoDiv(s[1..]);
    }
  }

  /** Text with neither `<div` nor `</div>` passes through unchanged. */
  lemma SanitizeContentUnchanged(content: string)
    requires !Contains(content, "<div") && !Contains(content, "</div>")
    ensures SanitizeContent(content) == content
  {
    RewriteOpenNoDiv(content);
    RewriteCloseNoDiv(content);
  }

  lemma RewriteCloseFirst(t: string)
    requires t != []
    ensures RewriteClose(t) != []
    ensures RewriteClose(t)[0] == if StartsWith(t, "</div>") then '<' else t[0]
  {
  }

  /** A prefix of the rewritten text without `<` was already a prefix of the input. */
  lemma {:induction false} RewriteClosePrefix(t: string, w: string)
    requires '<' !in w
    requires StartsWith(RewriteClose(t), w)
    ensures StartsWith(t, w)
    decreases |w|
  {
    if w != [] {
      assert t != [];
      RewriteCloseFirst(t);
      assert w[0] == RewriteClose(t)[0];
      if !StartsWith(t, "</div>") {
        var r := RewriteClose(t[1..]);
        assert RewriteClose(t) == [t[0]] + r;
        assert StartsWith(r, w[1..]) by {
          assert r[..|w| - 1] == RewriteClose(t)[1..|w|];
        }
        RewriteClosePrefix(t[1..], w[1..]);
        assert t[..|w|] == [t[0]] + t[1..][..|w| - 1];
      }
    }
  }

  /** `</section>` holds no `<` after its first character. */
  lemma SectionCloseInside(r: string)
    ensures forall p :: 1 <= p < 10 ==> ("</section>" + r)[p] != '<'
  {
  }

  /** After the second substitution no `</div>` is left. */
  lemma {:induction false} RewriteCloseLeavesNone(s: string)
    ensures !Contains(RewriteClose(s), "</div>")
    decreases |s|
  {
    if StartsWith(s, "</div>") {
      RewriteCloseLeavesNone(s[6..]);
      assert RewriteClose(s) == "</section>" + RewriteClose(s[6..]);
      SectionCloseKeepsNone(RewriteClose(s[6..]));
    } else if s != [] {
      RewriteCloseLeavesNone(s[1..]);
      assert RewriteClose(s) == [s[0]] + RewriteClose(s[1..]);
      CharCloseKeepsNone(s);
    }
  }

  /** `</section>` in front of text without `</div>` creates none. */
  lemma SectionCloseKeepsNone(r: string)
    requires !Contains(r, "</div>")
    ensures !Contains("</section>" + r, "</div>")
  {
    var out := "</section>" + r;
    ContainsIffOccurs(out, "</div>");
    ContainsIffOccurs(r, "</div>");
    SectionCloseInside(r);
    forall p | 0 <= p <= |out| - 6 ensures !OccursAt(out, "</div>", p) {
      if p == 0 {
        assert out[p..p + 6][2] == 's';
      } else if p < 10 {
        assert out[p..p + 6][0] == out[p];
      } else {
        SliceRight("</section>", r, p, 6);
        assert !OccursAt(r, "</div>", p - 10);
      }
    }
  }

  /** A character kept in front of the rewritten rest does not start a `</div>`. */
  lemma CharCloseFirst(s: string)
    requires s != [] && !StartsWith(s, "</div>")
    ensures !OccursAt([s[0]] + RewriteClose(s[1..]), "</div>", 0)
  {
    var r := RewriteClose(s[1..]);
    var out := [s[0]] + r;
    if OccursAt(out, "</div>", 0) {
      assert r[..5] == out[1..6];
      RewriteClosePrefix(s[1..], "/div>");
    }
  }

  /** A character kept in front of the rewritten rest creates no `</div>`. */
  lemma CharCloseKeepsNone(s: string)
    requires s != [] && !StartsWith(s, "</div>")
    requires !Contains(RewriteClose(s[1..]), "</div>")
    ensures !Contains([s[0]] + RewriteClose(s[1..]), "</div>")
  {
    var r := RewriteClose(s[1..]);
    var out := [s[0]] + r;
    ContainsIffOccurs(out, "</div>");
    ContainsIffOccurs(r, "</div>");
    CharCloseFirst(s);
    forall p | 0 <= p <= |out| - 6 ensures !OccursAt(out, "</div>", p) {
      if p > 0 {
        SliceRight([s[0]], r, p, 6);
        assert !OccursAt(r, "</div>", p - 1);
      }
    }
  }

  /** Whatever the input, the sanitised page holds no `</div>`. */
  lemma SanitizeContentNoCloseDiv(content: string)
    ensures !Contains(SanitizeContent(content), "</div>")
  {
    RewriteCloseLeavesNone(RewriteOpen(content));
  }

  /** The rest of an opening tag ends at the `>` after its attributes. */
  lemma DivTailOfAttrs(attrs: string, rest: string)
    requires attrs == [] || (IsSpace(attrs[0]) && '>' !in attrs)
    ensures DivTail(attrs + ">" + rest) == Some(|attrs| + 1)
  {
    var t := attrs + ">" + rest;
    if attrs != [] {
      var u := t[1..];
      assert u == attrs[1..] + ">" + rest;
      assert u[|attrs| - 1] == '>';
      forall k | 0 <= k < |attrs| - 1 ensures u[k] != '>' {
        assert u[k] == attrs[k + 1];
      }
    }
  }

  /** Text without `<` passes the first substitution unchanged, whatever follows it. */
  lemma {:induction false} RewriteOpenPlain(p: string, rest: string)
    requires '<' !in p
    ensures RewriteOpen(p + rest) == p + RewriteOpen(rest)
    decreases |p|
  {
    if p != [] {
      var s := p + rest;
      assert p[0] in p;
      assert !StartsWith(s, "<div") by { if |s| >= 4 { assert s[..4][0] == s[0] == p[0]; } }
      assert s[1..] == p[1..] + rest;
      assert RewriteOpen(s) == [s[0]] + RewriteOpen(s[1..]);
      RewriteOpenPlain(p[1..], rest);
      assert p == [p[0]] + p[1..];
    } else {
      assert p + rest == rest;
    }
  }

  /** Text without `<` passes the second substitution unchanged, whatever follows it. */
  lemma {:induction false} RewriteClosePlain(p: string, rest: string)
    requires '<' !in p
    ensures RewriteClose(p + rest) == p + RewriteClose(rest)
    decreases |p|
  {
    if p != [] {
      var s := p + rest;
      assert p[0] in p;
      assert !StartsWith(s, "</div>") by { if |s| >= 6 { assert s[..6][0] == s[0] == p[0]; } }
      assert s[1..] == p[1..] + rest;
      assert RewriteClose(s) == [s[0]] + RewriteClose(s[1..]);
      RewriteClosePlain(p[1..], rest);
      assert p == [p[0]] + p[1..];
    } else {
      assert p + rest == rest;
    }
  }

  /** A tag other than `<div…` at the front, with no other `<` in it, is kept by the first substitution. */
  lemma RewriteOpenKeepsTag(w: string, x: string)
    requires |w| >= 2 && w[0] == '<' && w[1] != 'd' && '<' !in w[1..]
    ensures RewriteOpen(w + x) == w + RewriteOpen(x)
  {
    var s := w + x;
    assert s[1..] == w[1..] + x;
    assert RewriteOpen(s) == [s[0]] + RewriteOpen(s[1..]) by {
      assert s[1] == w[1];
      assert !StartsWith(s, "<div") by { if |s| >= 4 { assert s[..4][1] == s[1]; } }
    }
    calc {
      RewriteOpen(w + x);
      [w[0]] + RewriteOpen(w[1..] + x);
      { RewriteOpenPlain(w[1..], x); }
      [w[0]] + (w[1..] + RewriteOpen(x));
      { ConcatAssoc([w[0]], w[1..], RewriteOpen(x)); assert [w[0]] + w[1..] == w; }
      w + RewriteOpen(x);
    }
  }

  /** A tag other than `</div>` at the front, with no other `<` in it, is kept by the second substitution. */
  lemma RewriteCloseKeepsTag(w: string, x: string)
    requires |w| >= 2 && w[0] == '<' && w[1] != '/' && '<' !in w[1..]
    ensures RewriteClose(w + x) == w + RewriteClose(x)
  {
    var s := w + x;
    assert s[1..] == w[1..] + x;
    assert RewriteClose(s) == [s[0]] + RewriteClose(s[1..]) by {
      assert s[1] == w[1];
      assert !StartsWith(s, "</div>") by { if |s| >= 6 { assert s[..6][1] == s[1]; } }
    }
    calc {
      RewriteClose(w + x);
      [w[0]] + RewriteClose(w[1..] + x);
      { RewriteClosePlain(w[1..], x); }
      [w[0]] + (w[1..] + RewriteClose(x));
      { ConcatAssoc([w[0]], w[1..], RewriteClose(x)); assert [w[0]] + w[1..] == w; }
      w + RewriteClose(x);
    }
  }

  /** The pieces of an opening `div` tag as the scan sees them. */
  lemma OpenTagParts(attrs: string, rest: string)
    requires attrs == [] || (IsSpace(attrs[0]) && '>' !in attrs)
    ensures var s := "<div" + (attrs + ">" + rest); var n := 5 + |attrs|;
      StartsWith(s, "<div") && DivTail(s[4..]) == Some(|attrs| + 1) &&
      s[4..n] == attrs + ">" && s[n..] == rest
  {
    var t := attrs + ">" + rest;
    var s := "<div" + t;
    var n := 5 + |attrs|;
    assert s[..4] == "<div" && s[4..] == t;
    DivTailOfAttrs(attrs, rest);
    assert s[4..n] == t[..|attrs| + 1] && s[n..] == t[|attrs| + 1..];
  }

  /** An opening `div` tag at the front becomes a `section` tag with the same attributes. */
  lemma RewriteOpenTag(attrs: string, rest: string)
    requires attrs == [] || (IsSpace(attrs[0]) && '>' !in attrs)
    ensures RewriteOpen("<div" + attrs + ">" + rest) == "<section" + attrs + ">" + RewriteOpen(rest)
  {
    var s := "<div" + (attrs + ">" + rest);
    var n := 5 + |attrs|;
    OpenTagParts(attrs, rest);
    calc {
      RewriteOpen("<div" + attrs + ">" + rest);
      { ConcatAssoc3("<div", attrs, ">", rest); }
      RewriteOpen(s);
      "<section" + s[4..n] + RewriteOpen(s[n..]);
      "<section" + (attrs + ">") + RewriteOpen(rest);
      { ConcatAssoc("<section", attrs, ">"); }
      "<section" + attrs + ">" + RewriteOpen(rest);
    }
  }

  /**
   * The first substitution at the first tag of the text: the text before it is
   * kept, the opening `div` tag becomes a `section` tag with the same
   * attributes, and the scan goes on after the tag's `>`.
   */
  lemma RewriteOpenAt(p: string, attrs: string, rest: string)
    requires '<' !in p
    requires attrs == [] || (IsSpace(attrs[0]) && '>' !in attrs)
    ensures RewriteOpen(p + "<div" + attrs + ">" + rest) == p + "<section" + attrs + ">" + RewriteOpen(rest)
  {
    var w := "<div" + attrs + ">";
    var r := RewriteOpen(rest);
    calc {
      RewriteOpen(p + "<div" + attrs + ">" + rest);
      { ConcatAssoc3(p, "<div", attrs, ">"); ConcatAssoc(p, w, rest); }
      RewriteOpen(p + (w + rest));
      { RewriteOpenPlain(p, w + rest); }
      p + RewriteOpen(w + rest);
      { RewriteOpenTag(attrs, rest); }
      p + ("<section" + attrs + ">" + r);
      { ConcatAssoc3(p, "<section", attrs, ">"); ConcatAssoc(p, "<section" + attrs + ">", r); }
      p + "<section" + attrs + ">" + r;
    }
  }

  /**
   * The second substitution at the first tag of the text: the text before it
   * is kept, `</div>` becomes `</section>`, and the scan goes on after it.
   */
  lemma RewriteCloseAt(p: string, rest: string)
    requires '<' !in p
    ensures RewriteClose(p + "</div>" + rest) == p + "</section>" + RewriteClose(rest)
  {
    var s := "</div>" + rest;
    ConcatAssoc(p, "</div>", rest);
    RewriteClosePlain(p, s);
    assert s[..6] == "</div>" && s[6..] == rest;
    ConcatAssoc(p, "</section>", RewriteClose(rest));
  }

  /** A `<` at the front that opens no `div` tag is kept by the first substitution. */
  lemma RewriteOpenOther(u: string)
    requires !(StartsWith("<" + u, "<div") && DivTail(u[3..]).Some?)
    ensures RewriteOpen("<" + u) == "<" + RewriteOpen(u)
  {
    var s := "<" + u;
    if StartsWith(s, "<div") {
      assert s[4..] == u[3..];
    }
    assert s[1..] == u;
  }

  lemma RewriteOpenFirst(t: string)
    requires t != []
    ensures RewriteOpen(t) != []
    ensures RewriteOpen(t)[0] == if StartsWith(t, "<div") && DivTail(t[4..]).Some? then '<' else t[0]
  {
  }

  /** A prefix of the output of the first substitution without `<` was already a prefix of its input. */
  lemma {:induction false} RewriteOpenPrefix(t: string, w: string)
    requires '<' !in w
    requires StartsWith(RewriteOpen(t), w)
    ensures StartsWith(t, w)
    decreases |w|
  {
    if w != [] {
      assert t != [];
      RewriteOpenFirst(t);
      assert w[0] == RewriteOpen(t)[0];
      if !(StartsWith(t, "<div") && DivTail(t[4..]).Some?) {
        var r := RewriteOpen(t[1..]);
        assert RewriteOpen(t) == [t[0]] + r;
        assert StartsWith(r, w[1..]) by {
          assert r[..|w| - 1] == RewriteOpen(t)[1..|w|];
        }
        RewriteOpenPrefix(t[1..], w[1..]);
        assert t[..|w|] == [t[0]] + t[1..][..|w| - 1];
      }
    }
  }

  /**
   * Both substitutions at an opening `div` tag: the text before the tag is
   * kept, the tag becomes a `section` tag with the same attributes, and the
   * rest of the page is sanitised in its turn.
   */
  lemma SanitizeDivTag(p: string, attrs: string, rest: string)
    requires '<' !in p
    requires attrs == [] || (IsSpace(attrs[0]) && '>' !in attrs)
    requires '<' !in attrs
    ensures SanitizeContent(p + "<div" + attrs + ">" + rest) == p + "<section" + attrs + ">" + SanitizeContent(rest)
  {
    var x := RewriteOpen(rest);
    var w := "<section" + attrs + ">";
    assert w[1] == 's' && '<' !in w[1..] by {
      assert w[1..] == "section" + attrs + ">";
    }
    calc {
      SanitizeContent(p + "<div" + attrs + ">" + rest);
      RewriteClose(RewriteOpen(p + "<div" + attrs + ">" + rest));
      { RewriteOpenAt(p, attrs, rest); }
      RewriteClose(p + "<section" + attrs + ">" + x);
      { ConcatAssoc3(p, "<section", attrs, ">"); ConcatAssoc(p, w, x); }
      RewriteClose(p + (w + x));
      { RewriteClosePlain(p, w + x); }
      p + RewriteClose(w + x);
      { RewriteCloseKeepsTag(w, x); }
      p + (w + RewriteClose(x));
      { ConcatAssoc3(p, "<section", attrs, ">"); ConcatAssoc(p, w, RewriteClose(x)); }
      p + "<section" + attrs + ">" + SanitizeContent(rest);
    }
  }

  /**
   * Both substitutions at a closing `div` tag: the text before it is kept,
   * the tag becomes `</section>`, and the rest is sanitised in its turn.
   */
  lemma SanitizeCloseTag(p: string, rest: string)
    requires '<' !in p
    ensures SanitizeContent(p + "</div>" + rest) == p + "</section>" + SanitizeContent(rest)
  {
    var w := "</div>";
    var x := RewriteOpen(rest);
    calc {
      SanitizeContent(p + "</div>" + rest);
      { ConcatAssoc(p, w, rest); }
      RewriteClose(RewriteOpen(p + (w + rest)));
      { RewriteOpenPlain(p, w + rest); }
      RewriteClose(p + RewriteOpen(w + rest));
      { RewriteOpenKeepsTag(w, rest); }
      RewriteClose(p + (w + x));
      { ConcatAssoc(p, w, x); }
      RewriteClose(p + "</div>" + x);
      { RewriteCloseAt(p, x); }
      p + "</section>" + SanitizeContent(rest);
    }
  }

  /**
   * Both substitutions at a `<` that starts neither pattern: the text up to
   * and including it is kept, and the rest is sanitised in its turn.
   */
  lemma SanitizeOtherBracket(p: string, u: string)
    requires '<' !in p
    requires !(StartsWith("<" + u, "<div") && DivTail(u[3..]).Some?)
    requires !StartsWith("<" + u, "</div>")
    ensures SanitizeContent(p + "<" + u) == p + "<" + SanitizeContent(u)
  {
    var x := RewriteOpen(u);
    var t := "<" + x;
    assert !StartsWith(t, "</div>") by {
      if StartsWith(t, "</div>") {
        assert x[..5] == t[1..6];
        RewriteOpenPrefix(u, "/div>");
      }
    }
    calc {
      SanitizeContent(p + "<" + u);
      { ConcatAssoc(p, "<", u); }
      RewriteClose(RewriteOpen(p + ("<" + u)));
      { RewriteOpenPlain(p, "<" + u); }
      RewriteClose(p + RewriteOpen("<" + u));
      { RewriteOpenOther(u); }
      RewriteClose(p + t);
      { RewriteClosePlain(p, t); }
      p + RewriteClose(t);
      { assert t[1..] == x; }
      p + ("<" + RewriteClose(x));
      { ConcatAssoc(p, "<", RewriteClose(x)); }
      p + "<" + SanitizeContent(u);
    }
  }

  /**
   * A tag whose name only starts with `div`, such as `<divider>`, is left
   * alone: the opening pattern needs `>` or whitespace right after `div`.
   */
  lemma DivPrefixKept(t: string)
    requires t != [] && t[0] != '>' && !IsSpace(t[0])
    requires '<' !in t && '/' !in t
    ensures SanitizeContent("<div" + t) == "<div" + t
  {
    var s := "<div" + t;
    assert s[..4] == "<div" && s[4..] == t;
    assert DivTail(s[4..]) == None;
    assert '<' !in s[1..] by {
      forall k | 0 <= k < |s| - 1 ensures s[1..][k] != '<' {
        if k >= 3 {
          assert s[1..][k] == t[k - 3];
        }
      }
    }
    MissingCharNotContained(s[1..], "<div", 0);
    RewriteOpenNoDiv(s[1..]);
    assert RewriteOpen(s) == [s[0]] + s[1..] == s;
    assert '/' !in s by {
      forall k | 0 <= k < |s| ensures s[k] != '/' {
        if k >= 4 {
          assert s[k] == t[k - 4];
        }
      }
    }
    MissingCharNotContained(s, "</div>", 1);
    RewriteCloseNoDiv(s);
  }

  /**
   * How much of `t` (the text after `<`) the rest of the tag pattern takes:
   * everything up to and including the first `>`, provided something stands
   * between the two brackets.
   */
  function TagTail(t: string): (r: Option<nat>)
    ensures r.Some? ==> 2 <= r.value <= |t|
  {
    match IndexOf(t, '>')
    case Some(j) => if j >= 1 then Some(j + 1) else None
    case None => None
  }

  /** The substitution of `_sanitize_title`: every tag deleted. */
  function StripTags(s: string): string
    decreases |s|
  {
    if s != [] && s[0] == '<' && TagTail(s[1..]).Some? then StripTags(s[1 + TagTail(s[1..]).value..])
    else if s == [] then []
    else [s[0]] + StripTags(s[1..])
  }

  function SanitizeTitle(title: string): string
  {
    Strip(StripTags(title))
  }

  /** No `<` in the text starts a tag. */
  ghost predicate Tagless(s: string)
  {
    forall i :: 0 <= i < |s| && s[i] == '<' ==> TagTail(s[i + 1..]).None?
  }

  lemma {:induction false} StripTagsNoBracket(s: string)
    requires '<' !in s
    ensures StripTags(s) == s
    decreases |s|
  {
    if s != [] {
      StripTagsNoBracket(s[1..]);
    }
  }

  /** Text without `<` is kept by the substitution, whatever follows it. */
  lemma {:induction false} StripTagsPlain(a: string, s: string)
    requires '<' !in a
    ensures StripTags(a + s) == a + StripTags(s)
    decreases |a|
  {
    if a != [] {
      var t := a + s;
      assert a[0] in a;
      assert t[0] == a[0] && t[1..] == a[1..] + s;
      assert StripTags(t) == [t[0]] + StripTags(t[1..]);
      StripTagsPlain(a[1..], s);
      assert a == [a[0]] + a[1..];
    } else {
      assert a + s == s;
    }
  }

  /**
   * At the first `<` of the text that is followed by at least one character
   * other than `>` and then a `>`: the text before it is kept, the tag up to
   * that `>` is deleted, and the scan goes on after it.
   */
  lemma StripTagsAt(a: string, x: string, b: string)
    requires '<' !in a && x != [] && '>' !in x
    ensures StripTags(a + "<" + x + ">" + b) == a + StripTags(b)
  {
    var w := "<" + x + ">";
    var s := w + b;
    assert s[0] == '<' && s[1..] == x + ">" + b;
    IndexOfAfter(x, '>', b);
    assert TagTail(s[1..]) == Some(|x| + 1);
    assert s[1 + (|x| + 1)..] == b;
    assert StripTags(s) == StripTags(b);
    calc {
      StripTags(a + "<" + x + ">" + b);
      { ConcatAssoc3(a, "<", x, ">"); ConcatAssoc(a, w, b); }
      StripTags(a + s);
      { StripTagsPlain(a, s); }
      a + StripTags(b);
    }
  }

  /**
   * A `<` that starts no tag, because no `>` follows it or one follows right
   * away, is kept, and the scan goes on after it.
   */
  lemma StripTagsKeepsBracket(a: string, u: string)
    requires '<' !in a
    requires '>' !in u || (u != [] && u[0] == '>')
    ensures StripTags(a + "<" + u) == a + "<" + StripTags(u)
  {
    var s := "<" + u;
    assert s[0] == '<' && s[1..] == u;
    assert TagTail(u).None?;
    calc {
      StripTags(a + "<" + u);
      { ConcatAssoc(a, "<", u); }
      StripTags(a + s);
      { StripTagsPlain(a, s); }
      a + StripTags(s);
      a + ("<" + StripTags(u));
      { ConcatAssoc(a, "<", StripTags(u)); }
      a + "<" + StripTags(u);
    }
  }

  /** A title without `<` changes only by being stripped. */
  lemma SanitizeTitlePlain(title: string)
    requires '<' !in title
    ensures SanitizeTitle(title) == Strip(title)
  {
    StripTagsNoBracket(title);
  }

  /** Deleting tags introduces no character. */
  lemma {:induction false} StripTagsChars(s: string, c: char)
    requires c in StripTags(s)
    ensures c in s
    decreases |s|
  {
    if s != [] && s[0] == '<' && TagTail(s[1..]).Some? {
      var n := 1 + TagTail(s[1..]).value;
      assert StripTags(s) == StripTags(s[n..]);
      StripTagsChars(s[n..], c);
      InSuffix(s, n, c);
    } else if s != [] && c != s[0] {
      assert StripTags(s) == [s[0]] + StripTags(s[1..]);
      StripTagsChars(s[1..], c);
      InSuffix(s, 1, c);
    }
  }

  lemma InSuffix(s: string, n: nat, c: char)
    requires n <= |s| && c in s[n..]
    ensures c in s
  {
    var k :| 0 <= k < |s[n..]| && s[n..][k] == c;
    assert s[n + k] == c;
  }

  /** After the substitution no tag is left. */
  lemma {:induction false} StripTagsTagless(s: string)
    ensures Tagless(StripTags(s))
    decreases |s|
  {
    if s != [] && s[0] == '<' && TagTail(s[1..]).Some? {
      StripTagsTagless(s[1 + TagTail(s[1..]).value..]);
    } else if s != [] {
      var r := StripTags(s[1..]);
      StripTagsTagless(s[1..]);
      var out := [s[0]] + r;
      forall i | 0 <= i < |out| && out[i] == '<' ensures TagTail(out[i + 1..]).None? {
        if i == 0 {
          assert out[1..] == r;
          FirstTagless(s, r);
        } else {
          assert out[i + 1..] == r[i..];
          assert r[i - 1] == '<';
        }
      }
    }
  }

  /** A `<` left in place at the front does not start a tag in the output either. */
  lemma FirstTagless(s: string, r: string)
    requires s != [] && s[0] == '<' && TagTail(s[1..]).None?
    requires r == StripTags(s[1..])
    ensures TagTail(r).None?
  {
    var t := s[1..];
    match IndexOf(t, '>')
    case None =>
      if '>' in r { StripTagsChars(t, '>'); }
    case Some(j) =>
      assert j == 0;
      assert r == [t[0]] + StripTags(t[1..]);
  }

  /** Text without tags is left alone by the substitution. */
  lemma {:induction false} TaglessFixed(s: string)
    requires Tagless(s)
    ensures StripTags(s) == s
    decreases |s|
  {
    if s != [] {
      assert s[0] == '<' ==> TagTail(s[1..]).None?;
      assert Tagless(s[1..]) by {
        forall i | 0 <= i < |s[1..]| && s[1..][i] == '<' ensures TagTail(s[1..][i + 1..]).None? {
          assert s[1..][i + 1..] == s[i + 2..];
        }
      }
      TaglessFixed(s[1..]);
    }
  }

  /** A piece of tag-free text is tag-free. */
  lemma TaglessInfix(s: string, a: nat, b: nat)
    requires Tagless(s) && a <= b <= |s|
    ensures Tagless(s[a..b])
  {
    var u := s[a..b];
    forall k | 0 <= k < |u| && u[k] == '<' ensures TagTail(u[k + 1..]).None? {
      assert s[a + k] == '<';
      var v := s[a + k + 1..];
      var w := u[k + 1..];
      assert w == v[..|w|];
      match IndexOf(v, '>')
      case None =>
        assert forall m :: 0 <= m < |w| ==> w[m] == v[m];
      case Some(j) =>
        if j == 0 && w != [] { assert w[0] == '>'; }
        if j == 0 && w == [] { }
    }
  }

  /** The sanitised title is stripped and holds no tag, so sanitising again changes nothing. */
  lemma SanitizeTitleClean(title: string)
    ensures Tagless(SanitizeTitle(title))
    ensures Strip(SanitizeTitle(title)) == SanitizeTitle(title)
    ensures SanitizeTitle(SanitizeTitle(title)) == SanitizeTitle(title)
  {
    var t := StripTags(title);
    assert Tagless(Strip(t)) by {
      StripTagsTagless(title);
      StripIsInfix(t);
      TaglessInfix(t, StripStart(t), StripStart(t) + |Strip(t)|);
    }
    assert Strip(Strip(t)) == Strip(t) by {
      StripIdempotent(t);
    }
    assert StripTags(Strip(t)) == Strip(t) by {
      TaglessFixed(Strip(t));
    }
  }
}
