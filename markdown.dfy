/**
 * The text that `write_to_markdown` writes: the lines joined with `"\n"`,
 * then every run of two or more newlines replaced by exactly two (the
 * substitution of the pattern `\n\n+` by `\n\n`).
 */
module Markdown {
  import opened Strings

  /** Three newlines in a row: the shape the collapse removes. */
  const TripleNewline: string := "\n\n\n"

  /** `s` without its leading newlines. */
  function DropNewlines(s: string): (r: string)
    ensures |r| <= |s| && r == s[|s| - |r|..]
    ensures r == [] || r[0] != '\n'
    ensures forall k :: 0 <= k < |s| - |r| ==> s[k] == '\n'
    decreases |s|
  {
    if s != [] && s[0] == '\n' then DropNewlines(s[1..]) else s
  }

  /** Left to right, each maximal run of at least two newlines becomes
      `"\n\n"`, exactly as a non-overlapping, greedy substitution of
      `\n\n+` does; every other character, and every lone newline, stays. */
  function Collapse(s: string): (r: string)
    ensures |r| <= |s|
    ensures s != [] ==> r != [] && r[0] == s[0]
    decreases |s|
  {
    if |s| >= 2 && s[0] == '\n' && s[1] == '\n' then "\n\n" + Collapse(DropNewlines(s))
    else if s == [] then []
    else [s[0]] + Collapse(s[1..])
  }

  /** The characters of `s` other than newlines, in order. */
  function NonNewlines(s: string): string
    decreases |s|
  {
    if s == [] then [] else (if s[0] == '\n' then [] else [s[0]]) + NonNewlines(s[1..])
  }

  /** All the lines, one after the other. */
  function Concat(lines: seq<string>): string
    decreases |lines|
  {
    if lines == [] then [] else lines[0] + Concat(lines[1..])
  }

  /** The document `write_to_markdown` writes for `lines`: no three newlines
      in a row, no longer than the joined lines, and every non-newline
      character of every line kept, in order. */
  function Render(lines: seq<string>): (doc: string)
    ensures !Contains(doc, TripleNewline)
    ensures |doc| <= |Join(lines, "\n")|
    ensures NonNewlines(doc) == NonNewlines(Concat(lines))
  {
    var joined := Join(lines, "\n");
    CollapseNoTriple(joined);
    CollapseKeepsText(joined);
    JoinKeepsText(lines);
    Collapse(joined)
  }

  // ---------------------------------------------------------------------
  // Helpers about `Contains` and `NonNewlines`.
  // ---------------------------------------------------------------------

  /** A text whose first three characters are not all newlines does not
      start with a triple newline. */
  lemma NoTripleAtStart(v: string)
    requires |v| < 3 || v[0] != '\n' || v[1] != '\n' || v[2] != '\n'
    ensures !(TripleNewline <= v)
  {
    if |v| >= 3 {
      assert v[..3] == [v[0], v[1], v[2]];
    }
  }

  /** Prepending one character creates a triple newline only when it is a
      newline and `u` starts with two. */
  lemma NoTripleCons(c: char, u: string)
    requires !Contains(u, TripleNewline)
    requires c != '\n' || |u| < 2 || u[0] != '\n' || u[1] != '\n'
    ensures !Contains([c] + u, TripleNewline)
  {
    var v := [c] + u;
    assert v[0] == c && v[1..] == u;
    if |u| >= 2 {
      assert v[1] == u[0] && v[2] == u[1];
    }
    NoTripleAtStart(v);
  }

  /** A blank line before a text that does not start with a newline adds
      no triple newline. */
  lemma NoTriplePair(u: string)
    requires !Contains(u, TripleNewline)
    requires u == [] || u[0] != '\n'
    ensures !Contains("\n\n" + u, TripleNewline)
  {
    var v := ['\n'] + u;
    NoTripleCons('\n', u);
    assert |v| < 2 || v[1] != '\n';
    NoTripleCons('\n', v);
    assert "\n\n" + u == ['\n'] + v;
  }

  lemma {:induction false} ContainsPrefixOf(s: string, p: string, q: string)
    requires Contains(s, p + q)
    ensures Contains(s, p)
    decreases |s|
  {
    if !(p + q <= s) {
      ContainsPrefixOf(s[1..], p, q);
    } else {
      assert p <= s by { assert s[..|p|] == (p + q)[..|p|] == p; }
    }
  }

  lemma ContainsTail(s: string, p: string)
    requires s != [] && !Contains(s, p)
    ensures !Contains(s[1..], p)
  {
  }

  lemma {:induction false} NonNewlinesAppend(a: string, b: string)
    ensures NonNewlines(a + b) == NonNewlines(a) + NonNewlines(b)
    decreases |a|
  {
    if a == [] {
      assert a + b == b;
    } else {
      assert (a + b)[0] == a[0] && (a + b)[1..] == a[1..] + b;
      NonNewlinesAppend(a[1..], b);
    }
  }

  lemma {:induction false} NonNewlinesOfDrop(s: string)
    ensures NonNewlines(DropNewlines(s)) == NonNewlines(s)
    decreases |s|
  {
    if s != [] && s[0] == '\n' {
      NonNewlinesOfDrop(s[1..]);
    }
  }

  // ---------------------------------------------------------------------
  // Properties of the collapse.
  // ---------------------------------------------------------------------

  /** The collapsed text never holds three newlines in a row. */
  lemma {:induction false} CollapseNoTriple(s: string)
    ensures !Contains(Collapse(s), TripleNewline)
    decreases |s|
  {
    if |s| >= 2 && s[0] == '\n' && s[1] == '\n' {
      var r := DropNewlines(s);
      var cr := Collapse(r);
      CollapseNoTriple(r);
      assert Collapse(s) == "\n\n" + cr;
      NoTriplePair(cr);
    } else if s != [] {
      var cr := Collapse(s[1..]);
      assert Collapse(s) == [s[0]] + cr;
      CollapseNoTriple(s[1..]);
      NoTripleCons(s[0], cr);
    }
  }

  /** A text that starts with a blank line but no triple newline goes on
      with a character other than a newline, if at all. */
  lemma NoThirdNewline(s: string)
    requires !Contains(s, TripleNewline) && |s| >= 2 && s[0] == '\n' && s[1] == '\n'
    ensures |s| == 2 || s[2] != '\n'
  {
    assert !(TripleNewline <= s);
    if |s| >= 3 {
      assert s[..3] == [s[0], s[1], s[2]];
    }
  }

  /** A blank line followed by something else is kept as it is. */
  lemma CollapseBlankLine(s: string)
    requires |s| >= 2 && s[0] == '\n' && s[1] == '\n' && (|s| == 2 || s[2] != '\n')
    ensures s == "\n\n" + s[2..]
    ensures Collapse(s) == "\n\n" + Collapse(s[2..])
  {
    assert s[1..][1..] == s[2..];
    assert DropNewlines(s) == s[2..];
  }

  /** Any other first character is kept as it is. */
  lemma CollapseOther(s: string)
    requires s != [] && !(|s| >= 2 && s[0] == '\n' && s[1] == '\n')
    ensures Collapse(s) == [s[0]] + Collapse(s[1..])
  {
  }

  /** A text without three newlines in a row is left as it is. */
  lemma {:induction false} CollapseFixesClean(s: string)
    requires !Contains(s, TripleNewline)
    ensures Collapse(s) == s
    decreases |s|
  {
    if |s| >= 2 && s[0] == '\n' && s[1] == '\n' {
      NoThirdNewline(s);
      CollapseBlankLine(s);
      ContainsTail(s, TripleNewline);
      ContainsTail(s[1..], TripleNewline);
      assert s[1..][1..] == s[2..];
      CollapseFixesClean(s[2..]);
    } else if s != [] {
      CollapseOther(s);
      ContainsTail(s, TripleNewline);
      CollapseFixesClean(s[1..]);
      assert s == [s[0]] + s[1..];
    }
  }

  /** The collapse changes a text exactly when it holds three newlines in a
      row. */
  lemma CollapseFixpoint(s: string)
    ensures Collapse(s) == s <==> !Contains(s, TripleNewline)
  {
    CollapseNoTriple(s);
    if !Contains(s, TripleNewline) { CollapseFixesClean(s); }
  }

  /** Collapsing twice is collapsing once. */
  lemma CollapseIdempotent(s: string)
    ensures Collapse(Collapse(s)) == Collapse(s)
  {
    CollapseNoTriple(s);
    CollapseFixesClean(Collapse(s));
  }

  /** A text with no blank line (`"\n\n"`) comes through unchanged. */
  lemma CollapseWithoutBlankLine(s: string)
    requires !Contains(s, "\n\n")
    ensures Collapse(s) == s
  {
    if Contains(s, TripleNewline) {
      assert "\n\n" + "\n" == TripleNewline;
      ContainsPrefixOf(s, "\n\n", "\n");
    }
    CollapseFixesClean(s);
  }

  /** The collapse only removes newlines: the other characters survive, in
      order. */
  lemma {:induction false} CollapseKeepsText(s: string)
    ensures NonNewlines(Collapse(s)) == NonNewlines(s)
    decreases |s|
  {
    if |s| >= 2 && s[0] == '\n' && s[1] == '\n' {
      var r := DropNewlines(s);
      CollapseKeepsText(r);
      NonNewlinesOfDrop(s);
      NonNewlinesAppend("\n\n", Collapse(r));
      assert NonNewlines("\n\n") == [] by {
        assert "\n\n"[1..] == "\n" && "\n"[1..] == [];
      }
    } else if s != [] {
      CollapseKeepsText(s[1..]);
      assert Collapse(s) == [s[0]] + Collapse(s[1..]);
      NonNewlinesAppend([s[0]], Collapse(s[1..]));
      assert NonNewlines([s[0]]) == (if s[0] == '\n' then [] else [s[0]]) by {
        assert [s[0]][1..] == [];
      }
    }
  }

  /** Joining with newlines adds only newlines. */
  lemma {:induction false} JoinKeepsText(lines: seq<string>)
    ensures NonNewlines(Join(lines, "\n")) == NonNewlines(Concat(lines))
    decreases |lines|
  {
    if |lines| == 1 {
      assert Concat(lines) == lines[0] + Concat([]);
      assert lines[0] + [] == lines[0];
    } else if |lines| > 1 {
      var h, rest := lines[0], lines[1..];
      JoinKeepsText(rest);
      assert Join(lines, "\n") == (h + "\n") + Join(rest, "\n");
      assert Concat(lines) == h + Concat(rest);
      NonNewlinesAppend(h + "\n", Join(rest, "\n"));
      NonNewlinesAppend(h, "\n");
      NonNewlinesAppend(h, Concat(rest));
      NewlineHasNoText();
    }
  }

  lemma NewlineHasNoText()
    ensures NonNewlines("\n") == []
  {
    assert "\n"[1..] == [];
  }

  // ---------------------------------------------------------------------
  // The collapse, run by run.
  // ---------------------------------------------------------------------

  /** `k` newlines. */
  function Newlines(k: nat): (r: string)
    ensures |r| == k && forall j :: 0 <= j < k ==> r[j] == '\n'
  {
    seq(k, _ => '\n')
  }

  lemma {:induction false} DropNewlinesRun(k: nat, b: string)
    requires b == [] || b[0] != '\n'
    ensures DropNewlines(Newlines(k) + b) == b
    decreases k
  {
    if k == 0 {
      assert Newlines(k) + b == b;
    } else {
      var n := Newlines(k - 1);
      NewlinesCons(k);
      AppendAssoc(['\n'], n, b);
      var s := ['\n'] + (n + b);
      assert s[0] == '\n' && s[1..] == n + b;
      DropNewlinesRun(k - 1, b);
    }
  }

  lemma NewlinesCons(k: nat)
    requires k >= 1
    ensures Newlines(k) == ['\n'] + Newlines(k - 1)
  {
  }

  /** Leading newlines of a text that ends in something else stay in front. */
  lemma {:induction false} DropNewlinesAppend(a: string, u: string)
    requires a != [] && a[|a| - 1] != '\n'
    ensures DropNewlines(a + u) == DropNewlines(a) + u
    decreases |a|
  {
    if a[0] == '\n' {
      AppendTail(a, u);
      DropNewlinesAppend(a[1..], u);
    }
  }

  /** What is left after the newlines of `a` is dropped still ends as `a`
      does. */
  lemma DropNewlinesEnd(a: string)
    requires a != [] && a[|a| - 1] != '\n'
    ensures var r := DropNewlines(a); r != [] && r[|r| - 1] == a[|a| - 1]
  {
  }

  /** A text that does not end in a newline is collapsed independently of
      what follows it: no run of newlines straddles the seam. */
  lemma {:induction false} CollapseAppend(a: string, u: string)
    requires a == [] || a[|a| - 1] != '\n'
    ensures Collapse(a + u) == Collapse(a) + Collapse(u)
    decreases |a|
  {
    if a == [] {
      assert a + u == u;
    } else if |a| >= 2 && a[0] == '\n' && a[1] == '\n' {
      var r := DropNewlines(a);
      DropNewlinesAppend(a, u);
      DropNewlinesEnd(a);
      assert (a + u)[0] == '\n' && (a + u)[1] == '\n';
      assert Collapse(a + u) == "\n\n" + Collapse(r + u);
      CollapseAppend(r, u);
      AppendAssoc("\n\n", Collapse(r), Collapse(u));
    } else {
      AppendTail(a, u);
      CollapseOther(a);
      CollapseOther(a + u);
      if |a| == 1 {
        assert a[1..] == [] && a[1..] + u == u;
      } else {
        CollapseAppend(a[1..], u);
      }
      AppendAssoc([a[0]], Collapse(a[1..]), Collapse(u));
    }
  }

  /** A run of newlines followed by something else: a lone newline stays,
      a run of two or more becomes exactly one blank line. */
  lemma CollapseRunStart(k: nat, b: string)
    requires k >= 1 && (b == [] || b[0] != '\n')
    ensures Collapse(Newlines(k) + b) == (if k == 1 then "\n" else "\n\n") + Collapse(b)
  {
    var s := Newlines(k) + b;
    if k == 1 {
      assert s[0] == '\n' && s[1..] == b;
      CollapseOther(s);
    } else {
      assert s[0] == '\n' && s[1] == '\n';
      DropNewlinesRun(k, b);
    }
  }

  /** The collapse acts on each maximal run of newlines on its own: between
      a text that does not end and a text that does not start with a
      newline, a run of `k` newlines becomes one newline if `k` is 1 and
      `"\n\n"` otherwise, and both sides are collapsed as they are. */
  lemma CollapseRun(a: string, k: nat, b: string)
    requires a == [] || a[|a| - 1] != '\n'
    requires k >= 1 && (b == [] || b[0] != '\n')
    ensures Collapse(a + Newlines(k) + b)
         == Collapse(a) + (if k == 1 then "\n" else "\n\n") + Collapse(b)
  {
    var n := Newlines(k);
    var sep: string := if k == 1 then "\n" else "\n\n";
    AppendAssoc(a, n, b);
    CollapseAppend(a, n + b);
    CollapseRunStart(k, b);
    AppendAssoc(Collapse(a), sep, Collapse(b));
  }

  /** In particular a lone newline between two lines survives. */
  lemma CollapseKeepsLoneNewline(a: string, b: string)
    requires a == [] || a[|a| - 1] != '\n'
    requires b == [] || b[0] != '\n'
    ensures Collapse(a + "\n" + b) == Collapse(a) + "\n" + Collapse(b)
  {
    assert Newlines(1) == "\n";
    CollapseRun(a, 1, b);
  }
}
