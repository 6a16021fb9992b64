/**
 * The handful of Python string operations the Markdown generator relies on,
 * written out over `seq<char>`: `sep in s`, `s.count(c)`, `s.split(c)`,
 * `sep.join(parts)`, `s.replace(p, "")` and the code-point ordering that
 * `sorted` uses on `str` keys.
 */
module Strings {

  /** `p in s` for strings: some suffix of `s` starts with `p`. */
  predicate Contains(s: string, p: string)
    decreases |s|
  {
    p <= s || (|s| > 0 && Contains(s[1..], p))
  }

  /** `s.count(c)` for a one-character argument. */
  function CountChar(s: string, c: char): nat
    decreases |s|
  {
    if s == [] then 0 else (if s[0] == c then 1 else 0) + CountChar(s[1..], c)
  }

  /** The position of the first `c` in `s` (`s.index(c)`). */
  function IndexOf(s: string, c: char): (i: nat)
    requires c in s
    ensures i < |s| && s[i] == c && c !in s[..i]
    decreases |s|
  {
    if s[0] == c then 0 else 1 + IndexOf(s[1..], c)
  }

  /** The first `c` after a `c`-free prefix is the one that follows it. */
  lemma {:induction false} IndexOfAfter(p: string, c: char, q: string)
    requires c !in p
    ensures c in p + [c] + q && IndexOf(p + [c] + q, c) == |p|
    decreases |p|
  {
    var s := p + [c] + q;
    assert s[|p|] == c;
    if p != [] {
      assert s[0] == p[0] && s[1..] == p[1..] + [c] + q;
      assert c !in p[1..] by {
        forall k | 0 <= k < |p[1..]| ensures p[1..][k] != c { assert p[1..][k] == p[k + 1]; }
      }
      IndexOfAfter(p[1..], c, q);
    }
  }

  /** `s.split(c)`: the pieces between the occurrences of `c`; never empty. */
  function Split(s: string, c: char): (parts: seq<string>)
    ensures |parts| >= 1
    decreases |s|
  {
    if c !in s then [s]
    else
      var i := IndexOf(s, c);
      [s[..i]] + Split(s[i + 1..], c)
  }

  /** With a `c` in `s`, the first piece is everything before the first `c`
      and the others are the pieces of what follows it. */
  lemma SplitFirst(s: string, c: char)
    requires c in s
    ensures var i := IndexOf(s, c);
      Split(s, c) == [s[..i]] + Split(s[i + 1..], c)
  {
  }

  /** A string is what comes before position `i`, the character there and
      what comes after. */
  lemma Around(s: string, i: nat)
    requires i < |s|
    ensures s == s[..i] + [s[i]] + s[i + 1..]
  {
  }

  /** The parts of `p + [c] + q` are recovered by slicing around `|p|`. */
  lemma Parts(p: string, c: char, q: string)
    ensures var s := p + [c] + q;
      |s| == |p| + 1 + |q| && s[..|p|] == p && s[|p|] == c && s[|p| + 1..] == q
  {
  }

  /** A prefix one element longer. */
  lemma PrefixSnoc<T>(s: seq<T>, i: nat)
    requires i < |s|
    ensures s[..i + 1] == s[..i] + [s[i]]
  {
  }

  lemma AppendAssoc<T>(a: seq<T>, b: seq<T>, c: seq<T>)
    ensures a + b + c == a + (b + c)
  {
  }

  /** The first character and the rest of a concatenation with a non-empty
      left part. */
  lemma AppendTail(p: string, q: string)
    requires p != []
    ensures (p + q)[0] == p[0] && (p + q)[1..] == p[1..] + q && p == [p[0]] + p[1..]
  {
  }

  /** `sep.join(parts)`: the parts with `sep` between each two neighbours. */
  function Join(parts: seq<string>, sep: string): string
    decreases |parts|
  {
    if |parts| == 0 then []
    else if |parts| == 1 then parts[0]
    else parts[0] + sep + Join(parts[1..], sep)
  }

  /** `s.replace(p, "")`: occurrences of `p` found left to right, without
      overlap, are deleted. A string without `p` comes back unchanged; one
      with `p` loses at least one copy of it. */
  function RemoveAll(s: string, p: string): (r: string)
    requires |p| > 0
    ensures |r| <= |s|
    ensures !Contains(s, p) ==> r == s
    ensures Contains(s, p) ==> |r| <= |s| - |p|
    decreases |s|
  {
    if |s| == 0 then []
    else if p <= s then RemoveAll(s[|p|..], p)
    else
      assert s == [s[0]] + s[1..];
      [s[0]] + RemoveAll(s[1..], p)
  }

  /** Python's `a <= b` on `str`: lexicographic on code points, a proper
      prefix sorting first. */
  predicate LexLe(a: string, b: string)
    decreases |a|
  {
    if a == [] then true
    else if b == [] then false
    else if a[0] != b[0] then a[0] < b[0]
    else LexLe(a[1..], b[1..])
  }

  // ---------------------------------------------------------------------
  // Properties of the operations above.
  // ---------------------------------------------------------------------

  lemma {:induction false} CountCharAppend(a: string, b: string, c: char)
    ensures CountChar(a + b, c) == CountChar(a, c) + CountChar(b, c)
    decreases |a|
  {
    if a != [] {
      var ab := a + b;
      assert ab != [] && ab[0] == a[0] && ab[1..] == a[1..] + b;
      CountCharAppend(a[1..], b, c);
      assert CountChar(ab, c) == (if a[0] == c then 1 else 0) + CountChar(a[1..] + b, c);
    } else {
      assert a + b == b;
    }
  }

  lemma {:induction false} CountCharAbsent(s: string, c: char)
    requires c !in s
    ensures CountChar(s, c) == 0
    decreases |s|
  {
    if s != [] {
      assert c !in s[1..] by {
        forall k | 0 <= k < |s[1..]| ensures s[1..][k] != c { assert s[1..][k] == s[k + 1]; }
      }
      CountCharAbsent(s[1..], c);
    }
  }

  lemma JoinCons(x: string, ys: seq<string>, sep: string)
    requires |ys| >= 1
    ensures Join([x] + ys, sep) == x + sep + Join(ys, sep)
  {
    assert ([x] + ys)[1..] == ys;
  }

  /** Splitting on `c` and joining with `c` gives back the string. */
  lemma {:induction false} JoinSplit(s: string, c: char)
    ensures Join(Split(s, c), [c]) == s
    decreases |s|
  {
    if c in s {
      var i := IndexOf(s, c);
      var rest := s[i + 1..];
      JoinSplit(rest, c);
      SplitFirst(s, c);
      JoinCons(s[..i], Split(rest, c), [c]);
      Around(s, i);
    }
  }

  /** There is one more piece than there are separators. */
  lemma {:induction false} SplitLength(s: string, c: char)
    ensures |Split(s, c)| == CountChar(s, c) + 1
    decreases |s|
  {
    if c !in s {
      CountCharAbsent(s, c);
    } else {
      var i := IndexOf(s, c);
      var pre, rest := s[..i], s[i + 1..];
      SplitFirst(s, c);
      SplitLength(rest, c);
      CountCharAround(s, i, c);
      CountCharAbsent(pre, c);
    }
  }

  /** The count of `c` in `s`, split at position `i`. */
  lemma CountCharAround(s: string, i: nat, c: char)
    requires i < |s|
    ensures CountChar(s, c)
         == CountChar(s[..i], c) + (if s[i] == c then 1 else 0) + CountChar(s[i + 1..], c)
  {
    var pre, rest := s[..i], s[i + 1..];
    Around(s, i);
    assert s == pre + ([s[i]] + rest);
    CountCharAppend(pre, [s[i]] + rest, c);
    assert ([s[i]] + rest)[1..] == rest;
  }

  lemma {:induction false} LexLeReflexive(a: string)
    ensures LexLe(a, a)
    decreases |a|
  {
    if a != [] { LexLeReflexive(a[1..]); }
  }

  lemma {:induction false} LexLeAntisymmetric(a: string, b: string)
    requires LexLe(a, b) && LexLe(b, a)
    ensures a == b
    decreases |a|
  {
    if a != [] && b != [] {
      LexLeAntisymmetric(a[1..], b[1..]);
      assert a == [a[0]] + a[1..] && b == [b[0]] + b[1..];
    }
  }

  lemma {:induction false} LexLeTransitive(a: string, b: string, c: string)
    requires LexLe(a, b) && LexLe(b, c)
    ensures LexLe(a, c)
    decreases |a|
  {
    if a != [] && b != [] && c != [] && a[0] == b[0] && b[0] == c[0] {
      LexLeTransitive(a[1..], b[1..], c[1..]);
    }
  }

  lemma {:induction false} LexLeTotal(a: string, b: string)
    ensures LexLe(a, b) || LexLe(b, a)
    decreases |a|
  {
    if a != [] && b != [] && a[0] == b[0] {
      LexLeTotal(a[1..], b[1..]);
    }
  }

  /** An occurrence of `p` needs at least `|p|` characters. */
  lemma ContainsLength(s: string, p: string)
    requires Contains(s, p)
    ensures |p| <= |s|
    decreases |s|
  {
    if !(p <= s) { ContainsLength(s[1..], p); }
  }

  /** A string ending in `p` contains `p`. */
  lemma {:induction false} ContainsEnd(a: string, p: string)
    ensures Contains(a + p, p)
    decreases |a|
  {
    if a == [] {
      assert a + p == p;
    } else {
      assert (a + p)[1..] == a[1..] + p;
      ContainsEnd(a[1..], p);
    }
  }

  /** A string that holds `p` and is followed by one more `p` loses at least
      two copies: `RemoveAll(t + p, p)` is at least `|p|` shorter than `t`. */
  lemma {:induction false} RemoveAllInnerAndEnd(t: string, p: string)
    requires |p| > 0 && Contains(t, p)
    ensures |RemoveAll(t + p, p)| <= |t| - |p|
    decreases |t|
  {
    var s := t + p;
    ContainsLength(t, p);
    assert s[..|p|] == t[..|p|];
    if p <= t {
      assert s[|p|..] == t[|p|..] + p;
      ContainsEnd(t[|p|..], p);
    } else {
      assert !(p <= s);
      AppendTail(t, p);
      RemoveAllSkip(s, p);
      RemoveAllInnerAndEnd(t[1..], p);
    }
  }

  /** Leading characters that cannot start `p` are never part of a
      deletion. */
  lemma {:induction false} RemoveAllPastPrefix(a: string, rest: string, p: string)
    requires |p| > 0 && p[0] !in a
    ensures RemoveAll(a + rest, p) == a + RemoveAll(rest, p)
    decreases |a|
  {
    if a == [] {
      assert a + rest == rest;
    } else {
      var tail := a[1..];
      AppendTail(a, rest);
      assert !(p <= a + rest) by { assert (a + rest)[0] != p[0]; }
      RemoveAllSkip(a + rest, p);
      assert p[0] !in tail by { assert forall k :: 0 <= k < |tail| ==> tail[k] == a[k + 1]; }
      RemoveAllPastPrefix(tail, rest, p);
      AppendAssoc([a[0]], tail, RemoveAll(rest, p));
    }
  }

  /** Where `p` does not start, the first character is kept. */
  lemma RemoveAllSkip(s: string, p: string)
    requires |p| > 0 && s != [] && !(p <= s)
    ensures RemoveAll(s, p) == [s[0]] + RemoveAll(s[1..], p)
  {
  }
}
