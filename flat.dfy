/**
 * `modules_to_lines`: renders a flat collection of module records, sorted by
 * name, as three lines per module: a heading whose level comes from the
 * number of dots in the name, the `::: <name>` directive and `"\n\n"`.
 */
module FlatRender {
  import opened Strings
  import opened Skeleton

  /** One record of the collection: `{'name': ..., 'members': [...]}`. */
  datatype ModuleRecord = ModuleRecord(name: string, members: seq<string>)

  /** The names of the records, in order. */
  function Names(ms: seq<ModuleRecord>): (r: seq<string>)
    ensures |r| == |ms|
    decreases |ms|
  {
    if ms == [] then [] else [ms[0].name] + Names(ms[1..])
  }

  lemma {:induction false} NamesAt(ms: seq<ModuleRecord>, i: nat)
    requires i < |ms|
    ensures Names(ms)[i] == ms[i].name
    decreases i
  {
    if i > 0 { NamesAt(ms[1..], i - 1); }
  }

  lemma SortedNames(ms: seq<ModuleRecord>)
    requires SortedByName(ms)
    ensures Sorted(Names(ms))
  {
    forall i, j | 0 <= i < j < |ms| ensures LexLe(Names(ms)[i], Names(ms)[j]) {
      NamesAt(ms, i);
      NamesAt(ms, j);
    }
  }

  /** Strings in ascending order. */
  predicate Sorted(s: seq<string>)
  {
    forall i, j :: 0 <= i < j < |s| ==> LexLe(s[i], s[j])
  }

  /** Records in ascending order of name. */
  predicate SortedByName(ms: seq<ModuleRecord>)
  {
    forall i, j :: 0 <= i < j < |ms| ==> LexLe(ms[i].name, ms[j].name)
  }

  /** Inserts `m` in front of the first record whose name is not below
      `m.name`. */
  function Insert(m: ModuleRecord, s: seq<ModuleRecord>): (r: seq<ModuleRecord>)
    ensures |r| == |s| + 1
    decreases |s|
  {
    if s == [] then [m]
    else if LexLe(m.name, s[0].name) then [m] + s
    else [s[0]] + Insert(m, s[1..])
  }

  /** Inserting adds `m` and nothing else. */
  lemma {:induction false} InsertPermutes(m: ModuleRecord, s: seq<ModuleRecord>)
    ensures multiset(Insert(m, s)) == multiset(s) + multiset{m}
    decreases |s|
  {
    if s != [] && !LexLe(m.name, s[0].name) {
      InsertPermutes(m, s[1..]);
      assert s == [s[0]] + s[1..];
    }
  }

  /** `sorted(modules, key=lambda m: m['name'])`, as an insertion sort on
      the code-point order of names. */
  function SortByName(ms: seq<ModuleRecord>): (r: seq<ModuleRecord>)
    ensures |r| == |ms|
    decreases |ms|
  {
    if ms == [] then [] else Insert(ms[0], SortByName(ms[1..]))
  }

  /** The sort is a rearrangement of the records. */
  lemma {:induction false} SortByNamePermutes(ms: seq<ModuleRecord>)
    ensures multiset(SortByName(ms)) == multiset(ms)
    decreases |ms|
  {
    if ms != [] {
      var rest := SortByName(ms[1..]);
      assert SortByName(ms) == Insert(ms[0], rest);
      SortByNamePermutes(ms[1..]);
      InsertPermutes(ms[0], rest);
      assert ms == [ms[0]] + ms[1..];
      assert multiset(ms) == multiset([ms[0]]) + multiset(ms[1..]);
    }
  }

  /** The sort puts the records in ascending order of name. */
  lemma {:induction false} SortByNameSorted(ms: seq<ModuleRecord>)
    ensures SortedByName(SortByName(ms))
    decreases |ms|
  {
    if ms != [] {
      SortByNameSorted(ms[1..]);
      InsertSorted(ms[0], SortByName(ms[1..]));
    }
  }

  /** `SortByName` is a sort: a rearrangement in ascending order of name. */
  lemma SortByNameSorts(ms: seq<ModuleRecord>)
    ensures multiset(SortByName(ms)) == multiset(ms)
    ensures SortedByName(SortByName(ms))
  {
    SortByNamePermutes(ms);
    SortByNameSorted(ms);
  }

  /** The records of `ms` named `n`, in order. */
  function WithName(ms: seq<ModuleRecord>, n: string): seq<ModuleRecord>
    decreases |ms|
  {
    if ms == [] then [] else (if ms[0].name == n then [ms[0]] else []) + WithName(ms[1..], n)
  }

  lemma WithNameCons(x: ModuleRecord, s: seq<ModuleRecord>, n: string)
    ensures WithName([x] + s, n) == (if x.name == n then [x] else []) + WithName(s, n)
  {
    assert ([x] + s)[1..] == s;
  }

  /** `m` goes before every record with its own name. */
  lemma {:induction false} InsertWithName(m: ModuleRecord, s: seq<ModuleRecord>, n: string)
    ensures WithName(Insert(m, s), n) == (if m.name == n then [m] else []) + WithName(s, n)
    decreases |s|
  {
    if s == [] {
      WithNameCons(m, [], n);
      assert [m] == [m] + [];
    } else if LexLe(m.name, s[0].name) {
      WithNameCons(m, s, n);
    } else {
      var x, tail := s[0], s[1..];
      var rest := Insert(m, tail);
      assert Insert(m, s) == [x] + rest;
      WithNameCons(x, rest, n);
      InsertWithName(m, tail, n);
      LexLeReflexive(m.name);
      assert x.name != m.name;
      var a, b := if x.name == n then [x] else [], if m.name == n then [m] else [];
      assert a == [] || b == [];
      AppendAssoc(a, b, WithName(tail, n));
      AppendAssoc(b, a, WithName(tail, n));
      assert s == [x] + tail;
      WithNameCons(x, tail, n);
    }
  }

  /** The sort is stable: records with the same name keep their order. */
  lemma {:induction false} SortByNameStable(ms: seq<ModuleRecord>, n: string)
    ensures WithName(SortByName(ms), n) == WithName(ms, n)
    decreases |ms|
  {
    if ms != [] {
      InsertWithName(ms[0], SortByName(ms[1..]), n);
      SortByNameStable(ms[1..], n);
    }
  }

  /** The three lines of one module: heading, directive, blank line. */
  function Block(m: ModuleRecord): seq<string>
  {
    [HeadingLine(m.name, CountChar(m.name, '.')), Directive(m.name), "\n\n"]
  }

  /** The blocks of `ms`, in the order of `ms`. */
  function Blocks(ms: seq<ModuleRecord>): seq<string>
    decreases |ms|
  {
    if ms == [] then [] else Blocks(ms[..|ms| - 1]) + Block(ms[|ms| - 1])
  }

  /** The lines `modules_to_lines` returns for a collection of records:
      three per record. */
  function FlatLines(modules: seq<ModuleRecord>): (lines: seq<string>)
    ensures |lines| == 3 * |modules|
  {
    BlocksAt(SortByName(modules));
    Blocks(SortByName(modules))
  }

  /** `modules_to_lines` as the source writes it: sort, then append the
      three lines of each record in turn. */
  method ModulesToLines(modules: seq<ModuleRecord>) returns (lines: seq<string>)
    ensures lines == FlatLines(modules)
  {
    var sorted := SortByName(modules);
    lines := [];
    for i := 0 to |sorted|
      invariant lines == Blocks(sorted[..i])
    {
      var name := sorted[i].name;
      var level := CountChar(name, '.');
      lines := lines + [HeadingLine(name, level), Directive(name), "\n\n"];
      PrefixSnoc(sorted, i);
      BlocksSnoc(sorted[..i], sorted[i]);
    }
    assert sorted[..|sorted|] == sorted;
  }

  // ---------------------------------------------------------------------
  // Properties.
  // ---------------------------------------------------------------------

  /** A lower bound of `m` and of every record of `s` bounds every record
      of `Insert(m, s)`. */
  lemma {:induction false} InsertLowerBound(lo: string, m: ModuleRecord, s: seq<ModuleRecord>)
    requires LexLe(lo, m.name)
    requires forall j :: 0 <= j < |s| ==> LexLe(lo, s[j].name)
    ensures forall j :: 0 <= j < |Insert(m, s)| ==> LexLe(lo, Insert(m, s)[j].name)
    decreases |s|
  {
    if s != [] && !LexLe(m.name, s[0].name) {
      var tail := s[1..];
      assert forall j :: 0 <= j < |tail| ==> tail[j] == s[j + 1];
      InsertLowerBound(lo, m, tail);
      var r := [s[0]] + Insert(m, tail);
      assert Insert(m, s) == r;
      assert forall j :: 1 <= j < |r| ==> r[j] == Insert(m, tail)[j - 1];
    }
  }

  lemma {:induction false} InsertSorted(m: ModuleRecord, s: seq<ModuleRecord>)
    requires SortedByName(s)
    ensures SortedByName(Insert(m, s))
    decreases |s|
  {
    if s == [] {
    } else if LexLe(m.name, s[0].name) {
      var r := [m] + s;
      assert Insert(m, s) == r;
      forall i, j | 0 <= i < j < |r| ensures LexLe(r[i].name, r[j].name) {
        if i == 0 && j > 1 {
          LexLeTransitive(m.name, s[0].name, s[j - 1].name);
        }
      }
    } else {
      var tail := s[1..];
      assert forall j :: 0 <= j < |tail| ==> tail[j] == s[j + 1];
      InsertSorted(m, tail);
      LexLeTotal(m.name, s[0].name);
      InsertLowerBound(s[0].name, m, tail);
      var rest := Insert(m, tail);
      var r := [s[0]] + rest;
      assert Insert(m, s) == r;
      forall i, j | 0 <= i < j < |r| ensures LexLe(r[i].name, r[j].name) {
        if i == 0 {
          assert r[j] == rest[j - 1];
        } else {
          assert r[i] == rest[i - 1] && r[j] == rest[j - 1];
        }
      }
    }
  }

  /** The names of the inserted sequence are those of `s` plus `m.name`. */
  lemma {:induction false} InsertNames(m: ModuleRecord, s: seq<ModuleRecord>)
    ensures multiset(Names(Insert(m, s))) == multiset(Names(s)) + multiset{m.name}
    decreases |s|
  {
    if s == [] {
      assert Names([m]) == [m.name] + Names([]);
    } else if LexLe(m.name, s[0].name) {
      assert ([m] + s)[1..] == s;
    } else {
      var rest := Insert(m, s[1..]);
      InsertNames(m, s[1..]);
      assert ([s[0]] + rest)[1..] == rest;
    }
  }

  /** Sorting keeps the names, with their multiplicities. */
  lemma {:induction false} SortNames(ms: seq<ModuleRecord>)
    ensures multiset(Names(SortByName(ms))) == multiset(Names(ms))
    decreases |ms|
  {
    if ms != [] {
      SortNames(ms[1..]);
      InsertNames(ms[0], SortByName(ms[1..]));
    }
  }

  /** The blocks stand side by side: line `k` of block `i` is line
      `3 * i + k`. */
  lemma {:induction false} BlocksAt(ms: seq<ModuleRecord>)
    ensures |Blocks(ms)| == 3 * |ms|
    ensures forall i, k :: 0 <= i < |ms| && 0 <= k < 3 ==> Blocks(ms)[3 * i + k] == Block(ms[i])[k]
    decreases |ms|
  {
    if ms != [] {
      var init := ms[..|ms| - 1];
      BlocksAt(init);
      var b, last := Blocks(init), Block(ms[|ms| - 1]);
      assert Blocks(ms) == b + last;
      forall i, k | 0 <= i < |ms| && 0 <= k < 3 ensures (b + last)[3 * i + k] == Block(ms[i])[k] {
        if i < |init| {
          assert init[i] == ms[i];
          assert b[3 * i + k] == Block(init[i])[k];
          assert (b + last)[3 * i + k] == b[3 * i + k];
        } else {
          assert 3 * i + k == |b| + k;
          assert (b + last)[|b| + k] == last[k];
        }
      }
    }
  }

  /** The output has exactly three lines per module: for the module at
      position `i` in ascending name order, its heading at level
      `name.count('.')` (capped at three hashes), its directive and `"\n\n"`.
      The order is a sorted rearrangement of the given records. */
  lemma FlatLinesShape(modules: seq<ModuleRecord>)
    ensures var sorted := SortByName(modules);
      var lines := FlatLines(modules);
      && multiset(sorted) == multiset(modules)
      && SortedByName(sorted)
      && |lines| == 3 * |modules|
      && forall i :: 0 <= i < |modules| ==>
           && lines[3 * i] == HeadingLine(sorted[i].name, CountChar(sorted[i].name, '.'))
           && lines[3 * i + 1] == "::: " + sorted[i].name
           && lines[3 * i + 2] == "\n\n"
  {
    var sorted := SortByName(modules);
    var lines := Blocks(sorted);
    assert FlatLines(modules) == lines;
    SortByNameSorts(modules);
    BlocksAt(sorted);
    forall i | 0 <= i < |modules|
      ensures lines[3 * i] == HeadingLine(sorted[i].name, CountChar(sorted[i].name, '.'))
      ensures lines[3 * i + 1] == "::: " + sorted[i].name
      ensures lines[3 * i + 2] == "\n\n"
    {
      var blk := Block(sorted[i]);
      assert lines[3 * i + 0] == blk[0];
      assert lines[3 * i + 1] == blk[1];
      assert lines[3 * i + 2] == blk[2];
    }
  }

  /** The first element of a sorted sequence is below all of its elements. */
  lemma SortedHeadLeast(x: seq<string>, e: string)
    requires Sorted(x) && e in x
    ensures LexLe(x[0], e)
  {
    var j :| 0 <= j < |x| && x[j] == e;
    if j == 0 { LexLeReflexive(e); }
  }

  lemma SortedTail(x: seq<string>)
    requires Sorted(x) && x != []
    ensures Sorted(x[1..])
  {
    forall i, j | 0 <= i < j < |x[1..]| ensures LexLe(x[1..][i], x[1..][j]) {
      assert x[1..][i] == x[i + 1] && x[1..][j] == x[j + 1];
    }
  }

  /** Removing the same first element leaves the same elements. */
  lemma TailsPermute(h: string, x: seq<string>, y: seq<string>)
    requires multiset([h] + x) == multiset([h] + y)
    ensures multiset(x) == multiset(y)
  {
    var mx, my := multiset(x), multiset(y);
    assert multiset([h]) + mx == multiset([h]) + my;
    forall e ensures mx[e] == my[e] {
      assert (multiset([h]) + mx)[e] == (multiset([h]) + my)[e];
    }
  }

  /** Two sorted sequences with the same elements are equal. */
  lemma {:induction false} SortedUnique(x: seq<string>, y: seq<string>)
    requires Sorted(x) && Sorted(y) && multiset(x) == multiset(y)
    ensures x == y
    decreases |x|
  {
    assert |x| == |multiset(x)| == |multiset(y)| == |y|;
    if x != [] {
      assert x[0] in multiset(y) && y[0] in multiset(x);
      SortedHeadLeast(y, x[0]);
      SortedHeadLeast(x, y[0]);
      LexLeAntisymmetric(x[0], y[0]);
      var h := x[0];
      assert x == [h] + x[1..] && y == [h] + y[1..];
      TailsPermute(h, x[1..], y[1..]);
      SortedTail(x);
      SortedTail(y);
      SortedUnique(x[1..], y[1..]);
    }
  }

  lemma {:induction false} NamesPrefix(ms: seq<ModuleRecord>, k: nat)
    requires k <= |ms|
    ensures Names(ms[..k]) == Names(ms)[..k]
    decreases k
  {
    if k > 0 {
      assert ms[..k][1..] == ms[1..][..k - 1];
      NamesPrefix(ms[1..], k - 1);
    }
  }

  /** The blocks depend on the names alone. */
  lemma {:induction false} BlocksByNames(a: seq<ModuleRecord>, b: seq<ModuleRecord>)
    requires Names(a) == Names(b)
    ensures Blocks(a) == Blocks(b)
    decreases |a|
  {
    if a != [] {
      var n := |a|;
      NamesPrefix(a, n - 1);
      NamesPrefix(b, n - 1);
      BlocksByNames(a[..n - 1], b[..n - 1]);
      NamesAt(a, n - 1);
      NamesAt(b, n - 1);
    }
  }

  /** The output does not depend on the order of the records, nor on their
      members: only on how often each name occurs. */
  lemma FlatLinesDeterministic(a: seq<ModuleRecord>, b: seq<ModuleRecord>)
    requires multiset(Names(a)) == multiset(Names(b))
    ensures FlatLines(a) == FlatLines(b)
  {
    var sa, sb := SortByName(a), SortByName(b);
    SortByNameSorts(a);
    SortByNameSorts(b);
    SortNames(a);
    SortNames(b);
    SortedNames(sa);
    SortedNames(sb);
    SortedUnique(Names(sa), Names(sb));
    BlocksByNames(sa, sb);
  }

  /** Records named `a.b`, `a` and `a.c.d`, whatever their members, come
      out in the order `a`, `a.b`, `a.c.d`, with headings of one, two and
      three hashes. */
  lemma FlatOrderExample(ab: ModuleRecord, a: ModuleRecord, acd: ModuleRecord)
    requires ab.name == "a.b" && a.name == "a" && acd.name == "a.c.d"
    ensures FlatLines([ab, a, acd])
         == ["# a\n", "::: a", "\n\n",
             "## b\n", "::: a.b", "\n\n",
             "### c.d\n", "::: a.c.d", "\n\n"]
  {
    ExampleSort(ab, a, acd);
    ExampleBlocks(a, ab, acd);
    assert FlatLines([ab, a, acd]) == Block(a) + Block(ab) + Block(acd);
    ExampleBlockA(a);
    ExampleBlockAB(ab);
    ExampleBlockACD(acd);
    ExampleConcat(Block(a), Block(ab), Block(acd));
  }

  lemma ExampleConcat(x: seq<string>, y: seq<string>, z: seq<string>)
    requires x == ["# a\n", "::: a", "\n\n"]
    requires y == ["## b\n", "::: a.b", "\n\n"]
    requires z == ["### c.d\n", "::: a.c.d", "\n\n"]
    ensures x + y + z
         == ["# a\n", "::: a", "\n\n",
             "## b\n", "::: a.b", "\n\n",
             "### c.d\n", "::: a.c.d", "\n\n"]
  {
  }

  lemma ExampleBlocks(a: ModuleRecord, ab: ModuleRecord, acd: ModuleRecord)
    ensures Blocks([a, ab, acd]) == Block(a) + Block(ab) + Block(acd)
  {
    assert [a] == [] + [a];
    BlocksSnoc([], a);
    assert [] + Block(a) == Block(a);
    assert [a, ab] == [a] + [ab];
    BlocksSnoc([a], ab);
    assert [a, ab, acd] == [a, ab] + [acd];
    BlocksSnoc([a, ab], acd);
  }

  /** One more record adds its block at the end. */
  lemma BlocksSnoc(ms: seq<ModuleRecord>, m: ModuleRecord)
    ensures Blocks(ms + [m]) == Blocks(ms) + Block(m)
  {
    assert (ms + [m])[..|ms|] == ms;
  }

  lemma ExampleSort(ab: ModuleRecord, a: ModuleRecord, acd: ModuleRecord)
    requires ab.name == "a.b" && a.name == "a" && acd.name == "a.c.d"
    ensures SortByName([ab, a, acd]) == [a, ab, acd]
  {
    ExampleOrder(ab.name, a.name, acd.name);
    SortThree(ab, a, acd);
  }

  /** Three records where the second sorts first and the first goes between
      the other two. */
  lemma SortThree(x: ModuleRecord, y: ModuleRecord, z: ModuleRecord)
    requires LexLe(y.name, z.name) && !LexLe(x.name, y.name) && LexLe(x.name, z.name)
    ensures SortByName([x, y, z]) == [y, x, z]
  {
    assert [x, y, z] == [x] + [y, z];
    SortCons(x, [y, z]);
    SortTwo(y, z);
    InsertAfter(x, y, [z]);
    InsertBefore(x, z, []);
    assert [y] + [x, z] == [y, x, z];
  }

  lemma InsertAfter(m: ModuleRecord, x: ModuleRecord, s: seq<ModuleRecord>)
    requires !LexLe(m.name, x.name)
    ensures Insert(m, [x] + s) == [x] + Insert(m, s)
  {
    assert ([x] + s)[1..] == s;
  }

  lemma InsertBefore(m: ModuleRecord, x: ModuleRecord, s: seq<ModuleRecord>)
    requires LexLe(m.name, x.name)
    ensures Insert(m, [x] + s) == [m, x] + s
  {
  }

  lemma ExampleOrder(ab: string, a: string, acd: string)
    requires ab == "a.b" && a == "a" && acd == "a.c.d"
    ensures LexLe(a, acd) && !LexLe(ab, a) && LexLe(ab, acd)
  {
  }

  /** Sorting a record in front of a sorted rest inserts it there. */
  lemma SortCons(m: ModuleRecord, s: seq<ModuleRecord>)
    ensures SortByName([m] + s) == Insert(m, SortByName(s))
  {
    assert ([m] + s)[1..] == s;
  }

  lemma SortTwo(x: ModuleRecord, y: ModuleRecord)
    requires LexLe(x.name, y.name)
    ensures SortByName([x, y]) == [x, y]
  {
    SortCons(y, []);
    assert SortByName([y]) == [y] by { assert [y] == [y] + []; }
    SortCons(x, [y]);
    assert [x, y] == [x] + [y];
  }

  /** The block of a record with a dot-free name `p`. */
  lemma BlockOfTopLevel(m: ModuleRecord)
    requires '.' !in m.name
    ensures Block(m) == [Hashes(1) + " " + m.name + "\n", "::: " + m.name, "\n\n"]
  {
    CountCharAbsent(m.name, '.');
    DisplayNameIsSuffix(m.name);
  }

  /** The block of a record named `p.q` with dot-free `p` and `q`. */
  lemma BlockOfTwoLevels(m: ModuleRecord, p: string, q: string)
    requires '.' !in p && '.' !in q && m.name == p + "." + q
    ensures Block(m) == [Hashes(2) + " " + q + "\n", "::: " + m.name, "\n\n"]
  {
    DottedName(p, q);
    CountCharAbsent(q, '.');
  }

  /** The block of a record named `p.r.t` with dot-free `p`, `r` and `t`. */
  lemma BlockOfThreeLevels(m: ModuleRecord, p: string, r: string, t: string)
    requires '.' !in p && '.' !in r && '.' !in t && m.name == p + "." + (r + "." + t)
    ensures Block(m) == [Hashes(3) + " " + (r + "." + t) + "\n", "::: " + m.name, "\n\n"]
  {
    var q := r + "." + t;
    DottedName(p, q);
    DottedName(r, t);
    CountCharAbsent(t, '.');
    assert CountChar(m.name, '.') == 2;
    assert HeadingLine(m.name, 2) == Hashes(3) + " " + q + "\n";
  }

  lemma ExampleBlockA(m: ModuleRecord)
    requires m.name == "a"
    ensures Block(m) == ["# a\n", "::: a", "\n\n"]
  {
    BlockOfTopLevel(m);
    ExampleLines(1, m.name, m.name, "# a\n", "::: a");
  }

  lemma ExampleBlockAB(m: ModuleRecord)
    requires m.name == "a.b"
    ensures Block(m) == ["## b\n", "::: a.b", "\n\n"]
  {
    BlockOfTwoLevels(m, "a", "b");
    ExampleLines(2, "b", m.name, "## b\n", "::: a.b");
  }

  lemma ExampleBlockACD(m: ModuleRecord)
    requires m.name == "a.c.d"
    ensures Block(m) == ["### c.d\n", "::: a.c.d", "\n\n"]
  {
    ExampleNameACD(m.name);
    BlockOfThreeLevels(m, "a", "c", "d");
    ExampleLines(3, "c.d", m.name, "### c.d\n", "::: a.c.d");
  }

  lemma ExampleNameACD(n: string)
    requires n == "a.c.d"
    ensures '.' !in "a" && '.' !in "c" && '.' !in "d"
    ensures n == "a" + "." + ("c" + "." + "d") && "c" + "." + "d" == "c.d"
  {
  }

  /** Evaluates the heading and directive of an example block. */
  lemma ExampleLines(n: int, shown: string, name: string, heading: string, directive: string)
    requires 1 <= n <= 3
    requires (n == 1 && shown == name == "a" && heading == "# a\n" && directive == "::: a")
          || (n == 2 && shown == "b" && name == "a.b" && heading == "## b\n" && directive == "::: a.b")
          || (n == 3 && shown == "c.d" && name == "a.c.d" && heading == "### c.d\n" && directive == "::: a.c.d")
    ensures Hashes(n) + " " + shown + "\n" == heading
    ensures "::: " + name == directive
  {
    ExampleHashes(n);
  }

  lemma ExampleHashes(n: int)
    requires 1 <= n <= 3
    ensures Hashes(n) == (if n == 1 then "#" else if n == 2 then "##" else "###")
  {
    var h := Hashes(n);
    if n == 1 { assert h == [h[0]]; }
    else if n == 2 { assert h == [h[0], h[1]]; }
    else { assert h == [h[0], h[1], h[2]]; }
  }
}
