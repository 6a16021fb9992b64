/**
 * `branch_to_lines`: renders a module tree, depth first and pre-order, to
 * the lines of a Markdown skeleton. Each node gives a heading line, a
 * `::: <module>` directive and a `"\n"` separator, then the lines of its
 * children one level deeper, then a closing `"\n"`.
 */
module NestedRender {
  import opened Strings
  import opened Skeleton

  /** A node of the tree the renderer walks: its dotted module name (the
      `module` key) and its child nodes (the `children` key). */
  datatype Tree = Tree(moduleName: string, children: seq<Tree>)

  /** The lines `branch_to_lines(t, level)` returns. */
  function Branch(t: Tree, level: int): (lines: seq<string>)
    ensures |lines| >= 4
    decreases t, |t.children| + 1
  {
    [HeadingLine(t.moduleName, level), Directive(t.moduleName), "\n"]
      + ChildLines(t, |t.children|, level + 1) + ["\n"]
  }

  /** The lines of the first `n` children of `t`, each rendered at `level`,
      one after the other (the `chain` over the children's outputs). */
  function ChildLines(t: Tree, n: nat, level: int): seq<string>
    requires n <= |t.children|
    decreases t, n
  {
    if n == 0 then [] else ChildLines(t, n - 1, level) + Branch(t.children[n - 1], level)
  }

  /** The number of nodes in a tree. */
  function Size(t: Tree): nat
    decreases t, |t.children| + 1
  {
    1 + ChildrenSize(t, |t.children|)
  }

  function ChildrenSize(t: Tree, n: nat): nat
    requires n <= |t.children|
    decreases t, n
  {
    if n == 0 then 0 else ChildrenSize(t, n - 1) + Size(t.children[n - 1])
  }

  /** The module names of a tree in depth-first pre-order. */
  function Preorder(t: Tree): seq<string>
    decreases t, |t.children| + 1
  {
    [t.moduleName] + ChildrenPreorder(t, |t.children|)
  }

  function ChildrenPreorder(t: Tree, n: nat): seq<string>
    requires n <= |t.children|
    decreases t, n
  {
    if n == 0 then [] else ChildrenPreorder(t, n - 1) + Preorder(t.children[n - 1])
  }

  /** The module names named by the directive lines among `lines`, in order. */
  function Directives(lines: seq<string>): seq<string>
    decreases |lines|
  {
    if lines == [] then []
    else (if "::: " <= lines[0] then [lines[0][4..]] else []) + Directives(lines[1..])
  }

  /** `branch_to_lines` written as the source writes it: the first three
      lines, then the lines of each child appended in turn, then the
      closing separator. */
  method BranchToLines(tree: Tree, level: int) returns (lines: seq<string>)
    ensures lines == Branch(tree, level)
    decreases tree
  {
    lines := [HeadingLine(tree.moduleName, level)];
    lines := lines + [Directive(tree.moduleName)];
    lines := lines + ["\n"];
    ghost var head := lines;
    var i := 0;
    while i < |tree.children|
      invariant 0 <= i <= |tree.children|
      invariant lines == head + ChildLines(tree, i, level + 1)
    {
      var sub := BranchToLines(tree.children[i], level + 1);
      AppendAssoc(head, ChildLines(tree, i, level + 1), sub);
      lines := lines + sub;
      i := i + 1;
    }
    lines := lines + ["\n"];
  }

  // ---------------------------------------------------------------------
  // Properties.
  // ---------------------------------------------------------------------

  /** A node with no children gives exactly its heading, its one directive
      and two separators. */
  lemma LeafLines(name: string, level: int)
    ensures Branch(Tree(name, []), level)
         == [HeadingLine(name, level), "::: " + name, "\n", "\n"]
  {
  }

  /** What the renderer's output starts and ends with, and that the children
      come in between, each one level deeper. */
  lemma BranchOutline(t: Tree, level: int)
    ensures var r := Branch(t, level);
      && |r| >= 4
      && r[0] == HeadingLine(t.moduleName, level)
      && r[1] == "::: " + t.moduleName
      && r[2] == "\n"
      && r[|r| - 1] == "\n"
      && r[3..|r| - 1] == ChildLines(t, |t.children|, level + 1)
  {
  }

  /** Four lines per node of the tree. */
  lemma {:induction false} BranchLength(t: Tree, level: int)
    ensures |Branch(t, level)| == 4 * Size(t)
    decreases t, |t.children| + 1
  {
    ChildLinesLength(t, |t.children|, level + 1);
  }

  lemma {:induction false} ChildLinesLength(t: Tree, n: nat, level: int)
    requires n <= |t.children|
    ensures |ChildLines(t, n, level)| == 4 * ChildrenSize(t, n)
    decreases t, n
  {
    if n > 0 {
      ChildLinesLength(t, n - 1, level);
      BranchLength(t.children[n - 1], level);
    }
  }

  lemma {:induction false} DirectivesAppend(a: seq<string>, b: seq<string>)
    ensures Directives(a + b) == Directives(a) + Directives(b)
    decreases |a|
  {
    if a == [] {
      assert a + b == b;
    } else {
      assert (a + b)[0] == a[0] && (a + b)[1..] == a[1..] + b;
      DirectivesAppend(a[1..], b);
    }
  }

  lemma HeadingIsNoDirective(name: string, level: int)
    ensures !("::: " <= HeadingLine(name, level))
  {
    HeadingLineShape(name, level);
    var line := HeadingLine(name, level);
    var k := LeadingHashes(line);
    assert line[0] == '#' || line[0] == ' ' by {
      if k > 0 { assert line[0] == '#'; } else { assert line[0] == ' '; }
    }
  }

  /** Reading the directives back out of the output gives every module of
      the tree exactly once, in depth-first pre-order. */
  lemma {:induction false} BranchDirectives(t: Tree, level: int)
    ensures Directives(Branch(t, level)) == Preorder(t)
    decreases t, |t.children| + 1
  {
    var head := [HeadingLine(t.moduleName, level), Directive(t.moduleName), "\n"];
    var kids := ChildLines(t, |t.children|, level + 1);
    assert Branch(t, level) == (head + kids) + ["\n"];
    DirectivesAppend(head + kids, ["\n"]);
    DirectivesAppend(head, kids);
    ChildDirectives(t, |t.children|, level + 1);
    HeadDirectives(t.moduleName, level);
    SeparatorDirectives();
  }

  lemma SeparatorDirectives()
    ensures Directives(["\n"]) == []
  {
    assert ["\n"][1..] == [];
  }

  lemma HeadDirectives(name: string, level: int)
    ensures Directives([HeadingLine(name, level), Directive(name), "\n"]) == [name]
  {
    var head := [HeadingLine(name, level), Directive(name), "\n"];
    HeadingIsNoDirective(name, level);
    assert head[1..] == [Directive(name), "\n"];
    assert head[1..][1..] == ["\n"];
    SeparatorDirectives();
    assert Directive(name)[4..] == name;
    assert Directives(head[1..]) == [name];
  }

  lemma {:induction false} ChildDirectives(t: Tree, n: nat, level: int)
    requires n <= |t.children|
    ensures Directives(ChildLines(t, n, level)) == ChildrenPreorder(t, n)
    decreases t, n
  {
    if n > 0 {
      DirectivesAppend(ChildLines(t, n - 1, level), Branch(t.children[n - 1], level));
      ChildDirectives(t, n - 1, level);
      BranchDirectives(t.children[n - 1], level);
    }
  }

  /** Rendered from a level of at least zero, every line is a heading of
      level one to three, a `::: ` directive or the separator `"\n"`, however
      deep the tree. */
  lemma {:induction false} BranchWellFormed(t: Tree, level: int)
    requires level >= 0
    ensures forall line <- Branch(t, level) ::
      IsHeadingLine(line) || "::: " <= line || line == "\n"
    decreases t, |t.children| + 1
  {
    HeadingLineShape(t.moduleName, level);
    ChildWellFormed(t, |t.children|, level + 1);
  }

  lemma {:induction false} ChildWellFormed(t: Tree, n: nat, level: int)
    requires level >= 0 && n <= |t.children|
    ensures forall line <- ChildLines(t, n, level) ::
      IsHeadingLine(line) || "::: " <= line || line == "\n"
    decreases t, n
  {
    if n > 0 {
      ChildWellFormed(t, n - 1, level);
      BranchWellFormed(t.children[n - 1], level);
    }
  }
}
