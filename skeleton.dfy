/**
 * The two kinds of line both renderers emit for a module: a heading line
 * (between one and three `#` characters, a space, the module's display name
 * and a newline) and a `::: <module>` directive for mkdocstrings.
 */
module Skeleton {
  import opened Strings

  /** The name shown in a heading: `'.'.join(name.split('.')[1:])` when the
      name is dotted, the name itself otherwise. */
  function DisplayName(name: string): (r: string)
    ensures '.' !in name ==> r == name
    ensures '.' in name ==> r == name[IndexOf(name, '.') + 1..]
  {
    if '.' in name then
      var rest := name[IndexOf(name, '.') + 1..];
      SplitFirst(name, '.');
      assert Split(name, '.')[1..] == Split(rest, '.');
      JoinSplit(rest, '.');
      Join(Split(name, '.')[1..], ".")
    else name
  }

  /** `min(level + 1, 3)`: the number of `#` characters for a level. */
  function HeadingDepth(level: int): (d: int)
    ensures d <= 3
    ensures level >= 0 ==> 1 <= d
    ensures level < 2 ==> d == level + 1
    ensures level >= 2 ==> d == 3
  {
    if level + 1 < 3 then level + 1 else 3
  }

  /** `'#' * n`; a count of zero or less gives the empty string. */
  function Hashes(n: int): (r: string)
    ensures |r| == if n < 0 then 0 else n
    ensures forall k :: 0 <= k < |r| ==> r[k] == '#'
  {
    seq(if n < 0 then 0 else n, _ => '#')
  }

  /** The heading line for module `name` rendered at `level`: hashes, a
      space, the display name, and a newline that ends it. */
  function HeadingLine(name: string, level: int): (line: string)
    ensures |line| == (if HeadingDepth(level) < 0 then 0 else HeadingDepth(level)) + |DisplayName(name)| + 2
    ensures line[|line| - 1] == '\n'
  {
    Hashes(HeadingDepth(level)) + " " + DisplayName(name) + "\n"
  }

  /** The directive that asks mkdocstrings to document module `name`. */
  function Directive(name: string): string
  {
    "::: " + name
  }

  /** How many `#` characters a line starts with. */
  function LeadingHashes(line: string): (k: nat)
    ensures k <= |line|
    ensures forall j :: 0 <= j < k ==> line[j] == '#'
    ensures k < |line| ==> line[k] != '#'
    decreases |line|
  {
    if line != [] && line[0] == '#' then 1 + LeadingHashes(line[1..]) else 0
  }

  /** A Markdown heading of level one to three, ending the line. */
  predicate IsHeadingLine(line: string)
  {
    var k := LeadingHashes(line);
    1 <= k <= 3 && k < |line| && line[k] == ' ' && line[|line| - 1] == '\n'
  }

  // ---------------------------------------------------------------------
  // Properties.
  // ---------------------------------------------------------------------

  /** Without a dot the display name is the name; with one it is everything
      after the first dot, so that the name is its first component, a dot
      and the display name. */
  lemma DisplayNameIsSuffix(name: string)
    ensures '.' !in name ==> DisplayName(name) == name
    ensures '.' in name ==>
      var i := IndexOf(name, '.');
      DisplayName(name) == name[i + 1..] && name == name[..i] + "." + DisplayName(name)
  {
    if '.' in name {
      Around(name, IndexOf(name, '.'));
    }
  }

  /** A name whose first component is `p` shows as `q`, the rest after the
      first dot, and has one dot more than `q`. */
  lemma DottedName(p: string, q: string)
    requires '.' !in p
    ensures DisplayName(p + "." + q) == q
    ensures CountChar(p + "." + q, '.') == CountChar(q, '.') + 1
  {
    var name := p + "." + q;
    IndexOfAfter(p, '.', q);
    Parts(p, '.', q);
    DisplayNameIsSuffix(name);
    CountCharAround(name, |p|, '.');
    CountCharAbsent(p, '.');
  }

  /** The display name never has more dots than the name, and exactly one
      fewer when the name has any. */
  lemma DisplayNameDots(name: string)
    ensures CountChar(DisplayName(name), '.') ==
      if '.' in name then CountChar(name, '.') - 1 else CountChar(name, '.')
  {
    if '.' in name {
      var i := IndexOf(name, '.');
      var p, q := name[..i], name[i + 1..];
      assert name == p + "." + q;
      DottedName(p, q);
    }
  }

  lemma {:induction false} LeadingHashesOf(n: nat, rest: string)
    requires rest == [] || rest[0] != '#'
    ensures LeadingHashes(Hashes(n) + rest) == n
    decreases n
  {
    if n > 0 {
      assert (Hashes(n) + rest)[1..] == Hashes(n - 1) + rest;
      LeadingHashesOf(n - 1, rest);
    } else {
      assert Hashes(n) + rest == rest;
    }
  }

  /** The heading line starts with exactly `min(level + 1, 3)` hashes (no
      hashes for a negative level), then a space, the display name and
      `"\n"`; for any level of at least zero it is a level one to three
      heading. */
  lemma HeadingLineShape(name: string, level: int)
    ensures var line := HeadingLine(name, level);
      var k := LeadingHashes(line);
      && k == (if HeadingDepth(level) < 0 then 0 else HeadingDepth(level))
      && k < |line| && line[k] == ' '
      && line[k + 1..|line| - 1] == DisplayName(name)
      && line[|line| - 1] == '\n'
      && (level >= 0 ==> IsHeadingLine(line) && k == HeadingDepth(level))
  {
    var d := HeadingDepth(level);
    var n: nat := if d < 0 then 0 else d;
    var rest := " " + DisplayName(name) + "\n";
    assert HeadingLine(name, level) == Hashes(n) + rest;
    LeadingHashesOf(n, rest);
  }
}
