# Markdown skeleton generator for mkdocs, in Dafny

This project is a verified model of the output side of `moduletree_to_mkdocs.py`. That utility turns the modules of a Python package into a Markdown skeleton for mkdocs. Each module gets a heading and a `::: <module>` directive, which mkdocstrings expands into reference documentation. The model covers five pieces:

- `get_valid_members` (`members.dfy`, module `Members`): the loop that picks a module's functions and classes out of its attributes. Reflection is replaced by an explicit list of attributes, and each attribute carries its kind.
- The file-to-module-name mapping inside `_get_branch` (`modulenames.dfy`, module `ModuleNames`). The expression as written is modelled, and so is the evidently intended mapping (see "## Findings").
- `branch_to_lines` (`nested.dfy`, module `NestedRender`): the recursive, nested renderer over a tree of modules.
- `modules_to_lines` (`flat.dfy`, module `FlatRender`): the flat renderer. It sorts the records by name and emits three lines per module.
- The string that `write_to_markdown` writes (`markdown.dfy`, module `Markdown`): the lines joined with `"\n"`, then every run of two or more newlines replaced by exactly `"\n\n"`.

Two modules are shared:

- `skeleton.dfy` (module `Skeleton`) holds the heading and directive lines that both renderers emit. The heading depth is `min(level + 1, 3)`. The display name drops the first dotted component.
- `strings.dfy` (module `Strings`) holds the Python string operations that the code relies on: `in`, `count`, `split`, `join`, `replace(p, "")` and the code-point order of `str`.

Methods mirror the loops of the source: `GetValidMembers`, `BranchToLines` and `ModulesToLines`. Each is proved equal to a specification function, and the properties are proved about those functions as lemmas.

Notes on what the code does:

- The display name drops the first dotted component. That is the root package's name only when the root is not itself dotted.
- The collapse maps `\n\n+` to `\n\n`, which is one blank line in the written document. It does not act on "blank lines" counted any other way.
- `get_valid_members` keeps every function and class attribute. It does not check which module defines it.

## Model

| member | source | states |
|---|---|---|
| Members.ValidMembers | moduletree_to_mkdocs.py:24-35 | the names the loop appends, attribute by attribute: at most one name per attribute |
| Members.GetValidMembers | moduletree_to_mkdocs.py:24-35 | the loop returns exactly `ValidMembers(attrs)`: the `__name__` of each function or class attribute, in attribute order |
| Members.KeptIndicesExact | moduletree_to_mkdocs.py:27-34 | the selected positions are exactly the function and class attributes; every such attribute is selected; the self-reference, submodules and other values never are |
| Members.ValidMembersAreKept | moduletree_to_mkdocs.py:24-35 | the result is no longer than the attribute list, and its k-th name is the `__name__` of the k-th selected attribute, so it is an order-preserving subsequence |
| Members.NoSkippedKinds | moduletree_to_mkdocs.py:27-32 | every listed name is the `__name__` of some function or class attribute |
| Members.AllKeptListed | moduletree_to_mkdocs.py:31-34 | every function or class attribute contributes its `__name__` |
| Members.AliasExample | moduletree_to_mkdocs.py:27-34 | an alias `f = g` is listed under the object's own name `g`, and a self-alias of the module is skipped |
| ModuleNames.ModuleNameAsWritten | moduletree_to_mkdocs.py:45-48 | the mapping as written: `__init__.py` gives the package name; any other file gives `RemoveAll(name + "." + filename, ".py")`, never longer than `name.filename`, and for a `.py` file at least the three characters of one `.py` shorter |
| ModuleNames.ModuleName | moduletree_to_mkdocs.py:45-48 | the intended mapping: `__init__.py` gives the package name; a `.py` file gives `name.` followed by the file name without its extension; any other file gives `name.filename` |
| Strings.RemoveAll | moduletree_to_mkdocs.py:48 | `s.replace(p, "")`: occurrences deleted left to right without overlap; a string without `p` comes back unchanged, one with `p` at least `p`'s length shorter |
| ModuleNames.InitIsPackage | moduletree_to_mkdocs.py:45-46 | `__init__.py` maps to the package name unchanged |
| ModuleNames.AsWrittenPlainFile | moduletree_to_mkdocs.py:47-48 | a file `x.py` maps to `name.x` whenever `.py` occurs nowhere in `name.x` |
| ModuleNames.AsWrittenJoinQuirk | moduletree_to_mkdocs.py:48 | for a dot-free `name` and a file `pyY.py` with a dot-free `Y`, the result is `name + Y`: the `.py` formed by the joining dot is deleted, although neither `name` nor `pyY` holds `.py` |
| ModuleNames.AsWrittenJoinExample | moduletree_to_mkdocs.py:48 | package `pkg` with file `pyutils.py` maps to `pkgutils` |
| ModuleNames.AsWrittenParentQuirk | moduletree_to_mkdocs.py:48 | for dot-free `p`, `s` and `m`, with `m` not starting with the letter `'p'`, the file `m.py` of subpackage `p.pyS` maps to `pS.m`: a `.py` inside the parent name is deleted too |
| ModuleNames.AsWrittenParentExample | moduletree_to_mkdocs.py:48 | subpackage `pkg.pyside` with file `mod.py` maps to `pkgside.mod` |
| ModuleNames.AsWrittenDiffers | moduletree_to_mkdocs.py:47-48 | for any `x.py` other than `__init__.py` where `.py` occurs in `name.x`, the result is not `name.x`: that occurrence is deleted as well as the extension |
| ModuleNames.AsWrittenAgreesExactly | moduletree_to_mkdocs.py:47-48 | for a `.py` file other than `__init__.py`, the mapping as written is the intended `name.x` if and only if `.py` occurs nowhere in `name.x` |
| ModuleNames.PlainFile | moduletree_to_mkdocs.py:45-48 | the intended mapping sends every file `x.py` other than `__init__.py` to `name.x` |
| ModuleNames.AsWrittenAgrees | moduletree_to_mkdocs.py:45-48 | the mapping as written equals the intended one for `__init__.py`, and for any `x.py` where `name.x` has no `.py` |
| Skeleton.DisplayName | moduletree_to_mkdocs.py:82-84 | `'.'.join(name.split('.')[1:])` for a dotted name, which is everything after the first dot; the name itself when it has no dot |
| Skeleton.HeadingLine | moduletree_to_mkdocs.py:85 | the heading line: as many characters as the hashes, the space, the display name and the newline together, and ending in `"\n"` (its full shape is `HeadingLineShape`) |
| Skeleton.HeadingDepth | moduletree_to_mkdocs.py:85 | `min(level + 1, 3)`: between 1 and 3 for every level of at least zero, and saturated at 3 from level 2 on |
| Skeleton.HeadingLineShape | moduletree_to_mkdocs.py:85 | a heading line starts with exactly `min(level + 1, 3)` `#` characters (none for a negative count), then a space, the display name and `"\n"`; for level >= 0 it is a level 1-3 heading |
| Skeleton.DisplayNameIsSuffix | moduletree_to_mkdocs.py:82-84 | without a dot, the display name is the name; with one, it is everything after the first dot, and the name is its first component + `.` + the display name |
| Skeleton.DottedName | moduletree_to_mkdocs.py:100-102 | a name `p.q` with a dot-free `p` is shown as `q` and has one dot more than `q` |
| Skeleton.DisplayNameDots | moduletree_to_mkdocs.py:83-84 | the display name of a dotted name has exactly one dot fewer than the name |
| Strings.JoinSplit | moduletree_to_mkdocs.py:84 | `c.join(s.split(c)) == s` |
| Strings.SplitLength | moduletree_to_mkdocs.py:84 | `s.split(c)` has `s.count(c) + 1` pieces |
| NestedRender.Branch | moduletree_to_mkdocs.py:81-94 | the lines `branch_to_lines` returns: at least four, their layout given by `BranchOutline` |
| NestedRender.BranchToLines | moduletree_to_mkdocs.py:81-94 | the method that appends line by line returns exactly `Branch(tree, level)` |
| NestedRender.LeafLines | moduletree_to_mkdocs.py:85-94 | a childless node yields exactly its heading, `::: name`, `"\n"` and `"\n"` |
| NestedRender.BranchOutline | moduletree_to_mkdocs.py:85-94 | the output starts with the heading, the directive and `"\n"` and ends with `"\n"`; in between come the children's outputs in order, each rendered one level deeper |
| NestedRender.BranchLength | moduletree_to_mkdocs.py:85-94 | a tree yields exactly four lines per node, i.e. `4 + sum of the children's line counts` |
| NestedRender.BranchDirectives | moduletree_to_mkdocs.py:86-92 | the directive lines of the output name every module of the tree once, in depth-first pre-order |
| NestedRender.BranchWellFormed | moduletree_to_mkdocs.py:85-93 | from any level >= 0, however deep the tree, every line is a level 1-3 heading, a `::: ` directive or `"\n"` |
| FlatRender.SortByName | moduletree_to_mkdocs.py:99 | `sorted(..., key=name)` as an insertion sort on code-point order; it keeps the number of records (that it is a sorted permutation is `SortByNameSorts`) |
| FlatRender.SortByNameSorts | moduletree_to_mkdocs.py:99 | the sort is a permutation of the records (as a multiset) in ascending name order |
| FlatRender.SortByNameStable | moduletree_to_mkdocs.py:99 | the sort is stable: for every name, the records with that name come out in input order, as Python's `sorted` guarantees |
| FlatRender.FlatLines | moduletree_to_mkdocs.py:97-108 | the lines `modules_to_lines` returns: three per record |
| FlatRender.ModulesToLines | moduletree_to_mkdocs.py:97-108 | the loop returns exactly `FlatLines(modules)` |
| FlatRender.FlatLinesShape | moduletree_to_mkdocs.py:99-107 | the output has three lines per record; block i is the heading at level `name.count('.')`, then `::: name`, then `"\n\n"`, for the i-th record of a sorted permutation |
| FlatRender.FlatLinesDeterministic | moduletree_to_mkdocs.py:99-107 | the output depends only on the multiset of names: neither the input order nor the members change it |
| FlatRender.FlatOrderExample | moduletree_to_mkdocs.py:99-107 | records `a.b`, `a` and `a.c.d` come out in the order `a`, `a.b`, `a.c.d`, with headings `# a`, `## b` and `### c.d` |
| Markdown.Collapse | moduletree_to_mkdocs.py:113 | `re.sub('\n\n+', '\n\n', s)` as a left-to-right, greedy replacement: never longer than `s`, and starting with `s`'s first character |
| Markdown.Render | moduletree_to_mkdocs.py:113 | the written text has no three newlines in a row, is no longer than the joined lines, and keeps every non-newline character of the lines in order |
| Markdown.CollapseNoTriple | moduletree_to_mkdocs.py:113 | the collapsed text never contains `"\n\n\n"` |
| Markdown.CollapseFixpoint | moduletree_to_mkdocs.py:113 | the collapse leaves a text unchanged if and only if it has no three newlines in a row |
| Markdown.CollapseIdempotent | moduletree_to_mkdocs.py:113 | collapsing twice equals collapsing once |
| Markdown.CollapseWithoutBlankLine | moduletree_to_mkdocs.py:113 | a text without `"\n\n"` is unchanged |
| Markdown.CollapseKeepsText | moduletree_to_mkdocs.py:113 | the collapse keeps the non-newline characters, in order |
| Markdown.CollapseAppend | moduletree_to_mkdocs.py:113 | a text that does not end in a newline collapses independently of what follows it |
| Markdown.CollapseRun | moduletree_to_mkdocs.py:113 | between a text that does not end and one that does not start with a newline, a run of `k >= 1` newlines becomes `"\n"` when `k` is 1 and `"\n\n"` otherwise, and both sides collapse on their own; together with `CollapseAppend` this determines the collapse of any text |
| Markdown.CollapseKeepsLoneNewline | moduletree_to_mkdocs.py:113 | a single newline between two lines survives the collapse |
| Markdown.JoinKeepsText | moduletree_to_mkdocs.py:113 | joining with `"\n"` adds only newlines |

## Left out

- `moduletree` (moduletree_to_mkdocs.py:55-78) is left out. It changes the working directory, indexes the filesystem, runs `git ls-files` and filters pandas DataFrames. All of this is I/O and foreign-library behaviour.
- The DataFrame row selection in `_get_branch` (moduletree_to_mkdocs.py:39-43) is left out, and so is `import_module` (line 50). Both are foreign-library and runtime-import operations. Only the name mapping of lines 45-48 is modelled.
- The `modules` dict that `_get_branch` fills is left out. Its key-by-key update is dict bookkeeping around the name mapping.
- `inspect.getmembers` and the `isinstance` tests are replaced by a given sequence of attributes, each tagged with a `Kind`. The order `getmembers` produces (sorted by attribute name) is taken as given, not computed.
- `member == module` is modelled as the `SelfReference` kind. Python's `==` on arbitrary objects is not modelled.
- Opening and writing the output file (moduletree_to_mkdocs.py:111-113) is left out. `Markdown.Render` is the text that gets written.
- The `re` engine is left out. `Markdown.Collapse` states directly what a greedy, non-overlapping substitution of `\n\n+` by `\n\n` does.
- `FlatRender.SortByName` is an insertion sort, not Timsort. It orders names by code point, as `str` comparison does. It keeps records with equal names in input order, as `sorted` does (`SortByNameStable`). `FlatLinesDeterministic` shows that records with equal names cannot be told apart in the output anyway.
- `modules_to_lines` takes a dict and iterates over its values. The model takes the sequence of values.
- The tree that `branch_to_lines` walks is taken as a `Tree` datatype with a module name and children. In the source, `moduletree` builds dicts with no `children` key, so nothing in this file feeds the nested renderer.
- Strings are sequences of code points. Python's `str` has the same semantics for the operations used, so nothing of it is lost except encoding at file-write time.

## Findings

| source | as written | input that shows it | evidently intended | confidence | as-written member | corrected member |
|---|---|---|---|---|---|---|
| moduletree_to_mkdocs.py:48 | `f"{name}.{c}".replace(".py", "")` deletes every `.py` in the dotted string, including one formed by the joining dot and the start of the file name | package `pkg`, file `pyutils.py`: the result is `pkgutils` instead of `pkg.pyutils` | drop only the file's trailing `.py` extension: `name + "." + c[:-3]` | not executed | ModuleNames.AsWrittenJoinExample | ModuleNames.PlainFile |
| moduletree_to_mkdocs.py:48 | the same `.replace(".py", "")` also deletes a `.py` inside the parent package name | subpackage `pkg.pyside`, file `mod.py`: the result is `pkgside.mod` instead of `pkg.pyside.mod` | drop only the file's trailing `.py` extension: `name + "." + c[:-3]` | not executed | ModuleNames.AsWrittenParentExample | ModuleNames.PlainFile |
