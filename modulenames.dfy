/**
 * The module name `_get_branch` gives each `.py` file of a package
 * directory: the package's own name for `__init__.py`, otherwise the dotted
 * name `f"{name}.{c}"` with every occurrence of `".py"` deleted.
 */
module ModuleNames {
  import opened Strings

  const InitFile: string := "__init__.py"
  const PyExt: string := ".py"

  /** The mapping as the source writes it: `.replace(".py", "")` runs over
      the whole dotted string, parent name and joining dot included. The
      package file gives the package name; any other file gives a name no
      longer than `name.filename`, and for a `.py` file at least the
      extension is gone. */
  function ModuleNameAsWritten(name: string, filename: string): (r: string)
    ensures filename == InitFile ==> r == name
    ensures filename != InitFile ==> |r| <= |name| + 1 + |filename|
    ensures filename != InitFile && EndsWithPy(filename) ==> |r| <= |name| + |filename| - 2
  {
    if filename == InitFile then name
    else
      DottedContainsPy(name, filename);
      RemoveAll(name + "." + filename, PyExt)
  }

  /** A dotted name ending in a `.py` file name contains `.py`. */
  lemma DottedContainsPy(name: string, filename: string)
    ensures EndsWithPy(filename) ==> Contains(name + "." + filename, PyExt)
  {
    if EndsWithPy(filename) {
      var x := filename[..|filename| - 3];
      assert filename == x + PyExt;
      assert name + "." + filename == (name + "." + x) + PyExt;
      ContainsEnd(name + "." + x, PyExt);
    }
  }

  /** `c.endswith(".py")`. */
  predicate EndsWithPy(c: string)
  {
    |c| >= 3 && c[|c| - 3..] == PyExt
  }

  /** `c` without a trailing `.py`. */
  function StripPy(c: string): (r: string)
    ensures EndsWithPy(c) ==> r + PyExt == c
    ensures !EndsWithPy(c) ==> r == c
  {
    if EndsWithPy(c) then c[..|c| - 3] else c
  }

  /** The mapping as evidently intended: only the file's `.py` extension is
      dropped. */
  function ModuleName(name: string, filename: string): (r: string)
    ensures filename == InitFile ==> r == name
    ensures filename != InitFile && EndsWithPy(filename) ==> r + PyExt == name + "." + filename
    ensures filename != InitFile && !EndsWithPy(filename) ==> r == name + "." + filename
  {
    if filename == InitFile then name else name + "." + StripPy(filename)
  }

  // ---------------------------------------------------------------------
  // Properties of the mapping as written.
  // ---------------------------------------------------------------------

  /** A package's `__init__.py` stands for the package itself. */
  lemma InitIsPackage(name: string)
    ensures ModuleNameAsWritten(name, InitFile) == name
    ensures ModuleName(name, InitFile) == name
  {
  }

  /** Before the appended extension no `.py` starts. */
  lemma NoPyBeforeExtension(p: string)
    requires p != [] && !(PyExt <= p)
    ensures !(PyExt <= p + PyExt)
  {
    var s := p + PyExt;
    if |p| >= 3 {
      assert s[..3] == p[..3];
    } else if |p| == 2 {
      assert s[2] == '.';
    } else {
      assert s[2] == 'p';
    }
  }

  /** Deleting `.py` from a string that has it only at the end removes just
      that end. */
  lemma {:induction false} RemoveTrailingPy(p: string)
    requires !Contains(p, PyExt)
    ensures RemoveAll(p + PyExt, PyExt) == p
    decreases |p|
  {
    var s := p + PyExt;
    if p == [] {
      assert s == PyExt && s[3..] == [];
    } else {
      NoPyBeforeExtension(p);
      RemoveAllSkip(s, PyExt);
      AppendTail(p, PyExt);
      RemoveTrailingPy(p[1..]);
    }
  }

  /** For a file `x.py` the source gives `name.x` provided `.py` occurs
      nowhere in `name.x`: not in the parent name, not in `x`, and not
      formed by the joining dot. */
  lemma AsWrittenPlainFile(name: string, x: string)
    requires x + PyExt != InitFile
    requires !Contains(name + "." + x, PyExt)
    ensures ModuleNameAsWritten(name, x + PyExt) == name + "." + x
  {
    assert name + "." + (x + PyExt) == (name + "." + x) + PyExt;
    RemoveTrailingPy(name + "." + x);
  }

  /** A string without dots holds no `.py`. */
  lemma {:induction false} NoDotNoPy(s: string)
    requires '.' !in s
    ensures !Contains(s, PyExt)
    decreases |s|
  {
    if s != [] {
      assert s == [s[0]] + s[1..];
      NoDotNoPy(s[1..]);
      assert s[0] != PyExt[0];
    }
  }

  /** The joining dot can start a `.py`: for a dot-free package `name` and a
      file `pyY.py` with a dot-free `Y`, the source gives `name + Y`, not
      `name.pyY`; `name` and `pyY` hold no `.py` of their own. */
  lemma AsWrittenJoinQuirk(name: string, y: string)
    requires '.' !in name && '.' !in y
    ensures !Contains(name, PyExt) && !Contains("py" + y, PyExt)
    ensures ModuleNameAsWritten(name, "py" + y + PyExt) == name + y
    ensures name + y != name + "." + "py" + y
  {
    NoDotNoPy(name);
    assert '.' !in "py";
    NoDotNoPy("py" + y);
    var file := "py" + y + PyExt;
    assert file != InitFile by { assert file[0] == 'p' && InitFile[0] == '_'; }
    var rest := "." + file;
    AppendAssoc(name, ".", file);
    RemoveAllPastPrefix(name, rest, PyExt);
    DeletedAtJoin(y);
    assert |name + y| < |name + "." + "py" + y|;
  }

  lemma DeletedAtJoin(y: string)
    requires '.' !in y
    ensures RemoveAll("." + ("py" + y + PyExt), PyExt) == y
  {
    var rest := "." + ("py" + y + PyExt);
    assert rest[..3] == PyExt && rest[3..] == y + PyExt;
    NoDotNoPy(y);
    RemoveTrailingPy(y);
  }

  /** The input that shows it: the file `pyutils.py` of package `pkg` comes
      out as `pkgutils`. */
  lemma AsWrittenJoinExample()
    ensures ModuleNameAsWritten("pkg", "pyutils.py") == "pkgutils"
  {
    AsWrittenJoinQuirk("pkg", "utils");
    assert "py" + "utils" + PyExt == "pyutils.py";
  }

  /** A `.py` inside the parent name is deleted too: for dot-free `p`, `s`,
      `m`, where `m` does not start with the letter `'p'`, the file `m.py` of subpackage
      `p.pyS` maps to `pS.m` instead of `p.pyS.m`. */
  lemma AsWrittenParentQuirk(p: string, s: string, m: string)
    requires '.' !in p && '.' !in s && '.' !in m
    requires m == [] || m[0] != 'p'
    requires m + PyExt != InitFile
    ensures ModuleNameAsWritten(p + PyExt + s, m + PyExt) == p + s + "." + m
    ensures p + s + "." + m != p + PyExt + s + "." + m
  {
    var q := "." + m + PyExt;
    var rest := PyExt + (s + q);
    ParentQuirkShape(p, s, m);
    RemoveAllPastPrefix(p, rest, PyExt);
    DeleteLeadingPy(s + q);
    RemoveAllPastPrefix(s, q, PyExt);
    KeepDotFile(m);
    ParentQuirkResult(p, s, m);
  }

  lemma ParentQuirkShape(p: string, s: string, m: string)
    ensures (p + PyExt + s) + "." + (m + PyExt) == p + (PyExt + (s + ("." + m + PyExt)))
  {
  }

  lemma ParentQuirkResult(p: string, s: string, m: string)
    ensures p + (s + ("." + m)) == p + s + "." + m
    ensures |p + s + "." + m| < |p + PyExt + s + "." + m|
  {
  }

  /** A leading `.py` is deleted. */
  lemma DeleteLeadingPy(u: string)
    ensures RemoveAll(PyExt + u, PyExt) == RemoveAll(u, PyExt)
  {
    var v := PyExt + u;
    assert v[..3] == PyExt && v[3..] == u;
  }

  /** A dot before a dot-free file name `m.py` that does not start with `p`
      survives, and so does `m`; only the extension goes. */
  lemma KeepDotFile(m: string)
    requires '.' !in m && (m == [] || m[0] != 'p')
    ensures RemoveAll("." + m + PyExt, PyExt) == "." + m
  {
    var u := m + PyExt;
    var q := ['.'] + u;
    assert "." + m + PyExt == q;
    assert u[0] != 'p' by { if m != [] { assert u[0] == m[0]; } else { assert u[0] == '.'; } }
    assert !(PyExt <= q) by { assert q[1] == u[0]; }
    RemoveAllSkip(q, PyExt);
    assert q[1..] == u;
    NoDotNoPy(m);
    RemoveTrailingPy(m);
  }

  /** The input that shows it: the file `mod.py` of subpackage `pkg.pyside`
      comes out as `pkgside.mod`. */
  lemma AsWrittenParentExample()
    ensures ModuleNameAsWritten("pkg.pyside", "mod.py") == "pkgside.mod"
  {
    AsWrittenParentQuirk("pkg", "side", "mod");
    assert "pkg" + PyExt + "side" == "pkg.pyside";
    assert "mod" + PyExt == "mod.py";
    assert "pkg" + "side" + "." + "mod" == "pkgside.mod";
  }

  /** Wherever `.py` does occur in `name.x`, the source's result for `x.py`
      differs from `name.x`: that occurrence is deleted as well as the
      extension. */
  lemma AsWrittenDiffers(name: string, filename: string)
    requires filename != InitFile && EndsWithPy(filename)
    requires Contains(name + "." + StripPy(filename), PyExt)
    ensures ModuleNameAsWritten(name, filename) != ModuleName(name, filename)
  {
    var t := name + "." + StripPy(filename);
    assert name + "." + filename == t + PyExt;
    RemoveAllInnerAndEnd(t, PyExt);
  }

  /** For a `.py` file other than `__init__.py`, the mapping as written is the
      intended one exactly when `.py` occurs nowhere in `name.x`. */
  lemma AsWrittenAgreesExactly(name: string, filename: string)
    requires filename != InitFile && EndsWithPy(filename)
    ensures ModuleNameAsWritten(name, filename) == ModuleName(name, filename)
        <==> !Contains(name + "." + StripPy(filename), PyExt)
  {
    if Contains(name + "." + StripPy(filename), PyExt) {
      AsWrittenDiffers(name, filename);
    } else {
      AsWrittenAgrees(name, filename);
    }
  }

  // ---------------------------------------------------------------------
  // Properties of the intended mapping.
  // ---------------------------------------------------------------------

  /** Every file `x.py` other than `__init__.py` becomes `name.x`. */
  lemma PlainFile(name: string, x: string)
    requires x + PyExt != InitFile
    ensures ModuleName(name, x + PyExt) == name + "." + x
  {
    var c := x + PyExt;
    assert c[|c| - 3..] == PyExt && c[..|c| - 3] == x;
  }

  /** Where the source's result has no accidental deletion, it agrees with
      the intended mapping. */
  lemma AsWrittenAgrees(name: string, filename: string)
    requires filename == InitFile
      || (EndsWithPy(filename) && !Contains(name + "." + StripPy(filename), PyExt))
    ensures ModuleNameAsWritten(name, filename) == ModuleName(name, filename)
  {
    if filename != InitFile {
      var x := StripPy(filename);
      assert x + PyExt == filename;
      AsWrittenPlainFile(name, x);
      PlainFile(name, x);
    }
  }
}
