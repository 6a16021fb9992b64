/**
 * `get_valid_members`: the documentable members of a module. Reflection is
 * replaced by an explicit list of the module's attributes, each with the
 * kind of object it is bound to and that object's own `__name__`.
 */
module Members {

  /** What an attribute of the module is bound to. */
  datatype Kind =
    | SelfReference  // the module itself (`member == module`)
    | Submodule      // some other module (`isinstance(member, ModuleType)`)
    | Function       // `isinstance(member, FunctionType)`
    | Class          // `isinstance(member, type)`
    | Other          // anything else: constants, instances, builtins, ...

  /** One `(name, member)` pair of `getmembers(module)`: the attribute's
      name, the kind of its value and the value's own `__name__`. */
  datatype Attribute = Attribute(attrName: string, kind: Kind, ownName: string)

  /** The attributes the loop does not skip: functions and classes. */
  predicate Kept(a: Attribute)
  {
    a.kind == Function || a.kind == Class
  }

  /** The names the loop appends, for the attributes in `attrs`. */
  function ValidMembers(attrs: seq<Attribute>): (names: seq<string>)
    ensures |names| <= |attrs|
    decreases |attrs|
  {
    if attrs == [] then []
    else
      var last := attrs[|attrs| - 1];
      ValidMembers(attrs[..|attrs| - 1]) + (if Kept(last) then [last.ownName] else [])
  }

  /** The positions of the kept attributes, in increasing order. */
  function KeptIndices(attrs: seq<Attribute>): (ks: seq<nat>)
    ensures |ks| <= |attrs|
    ensures forall k :: 0 <= k < |ks| ==> ks[k] < |attrs|
    ensures forall k, l :: 0 <= k < l < |ks| ==> ks[k] < ks[l]
    decreases |attrs|
  {
    if attrs == [] then []
    else
      var n := |attrs| - 1;
      KeptIndices(attrs[..n]) + (if Kept(attrs[n]) then [n] else [])
  }

  /** `get_valid_members` as the source writes it: skip the module itself,
      skip modules, skip whatever is neither a function nor a class, and
      append the `__name__` of the rest. */
  method GetValidMembers(attrs: seq<Attribute>) returns (members: seq<string>)
    ensures members == ValidMembers(attrs)
  {
    members := [];
    for i := 0 to |attrs|
      invariant members == ValidMembers(attrs[..i])
    {
      var member := attrs[i];
      assert attrs[..i + 1][..i] == attrs[..i];
      if member.kind == SelfReference {
        continue;
      }
      if member.kind == Submodule {
        continue;
      }
      if !(member.kind == Function || member.kind == Class) {
        continue;
      } else {
        members := members + [member.ownName];
      }
    }
    assert attrs[..|attrs|] == attrs;
  }

  // ---------------------------------------------------------------------
  // Properties.
  // ---------------------------------------------------------------------

  /** The kept positions are exactly those of the functions and classes. */
  lemma {:induction false} KeptIndicesExact(attrs: seq<Attribute>)
    ensures forall k :: 0 <= k < |KeptIndices(attrs)| ==> Kept(attrs[KeptIndices(attrs)[k]])
    ensures forall i :: 0 <= i < |attrs| && Kept(attrs[i]) ==> i in KeptIndices(attrs)
    decreases |attrs|
  {
    if attrs != [] {
      var n := |attrs| - 1;
      var init := attrs[..n];
      var ks, ks0 := KeptIndices(attrs), KeptIndices(init);
      KeptIndicesExact(init);
      assert ks[..|ks0|] == ks0;
      forall k | 0 <= k < |ks| ensures Kept(attrs[ks[k]]) {
        if k < |ks0| {
          assert ks[k] == ks0[k];
          assert init[ks0[k]] == attrs[ks0[k]];
        }
      }
      forall i | 0 <= i < |attrs| && Kept(attrs[i]) ensures i in ks {
        if i < n {
          assert init[i] == attrs[i];
          assert i in ks0;
        }
      }
    }
  }

  /** The result is the `__name__` of each kept attribute, in attribute
      order: a picked-out subsequence of the input. */
  lemma {:induction false} ValidMembersAreKept(attrs: seq<Attribute>)
    ensures |ValidMembers(attrs)| == |KeptIndices(attrs)| <= |attrs|
    ensures forall k :: 0 <= k < |ValidMembers(attrs)| ==>
      ValidMembers(attrs)[k] == attrs[KeptIndices(attrs)[k]].ownName
    decreases |attrs|
  {
    if attrs != [] {
      var n := |attrs| - 1;
      var init := attrs[..n];
      var ks, ks0 := KeptIndices(attrs), KeptIndices(init);
      ValidMembersAreKept(init);
      forall k | 0 <= k < |ValidMembers(attrs)|
        ensures ValidMembers(attrs)[k] == attrs[ks[k]].ownName
      {
        if k < |ks0| {
          assert ks[k] == ks0[k];
          assert ValidMembers(attrs)[k] == ValidMembers(init)[k];
          assert init[ks0[k]] == attrs[ks0[k]];
        }
      }
    }
  }

  /** Every name in the result belongs to a function or class attribute; so
      neither the module itself, nor another module, nor any other value is
      ever listed. */
  lemma NoSkippedKinds(attrs: seq<Attribute>, name: string)
    requires name in ValidMembers(attrs)
    ensures exists i :: 0 <= i < |attrs| && Kept(attrs[i]) && attrs[i].ownName == name
  {
    ValidMembersAreKept(attrs);
    KeptIndicesExact(attrs);
    var k :| 0 <= k < |ValidMembers(attrs)| && ValidMembers(attrs)[k] == name;
    var i := KeptIndices(attrs)[k];
    assert Kept(attrs[i]) && attrs[i].ownName == name;
  }

  /** Every function and class attribute contributes its `__name__`. */
  lemma AllKeptListed(attrs: seq<Attribute>, i: nat)
    requires i < |attrs| && Kept(attrs[i])
    ensures attrs[i].ownName in ValidMembers(attrs)
  {
    ValidMembersAreKept(attrs);
    KeptIndicesExact(attrs);
    var k :| 0 <= k < |KeptIndices(attrs)| && KeptIndices(attrs)[k] == i;
    assert ValidMembers(attrs)[k] == attrs[i].ownName;
  }

  /** An alias keeps the aliased object's own name: `f = g` for a function
      `g` and a self-alias `this = module` give `["g"]`. */
  lemma AliasExample()
    ensures ValidMembers([Attribute("f", Function, "g"), Attribute("this", SelfReference, "pkg")])
         == ["g"]
  {
    var attrs := [Attribute("f", Function, "g"), Attribute("this", SelfReference, "pkg")];
    assert attrs[..1] == [attrs[0]] && [attrs[0]][..0] == [];
  }
}
