/** The first loop of `FileCreator::generatePhpFile`: the dictionary
    `$phpFunctionsByModule` that collects, per module, the wrapper text of
    each of its functions. A PHP array keeps its keys in insertion order, so
    the dictionary is the pair of the module order and the map. */
module Grouping {
  import opened Signatures

  /** The dictionary's keys in insertion order: each module once, at the
      place of its first function. */
  function ModuleOrder(functions: seq<Method>): seq<string>
  {
    if functions == [] then []
    else
      var prefix := ModuleOrder(functions[..|functions| - 1]);
      var m := functions[|functions| - 1].moduleName;
      if m in prefix then prefix else prefix + [m]
  }

  /** The dictionary has a key for exactly the modules of the functions,
      each once. */
  lemma {:induction false} ModuleOrderKeys(functions: seq<Method>)
    ensures forall m :: m in ModuleOrder(functions) <==> exists i :: 0 <= i < |functions| && functions[i].moduleName == m
    ensures Distinct(ModuleOrder(functions))
  {
    if functions != [] {
      var n := |functions| - 1;
      var prefix := functions[..n];
      ModuleOrderKeys(prefix);
      assert forall i :: 0 <= i < n ==> prefix[i] == functions[i];
      forall m ensures m in ModuleOrder(functions) <==> exists i :: 0 <= i < |functions| && functions[i].moduleName == m {
        if m in ModuleOrder(functions) && m != functions[n].moduleName {
          assert m in ModuleOrder(prefix);
          var i :| 0 <= i < n && prefix[i].moduleName == m;
          assert functions[i].moduleName == m;
        }
        if exists i :: 0 <= i < |functions| && functions[i].moduleName == m {
          var i :| 0 <= i < |functions| && functions[i].moduleName == m;
          if i < n {
            assert prefix[i].moduleName == m;
          }
        }
      }
    }
  }

  /** The dictionary's entry for `m`: the wrapper texts of the functions of
      module `m`, in the order of `functions`. */
  function Group(functions: seq<Method>, m: string): seq<string>
  {
    if functions == [] then []
    else
      var last := functions[|functions| - 1];
      Group(functions[..|functions| - 1], m) + (if last.moduleName == m then [last.phpFunction] else [])
  }

  /** A group is non-empty exactly when the module has a function, so
      every key of the dictionary has at least one wrapper. */
  lemma {:induction false} GroupNonEmpty(functions: seq<Method>, m: string)
    ensures Group(functions, m) != [] <==> m in ModuleOrder(functions)
  {
    if functions != [] {
      var n := |functions| - 1;
      GroupNonEmpty(functions[..n], m);
    }
  }

  /** The wrapper texts of all functions, in order. */
  function Wrappers(functions: seq<Method>): seq<string>
  {
    seq(|functions|, i requires 0 <= i < |functions| => functions[i].phpFunction)
  }

  /** The groups of `order`, one after the other. */
  function GroupsInOrder(functions: seq<Method>, order: seq<string>): seq<string>
  {
    if order == [] then [] else Group(functions, order[0]) + GroupsInOrder(functions, order[1..])
  }

  /** Grouping a concatenation groups each part. */
  lemma {:induction false} GroupAppend(a: seq<Method>, b: seq<Method>, m: string)
    ensures Group(a + b, m) == Group(a, m) + Group(b, m)
  {
    if b == [] {
      assert a + b == a;
    } else {
      var ab := a + b;
      assert ab[..|ab| - 1] == a + b[..|b| - 1];
      assert ab[|ab| - 1] == b[|b| - 1];
      GroupAppend(a, b[..|b| - 1], m);
    }
  }

  /** Each function's wrapper text lands in the group of its own module,
      after the wrappers of that module's earlier functions and before those
      of its later ones, and adds nothing to any other group. */
  lemma WrapperInOwnGroup(functions: seq<Method>, i: nat, m: string)
    requires i < |functions|
    ensures m == functions[i].moduleName ==>
      Group(functions, m) == Group(functions[..i], m) + [functions[i].phpFunction] + Group(functions[i + 1..], m)
    ensures m != functions[i].moduleName ==>
      Group(functions, m) == Group(functions[..i], m) + Group(functions[i + 1..], m)
  {
    assert functions == functions[..i] + [functions[i]] + functions[i + 1..];
    GroupAppend(functions[..i] + [functions[i]], functions[i + 1..], m);
    GroupAppend(functions[..i], [functions[i]], m);
    assert [functions[i]][..0] == [];
  }

  /** One added function changes only the group of its module. */
  lemma {:induction false} GroupsInOrderSnoc(functions: seq<Method>, f: Method, order: seq<string>)
    requires Distinct(order)
    ensures multiset(GroupsInOrder(functions + [f], order)) ==
      multiset(GroupsInOrder(functions, order)) + (if f.moduleName in order then multiset{f.phpFunction} else multiset{})
  {
    if order != [] {
      var fs := functions + [f];
      var m := order[0];
      var extra: seq<string> := if m == f.moduleName then [f.phpFunction] else [];
      GroupSnoc(functions, f, m);
      DistinctTail(order);
      GroupsInOrderSnoc(functions, f, order[1..]);
      var inRest: multiset<string> := if f.moduleName in order[1..] then multiset{f.phpFunction} else multiset{};
      var added: multiset<string> := if f.moduleName in order then multiset{f.phpFunction} else multiset{};
      assert multiset(extra) + inRest == added by {
        assert f.moduleName in order <==> f.moduleName == m || f.moduleName in order[1..] by {
          assert order == [m] + order[1..];
        }
      }
      var rest := GroupsInOrder(fs, order[1..]);
      var rest0 := GroupsInOrder(functions, order[1..]);
      MultisetJoin(Group(functions, m), extra, rest, rest0, inRest, added);
      assert GroupsInOrder(fs, order) == Group(functions, m) + extra + rest;
      assert GroupsInOrder(functions, order) == Group(functions, m) + rest0;
    }
  }

  lemma GroupSnoc(functions: seq<Method>, f: Method, m: string)
    ensures Group(functions + [f], m) == Group(functions, m) + (if m == f.moduleName then [f.phpFunction] else [])
  {
    var fs := functions + [f];
    assert fs[..|fs| - 1] == functions && fs[|fs| - 1] == f;
  }

  lemma WrappersSnoc(functions: seq<Method>, f: Method)
    ensures Wrappers(functions + [f]) == Wrappers(functions) + [f.phpFunction]
  {
    var fs := functions + [f];
    assert forall i :: 0 <= i < |functions| ==> Wrappers(fs)[i] == functions[i].phpFunction == Wrappers(functions)[i];
  }

  /** Bookkeeping for `GroupsInOrderSnoc`: a head, an extra part and a tail
      whose growth is known. */
  lemma MultisetJoin(head: seq<string>, extra: seq<string>, rest: seq<string>, rest0: seq<string>,
                     inRest: multiset<string>, added: multiset<string>)
    requires multiset(rest) == multiset(rest0) + inRest
    requires multiset(extra) + inRest == added
    ensures multiset(head + extra + rest) == multiset(head + rest0) + added
  {
  }

  /** Grouping loses and duplicates nothing: the groups together hold
      exactly the wrapper texts of all functions. */
  lemma {:induction false} GroupsPartition(functions: seq<Method>, order: seq<string>)
    requires Distinct(order)
    requires forall i :: 0 <= i < |functions| ==> functions[i].moduleName in order
    ensures multiset(GroupsInOrder(functions, order)) == multiset(Wrappers(functions))
  {
    if functions == [] {
      EmptyGroups(order);
    } else {
      var prefix := functions[..|functions| - 1];
      var f := functions[|functions| - 1];
      assert functions == prefix + [f];
      GroupsPartition(prefix, order);
      GroupsInOrderSnoc(prefix, f, order);
      WrappersSnoc(prefix, f);
    }
  }

  lemma {:induction false} EmptyGroups(order: seq<string>)
    ensures GroupsInOrder([], order) == []
  {
    if order != [] {
      EmptyGroups(order[1..]);
    }
  }

  /** The groups of the dictionary's modules hold every wrapper text once. */
  lemma ModuleGroupsPartition(functions: seq<Method>)
    ensures multiset(GroupsInOrder(functions, ModuleOrder(functions))) == multiset(Wrappers(functions))
  {
    ModuleOrderKeys(functions);
    assert forall i :: 0 <= i < |functions| ==> functions[i].moduleName in ModuleOrder(functions);
    GroupsPartition(functions, ModuleOrder(functions));
  }

  /** The dictionary-building loop. */
  method GroupByModule(functions: seq<Method>) returns (order: seq<string>, groups: map<string, seq<string>>)
    ensures order == ModuleOrder(functions)
    ensures forall m :: m in groups <==> m in order
    ensures forall m :: m in groups ==> groups[m] == Group(functions, m) && groups[m] != []
  {
    order, groups := [], map[];
    for i := 0 to |functions|
      invariant order == ModuleOrder(functions[..i])
      invariant forall m :: m in groups <==> m in order
      invariant forall m :: m in groups ==> groups[m] == Group(functions[..i], m)
    {
      var f := functions[i];
      assert functions[..i + 1][..i] == functions[..i];
      assert functions[..i + 1][i] == f;
      assert forall m :: Group(functions[..i + 1], m) == Group(functions[..i], m) + (if f.moduleName == m then [f.phpFunction] else []);
      GroupNonEmpty(functions[..i], f.moduleName);
      if f.moduleName in groups {
        groups := groups[f.moduleName := groups[f.moduleName] + [f.phpFunction]];
      } else {
        order := order + [f.moduleName];
        groups := groups[f.moduleName := [f.phpFunction]];
      }
    }
    assert functions[..|functions|] == functions;
    forall m | m in groups ensures groups[m] != [] {
      GroupNonEmpty(functions, m);
    }
  }
}
