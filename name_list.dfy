/** `FileCreator::getFunctionsNameList`: the names of the functions the
    library handles. The table's function names and the special cases are
    merged (`array_merge`), sorted case-insensitively in natural order
    (`natcasesort`), and every name of the exclusion list is removed
    (`array_diff`). Nothing removes duplicates. */
module NameList {
  import opened Signatures

  /** The names listed in `generator/config/ignoredFunctions.php`. */
  const IgnoredFunctions: seq<string> := [
    "array_key_exists",
    "is_executable",
    "is_uploaded_file",
    "stream_is_local",
    "is_soap_fault",
    "oci_lob_copy",
    "func_get_arg",
    "call_user_func_array",
    "mb_check_encoding",
    "array_search",
    "forward_static_call",
    "forward_static_call_array",
    "readdir",
    "apcu_delete",
    "filter_has_var",
    "array_multisort",
    "bzdecompress"
  ]

  /** What `strnatcasecmp(a, b) <= 0` is required to be for `natcasesort`
      to sort by it: a total preorder (names that differ only in case are
      equivalent without being equal). */
  ghost predicate TotalPreorder(le: (string, string) -> bool)
  {
    (forall a, b :: le(a, b) || le(b, a)) &&
    (forall a, b, c :: le(a, b) && le(b, c) ==> le(a, c))
  }

  ghost predicate Sorted(s: seq<string>, le: (string, string) -> bool)
  {
    forall i, j :: 0 <= i < j < |s| ==> le(s[i], s[j])
  }

  /** Puts `x` in front of the first name it does not sort after, so that
      it stays ahead of the names it is equivalent to. */
  function Insert(x: string, s: seq<string>, le: (string, string) -> bool): (r: seq<string>)
    ensures multiset(r) == multiset(s) + multiset{x}
  {
    if s == [] then [x]
    else if le(x, s[0]) then [x] + s
    else
      assert s == [s[0]] + s[1..];
      [s[0]] + Insert(x, s[1..], le)
  }

  /** `natcasesort`: a stable sort by `le`. */
  function Sort(s: seq<string>, le: (string, string) -> bool): (r: seq<string>)
    ensures multiset(r) == multiset(s)
  {
    if s == [] then []
    else
      assert s == [s[0]] + s[1..];
      Insert(s[0], Sort(s[1..], le), le)
  }

  /** `array_diff(s, excluded)`: the names not in `excluded`, compared as
      exact strings, in their order in `s`. */
  function Exclude(s: seq<string>, excluded: seq<string>): (r: seq<string>)
    ensures forall n :: n in r ==> n !in excluded
    ensures forall n :: multiset(r)[n] == if n in excluded then 0 else multiset(s)[n]
  {
    if s == [] then []
    else
      assert s == [s[0]] + s[1..];
      (if s[0] in excluded then [] else [s[0]]) + Exclude(s[1..], excluded)
  }

  /** The eligible-name list. */
  function FunctionsNameList(functions: seq<Method>, specialCases: seq<string>,
                             excluded: seq<string>, le: (string, string) -> bool): (r: seq<string>)
    ensures forall n :: n in r ==> n !in excluded
    ensures forall n :: multiset(r)[n] == (if n in excluded then 0 else multiset(FunctionNames(functions) + specialCases)[n])
    ensures forall m :: m in functions && m.functionName !in excluded ==> m.functionName in r
    ensures forall n :: n in specialCases && n !in excluded ==> n in r
  {
    var merged := FunctionNames(functions) + specialCases;
    Exclude(Sort(merged, le), excluded)
  }

  lemma {:induction false} InsertSorted(x: string, s: seq<string>, le: (string, string) -> bool)
    requires TotalPreorder(le) && Sorted(s, le)
    ensures Sorted(Insert(x, s, le), le)
  {
    if s != [] && !le(x, s[0]) {
      InsertSorted(x, s[1..], le);
      var r := Insert(x, s, le);
      var t := Insert(x, s[1..], le);
      assert r == [s[0]] + t;
      forall k | 0 <= k < |t| ensures le(s[0], t[k]) {
        assert t[k] in multiset(s[1..]) + multiset{x};
        if t[k] == x {
        } else {
          assert t[k] in s[1..];
          var i :| 0 <= i < |s[1..]| && s[1..][i] == t[k];
          assert s[i + 1] == t[k];
        }
      }
    }
  }

  /** What `natcasesort` promises: the names come out ordered by `le`. */
  lemma {:induction false} SortSorted(s: seq<string>, le: (string, string) -> bool)
    requires TotalPreorder(le)
    ensures Sorted(Sort(s, le), le)
  {
    if s != [] {
      SortSorted(s[1..], le);
      InsertSorted(s[0], Sort(s[1..], le), le);
    }
  }

  /** Sorting a list that is already in order leaves it as it is. */
  lemma {:induction false} SortOfSorted(s: seq<string>, le: (string, string) -> bool)
    requires Sorted(s, le)
    ensures Sort(s, le) == s
  {
    if s != [] {
      assert Sorted(s[1..], le);
      SortOfSorted(s[1..], le);
      assert s == [s[0]] + s[1..];
    }
  }

  /** Removing names keeps the others in the order they were in. */
  lemma {:induction false} ExcludeSorted(s: seq<string>, excluded: seq<string>, le: (string, string) -> bool)
    requires Sorted(s, le)
    ensures Sorted(Exclude(s, excluded), le)
  {
    if s != [] {
      assert Sorted(s[1..], le);
      ExcludeSorted(s[1..], excluded, le);
      var t := Exclude(s[1..], excluded);
      forall k | 0 <= k < |t| ensures le(s[0], t[k]) {
        assert multiset(t)[t[k]] > 0;
        assert t[k] in s[1..];
        var i :| 0 <= i < |s[1..]| && s[1..][i] == t[k];
        assert s[i + 1] == t[k];
      }
    }
  }

  /** The eligible-name list is ordered by the natural-order comparison. */
  lemma FunctionsNameListSorted(functions: seq<Method>, specialCases: seq<string>,
                                excluded: seq<string>, le: (string, string) -> bool)
    requires TotalPreorder(le)
    ensures Sorted(FunctionsNameList(functions, specialCases, excluded, le), le)
  {
    var merged := FunctionNames(functions) + specialCases;
    SortSorted(merged, le);
    ExcludeSorted(Sort(merged, le), excluded, le);
  }

  /** When the table and the special cases name every function once, so
      does the eligible-name list. */
  lemma FunctionsNameListDistinct(functions: seq<Method>, specialCases: seq<string>,
                                  excluded: seq<string>, le: (string, string) -> bool)
    requires Distinct(FunctionNames(functions) + specialCases)
    ensures Distinct(FunctionsNameList(functions, specialCases, excluded, le))
  {
    var merged := FunctionNames(functions) + specialCases;
    var r := FunctionsNameList(functions, specialCases, excluded, le);
    forall i, j | 0 <= i < j < |r| ensures r[i] != r[j] {
      if r[i] == r[j] {
        TwoOccurrences(r, i, j);
        assert multiset(merged)[r[i]] >= 2;
        DistinctMultiplicity(merged, r[i]);
        assert false;
      }
    }
  }

  lemma TwoOccurrences(s: seq<string>, i: nat, j: nat)
    requires i < j < |s| && s[i] == s[j]
    ensures multiset(s)[s[i]] >= 2
  {
    assert s == s[..j] + [s[j]] + s[j + 1..];
    assert s[..j][i] == s[i];
    assert multiset(s[..j])[s[i]] >= 1;
  }

  lemma {:induction false} DistinctMultiplicity(s: seq<string>, n: string)
    requires Distinct(s)
    ensures multiset(s)[n] <= 1
  {
    if s != [] {
      assert s == [s[0]] + s[1..];
      assert Distinct(s[1..]);
      DistinctMultiplicity(s[1..], n);
      if s[0] == n {
        assert n !in s[1..];
      }
    }
  }

  /** A special case that is also a table name is listed twice. */
  lemma DuplicateNameKept(w: string, le: (string, string) -> bool)
    ensures FunctionsNameList([Method("rename", "Filesystem", w)], ["rename"], IgnoredFunctions, le)
         == ["rename", "rename"]
  {
    var merged := FunctionNames([Method("rename", "Filesystem", w)]) + ["rename"];
    assert Sort(merged, le) == ["rename", "rename"] by {
      assert merged == ["rename", "rename"];
      assert Sort(["rename"], le) == ["rename"];
      assert Insert("rename", ["rename"], le) == ["rename", "rename"];
    }
    RenameNotIgnored();
    assert Exclude(["rename"], IgnoredFunctions) == ["rename"];
    assert Exclude(["rename", "rename"], IgnoredFunctions) == ["rename"] + Exclude(["rename"], IgnoredFunctions);
  }

  lemma RenameNotIgnored()
    ensures "rename" !in IgnoredFunctions
  {
  }

  /** No name of `ignoredFunctions.php` is ever listed, `readdir` included. */
  lemma IgnoredNeverListed(functions: seq<Method>, specialCases: seq<string>, le: (string, string) -> bool)
    ensures "readdir" !in FunctionsNameList(functions, specialCases, IgnoredFunctions, le)
    ensures "array_multisort" !in FunctionsNameList(functions, specialCases, IgnoredFunctions, le)
  {
    assert IgnoredFunctions[12] == "readdir";
    assert IgnoredFunctions[15] == "array_multisort";
  }
}
