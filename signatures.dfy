/** What the generator needs of one wrappable PHP function (`Safe\Method`):
    its name, the module it is documented under, and the wrapper text
    `WritePhpFunction::getPhpFunctionalFunction` emits for it. The emitter
    is not part of this model, so its output is carried as data. */
module Signatures {

  datatype Method = Method(functionName: string, moduleName: string, phpFunction: string)

  /** `array_map(fn (Method $f) => $f->getFunctionName(), $functions)`. */
  function FunctionNames(functions: seq<Method>): (names: seq<string>)
    ensures |names| == |functions|
    ensures forall m :: m in functions ==> m.functionName in names
  {
    var names := seq(|functions|, i requires 0 <= i < |functions| => functions[i].functionName);
    assert forall m :: m in functions ==> m.functionName in names by {
      forall m | m in functions ensures m.functionName in names {
        var i :| 0 <= i < |functions| && functions[i] == m;
        assert names[i] == m.functionName;
      }
    }
    names
  }

  /** No name occurs twice. */
  ghost predicate Distinct(s: seq<string>)
  {
    forall i, j :: 0 <= i < j < |s| ==> s[i] != s[j]
  }

  /** The head of a list without repeats is not in its tail, which has no
      repeats either. */
  lemma DistinctTail(s: seq<string>)
    requires Distinct(s) && s != []
    ensures s[0] !in s[1..] && Distinct(s[1..])
  {
    forall k | 0 <= k < |s[1..]| ensures s[1..][k] != s[0] {
      assert s[1..][k] == s[k + 1];
    }
  }
}
