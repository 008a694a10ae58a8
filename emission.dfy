/** The exact texts `FileCreator` writes: module files, the list of handled
    functions, the rename configuration for rector, and the exception
    class; with readers that take the two name files apart again. */
module Emission {
  import opened PhpStrings
  import opened ExceptionNames

  /** `rtrim($path, '/') . '/'`: the output directory with exactly one
      trailing slash. */
  function DirectoryPrefix(path: string): (r: string)
    ensures |r| >= 1 && r[|r| - 1] == '/'
    ensures |r| == 1 || r[|r| - 2] != '/'
    ensures |r| - 1 <= |path| && r[..|r| - 1] == path[..|r| - 1]
    ensures forall k :: |r| - 1 <= k < |path| ==> path[k] == '/'
  {
    var t := RTrim(path, '/');
    assert (t + "/")[..|t|] == t;
    t + "/"
  }

  /** Normalising an already normalised directory changes nothing. */
  lemma DirectoryPrefixIdempotent(path: string)
    ensures DirectoryPrefix(DirectoryPrefix(path)) == DirectoryPrefix(path)
  {
    var t := RTrim(path, '/');
    var d := t + "/";
    assert d[..|d| - 1] == t;
    assert RTrim(d, '/') == RTrim(t, '/');
  }

  /** `$path . lcfirst($module) . '.php'`. */
  function ModuleFilePath(dir: string, moduleName: string): string
  {
    dir + LcFirst(moduleName) + ".php"
  }

  /** Two modules share a file exactly when `lcfirst` makes their names
      equal. */
  lemma ModuleFilePathInjective(dir: string, a: string, b: string)
    ensures ModuleFilePath(dir, a) == ModuleFilePath(dir, b) <==> LcFirst(a) == LcFirst(b)
  {
    var p, q := ModuleFilePath(dir, a), ModuleFilePath(dir, b);
    if p == q {
      assert p[|dir|..|p| - 4] == LcFirst(a);
      assert q[|dir|..|q| - 4] == LcFirst(b);
    }
  }

  /** The head of every module file: the namespace and the import of the
      module's exception class. */
  function ModulePreamble(moduleName: string): string
  {
    "<?php\n\nnamespace Safe;\n\nuse Safe\\Exceptions\\" + ToExceptionName(moduleName) + ";\n"
  }

  /** Each wrapper text followed by a newline, as the inner loop writes it. */
  function WrapperLines(wrappers: seq<string>): seq<string>
  {
    seq(|wrappers|, i requires 0 <= i < |wrappers| => wrappers[i] + "\n")
  }

  function ModuleFileContent(moduleName: string, wrappers: seq<string>): string
  {
    ModulePreamble(moduleName) + Concat(WrapperLines(wrappers))
  }

  /** A module file grows by one line per wrapper: the content for
      `a + b` is the content for `a` followed by `b`'s lines. */
  lemma ModuleFileContentAppend(moduleName: string, a: seq<string>, b: seq<string>)
    ensures ModuleFileContent(moduleName, a + b) == ModuleFileContent(moduleName, a) + Concat(WrapperLines(b))
  {
    assert WrapperLines(a + b) == WrapperLines(a) + WrapperLines(b);
    ConcatAppend(WrapperLines(a), WrapperLines(b));
  }

  /** The gettext module file starts with the five lines of
      `generated/gettext.php`. */
  lemma GettextPreamble()
    ensures ModulePreamble("Gettext") == "<?php\n\nnamespace Safe;\n\nuse Safe\\Exceptions\\GettextException;\n"
  {
    calc {
      ModulePreamble("Gettext");
      "<?php\n\nnamespace Safe;\n\nuse Safe\\Exceptions\\" + ToExceptionName("Gettext") + ";\n";
      { GettextModule(); }
      "<?php\n\nnamespace Safe;\n\nuse Safe\\Exceptions\\" + "GettextException" + ";\n";
      "<?php\n\nnamespace Safe;\n\nuse Safe\\Exceptions\\GettextException;\n";
    }
  }

  // ---- the list of handled functions ----

  const ListHeader: string := "<?php\n\nreturn [\n"
  const ListFooter: string := "];\n"

  function ListEntry(name: string): string
  {
    "    " + VarExport(name) + ",\n"
  }

  function ListEntries(names: seq<string>): seq<string>
  {
    seq(|names|, i requires 0 <= i < |names| => ListEntry(names[i]))
  }

  function FunctionsListText(names: seq<string>): string
  {
    ListHeader + Concat(ListEntries(names)) + ListFooter
  }

  /** A name that needs no escaping is written between plain quotes. */
  lemma ListEntryOfIdentifier(name: string)
    requires '\'' !in name && '\\' !in name && '\0' !in name
    ensures ListEntry(name) == "    '" + name + "',\n"
  {
  }

  /** Reads the lines `    '<name>',` back, one name per line. */
  function ParseListEntries(t: string): Option<seq<string>>
    decreases |t|
  {
    if t == [] then Some([])
    else if |t| >= 5 && t[..5] == "    '" then
      match ReadQuoted(t[5..])
      case None => None
      case Some(p) =>
        if |p.1| >= 2 && p.1[..2] == ",\n" then
          match ParseListEntries(p.1[2..])
          case None => None
          case Some(rest) => Some([p.0] + rest)
        else None
    else None
  }

  /** Reads a whole list file back into its names. */
  function ParseFunctionsList(t: string): Option<seq<string>>
  {
    if |t| >= |ListHeader| + |ListFooter| && t[..|ListHeader|] == ListHeader
       && t[|t| - |ListFooter|..] == ListFooter
    then ParseListEntries(t[|ListHeader|..|t| - |ListFooter|])
    else None
  }

  lemma {:induction false} ParseListEntriesRoundTrip(names: seq<string>)
    requires forall n :: n in names ==> '\0' !in n
    ensures ParseListEntries(Concat(ListEntries(names))) == Some(names)
  {
    if names == [] {
      assert ListEntries(names) == [];
    } else {
      var n := names[0];
      assert ListEntries(names) == [ListEntry(n)] + ListEntries(names[1..]);
      ConcatCons(ListEntry(n), ListEntries(names[1..]));
      ParseListEntriesRoundTrip(names[1..]);
      ParseListEntry(n, Concat(ListEntries(names[1..])));
      assert names == [n] + names[1..];
    }
  }

  /** One line read back: the name, then the lines after it. */
  lemma ParseListEntry(n: string, rest: string)
    requires '\0' !in n
    ensures ParseListEntries(ListEntry(n) + rest) ==
      match ParseListEntries(rest)
      case None => None
      case Some(names) => Some([n] + names)
  {
    var after := ",\n" + rest;
    var t := ListEntry(n) + rest;
    assert t == "    '" + (Escape(n) + "'" + after);
    assert t[5..] == Escape(n) + "'" + after;
    ReadQuotedEscape(n, after);
    assert after[..2] == ",\n" && after[2..] == rest;
  }

  /** The list file reads back as exactly the names written, in order. */
  lemma FunctionsListRoundTrip(names: seq<string>)
    requires forall n :: n in names ==> '\0' !in n
    ensures ParseFunctionsList(FunctionsListText(names)) == Some(names)
  {
    var body := Concat(ListEntries(names));
    var t := FunctionsListText(names);
    assert t[..|ListHeader|] == ListHeader;
    assert t[|t| - |ListFooter|..] == ListFooter;
    assert t[|ListHeader|..|t| - |ListFooter|] == body;
    ParseListEntriesRoundTrip(names);
  }

  // ---- the rename configuration for rector ----

  const RectorHeader: string :=
    "<?php\n\ndeclare(strict_types=1);\n\n"
    + "use Rector\\Renaming\\Rector\\FuncCall\\RenameFunctionRector;\n"
    + "use Symfony\\Component\\DependencyInjection\\Loader\\Configurator\\ContainerConfigurator;\n\n"
    + "# This file configures rector/rector:~0.8.0 to replace all PHP functions with their equivalent \"safe\" functions\n"
    + "return static function (ContainerConfigurator $containerConfigurator): void {\n"
    + "    $services = $containerConfigurator->services();\n\n"
    + "    $services->set(RenameFunctionRector::class)\n"
    + "        ->call('configure', [[ RenameFunctionRector::OLD_FUNCTION_TO_NEW_FUNCTION => [\n"
  const RectorFooter: string := "]]]);\n};\n"
  const RectorEntryHead: string := "            '"
  const RectorArrow: string := " => '"
  const SafeNamespace: string := "Safe\\"

  /** `'<name>' => 'Safe\<name>',`: the name is interpolated as it is,
      with no escaping. */
  function RectorEntry(name: string): string
  {
    RectorEntryHead + name + "'" + RectorArrow + SafeNamespace + name + "',\n"
  }

  function RectorEntries(names: seq<string>): seq<string>
  {
    seq(|names|, i requires 0 <= i < |names| => RectorEntry(names[i]))
  }

  function RectorConfigText(names: seq<string>): string
  {
    RectorHeader + Concat(RectorEntries(names)) + RectorFooter
  }

  /** Reads the rename lines back as PHP reads their two single-quoted
      literals; a line whose target is not the source name in the `Safe`
      namespace is refused. */
  function ParseRectorEntries(t: string): Option<seq<string>>
    decreases |t|
  {
    if t == [] then Some([])
    else if |t| >= |RectorEntryHead| && t[..|RectorEntryHead|] == RectorEntryHead then
      match ReadQuoted(t[|RectorEntryHead|..])
      case None => None
      case Some(p) =>
        if |p.1| >= |RectorArrow| && p.1[..|RectorArrow|] == RectorArrow then
          match ReadQuoted(p.1[|RectorArrow|..])
          case None => None
          case Some(q) =>
            if q.0 == SafeNamespace + p.0 && |q.1| >= 2 && q.1[..2] == ",\n" then
              match ParseRectorEntries(q.1[2..])
              case None => None
              case Some(rest) => Some([p.0] + rest)
            else None
        else None
    else None
  }

  function ParseRectorConfig(t: string): Option<seq<string>>
  {
    if |t| >= |RectorHeader| + |RectorFooter| && t[..|RectorHeader|] == RectorHeader
       && t[|t| - |RectorFooter|..] == RectorFooter
    then ParseRectorEntries(t[|RectorHeader|..|t| - |RectorFooter|])
    else None
  }

  /** A name the rename line can carry unescaped: not empty (an empty name
      would leave `'Safe\'`, whose backslash escapes the closing quote),
      with no quote and no backslash. */
  ghost predicate PlainName(n: string)
  {
    n != [] && '\'' !in n && '\\' !in n
  }

  lemma PlainNameUnescaped(n: string)
    requires PlainName(n)
    ensures Unescaped(n) && Unescaped(SafeNamespace + n)
  {
    var s := SafeNamespace + n;
    forall k | 0 <= k < |s| && s[k] == '\\'
      ensures k + 1 < |s| && s[k + 1] != '\'' && s[k + 1] != '\\'
    {
      assert k == 4;
      assert s[5] == n[0];
    }
  }

  /** One rename line read back: the first literal gives the name, the
      second must be that name in the `Safe` namespace. */
  lemma ParseRectorLine(t: string, afterFirst: string, afterSecond: string, v1: string, v2: string)
    requires |t| >= |RectorEntryHead| && t[..|RectorEntryHead|] == RectorEntryHead
    requires ReadQuoted(t[|RectorEntryHead|..]) == Some((v1, afterFirst))
    requires |afterFirst| >= |RectorArrow| && afterFirst[..|RectorArrow|] == RectorArrow
    requires ReadQuoted(afterFirst[|RectorArrow|..]) == Some((v2, afterSecond))
    requires v2 == SafeNamespace + v1 && |afterSecond| >= 2 && afterSecond[..2] == ",\n"
    ensures ParseRectorEntries(t) ==
      match ParseRectorEntries(afterSecond[2..])
      case None => None
      case Some(names) => Some([v1] + names)
  {
  }

  /** A rename line followed by more text, cut at its two literals. */
  lemma RectorEntryParts(n: string, rest: string)
    ensures RectorEntry(n) + rest ==
      RectorEntryHead + (n + "'" + (RectorArrow + ((SafeNamespace + n) + "'" + (",\n" + rest))))
  {
    assert "',\n" == "'" + ",\n";
  }

  lemma {:induction false} ParseRectorEntriesRoundTrip(names: seq<string>)
    requires forall n :: n in names ==> PlainName(n)
    ensures ParseRectorEntries(Concat(RectorEntries(names))) == Some(names)
  {
    if names == [] {
      assert RectorEntries(names) == [];
    } else {
      var n := names[0];
      assert RectorEntries(names) == [RectorEntry(n)] + RectorEntries(names[1..]);
      ConcatCons(RectorEntry(n), RectorEntries(names[1..]));
      var rest := Concat(RectorEntries(names[1..]));
      var afterSecond := ",\n" + rest;
      var afterFirst := RectorArrow + ((SafeNamespace + n) + "'" + afterSecond);
      var t := RectorEntry(n) + rest;
      PlainNameUnescaped(n);
      assert ReadQuoted(t[|RectorEntryHead|..]) == Some((n, afterFirst)) by {
        RectorEntryParts(n, rest);
        assert t[|RectorEntryHead|..] == n + "'" + afterFirst;
        ReadQuotedUnescaped(n, afterFirst);
      }
      assert ReadQuoted(afterFirst[|RectorArrow|..]) == Some((SafeNamespace + n, afterSecond)) by {
        assert afterFirst[|RectorArrow|..] == (SafeNamespace + n) + "'" + afterSecond;
        ReadQuotedUnescaped(SafeNamespace + n, afterSecond);
      }
      assert t[..|RectorEntryHead|] == RectorEntryHead;
      assert afterFirst[..|RectorArrow|] == RectorArrow;
      assert afterSecond[..2] == ",\n" && afterSecond[2..] == rest;
      ParseRectorLine(t, afterFirst, afterSecond, n, SafeNamespace + n);
      ParseRectorEntriesRoundTrip(names[1..]);
      assert names == [n] + names[1..];
    }
  }

  /** The rename configuration reads back as exactly the names written. */
  lemma RectorConfigRoundTrip(names: seq<string>)
    requires forall n :: n in names ==> PlainName(n)
    ensures ParseRectorConfig(RectorConfigText(names)) == Some(names)
  {
    var body := Concat(RectorEntries(names));
    var t := RectorConfigText(names);
    assert t[..|RectorHeader|] == RectorHeader;
    assert t[|t| - |RectorFooter|..] == RectorFooter;
    assert t[|RectorHeader|..|t| - |RectorFooter|] == body;
    ParseRectorEntriesRoundTrip(names);
  }

  /** The list file and the rename configuration name the same functions
      in the same order. */
  lemma SerialisedFilesAgree(names: seq<string>)
    requires forall n :: n in names ==> PlainName(n) && '\0' !in n
    ensures ParseFunctionsList(FunctionsListText(names)) == ParseRectorConfig(RectorConfigText(names)) == Some(names)
  {
    FunctionsListRoundTrip(names);
    RectorConfigRoundTrip(names);
  }

  /** `\\` in a literal's body reads as one backslash. */
  lemma ReadDoubledBackslash(rest: string)
    ensures ReadQuoted("\\\\b'" + rest) == Some(("\\b", rest))
  {
    var t := "\\\\b'" + rest;
    assert t[0] == '\\' && t[1] == '\\' && t[2..] == "b'" + rest;
    ReadQuotedUnescaped("b", rest);
    assert ReadQuoted(t[2..]) == Some(("b", rest));
    assert ['\\'] + "b" == "\\b";
  }

  /** The list file escapes a backslash, so a name holding `\\` is listed
      as itself. */
  lemma BackslashNameListed()
    ensures ParseListEntries(ListEntry("a\\\\b")) == Some(["a\\\\b"])
  {
    ParseListEntry("a\\\\b", []);
    assert ListEntry("a\\\\b") + [] == ListEntry("a\\\\b");
    assert ParseListEntries([]) == Some([]);
    assert ["a\\\\b"] + [] == ["a\\\\b"];
  }

  /** The rename configuration does not escape a backslash, so the same name
      is renamed as the name with `\` in its place: the two files disagree
      on it. */
  lemma BackslashNameMisread()
    ensures ParseRectorEntries(RectorEntry("a\\\\b")) == Some(["a\\b"])
  {
    var n := "a\\\\b";
    var t := RectorEntry(n);
    var afterSecond := ",\n";
    var afterFirst := RectorArrow + (SafeNamespace + n + "'" + afterSecond);
    assert t == RectorEntryHead + ([] + n + "'" + afterFirst) by {
      RectorEntryParts(n, []);
      assert t + [] == t && [] + n == n;
    }
    assert t[|RectorEntryHead|..] == [] + n + "'" + afterFirst;
    ReadBackslashName([], afterFirst);
    assert afterFirst[|RectorArrow|..] == SafeNamespace + n + "'" + afterSecond;
    ReadBackslashName(SafeNamespace, afterSecond);
    ParseRectorLine(t, afterFirst, afterSecond, [] + "a\\b", SafeNamespace + "a\\b");
    assert afterSecond[2..] == [];
    assert ParseRectorEntries([]) == Some([]);
    assert [] + "a\\b" == "a\\b";
    assert [[] + "a\\b"] + [] == ["a\\b"];
  }

  /** `a\\b` between quotes, after nothing or after `Safe\`, reads as
      `a\b`. */
  lemma ReadBackslashName(prefix: string, rest: string)
    requires prefix == [] || prefix == SafeNamespace
    ensures ReadQuoted(prefix + "a\\\\b" + "'" + rest) == Some((prefix + "a\\b", rest))
  {
    assert Unescaped(prefix + "a");
    ReadDoubledBackslash(rest);
    ReadQuotedPrefix(prefix + "a", "\\\\b'" + rest);
    assert prefix + "a\\\\b" + "'" + rest == (prefix + "a") + ("\\\\b'" + rest);
    assert (prefix + "a") + "\\b" == prefix + "a\\b";
  }

  // ---- the exception class ----

  const ExceptionClassHead: string := "<?php\nnamespace Safe\\Exceptions;\n\nclass "
  const ExceptionClassOpen: string :=
    " extends \\ErrorException implements SafeExceptionInterface\n{\n"
    + "    public static function createFromPhpError(): self\n    {\n"
    + "        $error = error_get_last();\n        "
  /** The fallback when PHP has recorded no error: a fixed message, type 1. */
  const FallbackCall: string := "return new self($error['message'] ?? 'An error occured', 0, $error['type'] ?? 1);"
  const ExceptionClassClose: string := "\n    }\n}\n"
  const ExceptionClassBody: string := ExceptionClassOpen + FallbackCall + ExceptionClassClose

  function ExceptionClassText(exceptionName: string): string
  {
    ExceptionClassHead + exceptionName + ExceptionClassBody
  }

  /** The class is the named one, built from the last PHP error with the
      generic fallback message and type. */
  lemma ExceptionClassShape(exceptionName: string)
    ensures var t := ExceptionClassText(exceptionName);
      t[|ExceptionClassHead|..|ExceptionClassHead| + |exceptionName|] == exceptionName
      && var k := |ExceptionClassHead| + |exceptionName| + |ExceptionClassOpen|;
      t[k..k + |FallbackCall|] == FallbackCall
  {
    var t := ExceptionClassText(exceptionName);
    var k := |ExceptionClassHead| + |exceptionName|;
    assert t[k..] == ExceptionClassBody;
    assert ExceptionClassBody[|ExceptionClassOpen|..|ExceptionClassOpen| + |FallbackCall|] == FallbackCall;
  }

  /** Different class names give different class files. */
  lemma ExceptionClassTextInjective(a: string, b: string)
    requires ExceptionClassText(a) == ExceptionClassText(b)
    ensures a == b
  {
    var h := |ExceptionClassHead|;
    assert |a| == |b|;
    assert a == ExceptionClassText(a)[h..h + |a|];
    assert b == ExceptionClassText(b)[h..h + |b|];
  }
}
