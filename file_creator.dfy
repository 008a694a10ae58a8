/** `Safe\FileCreator`: writes the module files, the list of handled
    functions, the rector configuration and the exception classes. */
module FileCreator {
  import opened PhpStrings
  import opened Signatures
  import opened ExceptionNames
  import opened NameList
  import opened Grouping
  import opened Emission
  import opened Files

  /** How a `FileCreator` operation ends: normally, or with the
      `RuntimeException` it throws when a file cannot be opened. */
  datatype Outcome = Done | RuntimeException(message: string)

  // ---- generatePhpFile ----

  /** The files after `texts[k]` was stored under `paths[k]` for each `k`
      in turn; a later text stored under the same path replaces an earlier
      one. */
  function Store(files: map<string, string>, paths: seq<string>, texts: seq<string>): map<string, string>
    requires |paths| == |texts|
  {
    if paths == [] then files
    else
      var n := |paths| - 1;
      Store(files, paths[..n], texts[..n])[paths[n] := texts[n]]
  }

  /** When the paths are distinct, each holds its own text afterwards. */
  lemma {:induction false} StoreAt(files: map<string, string>, paths: seq<string>, texts: seq<string>, i: nat)
    requires |paths| == |texts| && i < |paths|
    requires forall a, b :: 0 <= a < b < |paths| ==> paths[a] != paths[b]
    ensures paths[i] in Store(files, paths, texts) && Store(files, paths, texts)[paths[i]] == texts[i]
  {
    var n := |paths| - 1;
    if i < n {
      assert paths[..n][i] == paths[i] && texts[..n][i] == texts[i];
      StoreAt(files, paths[..n], texts[..n], i);
    }
  }

  /** A path that is not written keeps what it held, or stays absent. */
  lemma {:induction false} StoreOther(files: map<string, string>, paths: seq<string>, texts: seq<string>, p: string)
    requires |paths| == |texts| && p !in paths
    ensures p in Store(files, paths, texts) <==> p in files
    ensures p in files ==> Store(files, paths, texts)[p] == files[p]
  {
    if paths != [] {
      var n := |paths| - 1;
      assert p !in paths[..n];
      StoreOther(files, paths[..n], texts[..n], p);
    }
  }

  /** Storing one more text. */
  lemma StoreSnoc(files: map<string, string>, paths: seq<string>, texts: seq<string>, k: nat)
    requires |paths| == |texts| && k < |paths|
    ensures Store(files, paths[..k + 1], texts[..k + 1]) == Store(files, paths[..k], texts[..k])[paths[k] := texts[k]]
  {
    assert paths[..k + 1][..k] == paths[..k] && texts[..k + 1][..k] == texts[..k];
  }

  /** The file of each module of `order`. */
  function ModulePaths(dir: string, order: seq<string>): seq<string>
  {
    seq(|order|, k requires 0 <= k < |order| => ModuleFilePath(dir, order[k]))
  }

  /** The content of each module's file. */
  function ModuleTexts(order: seq<string>, functions: seq<Method>): seq<string>
  {
    seq(|order|, k requires 0 <= k < |order| => ModuleFileContent(order[k], Group(functions, order[k])))
  }

  /** The files after the module files of `order` were written one by one. */
  function WriteModules(files: map<string, string>, dir: string, order: seq<string>,
                        functions: seq<Method>): map<string, string>
  {
    Store(files, ModulePaths(dir, order), ModuleTexts(order, functions))
  }

  /** The position of the first path that cannot be opened, or the number
      of paths when all can. */
  function FirstUnwritable(paths: seq<string>, unwritable: set<string>): (j: nat)
    ensures j <= |paths|
    ensures forall k :: 0 <= k < j ==> paths[k] !in unwritable
    ensures j < |paths| ==> paths[j] in unwritable
  {
    if paths == [] then 0
    else if paths[0] in unwritable then 0
    else 1 + FirstUnwritable(paths[1..], unwritable)
  }

  /** `generatePhpFile`: one file per module, in the order the modules
      first appear; the first file that cannot be opened stops the run with
      a `RuntimeException` naming the directory, and the files written
      before it stay written. */
  method GeneratePhpFile(fs: FileSystem, functions: seq<Method>, path: string) returns (r: Outcome)
    modifies fs
    ensures var dir := DirectoryPrefix(path);
      var order := ModuleOrder(functions);
      var j := FirstUnwritable(ModulePaths(dir, order), fs.unwritable);
      fs.files == WriteModules(old(fs.files), dir, order[..j], functions)
      && r == if j == |order| then Done else RuntimeException("Unable to write to " + dir)
  {
    var dir := DirectoryPrefix(path);
    var order, groups := GroupByModule(functions);
    ghost var start := fs.files;
    ghost var paths := ModulePaths(dir, order);
    for k := 0 to |order|
      invariant forall i :: 0 <= i < k ==> paths[i] !in fs.unwritable
      invariant fs.files == WriteModules(start, dir, order[..k], functions)
    {
      var moduleName := order[k];
      assert moduleName in groups;
      var ok := WriteModuleFile(fs, ModuleFilePath(dir, moduleName), moduleName, groups[moduleName]);
      if !ok {
        FirstUnwritableAt(paths, fs.unwritable, k);
        return RuntimeException("Unable to write to " + dir);
      }
      WriteModulesSnoc(start, dir, order, functions, k);
      assert forall i :: 0 <= i < k + 1 ==> paths[i] !in fs.unwritable by {
        assert paths[k] !in fs.unwritable;
      }
    }
    FirstUnwritableAt(paths, fs.unwritable, |order|);
    assert order[..|order|] == order;
    return Done;
  }

  /** Writing one more module file. */
  lemma WriteModulesSnoc(files: map<string, string>, dir: string, order: seq<string>, functions: seq<Method>, k: nat)
    requires k < |order|
    ensures WriteModules(files, dir, order[..k + 1], functions)
      == WriteModules(files, dir, order[..k], functions)[ModuleFilePath(dir, order[k]) := ModuleFileContent(order[k], Group(functions, order[k]))]
  {
    var paths, texts := ModulePaths(dir, order), ModuleTexts(order, functions);
    PrefixWrites(files, dir, order, functions, k);
    PrefixWrites(files, dir, order, functions, k + 1);
    StoreSnoc(files, paths, texts, k);
  }

  /** The first unwritable module is the one at `k` when every earlier one
      is writable and the one at `k` is not (or `k` is past the end). */
  lemma FirstUnwritableAt(paths: seq<string>, unwritable: set<string>, k: nat)
    requires k <= |paths|
    requires forall i :: 0 <= i < k ==> paths[i] !in unwritable
    requires k < |paths| ==> paths[k] in unwritable
    ensures FirstUnwritable(paths, unwritable) == k
  {
  }

  /** The writes of the first `k` modules. */
  lemma PrefixWrites(files: map<string, string>, dir: string, order: seq<string>, functions: seq<Method>, k: nat)
    requires k <= |order|
    ensures WriteModules(files, dir, order[..k], functions)
      == Store(files, ModulePaths(dir, order)[..k], ModuleTexts(order, functions)[..k])
  {
    assert ModulePaths(dir, order[..k]) == ModulePaths(dir, order)[..k];
    assert ModuleTexts(order[..k], functions) == ModuleTexts(order, functions)[..k];
  }

  /** One module's file: opened (truncated), then the preamble and each
      wrapper on its own line; nothing changes when it cannot be opened. */
  method WriteModuleFile(fs: FileSystem, file: string, moduleName: string, phpFunctions: seq<string>)
    returns (ok: bool)
    modifies fs
    ensures ok == (file !in fs.unwritable)
    ensures fs.files == if ok then old(fs.files)[file := ModuleFileContent(moduleName, phpFunctions)] else old(fs.files)
  {
    ok := fs.Open(file);
    if !ok {
      return;
    }
    ghost var before := fs.files;
    ghost var preamble := ModulePreamble(moduleName);
    ghost var lines := WrapperLines(phpFunctions);
    fs.Write(file, ModulePreamble(moduleName));
    assert before[file] + preamble == preamble + Concat(lines[..0]);
    for w := 0 to |phpFunctions|
      invariant fs.files == before[file := preamble + Concat(lines[..w])]
    {
      AppendStep(before, file, preamble, lines, w);
      fs.Write(file, phpFunctions[w] + "\n");
    }
    assert fs.files == old(fs.files)[file := ModuleFileContent(moduleName, phpFunctions)] by {
      assert lines[..|phpFunctions|] == lines;
    }
  }

  /** When no two modules share a file name, every module's file holds
      exactly its preamble and its wrappers, whatever was there before;
      other files are left alone, and no other file is created. */
  lemma WriteModulesEffect(files: map<string, string>, dir: string, order: seq<string>,
                           functions: seq<Method>)
    requires NoSharedFile(order)
    ensures var after := WriteModules(files, dir, order, functions);
      (forall i :: 0 <= i < |order| ==>
         ModuleFilePath(dir, order[i]) in after
         && after[ModuleFilePath(dir, order[i])] == ModuleFileContent(order[i], Group(functions, order[i])))
      && (forall p :: (forall i :: 0 <= i < |order| ==> p != ModuleFilePath(dir, order[i])) ==>
            (p in after <==> p in files) && (p in files ==> after[p] == files[p]))
  {
    var after := WriteModules(files, dir, order, functions);
    forall i | 0 <= i < |order|
      ensures ModuleFilePath(dir, order[i]) in after
        && after[ModuleFilePath(dir, order[i])] == ModuleFileContent(order[i], Group(functions, order[i]))
    {
      WriteModulesAt(files, dir, order, functions, i);
    }
    forall p | forall i :: 0 <= i < |order| ==> p != ModuleFilePath(dir, order[i])
      ensures (p in after <==> p in files) && (p in files ==> after[p] == files[p])
    {
      WriteModulesOther(files, dir, order, functions, p);
    }
  }

  /** A path that is no module's file is not written. */
  lemma WriteModulesOther(files: map<string, string>, dir: string, order: seq<string>,
                          functions: seq<Method>, p: string)
    requires forall i :: 0 <= i < |order| ==> p != ModuleFilePath(dir, order[i])
    ensures var after := WriteModules(files, dir, order, functions);
      (p in after <==> p in files) && (p in files ==> after[p] == files[p])
  {
    var paths, texts := ModulePaths(dir, order), ModuleTexts(order, functions);
    assert p !in paths by {
      forall k | 0 <= k < |paths| ensures paths[k] != p {
        assert paths[k] == ModuleFilePath(dir, order[k]);
      }
    }
    StoreOther(files, paths, texts, p);
  }

  /** No two modules of `order` write the same file: `lcfirst` keeps
      their names apart. */
  ghost predicate NoSharedFile(order: seq<string>)
  {
    forall a, b :: 0 <= a < b < |order| ==> LcFirst(order[a]) != LcFirst(order[b])
  }

  /** The file of the module at `i` holds that module's content. */
  lemma WriteModulesAt(files: map<string, string>, dir: string, order: seq<string>,
                       functions: seq<Method>, i: nat)
    requires i < |order|
    requires NoSharedFile(order)
    ensures var after := WriteModules(files, dir, order, functions);
      ModuleFilePath(dir, order[i]) in after
      && after[ModuleFilePath(dir, order[i])] == ModuleFileContent(order[i], Group(functions, order[i]))
  {
    var paths, texts := ModulePaths(dir, order), ModuleTexts(order, functions);
    forall a, b | 0 <= a < b < |paths| ensures paths[a] != paths[b] {
      ModuleFilePathInjective(dir, order[a], order[b]);
    }
    StoreAt(files, paths, texts, i);
  }

  /** Each function's wrapper text is written to the file of its own
      module, after the wrappers of that module's earlier functions and
      before those of its later ones. */
  lemma WrapperInModuleFile(files: map<string, string>, dir: string, functions: seq<Method>, i: nat)
    requires i < |functions|
    requires NoSharedFile(ModuleOrder(functions))
    ensures var m := functions[i].moduleName;
      var after := WriteModules(files, dir, ModuleOrder(functions), functions);
      ModuleFilePath(dir, m) in after
      && after[ModuleFilePath(dir, m)] ==
         ModulePreamble(m) + Concat(WrapperLines(Group(functions[..i], m)))
         + (functions[i].phpFunction + "\n") + Concat(WrapperLines(Group(functions[i + 1..], m)))
  {
    var m := functions[i].moduleName;
    var order := ModuleOrder(functions);
    ModuleOrderKeys(functions);
    assert m in order;
    var k :| 0 <= k < |order| && order[k] == m;
    WriteModulesAt(files, dir, order, functions, k);
    ModuleContentAround(functions, i);
  }

  /** A module's file content, split around the wrapper of its function at
      `i`. */
  lemma ModuleContentAround(functions: seq<Method>, i: nat)
    requires i < |functions|
    ensures var m := functions[i].moduleName;
      ModuleFileContent(m, Group(functions, m)) ==
        ModulePreamble(m) + Concat(WrapperLines(Group(functions[..i], m)))
        + (functions[i].phpFunction + "\n") + Concat(WrapperLines(Group(functions[i + 1..], m)))
  {
    var m := functions[i].moduleName;
    WrapperInOwnGroup(functions, i, m);
    var before, later := Group(functions[..i], m), Group(functions[i + 1..], m);
    ModuleFileContentAppend(m, before + [functions[i].phpFunction], later);
    ModuleFileContentAppend(m, before, [functions[i].phpFunction]);
    assert Concat(WrapperLines([functions[i].phpFunction])) == functions[i].phpFunction + "\n" by {
      assert WrapperLines([functions[i].phpFunction]) == [functions[i].phpFunction + "\n"];
      ConcatCons(functions[i].phpFunction + "\n", []);
    }
  }

  /** The file of the last module of `order` holds that module's content,
      whichever earlier module shares its file name. */
  lemma LastModuleFileWins(files: map<string, string>, dir: string, order: seq<string>, functions: seq<Method>)
    requires order != []
    ensures var m := order[|order| - 1];
      var after := WriteModules(files, dir, order, functions);
      ModuleFilePath(dir, m) in after && after[ModuleFilePath(dir, m)] == ModuleFileContent(m, Group(functions, m))
  {
    var n := |order| - 1;
    var paths, texts := ModulePaths(dir, order), ModuleTexts(order, functions);
    assert Store(files, paths, texts) == Store(files, paths[..n], texts[..n])[paths[n] := texts[n]];
  }

  /** Two modules whose names differ only in the case of the first letter
      share one file, and the later one's wrappers replace the earlier's. */
  lemma CollidingModulesShareFile(files: map<string, string>, dir: string, a: Method, b: Method)
    requires a.moduleName == "Zip" && b.moduleName == "zip"
    ensures ModuleFilePath(dir, "Zip") == ModuleFilePath(dir, "zip")
    ensures var after := WriteModules(files, dir, ModuleOrder([a, b]), [a, b]);
      ModuleFilePath(dir, "Zip") in after && after[ModuleFilePath(dir, "Zip")] == ModuleFileContent("zip", [b.phpFunction])
  {
    ZipBeforeLowerZip(a, b);
    LastModuleFileWins(files, dir, ["Zip", "zip"], [a, b]);
    ModuleFilePathInjective(dir, "Zip", "zip");
    assert LcFirst("Zip") == "zip" == LcFirst("zip");
  }

  lemma ZipBeforeLowerZip(a: Method, b: Method)
    requires a.moduleName == "Zip" && b.moduleName == "zip"
    ensures ModuleOrder([a, b]) == ["Zip", "zip"]
    ensures Group([a, b], "zip") == [b.phpFunction]
  {
    assert [a, b][..1] == [a] && [a][..0] == [];
    assert ModuleOrder([a]) == ["Zip"];
    assert Group([a], "zip") == [];
  }

  // ---- getFunctionsNameList, generateFunctionsList, generateRectorFileForZeroPointSeven ----

  /** `generateFunctionsList`: the eligible names as a PHP array literal. */
  method GenerateFunctionsList(fs: FileSystem, functions: seq<Method>, specialCases: seq<string>,
                               excluded: seq<string>, le: (string, string) -> bool, path: string)
    returns (r: Outcome)
    modifies fs
    ensures r == if path in fs.unwritable then RuntimeException("Unable to write to " + path) else Done
    ensures fs.files == if path in fs.unwritable then old(fs.files)
      else old(fs.files)[path := FunctionsListText(FunctionsNameList(functions, specialCases, excluded, le))]
  {
    r := WriteFunctionsList(fs, FunctionsNameList(functions, specialCases, excluded, le), path);
  }

  /** The body of `generateFunctionsList` once the names are known. */
  method WriteFunctionsList(fs: FileSystem, functionNames: seq<string>, path: string) returns (r: Outcome)
    modifies fs
    ensures r == if path in fs.unwritable then RuntimeException("Unable to write to " + path) else Done
    ensures fs.files == if path in fs.unwritable then old(fs.files) else old(fs.files)[path := FunctionsListText(functionNames)]
  {
    var ok := fs.Open(path);
    if !ok {
      return RuntimeException("Unable to write to " + path);
    }
    ghost var before := fs.files;
    ghost var entries := ListEntries(functionNames);
    fs.Write(path, ListHeader);
    StartStep(before, path, ListHeader, entries);
    for i := 0 to |functionNames|
      invariant fs.files == before[path := ListHeader + Concat(entries[..i])]
    {
      AppendStep(before, path, ListHeader, entries, i);
      fs.Write(path, ListEntry(functionNames[i]));
    }
    FinishStep(before, path, ListHeader, entries, ListFooter);
    fs.Write(path, ListFooter);
    return Done;
  }

  /** `generateRectorFileForZeroPointSeven`: each eligible name mapped to
      its `Safe\` counterpart, inside rector's configuration boilerplate. */
  method GenerateRectorFile(fs: FileSystem, functions: seq<Method>, specialCases: seq<string>,
                            excluded: seq<string>, le: (string, string) -> bool, path: string)
    returns (r: Outcome)
    modifies fs
    ensures r == if path in fs.unwritable then RuntimeException("Unable to write to " + path) else Done
    ensures fs.files == if path in fs.unwritable then old(fs.files)
      else old(fs.files)[path := RectorConfigText(FunctionsNameList(functions, specialCases, excluded, le))]
  {
    r := WriteRectorFile(fs, FunctionsNameList(functions, specialCases, excluded, le), path);
  }

  /** The body of `generateRectorFileForZeroPointSeven` once the names are
      known. */
  method WriteRectorFile(fs: FileSystem, functionNames: seq<string>, path: string) returns (r: Outcome)
    modifies fs
    ensures r == if path in fs.unwritable then RuntimeException("Unable to write to " + path) else Done
    ensures fs.files == if path in fs.unwritable then old(fs.files) else old(fs.files)[path := RectorConfigText(functionNames)]
  {
    var ok := fs.Open(path);
    if !ok {
      return RuntimeException("Unable to write to " + path);
    }
    ghost var before := fs.files;
    ghost var entries := RectorEntries(functionNames);
    fs.Write(path, RectorHeader);
    StartStep(before, path, RectorHeader, entries);
    for i := 0 to |functionNames|
      invariant fs.files == before[path := RectorHeader + Concat(entries[..i])]
    {
      AppendStep(before, path, RectorHeader, entries, i);
      fs.Write(path, RectorEntry(functionNames[i]));
    }
    FinishStep(before, path, RectorHeader, entries, RectorFooter);
    fs.Write(path, RectorFooter);
    return Done;
  }

  /** Appending the next fragment to a file that holds a header and the
      fragments before it. */
  lemma AppendStep(files: map<string, string>, path: string, header: string, entries: seq<string>, i: nat)
    requires i < |entries|
    ensures var text := header + Concat(entries[..i]);
      files[path := text][path := files[path := text][path] + entries[i]]
        == files[path := header + Concat(entries[..i + 1])]
  {
    ConcatSnoc(entries, i);
    assert header + Concat(entries[..i]) + entries[i] == header + Concat(entries[..i + 1]);
  }

  /** Writing the header to a freshly truncated file. */
  lemma StartStep(files: map<string, string>, path: string, header: string, entries: seq<string>)
    requires path in files && files[path] == ""
    ensures files[path := files[path] + header] == files[path := header + Concat(entries[..0])]
  {
    assert entries[..0] == [];
    assert Concat([]) == [];
    assert files[path] + header == header + Concat(entries[..0]);
  }

  /** Writing the footer after every fragment. */
  lemma FinishStep(files: map<string, string>, path: string, header: string, entries: seq<string>, footer: string)
    ensures var text := header + Concat(entries[..|entries|]);
      files[path := text][path := files[path := text][path] + footer]
        == files[path := header + Concat(entries) + footer]
  {
    assert entries[..|entries|] == entries;
  }

  /** For plain names (non-empty, with no quote, backslash or NUL), the
      list file and the rector configuration both read back as the
      eligible-name list, so they name the same functions in the same
      order. */
  lemma GeneratedListsAgree(functions: seq<Method>, specialCases: seq<string>,
                            excluded: seq<string>, le: (string, string) -> bool)
    requires forall n :: n in FunctionNames(functions) + specialCases ==> PlainName(n) && '\0' !in n
    ensures var names := FunctionsNameList(functions, specialCases, excluded, le);
      ParseFunctionsList(FunctionsListText(names)) == Some(names)
      && ParseRectorConfig(RectorConfigText(names)) == Some(names)
  {
    var merged := FunctionNames(functions) + specialCases;
    var names := FunctionsNameList(functions, specialCases, excluded, le);
    forall n | n in names ensures PlainName(n) && '\0' !in n {
      assert multiset(names)[n] > 0;
      assert multiset(merged)[n] > 0;
    }
    SerialisedFilesAgree(names);
  }

  // ---- createExceptionFile ----

  /** Where a hand-written exception class lives, relative to the
      repository root. */
  function LibExceptionPath(exceptionName: string): string
  {
    "lib/Exceptions/" + exceptionName + ".php"
  }

  /** Where a generated exception class is written. */
  function GeneratedExceptionPath(exceptionName: string): string
  {
    "generated/Exceptions/" + exceptionName + ".php"
  }

  /** The files after `createExceptionFile(moduleName)`. */
  function AfterCreateExceptionFile(files: map<string, string>, unwritable: set<string>,
                                    moduleName: string): map<string, string>
  {
    var name := ToExceptionName(moduleName);
    if LibExceptionPath(name) in files || GeneratedExceptionPath(name) in unwritable then files
    else files[GeneratedExceptionPath(name) := ExceptionClassText(name)]
  }

  /** `createExceptionFile`: writes the exception class of the module
      unless a hand-written one exists under `lib/`. */
  method CreateExceptionFile(fs: FileSystem, moduleName: string)
    modifies fs
    ensures fs.files == AfterCreateExceptionFile(old(fs.files), fs.unwritable, moduleName)
  {
    var exceptionName := ToExceptionName(moduleName);
    if !fs.Exists(LibExceptionPath(exceptionName)) {
      fs.PutContents(GeneratedExceptionPath(exceptionName), ExceptionClassText(exceptionName));
    }
  }

  /** The generated file is never under `lib/`. */
  lemma ExceptionPathsDiffer(a: string, b: string)
    ensures LibExceptionPath(a) != GeneratedExceptionPath(b)
  {
    assert LibExceptionPath(a)[0] == 'l';
    assert GeneratedExceptionPath(b)[0] == 'g';
  }

  /** A hand-written exception class suppresses generation: nothing
      changes. */
  lemma HandWrittenExceptionKept(files: map<string, string>, unwritable: set<string>, moduleName: string)
    requires LibExceptionPath(ToExceptionName(moduleName)) in files
    ensures AfterCreateExceptionFile(files, unwritable, moduleName) == files
  {
  }

  /** Otherwise the generated class replaces whatever the generated file
      held, and every other file keeps its content; in particular no file
      under `lib/` ever changes. */
  lemma GeneratedExceptionWritten(files: map<string, string>, unwritable: set<string>, moduleName: string)
    ensures var name := ToExceptionName(moduleName);
      var after := AfterCreateExceptionFile(files, unwritable, moduleName);
      (LibExceptionPath(name) !in files && GeneratedExceptionPath(name) !in unwritable ==>
         after == files[GeneratedExceptionPath(name) := ExceptionClassText(name)])
      && (forall p :: p != GeneratedExceptionPath(name) ==> (p in after <==> p in files) && (p in files ==> after[p] == files[p]))
      && (forall e :: LibExceptionPath(e) in after <==> LibExceptionPath(e) in files)
  {
    var name := ToExceptionName(moduleName);
    forall e ensures LibExceptionPath(e) != GeneratedExceptionPath(name) {
      ExceptionPathsDiffer(e, name);
    }
  }

  /** Creating the exception file twice is the same as creating it once. */
  lemma CreateExceptionFileIdempotent(files: map<string, string>, unwritable: set<string>, moduleName: string)
    ensures var once := AfterCreateExceptionFile(files, unwritable, moduleName);
      AfterCreateExceptionFile(once, unwritable, moduleName) == once
  {
    ExceptionPathsDiffer(ToExceptionName(moduleName), ToExceptionName(moduleName));
  }

  /** A generated exception class is rewritten on every run: an earlier
      version in `generated/Exceptions/` does not survive. */
  lemma GeneratedExceptionOverwritten(unwritable: set<string>)
    requires GeneratedExceptionPath("GettextException") !in unwritable
    ensures var files := map[GeneratedExceptionPath("GettextException") := "edited by hand"];
      AfterCreateExceptionFile(files, unwritable, "Gettext")[GeneratedExceptionPath("GettextException")]
        == ExceptionClassText("GettextException")
  {
    GettextModule();
    ExceptionPathsDiffer("GettextException", "GettextException");
  }
}
