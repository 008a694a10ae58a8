# Safe generator: the file creator

This project is a Dafny model of `Safe\FileCreator`, the output stage of the
generator of the `thecodingmachine/safe` PHP library. The generator reads the
PHP documentation and produces, for every PHP function that signals failure by
returning `false`, a wrapper that throws an exception instead. `FileCreator`
writes four kinds of file:

- one module file per PHP module (`generated/<lcfirst(module)>.php`): a fixed
  preamble importing the module's exception class, then every wrapper of that
  module, each followed by a newline;
- the list of handled function names, as a PHP array literal;
- the rename configuration for rector, which maps each handled function `f`
  to `Safe\f`;
- one exception class per module (`generated/Exceptions/<Name>.php`), unless
  a hand-written one exists under `lib/Exceptions/`.

The modules follow the structure of the PHP class:

| module | file | what it holds |
|---|---|---|
| `PhpStrings` | php_strings.dfy | `ucfirst`, `lcfirst`, `str_replace` of one character, `rtrim`, `var_export` of a string, and a reader for single-quoted literals |
| `ExceptionNames` | exception_names.dfy | `toExceptionName` |
| `Signatures` | signatures.dfy | the `Method` record: function name, module name, wrapper text |
| `NameList` | name_list.dfy | `getFunctionsNameList` (`array_map`, `array_merge`, `natcasesort`, `array_diff`) and the exclusion list |
| `Grouping` | grouping.dfy | the `$phpFunctionsByModule` dictionary of `generatePhpFile` |
| `Emission` | emission.dfy | the exact texts written, with readers for the two name files |
| `Files` | files.dfy | the file system as a class: `fopen`/`fwrite`, `file_exists`, `file_put_contents` |
| `FileCreator` | file_creator.dfy | the four public operations that write files, as methods over `Files.FileSystem` (the fifth, `toExceptionName`, is the function `ExceptionNames.ToExceptionName`) |

The loops of the PHP code stay loops in the model:

- the dictionary-building loop is `Grouping.GroupByModule`;
- the nested write loops of `generatePhpFile` are `FileCreator.GeneratePhpFile` and `FileCreator.WriteModuleFile`;
- the loops of the two serialisers are `FileCreator.WriteFunctionsList` and `FileCreator.WriteRectorFile`.

Each of these methods is proved against a specification function, and the
properties are proved as lemmas about those functions. Examples of such
functions are `Grouping.ModuleOrder`, `Grouping.Group`,
`FileCreator.WriteModules` and `Emission.FunctionsListText`.

Some behaviours of the code are easy to miss:

- The eligible-name list can hold duplicates. The code merges the function
  table with the special cases and never removes duplicates, so a name in
  both is listed twice (`NameList.DuplicateNameKept`). The list is free of
  duplicates only when the inputs are (`NameList.FunctionsNameListDistinct`).
- A generated exception class is overwritten on every run. The code checks
  for a hand-written class under `lib/Exceptions/` but writes under
  `generated/Exceptions/`. So a class generated by an earlier run is
  overwritten (`FileCreator.GeneratedExceptionOverwritten`), and only a
  hand-written one suppresses generation (`FileCreator.HandWrittenExceptionKept`).
- `toExceptionName` applies `ucfirst` before deleting dashes. In a module name
  that starts with `-`, the character after the dash is therefore not capitalised
  (`ExceptionNames.LeadingDashNotCapitalised`).
- The list file escapes each name with `var_export`, but the rename
  configuration interpolates it raw. A name holding a backslash pair is
  listed as itself and renamed as a different name
  (`Emission.BackslashNameListed`, `Emission.BackslashNameMisread`).

## Model

| member | source | states |
|---|---|---|
| ExceptionNames.ToExceptionName | generator/src/FileCreator.php:156-159 | the name ends in `Exception`; the part before it has no `-` and is `ucfirst(m)` with the dashes deleted; its length is `|m|` minus the number of dashes plus 9 |
| ExceptionNames.Stem | generator/src/FileCreator.php:158 | the class name is a dash-free stem followed by `Exception` |
| ExceptionNames.PlainModuleName | generator/src/FileCreator.php:156-159 | a capitalised module name without dashes maps to itself plus `Exception` |
| ExceptionNames.FilesystemModule | generated/filesystem.php:5 | module `Filesystem` imports `FilesystemException` |
| ExceptionNames.GettextModule | generated/gettext.php:5 | module `Gettext` imports `GettextException` |
| ExceptionNames.DashedModuleName | generator/src/FileCreator.php:158 | `mb-string` gives `MbstringException`: first letter capitalised, dash removed |
| ExceptionNames.LeadingDashNotCapitalised | generator/src/FileCreator.php:158 | `-abc` gives `abcException`, because `ucfirst` runs before the dash is deleted |
| ExceptionNames.StemIsFixedPoint | generator/src/FileCreator.php:156-159 | for a module name not starting with `-`, converting the stem again gives the same class name |
| PhpStrings.ToUpper | generator/src/FileCreator.php:158 | a lower-case ASCII letter moves 32 code points down to its capital; any other character is unchanged |
| PhpStrings.ToLower | generator/src/FileCreator.php:27 | a capital ASCII letter moves 32 code points up to its lower-case letter; any other character is unchanged |
| PhpStrings.UcFirst | generator/src/FileCreator.php:158 | `ucfirst` keeps the length and the tail, and its first character is the upper-cased first character of the input |
| PhpStrings.LcFirst | generator/src/FileCreator.php:27 | `lcfirst` keeps the length and the tail, and its first character is the lower-cased first character of the input |
| PhpStrings.LcFirstUndoesUcFirst | generator/src/FileCreator.php:27 | `lcfirst` undoes `ucfirst` on a name starting with a lower-case letter |
| PhpStrings.DeleteChar | generator/src/FileCreator.php:158 | `str_replace('-', '', s)` leaves no `-`, shortens `s` by the number of dashes, and leaves a dash-free string unchanged |
| PhpStrings.DeleteCharAppend | generator/src/FileCreator.php:158 | deleting a character distributes over concatenation |
| PhpStrings.RTrim | generator/src/FileCreator.php:19 | `rtrim` gives a prefix that does not end in the character; everything removed was that character |
| PhpStrings.Escape | generator/src/FileCreator.php:77 | escaping never shortens, and a string without quotes, backslashes or NUL bytes is unchanged |
| PhpStrings.VarExport | generator/src/FileCreator.php:77 | `var_export` of a string is enclosed in single quotes |
| PhpStrings.ReadQuotedEscape | generator/src/FileCreator.php:77 | reading an escaped single-quoted body back gives the original string and stops after the closing quote |
| PhpStrings.ReadQuotedPrefix | generator/src/FileCreator.php:119 | text with no quote and no escaping backslash, at the start of a single-quoted literal, reads as itself |
| PhpStrings.ReadQuotedUnescaped | generator/src/FileCreator.php:119 | such text interpolated between quotes reads back as itself and stops after the closing quote |
| PhpStrings.ConcatAppend | generator/src/FileCreator.php:37-39 | the text of successive writes of `a + b` is the text of `a` followed by that of `b` |
| Signatures.FunctionNames | generator/src/FileCreator.php:50-52 | `array_map` of `getFunctionName` has one name per function, and every function's name is among them |
| NameList.IgnoredFunctions | generator/config/ignoredFunctions.php:2-22 | defines the exclusion list: the seventeen names of the configuration file, in its order |
| NameList.Insert | generator/src/FileCreator.php:55 | inserting adds exactly one occurrence of the name |
| NameList.Sort | generator/src/FileCreator.php:55 | `natcasesort` is a permutation of its input |
| NameList.Exclude | generator/src/FileCreator.php:57 | `array_diff` keeps no excluded name and keeps every other name with its multiplicity |
| NameList.FunctionsNameList | generator/src/FileCreator.php:48-57 | no excluded name appears; every other name of the table and of the special cases appears exactly as often as in their merge; none is lost |
| NameList.InsertSorted | generator/src/FileCreator.php:55 | inserting into a sorted list keeps it sorted |
| NameList.SortSorted | generator/src/FileCreator.php:55 | `natcasesort` output is ordered by the case-insensitive comparison |
| NameList.SortOfSorted | generator/src/FileCreator.php:55 | sorting an already ordered list leaves it unchanged |
| NameList.ExcludeSorted | generator/src/FileCreator.php:57 | removing excluded names keeps the order |
| NameList.FunctionsNameListSorted | generator/src/FileCreator.php:55-57 | the eligible-name list is ordered by the case-insensitive comparison |
| NameList.FunctionsNameListDistinct | generator/src/FileCreator.php:54-57 | the list repeats no name when the table and the special cases together repeat none |
| NameList.DuplicateNameKept | generator/src/FileCreator.php:54-57 | a special case equal to a table name is listed twice |
| NameList.IgnoredNeverListed | generator/config/ignoredFunctions.php:17-20 | `readdir` and `array_multisort` are never listed |
| Grouping.ModuleOrder | generator/src/FileCreator.php:20-24 | defines the keys of `$phpFunctionsByModule`: each module in the order it first appears |
| Grouping.Group | generator/src/FileCreator.php:20-24 | defines the wrappers a module's entry holds, in the order of the functions |
| Grouping.ModuleOrderKeys | generator/src/FileCreator.php:20-24 | the dictionary has a key for exactly the modules of the functions, each once |
| Grouping.GroupNonEmpty | generator/src/FileCreator.php:23 | a module's group is non-empty exactly when the module is a key |
| Grouping.GroupSnoc | generator/src/FileCreator.php:23 | one more function appends its wrapper to its own module's group and changes no other group |
| Grouping.GroupAppend | generator/src/FileCreator.php:21-24 | grouping a concatenation concatenates the groups |
| Grouping.WrapperInOwnGroup | generator/src/FileCreator.php:21-24 | each wrapper lands in its own module's group, between that module's earlier and later wrappers, and in no other group |
| Grouping.GroupsInOrderSnoc | generator/src/FileCreator.php:21-24 | one more function adds its wrapper to exactly one group |
| Grouping.GroupsPartition | generator/src/FileCreator.php:21-24 | the groups together hold every wrapper exactly once |
| Grouping.ModuleGroupsPartition | generator/src/FileCreator.php:20-26 | the groups of the dictionary's keys together hold every wrapper exactly once |
| Grouping.GroupByModule | generator/src/FileCreator.php:20-24 | the loop builds the keys in first-appearance order, and for each key the group of its module, which is never empty |
| Emission.DirectoryPrefix | generator/src/FileCreator.php:19 | the directory ends in exactly one `/`; the rest is the path with its trailing slashes removed |
| Emission.DirectoryPrefixIdempotent | generator/src/FileCreator.php:19 | normalising twice is normalising once |
| Emission.ModuleFilePath | generator/src/FileCreator.php:27-28 | defines a module's file: the directory, `lcfirst` of the module, `.php` |
| Emission.ModulePreamble | generator/src/FileCreator.php:32-36 | defines the preamble: `<?php`, `namespace Safe;` and the import of the module's exception class |
| Emission.WrapperLines | generator/src/FileCreator.php:38 | defines the lines written for a module: each wrapper followed by a newline |
| Emission.ModuleFileContent | generator/src/FileCreator.php:32-39 | defines the text a module file holds: the preamble, then the wrapper lines in order |
| Emission.ModuleFilePathInjective | generator/src/FileCreator.php:27-28 | two modules share a file exactly when their `lcfirst` names are equal |
| Emission.ModuleFileContentAppend | generator/src/FileCreator.php:37-39 | a module file grows by one line per wrapper |
| Emission.GettextPreamble | generated/gettext.php:1-5 | the `Gettext` module file begins with the five lines of the generated gettext file |
| Emission.ListEntry | generator/src/FileCreator.php:76-78 | defines one line of the list file: four spaces, `var_export` of the name, a comma |
| Emission.FunctionsListText | generator/src/FileCreator.php:74-79 | defines the list file: `return [`, one line per name, `];` |
| Emission.ListEntryOfIdentifier | generator/src/FileCreator.php:77 | a name that needs no escaping is written between plain quotes |
| Emission.FunctionsListRoundTrip | generator/src/FileCreator.php:74-79 | the list file reads back as exactly the names written, in order |
| Emission.ParseListEntriesRoundTrip | generator/src/FileCreator.php:76-78 | the entry lines read back as the names |
| Emission.RectorEntry | generator/src/FileCreator.php:118-120 | defines one rename line: the name and `Safe\` followed by the name, each between quotes, interpolated without escaping |
| Emission.RectorConfigText | generator/src/FileCreator.php:99-122 | defines the rename configuration: the fixed header, one rename line per name, the footer |
| Emission.ParseRectorLine | generator/src/FileCreator.php:119 | a rename line is read as its first literal, provided its second literal is that value in the `Safe` namespace |
| Emission.RectorConfigRoundTrip | generator/src/FileCreator.php:99-122 | for non-empty names with no quote or backslash, the rename configuration, read as PHP reads its literals, gives back exactly the names written, each mapped to its `Safe\` twin |
| Emission.ParseRectorEntriesRoundTrip | generator/src/FileCreator.php:118-120 | for the same names, the rename lines read back as the names |
| Emission.SerialisedFilesAgree | generator/src/FileCreator.php:74-79 | for the same names without NUL bytes, the list file and the rename configuration name the same functions in the same order |
| Emission.BackslashNameListed | generator/src/FileCreator.php:77 | the name `a\\b` is listed as itself, since `var_export` escapes its backslashes |
| Emission.BackslashNameMisread | generator/src/FileCreator.php:119 | the same name is renamed as `a\b`, since the rename line does not escape it |
| Emission.ExceptionClassText | generator/src/FileCreator.php:132-145 | defines the exception class: `Safe\Exceptions\<name>` extending `ErrorException`, built from the last PHP error |
| Emission.ExceptionClassShape | generator/src/FileCreator.php:132-145 | the class file declares the named class and falls back to the message `An error occured` and type 1 |
| Emission.ExceptionClassTextInjective | generator/src/FileCreator.php:132-145 | different class names give different class files |
| Files.FileSystem.Exists | generator/src/FileCreator.php:129 | `file_exists`: the file system holds a file at the path |
| Files.FileSystem.Open | generator/src/FileCreator.php:28-31 | `fopen(..., 'w')` either truncates the file or fails and changes nothing |
| Files.FileSystem.Write | generator/src/FileCreator.php:38 | `fwrite` appends to the file |
| Files.FileSystem.PutContents | generator/src/FileCreator.php:130-131 | `file_put_contents` replaces the file, or changes nothing when it cannot write |
| FileCreator.Outcome | generator/src/FileCreator.php:29-31 | defines the result of a writing operation: done, or the `RuntimeException` thrown when a file cannot be opened (also lines 71-73 and 95-97) |
| FileCreator.StoreAt | generator/src/FileCreator.php:26-41 | with distinct paths, each path holds the text written to it |
| FileCreator.StoreOther | generator/src/FileCreator.php:26-41 | a path not written keeps its content or stays absent |
| FileCreator.WriteModules | generator/src/FileCreator.php:26-41 | defines the files after the module files were written one by one, each replacing what its path held |
| FileCreator.FirstUnwritable | generator/src/FileCreator.php:28-31 | the position of the first file that cannot be opened: every earlier file can be opened |
| FileCreator.GeneratePhpFile | generator/src/FileCreator.php:17-42 | module files are written in first-appearance order up to the first that cannot be opened; the run then ends with `Unable to write to <dir>`, and earlier files stay written |
| FileCreator.WriteModuleFile | generator/src/FileCreator.php:28-40 | a module file is truncated, then holds the preamble and each wrapper on its own line |
| FileCreator.WriteModulesEffect | generator/src/FileCreator.php:26-41 | if no two modules share a file, each module's file holds exactly its preamble and its wrappers, and no other file changes or appears |
| FileCreator.WriteModulesOther | generator/src/FileCreator.php:26-41 | a path that is no module's file keeps its content, or stays absent |
| FileCreator.WriteModulesAt | generator/src/FileCreator.php:26-41 | when no two modules' `lcfirst` names are equal, the file of each module holds that module's content |
| FileCreator.WrapperInModuleFile | generator/src/FileCreator.php:21-39 | when no two modules' `lcfirst` names are equal, each wrapper is written to its own module's file, between that module's earlier and later wrappers |
| FileCreator.ModuleContentAround | generator/src/FileCreator.php:32-39 | a module file is the preamble, then its earlier wrappers, then this one, then its later ones |
| FileCreator.LastModuleFileWins | generator/src/FileCreator.php:26-41 | the last module written owns its file, whichever earlier module shares the name |
| FileCreator.CollidingModulesShareFile | generator/src/FileCreator.php:27-28 | modules `Zip` and `zip` write the same file, and the later one's content replaces the earlier |
| FileCreator.GenerateFunctionsList | generator/src/FileCreator.php:67-81 | the file holds the list text of the eligible names, or the run fails with `Unable to write to <path>` and nothing changes |
| FileCreator.WriteFunctionsList | generator/src/FileCreator.php:70-80 | the write loop produces exactly the header, one line per name, and the footer |
| FileCreator.GenerateRectorFile | generator/src/FileCreator.php:89-124 | the file holds the rename configuration of the eligible names, or the run fails and nothing changes |
| FileCreator.WriteRectorFile | generator/src/FileCreator.php:93-123 | the write loop produces exactly the header, one rename line per name, and the footer |
| FileCreator.GeneratedListsAgree | generator/src/FileCreator.php:69-122 | for non-empty names without quotes, backslashes or NUL bytes, both files read back as the eligible-name list |
| FileCreator.LibExceptionPath | generator/src/FileCreator.php:129 | defines the path checked for a hand-written class, under `lib/Exceptions/` |
| FileCreator.GeneratedExceptionPath | generator/src/FileCreator.php:131 | defines the path the generated class is written to, under `generated/Exceptions/` |
| FileCreator.AfterCreateExceptionFile | generator/src/FileCreator.php:126-148 | defines the files after the call: unchanged if the hand-written class exists or the generated path cannot be written, otherwise the generated path holds the class |
| FileCreator.CreateExceptionFile | generator/src/FileCreator.php:126-148 | the file system after the call is the create-if-absent update |
| FileCreator.ExceptionPathsDiffer | generator/src/FileCreator.php:129-131 | the path checked under `lib/` is never the path written under `generated/` |
| FileCreator.HandWrittenExceptionKept | generator/src/FileCreator.php:129 | a hand-written class under `lib/Exceptions/` suppresses generation: nothing changes |
| FileCreator.GeneratedExceptionWritten | generator/src/FileCreator.php:129-146 | otherwise the generated file holds the class; every other file, including everything under `lib/`, is unchanged |
| FileCreator.CreateExceptionFileIdempotent | generator/src/FileCreator.php:126-148 | creating the exception file twice is the same as creating it once |
| FileCreator.GeneratedExceptionOverwritten | generator/src/FileCreator.php:129-131 | a class generated by an earlier run (even edited by hand) is overwritten |

## Left out

- `WritePhpFunction::getPhpFunctionalFunction` and the `Method` class are not part of this model. Each function's wrapper text, name and module are given as the fields of `Signatures.Method`.
- `generator/config/specialCasesFunctions.php` is not part of this model. The special-case names are a parameter.
- The exclusion list is a parameter of `NameList.FunctionsNameList`. `NameList.IgnoredFunctions` is the list of `generator/config/ignoredFunctions.php`.
- NameList.Sort: `strnatcasecmp` is left abstract. It is the parameter `le`, required to be a total preorder for the ordering lemmas. The sort keeps equivalent names in input order, as PHP's sorts do since PHP 8.0. Before PHP 8.0 the order among names that compare equal was undefined, and the model does not cover those versions.
- NameList.FunctionsNameList: `natcasesort` and `array_diff` keep the original array keys. The model keeps only the order of the values, which is what the `foreach` loops of the writers see.
- PhpStrings.UcFirst, PhpStrings.LcFirst: only ASCII letters change case, as with PHP's locale-independent byte functions. Multibyte text is read one character per byte.
- PhpStrings.VarExport: the NUL-byte splice is written out. The list file's read-back lemmas require names without NUL bytes, as PHP function names have.
- Emission.ParseRectorEntriesRoundTrip: the rename line interpolates the name without escaping, so the read-back holds only for non-empty names with no quote and no backslash. Every PHP function name is such a name. A name with a backslash pair is misread (`Emission.BackslashNameMisread`); a name with a quote, or an empty name, breaks the literal.
- Emission.RectorConfigRoundTrip: holds only for the names of `Emission.ParseRectorEntriesRoundTrip`, for the same reason.
- Emission.SerialisedFilesAgree: holds only for those names, since it rests on the rename configuration's read-back.
- FileCreator.GeneratedListsAgree: holds only for those names, since it rests on the rename configuration's read-back.
- Files.FileSystem.Open: the reason `fopen` fails (a missing directory, missing permission) is left out. The set `unwritable` of paths that cannot be opened is fixed for the run.
- Files.FileSystem.Write: a partial or failed `fwrite`, and `fclose`, are not modelled. The code ignores their results.
- Files.FileSystem.Exists: `file_exists` is true only for files that the map holds. Directories are not modelled.
- The paths of `createExceptionFile` are relative to the repository root rather than to `__DIR__`.
- The `generated/*.php` wrapper files serve only as examples of the module preamble. The wrappers' own logic (`error_clear_last`, the call, the `false` check) belongs to the emitted code, not to `FileCreator`.
- `generator/tests/DateTimeImmutableTest.php` tests `lib/DateTimeImmutable.php`, which is not part of this model.
- `lib/Exceptions/CurlException.php` is a hand-written class over `curl_error`. It matters here only as a file that suppresses generation.
- The text of the exception class is fixed data. `error_get_last` inside it is not behaviour of the generator.
