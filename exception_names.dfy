/** `FileCreator::toExceptionName`: the name of the exception class a module's
    wrappers throw. */
module ExceptionNames {
  import opened PhpStrings

  const Suffix: string := "Exception"

  /** `ucfirst` first, then every `-` deleted, then `Exception` appended. */
  function ToExceptionName(moduleName: string): (r: string)
    ensures |r| == |moduleName| - Count(moduleName, '-') + |Suffix|
    ensures r[|r| - |Suffix|..] == Suffix
    ensures '-' !in r[..|r| - |Suffix|]
    ensures r[..|r| - |Suffix|] == DeleteChar(UcFirst(moduleName), '-')
  {
    var u := UcFirst(moduleName);
    assert Count(u, '-') == Count(moduleName, '-') by {
      if moduleName != [] {
        assert u[1..] == moduleName[1..];
        assert u[0] == '-' <==> moduleName[0] == '-';
      }
    }
    var stem := DeleteChar(u, '-');
    assert (stem + Suffix)[..|stem|] == stem;
    stem + Suffix
  }

  /** The class-name stem: the exception name without its suffix. */
  function Stem(moduleName: string): (r: string)
    ensures '-' !in r
    ensures ToExceptionName(moduleName) == r + Suffix
  {
    var e := ToExceptionName(moduleName);
    assert e == e[..|e| - |Suffix|] + e[|e| - |Suffix|..];
    e[..|e| - |Suffix|]
  }

  /** A module name that is already capitalised and has no `-` (as the
      documentation's module names are) maps to itself plus the suffix. */
  lemma PlainModuleName(moduleName: string)
    requires '-' !in moduleName
    requires moduleName == [] || !('a' <= moduleName[0] <= 'z')
    ensures ToExceptionName(moduleName) == moduleName + Suffix
  {
  }

  /** `Filesystem` gives `FilesystemException`, the class the filesystem
      wrappers import. */
  lemma FilesystemModule()
    ensures ToExceptionName("Filesystem") == "FilesystemException"
  {
    calc {
      ToExceptionName("Filesystem");
      { PlainModuleName("Filesystem"); }
      "Filesystem" + Suffix;
      "FilesystemException";
    }
  }

  /** `Gettext` gives `GettextException`, the class the gettext wrappers
      import. */
  lemma GettextModule()
    ensures ToExceptionName("Gettext") == "GettextException"
  {
    calc {
      ToExceptionName("Gettext");
      { PlainModuleName("Gettext"); }
      "Gettext" + Suffix;
      "GettextException";
    }
  }

  /** A lower-case first letter is capitalised; dashes anywhere vanish. */
  lemma DashedModuleName()
    ensures ToExceptionName("mb-string") == "MbstringException"
  {
    calc {
      ToExceptionName("mb-string");
      DeleteChar(UcFirst("mb-string"), '-') + Suffix;
      { assert UcFirst("mb-string") == "Mb-string"; }
      DeleteChar("Mb-string", '-') + Suffix;
      { DashDeletedFromMbString(); }
      "Mbstring" + Suffix;
      "MbstringException";
    }
  }

  lemma DashDeletedFromMbString()
    ensures DeleteChar("Mb-string", '-') == "Mbstring"
  {
    calc {
      DeleteChar("Mb-string", '-');
      { assert "Mb-string" == "Mb" + "-" + "string"; }
      DeleteChar("Mb" + "-" + "string", '-');
      { DeleteCharAppend("Mb" + "-", "string", '-');
        DeleteCharAppend("Mb", "-", '-'); }
      DeleteChar("Mb", '-') + DeleteChar("-", '-') + DeleteChar("string", '-');
      "Mb" + "" + "string";
      "Mbstring";
    }
  }

  /** Because `ucfirst` runs before the dashes are deleted, a module name
      starting with `-` keeps its next letter in lower case. */
  lemma LeadingDashNotCapitalised()
    ensures ToExceptionName("-abc") == "abcException"
  {
    calc {
      ToExceptionName("-abc");
      Stem("-abc") + Suffix;
      DeleteChar(UcFirst("-abc"), '-') + Suffix;
      { assert UcFirst("-abc") == "-" + "abc"; }
      DeleteChar("-" + "abc", '-') + Suffix;
      { DeleteCharAppend("-", "abc", '-'); }
      DeleteChar("-", '-') + DeleteChar("abc", '-') + Suffix;
      "" + "abc" + Suffix;
      "abcException";
    }
  }

  /** Feeding the stem back in gives the same class name, unless the module
      name starts with `-` (then the stem's first letter is capitalised a
      second time). */
  lemma {:induction false} StemIsFixedPoint(moduleName: string)
    requires moduleName == [] || moduleName[0] != '-'
    ensures ToExceptionName(Stem(moduleName)) == ToExceptionName(moduleName)
  {
    var s := Stem(moduleName);
    if moduleName != [] {
      var u := UcFirst(moduleName);
      assert u == [u[0]] + u[1..];
      DeleteCharAppend([u[0]], u[1..], '-');
      assert DeleteChar([u[0]], '-') == [u[0]];
      assert s[0] == u[0];
      assert !('a' <= s[0] <= 'z');
      PlainModuleName(s);
    }
  }
}
