/** The few PHP string primitives the generator relies on, on ASCII text:
    `ucfirst`, `lcfirst`, `str_replace` of one character by nothing, `rtrim`
    with one character, `var_export` of a string, and the reading of a
    single-quoted PHP literal back (the inverse `var_export` is checked
    against). Strings are `seq<char>`; PHP's byte strings are read one char
    per byte. */
module PhpStrings {

  /** PHP's locale-independent `toupper` on one byte. */
  function ToUpper(c: char): (u: char)
    ensures !('a' <= u <= 'z')
    ensures 'a' <= c <= 'z' ==> u as int == c as int - 32
    ensures !('a' <= c <= 'z') ==> u == c
  {
    if 'a' <= c <= 'z' then (c as int - 32) as char else c
  }

  /** PHP's locale-independent `tolower` on one byte. */
  function ToLower(c: char): (l: char)
    ensures !('A' <= l <= 'Z')
    ensures 'A' <= c <= 'Z' ==> l as int == c as int + 32
    ensures !('A' <= c <= 'Z') ==> l == c
  {
    if 'A' <= c <= 'Z' then (c as int + 32) as char else c
  }

  /** `ucfirst`: upper-case the first character, keep the rest. */
  function UcFirst(s: string): (r: string)
    ensures |r| == |s|
    ensures |s| > 0 ==> r[0] == ToUpper(s[0]) && r[1..] == s[1..] && !('a' <= r[0] <= 'z')
    ensures |s| > 0 && !('a' <= s[0] <= 'z') ==> r == s
  {
    if s == [] then s else [ToUpper(s[0])] + s[1..]
  }

  /** `lcfirst`: lower-case the first character, keep the rest. */
  function LcFirst(s: string): (r: string)
    ensures |r| == |s|
    ensures |s| > 0 ==> r[0] == ToLower(s[0]) && r[1..] == s[1..] && !('A' <= r[0] <= 'Z')
    ensures |s| > 0 && !('A' <= s[0] <= 'Z') ==> r == s
  {
    if s == [] then s else [ToLower(s[0])] + s[1..]
  }

  /** Upper-casing then lower-casing gives back a lower-case first letter. */
  lemma LcFirstUndoesUcFirst(s: string)
    requires |s| > 0 && 'a' <= s[0] <= 'z'
    ensures LcFirst(UcFirst(s)) == s
  {
  }

  /** `str_replace(c, '', s)`: every occurrence of `c` deleted, the other
      characters kept in order. */
  function DeleteChar(s: string, c: char): (r: string)
    ensures c !in r
    ensures |r| == |s| - Count(s, c)
    ensures c !in s ==> r == s
  {
    if s == [] then []
    else
      assert s == [s[0]] + s[1..];
      (if s[0] == c then [] else [s[0]]) + DeleteChar(s[1..], c)
  }

  /** The number of occurrences of `c` in `s`. */
  function Count(s: string, c: char): (n: nat)
    ensures n <= |s|
    ensures n == 0 <==> c !in s
  {
    if s == [] then 0 else (if s[0] == c then 1 else 0) + Count(s[1..], c)
  }

  /** Deleting a character distributes over concatenation. */
  lemma {:induction false} DeleteCharAppend(a: string, b: string, c: char)
    ensures DeleteChar(a + b, c) == DeleteChar(a, c) + DeleteChar(b, c)
  {
    if a == [] {
      assert a + b == b;
    } else {
      var h := if a[0] == c then [] else [a[0]];
      assert (a + b)[0] == a[0] && (a + b)[1..] == a[1..] + b;
      calc {
        DeleteChar(a + b, c);
        h + DeleteChar(a[1..] + b, c);
        { DeleteCharAppend(a[1..], b, c); }
        h + (DeleteChar(a[1..], c) + DeleteChar(b, c));
        (h + DeleteChar(a[1..], c)) + DeleteChar(b, c);
        DeleteChar(a, c) + DeleteChar(b, c);
      }
    }
  }

  /** `rtrim(s, c)`: drop the trailing run of `c`. */
  function RTrim(s: string, c: char): (r: string)
    ensures |r| <= |s| && r == s[..|r|]
    ensures r == [] || r[|r| - 1] != c
    ensures forall k :: |r| <= k < |s| ==> s[k] == c
  {
    if s == [] || s[|s| - 1] != c then s else RTrim(s[..|s| - 1], c)
  }

  /** Concatenation of a list of fragments, written one after the other in
      the order `fwrite` appends them. */
  function Concat(parts: seq<string>): string
  {
    if parts == [] then [] else Concat(parts[..|parts| - 1]) + parts[|parts| - 1]
  }

  lemma {:induction false} ConcatAppend(a: seq<string>, b: seq<string>)
    ensures Concat(a + b) == Concat(a) + Concat(b)
  {
    if b == [] {
      assert a + b == a;
    } else {
      assert (a + b)[..|a + b| - 1] == a + b[..|b| - 1];
      ConcatAppend(a, b[..|b| - 1]);
    }
  }

  /** Writing one more fragment appends it. */
  lemma ConcatSnoc(parts: seq<string>, i: nat)
    requires i < |parts|
    ensures Concat(parts[..i + 1]) == Concat(parts[..i]) + parts[i]
  {
    assert parts[..i + 1][..i] == parts[..i];
  }

  lemma ConcatCons(p: string, rest: seq<string>)
    ensures Concat([p] + rest) == p + Concat(rest)
  {
    ConcatAppend([p], rest);
    assert [p][..0] == [];
  }

  /** The text PHP's lexer reads back from a single-quoted literal: `\'`
      stands for `'`, `\\` for `\`, every other character for itself. */
  function EscapeChar(c: char): string
  {
    if c == '\'' then "\\'"
    else if c == '\\' then "\\\\"
    else if c == '\0' then "' . \"\\0\" . '"
    else [c]
  }

  /** The body `var_export` puts between the quotes of a string: `'` and
      `\` escaped with a backslash, a NUL byte spliced in as `' . "\0" . '`. */
  function Escape(s: string): (r: string)
    ensures |r| >= |s|
    ensures (forall k :: 0 <= k < |s| ==> s[k] != '\'' && s[k] != '\\' && s[k] != '\0') ==> r == s
  {
    if s == [] then [] else EscapeChar(s[0]) + Escape(s[1..])
  }

  /** `var_export($s, true)` for a string. */
  function VarExport(s: string): (r: string)
    ensures |r| >= 2 && r[0] == '\'' && r[|r| - 1] == '\''
  {
    "'" + Escape(s) + "'"
  }

  /** Reads a single-quoted literal's body up to its closing quote, undoing
      the backslash escapes; gives the value and what follows the quote. */
  function ReadQuoted(t: string): (r: Option<(string, string)>)
    ensures r.Some? ==> |r.value.1| < |t|
  {
    if t == [] then None
    else if t[0] == '\'' then Some(([], t[1..]))
    else if t[0] == '\\' && |t| >= 2 && (t[1] == '\'' || t[1] == '\\') then
      match ReadQuoted(t[2..])
      case None => None
      case Some(p) => Some(([t[1]] + p.0, p.1))
    else
      match ReadQuoted(t[1..])
      case None => None
      case Some(p) => Some(([t[0]] + p.0, p.1))
  }

  /** One ordinary character at the start of a literal's body reads as
      itself. */
  lemma ReadQuotedPlain(c: char, t: string)
    requires c != '\'' && (c == '\\' ==> t == [] || (t[0] != '\'' && t[0] != '\\'))
    ensures ReadQuoted([c] + t) ==
      match ReadQuoted(t)
      case None => None
      case Some(p) => Some(([c] + p.0, p.1))
  {
    assert ([c] + t)[1..] == t;
  }

  /** An escaped quote or backslash reads as the character it escapes. */
  lemma ReadQuotedEscaped(c: char, t: string)
    requires c == '\'' || c == '\\'
    ensures ReadQuoted(['\\', c] + t) ==
      match ReadQuoted(t)
      case None => None
      case Some(p) => Some(([c] + p.0, p.1))
  {
    assert (['\\', c] + t)[2..] == t;
  }

  /** Reading back the escaped body of a string (without NUL bytes) gives
      the string, and stops right after the closing quote. */
  lemma {:induction false} ReadQuotedEscape(s: string, rest: string)
    requires '\0' !in s
    ensures ReadQuoted(Escape(s) + "'" + rest) == Some((s, rest))
  {
    if s == [] {
      assert Escape(s) + "'" + rest == ['\''] + rest;
    } else {
      var tail := Escape(s[1..]) + "'" + rest;
      assert Escape(s) + "'" + rest == EscapeChar(s[0]) + tail;
      ReadQuotedEscape(s[1..], rest);
      if s[0] == '\'' || s[0] == '\\' {
        ReadQuotedEscaped(s[0], tail);
        assert EscapeChar(s[0]) == ['\\', s[0]];
      } else {
        ReadQuotedPlain(s[0], tail);
        assert EscapeChar(s[0]) == [s[0]];
      }
      assert [s[0]] + s[1..] == s;
    }
  }

  /** Text that reads as itself between single quotes: no quote, and no
      backslash that starts an escape (one followed by a quote or by
      another backslash, or one at the very end, next to the closing
      quote). */
  ghost predicate Unescaped(s: string)
  {
    '\'' !in s &&
    forall k :: 0 <= k < |s| && s[k] == '\\' ==> k + 1 < |s| && s[k + 1] != '\'' && s[k + 1] != '\\'
  }

  /** `Unescaped` text at the start of a literal's body reads as itself,
      whatever follows it. */
  lemma {:induction false} ReadQuotedPrefix(s: string, t: string)
    requires Unescaped(s)
    ensures ReadQuoted(s + t) ==
      match ReadQuoted(t)
      case None => None
      case Some(p) => Some((s + p.0, p.1))
  {
    if s == [] {
      assert s + t == t;
      match ReadQuoted(t)
      case None =>
      case Some(p) => assert s + p.0 == p.0;
    } else {
      var u := s + t;
      assert u[1..] == s[1..] + t;
      assert Unescaped(s[1..]) by {
        forall k | 0 <= k < |s[1..]| && s[1..][k] == '\\'
          ensures k + 1 < |s[1..]| && s[1..][k + 1] != '\'' && s[1..][k + 1] != '\\'
        {
          assert s[k + 1] == '\\';
        }
      }
      ReadQuotedPrefix(s[1..], t);
      if s[0] == '\\' {
        assert u[1] == s[1];
      }
      match ReadQuoted(t)
      case None =>
      case Some(p) =>
        assert [s[0]] + (s[1..] + p.0) == s + p.0;
    }
  }

  /** Text written between quotes without escaping reads back as itself
      when it is `Unescaped`. */
  lemma ReadQuotedUnescaped(s: string, rest: string)
    requires Unescaped(s)
    ensures ReadQuoted(s + "'" + rest) == Some((s, rest))
  {
    ReadQuotedPrefix(s, "'" + rest);
    assert s + "'" + rest == s + ("'" + rest);
    assert ("'" + rest)[1..] == rest;
    assert ReadQuoted("'" + rest) == Some(([], rest));
    assert s + [] == s;
  }

  datatype Option<+T> = None | Some(value: T)
}
