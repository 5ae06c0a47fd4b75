/**
 * The few .NET string operations the migration orchestrator depends on:
 * `Char.IsWhiteSpace`, `string.IsNullOrWhiteSpace`, `string.IsNullOrEmpty`,
 * `string.Equals(.., StringComparison.OrdinalIgnoreCase)`,
 * `Path.GetFileNameWithoutExtension` and an ordinal string order.
 * A `null` string is `None` in the `...Opt` variants.
 */
module Text {
  import opened Options

  /** The characters `Char.IsWhiteSpace` accepts (the Unicode White_Space set). */
  predicate IsWhiteSpace(c: char)
  {
    var n := c as int;
    (0x09 <= n <= 0x0D) || n == 0x20 || n == 0x85 || n == 0xA0 || n == 0x1680
    || (0x2000 <= n <= 0x200A) || n == 0x2028 || n == 0x2029 || n == 0x202F
    || n == 0x205F || n == 0x3000
  }

  /** `string.IsNullOrWhiteSpace` on a non-null string: empty or only white space. */
  predicate IsBlank(s: string)
  {
    forall i :: 0 <= i < |s| ==> IsWhiteSpace(s[i])
  }

  /** `string.IsNullOrWhiteSpace` on a string that may be null. */
  predicate IsNullOrWhiteSpace(s: Option<string>)
  {
    s.None? || IsBlank(s.value)
  }

  /** `string.IsNullOrEmpty` on a string that may be null. */
  predicate IsNullOrEmpty(s: Option<string>)
  {
    s.None? || |s.value| == 0
  }

  /** A string whose first character is not white space is not blank. */
  lemma NotBlankByFirst(s: string)
    requires |s| > 0 && !IsWhiteSpace(s[0])
    ensures !IsBlank(s)
  {
  }

  /**
   * Upper-case mapping used by the ordinal case-insensitive comparison.
   * Only the ASCII letters are folded (see README, "Left out").
   */
  function FoldCase(c: char): (r: char)
    ensures 'a' <= c <= 'z' ==> 'A' <= r <= 'Z'
    ensures !('a' <= c <= 'z') ==> r == c
  {
    if 'a' <= c <= 'z' then (c as int - 32) as char else c
  }

  /** `string.Equals(a, b, StringComparison.OrdinalIgnoreCase)`. */
  predicate EqualsIgnoreCase(a: string, b: string)
  {
    |a| == |b| && forall i :: 0 <= i < |a| ==> FoldCase(a[i]) == FoldCase(b[i])
  }

  /** Index of the last occurrence of `c` in `s`, or -1 (`string.LastIndexOf(char)`). */
  function LastIndexOf(s: string, c: char): (k: int)
    ensures -1 <= k < |s|
    ensures k >= 0 ==> s[k] == c
    ensures forall j :: k < j < |s| ==> s[j] != c
  {
    if |s| == 0 then -1
    else if s[|s| - 1] == c then |s| - 1
    else LastIndexOf(s[..|s| - 1], c)
  }

  /** `Path.GetFileName` with the Unix directory separator '/'. */
  function GetFileName(path: string): (name: string)
    ensures '/' !in name
  {
    var k := LastIndexOf(path, '/');
    var r := path[k + 1..];
    assert '/' !in r by {
      forall j | 0 <= j < |r| ensures r[j] != '/' { assert r[j] == path[k + 1 + j]; }
    }
    r
  }

  /**
   * `Path.GetFileNameWithoutExtension`: the file name without its directory,
   * cut at its last '.', if it has one.
   */
  function GetFileNameWithoutExtension(path: string): (stem: string)
    ensures '/' !in stem
  {
    var file := GetFileName(path);
    var k := LastIndexOf(file, '.');
    if k < 0 then file else file[..k]
  }

  /**
   * Ordinal string order: `a` comes before or equals `b`, comparing
   * characters by code and a proper prefix before the longer string.
   */
  predicate Below(a: string, b: string)
  {
    |a| == 0 || (|b| != 0 && (a[0] < b[0] || (a[0] == b[0] && Below(a[1..], b[1..]))))
  }

  lemma BelowReflexive(a: string)
    ensures Below(a, a)
  {
  }

  lemma BelowAntisymmetric(a: string, b: string)
    requires Below(a, b) && Below(b, a)
    ensures a == b
  {
  }

  lemma BelowTransitive(a: string, b: string, c: string)
    requires Below(a, b) && Below(b, c)
    ensures Below(a, c)
  {
  }

  lemma BelowTotal(a: string, b: string)
    ensures Below(a, b) || Below(b, a)
  {
  }
}
