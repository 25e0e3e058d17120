/** String helpers shared by the escapers, the file-name rules and the
    metadata formatters: ASCII case folding, suffix tests, `padStart`,
    `join` and its inverse `split`. Strings are `seq<char>`. */
module Text {
  import opened Wrappers

  /** Lower-cases ASCII letters only, which is how the `i` flag of a
      non-Unicode JavaScript regular expression compares letters. */
  function AsciiLower(c: char): char {
    if 'A' <= c <= 'Z' then (c as int + 32) as char else c
  }

  /** `s` ends with `suffix`, comparing letters without regard to ASCII case;
      `suffix` is written in lower case. */
  predicate EndsWithIgnoringCase(s: string, suffix: string) {
    |suffix| <= |s| &&
    forall i :: 0 <= i < |suffix| ==> AsciiLower(s[|s| - |suffix| + i]) == suffix[i]
  }

  /** `String.prototype.padStart(width, fill)` with a one-character fill:
      prepends `fill` until the string is at least `width` long. */
  function PadStart(s: string, width: nat, fill: char): (r: string)
    ensures |r| == if |s| >= width then |s| else width
    ensures r[|r| - |s|..] == s
    ensures forall i :: 0 <= i < |r| - |s| ==> r[i] == fill
    decreases width - |s|
  {
    if |s| >= width then s else PadStart([fill] + s, width, fill)
  }

  /** `Array.prototype.join(sep)`. */
  function Join(sep: string, parts: seq<string>): string {
    if |parts| == 0 then ""
    else if |parts| == 1 then parts[0]
    else parts[0] + sep + Join(sep, parts[1..])
  }

  /** Position of the first occurrence of `c` in `s`. */
  function IndexOf(s: string, c: char): (r: Option<nat>)
    ensures r.None? <==> c !in s
    ensures r.Some? ==> r.value < |s| && s[r.value] == c && c !in s[..r.value]
  {
    if |s| == 0 then None
    else if s[0] == c then Some(0)
    else match IndexOf(s[1..], c)
      case None => None
      case Some(i) => Some(i + 1)
  }

  /** The text of `s` before the first `c` (all of `s` when there is none). */
  function TakeUntil(s: string, c: char): (r: string)
    ensures r <= s && c !in r
    ensures |r| < |s| ==> s[|r|] == c
  {
    match IndexOf(s, c)
    case None => s
    case Some(i) => s[..i]
  }

  /** Position of the last occurrence of `c` in `s`. */
  function LastIndexOf(s: string, c: char): (r: Option<nat>)
    ensures r.None? <==> c !in s
    ensures r.Some? ==> r.value < |s| && s[r.value] == c && c !in s[r.value + 1..]
  {
    if |s| == 0 then None
    else if s[|s| - 1] == c then Some(|s| - 1)
    else
      var r := LastIndexOf(s[..|s| - 1], c);
      assert s == s[..|s| - 1] + [s[|s| - 1]];
      assert r.Some? ==> s[r.value + 1..] == s[..|s| - 1][r.value + 1..] + [s[|s| - 1]];
      r
  }

  /** In a text `a + b` where `a` ends with `c` and `b` has no `c`, the last
      `c` is the one that ends `a`. */
  lemma LastIndexOfBefore(a: string, b: string, c: char)
    requires |a| > 0 && a[|a| - 1] == c && c !in b
    ensures LastIndexOf(a + b, c) == Some(|a| - 1)
  {
    var t := a + b;
    assert t[|a| - 1] == c;
    assert t[|a|..] == b;
  }

  /** A text that starts with `a` followed by `c`, where `a` has no `c`,
      reads back `a` up to the first `c`. */
  lemma TakeUntilPrefix(a: string, t: string, c: char)
    requires |a| < |t| && t[..|a|] == a && t[|a|] == c && c !in a
    ensures TakeUntil(t, c) == a
  {
    assert t == a + [c] + t[|a| + 1..];
    IndexOfAfterPrefix(a, c, t[|a| + 1..]);
  }

  /** `String.prototype.split(sep)` for a one-character separator. Joining the
      pieces back with the separator rebuilds the input. */
  function Split(sep: char, s: string): (r: seq<string>)
    ensures |r| >= 1
    ensures forall k :: 0 <= k < |r| ==> sep !in r[k]
    ensures Join([sep], r) == s
    decreases |s|
  {
    match IndexOf(s, sep)
    case None => [s]
    case Some(i) =>
      var rest := Split(sep, s[i + 1..]);
      assert s == s[..i] + [sep] + s[i + 1..];
      [s[..i]] + rest
  }

  lemma IndexOfAfterPrefix(a: string, c: char, b: string)
    requires c !in a
    ensures IndexOf(a + [c] + b, c) == Some(|a|)
  {
    var t := a + [c] + b;
    assert t[|a|] == c;
    assert t[..|a|] == a;
  }

  lemma SplitCons(sep: char, a: string, b: string)
    requires sep !in a
    ensures Split(sep, a + [sep] + b) == [a] + Split(sep, b)
  {
    var t := a + [sep] + b;
    IndexOfAfterPrefix(a, sep, b);
    assert t[..|a|] == a;
    assert t[|a| + 1..] == b;
  }

  /** Splitting a join recovers the parts, provided no part contains the
      separator: `split` is the inverse of `join`. */
  lemma {:induction false} SplitJoin(sep: char, parts: seq<string>)
    requires |parts| >= 1
    requires forall k :: 0 <= k < |parts| ==> sep !in parts[k]
    ensures Split(sep, Join([sep], parts)) == parts
    decreases |parts|
  {
    if |parts| == 1 {
      assert Join([sep], parts) == parts[0];
    } else {
      var rest := Join([sep], parts[1..]);
      assert Join([sep], parts) == parts[0] + [sep] + rest;
      SplitCons(sep, parts[0], rest);
      SplitJoin(sep, parts[1..]);
      assert [parts[0]] + parts[1..] == parts;
    }
  }
}
