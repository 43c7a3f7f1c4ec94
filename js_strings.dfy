/** The JavaScript string built-ins the batch client relies on, with the
    semantics ECMAScript gives them: `indexOf`, `lastIndexOf`, `split`,
    `join`, `startsWith`, `replace` with a string pattern, `trim`,
    `substring` and `toLowerCase` (ASCII letters only). */
module JsStrings {

  /** `p` occurs in `s` starting at position `i`. */
  predicate OccursAt(s: string, p: string, i: int)
  {
    0 <= i && i + |p| <= |s| && s[i..i + |p|] == p
  }

  /** `s.startsWith(p)`. */
  predicate StartsWith(s: string, p: string)
  {
    |p| <= |s| && s[..|p|] == p
  }

  /** A text starts with any of its prefixes. */
  lemma StartsWithPrefix(a: string, b: string)
    ensures StartsWith(a + b, a)
  {
    assert (a + b)[..|a|] == a;
  }

  /** An occurrence inside a prefix or a suffix is an occurrence in the whole. */
  lemma OccursInConcat(a: string, b: string, p: string, i: int)
    ensures OccursAt(a, p, i) ==> OccursAt(a + b, p, i)
    ensures OccursAt(b, p, i) ==> OccursAt(a + b, p, |a| + i)
    ensures OccursAt(a + b, p, i) && i + |p| <= |a| ==> OccursAt(a, p, i)
    ensures OccursAt(a + b, p, |a| + i) && i >= 0 ==> OccursAt(b, p, i)
  {
    if OccursAt(a, p, i) {
      assert (a + b)[i..i + |p|] == a[i..i + |p|];
    }
    if OccursAt(b, p, i) {
      assert (a + b)[|a| + i..|a| + i + |p|] == b[i..i + |p|];
    }
    if OccursAt(a + b, p, i) && i + |p| <= |a| {
      assert (a + b)[i..i + |p|] == a[i..i + |p|];
    }
    if OccursAt(a + b, p, |a| + i) && i >= 0 {
      assert (a + b)[|a| + i..|a| + i + |p|] == b[i..i + |p|];
    }
  }

  /** The first position at or after `from` where `p` occurs, or -1. */
  function IndexFrom(s: string, p: string, from: nat): (r: int)
    ensures r == -1 || (from <= r && OccursAt(s, p, r))
    ensures r == -1 <==> forall i :: from <= i ==> !OccursAt(s, p, i)
    ensures forall i :: from <= i < r ==> !OccursAt(s, p, i)
    decreases |s| - from
  {
    if |s| < from + |p| then -1
    else if s[from..from + |p|] == p then from
    else IndexFrom(s, p, from + 1)
  }

  /** `s.indexOf(p)`: the first position where `p` occurs, or -1 when it does not occur. */
  function IndexOf(s: string, p: string): (r: int)
    ensures r == -1 || OccursAt(s, p, r)
    ensures r == -1 <==> forall i :: !OccursAt(s, p, i)
    ensures forall i :: 0 <= i < r ==> !OccursAt(s, p, i)
  {
    IndexFrom(s, p, 0)
  }

  /** The last position at or before `upTo` where `p` occurs, or -1. */
  function LastIndexUpTo(s: string, p: string, upTo: int): (r: int)
    ensures r == -1 || (r <= upTo && OccursAt(s, p, r))
    ensures r == -1 <==> forall i :: i <= upTo ==> !OccursAt(s, p, i)
    ensures forall i :: r < i <= upTo ==> !OccursAt(s, p, i)
    decreases upTo + 1
  {
    if upTo < 0 then -1
    else if OccursAt(s, p, upTo) then upTo
    else LastIndexUpTo(s, p, upTo - 1)
  }

  /** `s.lastIndexOf(p)`: the last position where `p` occurs, or -1 when it does not occur. */
  function LastIndexOf(s: string, p: string): (r: int)
    ensures r == -1 || OccursAt(s, p, r)
    ensures r == -1 <==> forall i :: !OccursAt(s, p, i)
    ensures forall i :: r < i ==> !OccursAt(s, p, i)
  {
    LastIndexUpTo(s, p, |s| - |p|)
  }

  /** For a one-character pattern, occurring is being that character. */
  lemma OccursAtChar(s: string, c: char, i: int)
    ensures OccursAt(s, [c], i) <==> 0 <= i < |s| && s[i] == c
  {
    if 0 <= i < |s| {
      assert s[i..i + 1] == [s[i]];
    }
  }

  /** `s.indexOf(c)` for a single character `c`: -1 exactly when `c` is absent,
      otherwise a position holding `c` with no `c` before it. */
  lemma IndexOfChar(s: string, c: char)
    ensures IndexOf(s, [c]) == -1 <==> c !in s
    ensures IndexOf(s, [c]) >= 0 ==> IndexOf(s, [c]) < |s| && s[IndexOf(s, [c])] == c && c !in s[..IndexOf(s, [c])]
  {
    var r := IndexOf(s, [c]);
    forall i | 0 <= i < |s| ensures OccursAt(s, [c], i) <==> s[i] == c {
      OccursAtChar(s, c, i);
    }
    if r >= 0 {
      OccursAtChar(s, c, r);
    }
  }

  /** `s.lastIndexOf(c)` for a single character `c`: -1 exactly when `c` is absent,
      otherwise a position holding `c` with no `c` after it. */
  lemma LastIndexOfChar(s: string, c: char)
    ensures LastIndexOf(s, [c]) == -1 <==> c !in s
    ensures LastIndexOf(s, [c]) >= 0 ==> LastIndexOf(s, [c]) < |s| && s[LastIndexOf(s, [c])] == c && c !in s[LastIndexOf(s, [c]) + 1..]
  {
    var r := LastIndexOf(s, [c]);
    forall i | 0 <= i < |s| ensures OccursAt(s, [c], i) <==> s[i] == c {
      OccursAtChar(s, c, i);
    }
    if r >= 0 {
      OccursAtChar(s, c, r);
    }
  }

  /** Inside an occurrence, `s` holds the pattern's characters. */
  lemma OccursAtChars(s: string, p: string, j: int)
    ensures OccursAt(s, p, j) ==> forall n :: 0 <= n < |p| ==> s[j + n] == p[n]
  {
    if OccursAt(s, p, j) {
      forall n | 0 <= n < |p| ensures s[j + n] == p[n] {
        assert s[j..j + |p|][n] == s[j + n];
      }
    }
  }

  /** An occurrence in a prefix of `s` is an occurrence in `s`. */
  lemma OccursInPrefix(s: string, n: nat, p: string, j: int)
    requires n <= |s|
    ensures OccursAt(s[..n], p, j) ==> OccursAt(s, p, j)
  {
    if OccursAt(s[..n], p, j) {
      assert s[..n][j..j + |p|] == s[j..j + |p|];
    }
  }

  /** The first occurrence in a prefix is the first occurrence in any extension of it. */
  lemma IndexOfExtend(a: string, b: string, p: string)
    requires IndexOf(a, p) >= 0
    ensures IndexOf(a + b, p) == IndexOf(a, p)
  {
    var r := IndexOf(a, p);
    var r' := IndexOf(a + b, p);
    OccursInConcat(a, b, p, r);
    OccursInConcat(a, b, p, r');
  }

  /** `parts.join(sep)`. */
  function Join(parts: seq<string>, sep: string): string
  {
    if |parts| == 0 then ""
    else if |parts| == 1 then parts[0]
    else parts[0] + sep + Join(parts[1..], sep)
  }

  /** `s.split(sep)` for a non-empty separator: the pieces between the
      occurrences of `sep` found scanning left to right. Joining the pieces
      with `sep` gives back `s`, and no piece contains `sep`. */
  function Split(s: string, sep: string): (r: seq<string>)
    requires sep != ""
    ensures |r| >= 1
    ensures Join(r, sep) == s
    ensures forall k :: 0 <= k < |r| ==> IndexOf(r[k], sep) == -1
    decreases |s|
  {
    var i := IndexOf(s, sep);
    if i < 0 then [s]
    else
      var rest := Split(s[i + |sep|..], sep);
      assert s == s[..i] + sep + s[i + |sep|..];
      forall j ensures !OccursAt(s[..i], sep, j) {
        OccursInPrefix(s, i, sep, j);
      }
      assert ([s[..i]] + rest)[1..] == rest;
      [s[..i]] + rest
  }

  /** Splitting a join gives back the pieces, provided each piece but the last
      is followed by its separator at the first occurrence of the separator,
      and the last piece does not contain it. */
  lemma {:induction false} SplitJoin(parts: seq<string>, sep: string)
    requires sep != "" && |parts| >= 1
    requires forall k :: 0 <= k < |parts| - 1 ==> IndexOf(parts[k] + sep, sep) == |parts[k]|
    requires IndexOf(parts[|parts| - 1], sep) == -1
    ensures Split(Join(parts, sep), sep) == parts
  {
    if |parts| > 1 {
      var head := parts[0] + sep;
      var tail := Join(parts[1..], sep);
      var s := head + tail;
      assert Join(parts, sep) == s;
      assert IndexOf(head, sep) == |parts[0]|;
      IndexOfExtend(head, tail, sep);
      var i := |parts[0]|;
      assert s[..i] == parts[0];
      assert s[i + |sep|..] == tail;
      SplitJoin(parts[1..], sep);
      calc {
        Split(s, sep);
        [s[..i]] + Split(s[i + |sep|..], sep);
        [parts[0]] + parts[1..];
        parts;
      }
    }
  }

  /** `s.replace(p, rep)` with a string pattern: only the first occurrence is replaced. */
  function ReplaceFirst(s: string, p: string, rep: string): (r: string)
    ensures IndexOf(s, p) == -1 ==> r == s
    ensures StartsWith(s, p) ==> r == rep + s[|p|..]
  {
    var i := IndexOf(s, p);
    assert StartsWith(s, p) ==> OccursAt(s, p, 0);
    if i < 0 then s else s[..i] + rep + s[i + |p|..]
  }

  /** `s.replace(/c/g, d)` for a one-character pattern: every `c` becomes
      `d` and nothing else moves. */
  function ReplaceAllChar(s: string, c: char, d: char): (r: string)
    ensures |r| == |s|
    ensures c != d ==> c !in r
    ensures forall k :: 0 <= k < |s| && s[k] == c ==> r[k] == d
    ensures forall k :: 0 <= k < |s| && s[k] != c ==> r[k] == s[k]
  {
    seq(|s|, k requires 0 <= k < |s| => if s[k] == c then d else s[k])
  }

  /** The characters `String.prototype.trim` removes: ECMAScript's WhiteSpace
      (tab, vertical tab, form feed, space, no-break space, byte order mark and
      the Unicode space separators) and LineTerminator (LF, CR, LS, PS). */
  predicate IsJsWhitespace(c: char)
  {
    || c == '\t' || c == '\n' || c == '\U{000B}' || c == '\U{000C}' || c == '\r' || c == ' '
    || c == '\U{00A0}' || c == '\U{1680}' || ('\U{2000}' <= c <= '\U{200A}')
    || c == '\U{2028}' || c == '\U{2029}' || c == '\U{202F}' || c == '\U{205F}'
    || c == '\U{3000}' || c == '\U{FEFF}'
  }

  /** Neither end of `s` is whitespace. */
  predicate Trimmed(s: string)
  {
    s == [] || (!IsJsWhitespace(s[0]) && !IsJsWhitespace(s[|s| - 1]))
  }

  /** `s.trimStart()`: the suffix left after dropping the leading whitespace. */
  function TrimStart(s: string): (r: string)
    ensures |r| <= |s| && r == s[|s| - |r|..]
    ensures forall k :: 0 <= k < |s| - |r| ==> IsJsWhitespace(s[k])
    ensures r == [] || !IsJsWhitespace(r[0])
    decreases |s|
  {
    if |s| > 0 && IsJsWhitespace(s[0]) then TrimStart(s[1..]) else s
  }

  /** `s.trimEnd()`: the prefix left after dropping the trailing whitespace. */
  function TrimEnd(s: string): (r: string)
    ensures |r| <= |s| && r == s[..|r|]
    ensures forall k :: |r| <= k < |s| ==> IsJsWhitespace(s[k])
    ensures r == [] || !IsJsWhitespace(r[|r| - 1])
    decreases |s|
  {
    if |s| > 0 && IsJsWhitespace(s[|s| - 1]) then TrimEnd(s[..|s| - 1]) else s
  }

  /** `s.trim()`: a string with no whitespace at either end, and `s` itself
      when `s` already has none. */
  function Trim(s: string): (r: string)
    ensures Trimmed(r)
    ensures Trimmed(s) ==> r == s
  {
    var r := TrimEnd(TrimStart(s));
    assert r != [] ==> r[0] == TrimStart(s)[0];
    r
  }

  /** `s.substring(start, end)`: both bounds are clamped to the string and
      swapped when the start lies after the end. */
  function Substring(s: string, start: int, end: int): string
  {
    var a := if start < 0 then 0 else if start > |s| then |s| else start;
    var b := if end < 0 then 0 else if end > |s| then |s| else end;
    if a <= b then s[a..b] else s[b..a]
  }

  /** `c.toLowerCase()` for an ASCII upper-case letter; every other character is kept. */
  function ToLowerChar(c: char): char
  {
    if 'A' <= c <= 'Z' then (c as int + 32) as char else c
  }

  /** `s.toLowerCase()` restricted to ASCII: the same length, each upper-case
      ASCII letter replaced by its lower-case letter (32 code points on),
      every other character unchanged, so no upper-case ASCII letter is left. */
  function ToLower(s: string): (r: string)
    ensures |r| == |s|
    ensures forall k :: 0 <= k < |s| && 'A' <= s[k] <= 'Z' ==> r[k] as int == s[k] as int + 32 && 'a' <= r[k] <= 'z'
    ensures forall k :: 0 <= k < |s| && !('A' <= s[k] <= 'Z') ==> r[k] == s[k]
    ensures forall k :: 0 <= k < |r| ==> !('A' <= r[k] <= 'Z')
  {
    seq(|s|, k requires 0 <= k < |s| => ToLowerChar(s[k]))
  }
}
