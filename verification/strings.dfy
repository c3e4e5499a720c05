/**
 * The few `java.lang.String` operations the test-case builder relies on:
 * `startsWith` (Dafny's prefix `<=`), `contains`, `lastIndexOf(char)` and the
 * literal, left-to-right, non-recursive `replace(CharSequence, CharSequence)`.
 */
module Strings {

  /** `s.contains(pat)`: `pat` occurs somewhere in `s`. */
  predicate Occurs(pat: string, s: string)
    decreases |s|
  {
    pat <= s || (|s| > 0 && Occurs(pat, s[1..]))
  }

  /** The index of the last `c` among the first `n` characters of `s`, or -1. */
  function LastIndexBefore(s: string, c: char, n: nat): (r: int)
    requires n <= |s|
    ensures -1 <= r < n
    decreases n
  {
    if n == 0 then -1
    else if s[n - 1] == c then n - 1
    else LastIndexBefore(s, c, n - 1)
  }

  /** `s.lastIndexOf(c)`: the index of the last `c` in `s`, or -1 when there is none. */
  function LastIndexOf(s: string, c: char): (r: int)
    ensures -1 <= r < |s|
  {
    LastIndexBefore(s, c, |s|)
  }

  lemma {:induction false} LastIndexBeforeSpec(s: string, c: char, n: nat)
    requires n <= |s|
    ensures var r := LastIndexBefore(s, c, n);
            && (0 <= r ==> s[r] == c)
            && (forall i :: r < i < n ==> s[i] != c)
    decreases n
  {
    if n > 0 && s[n - 1] != c {
      LastIndexBeforeSpec(s, c, n - 1);
    }
  }

  /** `lastIndexOf` finds a `c` exactly when there is one, and no `c` follows it. */
  lemma LastIndexOfSpec(s: string, c: char)
    ensures LastIndexOf(s, c) == -1 <==> c !in s
    ensures 0 <= LastIndexOf(s, c) ==> s[LastIndexOf(s, c)] == c && c !in s[LastIndexOf(s, c) + 1..]
  {
    LastIndexBeforeSpec(s, c, |s|);
    var r := LastIndexOf(s, c);
    if 0 <= r {
      assert forall i :: r < i < |s| ==> s[i] != c;
    }
  }

  /** `s.substring(s.lastIndexOf(c) + 1)`: what follows the last `c`. */
  function AfterLast(s: string, c: char): string {
    s[LastIndexOf(s, c) + 1..]
  }

  /** `s` cut at its last `c` (the whole of `s` when there is no `c`). */
  function BeforeLast(s: string, c: char): string {
    var i := LastIndexOf(s, c);
    if i == -1 then s else s[..i]
  }

  /** What follows the last `c` is the longest suffix of `s` free of `c`. */
  lemma AfterLastSpec(s: string, c: char)
    ensures c !in AfterLast(s, c)
    ensures |AfterLast(s, c)| <= |s| && AfterLast(s, c) == s[|s| - |AfterLast(s, c)|..]
    ensures |AfterLast(s, c)| < |s| ==> s[|s| - |AfterLast(s, c)| - 1] == c
  {
    LastIndexOfSpec(s, c);
  }

  /** Cutting at the last `c` keeps a prefix and removes exactly the last `c` and what follows. */
  lemma BeforeLastSpec(s: string, c: char)
    ensures BeforeLast(s, c) <= s
    ensures c !in s ==> BeforeLast(s, c) == s
    ensures c in s ==> |BeforeLast(s, c)| < |s| && s[|BeforeLast(s, c)|] == c
                       && c !in s[|BeforeLast(s, c)| + 1..]
  {
    LastIndexOfSpec(s, c);
  }

  /**
   * `s.replace(target, replacement)`: every occurrence of `target` found by a
   * left-to-right scan is replaced, and the scan resumes after the replaced
   * occurrence, so text introduced by `replacement` is never rescanned.
   */
  function Replace(s: string, target: string, replacement: string): string
    requires |target| > 0
    decreases |s|
  {
    if |s| == 0 then []
    else if target <= s then replacement + Replace(s[|target|..], target, replacement)
    else [s[0]] + Replace(s[1..], target, replacement)
  }

  /**
   * Reference decomposition of `s` around the occurrences of `sep` that the
   * same left-to-right scan finds: `s` is the pieces joined by `sep`.
   */
  function Split(s: string, sep: string): (parts: seq<string>)
    requires |sep| > 0
    ensures |parts| > 0
    ensures parts[0] <= s
    decreases |s|
  {
    if |s| == 0 then [[]]
    else if sep <= s then [[]] + Split(s[|sep|..], sep)
    else
      var rest := Split(s[1..], sep);
      [[s[0]] + rest[0]] + rest[1..]
  }

  /** The pieces concatenated with `sep` between neighbours. */
  function Join(parts: seq<string>, sep: string): string
    requires |parts| > 0
    decreases |parts|
  {
    if |parts| == 1 then parts[0] else parts[0] + sep + Join(parts[1..], sep)
  }

  lemma JoinCons(c: char, p: string, tail: seq<string>, sep: string)
    ensures Join([[c] + p] + tail, sep) == [c] + Join([p] + tail, sep)
  {
  }

  /** `replace` is the split around the target, joined back with the replacement. */
  lemma {:induction false} ReplaceIsJoinOfSplit(s: string, target: string, replacement: string)
    requires |target| > 0
    ensures Replace(s, target, replacement) == Join(Split(s, target), replacement)
    decreases |s|
  {
    if |s| == 0 {
    } else if target <= s {
      ReplaceIsJoinOfSplit(s[|target|..], target, replacement);
      var rest := Split(s[|target|..], target);
      assert Split(s, target) == [[]] + rest;
      assert ([[]] + rest)[1..] == rest;
      assert Join([[]] + rest, replacement) == [] + replacement + Join(rest, replacement);
    } else {
      ReplaceIsJoinOfSplit(s[1..], target, replacement);
      var rest := Split(s[1..], target);
      assert Split(s, target) == [[s[0]] + rest[0]] + rest[1..];
      assert rest == [rest[0]] + rest[1..];
      JoinCons(s[0], rest[0], rest[1..], replacement);
      assert Replace(s, target, replacement) == [s[0]] + Replace(s[1..], target, replacement);
    }
  }

  /** Replacing the target by itself changes nothing. */
  lemma {:induction false} ReplaceBySelf(s: string, target: string)
    requires |target| > 0
    ensures Replace(s, target, target) == s
    decreases |s|
  {
    if |s| == 0 {
    } else if target <= s {
      ReplaceBySelf(s[|target|..], target);
      assert s == s[..|target|] + s[|target|..];
    } else {
      ReplaceBySelf(s[1..], target);
      assert s == [s[0]] + s[1..];
    }
  }

  /** Joining the split pieces with the separator gives back the original string. */
  lemma JoinSplit(s: string, sep: string)
    requires |sep| > 0
    ensures Join(Split(s, sep), sep) == s
  {
    ReplaceIsJoinOfSplit(s, sep, sep);
    ReplaceBySelf(s, sep);
  }

  /** No piece of the split contains the separator: the scan misses no occurrence. */
  lemma {:induction false} SplitPiecesAreFree(s: string, sep: string)
    requires |sep| > 0
    ensures forall i :: 0 <= i < |Split(s, sep)| ==> !Occurs(sep, Split(s, sep)[i])
    decreases |s|
  {
    var parts := Split(s, sep);
    if |s| == 0 {
      assert parts == [[]];
    } else if sep <= s {
      SplitPiecesAreFree(s[|sep|..], sep);
      var rest := Split(s[|sep|..], sep);
      assert parts == [[]] + rest;
      forall i | 0 <= i < |parts|
        ensures !Occurs(sep, parts[i])
      {
        if i > 0 {
          assert parts[i] == rest[i - 1];
        }
      }
    } else {
      SplitPiecesAreFree(s[1..], sep);
      var rest := Split(s[1..], sep);
      var head := [s[0]] + rest[0];
      assert parts == [head] + rest[1..];
      assert head <= s by {
        assert rest[0] <= s[1..];
        assert s == [s[0]] + s[1..];
      }
      assert head[1..] == rest[0];
      assert !Occurs(sep, head);
      forall i | 0 <= i < |parts|
        ensures !Occurs(sep, parts[i])
      {
        if i > 0 {
          assert parts[i] == rest[i];
        }
      }
    }
  }

  /** A string that does not contain the target is left as it is. */
  lemma {:induction false} ReplaceAbsent(s: string, target: string, replacement: string)
    requires |target| > 0
    requires !Occurs(target, s)
    ensures Replace(s, target, replacement) == s
    decreases |s|
  {
    if |s| > 0 {
      ReplaceAbsent(s[1..], target, replacement);
      assert s == [s[0]] + s[1..];
    }
  }

  /** The target occurs exactly when the split has more than one piece. */
  lemma {:induction false} OccursIffSplitMany(s: string, sep: string)
    requires |sep| > 0
    ensures Occurs(sep, s) <==> |Split(s, sep)| > 1
    decreases |s|
  {
    if |s| == 0 {
    } else if sep <= s {
    } else {
      OccursIffSplitMany(s[1..], sep);
    }
  }

  lemma {:induction false} OccursExtendRight(pat: string, b: string, c: string)
    requires Occurs(pat, b)
    ensures Occurs(pat, b + c)
    decreases |b|
  {
    if pat <= b {
      assert (b + c)[..|pat|] == b[..|pat|];
    } else {
      OccursExtendRight(pat, b[1..], c);
      assert (b + c)[1..] == b[1..] + c;
    }
  }

  lemma {:induction false} OccursExtendLeft(pat: string, a: string, b: string)
    requires Occurs(pat, b)
    ensures Occurs(pat, a + b)
    decreases |a|
  {
    if |a| > 0 {
      OccursExtendLeft(pat, a[1..], b);
      assert (a + b)[1..] == a[1..] + b;
    } else {
      assert a + b == b;
    }
  }

  /** An occurrence inside a part is an occurrence inside the whole. */
  lemma OccursInMiddle(pat: string, a: string, b: string, c: string)
    requires Occurs(pat, b)
    ensures Occurs(pat, a + b + c)
  {
    OccursExtendRight(pat, b, c);
    OccursExtendLeft(pat, a, b + c);
    assert a + b + c == a + (b + c);
  }
}
