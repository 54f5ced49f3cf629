/** The few operations of Python's `str` that the recovery pipeline relies on:
    whitespace, `strip`, `find`, `rfind`, `startswith` and non-negative slicing. */
module Strings {

  /** Python's `str.isspace()` for one character. It is also the set of characters
      that `\s` matches in a `str` pattern of the `re` module. */
  predicate IsSpace(c: char) {
    var n := c as int;
    (0x09 <= n <= 0x0D) || (0x1C <= n <= 0x20) || n == 0x85 || n == 0xA0 || n == 0x1680
    || (0x2000 <= n <= 0x200A) || n == 0x2028 || n == 0x2029 || n == 0x202F
    || n == 0x205F || n == 0x3000
  }

  predicate AllSpace(s: string) {
    forall k :: 0 <= k < |s| ==> IsSpace(s[k])
  }

  predicate StartsWith(s: string, prefix: string) {
    |prefix| <= |s| && s[..|prefix|] == prefix
  }

  /** `t` occurs in `s` at index `i`, stated character by character. */
  predicate OccursAt(s: string, i: nat, t: string) {
    i + |t| <= |s| && forall j :: 0 <= j < |t| ==> s[i + j] == t[j]
  }

  /** Every character of `s` from `i` up to `j` is whitespace, one index at a time. */
  predicate SpaceBetween(s: string, i: nat, j: nat)
    decreases j - i
  {
    i >= j || (i < |s| && IsSpace(s[i]) && SpaceBetween(s, i + 1, j))
  }

  /** `SpaceBetween` says the same as its statement for every index. */
  lemma {:induction false} SpaceBetweenIff(s: string, i: nat, j: nat)
    requires i <= j <= |s|
    ensures SpaceBetween(s, i, j) <==> forall k :: i <= k < j ==> IsSpace(s[k])
    decreases j - i
  {
    if i < j {
      SpaceBetweenIff(s, i + 1, j);
    }
  }

  /** An occurrence at the start is a prefix. */
  lemma OccursAtStart(s: string, t: string)
    requires OccursAt(s, 0, t)
    ensures StartsWith(s, t)
  {
    assert forall j :: 0 <= j < |t| ==> s[..|t|][j] == s[0 + j];
  }

  /** A text starts with any of its prefixes. */
  lemma PrefixStartsWith(prefix: string, rest: string)
    ensures StartsWith(prefix + rest, prefix)
  {
    assert (prefix + rest)[..|prefix|] == prefix;
  }

  /** `r` is non-empty and its last character is `c` (`endswith` for one character). */
  predicate EndsWith(r: string, c: char) {
    r != [] && r[|r| - 1] == c
  }

  lemma EndsWithAppend(a: string, b: string, c: char)
    requires EndsWith(b, c) || (b == [] && EndsWith(a, c))
    ensures EndsWith(a + b, c)
  {
    if b == [] {
      assert a + b == a;
    }
  }

  /** `str.find(c)`: the index of the first `c`, or -1. */
  function Find(s: string, c: char): (r: int)
    ensures -1 <= r < |s|
    ensures r == -1 <==> c !in s
    ensures r >= 0 ==> s[r] == c && c !in s[..r]
  {
    if s == [] then -1
    else if s[0] == c then 0
    else
      var k := Find(s[1..], c);
      if k == -1 then -1
      else
        assert s[..k + 1] == [s[0]] + s[1..][..k];
        k + 1
  }

  /** `str.rfind(c)`: the index of the last `c`, or -1. */
  function RFind(s: string, c: char): (r: int)
    ensures -1 <= r < |s|
    ensures r == -1 <==> c !in s
    ensures r >= 0 ==> s[r] == c && c !in s[r + 1..]
  {
    if s == [] then -1
    else if s[|s| - 1] == c then |s| - 1
    else
      var init := s[..|s| - 1];
      var k := RFind(init, c);
      assert s == init + [s[|s| - 1]];
      if k == -1 then -1
      else
        assert s[k + 1..] == init[k + 1..] + [s[|s| - 1]];
        k
  }

  /** `find` returns an index no later than any occurrence. */
  lemma {:induction false} FindFirst(s: string, c: char, a: nat)
    requires a < |s| && s[a] == c
    ensures 0 <= Find(s, c) <= a
  {
    if s[0] != c {
      FindFirst(s[1..], c, a - 1);
    }
  }

  /** `rfind` returns an index no earlier than any occurrence. */
  lemma {:induction false} RFindLast(s: string, c: char, b: nat)
    requires b < |s| && s[b] == c
    ensures b <= RFind(s, c)
  {
    if s[|s| - 1] != c {
      RFindLast(s[..|s| - 1], c, b);
    }
  }

  /** The index of the first `c` at or after `i`, or `|s|` when there is none. */
  function FindFrom(s: string, c: char, i: nat): (r: nat)
    requires i <= |s|
    ensures i <= r <= |s|
    ensures c !in s[i..r]
    ensures r < |s| ==> s[r] == c
    decreases |s| - i
  {
    if i == |s| || s[i] == c then i
    else
      var r := FindFrom(s, c, i + 1);
      assert s[i..r] == [s[i]] + s[i + 1..r];
      r
  }

  /** No index that `FindFrom` skips holds `c`. */
  lemma FindFromSkips(s: string, c: char, i: nat, k: nat)
    requires i <= |s| && i <= k < FindFrom(s, c, i)
    ensures s[k] != c
  {
    assert s[i..FindFrom(s, c, i)][k - i] == s[k];
  }

  /** `FindFrom` stops at the first `c` at or after `i`. */
  lemma FindFromExact(s: string, c: char, i: nat, e: nat)
    requires i <= e < |s| && s[e] == c && c !in s[i..e]
    ensures FindFrom(s, c, i) == e
  {
    forall j | i <= j < e ensures s[j] != c {
      assert s[i..e][j - i] == s[j];
    }
  }

  /** The greedy `\s*` from `i`: the first index at or after `i` that is not whitespace. */
  function SkipSpace(s: string, i: nat): (j: nat)
    requires i <= |s|
    ensures i <= j <= |s|
    ensures SpaceBetween(s, i, j)
    ensures j == |s| || !IsSpace(s[j])
    decreases |s| - i
  {
    if i < |s| && IsSpace(s[i]) then SkipSpace(s, i + 1) else i
  }

  /** The greedy `\s*` from `i` ends exactly at the first character that is not
      whitespace. */
  lemma {:induction false} SkipSpaceTo(s: string, i: nat, j: nat)
    requires i <= j <= |s|
    requires SpaceBetween(s, i, j)
    requires j == |s| || !IsSpace(s[j])
    ensures SkipSpace(s, i) == j
    decreases j - i
  {
    if i < j {
      SkipSpaceTo(s, i + 1, j);
    }
  }

  /** The greedy `\s*` scanned backwards from `j` down to `i`: the last index in
      `[i, j]` whose preceding characters up to `j` are all whitespace. */
  function SkipSpaceBack(s: string, i: nat, j: nat): (e: nat)
    requires i <= j <= |s|
    ensures i <= e <= j
    ensures forall k :: e <= k < j ==> IsSpace(s[k])
    ensures e == i || !IsSpace(s[e - 1])
    decreases j - i
  {
    if i < j && IsSpace(s[j - 1]) then SkipSpaceBack(s, i, j - 1) else j
  }

  /** `str.strip()`: leading and trailing whitespace are dropped, so what is left
      neither starts nor ends with whitespace and is empty only for all-whitespace text. */
  function Strip(s: string): (r: string)
    ensures |r| <= |s|
    ensures r == [] || (!IsSpace(r[0]) && !IsSpace(r[|r| - 1]))
    ensures r == [] <==> AllSpace(s)
  {
    var i := SkipSpace(s, 0);
    SpaceBetweenIff(s, 0, i);
    s[i..SkipSpaceBack(s, i, |s|)]
  }

  /** Strip removes exactly the whitespace around the text: whenever `s[i..j]` has only
      whitespace outside it and no whitespace at either end, it is what `strip` returns. */
  lemma StripFactor(s: string, i: nat, j: nat)
    requires i <= j <= |s|
    requires forall k :: 0 <= k < i ==> IsSpace(s[k])
    requires forall k :: j <= k < |s| ==> IsSpace(s[k])
    requires i == j || (!IsSpace(s[i]) && !IsSpace(s[j - 1]))
    ensures Strip(s) == s[i..j]
  {
    var a := SkipSpace(s, 0);
    var e := SkipSpaceBack(s, a, |s|);
    if i < j {
      SpaceBetweenIff(s, 0, i);
      SkipSpaceTo(s, 0, i);
      assert e == j;
    } else {
      SpaceBetweenIff(s, 0, |s|);
      SkipSpaceTo(s, 0, |s|);
    }
  }

  /** Python's `s[i:j]` for non-negative bounds: both are clamped to the length,
      and the slice is empty when the end does not lie after the start. */
  function Slice(s: string, i: nat, j: nat): string {
    if i < j && i < |s| then s[i..if j < |s| then j else |s|] else []
  }
}
