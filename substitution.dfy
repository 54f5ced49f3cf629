/** The scanning discipline shared by Python's `str.replace` and `re.sub`: try to
    match at the current position; on a match write its replacement and resume after
    it, otherwise keep the character and move on by one. The pattern is abstract here:
    a matcher says what matches at the start of a text. */
module Substitution {
  import opened Wrappers
  import opened Strings

  /** A match at the start of the scanned text: its length and its replacement. */
  datatype Hit = Hit(len: nat, output: string)

  type Matcher = string -> Option<Hit>

  /** Every match consumes at least one character of the text it is found in
      (none of the source's patterns matches the empty string). */
  ghost predicate Advances(m: Matcher) {
    forall t :: m(t).Some? ==> 0 < m(t).value.len <= |t|
  }

  /** The substitution of `s` from index `i` on. */
  function SubFrom(m: Matcher, s: string, i: nat): string
    requires Advances(m) && i <= |s|
    decreases |s| - i
  {
    if i == |s| then []
    else
      match m(s[i..])
      case Some(h) => h.output + SubFrom(m, s, i + h.len)
      case None => [s[i]] + SubFrom(m, s, i + 1)
  }

  /** Left-to-right, non-overlapping substitution of the whole text. */
  function Sub(m: Matcher, s: string): string
    requires Advances(m)
  {
    SubFrom(m, s, 0)
  }

  /** No match starts at any index of `s` in `[i, j)`. */
  ghost predicate NoMatchIn(m: Matcher, s: string, i: nat, j: nat)
    requires j <= |s|
  {
    forall k :: i <= k < j ==> m(s[k..]).None?
  }

  /** No match starts anywhere in `s`. */
  ghost predicate NoMatch(m: Matcher, s: string) {
    NoMatchIn(m, s, 0, |s|)
  }

  /** `k` is the leftmost index of `s` where a match starts. */
  ghost predicate FirstMatchAt(m: Matcher, s: string, k: nat) {
    k < |s| && m(s[k..]).Some? && NoMatchIn(m, s, 0, k)
  }

  /** A match at `i` is written out and the scan resumes after it. */
  lemma SubFromMatch(m: Matcher, s: string, i: nat, h: Hit)
    requires Advances(m) && i < |s| && m(s[i..]) == Some(h)
    ensures SubFrom(m, s, i) == h.output + SubFrom(m, s, i + h.len)
  {
  }

  /** Without a match at `i`, its character is kept. */
  lemma SubFromNoMatch(m: Matcher, s: string, i: nat)
    requires Advances(m) && i < |s| && m(s[i..]).None?
    ensures SubFrom(m, s, i) == [s[i]] + SubFrom(m, s, i + 1)
  {
  }

  /** A stretch in which no match starts is copied unchanged. */
  lemma {:induction false} SubFromKeeps(m: Matcher, s: string, i: nat, j: nat)
    requires Advances(m) && i <= j <= |s| && NoMatchIn(m, s, i, j)
    ensures SubFrom(m, s, i) == s[i..j] + SubFrom(m, s, j)
    decreases j - i
  {
    if i < j {
      var rest := SubFrom(m, s, j);
      calc {
        SubFrom(m, s, i);
        { assert m(s[i..]).None?; }
        [s[i]] + SubFrom(m, s, i + 1);
        { SubFromKeeps(m, s, i + 1, j); }
        [s[i]] + (s[i + 1..j] + rest);
        { assert s[i..j] == [s[i]] + s[i + 1..j]; }
        s[i..j] + rest;
      }
    }
  }

  /** A text in which the pattern never matches comes out unchanged. */
  lemma SubUnchanged(m: Matcher, s: string)
    requires Advances(m) && NoMatch(m, s)
    ensures Sub(m, s) == s
  {
    SubFromKeeps(m, s, 0, |s|);
  }

  /** Everything before the leftmost match is kept, the match is replaced, and the
      scan resumes after the end of the match (so matches never overlap). */
  lemma SubLeftmost(m: Matcher, s: string, k: nat)
    requires Advances(m) && FirstMatchAt(m, s, k)
    ensures Sub(m, s) == s[..k] + m(s[k..]).value.output + SubFrom(m, s, k + m(s[k..]).value.len)
  {
    SubFromKeeps(m, s, 0, k);
  }

  /** A text in which the pattern matches somewhere has a leftmost match. */
  lemma {:induction false} FirstMatchFrom(m: Matcher, s: string, i: nat) returns (k: nat)
    requires i <= |s| && NoMatchIn(m, s, 0, i) && !NoMatch(m, s)
    ensures FirstMatchAt(m, s, k)
    decreases |s| - i
  {
    if m(s[i..]).Some? {
      k := i;
    } else {
      k := FirstMatchFrom(m, s, i + 1);
    }
  }

  lemma FirstMatchExists(m: Matcher, s: string) returns (k: nat)
    requires !NoMatch(m, s)
    ensures FirstMatchAt(m, s, k)
  {
    k := FirstMatchFrom(m, s, 0);
  }

  /** When the leftmost match writes a character different from the one it covers at
      the same offset, the text comes out changed. */
  lemma SubChanges(m: Matcher, s: string, k: nat, d: nat)
    requires Advances(m) && FirstMatchAt(m, s, k)
    requires d < m(s[k..]).value.len && d < |m(s[k..]).value.output|
    requires m(s[k..]).value.output[d] != s[k + d]
    ensures Sub(m, s) != s
  {
    SubLeftmost(m, s, k);
    assert Sub(m, s)[k + d] == m(s[k..]).value.output[d];
    assert s[k..][d] == s[k + d];
  }

  /** A first character at which no match starts is kept as the first character. */
  lemma SubKeepsHead(m: Matcher, s: string)
    requires Advances(m) && s != [] && m(s).None?
    ensures Sub(m, s) != [] && Sub(m, s)[0] == s[0]
  {
    assert s[0..] == s;
  }

  /** Every match that covers a final `c` also ends its replacement with `c`. */
  ghost predicate KeepsLast(m: Matcher, c: char) {
    forall t :: m(t).Some? && m(t).value.len == |t| && EndsWith(t, c) ==> EndsWith(m(t).value.output, c)
  }

  /** A final character `c` survives as the final character as long as every match
      that covers a final `c` also ends its replacement with `c`. */
  lemma {:induction false} SubFromKeepsTail(m: Matcher, s: string, i: nat, c: char)
    requires Advances(m) && i < |s| && EndsWith(s, c) && KeepsLast(m, c)
    ensures EndsWith(SubFrom(m, s, i), c)
    decreases |s| - i
  {
    var h := m(s[i..]);
    var head := if h.Some? then h.value.output else [s[i]];
    var next := if h.Some? then i + h.value.len else i + 1;
    assert SubFrom(m, s, i) == head + SubFrom(m, s, next);
    if next < |s| {
      SubFromKeepsTail(m, s, next, c);
    } else if h.Some? {
      assert EndsWith(s[i..], c);
    }
    EndsWithAppend(head, SubFrom(m, s, next), c);
  }

  lemma SubKeepsTail(m: Matcher, s: string, c: char)
    requires Advances(m) && EndsWith(s, c) && KeepsLast(m, c)
    ensures EndsWith(Sub(m, s), c)
  {
    SubFromKeepsTail(m, s, 0, c);
  }

  /** Every character of the result comes from the text or from what some match wrote. */
  lemma {:induction false} SubFromChars(m: Matcher, s: string, i: nat, c: char, extra: string)
    requires Advances(m) && i <= |s| && c in SubFrom(m, s, i)
    requires forall t :: m(t).Some? && c in m(t).value.output ==> c in t || c in extra
    ensures c in s[i..] || c in extra
    decreases |s| - i
  {
    match m(s[i..])
    case Some(h) =>
      if c !in h.output {
        SubFromChars(m, s, i + h.len, c, extra);
        assert s[i + h.len..] == s[i..][h.len..];
      }
    case None =>
      if c != s[i] {
        SubFromChars(m, s, i + 1, c, extra);
        assert s[i + 1..] == s[i..][1..];
      }
  }
}
