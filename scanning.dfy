/** The fixed patterns of the recovery pipeline as explicit scanners: the literal
    `str.replace` calls, the four `re.sub` repairs and the two `re.findall` scans. */
module Scanning {
  import opened Wrappers
  import opened Strings
  import opened Substitution

  const QuestionKey: string := "\"question\""
  const AnswerKey: string := "\"answer\""

  /** The four regular-expression repairs of api.py (lines 129-134). */
  datatype Repair =
    | QuestionAnswerGap   // ("question"\s*:\s*".*?\")\s*("answer"\s*:\s*)  ->  \1, \2
    | ObjectGap           // \}\s*\{  ->  }, {
    | CommaBeforeBracket  // ,\s*\]   ->  ]
    | CommaBeforeBrace    // ,\s*\}   ->  }

  /** The characters a repair may write that need not come from the matched text. */
  function Inserted(rw: Repair): string {
    match rw
    case QuestionAnswerGap => ", "
    case ObjectGap => "}, {"
    case CommaBeforeBracket => "]"
    case CommaBeforeBrace => "}"
  }


  /** Where a match of `KEY\s*:\s*` puts its colon and where it ends. */
  datatype KeyMatch = KeyMatch(colon: nat, end: nat)

  /** What each part of `KEY\s*:\s*` requires of the text when the match starts at `i`:
      the key, whitespace up to the colon, and whitespace after it that runs up to the
      first other character, because the trailing `\s*` is greedy. */
  predicate KeyColonAt(s: string, i: nat, key: string, k: KeyMatch) {
    i + |key| <= k.colon < k.end <= |s|
    && OccursAt(s, i, key)
    && SpaceBetween(s, i + |key|, k.colon) && s[k.colon] == ':'
    && SpaceBetween(s, k.colon + 1, k.end) && (k.end == |s| || !IsSpace(s[k.end]))
  }

  /** `KEY\s*:\s*` at index `i`, if it matches there. */
  function KeyColon(s: string, i: nat, key: string): (r: Option<KeyMatch>)
    requires i <= |s|
    ensures r.Some? ==> KeyColonAt(s, i, key, r.value)
  {
    if OccursAt(s, i, key) then
      var j := SkipSpace(s, i + |key|);
      if j < |s| && s[j] == ':' then
        Some(KeyMatch(j, SkipSpace(s, j + 1)))
      else None
    else None
  }

  /** `KeyColon` finds every match of `KEY\s*:\s*`: whenever the text has the parts
      of the pattern at `i`, that is the match it returns. */
  lemma KeyColonExact(s: string, i: nat, key: string, k: KeyMatch)
    requires i <= |s| && KeyColonAt(s, i, key, k)
    ensures KeyColon(s, i, key) == Some(k)
  {
    SkipSpaceTo(s, i + |key|, k.colon);
    SkipSpaceTo(s, k.colon + 1, k.end);
  }

  /** `\s*("answer"\s*:\s*)` from index `i`: where the key starts, and the colon and
      end of the key's match. */
  function AnswerFollows(s: string, i: nat): (r: Option<(nat, KeyMatch)>)
    requires i <= |s|
    ensures r.Some? ==> i <= r.value.0 <= |s| && SpaceBetween(s, i, r.value.0)
    ensures r.Some? ==> KeyColonAt(s, r.value.0, AnswerKey, r.value.1)
  {
    var g := SkipSpace(s, i);
    match KeyColon(s, g, AnswerKey)
    case Some(k) => Some((g, k))
    case None => None
  }

  /** `AnswerFollows` finds every `\s*("answer"\s*:\s*)`: whitespace from `i` up to a
      match of `"answer"\s*:\s*` at `g` is exactly what it returns. */
  lemma AnswerFollowsExact(s: string, i: nat, g: nat, k: KeyMatch)
    requires i <= g <= |s| && SpaceBetween(s, i, g) && KeyColonAt(s, g, AnswerKey, k)
    ensures AnswerFollows(s, i) == Some((g, k))
  {
    assert s[g + 0] == AnswerKey[0];
    SkipSpaceTo(s, i, g);
    KeyColonExact(s, g, AnswerKey, k);
  }

  /** A quote at `k` after which `\s*"answer"\s*:` follows: where line 129's lazy body may stop. */
  predicate CanClose(s: string, k: nat)
    requires k < |s|
  {
    s[k] == '"' && AnswerFollows(s, k + 1).Some?
  }

  /** The lazy `.*?` followed by a stop test, from index `c`: the first index at which
      `stop` holds, tried before each character is consumed; `.` does not match a
      newline, so the scan gives up at one. */
  function LazyScan(s: string, c: nat, stop: nat -> bool): (r: Option<nat>)
    requires c <= |s|
    ensures r.Some? ==> c <= r.value < |s| && stop(r.value)
    decreases |s| - c
  {
    if c == |s| then None
    else if stop(c) then Some(c)
    else if s[c] == '\n' then None
    else LazyScan(s, c + 1, stop)
  }

  /** The lazy scan stops as early as it can: it crosses no newline and no earlier
      index at which it could have stopped. */
  lemma {:induction false} LazyScanShortest(s: string, c: nat, stop: nat -> bool)
    requires c <= |s| && LazyScan(s, c, stop).Some?
    ensures forall k :: c <= k < LazyScan(s, c, stop).value ==> s[k] != '\n' && !stop(k)
    decreases |s| - c
  {
    if !stop(c) {
      LazyScanShortest(s, c + 1, stop);
    }
  }

  /** When the lazy scan fails and no newline is in the way, it could stop nowhere. */
  lemma {:induction false} LazyScanComplete(s: string, c: nat, stop: nat -> bool)
    requires c <= |s| && LazyScan(s, c, stop).None?
    requires forall k :: c <= k < |s| ==> s[k] != '\n'
    ensures forall k :: c <= k < |s| ==> !stop(k)
    decreases |s| - c
  {
    if c < |s| {
      LazyScanComplete(s, c + 1, stop);
    }
  }

  /** The lazy scan finds every stopping point that no newline and no earlier
      stopping point hides. */
  lemma {:induction false} LazyScanExact(s: string, c: nat, stop: nat -> bool, e: nat)
    requires c <= e < |s| && stop(e)
    requires forall k :: c <= k < e ==> s[k] != '\n' && !stop(k)
    ensures LazyScan(s, c, stop) == Some(e)
    decreases e - c
  {
    if c < e {
      LazyScanExact(s, c + 1, stop, e);
    }
  }

  /** The stop test of line 129's lazy body: a quote followed by `\s*"answer"\s*:`. */
  function ClosesAt(s: string): nat -> bool {
    (k: nat) => k < |s| && CanClose(s, k)
  }

  /** The lazy `.*?\"` of line 129 from the value's first character `c`: the index of
      its closing quote. */
  function LazyClose(s: string, c: nat): (r: Option<nat>)
    requires c <= |s|
    ensures r.Some? ==> c <= r.value < |s| && CanClose(s, r.value)
  {
    LazyScan(s, c, ClosesAt(s))
  }

  /** `"question"\s*:\s*"` at the start of `s`: the match of `"question"\s*:\s*`, whose
      end is the value's opening quote. */
  function QuestionValue(s: string): (r: Option<KeyMatch>)
    ensures r.Some? ==> KeyColonAt(s, 0, QuestionKey, r.value)
    ensures r.Some? ==> r.value.end < |s| && s[r.value.end] == '"' && StartsWith(s, QuestionKey)
  {
    match KeyColon(s, 0, QuestionKey)
    case Some(k) =>
      OccursAtStart(s, QuestionKey);
      if k.end < |s| && s[k.end] == '"' then Some(k) else None
    case None => None
  }

  /** `QuestionValue` finds every `"question"\s*:\s*"` at the start of a text. */
  lemma QuestionValueExact(s: string, k: KeyMatch)
    requires KeyColonAt(s, 0, QuestionKey, k) && k.end < |s| && s[k.end] == '"'
    ensures QuestionValue(s) == Some(k)
  {
    KeyColonExact(s, 0, QuestionKey, k);
  }

  /** The positions of a line-129 match at the start of a text: the question's colon,
      the value's first character, its closing quote, the start of `"answer"`, the
      answer's colon and the end of the match. */
  datatype Span = Span(qcolon: nat, open: nat, close: nat, answer: nat, acolon: nat, end: nat)

  /** What each part of line 129's pattern requires of the text at those positions:
      `"question"\s*:\s*"` up to the value, a closing quote, whitespace, and
      `"answer"\s*:\s*` with its greedy end. */
  predicate SpanOf(s: string, sp: Span) {
    |QuestionKey| < sp.open <= sp.close < sp.answer < sp.end <= |s|
    && StartsWith(s, QuestionKey)
    && KeyColonAt(s, 0, QuestionKey, KeyMatch(sp.qcolon, sp.open - 1)) && s[sp.open - 1] == '"'
    && s[sp.close] == '"' && SpaceBetween(s, sp.close + 1, sp.answer)
    && KeyColonAt(s, sp.answer, AnswerKey, KeyMatch(sp.acolon, sp.end))
  }

  /** Where line 129's pattern matches at the start of `s`, if it does. */
  function QuestionAnswerSpan(s: string): (r: Option<Span>)
    ensures r.Some? ==> SpanOf(s, r.value)
  {
    var q := QuestionValue(s);
    if q.None? then None
    else
      var open := q.value.end + 1;
      var close := LazyClose(s, open);
      if close.None? then None
      else
        var tail := AnswerFollows(s, close.value + 1);
        if tail.None? then None
        else Some(Span(q.value.colon, open, close.value, tail.value.0, tail.value.1.colon, tail.value.1.end))
  }

  /** The lazy `.*?\"` of line 129 stops at the first quote after which
      `\s*"answer"\s*:` follows, when no newline comes before it. */
  lemma LazyCloseExact(s: string, open: nat, close: nat)
    requires open <= close < |s| && CanClose(s, close)
    requires forall k :: open <= k < close ==> s[k] != '\n' && !CanClose(s, k)
    ensures LazyClose(s, open) == Some(close)
  {
    LazyScanExact(s, open, ClosesAt(s), close);
  }

  /** The quote at `sp.close` lets the lazy body stop: `\s*"answer"\s*:` follows it. */
  lemma SpanCloses(s: string, sp: Span)
    requires SpanOf(s, sp)
    ensures CanClose(s, sp.close)
    ensures AnswerFollows(s, sp.close + 1) == Some((sp.answer, KeyMatch(sp.acolon, sp.end)))
  {
    AnswerFollowsExact(s, sp.close + 1, sp.answer, KeyMatch(sp.acolon, sp.end));
  }

  /** `QuestionAnswerSpan` assembles its span from its three scans. */
  lemma QuestionAnswerSpanOfScans(s: string, q: KeyMatch, close: nat, g: nat, k: KeyMatch)
    requires QuestionValue(s) == Some(q)
    requires LazyClose(s, q.end + 1) == Some(close)
    requires AnswerFollows(s, close + 1) == Some((g, k))
    ensures QuestionAnswerSpan(s) == Some(Span(q.colon, q.end + 1, close, g, k.colon, k.end))
  {
  }

  /** `QuestionAnswerSpan` finds every line-129 match at the start of a text: when the
      text has the parts of the pattern at `sp` and the value stops at its first viable
      quote without crossing a newline, that is the span it returns. */
  lemma QuestionAnswerSpanExact(s: string, sp: Span)
    requires SpanOf(s, sp)
    requires forall k :: sp.open <= k < sp.close ==> s[k] != '\n' && !CanClose(s, k)
    ensures QuestionAnswerSpan(s) == Some(sp)
  {
    var q := KeyMatch(sp.qcolon, sp.open - 1);
    QuestionValueExact(s, q);
    SpanCloses(s, sp);
    LazyCloseExact(s, sp.open, sp.close);
    QuestionAnswerSpanOfScans(s, q, sp.close, sp.answer, KeyMatch(sp.acolon, sp.end));
  }

  /** Line 129's replacement `\1, \2` for the match at `sp`: group 1 is the text up to
      and including the closing quote, group 2 runs from `"answer"` to the match's end. */
  function Rejoin(s: string, sp: Span): string
    requires sp.close < sp.answer <= sp.end <= |s|
  {
    s[..sp.close + 1] + ", " + s[sp.answer..sp.end]
  }

  /** The separator sits right after group 1. */
  lemma RejoinComma(s: string, sp: Span)
    requires sp.close < sp.answer <= sp.end <= |s|
    ensures sp.close + 1 < |Rejoin(s, sp)| && Rejoin(s, sp)[sp.close + 1] == ','
  {
  }

  /** The replacement ends with the last character of the match. */
  lemma RejoinLast(s: string, sp: Span)
    requires sp.close < sp.answer < sp.end <= |s|
    ensures EndsWith(Rejoin(s, sp), s[sp.end - 1])
  {
  }

  /** Every character of the replacement comes from the text or from the separator. */
  lemma RejoinChars(s: string, sp: Span, c: char)
    requires sp.close < sp.answer <= sp.end <= |s| && c in Rejoin(s, sp)
    ensures c in s || c in ", "
  {
    if c in s[..sp.close + 1] {
      var i :| 0 <= i < sp.close + 1 && s[..sp.close + 1][i] == c;
      assert s[i] == c;
    } else if c in s[sp.answer..sp.end] {
      var i :| 0 <= i < sp.end - sp.answer && s[sp.answer..sp.end][i] == c;
      assert s[sp.answer + i] == c;
    }
  }

  /** Line 129's pattern at the start of `s`: the match keeps group 1 (the question
      field through its closing quote), writes `, `, and keeps group 2 (`"answer"\s*:\s*`). */
  function QuestionAnswerAt(s: string): (h: Option<Hit>)
    ensures h.Some? ==> 0 < h.value.len <= |s|
  {
    var sp := QuestionAnswerSpan(s);
    if sp.None? then None else Some(Hit(sp.value.end, Rejoin(s, sp.value)))
  }

  /** `FIRST\s*LAST` at the start of `s`, to be replaced by `output`. */
  function Spaced(s: string, first: char, last: char, output: string): (h: Option<Hit>)
    ensures h.Some? ==> 1 < h.value.len <= |s| && h.value.output == output
    ensures h.Some? ==> s[0] == first && AllSpace(s[1..h.value.len - 1]) && s[h.value.len - 1] == last
  {
    if s != [] && s[0] == first then
      var j := SkipSpace(s, 1);
      if j < |s| && s[j] == last then
        SpaceBetweenIff(s, 1, j);
        assert forall k :: 0 <= k < j - 1 ==> s[1..j][k] == s[1 + k];
        Some(Hit(j + 1, output))
      else None
    else None
  }

  /** `Spaced` finds every `FIRST\s*LAST` at the start of a text when `LAST` is not
      whitespace. */
  lemma SpacedExact(s: string, first: char, last: char, output: string, len: nat)
    requires 1 < len <= |s| && s[0] == first && AllSpace(s[1..len - 1]) && s[len - 1] == last
    requires !IsSpace(last)
    ensures Spaced(s, first, last, output) == Some(Hit(len, output))
  {
    forall q | 1 <= q < len - 1 ensures IsSpace(s[q]) {
      assert s[1..len - 1][q - 1] == s[q];
    }
    SpaceBetweenIff(s, 1, len - 1);
    SkipSpaceTo(s, 1, len - 1);
  }

  /** `FIRST\s*LAST` does not match where `FIRST` is followed by a character that is
      neither whitespace nor `LAST`. */
  lemma SpacedNone(s: string, first: char, last: char, output: string)
    requires 1 < |s| && s[0] == first && !IsSpace(s[1]) && s[1] != last
    ensures Spaced(s, first, last, output).None?
  {
    SkipSpaceTo(s, 1, 1);
  }

  /** The match of repair `rw` at the start of `s`, if there is one. */
  function MatchAt(rw: Repair, s: string): (h: Option<Hit>)
    ensures h.Some? ==> 0 < h.value.len <= |s|
  {
    match rw
    case QuestionAnswerGap => QuestionAnswerAt(s)
    case ObjectGap => Spaced(s, '}', '{', "}, {")
    case CommaBeforeBracket => Spaced(s, ',', ']', "]")
    case CommaBeforeBrace => Spaced(s, ',', '}', "}")
  }

  function RepairMatcher(rw: Repair): (m: Matcher)
    ensures Advances(m)
  {
    t => MatchAt(rw, t)
  }

  /** `re.sub(pattern, replacement, s)` for one of the four repairs. */
  function Substitute(rw: Repair, s: string): string {
    Sub(RepairMatcher(rw), s)
  }

  /** The matcher of `str.replace(target, replacement)`. */
  function LiteralMatcher(target: string, replacement: string): (m: Matcher)
    requires target != []
    ensures Advances(m)
  {
    t => if StartsWith(t, target) then Some(Hit(|target|, replacement)) else None
  }

  /** `s.replace(target, replacement)` for a non-empty `target`. */
  function Replace(s: string, target: string, replacement: string): string
    requires target != []
  {
    Sub(LiteralMatcher(target, replacement), s)
  }

  /** The lazy body of line 129 stops at the first quote it can: the question's value
      holds no newline and no earlier quote followed by `\s*"answer"\s*:`. */
  lemma QuestionAnswerShortest(s: string)
    requires QuestionAnswerSpan(s).Some?
    ensures var sp := QuestionAnswerSpan(s).value;
            forall k :: sp.open <= k < sp.close ==> s[k] != '\n' && !CanClose(s, k)
  {
    var sp := QuestionAnswerSpan(s).value;
    var open := QuestionValue(s).value.end + 1;
    assert sp.open == open && sp.close == LazyScan(s, open, ClosesAt(s)).value;
    LazyScanShortest(s, open, ClosesAt(s));
    forall k | sp.open <= k < sp.close ensures s[k] != '\n' && !CanClose(s, k) {
      assert !ClosesAt(s)(k);
    }
  }

  /** Every change line 129 makes keeps the question field up to and including its
      closing quote, replaces the whitespace run before `"answer"` by exactly `, `, and
      keeps `"answer"\s*:\s*`. */
  lemma QuestionAnswerGapChange(s: string)
    requires QuestionAnswerAt(s).Some?
    ensures QuestionAnswerSpan(s).Some?
    ensures SpanOf(s, QuestionAnswerSpan(s).value)
    ensures QuestionAnswerAt(s).value.len == QuestionAnswerSpan(s).value.end
    ensures QuestionAnswerAt(s).value.output == Rejoin(s, QuestionAnswerSpan(s).value)
  {
  }

  /** Line 129 writes `,` where the first character after the closing quote was:
      whitespace or the quote that opens `"answer"`. */
  lemma QuestionAnswerAlters(s: string) returns (d: nat)
    requires QuestionAnswerAt(s).Some?
    ensures d < QuestionAnswerAt(s).value.len && d < |QuestionAnswerAt(s).value.output|
    ensures QuestionAnswerAt(s).value.output[d] != s[d]
  {
    QuestionAnswerGapChange(s);
    var sp := QuestionAnswerSpan(s).value;
    RejoinComma(s, sp);
    d := sp.close + 1;
    if d < sp.answer {
      assert IsSpace(s[d]);
    } else {
      assert s[sp.answer + 0] == AnswerKey[0];
    }
    assert QuestionAnswerAt(s).value.output[d] == ',';
  }

  /** A repair never writes back the text it matched: the replacement differs from
      the match at an offset both share. */
  lemma RepairAlters(rw: Repair, s: string) returns (d: nat)
    requires MatchAt(rw, s).Some?
    ensures d < MatchAt(rw, s).value.len && d < |MatchAt(rw, s).value.output|
    ensures MatchAt(rw, s).value.output[d] != s[d]
  {
    match rw
    case QuestionAnswerGap =>
      d := QuestionAnswerAlters(s);
    case ObjectGap =>
      d := 1;
      var len := MatchAt(rw, s).value.len;
      if len > 2 {
        assert s[1..len - 1][0] == s[1];
      }
    case CommaBeforeBracket => d := 0;
    case CommaBeforeBrace => d := 0;
  }

  /** A repair leaves the text unchanged exactly when its pattern matches nowhere in it. */
  lemma RepairUnchangedIff(rw: Repair, s: string)
    ensures Substitute(rw, s) == s <==> forall k :: 0 <= k < |s| ==> MatchAt(rw, s[k..]).None?
  {
    var m := RepairMatcher(rw);
    if NoMatch(m, s) {
      SubUnchanged(m, s);
    } else {
      var k := FirstMatchExists(m, s);
      var d := RepairAlters(rw, s[k..]);
      assert s[k..][d] == s[k + d];
      SubChanges(m, s, k, d);
    }
  }

  /** Repair 2 rewrites every `}` directly followed by `{`, wherever it stands, inside
      a string literal as much as between two objects. */
  lemma ObjectGapRewritesAnywhere(s: string, k: nat)
    requires k + 1 < |s| && s[k] == '}' && s[k + 1] == '{'
    ensures Substitute(ObjectGap, s) != s
  {
    SpacedExact(s[k..], '}', '{', "}, {", 2);
    RepairUnchangedIff(ObjectGap, s);
  }

  /** Repair 3 on `,]`: the comma goes. */
  lemma CommaBracket(s: string)
    requires |s| == 2 && s[0] == ',' && s[1] == ']'
    ensures Substitute(CommaBeforeBracket, s) == [']']
  {
    var m := RepairMatcher(CommaBeforeBracket);
    assert s[0..] == s;
    SpacedExact(s, ',', ']', "]", 2);
    SubFromMatch(m, s, 0, Hit(2, "]"));
  }

  /** Repair 3 on `,,]`: only the second comma goes, since no match starts at the first. */
  lemma CommaCommaBracket(s: string)
    requires |s| == 3 && s[0] == ',' && s[1] == ',' && s[2] == ']'
    ensures Substitute(CommaBeforeBracket, s) == [',', ']']
  {
    var m := RepairMatcher(CommaBeforeBracket);
    SpacedExact(s[1..], ',', ']', "]", 2);
    SubFromMatch(m, s, 1, Hit(2, "]"));
    assert s[0..] == s;
    SpacedNone(s, ',', ']', "]");
    SubFromNoMatch(m, s, 0);
  }

  /** Repair 3 is not idempotent: a second pass over `,,]` removes the comma the
      first pass kept, because `re.sub` resumes after each match it rewrites. */
  lemma CommaBeforeBracketNotIdempotent()
    ensures Substitute(CommaBeforeBracket, ",,]") == ",]"
    ensures Substitute(CommaBeforeBracket, ",]") == "]"
  {
    CommaCommaBracket(",,]");
    CommaBracket(",]");
  }

  /** Every character line 129 writes comes from the matched text or is `,` or ` `. */
  lemma QuestionAnswerChars(s: string, c: char)
    requires QuestionAnswerAt(s).Some? && c in QuestionAnswerAt(s).value.output
    ensures c in s || c in ", "
  {
    QuestionAnswerGapChange(s);
    RejoinChars(s, QuestionAnswerSpan(s).value, c);
  }

  /** Every character a match writes comes from the matched text or from the pattern's
      own replacement text. */
  lemma MatchChars(rw: Repair, s: string, c: char)
    requires MatchAt(rw, s).Some? && c in MatchAt(rw, s).value.output
    ensures c in s || c in Inserted(rw)
  {
    if rw.QuestionAnswerGap? {
      QuestionAnswerChars(s, c);
    }
  }

  /** Every character of the result comes from the input or from the pattern's
      own replacement text. */
  lemma SubstituteChars(rw: Repair, s: string, c: char)
    requires c in Substitute(rw, s)
    ensures c in s || c in Inserted(rw)
  {
    var m := RepairMatcher(rw);
    forall t | m(t).Some? && c in m(t).value.output ensures c in t || c in Inserted(rw) {
      MatchChars(rw, t, c);
    }
    SubFromChars(m, s, 0, c, Inserted(rw));
    assert s[0..] == s;
  }

  /** `str.replace` of a single character by text without it removes every occurrence. */
  lemma {:induction false} ReplaceRemovesFrom(s: string, target: string, replacement: string, i: nat)
    requires |target| == 1 && target[0] !in replacement && i <= |s|
    ensures target[0] !in SubFrom(LiteralMatcher(target, replacement), s, i)
    decreases |s| - i
  {
    if i < |s| {
      var m := LiteralMatcher(target, replacement);
      if StartsWith(s[i..], target) {
        assert m(s[i..]) == Some(Hit(1, replacement));
        ReplaceRemovesFrom(s, target, replacement, i + 1);
      } else {
        assert s[i..][..1] == [s[i]];
        assert m(s[i..]).None?;
        ReplaceRemovesFrom(s, target, replacement, i + 1);
      }
    }
  }

  lemma ReplaceRemoves(s: string, target: string, replacement: string)
    requires |target| == 1 && target[0] !in replacement
    ensures target[0] !in Replace(s, target, replacement)
  {
    ReplaceRemovesFrom(s, target, replacement, 0);
  }

  /** Every character of `s.replace(target, replacement)` comes from `s` or from the
      replacement. */
  lemma ReplaceChars(s: string, target: string, replacement: string, c: char)
    requires target != [] && c in Replace(s, target, replacement)
    ensures c in s || c in replacement
  {
    var m := LiteralMatcher(target, replacement);
    SubFromChars(m, s, 0, c, replacement);
    assert s[0..] == s;
  }

  /** A text without the first character of `target` is left as it is by `replace`. */
  lemma ReplaceAbsent(s: string, target: string, replacement: string)
    requires target != [] && target[0] !in s
    ensures Replace(s, target, replacement) == s
  {
    var m := LiteralMatcher(target, replacement);
    forall k | 0 <= k < |s| ensures m(s[k..]).None? {
      assert |target| <= |s[k..]| ==> s[k..][..|target|][0] == s[k];
    }
    SubUnchanged(m, s);
  }

  /** No repair matches at a `[`. */
  lemma NoMatchAtBracket(rw: Repair, s: string)
    requires s != [] && s[0] == '['
    ensures MatchAt(rw, s).None?
  {
    if rw.QuestionAnswerGap? && |s| >= |QuestionKey| {
      assert s[..|QuestionKey|][0] == '[';
    }
  }

  /** A repair never touches a leading `[`. */
  lemma RepairKeepsHead(rw: Repair, s: string)
    requires s != [] && s[0] == '['
    ensures Substitute(rw, s) != [] && Substitute(rw, s)[0] == '['
  {
    NoMatchAtBracket(rw, s);
    SubKeepsHead(RepairMatcher(rw), s);
  }

  /** Every repair match that covers a final `]` ends its replacement with `]`: line
      129 keeps the end of its match, and `,\s*]` writes `]`. */
  lemma TailMatchKeepsBracket(rw: Repair, t: string)
    requires MatchAt(rw, t).Some?
    ensures MatchAt(rw, t).value.len == |t| && EndsWith(t, ']') ==> EndsWith(MatchAt(rw, t).value.output, ']')
  {
    if rw.QuestionAnswerGap? {
      QuestionAnswerGapChange(t);
      var sp := QuestionAnswerSpan(t).value;
      RejoinLast(t, sp);
    }
  }

  /** Every repair match that reaches a final `]` ends its replacement with `]`. */
  lemma RepairKeepsLast(rw: Repair)
    ensures KeepsLast(RepairMatcher(rw), ']')
  {
    var m := RepairMatcher(rw);
    forall t | m(t).Some?
      ensures m(t).value.len == |t| && EndsWith(t, ']') ==> EndsWith(m(t).value.output, ']')
    {
      assert m(t) == MatchAt(rw, t);
      TailMatchKeepsBracket(rw, t);
    }
  }

  /** A repair never removes a trailing `]`. */
  lemma RepairKeepsTail(rw: Repair, s: string)
    requires EndsWith(s, ']')
    ensures EndsWith(Substitute(rw, s), ']')
  {
    RepairKeepsLast(rw);
    SubKeepsTail(RepairMatcher(rw), s, ']');
  }

  /** A text without `"question"\s*:\s*"` anywhere is left unchanged by line 129. */
  lemma QuestionAnswerGapNeedsQuestion(s: string)
    requires forall k :: 0 <= k < |s| ==> QuestionValue(s[k..]).None?
    ensures Substitute(QuestionAnswerGap, s) == s
  {
    var m := RepairMatcher(QuestionAnswerGap);
    forall k | 0 <= k < |s| ensures m(s[k..]).None? {
      assert QuestionValue(s[k..]).None?;
    }
    SubUnchanged(m, s);
  }

  /** A capture of `re.findall`: the group's text and the length of the whole match. */
  datatype Capture = Capture(text: string, len: nat)

  /** `KEY\s*:\s*"([^"]*)"` at index `i` of `s` (lines 163-164): the `KEY\s*:\s*` match,
      the opening quote, the text up to the next `"`, and that closing quote. */
  function FieldAt(s: string, key: string, i: nat): (r: Option<Capture>)
    requires i <= |s|
    ensures r.Some? ==> 0 < r.value.len <= |s| - i && '"' !in r.value.text
    ensures r.Some? ==> KeyColon(s, i, key).Some? && OccursAt(s, i, key)
    ensures r.Some? ==>
              var k := KeyColon(s, i, key).value;
              var close := i + r.value.len - 1;
              k.end < close && s[k.end] == '"' && s[close] == '"'
              && r.value.text == s[k.end + 1..close]
  {
    match KeyColon(s, i, key)
    case None => None
    case Some(k) =>
      if k.end < |s| && s[k.end] == '"' then
        var close := FindFrom(s, '"', k.end + 1);
        if close < |s| then Some(Capture(s[k.end + 1..close], close + 1 - i)) else None
      else None
  }

  /** `FieldAt` finds every `KEY\s*:\s*"([^"]*)"` at index `i` and captures the text
      between the quotes. */
  lemma FieldAtExact(s: string, key: string, i: nat, k: KeyMatch, close: nat)
    requires i <= |s| && KeyColonAt(s, i, key, k) && k.end < close < |s|
    requires s[k.end] == '"' && s[close] == '"' && '"' !in s[k.end + 1..close]
    ensures FieldAt(s, key, i) == Some(Capture(s[k.end + 1..close], close + 1 - i))
  {
    KeyColonExact(s, i, key, k);
    FindFromExact(s, '"', k.end + 1, close);
  }

  /** A pattern with one group, tried at an index of a text: the capture of the match
      that starts there, if there is one. */
  type Finder = (string, nat) -> Option<Capture>

  /** Every match lies inside the text and consumes at least one character. */
  ghost predicate Consumes(f: Finder) {
    forall s: string, i: nat :: i <= |s| && f(s, i).Some? ==> 0 < f(s, i).value.len <= |s| - i
  }

  /** `re.findall` with one group from index `i`: the captures of the matches met by a
      left-to-right scan that resumes after each match, in order. */
  function CollectFrom(f: Finder, s: string, i: nat): seq<string>
    requires Consumes(f) && i <= |s|
    decreases |s| - i
  {
    if i == |s| then []
    else
      match f(s, i)
      case Some(cap) => [cap.text] + CollectFrom(f, s, i + cap.len)
      case None => CollectFrom(f, s, i + 1)
  }

  /** A stretch in which no match starts adds no capture. */
  lemma {:induction false} CollectFromSkip(f: Finder, s: string, i: nat, k: nat)
    requires Consumes(f) && i <= k <= |s|
    requires forall j :: i <= j < k ==> f(s, j).None?
    ensures CollectFrom(f, s, i) == CollectFrom(f, s, k)
    decreases k - i
  {
    if i < k {
      CollectFromSkip(f, s, i + 1, k);
    }
  }

  /** The leftmost match at or after `i` gives the next capture, and the scan resumes
      right after it. */
  lemma CollectFromLeftmost(f: Finder, s: string, i: nat, k: nat, cap: Capture)
    requires Consumes(f) && i <= k < |s|
    requires forall j :: i <= j < k ==> f(s, j).None?
    requires f(s, k) == Some(cap)
    ensures k + cap.len <= |s|
    ensures CollectFrom(f, s, i) == [cap.text] + CollectFrom(f, s, k + cap.len)
  {
    CollectFromSkip(f, s, i, k);
  }

  /** Every capture comes from a match that starts at or after `i`. */
  lemma {:induction false} CollectFromSound(f: Finder, s: string, i: nat, j: nat) returns (p: nat)
    requires Consumes(f) && i <= |s| && j < |CollectFrom(f, s, i)|
    ensures i <= p < |s| && f(s, p).Some? && f(s, p).value.text == CollectFrom(f, s, i)[j]
    decreases |s| - i
  {
    match f(s, i)
    case Some(cap) =>
      if j == 0 {
        p := i;
      } else {
        p := CollectFromSound(f, s, i + cap.len, j - 1);
      }
    case None =>
      p := CollectFromSound(f, s, i + 1, j);
  }

  /** The finder of lines 163-164: `KEY\s*:\s*"([^"]*)"` tried at an index. */
  function FieldFinder(key: string): (f: Finder)
    ensures Consumes(f)
  {
    (s: string, i: nat) => if i <= |s| then FieldAt(s, key, i) else None
  }

  /** `re.findall(r'KEY\s*:\s*"([^"]*)"', s)` from index `i`. */
  function FindAllFrom(s: string, key: string, i: nat): (r: seq<string>)
    requires i <= |s|
    ensures forall j :: 0 <= j < |r| ==> '"' !in r[j]
  {
    var r := CollectFrom(FieldFinder(key), s, i);
    assert forall j :: 0 <= j < |r| ==> '"' !in r[j] by {
      forall j | 0 <= j < |r| ensures '"' !in r[j] {
        var _ := CollectFromSound(FieldFinder(key), s, i, j);
      }
    }
    r
  }

  /** `re.findall` over the whole text. */
  function FindAll(s: string, key: string): (r: seq<string>)
    ensures forall j :: 0 <= j < |r| ==> '"' !in r[j]
  {
    FindAllFrom(s, key, 0)
  }

  /** A stretch in which no field match starts adds no capture. */
  lemma FindAllFromSkip(s: string, key: string, i: nat, k: nat)
    requires i <= k <= |s|
    requires forall j :: i <= j < k ==> FieldAt(s, key, j).None?
    ensures FindAllFrom(s, key, i) == FindAllFrom(s, key, k)
  {
    CollectFromSkip(FieldFinder(key), s, i, k);
  }

  /** The leftmost field match at or after `i` gives the next capture, its quoted text,
      and the scan resumes right after that match, so matches never overlap. */
  lemma FindAllLeftmost(s: string, key: string, i: nat, k: nat, cap: Capture)
    requires i <= k < |s|
    requires forall j :: i <= j < k ==> FieldAt(s, key, j).None?
    requires FieldAt(s, key, k) == Some(cap)
    ensures k + cap.len <= |s|
    ensures FindAllFrom(s, key, i) == [cap.text] + FindAllFrom(s, key, k + cap.len)
  {
    CollectFromLeftmost(FieldFinder(key), s, i, k, cap);
  }

  /** Every capture is the quoted text of a field match that starts at or after `i`. */
  lemma FindAllFromSound(s: string, key: string, i: nat, j: nat) returns (p: nat)
    requires i <= |s| && j < |FindAllFrom(s, key, i)|
    ensures i <= p < |s| && FieldAt(s, key, p).Some?
    ensures FieldAt(s, key, p).value.text == FindAllFrom(s, key, i)[j]
  {
    p := CollectFromSound(FieldFinder(key), s, i, j);
  }

  /** A text in which `KEY` never occurs has no captures. */
  lemma FindAllWithoutKey(s: string, key: string, i: nat)
    requires i <= |s| && forall k :: i <= k < |s| ==> !OccursAt(s, k, key)
    ensures FindAllFrom(s, key, i) == []
  {
    FindAllFromSkip(s, key, i, |s|);
  }
}
