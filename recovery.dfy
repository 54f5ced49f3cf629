/** The text-recovery pipeline of `generate_dummy_data` (api.py lines 88-169): the
    model's reply is normalised, cut down to its array, repaired, checked for an array
    shape and decoded in two tiers into flashcards. */
module Recovery {
  import opened Wrappers
  import opened Strings
  import opened Substitution
  import opened Scanning
  import opened Json
  import opened Retry

  /** The dict keys a flashcard needs (lines 148 and 154). */
  const QuestionField: string := "question"
  const AnswerField: string := "answer"

  /** The prefix line 169 puts before every error message. */
  const UnexpectedError: string := "Unexpected error: "
  /** The message of the structure gate (line 138). */
  const InvalidStructure: string := "Invalid JSON array structure"
  /** The `max_attempts` of the decorator on `generate_dummy_data` (line 87). */
  const MaxAttempts: int := 5

  // ---------------------------------------------------------------- normalizer

  /** Lines 113-118: strip, then turn `'` into `"`, then delete newlines, tabs and the
      two characters backslash-`n`, each `str.replace` in one left-to-right pass. */
  function Normalize(raw: string): string {
    var s := Strip(raw);
    var s := Replace(s, "'", "\"");
    var s := Replace(s, "\n", "");
    var s := Replace(s, "\t", "");
    Replace(s, "\\n", "")
  }

  /** The normalised text has no single quote, no newline and no tab. */
  lemma NormalizeClean(raw: string)
    ensures '\'' !in Normalize(raw) && '\n' !in Normalize(raw) && '\t' !in Normalize(raw)
  {
    var s1 := Strip(raw);
    var s2 := Replace(s1, "'", "\"");
    ReplaceRemoves(s1, "'", "\"");
    var s3 := Replace(s2, "\n", "");
    ReplaceRemoves(s2, "\n", "");
    if '\'' in s3 { ReplaceChars(s2, "\n", "", '\''); }
    var s4 := Replace(s3, "\t", "");
    ReplaceRemoves(s3, "\t", "");
    if '\'' in s4 { ReplaceChars(s3, "\t", "", '\''); }
    if '\n' in s4 { ReplaceChars(s3, "\t", "", '\n'); }
    var s5 := Replace(s4, "\\n", "");
    if '\'' in s5 { ReplaceChars(s4, "\\n", "", '\''); }
    if '\n' in s5 { ReplaceChars(s4, "\\n", "", '\n'); }
    if '\t' in s5 { ReplaceChars(s4, "\\n", "", '\t'); }
  }

  /** Deleting backslash-`n` from `\n x` leaves ` x`. */
  lemma DropEscapedNewline()
    ensures Replace("\\n x", "\\n", "") == " x"
  {
    var s := "\\n x";
    var m := LiteralMatcher("\\n", "");
    assert m(s[0..]) == Some(Hit(2, ""));
    assert s[2..][..2][0] == ' ';
    assert m(s[2..]).None?;
    assert s[3..][..1] == "x";
    assert m(s[3..]).None?;
  }

  /** The strip runs before the deletions, so the normalised text can start with
      whitespace: the reply `\n x` (a backslash, `n`, a space, `x`) becomes ` x`. */
  lemma NormalizeMayStartWithSpace()
    ensures Normalize("\\n x") == " x"
  {
    var raw := "\\n x";
    assert '\'' !in raw && '\n' !in raw && '\t' !in raw by {
      assert raw == ['\\', 'n', ' ', 'x'];
    }
    assert Strip(raw) == raw by { StripFactor(raw, 0, |raw|); }
    assert Replace(raw, "'", "\"") == raw by { ReplaceAbsent(raw, "'", "\""); }
    assert Replace(raw, "\n", "") == raw by { ReplaceAbsent(raw, "\n", ""); }
    assert Replace(raw, "\t", "") == raw by { ReplaceAbsent(raw, "\t", ""); }
    DropEscapedNewline();
  }

  /** The reply `[]` is left as it is by the normaliser. */
  lemma NormalizeEmptyArray()
    ensures Normalize("[]") == "[]"
  {
    var raw := "[]";
    assert '\'' !in raw && '\n' !in raw && '\t' !in raw && '\\' !in raw by {
      assert raw == ['[', ']'];
    }
    assert Strip(raw) == raw by { StripFactor(raw, 0, |raw|); }
    assert Replace(raw, "'", "\"") == raw by { ReplaceAbsent(raw, "'", "\""); }
    assert Replace(raw, "\n", "") == raw by { ReplaceAbsent(raw, "\n", ""); }
    assert Replace(raw, "\t", "") == raw by { ReplaceAbsent(raw, "\t", ""); }
    assert Replace(raw, "\\n", "") == raw by { ReplaceAbsent(raw, "\\n", ""); }
  }

  // ---------------------------------------------------------------- array locator

  /** Some `[` occurs before some later `]`. */
  ghost predicate HasBracketPair(n: string) {
    exists i, j :: 0 <= i < j < |n| && n[i] == '[' && n[j] == ']'
  }

  /** Lines 122-125. `end_idx` is `rfind("]") + 1`, which is never -1, so the slice is
      taken whenever a `[` exists. */
  function LocateArray(n: string): string {
    var startIdx := Find(n, '[');
    var endIdx := RFind(n, ']') + 1;
    if startIdx != -1 && endIdx != -1 then Slice(n, startIdx, endIdx) else n
  }

  /** A text without `[` is left as it is. */
  lemma LocateArrayUnchanged(n: string)
    requires '[' !in n
    ensures LocateArray(n) == n
  {
  }

  /** A text with a `[` but no later `]` is cut down to nothing. */
  lemma LocateArrayEmpty(n: string)
    requires '[' in n && !HasBracketPair(n)
    ensures LocateArray(n) == []
  {
    var i := Find(n, '[');
    var j := RFind(n, ']');
    assert n[i] == '[';
    assert j >= 0 ==> n[j] == ']';
  }

  lemma SliceBrackets(n: string, i: nat, j: nat)
    requires i < j < |n| && n[i] == '[' && n[j] == ']'
    ensures IsArrayShaped(n[i..j + 1])
  {
    var r := n[i..j + 1];
    assert r[..1] == [r[0]];
  }

  /** When a `[` precedes a `]`, so does the first `[` precede the last `]`. */
  lemma BracketOrder(n: string)
    requires HasBracketPair(n)
    ensures 0 <= Find(n, '[') < RFind(n, ']')
  {
    var a, b :| 0 <= a < b < |n| && n[a] == '[' && n[b] == ']';
    FindFirst(n, '[', a);
    RFindLast(n, ']', b);
  }

  lemma LocateArrayBetween(n: string, i: nat, j: nat)
    requires i == Find(n, '[') && j == RFind(n, ']') && i < j
    ensures LocateArray(n) == n[i..j + 1]
  {
  }

  /** When a `[` precedes a `]`, the located text runs from the first `[` of the input
      to its last `]`, both included. */
  lemma LocateArrayBrackets(n: string) returns (i: nat, j: nat)
    requires HasBracketPair(n)
    ensures i < j < |n| && LocateArray(n) == n[i..j + 1]
    ensures n[i] == '[' && '[' !in n[..i]
    ensures n[j] == ']' && ']' !in n[j + 1..]
  {
    BracketOrder(n);
    i, j := Find(n, '['), RFind(n, ']');
    LocateArrayBetween(n, i, j);
  }

  /** ... and so it starts with `[` and ends with `]`. */
  lemma LocateArrayShaped(n: string)
    requires HasBracketPair(n)
    ensures IsArrayShaped(LocateArray(n))
  {
    var i, j := LocateArrayBrackets(n);
    SliceBrackets(n, i, j);
  }

  /** ... and by the locator. */
  lemma LocateEmptyArray()
    ensures LocateArray("[]") == "[]"
  {
    var s := "[]";
    assert HasBracketPair(s) by { assert s[0] == '[' && s[1] == ']'; }
    var i, j := LocateArrayBrackets(s);
    assert s[i..j + 1] == s;
  }

  // ---------------------------------------------------------------- repairs and gate

  /** Lines 129-134: the four `re.sub` repairs, in order. */
  function ApplyRepairs(s: string): string {
    var s := Substitute(QuestionAnswerGap, s);
    var s := Substitute(ObjectGap, s);
    var s := Substitute(CommaBeforeBracket, s);
    Substitute(CommaBeforeBrace, s)
  }

  /** The test of line 137: `startswith("[")` and `endswith("]")`. */
  predicate IsArrayShaped(s: string) {
    StartsWith(s, "[") && EndsWith(s, ']')
  }

  /** One repair keeps a leading `[` and a trailing `]`. */
  lemma SubstituteKeepsShape(rw: Repair, s: string)
    requires IsArrayShaped(s)
    ensures IsArrayShaped(Substitute(rw, s))
  {
    RepairKeepsHead(rw, s);
    RepairKeepsTail(rw, s);
  }

  /** The repairs never remove a leading `[` or a trailing `]`. */
  lemma RepairKeepsShape(s: string)
    requires IsArrayShaped(s)
    ensures IsArrayShaped(ApplyRepairs(s))
  {
    var s1 := Substitute(QuestionAnswerGap, s);
    SubstituteKeepsShape(QuestionAnswerGap, s);
    var s2 := Substitute(ObjectGap, s1);
    SubstituteKeepsShape(ObjectGap, s1);
    var s3 := Substitute(CommaBeforeBracket, s2);
    SubstituteKeepsShape(CommaBeforeBracket, s2);
    SubstituteKeepsShape(CommaBeforeBrace, s3);
  }

  /** One repair writes no `[` of its own. */
  lemma SubstituteNoBracket(rw: Repair, s: string)
    requires '[' !in s
    ensures '[' !in Substitute(rw, s)
  {
    if '[' in Substitute(rw, s) {
      SubstituteChars(rw, s, '[');
    }
  }

  /** The repairs create no `[`. */
  lemma RepairNoBracket(s: string)
    requires '[' !in s
    ensures '[' !in ApplyRepairs(s)
  {
    var s1 := Substitute(QuestionAnswerGap, s);
    SubstituteNoBracket(QuestionAnswerGap, s);
    var s2 := Substitute(ObjectGap, s1);
    SubstituteNoBracket(ObjectGap, s1);
    var s3 := Substitute(CommaBeforeBracket, s2);
    SubstituteNoBracket(CommaBeforeBracket, s2);
    SubstituteNoBracket(CommaBeforeBrace, s3);
  }

  /** The gate of lines 137-138 passes exactly when the normalised text has a `[`
      before some later `]`. */
  lemma GateIff(n: string)
    ensures IsArrayShaped(ApplyRepairs(LocateArray(n))) <==> HasBracketPair(n)
  {
    var r := LocateArray(n);
    if HasBracketPair(n) {
      LocateArrayShaped(n);
      RepairKeepsShape(r);
    } else if '[' !in n {
      LocateArrayUnchanged(n);
      RepairNoBracket(r);
      var t := ApplyRepairs(r);
      if t != [] { assert t[..1][0] == t[0]; }
    } else {
      LocateArrayEmpty(n);
      assert Sub(RepairMatcher(QuestionAnswerGap), []) == [];
      assert Sub(RepairMatcher(ObjectGap), []) == [];
      assert Sub(RepairMatcher(CommaBeforeBracket), []) == [];
      assert Sub(RepairMatcher(CommaBeforeBrace), []) == [];
    }
  }

  /** ... and by each repair. */
  lemma SubstituteEmptyArray(rw: Repair)
    ensures Substitute(rw, "[]") == "[]"
  {
    var s := "[]";
    NoMatchAtBracket(rw, s);
    assert s[1..] == "]";
    assert MatchAt(rw, s[1..]).None?;
    RepairUnchangedIff(rw, s);
  }

  /** The reply `[]` reaches the decoder as `[]`, which passes the gate. */
  lemma EmptyArrayPipeline()
    ensures ApplyRepairs(LocateArray(Normalize("[]"))) == "[]"
    ensures HasBracketPair(Normalize("[]"))
  {
    var s := "[]";
    assert Normalize(s) == s by { NormalizeEmptyArray(); }
    assert LocateArray(s) == s by { LocateEmptyArray(); }
    SubstituteEmptyArray(QuestionAnswerGap);
    SubstituteEmptyArray(ObjectGap);
    SubstituteEmptyArray(CommaBeforeBracket);
    SubstituteEmptyArray(CommaBeforeBrace);
    assert s[0] == '[' && s[1] == ']';
  }

  // ---------------------------------------------------------------- tier 1

  /** A dict with both `question` and `answer`, copied into a card as it is. */
  function CardOf(v: Json): (c: Option<Card>)
    ensures c.Some? <==> v.Object? && QuestionField in v.fields && AnswerField in v.fields
    ensures c.Some? ==> c.value.question == v.fields[QuestionField] && c.value.answer == v.fields[AnswerField]
  {
    if v.Object? && QuestionField in v.fields && AnswerField in v.fields then
      Some(Card(v.fields[QuestionField], v.fields[AnswerField]))
    else None
  }

  /** What the loop of lines 146-157 does with one element: a dict is accepted when it
      has both keys; a string is decoded once more and accepted when that gives such a
      dict; an undecodable string and every other kind of element are skipped. */
  function Accept(item: Json, decode: Decoder): Option<Card> {
    if item.Object? then CardOf(item)
    else if item.String? then
      var obj := decode(item.text);
      if obj.Some? then CardOf(obj.value) else None
    else None
  }

  /** A dict element is accepted exactly when it has both keys, a string element exactly
      when it decodes to such a dict, and no other element is; the values are copied. */
  lemma AcceptIff(item: Json, decode: Decoder)
    ensures item.Object? ==>
              (Accept(item, decode).Some? <==> QuestionField in item.fields && AnswerField in item.fields)
    ensures item.String? ==>
              (Accept(item, decode).Some? <==>
                 decode(item.text).Some? && decode(item.text).value.Object?
                 && QuestionField in decode(item.text).value.fields && AnswerField in decode(item.text).value.fields)
    ensures !item.Object? && !item.String? ==> Accept(item, decode).None?
    ensures Accept(item, decode).Some? && item.Object? ==>
              Accept(item, decode).value == Card(item.fields[QuestionField], item.fields[AnswerField])
    ensures Accept(item, decode).Some? && item.String? ==>
              Accept(item, decode).value
              == Card(decode(item.text).value.fields[QuestionField], decode(item.text).value.fields[AnswerField])
  {
  }

  /** The cards tier 1 collects from the elements of a decoded array, in order. */
  function Tier1(items: seq<Json>, decode: Decoder): (r: seq<Card>)
    ensures |r| <= |items|
  {
    if items == [] then []
    else
      var a := Accept(items[|items| - 1], decode);
      Tier1(items[..|items| - 1], decode) + (if a.Some? then [a.value] else [])
  }

  /** Tier 1 over two stretches of elements is tier 1 over the first, then the second. */
  lemma {:induction false} Tier1Append(a: seq<Json>, b: seq<Json>, decode: Decoder)
    ensures Tier1(a + b, decode) == Tier1(a, decode) + Tier1(b, decode)
    decreases |b|
  {
    if b == [] {
      assert a + b == a;
    } else {
      var init := b[..|b| - 1];
      assert (a + b)[..|a + b| - 1] == a + init;
      Tier1Append(a, init, decode);
    }
  }

  /** Tier 1 keeps exactly the accepted elements, in array order: the `k`-th card comes
      from the element at `idx[k]`, the indices increase, and every accepted element is
      among them. */
  lemma {:induction false} Tier1Order(items: seq<Json>, decode: Decoder) returns (idx: seq<nat>)
    ensures |idx| == |Tier1(items, decode)|
    ensures forall k :: 0 <= k < |idx| ==>
              idx[k] < |items| && Accept(items[idx[k]], decode) == Some(Tier1(items, decode)[k])
    ensures forall k, l :: 0 <= k < l < |idx| ==> idx[k] < idx[l]
    ensures forall e :: 0 <= e < |items| && Accept(items[e], decode).Some? ==> e in idx
  {
    if items == [] {
      idx := [];
    } else {
      var n := |items| - 1;
      var init := items[..n];
      var pre := Tier1Order(init, decode);
      assert forall e :: 0 <= e < n ==> init[e] == items[e];
      if Accept(items[n], decode).Some? {
        idx := pre + [n];
      } else {
        idx := pre;
      }
    }
  }

  /** Tier 1 finds nothing exactly when no element is accepted. */
  lemma Tier1EmptyIff(items: seq<Json>, decode: Decoder)
    ensures Tier1(items, decode) == [] <==> forall e :: 0 <= e < |items| ==> Accept(items[e], decode).None?
  {
    var idx := Tier1Order(items, decode);
    if Tier1(items, decode) != [] {
      assert Accept(items[idx[0]], decode).Some?;
    } else {
      assert idx == [];
    }
  }

  // ---------------------------------------------------------------- tier 2

  /** `zip(questions, answers)` into cards holding the captured texts. */
  function Zip(questions: seq<string>, answers: seq<string>): (r: seq<Card>)
    ensures |r| == if |questions| <= |answers| then |questions| else |answers|
    ensures forall k :: 0 <= k < |r| ==> r[k] == Card(String(questions[k]), String(answers[k]))
  {
    if questions == [] || answers == [] then []
    else [Card(String(questions[0]), String(answers[0]))] + Zip(questions[1..], answers[1..])
  }

  /** Lines 163-165: the `k`-th question capture is paired with the `k`-th answer
      capture, and no captured text contains `"`. */
  function Tier2(s: string): (r: seq<Card>)
    ensures |r| == if |FindAll(s, QuestionKey)| <= |FindAll(s, AnswerKey)|
                   then |FindAll(s, QuestionKey)| else |FindAll(s, AnswerKey)|
    ensures forall k :: 0 <= k < |r| ==>
              r[k].question == String(FindAll(s, QuestionKey)[k]) && r[k].answer == String(FindAll(s, AnswerKey)[k])
    ensures forall k :: 0 <= k < |r| ==>
              r[k].question.String? && '"' !in r[k].question.text && r[k].answer.String? && '"' !in r[k].answer.text
  {
    Zip(FindAll(s, QuestionKey), FindAll(s, AnswerKey))
  }

  // ---------------------------------------------------------------- both tiers

  /** Lines 141-165: tier 1 on the decoded array when it finds something, the tier 2
      scan of the text otherwise. */
  function DecodeTiers(s: string, decode: Decoder): seq<Card> {
    var data := decode(s);
    var first := if data.Some? && data.value.Array? then Tier1(data.value.items, decode) else [];
    if first != [] then first else Tier2(s)
  }

  /** A decode failure, a root that is not an array, or an array none of whose
      elements is accepted sends the text to tier 2. */
  lemma DecodeFallback(s: string, decode: Decoder)
    requires decode(s).None? || !decode(s).value.Array?
             || forall e :: 0 <= e < |decode(s).value.items| ==> Accept(decode(s).value.items[e], decode).None?
    ensures DecodeTiers(s, decode) == Tier2(s)
  {
    if decode(s).Some? && decode(s).value.Array? {
      Tier1EmptyIff(decode(s).value.items, decode);
    }
  }

  /** An array with an accepted element is decoded by tier 1 alone, and the result is
      not empty. */
  lemma DecodeFirstTier(s: string, decode: Decoder, e: nat)
    requires decode(s).Some? && decode(s).value.Array?
    requires e < |decode(s).value.items| && Accept(decode(s).value.items[e], decode).Some?
    ensures DecodeTiers(s, decode) == Tier1(decode(s).value.items, decode) != []
  {
    Tier1EmptyIff(decode(s).value.items, decode);
  }

  /** Both tiers can come up empty: when `[]` decodes to the empty array, tier 1 finds
      nothing and the tier 2 scan finds no field, so the pipeline yields no cards. */
  lemma EmptyArrayNoCards(decode: Decoder)
    requires decode("[]") == Some(Array([]))
    ensures DecodeTiers("[]", decode) == []
  {
    var s := "[]";
    FindAllWithoutKey(s, QuestionKey, 0);
    FindAllWithoutKey(s, AnswerKey, 0);
  }

  // ---------------------------------------------------------------- generate_dummy_data

  /** What the Groq client gives back: its construction fails (line 90, before the
      `try`), the request fails inside the `try` (lines 104-109), or a reply arrives.
      A reply without choices or without content raises inside the `try` as well
      (line 109 or the `strip` of line 113), so it is a `RequestFailure` here. */
  datatype Upstream =
    | ClientInitFailure(message: string)
    | RequestFailure(message: string)
    | Reply(content: string)

  /** The pipeline of lines 113-167 on a reply, with the gate's error re-raised by
      line 169. */
  function Recover(raw: string, decode: Decoder): Outcome<seq<Card>> {
    var s := ApplyRepairs(LocateArray(Normalize(raw)));
    if IsArrayShaped(s) then Ok(DecodeTiers(s, decode))
    else Recoverable(UnexpectedError + InvalidStructure)
  }

  /** One call of `generate_dummy_data`. */
  function Generated(up: Upstream, decode: Decoder): Outcome<seq<Card>> {
    match up
    case ClientInitFailure(e) => Other(e)
    case RequestFailure(e) => Recoverable(UnexpectedError + e)
    case Reply(raw) => Recover(raw, decode)
  }

  /** A reply either gives cards, possibly none, or fails at the gate, which happens
      exactly when the normalised reply has no `[` before a later `]`. */
  lemma RecoverFailsOnlyAtGate(raw: string, decode: Decoder)
    ensures !Recover(raw, decode).Other?
    ensures Recover(raw, decode).Recoverable? <==> !HasBracketPair(Normalize(raw))
    ensures Recover(raw, decode).Recoverable? ==>
              Recover(raw, decode).message == UnexpectedError + InvalidStructure
  {
    GateIff(Normalize(raw));
  }

  /** Every error of `generate_dummy_data` is one the decorator retries, except a
      failure to construct the client, which happens outside the `try`. */
  lemma GeneratedRetriable(up: Upstream, decode: Decoder)
    ensures Generated(up, decode).Other? <==> up.ClientInitFailure?
    ensures Generated(up, decode).Recoverable? ==> StartsWith(Generated(up, decode).message, UnexpectedError)
  {
    match up
    case ClientInitFailure(_) =>
    case RequestFailure(e) =>
      PrefixStartsWith(UnexpectedError, e);
    case Reply(raw) =>
      ReplyRetriable(raw, decode);
  }

  /** The reply case of `GeneratedRetriable`. */
  lemma ReplyRetriable(raw: string, decode: Decoder)
    ensures !Recover(raw, decode).Other?
    ensures Recover(raw, decode).Recoverable? ==> StartsWith(Recover(raw, decode).message, UnexpectedError)
  {
    RecoverFailsOnlyAtGate(raw, decode);
    PrefixStartsWith(UnexpectedError, InvalidStructure);
  }

  /** Lines 113-118, rebinding the text step by step. */
  method NormalizeReply(raw: string) returns (jsonString: string)
    ensures jsonString == Normalize(raw)
  {
    jsonString := raw;
    jsonString := Strip(jsonString);
    jsonString := Replace(jsonString, "'", "\"");
    jsonString := Replace(jsonString, "\n", "");
    jsonString := Replace(jsonString, "\t", "");
    jsonString := Replace(jsonString, "\\n", "");
  }

  /** Lines 122-125. */
  method ExtractArray(normalized: string) returns (jsonString: string)
    ensures jsonString == LocateArray(normalized)
  {
    jsonString := normalized;
    var startIdx := Find(jsonString, '[');
    var endIdx := RFind(jsonString, ']') + 1;
    if startIdx != -1 && endIdx != -1 {
      jsonString := Slice(jsonString, startIdx, endIdx);
    }
  }

  /** Lines 129-134, rebinding the text after each repair. */
  method RepairText(located: string) returns (jsonString: string)
    ensures jsonString == ApplyRepairs(located)
  {
    jsonString := located;
    jsonString := Substitute(QuestionAnswerGap, jsonString);
    jsonString := Substitute(ObjectGap, jsonString);
    jsonString := Substitute(CommaBeforeBracket, jsonString);
    jsonString := Substitute(CommaBeforeBrace, jsonString);
  }

  /** Lines 141-165: the tier 1 loop appends the accepted elements in order; an empty
      list sends the text to the tier 2 scan. */
  method DecodeCards(jsonString: string, decode: Decoder) returns (flashcards: seq<Card>)
    ensures flashcards == DecodeTiers(jsonString, decode)
  {
    flashcards := [];
    var data := decode(jsonString);
    if data.Some? && data.value.Array? {
      var items := data.value.items;
      for i := 0 to |items|
        invariant flashcards == Tier1(items[..i], decode)
      {
        var item := items[i];
        if item.Object? && QuestionField in item.fields && AnswerField in item.fields {
          flashcards := flashcards + [Card(item.fields[QuestionField], item.fields[AnswerField])];
        } else if item.String? {
          var obj := decode(item.text);
          if obj.Some? && obj.value.Object? && QuestionField in obj.value.fields && AnswerField in obj.value.fields {
            flashcards := flashcards + [Card(obj.value.fields[QuestionField], obj.value.fields[AnswerField])];
          }
        }
        assert items[..i + 1][..i] == items[..i];
      }
      assert items[..|items|] == items;
    }
    if flashcards == [] {
      var questions := FindAll(jsonString, QuestionKey);
      var answers := FindAll(jsonString, AnswerKey);
      flashcards := Zip(questions, answers);
    }
  }

  /** One call of `generate_dummy_data` (lines 88-169), the Groq client abstracted into
      what it does. */
  method GenerateDummyData(up: Upstream, decode: Decoder) returns (r: Outcome<seq<Card>>)
    ensures r == Generated(up, decode)
  {
    if up.ClientInitFailure? {
      return Other(up.message);
    }
    if up.RequestFailure? {
      return Recoverable(UnexpectedError + up.message);
    }
    var jsonString := NormalizeReply(up.content);
    jsonString := ExtractArray(jsonString);
    jsonString := RepairText(jsonString);
    if !(StartsWith(jsonString, "[") && EndsWith(jsonString, ']')) {
      return Recoverable(UnexpectedError + InvalidStructure);
    }
    var flashcards := DecodeCards(jsonString, decode);
    return Ok(flashcards);
  }

  /** The outcomes of successive calls of `generate_dummy_data`, the `k`-th meeting
      the upstream behaviour `upstream(k)`. */
  function Attempts(upstream: nat -> Upstream, decode: Decoder): nat -> Outcome<seq<Card>> {
    (k: nat) => Generated(upstream(k), decode)
  }

  /** `generate_dummy_data` under `@retry_on_error(max_attempts=5)`. */
  method GenerateWithRetry(upstream: nat -> Upstream, decode: Decoder)
    returns (r: Outcome<seq<Card>>, calls: nat, sleeps: nat, slept: nat)
    ensures 1 <= calls <= MaxAttempts
    ensures r == Attempts(upstream, decode)(calls - 1)
    ensures forall k :: 0 <= k < calls - 1 ==> Attempts(upstream, decode)(k).Recoverable?
    ensures r.Recoverable? ==> calls == MaxAttempts && sleeps == MaxAttempts - 1
    ensures r.Other? ==> upstream(calls - 1).ClientInitFailure?
    ensures (forall k :: 0 <= k < MaxAttempts ==> upstream(k).RequestFailure?) ==>
              r.Recoverable? && calls == MaxAttempts
    ensures sleeps == calls - 1 && slept == sleeps * DefaultDelaySeconds
  {
    r, calls, sleeps, slept := RetryOnError(MaxAttempts, DefaultDelaySeconds, Attempts(upstream, decode));
    assert r.Other? ==> upstream(calls - 1).ClientInitFailure? by {
      GeneratedRetriable(upstream(calls - 1), decode);
    }
    if forall k :: 0 <= k < MaxAttempts ==> upstream(k).RequestFailure? {
      var last := calls - 1;
      assert upstream(last).RequestFailure?;
      assert r == Generated(upstream(last), decode);
    }
  }
}
