/** What the parse state machine guarantees, proved about its fold. */
module TokenizerProperties {
  import opened QuotePairs
  import opened Tokenizer

  /** A character with no meaning to the state machine in any state. */
  predicate Plain(c: char)
  {
    c != ' ' && c != ',' && c != '-' && c != ':' && c != '"' && c != '\'' && c != '\\'
  }

  predicate PlainWord(w: string)
  {
    forall i :: 0 <= i < |w| ==> Plain(w[i])
  }

  // ---------------------------------------------------------------------------
  // Running the fold piecewise.

  lemma {:induction false} RunFromSplit(s: ParserState, str: string, pairs: QuotePairMap, ts: seq<Transform>,
                                        lo: nat, mid: nat, hi: nat)
    requires lo <= mid <= hi <= |str|
    ensures RunFrom(s, str, pairs, ts, lo, hi)
         == RunFrom(RunFrom(s, str, pairs, ts, lo, mid), str, pairs, ts, mid, hi)
    decreases hi - mid
  {
    if hi > mid {
      RunFromSplit(s, str, pairs, ts, lo, mid, hi - 1);
    }
  }

  /** Plain characters outside an operand are accumulated as text. */
  lemma {:induction false} PlainRunText(s: ParserState, str: string, pairs: QuotePairMap, ts: seq<Transform>,
                                        lo: nat, hi: nat)
    requires lo < hi <= |str| && s.state != InOperand
    requires forall i :: lo <= i < hi ==> Plain(str[i])
    ensures RunFrom(s, str, pairs, ts, lo, hi)
         == s.(state := InText, currentText := s.currentText + str[lo..hi], prevChar := [str[hi - 1]])
    decreases hi - lo
  {
    if hi - 1 > lo {
      PlainRunText(s, str, pairs, ts, lo, hi - 1);
      assert str[lo..hi] == str[lo..hi - 1] + [str[hi - 1]];
    }
  }

  /** Plain characters in an operand are accumulated into the operand. */
  lemma {:induction false} PlainRunOperand(s: ParserState, str: string, pairs: QuotePairMap, ts: seq<Transform>,
                                           lo: nat, hi: nat)
    requires lo < hi <= |str| && s.state == InOperand
    requires forall i :: lo <= i < hi ==> Plain(str[i])
    ensures RunFrom(s, str, pairs, ts, lo, hi)
         == s.(currentOperand := s.currentOperand + str[lo..hi], prevChar := [str[hi - 1]])
    decreases hi - lo
  {
    if hi - 1 > lo {
      PlainRunOperand(s, str, pairs, ts, lo, hi - 1);
      assert str[lo..hi] == str[lo..hi - 1] + [str[hi - 1]];
    }
  }

  /** The offsets of a plain word inside a string hold plain characters. */
  lemma PlainSlice(str: string, lo: nat, w: string)
    requires lo + |w| <= |str| && str[lo..lo + |w|] == w && PlainWord(w)
    ensures forall i :: lo <= i < lo + |w| ==> Plain(str[i])
  {
    forall i | lo <= i < lo + |w| ensures Plain(str[i]) {
      assert str[i] == w[i - lo];
    }
  }

  /** One character of an operand that does not end it: inside double quotes
      anything but the closing quote, outside quotes anything but a space, a
      comma, a single quote or an unescaped double quote. */
  predicate KeptInOperand(s: ParserState, c: char)
  {
    && s.state == InOperand
    && (c != '"' || s.prevChar == "\\")
    && (s.quoteState == DoubleQuote || (s.quoteState == NoQuote && c != ' ' && c != ',' && c != '\''))
  }

  lemma OperandStep(s: ParserState, str: string, i: nat, pairs: QuotePairMap, ts: seq<Transform>)
    requires i < |str| && KeptInOperand(s, str[i])
    ensures Step(s, str, i, pairs, ts)
         == s.(currentOperand := s.currentOperand + DropBackslashes([str[i]]), prevChar := [str[i]])
  {
    var c := str[i];
    if c == '\\' {
      assert DropBackslashes([c]) == [];
      assert s.currentOperand + [] == s.currentOperand;
    } else {
      assert DropBackslashes([c]) == [c];
    }
  }

  /** Inside an operand that is not ended, every character is kept except
      backslashes, which are dropped. */
  lemma {:induction false} OperandRun(s: ParserState, str: string, pairs: QuotePairMap, ts: seq<Transform>,
                                      lo: nat, hi: nat)
    requires lo < hi <= |str| && s.state == InOperand
    requires s.quoteState == DoubleQuote
          || (s.quoteState == NoQuote && forall i :: lo <= i < hi ==> str[i] != ' ' && str[i] != ',' && str[i] != '\'')
    requires forall i :: lo <= i < hi && str[i] == '"' ==> i > lo && str[i - 1] == '\\'
    ensures RunFrom(s, str, pairs, ts, lo, hi)
         == s.(currentOperand := s.currentOperand + DropBackslashes(str[lo..hi]), prevChar := [str[hi - 1]])
    decreases hi - lo
  {
    var c := str[hi - 1];
    if hi - 1 > lo {
      OperandRun(s, str, pairs, ts, lo, hi - 1);
      assert KeptInOperand(s.(prevChar := [str[hi - 2]]), c) by {
        if c == '"' {
          assert str[hi - 2] == '\\';
        }
      }
      OperandExtend(s, str, pairs, ts, lo, hi);
    } else {
      assert str[lo..hi] == [c];
      assert str[lo] != '"';
      OperandStep(s, str, lo, pairs, ts);
    }
  }

  /** One more kept character at the end of an operand run. */
  lemma OperandExtend(s: ParserState, str: string, pairs: QuotePairMap, ts: seq<Transform>, lo: nat, hi: nat)
    requires lo + 1 < hi <= |str|
    requires RunFrom(s, str, pairs, ts, lo, hi - 1)
          == s.(currentOperand := s.currentOperand + DropBackslashes(str[lo..hi - 1]), prevChar := [str[hi - 2]])
    requires KeptInOperand(s.(prevChar := [str[hi - 2]]), str[hi - 1])
    ensures RunFrom(s, str, pairs, ts, lo, hi)
         == s.(currentOperand := s.currentOperand + DropBackslashes(str[lo..hi]), prevChar := [str[hi - 1]])
  {
    var r := s.(currentOperand := s.currentOperand + DropBackslashes(str[lo..hi - 1]), prevChar := [str[hi - 2]]);
    OperandStep(r, str, hi - 1, pairs, ts);
    DropSnoc(s.currentOperand, str, lo, hi);
  }

  lemma EmptyPrefix(x: string)
    ensures "" + x == x
  {
  }

  /** Dropping the backslashes of a slice one character longer. */
  lemma DropSnoc(x: string, str: string, lo: nat, hi: nat)
    requires lo < hi <= |str|
    ensures x + DropBackslashes(str[lo..hi - 1]) + DropBackslashes([str[hi - 1]]) == x + DropBackslashes(str[lo..hi])
  {
    assert str[lo..hi] == str[lo..hi - 1] + [str[hi - 1]];
    DropBackslashesAppend(str[lo..hi - 1], [str[hi - 1]]);
  }

  /** A string with its backslashes removed: what the state machine keeps of it. */
  function DropBackslashes(s: string): (r: string)
    ensures '\\' !in r
    ensures |r| <= |s|
  {
    if |s| == 0 then []
    else if s[0] == '\\' then DropBackslashes(s[1..])
    else [s[0]] + DropBackslashes(s[1..])
  }

  lemma {:induction false} DropBackslashesAppend(a: string, b: string)
    ensures DropBackslashes(a + b) == DropBackslashes(a) + DropBackslashes(b)
  {
    if |a| > 0 {
      assert (a + b)[1..] == a[1..] + b;
      DropBackslashesAppend(a[1..], b);
    } else {
      assert a + b == b;
    }
  }

  lemma {:induction false} DropBackslashesNone(a: string)
    requires '\\' !in a
    ensures DropBackslashes(a) == a
  {
    if |a| > 0 {
      DropBackslashesNone(a[1..]);
      assert a == [a[0]] + a[1..];
    }
  }

  // ---------------------------------------------------------------------------
  // Empty and blank input.

  lemma {:induction false} SpacesKeepInitial(str: string, pairs: QuotePairMap, ts: seq<Transform>, n: nat)
    requires n <= |str|
    requires forall i :: 0 <= i < |str| ==> str[i] == ' '
    ensures RunFrom(Initial, str, pairs, ts, 0, n) == Initial.(prevChar := if n == 0 then "" else " ")
  {
    if n > 0 {
      SpacesKeepInitial(str, pairs, ts, n - 1);
    }
  }

  /** Empty input and input made only of spaces give no condition and no text
      segment, for any transforms. */
  lemma OnlySpacesParseEmpty(str: string, ts: seq<Transform>)
    requires forall i :: 0 <= i < |str| ==> str[i] == ' '
    ensures ParseSpec(str, ts) == Parsed([], [])
  {
    SpacesKeepInitial(str, Pairs(str), ts, |str|);
  }

  // ---------------------------------------------------------------------------
  // Backslashes never reach a buffer.

  /** No buffer and no segment holds a backslash; without transforms no
      condition holds one either. */
  ghost predicate BackslashFree(s: ParserState, ts: seq<Transform>)
  {
    && '\\' !in s.currentText && '\\' !in s.currentOperand
    && (forall j :: 0 <= j < |s.textSegments| ==> '\\' !in s.textSegments[j].text)
    && (ts == [] ==> forall j :: 0 <= j < |s.conditionArray| ==>
          '\\' !in s.conditionArray[j].keyword && '\\' !in s.conditionArray[j].value)
  }

  lemma StepBackslashFree(s: ParserState, str: string, i: nat, pairs: QuotePairMap, ts: seq<Transform>)
    requires i < |str| && BackslashFree(s, ts)
    ensures BackslashFree(Step(s, str, i, pairs, ts), ts)
  {
    var c := str[i];
    if c == ' ' {
      if s.state == InText && !InQuote(s) {
        var added := TransformConditions(ts, s.currentText, s.isNegated);
        if ts == [] {
          assert added == [];
        }
      }
    } else if c == '\\' {
      assert Step(s, str, i, pairs, ts) == s.(prevChar := [c]);
    } else {
      StepOtherBackslashFree(s, str, i, pairs, ts);
    }
  }

  lemma StepOtherBackslashFree(s: ParserState, str: string, i: nat, pairs: QuotePairMap, ts: seq<Transform>)
    requires i < |str| && BackslashFree(s, ts) && str[i] != ' ' && str[i] != '\\'
    ensures BackslashFree(Step(s, str, i, pairs, ts), ts)
  {
  }

  lemma {:induction false} RunBackslashFree(str: string, pairs: QuotePairMap, ts: seq<Transform>, n: nat)
    requires n <= |str|
    ensures BackslashFree(RunFrom(Initial, str, pairs, ts, 0, n), ts)
  {
    if n > 0 {
      RunBackslashFree(str, pairs, ts, n - 1);
      StepBackslashFree(RunFrom(Initial, str, pairs, ts, 0, n - 1), str, n - 1, pairs, ts);
    }
  }

  /** A backslash is never appended to either buffer: no text segment holds one,
      and without transforms no keyword or value holds one. */
  lemma ParseDropsBackslashes(str: string, ts: seq<Transform>)
    ensures var p := ParseSpec(str, ts);
      && (forall j :: 0 <= j < |p.segments| ==> '\\' !in p.segments[j].text)
      && (ts == [] ==> forall j :: 0 <= j < |p.conditions| ==>
            '\\' !in p.conditions[j].keyword && '\\' !in p.conditions[j].value)
  {
    var s := RunFrom(Initial, str, Pairs(str), ts, 0, |str|);
    RunBackslashFree(str, Pairs(str), ts, |str|);
    if ts == [] {
      assert TransformConditions(ts, s.currentText, s.isNegated) == [];
    }
  }

  // ---------------------------------------------------------------------------
  // The transform hook.

  /** The offsets of the transforms that claim the text, in increasing order. */
  function MatchingIndices(ts: seq<Transform>, text: string): (m: seq<nat>)
    ensures forall j :: 0 <= j < |m| ==> m[j] < |ts| && Matches(ts[m[j]](text))
    ensures forall i, j :: 0 <= i < j < |m| ==> m[i] < m[j]
    ensures forall k :: 0 <= k < |ts| && Matches(ts[k](text)) ==> k in m
  {
    if |ts| == 0 then []
    else
      var ts' := ts[..|ts| - 1];
      var m' := MatchingIndices(ts', text);
      assert forall k :: 0 <= k < |ts'| ==> ts'[k] == ts[k];
      m' + (if Matches(ts[|ts| - 1](text)) then [|ts| - 1] else [])
  }

  /** The conditions a list of transforms adds: one for every transform that
      claims the text, in transform order, each carrying that transform's key
      and value and the segment's negation; there are none exactly when no
      transform matches. */
  lemma {:induction false} TransformConditionsSpec(ts: seq<Transform>, text: string, negated: bool)
    ensures var r := TransformConditions(ts, text, negated); var m := MatchingIndices(ts, text);
      && |r| == |m| <= |ts|
      && (forall j :: 0 <= j < |r| ==> r[j] == Condition(ts[m[j]](text).0, ts[m[j]](text).1, negated))
      && (forall j :: 0 <= j < |r| ==>
            r[j].negated == negated && Matches((r[j].keyword, r[j].value))
            && exists k :: 0 <= k < |ts| && ts[k](text) == (r[j].keyword, r[j].value))
      && (r == [] <==> forall k :: 0 <= k < |ts| ==> !Matches(ts[k](text)))
  {
    TransformConditionsIndexed(ts, text, negated);
    TransformConditionsFrom(ts, text, negated);
    TransformConditionsNone(ts, text, negated);
  }

  /** Each added condition is some transform's result. */
  lemma TransformConditionsFrom(ts: seq<Transform>, text: string, negated: bool)
    requires var r := TransformConditions(ts, text, negated); var m := MatchingIndices(ts, text);
      |r| == |m| && forall j :: 0 <= j < |r| ==> r[j] == Condition(ts[m[j]](text).0, ts[m[j]](text).1, negated)
    ensures var r := TransformConditions(ts, text, negated);
      forall j :: 0 <= j < |r| ==> exists k :: 0 <= k < |ts| && ts[k](text) == (r[j].keyword, r[j].value)
  {
    var r := TransformConditions(ts, text, negated);
    var m := MatchingIndices(ts, text);
    forall j | 0 <= j < |r|
      ensures exists k :: 0 <= k < |ts| && ts[k](text) == (r[j].keyword, r[j].value)
    {
      assert ts[m[j]](text) == (r[j].keyword, r[j].value);
    }
  }

  /** Nothing is added exactly when no transform matches. */
  lemma TransformConditionsNone(ts: seq<Transform>, text: string, negated: bool)
    requires |TransformConditions(ts, text, negated)| == |MatchingIndices(ts, text)|
    ensures TransformConditions(ts, text, negated) == [] <==> forall k :: 0 <= k < |ts| ==> !Matches(ts[k](text))
  {
    var m := MatchingIndices(ts, text);
    if m != [] {
      assert Matches(ts[m[0]](text));
    }
  }

  /** The j-th added condition comes from the j-th matching transform. */
  lemma {:induction false} TransformConditionsIndexed(ts: seq<Transform>, text: string, negated: bool)
    ensures var r := TransformConditions(ts, text, negated); var m := MatchingIndices(ts, text);
      && |r| == |m|
      && forall j :: 0 <= j < |r| ==> r[j] == Condition(ts[m[j]](text).0, ts[m[j]](text).1, negated)
  {
    if |ts| > 0 {
      var ts' := ts[..|ts| - 1];
      TransformConditionsIndexed(ts', text, negated);
      var r' := TransformConditions(ts', text, negated);
      var m' := MatchingIndices(ts', text);
      var m := MatchingIndices(ts, text);
      forall j | 0 <= j < |r'| ensures ts[m'[j]] == ts'[m'[j]] && m[j] == m'[j] { }
    }
  }

  /** An increasing list of offsets below n has at most n elements. */
  lemma {:induction false} DistinctBelow(m: seq<nat>, n: nat)
    requires forall j :: 0 <= j < |m| ==> m[j] < n
    requires forall i, j :: 0 <= i < j < |m| ==> m[i] < m[j]
    ensures |m| <= n
  {
    if |m| > 0 {
      DistinctBelow(m[..|m| - 1], m[|m| - 1]);
    }
  }

  // ---------------------------------------------------------------------------
  // Single steps of the state machine, one per rule used below.

  lemma StepSpaceEndsText(s: ParserState, str: string, i: nat, pairs: QuotePairMap, ts: seq<Transform>)
    requires i < |str| && str[i] == ' ' && s.state == InText && s.quoteState == NoQuote
    ensures Step(s, str, i, pairs, ts)
         == PerformReset(TextSegmentAdded(s, ts, s.currentText, s.isNegated)).(prevChar := " ")
  {
  }

  lemma StepColonStartsOperand(s: ParserState, str: string, i: nat, pairs: QuotePairMap, ts: seq<Transform>)
    requires i < |str| && str[i] == ':' && s.state == InText && s.quoteState == NoQuote
    ensures Step(s, str, i, pairs, ts) == s.(state := InOperand, prevChar := ":")
  {
  }

  lemma StepCommaInOperand(s: ParserState, str: string, i: nat, pairs: QuotePairMap, ts: seq<Transform>)
    requires i < |str| && str[i] == ',' && s.state == InOperand && s.quoteState == NoQuote
    ensures Step(s, str, i, pairs, ts)
         == AddCondition(s, s.currentText, s.currentOperand, s.isNegated).(currentOperand := "", prevChar := ",")
  {
  }

  lemma StepDashNegates(s: ParserState, str: string, i: nat, pairs: QuotePairMap, ts: seq<Transform>)
    requires i < |str| && str[i] == '-' && s.state == Reset
    ensures Step(s, str, i, pairs, ts) == s.(isNegated := true, prevChar := "-")
  {
  }

  /** In RESET a space is dropped, and so is a colon outside quotes: only
      prevChar moves on, and an open quote is kept open. */
  lemma StepResetSkips(s: ParserState, str: string, i: nat, pairs: QuotePairMap, ts: seq<Transform>)
    requires i < |str| && s.state == Reset
    requires str[i] == ' ' || (str[i] == ':' && !InQuote(s))
    ensures Step(s, str, i, pairs, ts) == s.(prevChar := [str[i]])
  {
  }

  /** A colon inside quotes is an ordinary character of the active buffer. */
  lemma StepQuotedColon(s: ParserState, str: string, i: nat, pairs: QuotePairMap, ts: seq<Transform>)
    requires i < |str| && str[i] == ':' && InQuote(s)
    ensures Step(s, str, i, pairs, ts)
         == (if s.state == InOperand then s.(currentOperand := s.currentOperand + ":")
             else s.(currentText := s.currentText + ":", state := InText)).(prevChar := ":")
  {
  }

  lemma StepDoubleQuote(s: ParserState, str: string, i: nat, pairs: QuotePairMap, ts: seq<Transform>)
    requires i < |str| && str[i] == '"' && s.prevChar != "\\" && s.quoteState != SingleQuote
    ensures Step(s, str, i, pairs, ts)
         == (if s.quoteState == DoubleQuote then s.(quoteState := NoQuote)
             else if i in pairs.double then s.(quoteState := DoubleQuote)
             else if s.state == InOperand then s.(currentOperand := s.currentOperand + "\"")
             else s.(currentText := s.currentText + "\"")).(prevChar := "\"")
  {
  }

  /** The step after a plain character never sees an escaping backslash. */
  lemma PrevCharPlain(s: ParserState, str: string, pairs: QuotePairMap, ts: seq<Transform>, lo: nat, hi: nat)
    requires lo < hi <= |str| && Plain(str[hi - 1])
    ensures RunFrom(s, str, pairs, ts, lo, hi).prevChar != "\\"
  {
    assert RunFrom(s, str, pairs, ts, lo, hi).prevChar == [str[hi - 1]];
  }

  // ---------------------------------------------------------------------------
  // Tokens.

  /** The last pending token is flushed at end of input: `to:` gives exactly one
      condition with an empty value. */
  lemma TrailingColon(w: string, ts: seq<Transform>)
    requires |w| > 0 && PlainWord(w)
    ensures ParseSpec(w + ":", ts) == Parsed([Condition(w, "", false)], [])
  {
    var str := w + ":";
    var pairs := Pairs(str);
    var n := |w|;
    assert str[0..n] == w && str[n] == ':';
    PlainSlice(str, 0, w);
    TextAt(Initial, str, pairs, ts, 0, 0, n, Initial);
    var s1 := Initial.(state := InText, currentText := w, prevChar := [str[n - 1]]);
    ColonAt(Initial, str, pairs, ts, 0, n, s1);
    var t := RunFrom(Initial, str, pairs, ts, 0, |str|);
    assert t == s1.(state := InOperand, prevChar := ":");
    assert Finish(t, ts).conditionArray == [Condition(w, "", false)];
  }

  /** A comma in an operand emits a condition and clears only the operand, so
      keyword and negation carry over: `-to:a,b` gives two negated conditions. */
  lemma NegatedValueList(w: string, a: string, b: string, ts: seq<Transform>)
    requires |w| > 0 && PlainWord(w) && PlainWord(a) && PlainWord(b)
    ensures ParseSpec("-" + w + ":" + a + "," + b, ts)
         == Parsed([Condition(w, a, true), Condition(w, b, true)], [])
  {
    var str := "-" + w + ":" + a + "," + b;
    var n1 := 1 + |w|;
    var n2 := n1 + 1 + |a|;
    assert str[0] == '-' && str[1..n1] == w && str[n1] == ':';
    assert str[n1 + 1..n2] == a && str[n2] == ',' && str[n2 + 1..] == b;
    PlainSlice(str, 1, w);
    PlainSlice(str, n1 + 1, a);
    PlainSlice(str, n2 + 1, b);
    NegatedValueListRun(str, Pairs(str), ts, n1, n2);
  }

  lemma NegatedValueListRun(str: string, pairs: QuotePairMap, ts: seq<Transform>, n1: nat, n2: nat)
    requires 1 < n1 < n2 < |str|
    requires str[0] == '-' && str[n1] == ':' && str[n2] == ','
    requires forall i :: 1 <= i < n1 || n1 < i < n2 || n2 < i < |str| ==> Plain(str[i])
    ensures var s := Finish(RunFrom(Initial, str, pairs, ts, 0, |str|), ts);
      s.conditionArray == [Condition(str[1..n1], str[n1 + 1..n2], true), Condition(str[1..n1], str[n2 + 1..], true)]
      && s.textSegments == []
  {
    var w := str[1..n1];
    var a := str[n1 + 1..n2];
    var b := str[n2 + 1..];
    NegatedOperand(str, pairs, ts, n1, n2);
    var s4 := Initial.(isNegated := true, state := InOperand, currentText := w, currentOperand := a,
                       prevChar := RunFrom(Initial, str, pairs, ts, 0, n2).prevChar);
    CommaAt(Initial, str, pairs, ts, 0, n2, s4);
    var s5 := s4.(conditionArray := [Condition(w, a, true)], currentOperand := "", prevChar := ",");
    OperandAt(Initial, str, pairs, ts, 0, n2 + 1, |str|, s5);
    assert "" + b == b;
    var t := RunFrom(Initial, str, pairs, ts, 0, |str|);
    assert t.state == InOperand && t.currentText == w && t.currentOperand == b && t.isNegated;
    assert t.conditionArray == [Condition(w, a, true)] && t.textSegments == [];
    assert Finish(t, ts).conditionArray == [Condition(w, a, true)] + [Condition(w, b, true)];
  }

  /** `-keyword:value` up to (not including) what follows the value. */
  lemma NegatedOperand(str: string, pairs: QuotePairMap, ts: seq<Transform>, n1: nat, n2: nat)
    requires 1 < n1 < n2 <= |str|
    requires str[0] == '-' && str[n1] == ':'
    requires forall i :: 1 <= i < n1 || n1 < i < n2 ==> Plain(str[i])
    ensures var t := RunFrom(Initial, str, pairs, ts, 0, n2);
      t == Initial.(isNegated := true, state := InOperand, currentText := str[1..n1],
                    currentOperand := str[n1 + 1..n2], prevChar := t.prevChar)
  {
    DashThenWord(str, pairs, ts, n1);
    var s2 := Initial.(isNegated := true, state := InText, currentText := str[1..n1], prevChar := [str[n1 - 1]]);
    ColonAt(Initial, str, pairs, ts, 0, n1, s2);
    var s3 := s2.(state := InOperand, prevChar := ":");
    OperandAt(Initial, str, pairs, ts, 0, n1 + 1, n2, s3);
    assert "" + str[n1 + 1..n2] == str[n1 + 1..n2];
  }

  /** `-` then a plain word, from the start. */
  lemma DashThenWord(str: string, pairs: QuotePairMap, ts: seq<Transform>, n: nat)
    requires 1 < n <= |str| && str[0] == '-'
    requires forall i :: 1 <= i < n ==> Plain(str[i])
    ensures RunFrom(Initial, str, pairs, ts, 0, n)
         == Initial.(isNegated := true, state := InText, currentText := str[1..n], prevChar := [str[n - 1]])
  {
    var s1 := Initial.(isNegated := true, prevChar := "-");
    StepDashNegates(Initial, str, 0, pairs, ts);
    assert RunFrom(Initial, str, pairs, ts, 0, 1) == s1;
    PlainRunText(s1, str, pairs, ts, 1, n);
    RunFromSplit(Initial, str, pairs, ts, 0, 1, n);
  }

  /** A keyword's colon, after the run that reached state r. */
  lemma ColonAt(s: ParserState, str: string, pairs: QuotePairMap, ts: seq<Transform>, lo: nat, k: nat, r: ParserState)
    requires lo <= k < |str| && str[k] == ':' && RunFrom(s, str, pairs, ts, lo, k) == r
    requires r.state == InText && r.quoteState == NoQuote
    ensures RunFrom(s, str, pairs, ts, lo, k + 1) == r.(state := InOperand, prevChar := ":")
  {
    StepColonStartsOperand(r, str, k, pairs, ts);
  }

  /** A comma between values, after the run that reached state r. */
  lemma CommaAt(s: ParserState, str: string, pairs: QuotePairMap, ts: seq<Transform>, lo: nat, k: nat, r: ParserState)
    requires lo <= k < |str| && str[k] == ',' && RunFrom(s, str, pairs, ts, lo, k) == r
    requires r.state == InOperand && r.quoteState == NoQuote
    ensures RunFrom(s, str, pairs, ts, lo, k + 1)
         == AddCondition(r, r.currentText, r.currentOperand, r.isNegated).(currentOperand := "", prevChar := ",")
  {
    StepCommaInOperand(r, str, k, pairs, ts);
  }

  /** Plain operand characters k .. hi-1, after the run that reached state r. */
  lemma OperandAt(s: ParserState, str: string, pairs: QuotePairMap, ts: seq<Transform>, lo: nat, k: nat, hi: nat,
                  r: ParserState)
    requires lo <= k <= hi <= |str| && RunFrom(s, str, pairs, ts, lo, k) == r && r.state == InOperand
    requires forall i :: k <= i < hi ==> Plain(str[i])
    ensures var t := RunFrom(s, str, pairs, ts, lo, hi);
      t == r.(currentOperand := r.currentOperand + str[k..hi], prevChar := t.prevChar)
  {
    RunFromSplit(s, str, pairs, ts, lo, k, hi);
    OperandSlice(r, str, pairs, ts, k, hi);
  }

  /** Plain characters read in an operand, possibly none. */
  lemma OperandSlice(s: ParserState, str: string, pairs: QuotePairMap, ts: seq<Transform>, lo: nat, hi: nat)
    requires lo <= hi <= |str| && s.state == InOperand
    requires forall i :: lo <= i < hi ==> Plain(str[i])
    ensures var r := RunFrom(s, str, pairs, ts, lo, hi);
      r == s.(currentOperand := s.currentOperand + str[lo..hi], prevChar := r.prevChar)
  {
    if lo < hi {
      PlainRunOperand(s, str, pairs, ts, lo, hi);
    } else {
      assert s.currentOperand + str[lo..hi] == s.currentOperand;
    }
  }

  /** A quote offset the pre-scan did not pair is a literal character of its
      token: `quoted text"` gives the segments `quoted` and `text"`. */
  lemma StrayQuoteKept(w1: string, w2: string)
    requires |w1| > 0 && PlainWord(w1) && |w2| > 0 && PlainWord(w2)
    ensures ParseSpec(w1 + " " + w2 + "\"", [])
         == Parsed([], [TextSegment(w1, false), TextSegment(w2 + "\"", false)])
  {
    var str := w1 + " " + w2 + "\"";
    var n1 := |w1|;
    var n2 := n1 + 1 + |w2|;
    assert str[0..n1] == w1 && str[n1] == ' ' && str[n1 + 1..n2] == w2 && str[n2] == '"';
    assert str[..n1] == w1 && str[n1 + 1..] == w2 + "\"";
    PlainSlice(str, 0, w1);
    PlainSlice(str, n1 + 1, w2);
    AtMostOneQuoteNoPairs(str, '"');
    TwoWords(str, Pairs(str), [], n1, n2);
    StrayQuoteKeptRun(str, Pairs(str), n1, n2);
  }

  lemma StrayQuoteKeptRun(str: string, pairs: QuotePairMap, n1: nat, n2: nat)
    requires 0 < n1 && n1 + 1 < n2 && n2 + 1 == |str|
    requires str[n2] == '"' && n2 !in pairs.double && str[n2 - 1] != '\\'
    requires RunFrom(Initial, str, pairs, [], 0, n2)
          == Initial.(textSegments := [TextSegment(str[..n1], false)], state := InText,
                      currentText := str[n1 + 1..n2], prevChar := [str[n2 - 1]])
    ensures var s := Finish(RunFrom(Initial, str, pairs, [], 0, |str|), []);
      s.conditionArray == [] && s.textSegments == [TextSegment(str[..n1], false), TextSegment(str[n1 + 1..], false)]
  {
    var w1 := str[..n1];
    var w2 := str[n1 + 1..n2];
    var s3 := Initial.(textSegments := [TextSegment(w1, false)], state := InText, currentText := w2,
                       prevChar := [str[n2 - 1]]);
    assert s3.prevChar != "\\" by { assert s3.prevChar[0] != '\\'; }
    DoubleQuoteStray(Initial, str, pairs, [], 0, n2, s3);
    var t := s3.(currentText := w2 + "\"", prevChar := "\"");
    assert w2 + "\"" == str[n1 + 1..];
    FinishTextUntransformed(t);
  }

  /** A `"` outside quotes that is not paired is kept as text. */
  lemma DoubleQuoteStray(s: ParserState, str: string, pairs: QuotePairMap, ts: seq<Transform>, lo: nat, k: nat,
                         r: ParserState)
    requires lo <= k < |str| && str[k] == '"' && RunFrom(s, str, pairs, ts, lo, k) == r
    requires r.prevChar != "\\" && r.quoteState == NoQuote && k !in pairs.double && r.state == InText
    ensures RunFrom(s, str, pairs, ts, lo, k + 1) == r.(currentText := r.currentText + "\"", prevChar := "\"")
  {
    DoubleQuoteAt(s, str, pairs, ts, lo, k, r);
  }

  /** Without transforms, end of input inside a text adds it as a segment. */
  lemma FinishTextUntransformed(s: ParserState)
    requires s.state == InText
    ensures Finish(s, []) == s.(textSegments := s.textSegments + [TextSegment(s.currentText, s.isNegated)])
  {
    assert TransformConditions([], s.currentText, s.isNegated) == [];
  }

  /** Two plain words separated by a space, with no transform: the first is a
      segment, the second is pending. */
  lemma TwoWords(str: string, pairs: QuotePairMap, ts: seq<Transform>, n1: nat, n2: nat)
    requires 0 < n1 && n1 + 1 < n2 <= |str| && str[n1] == ' ' && ts == []
    requires forall i :: 0 <= i < n1 || n1 < i < n2 ==> Plain(str[i])
    ensures RunFrom(Initial, str, pairs, ts, 0, n2)
         == Initial.(textSegments := [TextSegment(str[..n1], false)], state := InText,
                     currentText := str[n1 + 1..n2], prevChar := [str[n2 - 1]])
  {
    var w1 := str[..n1];
    assert str[..n1] == str[0..n1];
    TextAt(Initial, str, pairs, ts, 0, 0, n1, Initial);
    var s1 := Initial.(state := InText, currentText := w1, prevChar := [str[n1 - 1]]);
    SpaceAt(Initial, str, pairs, ts, 0, n1, s1);
    assert TransformConditions(ts, w1, false) == [];
    var s2 := Initial.(textSegments := [TextSegment(w1, false)], prevChar := " ");
    TextAt(Initial, str, pairs, ts, 0, n1 + 1, n2, s2);
  }

  /** Plain characters k .. hi-1 outside an operand, after the run that reached r. */
  lemma TextAt(s: ParserState, str: string, pairs: QuotePairMap, ts: seq<Transform>, lo: nat, k: nat, hi: nat,
               r: ParserState)
    requires lo <= k < hi <= |str| && RunFrom(s, str, pairs, ts, lo, k) == r && r.state != InOperand
    requires forall i :: k <= i < hi ==> Plain(str[i])
    ensures RunFrom(s, str, pairs, ts, lo, hi)
         == r.(state := InText, currentText := r.currentText + str[k..hi], prevChar := [str[hi - 1]])
  {
    RunFromSplit(s, str, pairs, ts, lo, k, hi);
    PlainRunText(r, str, pairs, ts, k, hi);
  }

  /** A space ending a text token, after the run that reached r. */
  lemma SpaceAt(s: ParserState, str: string, pairs: QuotePairMap, ts: seq<Transform>, lo: nat, k: nat, r: ParserState)
    requires lo <= k < |str| && str[k] == ' ' && RunFrom(s, str, pairs, ts, lo, k) == r
    requires r.state == InText && r.quoteState == NoQuote
    ensures RunFrom(s, str, pairs, ts, lo, k + 1)
         == PerformReset(TextSegmentAdded(r, ts, r.currentText, r.isNegated)).(prevChar := " ")
  {
    StepSpaceEndsText(r, str, k, pairs, ts);
  }

  /** An unescaped double quote, after the run that reached r. */
  lemma DoubleQuoteAt(s: ParserState, str: string, pairs: QuotePairMap, ts: seq<Transform>, lo: nat, k: nat,
                      r: ParserState)
    requires lo <= k < |str| && str[k] == '"' && RunFrom(s, str, pairs, ts, lo, k) == r
    requires r.prevChar != "\\" && r.quoteState != SingleQuote
    ensures RunFrom(s, str, pairs, ts, lo, k + 1)
         == (if r.quoteState == DoubleQuote then r.(quoteState := NoQuote)
             else if k in pairs.double then r.(quoteState := DoubleQuote)
             else if r.state == InOperand then r.(currentOperand := r.currentOperand + "\"")
             else r.(currentText := r.currentText + "\"")).(prevChar := "\"")
  {
    StepDoubleQuote(r, str, k, pairs, ts);
  }

  /** A stray quote seen between tokens is appended to the text buffer without
      leaving RESET, so the following space keeps it and it opens the next word. */
  lemma StrayQuoteCarriedOver(w: string)
    requires |w| > 0 && PlainWord(w)
    ensures ParseSpec("\" " + w, []) == Parsed([], [TextSegment("\"" + w, false)])
  {
    var str := "\" " + w;
    var pairs := Pairs(str);
    assert str[0] == '"' && str[1] == ' ' && str[2..] == w;
    PlainSlice(str, 2, w);
    AtMostOneQuoteNoPairs(str, '"');
    StepDoubleQuote(Initial, str, 0, pairs, []);
    var s1 := Initial.(currentText := "\"", prevChar := "\"");
    assert RunFrom(Initial, str, pairs, [], 0, 1) == s1;
    var s2 := Initial.(currentText := "\"", prevChar := " ");
    assert RunFrom(Initial, str, pairs, [], 0, 2) == s2;
    PlainRunText(s2, str, pairs, [], 2, |str|);
    RunFromSplit(Initial, str, pairs, [], 0, 2, |str|);
    assert TransformConditions([], "\"" + w, false) == [];
  }

  /** A lone stray quote token at the end of input never leaves RESET and is
      dropped. */
  lemma LoneStrayQuoteDropped(w: string)
    requires |w| > 0 && PlainWord(w)
    ensures ParseSpec(w + " \"", []) == Parsed([], [TextSegment(w, false)])
  {
    var str := w + " \"";
    var pairs := Pairs(str);
    var n := |w|;
    assert str[0..n] == w && str[n] == ' ' && str[n + 1] == '"';
    PlainSlice(str, 0, w);
    AtMostOneQuoteNoPairs(str, '"');
    PlainRunText(Initial, str, pairs, [], 0, n);
    var s1 := Initial.(state := InText, currentText := w, prevChar := [str[n - 1]]);
    assert RunFrom(Initial, str, pairs, [], 0, n) == s1;
    StepSpaceEndsText(s1, str, n, pairs, []);
    assert TransformConditions([], w, false) == [];
    var s2 := Initial.(textSegments := [TextSegment(w, false)], prevChar := " ");
    assert RunFrom(Initial, str, pairs, [], 0, n + 1) == s2;
    StepDoubleQuote(s2, str, n + 1, pairs, []);
  }

  /** A double-quoted value keeps its spaces, commas, colons and single quotes:
      `template:"recruiting: reject email, inexperience"` is one condition. */
  lemma QuotedValue(w: string, v: string, ts: seq<Transform>)
    requires |w| > 0 && PlainWord(w)
    requires |v| > 0 && '"' !in v && '\\' !in v
    ensures ParseSpec(w + ":\"" + v + "\"", ts) == Parsed([Condition(w, v, false)], [])
  {
    var str := w + ":\"" + v + "\"";
    var n1 := |w|;
    var n2 := n1 + 2 + |v|;
    assert str[0..n1] == w && str[n1] == ':' && str[n1 + 1] == '"' && str[n1 + 2..n2] == v && str[n2] == '"';
    PlainSlice(str, 0, w);
    forall i | n1 + 2 <= i < n2 ensures str[i] != '"' && str[i] != '\\' {
      assert str[i] == v[i - n1 - 2];
    }
    TwoQuotesPaired(str, '"', n1 + 1, n2);
    DropBackslashesNone(v);
    QuotedValueRun(str, Pairs(str), ts, false, n1, n2);
    OperandFlushed(false, str[0..n1], DropBackslashes(str[n1 + 2..n2]), "\"", ts);
  }

  /** `keyword:"value"`, after a `-` when negated: the operand holds the
      quoted text without its backslashes, and the quotes are closed. */
  lemma QuotedValueRun(str: string, pairs: QuotePairMap, ts: seq<Transform>, negated: bool, n1: nat, n2: nat)
    requires (if negated then 1 else 0) < n1 && n1 + 2 < n2 && n2 + 1 == |str|
    requires negated ==> str[0] == '-'
    requires str[n1] == ':' && str[n1 + 1] == '"' && str[n2] == '"' && n1 + 1 in pairs.double
    requires forall i :: (if negated then 1 else 0) <= i < n1 ==> Plain(str[i])
    requires forall i :: n1 + 2 <= i < n2 && str[i] == '"' ==> i > n1 + 2 && str[i - 1] == '\\'
    requires str[n2 - 1] != '\\'
    ensures RunFrom(Initial, str, pairs, ts, 0, |str|)
         == Initial.(isNegated := negated, state := InOperand, currentText := str[(if negated then 1 else 0)..n1],
                     currentOperand := DropBackslashes(str[n1 + 2..n2]), prevChar := "\"")
  {
    var w := str[(if negated then 1 else 0)..n1];
    ConditionHead(str, pairs, ts, negated, n1);
    var s2 := Initial.(isNegated := negated, state := InOperand, currentText := w, prevChar := ":");
    DoubleQuoteOpens(Initial, str, pairs, ts, 0, n1 + 1, s2);
    var s3 := s2.(quoteState := DoubleQuote, prevChar := "\"");
    OperandRunAt(Initial, str, pairs, ts, 0, n1 + 2, n2, s3);
    var v := DropBackslashes(str[n1 + 2..n2]);
    EmptyPrefix(v);
    var s4 := s3.(currentOperand := v, prevChar := [str[n2 - 1]]);
    assert s4.prevChar != "\\" by { assert s4.prevChar[0] != '\\'; }
    DoubleQuoteCloses(Initial, str, pairs, ts, 0, n2, s4);
  }

  /** A paired `"` outside quotes opens a double-quoted run. */
  lemma DoubleQuoteOpens(s: ParserState, str: string, pairs: QuotePairMap, ts: seq<Transform>, lo: nat, k: nat,
                         r: ParserState)
    requires lo <= k < |str| && str[k] == '"' && RunFrom(s, str, pairs, ts, lo, k) == r
    requires r.prevChar != "\\" && r.quoteState == NoQuote && k in pairs.double
    ensures RunFrom(s, str, pairs, ts, lo, k + 1) == r.(quoteState := DoubleQuote, prevChar := "\"")
  {
    DoubleQuoteAt(s, str, pairs, ts, lo, k, r);
  }

  /** An unescaped `"` inside a double-quoted run closes it. */
  lemma DoubleQuoteCloses(s: ParserState, str: string, pairs: QuotePairMap, ts: seq<Transform>, lo: nat, k: nat,
                          r: ParserState)
    requires lo <= k < |str| && str[k] == '"' && RunFrom(s, str, pairs, ts, lo, k) == r
    requires r.prevChar != "\\" && r.quoteState == DoubleQuote
    ensures RunFrom(s, str, pairs, ts, lo, k + 1) == r.(quoteState := NoQuote, prevChar := "\"")
  {
    DoubleQuoteAt(s, str, pairs, ts, lo, k, r);
  }

  /** `keyword:value` with an unquoted value, after a `-` when negated: the
      operand holds the text after the colon without its backslashes. */
  lemma UnquotedValueRun(str: string, pairs: QuotePairMap, ts: seq<Transform>, negated: bool, n1: nat)
    requires (if negated then 1 else 0) < n1 && n1 + 1 < |str|
    requires negated ==> str[0] == '-'
    requires str[n1] == ':'
    requires forall i :: (if negated then 1 else 0) <= i < n1 ==> Plain(str[i])
    requires forall i :: n1 < i < |str| ==> str[i] != ' ' && str[i] != ',' && str[i] != '\''
    requires forall i :: n1 < i < |str| && str[i] == '"' ==> i > n1 + 1 && str[i - 1] == '\\'
    ensures RunFrom(Initial, str, pairs, ts, 0, |str|)
         == Initial.(isNegated := negated, state := InOperand, currentText := str[(if negated then 1 else 0)..n1],
                     currentOperand := DropBackslashes(str[n1 + 1..]), prevChar := [str[|str| - 1]])
  {
    var w := str[(if negated then 1 else 0)..n1];
    ConditionHead(str, pairs, ts, negated, n1);
    var s2 := Initial.(isNegated := negated, state := InOperand, currentText := w, prevChar := ":");
    OperandRunAt(Initial, str, pairs, ts, 0, n1 + 1, |str|, s2);
    assert str[n1 + 1..|str|] == str[n1 + 1..];
    var v := DropBackslashes(str[n1 + 1..]);
    EmptyPrefix(v);
    assert s2.(currentOperand := s2.currentOperand + v, prevChar := [str[|str| - 1]])
        == Initial.(isNegated := negated, state := InOperand, currentText := w, currentOperand := v,
                    prevChar := [str[|str| - 1]]);
  }

  /** A lone plain word, after a `-` when negated: the text buffer holds it. */
  lemma WordRun(str: string, pairs: QuotePairMap, ts: seq<Transform>, negated: bool)
    requires (if negated then 1 else 0) < |str|
    requires negated ==> str[0] == '-'
    requires forall i :: (if negated then 1 else 0) <= i < |str| ==> Plain(str[i])
    ensures RunFrom(Initial, str, pairs, ts, 0, |str|)
         == Initial.(isNegated := negated, state := InText, currentText := str[(if negated then 1 else 0)..],
                     prevChar := [str[|str| - 1]])
  {
    if negated {
      DashThenWord(str, pairs, ts, |str|);
    } else {
      TextAt(Initial, str, pairs, ts, 0, 0, |str|, Initial);
      EmptyPrefix(str[0..]);
    }
  }

  /** End of input inside an operand adds its condition. */
  lemma OperandFlushed(negated: bool, w: string, v: string, p: string, ts: seq<Transform>)
    ensures var s := Finish(Initial.(isNegated := negated, state := InOperand, currentText := w,
                                     currentOperand := v, prevChar := p), ts);
      s.conditionArray == [Condition(w, v, negated)] && s.textSegments == []
  {
  }

  /** End of input inside a text adds its segment, or what the transforms
      make of it. */
  lemma TextFlushed(negated: bool, w: string, p: string, ts: seq<Transform>)
    ensures var s := Finish(Initial.(isNegated := negated, state := InText, currentText := w, prevChar := p), ts);
      var added := TransformConditions(ts, w, negated);
      s.conditionArray == added && s.textSegments == (if added == [] then [TextSegment(w, negated)] else [])
  {
    assert [] + TransformConditions(ts, w, negated) == TransformConditions(ts, w, negated);
  }

  /** `keyword:` from the start, after a `-` when negated. */
  lemma ConditionHead(str: string, pairs: QuotePairMap, ts: seq<Transform>, negated: bool, n: nat)
    requires (if negated then 1 else 0) < n < |str| && str[n] == ':'
    requires negated ==> str[0] == '-'
    requires forall i :: (if negated then 1 else 0) <= i < n ==> Plain(str[i])
    ensures RunFrom(Initial, str, pairs, ts, 0, n + 1)
         == Initial.(isNegated := negated, state := InOperand, currentText := str[(if negated then 1 else 0)..n],
                     prevChar := ":")
  {
    if negated {
      DashThenWord(str, pairs, ts, n);
      var s2 := Initial.(isNegated := true, state := InText, currentText := str[1..n], prevChar := [str[n - 1]]);
      ColonAt(Initial, str, pairs, ts, 0, n, s2);
    } else {
      KeywordColon(str, pairs, ts, n);
      assert str[..n] == str[0..n];
    }
  }

  /** A plain keyword and its colon, from the start. */
  lemma KeywordColon(str: string, pairs: QuotePairMap, ts: seq<Transform>, n: nat)
    requires 0 < n < |str| && str[n] == ':'
    requires forall i :: 0 <= i < n ==> Plain(str[i])
    ensures RunFrom(Initial, str, pairs, ts, 0, n + 1)
         == Initial.(state := InOperand, currentText := str[..n], prevChar := ":")
  {
    assert str[..n] == str[0..n];
    TextAt(Initial, str, pairs, ts, 0, 0, n, Initial);
    var s1 := Initial.(state := InText, currentText := str[..n], prevChar := [str[n - 1]]);
    ColonAt(Initial, str, pairs, ts, 0, n, s1);
  }

  /** Operand characters k .. hi-1 that do not end it, after the run that
      reached r. */
  lemma OperandRunAt(s: ParserState, str: string, pairs: QuotePairMap, ts: seq<Transform>, lo: nat, k: nat, hi: nat,
                     r: ParserState)
    requires lo <= k < hi <= |str| && RunFrom(s, str, pairs, ts, lo, k) == r && r.state == InOperand
    requires r.quoteState == DoubleQuote
          || (r.quoteState == NoQuote && forall i :: k <= i < hi ==> str[i] != ' ' && str[i] != ',' && str[i] != '\'')
    requires forall i :: k <= i < hi && str[i] == '"' ==> i > k && str[i - 1] == '\\'
    ensures RunFrom(s, str, pairs, ts, lo, hi)
         == r.(currentOperand := r.currentOperand + DropBackslashes(str[k..hi]), prevChar := [str[hi - 1]])
  {
    RunFromSplit(s, str, pairs, ts, lo, k, hi);
    OperandRun(r, str, pairs, ts, k, hi);
  }


  /** Two structural quotes of a kind, and no other quote of that kind: the
      pre-scan pairs them. */
  lemma TwoQuotesPaired(str: string, q: char, i: nat, j: nat)
    requires IsQuote(q) && i < j < |str|
    requires IsStructural(str, i, q) && IsStructural(str, j, q)
    requires forall k :: 0 <= k < |str| && IsStructural(str, k, q) ==> k == i || k == j
    ensures Side(Pairs(str), q) == {i, j}
  {
    StructuralOfTwo(str, q, i, j, |str|);
    PairsGreedy(str, q);
    var u := [i, j];
    assert Paired(u) == {i, j} by {
      assert u[0] == i && u[1] == j;
    }
  }

  lemma {:induction false} StructuralOfTwo(str: string, q: char, i: nat, j: nat, n: nat)
    requires i < j < |str| && n <= |str|
    requires IsStructural(str, i, q) && IsStructural(str, j, q)
    requires forall k :: 0 <= k < |str| && IsStructural(str, k, q) ==> k == i || k == j
    ensures Structural(str, q, n) == if n <= i then [] else if n <= j then [i] else [i, j]
  {
    if n > 0 {
      StructuralOfTwo(str, q, i, j, n - 1);
    }
  }

  // ---------------------------------------------------------------------------
  // Quirks of the state machine, on whole inputs.

  /** `-` sets the negation flag whenever no token is open, even when it is
      already set: `--w` is the negated segment `w`. */
  lemma RepeatedDash(w: string)
    requires |w| > 0 && PlainWord(w)
    ensures ParseSpec("--" + w, []) == Parsed([], [TextSegment(w, true)])
  {
    var str := "--" + w;
    var pairs := Pairs(str);
    assert str[0] == '-' && str[1] == '-' && str[2..] == w;
    PlainSlice(str, 2, w);
    var s1 := Initial.(isNegated := true, prevChar := "-");
    StepDashNegates(Initial, str, 0, pairs, []);
    assert RunFrom(Initial, str, pairs, [], 0, 1) == s1;
    StepDashNegates(s1, str, 1, pairs, []);
    assert RunFrom(Initial, str, pairs, [], 0, 2) == s1;
    TextAt(Initial, str, pairs, [], 0, 2, |str|, s1);
    EmptyPrefix(w);
    assert str[2..|str|] == w;
    FinishTextUntransformed(s1.(state := InText, currentText := w, prevChar := [str[|str| - 1]]));
  }

  /** Between tokens a space, and a colon outside quotes, is skipped: `:w`
      and ` w` are the segment `w`. */
  lemma LeadingSeparatorSkipped(c: char, w: string)
    requires c == ' ' || c == ':'
    requires |w| > 0 && PlainWord(w)
    ensures ParseSpec([c] + w, []) == Parsed([], [TextSegment(w, false)])
  {
    var str := [c] + w;
    var pairs := Pairs(str);
    assert str[0] == c && str[1..] == w;
    PlainSlice(str, 1, w);
    StepResetSkips(Initial, str, 0, pairs, []);
    var s1 := Initial.(prevChar := [c]);
    assert RunFrom(Initial, str, pairs, [], 0, 1) == s1;
    TextAt(Initial, str, pairs, [], 0, 1, |str|, s1);
    EmptyPrefix(w);
    assert str[1..|str|] == w;
    FinishTextUntransformed(s1.(state := InText, currentText := w, prevChar := [str[|str| - 1]]));
  }

  /** A colon inside double quotes is text, and the quotes are dropped:
      `"a:b"` is the segment `a:b`, not a condition. */
  lemma QuotedColonText(a: string, b: string)
    requires |a| > 0 && PlainWord(a) && |b| > 0 && PlainWord(b)
    ensures ParseSpec("\"" + a + ":" + b + "\"", []) == Parsed([], [TextSegment(a + ":" + b, false)])
  {
    var str := "\"" + a + ":" + b + "\"";
    var n1 := 1 + |a|;
    var n2 := n1 + 1 + |b|;
    assert str[0] == '"' && str[1..n1] == a && str[n1] == ':' && str[n1 + 1..n2] == b && str[n2] == '"';
    PlainSlice(str, 1, a);
    PlainSlice(str, n1 + 1, b);
    TwoQuotesPaired(str, '"', 0, n2);
    QuotedColonRun(str, Pairs(str), n1, n2);
    FinishTextUntransformed(Initial.(state := InText, currentText := a + ":" + b, prevChar := "\""));
  }

  lemma QuotedColonRun(str: string, pairs: QuotePairMap, n1: nat, n2: nat)
    requires 1 < n1 && n1 + 1 < n2 && n2 + 1 == |str|
    requires str[0] == '"' && str[n1] == ':' && str[n2] == '"' && 0 in pairs.double
    requires forall i :: 1 <= i < n1 || n1 < i < n2 ==> Plain(str[i])
    ensures RunFrom(Initial, str, pairs, [], 0, |str|)
         == Initial.(state := InText, currentText := str[1..n1] + ":" + str[n1 + 1..n2], prevChar := "\"")
  {
    QuotedColonHead(str, pairs, n1);
    var s3 := Initial.(quoteState := DoubleQuote, state := InText, currentText := str[1..n1] + ":", prevChar := ":");
    TextAt(Initial, str, pairs, [], 0, n1 + 1, n2, s3);
    var s4 := s3.(currentText := str[1..n1] + ":" + str[n1 + 1..n2], prevChar := [str[n2 - 1]]);
    assert s4.prevChar != "\\" by { assert s4.prevChar[0] != '\\'; }
    DoubleQuoteCloses(Initial, str, pairs, [], 0, n2, s4);
    assert s4.(quoteState := NoQuote, prevChar := "\"")
        == Initial.(state := InText, currentText := str[1..n1] + ":" + str[n1 + 1..n2], prevChar := "\"");
  }

  /** `"a:` from the start: the colon is text inside the open quote. */
  lemma QuotedColonHead(str: string, pairs: QuotePairMap, n1: nat)
    requires 1 < n1 < |str| && str[0] == '"' && str[n1] == ':' && 0 in pairs.double
    requires forall i :: 1 <= i < n1 ==> Plain(str[i])
    ensures RunFrom(Initial, str, pairs, [], 0, n1 + 1)
         == Initial.(quoteState := DoubleQuote, state := InText, currentText := str[1..n1] + ":", prevChar := ":")
  {
    DoubleQuoteOpens(Initial, str, pairs, [], 0, 0, Initial);
    var s1 := Initial.(quoteState := DoubleQuote, prevChar := "\"");
    TextAt(Initial, str, pairs, [], 0, 1, n1, s1);
    EmptyPrefix(str[1..n1]);
    var s2 := s1.(state := InText, currentText := str[1..n1], prevChar := [str[n1 - 1]]);
    QuotedColonAt(Initial, str, pairs, [], 0, n1, s2);
  }

  /** A colon inside quotes in a text token, after the run that reached r. */
  lemma QuotedColonAt(s: ParserState, str: string, pairs: QuotePairMap, ts: seq<Transform>, lo: nat, k: nat,
                      r: ParserState)
    requires lo <= k < |str| && str[k] == ':' && RunFrom(s, str, pairs, ts, lo, k) == r
    requires r.state == InText && InQuote(r)
    ensures RunFrom(s, str, pairs, ts, lo, k + 1) == r.(currentText := r.currentText + ":", prevChar := ":")
  {
    StepQuotedColon(r, str, k, pairs, ts);
  }

  /** A `'` outside quotes that the pre-scan did not pair, after the run that
      reached r: it is a literal character of the open token. */
  lemma SingleQuoteStray(s: ParserState, str: string, pairs: QuotePairMap, ts: seq<Transform>, lo: nat, k: nat,
                         r: ParserState)
    requires lo <= k < |str| && str[k] == '\'' && RunFrom(s, str, pairs, ts, lo, k) == r
    requires r.prevChar != "\\" && r.quoteState == NoQuote && k !in pairs.single
    ensures RunFrom(s, str, pairs, ts, lo, k + 1)
         == (if r.state == InOperand then r.(currentOperand := r.currentOperand + "'")
             else r.(currentText := r.currentText + "'")).(prevChar := "'")
  {
    assert Step(r, str, k, pairs, ts).prevChar == "'";
  }

  /** An apostrophe inside a word is kept as it is: `foo'bar` is one segment. */
  lemma ApostropheInWord(w1: string, w2: string)
    requires |w1| > 0 && PlainWord(w1) && |w2| > 0 && PlainWord(w2)
    ensures ParseSpec(w1 + "'" + w2, []) == Parsed([], [TextSegment(w1 + "'" + w2, false)])
  {
    var str := w1 + "'" + w2;
    var n := |w1|;
    assert str[0..n] == w1 && str[n] == '\'' && str[n + 1..] == w2;
    PlainSlice(str, 0, w1);
    PlainSlice(str, n + 1, w2);
    AtMostOneQuoteNoPairs(str, '\'');
    ApostropheInWordRun(str, Pairs(str), n);
    assert str[..n] == w1 && str[n + 1..] == w2;
    FinishTextUntransformed(Initial.(state := InText, currentText := w1 + "'" + w2, prevChar := [str[|str| - 1]]));
  }

  lemma ApostropheInWordRun(str: string, pairs: QuotePairMap, n: nat)
    requires 0 < n && n + 1 < |str| && str[n] == '\'' && n !in pairs.single
    requires forall i :: 0 <= i < |str| && i != n ==> Plain(str[i])
    ensures RunFrom(Initial, str, pairs, [], 0, |str|)
         == Initial.(state := InText, currentText := str[..n] + "'" + str[n + 1..], prevChar := [str[|str| - 1]])
  {
    TextAt(Initial, str, pairs, [], 0, 0, n, Initial);
    EmptyPrefix(str[0..n]);
    assert str[0..n] == str[..n];
    var s1 := Initial.(state := InText, currentText := str[..n], prevChar := [str[n - 1]]);
    assert s1.prevChar != "\\" by { assert s1.prevChar[0] != '\\'; }
    SingleQuoteStray(Initial, str, pairs, [], 0, n, s1);
    var s2 := s1.(currentText := str[..n] + "'", prevChar := "'");
    TextAt(Initial, str, pairs, [], 0, n + 1, |str|, s2);
    assert str[n + 1..|str|] == str[n + 1..];
  }

  /** An apostrophe inside an unquoted value is kept as it is: `w:a'b` is the
      condition `w` with the value `a'b`, whatever the transforms. */
  lemma ApostropheInValue(w: string, a: string, b: string, ts: seq<Transform>)
    requires |w| > 0 && PlainWord(w) && |a| > 0 && PlainWord(a) && |b| > 0 && PlainWord(b)
    ensures ParseSpec(w + ":" + a + "'" + b, ts) == Parsed([Condition(w, a + "'" + b, false)], [])
  {
    var str := w + ":" + a + "'" + b;
    var n1 := |w|;
    var n2 := n1 + 1 + |a|;
    assert str[0..n1] == w && str[n1] == ':' && str[n1 + 1..n2] == a && str[n2] == '\'' && str[n2 + 1..] == b;
    PlainSlice(str, 0, w);
    PlainSlice(str, n1 + 1, a);
    PlainSlice(str, n2 + 1, b);
    AtMostOneQuoteNoPairs(str, '\'');
    ApostropheInValueRun(str, Pairs(str), ts, n1, n2);
    assert str[..n1] == w && str[n1 + 1..n2] == a && str[n2 + 1..] == b;
    OperandFlushed(false, w, a + "'" + b, [str[|str| - 1]], ts);
  }

  lemma ApostropheInValueRun(str: string, pairs: QuotePairMap, ts: seq<Transform>, n1: nat, n2: nat)
    requires 0 < n1 && n1 + 1 < n2 && n2 + 1 < |str|
    requires str[n1] == ':' && str[n2] == '\'' && n2 !in pairs.single
    requires forall i :: 0 <= i < |str| && i != n1 && i != n2 ==> Plain(str[i])
    ensures RunFrom(Initial, str, pairs, ts, 0, |str|)
         == Initial.(state := InOperand, currentText := str[..n1],
                     currentOperand := str[n1 + 1..n2] + "'" + str[n2 + 1..], prevChar := [str[|str| - 1]])
  {
    KeywordColon(str, pairs, ts, n1);
    var s1 := Initial.(state := InOperand, currentText := str[..n1], prevChar := ":");
    PlainOperandAt(Initial, str, pairs, ts, 0, n1 + 1, n2, s1);
    EmptyPrefix(str[n1 + 1..n2]);
    var s2 := s1.(currentOperand := str[n1 + 1..n2], prevChar := [str[n2 - 1]]);
    assert s2.prevChar != "\\" by { assert s2.prevChar[0] != '\\'; }
    SingleQuoteStray(Initial, str, pairs, ts, 0, n2, s2);
    var s3 := s2.(currentOperand := str[n1 + 1..n2] + "'", prevChar := "'");
    PlainOperandAt(Initial, str, pairs, ts, 0, n2 + 1, |str|, s3);
    assert str[n2 + 1..|str|] == str[n2 + 1..];
  }

  /** Plain operand characters k .. hi-1, at least one, after the run that
      reached r. */
  lemma PlainOperandAt(s: ParserState, str: string, pairs: QuotePairMap, ts: seq<Transform>, lo: nat, k: nat, hi: nat,
                       r: ParserState)
    requires lo <= k < hi <= |str| && RunFrom(s, str, pairs, ts, lo, k) == r && r.state == InOperand
    requires forall i :: k <= i < hi ==> Plain(str[i])
    ensures RunFrom(s, str, pairs, ts, lo, hi)
         == r.(currentOperand := r.currentOperand + str[k..hi], prevChar := [str[hi - 1]])
  {
    RunFromSplit(s, str, pairs, ts, lo, k, hi);
    PlainRunOperand(r, str, pairs, ts, k, hi);
  }
}
