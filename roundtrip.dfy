/** What toString writes, parse reads back: one condition, or one text
    segment, survives the trip through the string. */
module RoundTrip {
  import opened QuotePairs
  import opened Tokenizer
  import opened TokenizerProperties
  import opened Serializer

  /** The backslashes Escape adds are exactly the ones the state machine drops. */
  lemma {:induction false} DropEscape(v: string)
    requires '\\' !in v
    ensures DropBackslashes(Escape(v)) == v
  {
    if |v| > 0 {
      var init, c := v[..|v| - 1], v[|v| - 1];
      assert '\\' !in init by {
        forall i | 0 <= i < |init| ensures init[i] != '\\' {
          assert init[i] == v[i];
        }
      }
      DropEscape(init);
      DropBackslashesAppend(Escape(init), EscapeChar(c));
      if c == '"' {
        var q := "\\\"";
        assert q[1..] == "\"" && q[1..][1..] == [];
        assert DropBackslashes(q) == "\"";
      } else {
        assert [c][1..] == [];
        assert DropBackslashes([c]) == [c];
      }
      assert v == init + [c];
    }
  }

  /** A keyword that can be written bare and read back. */
  predicate GoodKeyword(k: string)
  {
    k != [] && PlainWord(k) && !IsJsSpace(k[0])
  }

  /** A value toString writes so that parse reads it back: non-empty, without
      backslashes, and, when it is not quoted, without single quotes and without
      white space at its end. */
  predicate GoodValue(v: string)
  {
    v != [] && '\\' !in v && (NeedsQuote(v) || ('\'' !in v && !IsJsSpace(v[|v| - 1])))
  }

  /** A safe value of a good value does not end in white space. */
  lemma SafeValueEnds(v: string)
    requires GoodValue(v)
    ensures var sv := SafeValue(v);
      sv != [] && !IsJsSpace(sv[|sv| - 1]) && sv[|sv| - 1] != '\\'
  {
    EscapeEnds(v);
    assert v[|v| - 1] != '\\';
  }

  /** A group key of a good keyword does not start with white space. */
  lemma GroupKeyStarts(c: Condition)
    requires GoodKeyword(c.keyword)
    ensures var key := GroupKey(c);
      key != [] && !IsJsSpace(key[0]) && key[0] != '"'
      && (forall i :: (if c.negated then 1 else 0) <= i < |key| ==> Plain(key[i]))
      && (c.negated ==> key[0] == '-')
  {
    var key := GroupKey(c);
    var st := if c.negated then 1 else 0;
    assert key[st..] == c.keyword;
    PlainSlice(key, st, c.keyword);
  }

  /** With no text segment, toString drops the space before the conditions
      and the one after them. */
  lemma RenderConditionsOnly(cs: seq<Condition>, x: string)
    requires ConditionStr(cs) == " " + x
    requires x != [] && !IsJsSpace(x[0]) && !IsJsSpace(x[|x| - 1])
    ensures Render(cs, []) == x
  {
    assert AllText([]) == "";
    assert ConditionStr(cs) + " " + "" == " " + x + " ";
    TrimPadded(x);
  }

  /** toString of one condition: its key, a colon and its safe value. */
  lemma RenderOneCondition(c: Condition)
    requires GoodKeyword(c.keyword) && GoodValue(c.value)
    ensures Render([c], []) == GroupKey(c) + ":" + SafeValue(c.value)
  {
    SingleConditionStr(c);
    OneConditionEnds(c);
    RenderConditionsOnly([c], GroupKey(c) + ":" + SafeValue(c.value));
  }

  /** A good condition, written out, neither starts nor ends with white space. */
  lemma OneConditionEnds(c: Condition)
    requires GoodKeyword(c.keyword) && GoodValue(c.value)
    ensures var x := GroupKey(c) + ":" + SafeValue(c.value);
      x != [] && !IsJsSpace(x[0]) && !IsJsSpace(x[|x| - 1])
  {
    var key, sv := GroupKey(c), SafeValue(c.value);
    var x := key + ":" + sv;
    SafeValueEnds(c.value);
    GroupKeyStarts(c);
    assert x[0] == key[0] && x[|x| - 1] == sv[|sv| - 1];
  }

  /** Two unescaped double quotes, the second at the end, and every double
      quote between them escaped: the two are paired. */
  lemma OnlyOuterQuotesPaired(x: string, n1: nat, n2: nat)
    requires n1 + 2 < n2 && n2 + 1 == |x|
    requires forall i :: 0 <= i <= n1 ==> x[i] != '"' && x[i] != '\\'
    requires x[n1 + 1] == '"' && x[n2] == '"' && x[n2 - 1] != '\\'
    requires forall i :: n1 + 2 <= i < n2 && x[i] == '"' ==> i > n1 + 2 && x[i - 1] == '\\'
    ensures n1 + 1 in Pairs(x).double
  {
    assert forall i :: 0 <= i < |x| && IsStructural(x, i, '"') ==> i == n1 + 1 || i == n2;
    TwoQuotesPaired(x, '"', n1 + 1, n2);
  }

  /** A group key as parse reads one: an optional `-`, then plain characters. */
  predicate KeyShape(key: string, negated: bool)
  {
    (if negated then 1 else 0) < |key| && (negated ==> key[0] == '-')
    && (forall i :: (if negated then 1 else 0) <= i < |key| ==> Plain(key[i]))
    && key[0] != '"' && key[0] != '\\'
  }

  /** An escaped value: every double quote after a backslash, no backslash at
      the end. */
  predicate EscapedShape(e: string)
  {
    e != [] && e[|e| - 1] != '\\'
    && (forall i :: 0 <= i < |e| && e[i] == '"' ==> i > 0 && e[i - 1] == '\\')
  }

  /** What QuotedValueRun needs of `key:"value"` laid out at n1 and n2. */
  predicate QuotedShape(str: string, negated: bool, n1: nat, n2: nat)
  {
    (if negated then 1 else 0) < n1 && n1 + 2 < n2 && n2 + 1 == |str|
    && (negated ==> str[0] == '-')
    && str[n1] == ':' && str[n1 + 1] == '"' && str[n2] == '"' && n1 + 1 in Pairs(str).double
    && (forall i :: (if negated then 1 else 0) <= i < n1 ==> Plain(str[i]))
    && (forall i :: n1 + 2 <= i < n2 && str[i] == '"' ==> i > n1 + 2 && str[i - 1] == '\\')
    && str[n2 - 1] != '\\'
  }

  /** The layout of `key:"escaped value"`. */
  lemma QuotedLayout(key: string, e: string, negated: bool)
    requires KeyShape(key, negated) && EscapedShape(e)
    ensures var x := key + ":\"" + e + "\"";
      var st, n1, n2 := if negated then 1 else 0, |key|, |key| + 2 + |e|;
      QuotedShape(x, negated, n1, n2) && x[st..n1] == key[st..] && x[n1 + 2..n2] == e
  {
    var x := key + ":\"" + e + "\"";
    var n1, n2 := |key|, |key| + 2 + |e|;
    assert x[..n1] == key && x[n1 + 2..n2] == e;
    forall i | 0 <= i <= n1 ensures x[i] != '"' && x[i] != '\\' {
      if i < n1 {
        assert x[i] == key[i];
      }
    }
    forall i | n1 + 2 <= i < n2 && x[i] == '"' ensures i > n1 + 2 && x[i - 1] == '\\' {
      assert x[i] == e[i - n1 - 2];
      assert x[i - 1] == e[i - n1 - 3];
    }
    assert x[n2 - 1] == e[|e| - 1];
    OnlyOuterQuotesPaired(x, n1, n2);
  }

  /** `key:"e"` parses to one condition when every double quote in e is
      escaped and e does not end in a backslash. */
  lemma QuotedStringParses(key: string, e: string, negated: bool, ts: seq<Transform>)
    requires KeyShape(key, negated) && EscapedShape(e)
    ensures ParseSpec(key + ":\"" + e + "\"", ts)
         == Parsed([Condition(key[(if negated then 1 else 0)..], DropBackslashes(e), negated)], [])
  {
    QuotedLayout(key, e, negated);
    QuotedConditionParses(key + ":\"" + e + "\"", ts, negated, |key|, |key| + 2 + |e|);
  }

  /** QuotedValueRun, read as the parse of the whole string. */
  lemma QuotedConditionParses(str: string, ts: seq<Transform>, negated: bool, n1: nat, n2: nat)
    requires QuotedShape(str, negated, n1, n2)
    ensures ParseSpec(str, ts)
         == Parsed([Condition(str[(if negated then 1 else 0)..n1], DropBackslashes(str[n1 + 2..n2]), negated)], [])
  {
    QuotedValueRun(str, Pairs(str), ts, negated, n1, n2);
    OperandFlushed(negated, str[(if negated then 1 else 0)..n1], DropBackslashes(str[n1 + 2..n2]), "\"", ts);
  }

  /** `key:"escaped value"` parses back to the condition. */
  lemma ParseQuotedCondition(c: Condition, ts: seq<Transform>)
    requires GoodKeyword(c.keyword) && GoodValue(c.value) && NeedsQuote(c.value)
    ensures ParseSpec(GroupKey(c) + ":" + SafeValue(c.value), ts) == Parsed([c], [])
  {
    var key, e := GroupKey(c), Escape(c.value);
    assert key + ":\"" + e + "\"" == key + ":" + SafeValue(c.value);
    GroupKeyStarts(c);
    EscapeQuotesBackslashed(c.value);
    EscapeEnds(c.value);
    assert key[(if c.negated then 1 else 0)..] == c.keyword;
    DropEscape(c.value);
    QuotedStringParses(key, e, c.negated, ts);
  }

  /** An escaped value that needs no quotes: no space, comma or single quote,
      and every double quote after a backslash. */
  predicate BareShape(e: string)
  {
    e != []
    && (forall i :: 0 <= i < |e| ==> e[i] != ' ' && e[i] != ',' && e[i] != '\'')
    && (forall i :: 0 <= i < |e| && e[i] == '"' ==> i > 0 && e[i - 1] == '\\')
  }

  /** What UnquotedValueRun needs of `key:value` with the colon at n1. */
  predicate UnquotedShape(str: string, negated: bool, n1: nat)
  {
    (if negated then 1 else 0) < n1 && n1 + 1 < |str|
    && (negated ==> str[0] == '-') && str[n1] == ':'
    && (forall i :: (if negated then 1 else 0) <= i < n1 ==> Plain(str[i]))
    && (forall i :: n1 < i < |str| ==> str[i] != ' ' && str[i] != ',' && str[i] != '\'')
    && (forall i :: n1 < i < |str| && str[i] == '"' ==> i > n1 + 1 && str[i - 1] == '\\')
  }

  /** The layout of `key:escaped-value`. */
  lemma UnquotedLayout(key: string, e: string, negated: bool)
    requires KeyShape(key, negated) && BareShape(e)
    ensures var x := key + ":" + e;
      var st, n1 := if negated then 1 else 0, |key|;
      UnquotedShape(x, negated, n1) && x[st..n1] == key[st..] && x[n1 + 1..] == e
  {
    var x := key + ":" + e;
    var n1 := |key|;
    assert x[..n1] == key && x[n1 + 1..] == e;
    forall i | n1 < i < |x| ensures x[i] != ' ' && x[i] != ',' && x[i] != '\'' {
      assert x[i] == e[i - n1 - 1];
    }
    forall i | n1 < i < |x| && x[i] == '"' ensures i > n1 + 1 && x[i - 1] == '\\' {
      assert x[i] == e[i - n1 - 1];
      assert x[i - 1] == e[i - n1 - 2];
    }
  }

  /** UnquotedValueRun, read as the parse of the whole string. */
  lemma UnquotedConditionParses(str: string, ts: seq<Transform>, negated: bool, n1: nat)
    requires UnquotedShape(str, negated, n1)
    ensures ParseSpec(str, ts)
         == Parsed([Condition(str[(if negated then 1 else 0)..n1], DropBackslashes(str[n1 + 1..]), negated)], [])
  {
    UnquotedValueRun(str, Pairs(str), ts, negated, n1);
    OperandFlushed(negated, str[(if negated then 1 else 0)..n1], DropBackslashes(str[n1 + 1..]), [str[|str| - 1]], ts);
  }

  /** `key:e` parses to one condition when e has no separator and every double
      quote in it is escaped. */
  lemma UnquotedStringParses(key: string, e: string, negated: bool, ts: seq<Transform>)
    requires KeyShape(key, negated) && BareShape(e)
    ensures ParseSpec(key + ":" + e, ts)
         == Parsed([Condition(key[(if negated then 1 else 0)..], DropBackslashes(e), negated)], [])
  {
    UnquotedLayout(key, e, negated);
    UnquotedConditionParses(key + ":" + e, ts, negated, |key|);
  }

  /** `key:escaped-value`, unquoted, parses back to the condition. */
  lemma ParseUnquotedCondition(c: Condition, ts: seq<Transform>)
    requires GoodKeyword(c.keyword) && GoodValue(c.value) && !NeedsQuote(c.value)
    ensures ParseSpec(GroupKey(c) + ":" + SafeValue(c.value), ts) == Parsed([c], [])
  {
    var key, e := GroupKey(c), Escape(c.value);
    GroupKeyStarts(c);
    EscapeQuotesBackslashed(c.value);
    assert key[(if c.negated then 1 else 0)..] == c.keyword;
    DropEscape(c.value);
    UnquotedStringParses(key, e, c.negated, ts);
  }

  /** A condition written by toString on its own parses back to itself, for
      any transforms. */
  lemma ConditionRoundTrip(c: Condition, ts: seq<Transform>)
    requires GoodKeyword(c.keyword) && GoodValue(c.value)
    ensures ParseSpec(Render([c], []), ts) == Parsed([c], [])
  {
    RenderOneCondition(c);
    if NeedsQuote(c.value) {
      ParseQuotedCondition(c, ts);
    } else {
      ParseUnquotedCondition(c, ts);
    }
  }

  /** A plain word written by toString on its own parses back to the same text
      segment when no transform claims it. */
  lemma TextRoundTrip(t: TextSegment, ts: seq<Transform>)
    requires GoodKeyword(t.text) && !IsJsSpace(t.text[|t.text| - 1])
    requires TransformConditions(ts, t.text, t.negated) == []
    ensures ParseSpec(Render([], [t]), ts) == Parsed([], [t])
  {
    RenderOneText(t);
    TransformedWord(t.text, t.negated, ts);
  }

  /** toString of one text segment: the segment as getAllText writes it. */
  lemma RenderOneText(t: TextSegment)
    requires GoodKeyword(t.text) && !IsJsSpace(t.text[|t.text| - 1])
    ensures Render([], [t]) == (if t.negated then "-" else "") + t.text
  {
    var x := SegmentStr(t);
    assert x == (if t.negated then "-" else "") + t.text;
    assert x[0] == (if t.negated then '-' else t.text[0]) && x[|x| - 1] == t.text[|t.text| - 1];
    assert SegmentStrs([t]) == [x];
    RenderTextOnly([t], x);
  }

  /** With no condition, toString drops the space before the text. */
  lemma RenderTextOnly(segs: seq<TextSegment>, x: string)
    requires AllText(segs) == x
    requires x != [] && !IsJsSpace(x[0]) && !IsJsSpace(x[|x| - 1])
    ensures Render([], segs) == x
  {
    assert Keys([]) == [];
    assert ConditionStr([]) == "";
    assert ConditionStr([]) + " " + AllText(segs) == " " + x;
    TrimPaddedFront(x);
  }

  /** A plain word at the end of the input: the transforms that claim it give
      its conditions, and only when none does it is a text segment. */
  lemma TransformedWord(w: string, negated: bool, ts: seq<Transform>)
    requires w != [] && PlainWord(w)
    ensures var added := TransformConditions(ts, w, negated);
      ParseSpec((if negated then "-" else "") + w, ts)
        == Parsed(added, if added == [] then [TextSegment(w, negated)] else [])
  {
    var x := (if negated then "-" else "") + w;
    var st := if negated then 1 else 0;
    assert x[st..] == w;
    PlainSlice(x, st, w);
    WordRun(x, Pairs(x), ts, negated);
    TextFlushed(negated, w, [x[|x| - 1]], ts);
  }
}
