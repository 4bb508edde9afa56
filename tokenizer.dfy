/** The character-level state machine of `SearchString.parse`, written as a fold
    of one step per character over the input, and the transform hook that may
    turn a would-be text segment into conditions. */
module Tokenizer {
  import opened QuotePairs

  /** One `keyword:value` clause, possibly negated with a leading `-`. */
  datatype Condition = Condition(keyword: string, value: string, negated: bool)

  /** A free word or quoted phrase, possibly negated. */
  datatype TextSegment = TextSegment(text: string, negated: bool)

  /** A text-to-condition transform. It claims a text when both the key and the
      value it returns are non-empty. */
  type Transform = string -> (string, string)

  /** The token state: nothing accumulated, text (or a keyword not yet known to
      be one), or the operand after a `:`. */
  datatype Mode = Reset | InText | InOperand

  /** The quote sub-state; the source spells its neutral value RESET as well. */
  datatype QuoteMode = NoQuote | SingleQuote | DoubleQuote

  /** Every local variable of the parse loop, including the two output arrays. */
  datatype ParserState = ParserState(
    state: Mode,
    quoteState: QuoteMode,
    currentText: string,
    currentOperand: string,
    isNegated: bool,
    prevChar: string,
    conditionArray: seq<Condition>,
    textSegments: seq<TextSegment>)

  /** The state after the initial performReset, before any character. */
  const Initial := ParserState(Reset, NoQuote, "", "", false, "", [], [])

  predicate InQuote(s: ParserState) { s.quoteState != NoQuote }

  /** A transform result that claims the text. */
  predicate Matches(r: (string, string)) { r.0 != "" && r.1 != "" }

  /** The conditions that the transforms add for one text, in transform order:
      one per matching transform. */
  function TransformConditions(ts: seq<Transform>, text: string, negated: bool): (r: seq<Condition>)
    ensures |r| <= |ts|
    ensures forall j :: 0 <= j < |r| ==> r[j].negated == negated && Matches((r[j].keyword, r[j].value))
  {
    if |ts| == 0 then []
    else
      var r := ts[|ts| - 1](text);
      TransformConditions(ts[..|ts| - 1], text, negated)
        + (if Matches(r) then [Condition(r.0, r.1, negated)] else [])
  }

  function AddCondition(s: ParserState, key: string, value: string, negated: bool): ParserState
  {
    s.(conditionArray := s.conditionArray + [Condition(key, value, negated)])
  }

  /** addTextSegment: every matching transform adds a condition; the text itself
      becomes a segment only when no transform matched. */
  function TextSegmentAdded(s: ParserState, ts: seq<Transform>, text: string, negated: bool): (r: ParserState)
    ensures s.conditionArray <= r.conditionArray && s.textSegments <= r.textSegments
    ensures || (r.conditionArray == s.conditionArray && r.textSegments == s.textSegments + [TextSegment(text, negated)])
            || (|r.conditionArray| > |s.conditionArray| && r.textSegments == s.textSegments)
    ensures r.(conditionArray := s.conditionArray, textSegments := s.textSegments) == s
  {
    var added := TransformConditions(ts, text, negated);
    if added != [] then s.(conditionArray := s.conditionArray + added)
    else s.(textSegments := s.textSegments + [TextSegment(text, negated)])
  }

  function PerformReset(s: ParserState): ParserState
  {
    s.(state := Reset, quoteState := NoQuote, currentOperand := "", currentText := "",
       isNegated := false, prevChar := "")
  }

  /** One iteration of the parse loop, on the character at offset i. */
  function Step(s: ParserState, str: string, i: nat, pairs: QuotePairMap, ts: seq<Transform>): (r: ParserState)
    requires i < |str|
    ensures r.prevChar == [str[i]]
    ensures s.conditionArray <= r.conditionArray && s.textSegments <= r.textSegments
    ensures r.conditionArray != s.conditionArray || r.textSegments != s.textSegments
        ==> !InQuote(s) && s.state != Reset && (str[i] == ' ' || str[i] == ',')
    ensures !InQuote(s) && s.state == InOperand && (str[i] == ' ' || str[i] == ',')
        ==> |r.conditionArray| == |s.conditionArray| + 1
  {
    var c := str[i];
    var next :=
      if c == ' ' then
        if s.state == InOperand then
          if InQuote(s) then s.(currentOperand := s.currentOperand + [c])
          else PerformReset(AddCondition(s, s.currentText, s.currentOperand, s.isNegated))
        else if s.state == InText then
          if InQuote(s) then s.(currentText := s.currentText + [c])
          else PerformReset(TextSegmentAdded(s, ts, s.currentText, s.isNegated))
        else s
      else if c == ',' && s.state == InOperand && !InQuote(s) then
        AddCondition(s, s.currentText, s.currentOperand, s.isNegated).(currentOperand := "")
      else if c == '-' && s.state != InOperand && s.state != InText then
        s.(isNegated := true)
      else if c == ':' && !InQuote(s) then
        if s.state == InOperand then s.(currentOperand := s.currentOperand + [c])
        else if s.state == InText then s.(state := InOperand)
        else s
      else if c == '"' && s.prevChar != "\\" && s.quoteState != SingleQuote then
        if s.quoteState == DoubleQuote then s.(quoteState := NoQuote)
        else if i in pairs.double then s.(quoteState := DoubleQuote)
        else if s.state == InOperand then s.(currentOperand := s.currentOperand + [c])
        else s.(currentText := s.currentText + [c])
      else if c == '\'' && s.prevChar != "\\" && s.quoteState != DoubleQuote then
        if s.quoteState == SingleQuote then s.(quoteState := NoQuote)
        else if i in pairs.single then s.(quoteState := SingleQuote)
        else if s.state == InOperand then s.(currentOperand := s.currentOperand + [c])
        else s.(currentText := s.currentText + [c])
      else if c != '\\' then
        if s.state == InOperand then s.(currentOperand := s.currentOperand + [c])
        else s.(currentText := s.currentText + [c], state := InText)
      else s;
    next.(prevChar := [c])
  }

  /** The state after the characters at offsets lo .. hi-1, starting from s. */
  function RunFrom(s: ParserState, str: string, pairs: QuotePairMap, ts: seq<Transform>, lo: nat, hi: nat): ParserState
    requires lo <= hi <= |str|
    decreases hi - lo
  {
    if hi == lo then s else Step(RunFrom(s, str, pairs, ts, lo, hi - 1), str, hi - 1, pairs, ts)
  }

  /** End of input: the pending text or condition is flushed. */
  function Finish(s: ParserState, ts: seq<Transform>): (r: ParserState)
    ensures s.conditionArray <= r.conditionArray && s.textSegments <= r.textSegments
    ensures (r == s) <==> s.state == Reset
  {
    if s.state == InText then
      var r := TextSegmentAdded(s, ts, s.currentText, s.isNegated);
      assert |r.conditionArray| + |r.textSegments| > |s.conditionArray| + |s.textSegments|;
      r
    else if s.state == InOperand then AddCondition(s, s.currentText, s.currentOperand, s.isNegated)
    else assert s.state == Reset; s
  }

  /** The two lists a parse produces. */
  datatype Parsed = Parsed(conditions: seq<Condition>, segments: seq<TextSegment>)

  /** What parse(str, ts) puts into its SearchString. */
  function ParseSpec(str: string, ts: seq<Transform>): Parsed
  {
    var s := Finish(RunFrom(Initial, str, Pairs(str), ts, 0, |str|), ts);
    Parsed(s.conditionArray, s.textSegments)
  }

  /** addTextSegment as the source runs it: a forEach over the transforms with a
      hasTransform flag, then the segment push. */
  method AddTextSegment(conditionArray: seq<Condition>, textSegments: seq<TextSegment>,
                        ts: seq<Transform>, text: string, negated: bool)
    returns (conditionArray': seq<Condition>, textSegments': seq<TextSegment>)
    ensures var added := TransformConditions(ts, text, negated);
      && conditionArray' == conditionArray + added
      && textSegments' == if added == [] then textSegments + [TextSegment(text, negated)] else textSegments
  {
    var hasTransform := false;
    conditionArray' := conditionArray;
    for j := 0 to |ts|
      invariant conditionArray' == conditionArray + TransformConditions(ts[..j], text, negated)
      invariant hasTransform <==> TransformConditions(ts[..j], text, negated) != []
    {
      assert ts[..j + 1][..j] == ts[..j];
      var (key, value) := ts[j](text);
      if key != "" && value != "" {
        conditionArray' := conditionArray' + [Condition(key, value, negated)];
        hasTransform := true;
      }
    }
    assert ts[..|ts|] == ts;
    textSegments' := textSegments;
    if !hasTransform {
      textSegments' := textSegments' + [TextSegment(text, negated)];
    }
  }

  /** The parse loop as the source runs it, over its local variables; the pair
      map comes from the pre-scan method. */
  method RunParse(str: string, ts: seq<Transform>) returns (conditionArray: seq<Condition>, textSegments: seq<TextSegment>)
    ensures Parsed(conditionArray, textSegments) == ParseSpec(str, ts)
  {
    conditionArray, textSegments := [], [];
    var state, quoteState := Reset, NoQuote;
    var currentOperand, isNegated, currentText, prevChar := "", false, "", "";
    var quotePairMap := GetQuotePairMap(str);
    for i := 0 to |str|
      invariant ParserState(state, quoteState, currentText, currentOperand, isNegated, prevChar,
                            conditionArray, textSegments)
             == RunFrom(Initial, str, quotePairMap, ts, 0, i)
    {
      ghost var before := ParserState(state, quoteState, currentText, currentOperand, isNegated, prevChar,
                                      conditionArray, textSegments);
      var c := str[i];
      if c == ' ' {
        if state == InOperand {
          if quoteState != NoQuote {
            currentOperand := currentOperand + [c];
          } else {
            conditionArray := conditionArray + [Condition(currentText, currentOperand, isNegated)];
            state, quoteState, currentOperand, currentText, isNegated, prevChar := Reset, NoQuote, "", "", false, "";
          }
        } else if state == InText {
          if quoteState != NoQuote {
            currentText := currentText + [c];
          } else {
            conditionArray, textSegments := AddTextSegment(conditionArray, textSegments, ts, currentText, isNegated);
            state, quoteState, currentOperand, currentText, isNegated, prevChar := Reset, NoQuote, "", "", false, "";
          }
        }
      } else if c == ',' && state == InOperand && quoteState == NoQuote {
        conditionArray := conditionArray + [Condition(currentText, currentOperand, isNegated)];
        currentOperand := "";
      } else if c == '-' && state != InOperand && state != InText {
        isNegated := true;
      } else if c == ':' && quoteState == NoQuote {
        if state == InOperand {
          currentOperand := currentOperand + [c];
        } else if state == InText {
          state := InOperand;
        }
      } else if c == '"' && prevChar != "\\" && quoteState != SingleQuote {
        if quoteState == DoubleQuote {
          quoteState := NoQuote;
        } else if i in quotePairMap.double {
          quoteState := DoubleQuote;
        } else if state == InOperand {
          currentOperand := currentOperand + [c];
        } else {
          currentText := currentText + [c];
        }
      } else if c == '\'' && prevChar != "\\" && quoteState != DoubleQuote {
        if quoteState == SingleQuote {
          quoteState := NoQuote;
        } else if i in quotePairMap.single {
          quoteState := SingleQuote;
        } else if state == InOperand {
          currentOperand := currentOperand + [c];
        } else {
          currentText := currentText + [c];
        }
      } else if c != '\\' {
        if state == InOperand {
          currentOperand := currentOperand + [c];
        } else {
          currentText := currentText + [c];
          state := InText;
        }
      }
      prevChar := [c];
      assert ParserState(state, quoteState, currentText, currentOperand, isNegated, prevChar,
                         conditionArray, textSegments)
          == Step(before, str, i, quotePairMap, ts);
    }
    if state == InText {
      conditionArray, textSegments := AddTextSegment(conditionArray, textSegments, ts, currentText, isNegated);
    } else if state == InOperand {
      conditionArray := conditionArray + [Condition(currentText, currentOperand, isNegated)];
    }
  }
}
