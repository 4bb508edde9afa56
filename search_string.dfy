/** The query object: the parsed conditions and text segments, the views
    derived from them, the mutators, and the cached string form. */
module Query {
  import opened Tokenizer
  import opened Serializer
  import opened TokenizerProperties

  // ---------------------------------------------------------------------------
  // getParsedQuery.

  /** The parsed-query record: values of the plain conditions by keyword, and
      under `exclude` the values of the negated ones. */
  datatype ParsedQuery = ParsedQuery(included: map<string, seq<string>>, exclude: map<string, seq<string>>)

  /** The values of the conditions with this keyword and negation, in order. */
  function ValuesWhere(cs: seq<Condition>, keyword: string, negated: bool): seq<string>
  {
    if |cs| == 0 then []
    else
      var c := cs[|cs| - 1];
      ValuesWhere(cs[..|cs| - 1], keyword, negated)
        + (if c.keyword == keyword && c.negated == negated then [c.value] else [])
  }

  /** The keywords that occur with this negation. */
  function KeywordsWhere(cs: seq<Condition>, negated: bool): set<string>
  {
    if |cs| == 0 then {}
    else
      var c := cs[|cs| - 1];
      KeywordsWhere(cs[..|cs| - 1], negated) + (if c.negated == negated then {c.keyword} else {})
  }

  /** The values by keyword of the conditions with this negation. */
  function SideMap(cs: seq<Condition>, negated: bool): map<string, seq<string>>
  {
    map k | k in KeywordsWhere(cs, negated) :: ValuesWhere(cs, k, negated)
  }

  /** What getParsedQuery returns for a list of conditions. */
  function ParsedQueryOf(cs: seq<Condition>): (pq: ParsedQuery)
    ensures forall k :: k in pq.included <==> exists i :: 0 <= i < |cs| && cs[i].keyword == k && !cs[i].negated
    ensures forall k :: k in pq.exclude <==> exists i :: 0 <= i < |cs| && cs[i].keyword == k && cs[i].negated
    ensures forall k :: k in pq.included ==> pq.included[k] != []
    ensures forall k :: k in pq.exclude ==> pq.exclude[k] != []
  {
    SideMapSpec(cs, false);
    SideMapSpec(cs, true);
    ParsedQuery(SideMap(cs, false), SideMap(cs, true))
  }

  /** The keywords of a side are those of its conditions, and none has an
      empty list. */
  lemma SideMapSpec(cs: seq<Condition>, negated: bool)
    ensures forall k :: k in SideMap(cs, negated) <==>
      exists i :: 0 <= i < |cs| && cs[i].keyword == k && cs[i].negated == negated
    ensures forall k :: k in SideMap(cs, negated) ==> SideMap(cs, negated)[k] != []
  {
    KeywordsWhereSpec(cs, negated);
    forall k | k in SideMap(cs, negated) ensures SideMap(cs, negated)[k] != [] {
      ValuesWhereEmpty(cs, k, negated);
    }
  }

  lemma {:induction false} KeywordsWhereSpec(cs: seq<Condition>, negated: bool)
    ensures forall k :: k in KeywordsWhere(cs, negated) <==>
      exists i :: 0 <= i < |cs| && cs[i].keyword == k && cs[i].negated == negated
  {
    if |cs| > 0 {
      var init := cs[..|cs| - 1];
      KeywordsWhereSpec(init, negated);
      assert forall i :: 0 <= i < |init| ==> init[i] == cs[i];
      forall k | exists i :: 0 <= i < |cs| && cs[i].keyword == k && cs[i].negated == negated
        ensures k in KeywordsWhere(cs, negated)
      {
        var i :| 0 <= i < |cs| && cs[i].keyword == k && cs[i].negated == negated;
        if i < |init| { assert init[i] == cs[i]; }
      }
    }
  }

  /** Each condition contributes its value exactly once, to the list of its own
      keyword and negation, at the place given by the matching conditions
      before it; a list is never empty. */
  lemma {:induction false} ValuesWhereAt(cs: seq<Condition>, i: nat)
    requires i < |cs|
    ensures var c := cs[i]; var before := ValuesWhere(cs[..i], c.keyword, c.negated);
      |before| < |ValuesWhere(cs, c.keyword, c.negated)|
      && ValuesWhere(cs, c.keyword, c.negated)[|before|] == c.value
  {
    var c := cs[i];
    if i < |cs| - 1 {
      var init := cs[..|cs| - 1];
      assert init[..i] == cs[..i] && init[i] == c;
      ValuesWhereAt(init, i);
    } else {
      assert cs[..i] == cs[..|cs| - 1];
    }
  }

  /** A keyword has a list exactly when a condition with it and that negation
      exists. */
  lemma {:induction false} ValuesWhereEmpty(cs: seq<Condition>, keyword: string, negated: bool)
    ensures ValuesWhere(cs, keyword, negated) == [] <==> keyword !in KeywordsWhere(cs, negated)
  {
    if |cs| > 0 {
      var init := cs[..|cs| - 1];
      var c := cs[|cs| - 1];
      ValuesWhereEmpty(init, keyword, negated);
    }
  }

  /** Appending a condition appends its value to its own list only. */
  lemma ValuesWhereAppend(cs: seq<Condition>, c: Condition, keyword: string, negated: bool)
    ensures ValuesWhere(cs + [c], keyword, negated)
         == ValuesWhere(cs, keyword, negated) + (if c.keyword == keyword && c.negated == negated then [c.value] else [])
  {
    assert (cs + [c])[..|cs|] == cs;
  }

  /** One list push of the forEach: onto the keyword's list, or a new list. */
  function Push(m: map<string, seq<string>>, k: string, v: string): map<string, seq<string>>
  {
    if k in m then m[k := m[k] + [v]] else m[k := [v]]
  }

  /** One more condition pushes its value onto the list of its keyword, in the
      exclude record when it is negated, and changes nothing else. */
  lemma ParsedQueryAppend(cs: seq<Condition>, c: Condition)
    ensures var pq := ParsedQueryOf(cs);
      ParsedQueryOf(cs + [c])
        == if c.negated then pq.(exclude := Push(pq.exclude, c.keyword, c.value))
           else pq.(included := Push(pq.included, c.keyword, c.value))
  {
    SideMapAppend(cs, c, true);
    SideMapAppend(cs, c, false);
  }

  lemma SideMapAppend(cs: seq<Condition>, c: Condition, negated: bool)
    ensures SideMap(cs + [c], negated)
         == if c.negated == negated then Push(SideMap(cs, negated), c.keyword, c.value) else SideMap(cs, negated)
  {
    KeywordsWhereAppend(cs, c, negated);
    if c.negated == negated {
      SideMapAppendSame(cs, c);
    } else {
      SideMapAppendOther(cs, c, negated);
    }
  }

  lemma KeywordsWhereAppend(cs: seq<Condition>, c: Condition, negated: bool)
    ensures KeywordsWhere(cs + [c], negated)
         == KeywordsWhere(cs, negated) + (if c.negated == negated then {c.keyword} else {})
  {
    assert (cs + [c])[..|cs|] == cs;
  }

  lemma SideMapAppendSame(cs: seq<Condition>, c: Condition)
    requires KeywordsWhere(cs + [c], c.negated) == KeywordsWhere(cs, c.negated) + {c.keyword}
    ensures SideMap(cs + [c], c.negated) == Push(SideMap(cs, c.negated), c.keyword, c.value)
  {
    var m, m' := SideMap(cs, c.negated), SideMap(cs + [c], c.negated);
    var p := Push(m, c.keyword, c.value);
    ValuesWhereEmpty(cs, c.keyword, c.negated);
    forall k | k in m' ensures m'[k] == p[k] {
      ValuesWhereAppend(cs, c, k, c.negated);
    }
    assert m'.Keys == p.Keys;
  }

  lemma SideMapAppendOther(cs: seq<Condition>, c: Condition, negated: bool)
    requires c.negated != negated
    requires KeywordsWhere(cs + [c], negated) == KeywordsWhere(cs, negated)
    ensures SideMap(cs + [c], negated) == SideMap(cs, negated)
  {
    var m, m' := SideMap(cs, negated), SideMap(cs + [c], negated);
    forall k | k in m' ensures m'[k] == m[k] {
      ValuesWhereAppend(cs, c, k, negated);
    }
  }

  /** Empty or blank input parses to a query with no keyword and an empty
      `exclude` record. */
  lemma BlankInputEmptyQuery(s: string, ts: seq<Transform>)
    requires forall i :: 0 <= i < |s| ==> s[i] == ' '
    ensures ParseSpec(s, ts).segments == []
    ensures ParsedQueryOf(ParseSpec(s, ts).conditions) == ParsedQuery(map[], map[])
  {
    OnlySpacesParseEmpty(s, ts);
    assert KeywordsWhere([], false) == {} && KeywordsWhere([], true) == {};
  }

  // ---------------------------------------------------------------------------
  // removeKeyword and removeEntry on the condition list.

  /** The conditions that survive removeKeyword(keyword, negated), in order. */
  function WithoutKeyword(cs: seq<Condition>, keyword: string, negated: bool): (r: seq<Condition>)
    ensures |r| <= |cs|
    ensures forall j :: 0 <= j < |r| ==> r[j] in cs && (r[j].keyword != keyword || r[j].negated != negated)
  {
    if |cs| == 0 then []
    else
      var c := cs[|cs| - 1];
      assert forall x :: x in cs[..|cs| - 1] ==> x in cs;
      WithoutKeyword(cs[..|cs| - 1], keyword, negated)
        + (if c.keyword != keyword || c.negated != negated then [c] else [])
  }

  /** removeKeyword drops every condition with both the keyword and the
      negation, keeps every other one as often as it was there, and keeps
      the order (it distributes over concatenation). */
  lemma {:induction false} WithoutKeywordSpec(cs: seq<Condition>, keyword: string, negated: bool, c: Condition)
    ensures multiset(WithoutKeyword(cs, keyword, negated))[c]
         == if c.keyword == keyword && c.negated == negated then 0 else multiset(cs)[c]
  {
    if |cs| > 0 {
      var init := cs[..|cs| - 1];
      WithoutKeywordSpec(init, keyword, negated, c);
      assert cs == init + [cs[|cs| - 1]];
    }
  }

  lemma {:induction false} WithoutKeywordAppend(a: seq<Condition>, b: seq<Condition>, keyword: string, negated: bool)
    ensures WithoutKeyword(a + b, keyword, negated) == WithoutKeyword(a, keyword, negated) + WithoutKeyword(b, keyword, negated)
    decreases |b|
  {
    if |b| == 0 {
      assert a + b == a;
    } else {
      assert (a + b)[..|a + b| - 1] == a + b[..|b| - 1];
      WithoutKeywordAppend(a, b[..|b| - 1], keyword, negated);
    }
  }

  /** Removing a keyword twice is removing it once. */
  lemma {:induction false} WithoutKeywordIdempotent(cs: seq<Condition>, keyword: string, negated: bool)
    ensures WithoutKeyword(WithoutKeyword(cs, keyword, negated), keyword, negated) == WithoutKeyword(cs, keyword, negated)
  {
    if |cs| > 0 {
      var init := cs[..|cs| - 1];
      var c := cs[|cs| - 1];
      WithoutKeywordIdempotent(init, keyword, negated);
      var once := WithoutKeyword(init, keyword, negated);
      if c.keyword != keyword || c.negated != negated {
        WithoutKeywordAppend(once, [c], keyword, negated);
        assert WithoutKeyword([c], keyword, negated) == [] + [c];
      } else {
        assert WithoutKeyword(cs, keyword, negated) == once + [] == once;
      }
    }
  }

  /** findIndex: the first offset holding this condition, or -1. */
  function FindIndex(cs: seq<Condition>, c: Condition): (r: int)
    ensures -1 <= r < |cs|
    ensures r == -1 <==> c !in cs
    ensures r >= 0 ==> cs[r] == c && forall j :: 0 <= j < r ==> cs[j] != c
  {
    if |cs| == 0 then -1
    else if cs[0] == c then 0
    else
      var r := FindIndex(cs[1..], c);
      assert c in cs <==> c in cs[1..];
      if r == -1 then -1 else r + 1
  }

  /** splice(index, 1). */
  function RemoveAt(cs: seq<Condition>, index: nat): (r: seq<Condition>)
    requires index < |cs|
    ensures |r| == |cs| - 1
    ensures multiset(r) == multiset(cs) - multiset{cs[index]}
  {
    assert cs == cs[..index] + [cs[index]] + cs[index + 1..];
    cs[..index] + cs[index + 1..]
  }

  // ---------------------------------------------------------------------------
  // The object.

  class SearchString {
    var conditionArray: seq<Condition>
    var textSegments: seq<TextSegment>
    /** The cached string form (the source's field `string`). */
    var str: string
    var isStringDirty: bool

    /** A clean cache holds the string form of the current contents. */
    ghost predicate Valid()
      reads this
    {
      !isStringDirty ==> str == Render(conditionArray, textSegments)
    }

    constructor (conditionArray: seq<Condition>, textSegments: seq<TextSegment>)
      ensures this.conditionArray == conditionArray && this.textSegments == textSegments
      ensures str == "" && isStringDirty
      ensures Valid()
    {
      this.conditionArray := conditionArray;
      this.textSegments := textSegments;
      str := "";
      isStringDirty := true;
    }

    /** parse: the state machine over the input, then a new object. A null or
        undefined input is the empty string here. */
    static method Parse(s: string, ts: seq<Transform>) returns (q: SearchString)
      ensures fresh(q) && q.Valid() && q.isStringDirty
      ensures Parsed(q.conditionArray, q.textSegments) == ParseSpec(s, ts)
    {
      var conditionArray, textSegments := RunParse(s, ts);
      q := new SearchString(conditionArray, textSegments);
    }

    /** The conditions, possibly several for one keyword. */
    function GetConditionArray(): (r: seq<Condition>)
      reads this
      ensures r == conditionArray
    {
      conditionArray
    }

    /** The text segments, negated or not. */
    function GetTextSegments(): (r: seq<TextSegment>)
      reads this
      ensures r == textSegments
    {
      textSegments
    }

    /** The text segments joined by spaces, a negated one after a `-`. */
    function GetAllText(): (r: string)
      reads this
      ensures r == AllText(textSegments)
    {
      AllText(textSegments)
    }

    /** The forEach that fills the parsed-query record. */
    method GetParsedQuery() returns (pq: ParsedQuery)
      ensures pq == ParsedQueryOf(conditionArray)
    {
      var included: map<string, seq<string>> := map[];
      var exclude: map<string, seq<string>> := map[];
      var cs := conditionArray;
      for i := 0 to |cs|
        invariant included == ParsedQueryOf(cs[..i]).included
        invariant exclude == ParsedQueryOf(cs[..i]).exclude
      {
        var c := cs[i];
        assert cs[..i + 1] == cs[..i] + [c];
        ParsedQueryAppend(cs[..i], c);
        if c.negated {
          if c.keyword in exclude {
            exclude := exclude[c.keyword := exclude[c.keyword] + [c.value]];
          } else {
            exclude := exclude[c.keyword := [c.value]];
          }
        } else {
          if c.keyword in included {
            included := included[c.keyword := included[c.keyword] + [c.value]];
          } else {
            included := included[c.keyword := [c.value]];
          }
        }
      }
      assert cs[..|cs|] == cs;
      pq := ParsedQuery(included, exclude);
    }

    /** removeKeyword: every condition with the keyword and the negation goes;
        the cache is marked stale. */
    method RemoveKeyword(keywordToRemove: string, negatedToRemove: bool)
      modifies this
      ensures conditionArray == WithoutKeyword(old(conditionArray), keywordToRemove, negatedToRemove)
      ensures textSegments == old(textSegments) && str == old(str) && isStringDirty
      ensures Valid()
    {
      conditionArray := WithoutKeyword(conditionArray, keywordToRemove, negatedToRemove);
      isStringDirty := true;
    }

    /** addEntry: one condition appended, no de-duplication. */
    method AddEntry(keyword: string, value: string, negated: bool)
      modifies this
      ensures conditionArray == old(conditionArray) + [Condition(keyword, value, negated)]
      ensures textSegments == old(textSegments) && str == old(str) && isStringDirty
      ensures Valid()
    {
      conditionArray := conditionArray + [Condition(keyword, value, negated)];
      isStringDirty := true;
    }

    /** removeEntry: the first equal condition goes; with none, nothing
        changes, not even the dirty flag. */
    method RemoveEntry(keyword: string, value: string, negated: bool)
      requires Valid()
      modifies this
      ensures var index := FindIndex(old(conditionArray), Condition(keyword, value, negated));
        if index == -1 then
          conditionArray == old(conditionArray) && isStringDirty == old(isStringDirty)
        else
          conditionArray == RemoveAt(old(conditionArray), index) && isStringDirty
      ensures textSegments == old(textSegments) && str == old(str)
      ensures Valid()
    {
      var index := FindIndex(conditionArray, Condition(keyword, value, negated));
      if index == -1 {
        return;
      }
      conditionArray := RemoveAt(conditionArray, index);
      isStringDirty := true;
    }

    /** clone: a new object over copies of both lists, with a stale cache. */
    method Clone() returns (q: SearchString)
      ensures fresh(q)
      ensures q.conditionArray == conditionArray && q.textSegments == textSegments
      ensures q.str == "" && q.isStringDirty && q.Valid()
    {
      q := new SearchString(conditionArray, textSegments);
    }

    /** toString: the string form, computed only when the cache is stale. */
    method ToString() returns (s: string)
      requires Valid()
      modifies this`str, this`isStringDirty
      ensures s == Render(conditionArray, textSegments)
      ensures str == s && !isStringDirty && Valid()
      ensures !old(isStringDirty) ==> str == old(str)
    {
      if isStringDirty {
        var conditionStr := ConditionString(conditionArray);
        str := Trim(conditionStr + " " + GetAllText());
        isStringDirty := false;
      }
      s := str;
    }
  }
}
