/** The serialiser behind `SearchString.toString`: conditions grouped by their
    negation-and-keyword key, values escaped and quoted, then the free text,
    and the whole trimmed. */
module Serializer {
  import opened Tokenizer

  // ---------------------------------------------------------------------------
  // Grouping.

  /** The key a condition is grouped under: the keyword, after a `-` when the
      condition is negated. */
  function GroupKey(c: Condition): string
  {
    (if c.negated then "-" else "") + c.keyword
  }

  /** Some condition is grouped under k. */
  predicate HasKey(cs: seq<Condition>, k: string)
  {
    |cs| > 0 && (HasKey(cs[..|cs| - 1], k) || GroupKey(cs[|cs| - 1]) == k)
  }

  /** The group keys in the order they are first seen, each once. */
  function Keys(cs: seq<Condition>): (keys: seq<string>)
    ensures forall i, j :: 0 <= i < j < |keys| ==> keys[i] != keys[j]
    ensures forall k :: k in keys <==> HasKey(cs, k)
  {
    if |cs| == 0 then []
    else
      var init := Keys(cs[..|cs| - 1]);
      var k := GroupKey(cs[|cs| - 1]);
      if k in init then init else init + [k]
  }

  /** The values grouped under key k, in condition order. */
  function Values(cs: seq<Condition>, k: string): (r: seq<string>)
    ensures r == [] <==> !HasKey(cs, k)
    ensures |r| <= |cs|
  {
    if |cs| == 0 then []
    else
      Values(cs[..|cs| - 1], k) + (if GroupKey(cs[|cs| - 1]) == k then [cs[|cs| - 1].value] else [])
  }

  /** The first offset of a condition grouped under k. */
  function FirstWithKey(cs: seq<Condition>, k: string): (i: nat)
    requires HasKey(cs, k)
    ensures i < |cs| && GroupKey(cs[i]) == k
    ensures forall j :: 0 <= j < i ==> GroupKey(cs[j]) != k
  {
    var init := cs[..|cs| - 1];
    if HasKey(init, k) then
      var f := FirstWithKey(init, k);
      assert forall j :: 0 <= j < f ==> cs[j] == init[j];
      f
    else
      NoKeyNowhere(init, k);
      assert forall j :: 0 <= j < |init| ==> cs[j] == init[j];
      |cs| - 1
  }

  /** Without the key, no condition carries it. */
  lemma {:induction false} NoKeyNowhere(cs: seq<Condition>, k: string)
    requires !HasKey(cs, k)
    ensures forall j :: 0 <= j < |cs| ==> GroupKey(cs[j]) != k
  {
    if |cs| > 0 {
      var init := cs[..|cs| - 1];
      NoKeyNowhere(init, k);
      assert forall j :: 0 <= j < |init| ==> cs[j] == init[j];
    }
  }

  /** Group keys come in the order of their first condition. */
  lemma {:induction false} KeysFirstSeenOrder(cs: seq<Condition>, i: nat, j: nat)
    requires i < j < |Keys(cs)|
    ensures FirstWithKey(cs, Keys(cs)[i]) < FirstWithKey(cs, Keys(cs)[j])
  {
    var init := cs[..|cs| - 1];
    var last := cs[|cs| - 1];
    var ki := Keys(cs)[i];
    var kj := Keys(cs)[j];
    assert Keys(cs)[..|Keys(init)|] == Keys(init);
    assert ki == Keys(init)[i];
    if j < |Keys(init)| {
      assert kj == Keys(init)[j];
      KeysFirstSeenOrder(init, i, j);
      assert HasKey(init, ki) && HasKey(init, kj);
    } else {
      assert !HasKey(init, kj);
      assert HasKey(init, ki);
    }
  }

  /** Values of a key split over a concatenation of condition lists. */
  lemma {:induction false} ValuesAppend(a: seq<Condition>, b: seq<Condition>, k: string)
    ensures Values(a + b, k) == Values(a, k) + Values(b, k)
    decreases |b|
  {
    if |b| == 0 {
      assert a + b == a;
    } else {
      assert (a + b)[..|a + b| - 1] == a + b[..|b| - 1];
      ValuesAppend(a, b[..|b| - 1], k);
    }
  }

  /** The conditionGroups record as the source builds it: a map from key to
      values and, beside it, the order in which `Object.keys` will list them. */
  method BuildGroups(cs: seq<Condition>) returns (groups: map<string, seq<string>>, keys: seq<string>)
    ensures keys == Keys(cs)
    ensures forall k :: k in groups <==> k in keys
    ensures forall k :: k in groups ==> groups[k] == Values(cs, k)
  {
    groups := map[];
    keys := [];
    for i := 0 to |cs|
      invariant keys == Keys(cs[..i])
      invariant forall k :: k in groups <==> k in keys
      invariant forall k :: k in groups ==> groups[k] == Values(cs[..i], k)
    {
      assert cs[..i + 1][..i] == cs[..i];
      var key := GroupKey(cs[i]);
      if key in groups {
        groups := groups[key := groups[key] + [cs[i].value]];
      } else {
        groups := groups[key := [cs[i].value]];
        keys := keys + [key];
      }
      forall k | k in groups ensures groups[k] == Values(cs[..i + 1], k) {
        if k != key { assert Values(cs[..i + 1], k) == Values(cs[..i], k) + []; }
      }
    }
    assert cs[..|cs|] == cs;
  }

  // ---------------------------------------------------------------------------
  // Values.

  /** The escape of one character: a double quote gets a backslash. */
  function EscapeChar(c: char): string
  {
    if c == '"' then "\\\"" else [c]
  }

  /** A value with each double quote escaped; nothing else changes. */
  function Escape(v: string): (r: string)
    ensures |r| >= |v|
    ensures '"' !in v ==> r == v
  {
    if |v| == 0 then ""
    else
      assert forall x :: x in v[..|v| - 1] ==> x in v;
      Escape(v[..|v| - 1]) + EscapeChar(v[|v| - 1])
  }

  /** Escape adds exactly one character per double quote of the value. */
  lemma {:induction false} EscapeLength(v: string)
    ensures |Escape(v)| == |v| + multiset(v)['"']
  {
    if |v| > 0 {
      var init, c := v[..|v| - 1], v[|v| - 1];
      EscapeLength(init);
      assert v == init + [c];
      assert multiset(v)['"'] == multiset(init)['"'] + (if c == '"' then 1 else 0);
      assert |Escape(v)| == |Escape(init)| + |EscapeChar(c)|;
    }
  }

  /** A value must be quoted when it holds a space or a comma. */
  predicate NeedsQuote(v: string)
  {
    ' ' in v || ',' in v
  }

  /** A value as it is written after its keyword. */
  function SafeValue(v: string): (r: string)
    ensures |r| >= |v|
    ensures (|r| > 0 && r[0] == '"') <==> NeedsQuote(v)
  {
    var e := Escape(v);
    assert v != [] ==> e[0] != '"' by {
      if v != [] { EscapeEnds(v); }
    }
    if NeedsQuote(v) then "\"" + e + "\"" else e
  }

  /** Escape adds exactly one backslash in front of every double quote: no
      double quote in the result stands alone, and dropping the backslashes
      again gives back a value that had none. */
  lemma EscapeQuotesBackslashed(v: string)
    ensures forall i :: 0 <= i < |Escape(v)| && Escape(v)[i] == '"' ==> i > 0 && Escape(v)[i - 1] == '\\'
    ensures |v| > 0 && v[|v| - 1] != '\\' ==> Escape(v)[|Escape(v)| - 1] != '\\'
    ensures |v| > 0 && v[0] != '"' ==> Escape(v)[0] == v[0]
    ensures ' ' in Escape(v) <==> ' ' in v
    ensures ',' in Escape(v) <==> ',' in v
    ensures '\'' in Escape(v) <==> '\'' in v
    ensures '\\' !in v ==> forall i :: 0 <= i < |Escape(v)| && Escape(v)[i] == '\\' ==> i + 1 < |Escape(v)| && Escape(v)[i + 1] == '"'
  {
    if |v| > 0 {
      EscapeEnds(v);
    }
    EscapeBackslashPlacement(v);
    EscapeMembers(v, ' ');
    EscapeMembers(v, ',');
    EscapeMembers(v, '\'');
  }

  /** Every double quote of an escaped value follows a backslash, and, when the
      value had no backslash, every backslash precedes a double quote. */
  lemma {:induction false} EscapeBackslashPlacement(v: string)
    ensures forall i :: 0 <= i < |Escape(v)| && Escape(v)[i] == '"' ==> i > 0 && Escape(v)[i - 1] == '\\'
    ensures '\\' !in v ==> forall i :: 0 <= i < |Escape(v)| && Escape(v)[i] == '\\' ==> i + 1 < |Escape(v)| && Escape(v)[i + 1] == '"'
  {
    if |v| > 0 {
      var init := v[..|v| - 1];
      var c := v[|v| - 1];
      EscapeBackslashPlacement(init);
      var e := Escape(init);
      var r := Escape(v);
      assert r == e + EscapeChar(c);
      forall i | 0 <= i < |r| && r[i] == '"' ensures i > 0 && r[i - 1] == '\\' {
        if i < |e| { assert r[i] == e[i] && r[i - 1] == e[i - 1]; }
        else if c == '"' { assert i == |e| + 1 && r[i - 1] == '\\'; }
      }
      if '\\' !in v {
        assert '\\' !in init by { assert forall x :: x in init ==> x in v; }
        forall i | 0 <= i < |r| && r[i] == '\\' ensures i + 1 < |r| && r[i + 1] == '"' {
          if i < |e| {
            assert e[i] == '\\';
            assert i != |e| - 1;
            assert r[i + 1] == e[i + 1];
          }
        }
      }
    }
  }

  /** A character other than the double quote occurs in the escaped value
      exactly when it occurs in the value. */
  lemma {:induction false} EscapeMembers(v: string, x: char)
    requires x != '"' && x != '\\'
    ensures x in Escape(v) <==> x in v
  {
    if |v| > 0 {
      var init := v[..|v| - 1];
      var c := v[|v| - 1];
      EscapeMembers(init, x);
      assert Escape(v) == Escape(init) + EscapeChar(c);
      assert v == init + [c];
      assert x in EscapeChar(c) <==> x == c;
    }
  }

  /** The escape loop of toString, one character at a time with its
      shouldQuote flag. */
  method EscapeValue(v: string) returns (safe: string)
    ensures safe == SafeValue(v)
  {
    var newV := "";
    var shouldQuote := false;
    for i := 0 to |v|
      invariant newV == Escape(v[..i])
      invariant shouldQuote <==> NeedsQuote(v[..i])
    {
      assert v[..i + 1][..i] == v[..i];
      assert forall x :: x in v[..i + 1] <==> x in v[..i] || x == v[i];
      var c := v[i];
      if c == '"' {
        newV := newV + "\\\"";
      } else {
        if c == ' ' || c == ',' {
          shouldQuote := true;
        }
        newV := newV + [c];
      }
    }
    assert v[..|v|] == v;
    safe := if shouldQuote then "\"" + newV + "\"" else newV;
  }

  /** `filter((v) => v).map(...)`: empty values dropped, the others made safe. */
  function SafeValues(vs: seq<string>): (r: seq<string>)
    ensures |r| <= |vs|
    ensures forall s :: s in r ==> s != ""
  {
    if |vs| == 0 then []
    else
      var rest := SafeValues(vs[1..]);
      if vs[0] == "" then rest
      else
        assert |SafeValue(vs[0])| >= |vs[0]| > 0;
        [SafeValue(vs[0])] + rest
  }

  /** The values of a group that survive, in order. */
  function NonEmpty(vs: seq<string>): seq<string>
  {
    if |vs| == 0 then [] else (if vs[0] == "" then [] else [vs[0]]) + NonEmpty(vs[1..])
  }

  /** Exactly the non-empty values are written, each once and in order. */
  lemma {:induction false} SafeValuesNonEmpty(vs: seq<string>)
    ensures |SafeValues(vs)| == |NonEmpty(vs)|
    ensures forall i :: 0 <= i < |NonEmpty(vs)| ==> SafeValues(vs)[i] == SafeValue(NonEmpty(vs)[i])
    ensures SafeValues(vs) == [] <==> forall i :: 0 <= i < |vs| ==> vs[i] == ""
  {
    if |vs| > 0 {
      var rest := vs[1..];
      SafeValuesNonEmpty(rest);
      if vs[0] == "" {
        assert NonEmpty(vs) == NonEmpty(rest);
      } else {
        assert SafeValues(vs) == [SafeValue(vs[0])] + SafeValues(rest);
        assert NonEmpty(vs) == [vs[0]] + NonEmpty(rest);
      }
      assert forall i :: 1 <= i < |vs| ==> vs[i] == rest[i - 1];
    }
  }

  /** The safe values of one group, as the source maps them. */
  method SafeValuesOf(vs: seq<string>) returns (r: seq<string>)
    ensures r == SafeValues(vs)
  {
    r := [];
    var i := |vs|;
    while i > 0
      invariant 0 <= i <= |vs|
      invariant r == SafeValues(vs[i..])
    {
      i := i - 1;
      assert vs[i..][1..] == vs[i + 1..];
      if vs[i] != "" {
        var s := EscapeValue(vs[i]);
        r := [s] + r;
      }
    }
    assert vs[0..] == vs;
  }

  /** Strings joined with a separator between neighbours. */
  function Join(ss: seq<string>, sep: string): (r: string)
    ensures |ss| == 0 ==> r == ""
    ensures |ss| > 0 ==> ss[0] <= r && |r| == TotalLength(ss) + (|ss| - 1) * |sep|
  {
    if |ss| == 0 then "" else if |ss| == 1 then ss[0] else ss[0] + sep + Join(ss[1..], sep)
  }

  /** The sum of the lengths of the strings. */
  function TotalLength(ss: seq<string>): nat
  {
    if |ss| == 0 then 0 else |ss[0]| + TotalLength(ss[1..])
  }

  /** Joining one more string adds a separator before it, unless it is the
      first. */
  lemma {:induction false} JoinAppend(ss: seq<string>, x: string, sep: string)
    ensures Join(ss + [x], sep) == if ss == [] then x else Join(ss, sep) + sep + x
    decreases |ss|
  {
    if |ss| == 1 {
      assert (ss + [x])[1..] == [x];
    } else if |ss| > 1 {
      assert (ss + [x])[1..] == ss[1..] + [x];
      JoinAppend(ss[1..], x, sep);
    }
  }

  /** One group as written: a space, the key, a colon and the values joined
      with commas; nothing when no value is left. */
  function GroupStr(key: string, vs: seq<string>): string
  {
    var safe := SafeValues(vs);
    if |safe| > 0 then " " + key + ":" + Join(safe, ",") else ""
  }

  /** The groups of keys, in the order given. */
  function GroupsStr(keys: seq<string>, cs: seq<Condition>): string
  {
    if |keys| == 0 then "" else GroupsStr(keys[..|keys| - 1], cs) + GroupStr(keys[|keys| - 1], Values(cs, keys[|keys| - 1]))
  }

  lemma GroupsStrAppend(keys: seq<string>, cs: seq<Condition>, i: nat)
    requires i < |keys|
    ensures GroupsStr(keys[..i + 1], cs) == GroupsStr(keys[..i], cs) + GroupStr(keys[i], Values(cs, keys[i]))
  {
    assert keys[..i + 1][..i] == keys[..i];
  }

  /** conditionStr: every group in first-seen order. */
  function ConditionStr(cs: seq<Condition>): string
  {
    GroupsStr(Keys(cs), cs)
  }

  /** The Object.keys loop that builds conditionStr. */
  method ConditionString(cs: seq<Condition>) returns (conditionStr: string)
    ensures conditionStr == ConditionStr(cs)
  {
    var groups, keys := BuildGroups(cs);
    conditionStr := "";
    for i := 0 to |keys|
      invariant conditionStr == GroupsStr(keys[..i], cs)
    {
      GroupsStrAppend(keys, cs, i);
      var safeValues := SafeValuesOf(groups[keys[i]]);
      ghost var before := conditionStr;
      if |safeValues| > 0 {
        conditionStr := conditionStr + (" " + keys[i] + ":" + Join(safeValues, ","));
      }
      assert conditionStr == before + GroupStr(keys[i], groups[keys[i]]);
    }
    assert keys[..|keys|] == keys;
  }

  // ---------------------------------------------------------------------------
  // Text, trimming and the whole string.

  /** A segment as getAllText writes it. */
  function SegmentStr(t: TextSegment): string
  {
    if t.negated then "-" + t.text else t.text
  }

  function SegmentStrs(ts: seq<TextSegment>): (r: seq<string>)
    ensures |r| == |ts|
    ensures forall i :: 0 <= i < |ts| ==> r[i] == SegmentStr(ts[i])
  {
    if |ts| == 0 then [] else [SegmentStr(ts[0])] + SegmentStrs(ts[1..])
  }

  /** getAllText: the segments, each negated one after a `-`, joined by spaces. */
  function AllText(ts: seq<TextSegment>): (r: string)
    ensures |ts| == 0 ==> r == ""
    ensures |ts| > 0 ==> SegmentStr(ts[0]) <= r && |r| == TotalLength(SegmentStrs(ts)) + |ts| - 1
  {
    Join(SegmentStrs(ts), " ")
  }

  /** The characters String.prototype.trim removes: WhiteSpace and
      LineTerminator of the ECMAScript grammar. */
  predicate IsJsSpace(c: char)
  {
    c == '\t' || c == '\n' || c == '\U{000B}' || c == '\U{000C}' || c == '\r' || c == ' '
    || c == '\U{00A0}' || c == '\U{1680}' || ('\U{2000}' <= c <= '\U{200A}')
    || c == '\U{2028}' || c == '\U{2029}' || c == '\U{202F}' || c == '\U{205F}'
    || c == '\U{3000}' || c == '\U{FEFF}'
  }

  /** The first offset at or after i that does not hold white space. */
  function SkipSpaces(s: string, i: nat): (r: nat)
    requires i <= |s|
    ensures i <= r <= |s|
    ensures forall k :: i <= k < r ==> IsJsSpace(s[k])
    ensures r == |s| || !IsJsSpace(s[r])
    decreases |s| - i
  {
    if i < |s| && IsJsSpace(s[i]) then SkipSpaces(s, i + 1) else i
  }

  /** The offset just after the last character before j, and not before lo,
      that is not white space. */
  function SkipSpacesBack(s: string, lo: nat, j: nat): (r: nat)
    requires lo <= j <= |s|
    ensures lo <= r <= j
    ensures forall k :: r <= k < j ==> IsJsSpace(s[k])
    ensures r == lo || !IsJsSpace(s[r - 1])
  {
    if j > lo && IsJsSpace(s[j - 1]) then SkipSpacesBack(s, lo, j - 1) else j
  }

  /** String.prototype.trim: leading and trailing white space removed. */
  function Trim(s: string): (r: string)
    ensures |r| <= |s|
    ensures r == [] || (!IsJsSpace(r[0]) && !IsJsSpace(r[|r| - 1]))
  {
    var lo := SkipSpaces(s, 0);
    var hi := SkipSpacesBack(s, lo, |s|);
    assert lo < hi ==> s[lo..hi][0] == s[lo] && s[lo..hi][hi - lo - 1] == s[hi - 1];
    s[lo..hi]
  }

  /** trim keeps a contiguous part of its input, cut only at white space,
      whose ends are not white space and which is empty only when the input
      is all white space; trimming twice changes nothing. */
  lemma TrimSpec(s: string)
    ensures var r := Trim(s); var lo := SkipSpaces(s, 0);
      lo + |r| <= |s| && r == s[lo..lo + |r|]
        && (forall i :: 0 <= i < lo ==> IsJsSpace(s[i]))
        && (forall i :: lo + |r| <= i < |s| ==> IsJsSpace(s[i]))
    ensures Trim(s) == [] <==> forall i :: 0 <= i < |s| ==> IsJsSpace(s[i])
    ensures Trim(s) == [] || (!IsJsSpace(Trim(s)[0]) && !IsJsSpace(Trim(s)[|Trim(s)| - 1]))
    ensures Trim(Trim(s)) == Trim(s)
  {
    var lo := SkipSpaces(s, 0);
    var hi := SkipSpacesBack(s, lo, |s|);
    var r := s[lo..hi];
    if lo < |s| {
      assert r[0] == s[lo];
      assert r[|r| - 1] == s[hi - 1];
    }
    TrimIdle(r);
  }

  /** trim changes nothing when neither end is white space. */
  lemma TrimIdle(x: string)
    requires x == [] || (!IsJsSpace(x[0]) && !IsJsSpace(x[|x| - 1]))
    ensures Trim(x) == x
  {
    assert SkipSpaces(x, 0) == 0;
    assert x[0..|x|] == x;
  }

  /** trim removes exactly the padding around a string whose ends are not
      white space. */
  lemma TrimPadded(x: string)
    requires x != [] && !IsJsSpace(x[0]) && !IsJsSpace(x[|x| - 1])
    ensures Trim(" " + x + " ") == x
  {
    var p := " " + x + " ";
    assert SkipSpaces(p, 0) == SkipSpaces(p, 1) == 1 by { assert p[1] == x[0]; }
    assert SkipSpacesBack(p, 1, |p|) == SkipSpacesBack(p, 1, |p| - 1) == |p| - 1 by { assert p[|p| - 2] == x[|x| - 1]; }
    assert p[1..|p| - 1] == x;
  }

  /** trim removes exactly a leading space before a string whose ends are not
      white space. */
  lemma TrimPaddedFront(x: string)
    requires x != [] && !IsJsSpace(x[0]) && !IsJsSpace(x[|x| - 1])
    ensures Trim(" " + x) == x
  {
    var q := " " + x;
    assert SkipSpaces(q, 0) == SkipSpaces(q, 1) == 1 by { assert q[1] == x[0]; }
    assert SkipSpacesBack(q, 1, |q|) == |q| by { assert q[|q| - 1] == x[|x| - 1]; }
    assert q[1..|q|] == x;
  }

  /** Escape keeps the ends of a value, except that a double quote at the
      front gets its backslash. */
  lemma EscapeEnds(v: string)
    requires v != []
    ensures var e := Escape(v);
      e[|e| - 1] == v[|v| - 1] && e[0] == (if v[0] == '"' then '\\' else v[0])
  {
    if |v| > 1 {
      EscapeEnds(v[..|v| - 1]);
    }
  }

  /** One condition with a non-empty value is written as a space, its group
      key, a colon and its safe value. */
  lemma SingleConditionStr(c: Condition)
    requires c.value != ""
    ensures ConditionStr([c]) == " " + (GroupKey(c) + ":" + SafeValue(c.value))
  {
    var k := GroupKey(c);
    SingleConditionGroup(c);
    SingleGroupStr(k, [c]);
    assert SafeValues([c.value]) == [SafeValue(c.value)] by { assert [c.value][1..] == []; }
    assert Join([SafeValue(c.value)], ",") == SafeValue(c.value);
  }

  /** One condition makes one group holding its value. */
  lemma SingleConditionGroup(c: Condition)
    ensures Keys([c]) == [GroupKey(c)] && Values([c], GroupKey(c)) == [c.value]
  {
    assert [c][..0] == [];
  }

  /** A single key writes its one group. */
  lemma SingleGroupStr(k: string, cs: seq<Condition>)
    ensures GroupsStr([k], cs) == GroupStr(k, Values(cs, k))
  {
    assert [k][..0] == [];
    assert "" + GroupStr(k, Values(cs, k)) == GroupStr(k, Values(cs, k));
  }

  /** A group is omitted exactly when none of its values is left. */
  lemma GroupStrOmitted(key: string, vs: seq<string>)
    ensures GroupStr(key, vs) == "" <==> forall i :: 0 <= i < |vs| ==> vs[i] == ""
  {
    SafeValuesNonEmpty(vs);
  }

  /** getAllText of one more segment: a space, then the segment after a `-`
      when it is negated; no space before the first one. */
  lemma AllTextAppend(ts: seq<TextSegment>, t: TextSegment)
    ensures AllText(ts + [t]) == if ts == [] then SegmentStr(t) else AllText(ts) + " " + SegmentStr(t)
  {
    assert SegmentStrs(ts + [t]) == SegmentStrs(ts) + [SegmentStr(t)];
    JoinAppend(SegmentStrs(ts), SegmentStr(t), " ");
  }

  /** What toString produces for the given conditions and segments. */
  function Render(cs: seq<Condition>, ts: seq<TextSegment>): (r: string)
    ensures |r| <= |ConditionStr(cs)| + 1 + |AllText(ts)|
    ensures r == [] || (!IsJsSpace(r[0]) && !IsJsSpace(r[|r| - 1]))
  {
    Trim(ConditionStr(cs) + " " + AllText(ts))
  }
}
