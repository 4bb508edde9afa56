/** The quote-pairing pre-scan: which `'` and `"` characters of a search string
    form genuine pairs, so that the tokenizer can tell a delimiting quote from a
    stray one (an apostrophe) without looking ahead. */
module QuotePairs {

  /** Offsets of paired single quotes and paired double quotes. */
  datatype QuotePairMap = QuotePairMap(single: set<nat>, double: set<nat>)

  /** The scan after a prefix: the pairs found so far and the offset of the
      pending (not yet matched) quote of each kind, -1 when there is none. */
  datatype ScanState = ScanState(pairs: QuotePairMap, prevSingle: int, prevDouble: int)

  const EmptyPairs := QuotePairMap({}, {})
  const InitialScan := ScanState(EmptyPairs, -1, -1)

  predicate IsQuote(q: char) { q == '\'' || q == '"' }

  /** The pairs of one kind of quote. */
  function Side(m: QuotePairMap, q: char): set<nat>
  {
    if q == '"' then m.double else m.single
  }

  /** The pending offset of one kind of quote. */
  function Pending(s: ScanState, q: char): int
  {
    if q == '"' then s.prevDouble else s.prevSingle
  }

  /** Offset i holds the quote q and is not preceded by an escaping backslash. */
  predicate IsStructural(str: string, i: nat, q: char)
    requires i < |str|
  {
    str[i] == q && (i == 0 || str[i - 1] != '\\')
  }

  /** One iteration of the scan, at offset i. */
  function ScanStep(s: ScanState, str: string, i: nat): (r: ScanState)
    requires i < |str|
    requires s.prevSingle >= -1 && s.prevDouble >= -1
    ensures r.prevSingle in {s.prevSingle, -1, i as int} && r.prevDouble in {s.prevDouble, -1, i as int}
    ensures s.pairs.single <= r.pairs.single && s.pairs.double <= r.pairs.double
    ensures forall k :: k in r.pairs.single - s.pairs.single ==> k == i || k == s.prevSingle
    ensures forall k :: k in r.pairs.double - s.pairs.double ==> k == i || k == s.prevDouble
    ensures r.pairs.single != s.pairs.single || r.prevSingle != s.prevSingle ==> IsStructural(str, i, '\'')
    ensures r.pairs.double != s.pairs.double || r.prevDouble != s.prevDouble ==> IsStructural(str, i, '"')
  {
    if i > 0 && str[i - 1] == '\\' then s
    else if str[i] == '"' then
      if s.prevDouble >= 0 then
        ScanState(s.pairs.(double := s.pairs.double + {s.prevDouble as nat, i}), s.prevSingle, -1)
      else
        s.(prevDouble := i)
    else if str[i] == '\'' then
      if s.prevSingle >= 0 then
        ScanState(s.pairs.(single := s.pairs.single + {s.prevSingle as nat, i}), -1, s.prevDouble)
      else
        s.(prevSingle := i)
    else s
  }

  /** The scan state after the first n characters. */
  function ScanPrefix(str: string, n: nat): (s: ScanState)
    requires n <= |str|
    ensures -1 <= s.prevSingle < n && -1 <= s.prevDouble < n
  {
    if n == 0 then InitialScan else ScanStep(ScanPrefix(str, n - 1), str, n - 1)
  }

  /** What getQuotePairMap returns. */
  function Pairs(str: string): QuotePairMap
  {
    ScanPrefix(str, |str|).pairs
  }

  /** The single left-to-right pass of the source, recording pairs in place. */
  method GetQuotePairMap(str: string) returns (quotePairMap: QuotePairMap)
    ensures quotePairMap == Pairs(str)
  {
    var single: set<nat>, double: set<nat> := {}, {};
    var prevSingle, prevDouble := -1, -1;
    var prevChar := "";
    for i := 0 to |str|
      invariant ScanPrefix(str, i) == ScanState(QuotePairMap(single, double), prevSingle, prevDouble)
      invariant prevChar == if i == 0 then "" else [str[i - 1]]
    {
      var c := str[i];
      if prevChar != "\\" {
        if c == '"' {
          if prevDouble >= 0 {
            double := double + {prevDouble as nat, i};
            prevDouble := -1;
          } else {
            prevDouble := i;
          }
        } else if c == '\'' {
          if prevSingle >= 0 {
            single := single + {prevSingle as nat, i};
            prevSingle := -1;
          } else {
            prevSingle := i;
          }
        }
      }
      prevChar := [c];
    }
    quotePairMap := QuotePairMap(single, double);
  }

  // ---------------------------------------------------------------------------
  // Reference definition: the structural quotes of a kind, paired greedily.

  /** The offsets below n of structural quotes q, in increasing order. */
  function Structural(str: string, q: char, n: nat): seq<nat>
    requires n <= |str|
  {
    if n == 0 then []
    else if IsStructural(str, n - 1, q) then Structural(str, q, n - 1) + [n - 1]
    else Structural(str, q, n - 1)
  }

  /** Greedy pairing of a list of offsets: the 1st with the 2nd, the 3rd with the
      4th, and so on; a final odd one out is left unpaired. */
  function Paired(u: seq<nat>): set<nat>
  {
    set j | 0 <= j < |u| - |u| % 2 :: u[j]
  }

  lemma {:induction false} StructuralFacts(str: string, q: char, n: nat)
    requires n <= |str|
    ensures forall j :: 0 <= j < |Structural(str, q, n)| ==>
      Structural(str, q, n)[j] < n && IsStructural(str, Structural(str, q, n)[j], q)
    ensures forall i, j :: 0 <= i < j < |Structural(str, q, n)| ==>
      Structural(str, q, n)[i] < Structural(str, q, n)[j]
    ensures forall k :: 0 <= k < n && IsStructural(str, k, q) ==> k in Structural(str, q, n)
  {
    if n > 0 {
      StructuralFacts(str, q, n - 1);
    }
  }

  /** Appending to an even-length list adds a pending offset, no pair. */
  lemma PairedAppendEven(u: seq<nat>, x: nat)
    requires |u| % 2 == 0
    ensures Paired(u + [x]) == Paired(u)
  {
    var u' := u + [x];
    forall y | y in Paired(u') ensures y in Paired(u) {
      var j :| 0 <= j < |u'| - |u'| % 2 && u'[j] == y;
      assert u[j] == y;
    }
    forall y | y in Paired(u) ensures y in Paired(u') {
      var j :| 0 <= j < |u| - |u| % 2 && u[j] == y;
      assert u'[j] == y;
    }
  }

  /** Appending to an odd-length list pairs its last offset with the new one. */
  lemma PairedAppendOdd(u: seq<nat>, x: nat)
    requires |u| % 2 == 1
    ensures Paired(u + [x]) == Paired(u) + {u[|u| - 1], x}
  {
    var u' := u + [x];
    var a := u[|u| - 1];
    forall y | y in Paired(u') ensures y in Paired(u) + {a, x} {
      var j :| 0 <= j < |u'| - |u'| % 2 && u'[j] == y;
      if j < |u| - 1 { assert u[j] == y; }
    }
    forall y | y in Paired(u) ensures y in Paired(u') {
      var j :| 0 <= j < |u| - |u| % 2 && u[j] == y;
      assert u'[j] == y;
    }
    assert u'[|u| - 1] == a && u'[|u|] == x;
  }

  /** In an increasing list every paired offset lies below the last offset. */
  lemma PairedBelowLast(u: seq<nat>)
    requires |u| > 0
    requires forall i, j :: 0 <= i < j < |u| ==> u[i] < u[j]
    ensures forall y :: y in Paired(u) ==> y < u[|u| - 1] || (|u| % 2 == 0 && y == u[|u| - 1])
  {
    forall y | y in Paired(u) ensures y < u[|u| - 1] || (|u| % 2 == 0 && y == u[|u| - 1]) {
      var j :| 0 <= j < |u| - |u| % 2 && u[j] == y;
    }
  }

  /** One scan step seen from one kind of quote: only a structural quote of that
      kind changes its pairs or its pending offset. */
  lemma ScanStepSide(s: ScanState, str: string, i: nat, q: char)
    requires IsQuote(q) && i < |str|
    requires s.prevSingle >= -1 && s.prevDouble >= -1
    ensures var s' := ScanStep(s, str, i);
      && Side(s'.pairs, q) == (if IsStructural(str, i, q) && Pending(s, q) >= 0
                               then Side(s.pairs, q) + {Pending(s, q) as nat, i} else Side(s.pairs, q))
      && Pending(s', q) == (if !IsStructural(str, i, q) then Pending(s, q)
                            else if Pending(s, q) >= 0 then -1 else i)
  {
  }

  /** One structural quote x, after the offsets u, keeps the greedy description. */
  lemma GreedyStep(m: set<nat>, p: int, u: seq<nat>, x: nat, m': set<nat>, p': int)
    requires m == Paired(u) && |m| == |u| - |u| % 2
    requires p == if |u| % 2 == 1 then u[|u| - 1] as int else -1
    requires forall j :: 0 <= j < |u| ==> u[j] < x
    requires forall i, j :: 0 <= i < j < |u| ==> u[i] < u[j]
    requires m' == if p >= 0 then m + {p as nat, x} else m
    requires p' == if p >= 0 then -1 else x
    ensures var u' := u + [x];
      m' == Paired(u') && |m'| == |u'| - |u'| % 2 && p' == (if |u'| % 2 == 1 then x as int else -1)
  {
    var u' := u + [x];
    if |u| % 2 == 0 {
      PairedAppendEven(u, x);
      assert |u'| % 2 == 1;
    } else {
      PairedAppendOdd(u, x);
      PairedBelowLast(u);
      var a := u[|u| - 1];
      assert a !in m && x !in m && a != x;
      assert |m + {a, x}| == |m| + 2;
      assert |u'| % 2 == 0;
    }
  }

  /** The scan state after n characters, described by the reference definition. */
  lemma {:induction false} ScanPrefixGreedy(str: string, q: char, n: nat)
    requires IsQuote(q) && n <= |str|
    ensures var u := Structural(str, q, n);
      && Side(ScanPrefix(str, n).pairs, q) == Paired(u)
      && |Side(ScanPrefix(str, n).pairs, q)| == |u| - |u| % 2
      && Pending(ScanPrefix(str, n), q) == (if |u| % 2 == 1 then u[|u| - 1] as int else -1)
  {
    if n > 0 {
      ScanPrefixGreedy(str, q, n - 1);
      var s := ScanPrefix(str, n - 1);
      var s' := ScanPrefix(str, n);
      assert s' == ScanStep(s, str, n - 1);
      ScanStepSide(s, str, n - 1, q);
      var u := Structural(str, q, n - 1);
      if IsStructural(str, n - 1, q) {
        assert Structural(str, q, n) == u + [n - 1];
        StructuralFacts(str, q, n - 1);
        GreedyStep(Side(s.pairs, q), Pending(s, q), u, n - 1, Side(s'.pairs, q), Pending(s', q));
      } else {
        assert Structural(str, q, n) == u;
        assert Side(s'.pairs, q) == Side(s.pairs, q) && Pending(s', q) == Pending(s, q);
      }
    }
  }

  // ---------------------------------------------------------------------------
  // Properties of getQuotePairMap.

  /** The pairs of a kind are exactly the structural quotes of that kind, paired
      greedily left to right. */
  lemma PairsGreedy(str: string, q: char)
    requires IsQuote(q)
    ensures Side(Pairs(str), q) == Paired(Structural(str, q, |str|))
  {
    ScanPrefixGreedy(str, q, |str|);
  }

  /** Every marked offset is in range, holds its quote character and is not
      preceded by a backslash; an offset is never marked for both kinds. */
  lemma PairsWellFormed(str: string)
    ensures forall k :: k in Pairs(str).single ==> k < |str| && IsStructural(str, k, '\'')
    ensures forall k :: k in Pairs(str).double ==> k < |str| && IsStructural(str, k, '"')
    ensures Pairs(str).single !! Pairs(str).double
  {
    forall q | IsQuote(q)
      ensures forall k :: k in Side(Pairs(str), q) ==> k < |str| && IsStructural(str, k, q)
    {
      ScanPrefixGreedy(str, q, |str|);
      StructuralFacts(str, q, |str|);
      var u := Structural(str, q, |str|);
      forall k | k in Side(Pairs(str), q) ensures k < |str| && IsStructural(str, k, q) {
        var j :| 0 <= j < |u| - |u| % 2 && u[j] == k;
      }
    }
    assert Pairs(str).single == Side(Pairs(str), '\'');
    assert Pairs(str).double == Side(Pairs(str), '"');
  }

  /** Each kind has an even number of marked offsets: one pair per two quotes. */
  lemma PairsEven(str: string, q: char)
    requires IsQuote(q)
    ensures |Side(Pairs(str), q)| % 2 == 0
    ensures |Side(Pairs(str), q)| == |Structural(str, q, |str|)| / 2 * 2
  {
    ScanPrefixGreedy(str, q, |str|);
  }

  /** With an odd number of structural quotes of a kind, the last one is unmarked
      and is the one left pending at the end of the scan. */
  lemma LastUnmatchedUnmarked(str: string, q: char)
    requires IsQuote(q)
    requires |Structural(str, q, |str|)| % 2 == 1
    ensures var u := Structural(str, q, |str|);
      u[|u| - 1] !in Side(Pairs(str), q) && Pending(ScanPrefix(str, |str|), q) == u[|u| - 1]
  {
    ScanPrefixGreedy(str, q, |str|);
    StructuralFacts(str, q, |str|);
    PairedBelowLast(Structural(str, q, |str|));
  }

  /** A string with at most one quote of a kind has no pair of that kind; in
      particular the empty string and a blank string have no pairs at all. */
  lemma AtMostOneQuoteNoPairs(str: string, q: char)
    requires IsQuote(q)
    requires forall i, j :: 0 <= i < |str| && 0 <= j < |str| && str[i] == q && str[j] == q ==> i == j
    ensures Side(Pairs(str), q) == {}
  {
    PairsWellFormed(str);
    PairsEven(str, q);
    var m := Side(Pairs(str), q);
    AtMostOneElement(m);
  }

  /** Input without quote characters, among them the empty string and a blank
      string, has no pairs of either kind. */
  lemma NoQuotesNoPairs(str: string)
    requires forall i :: 0 <= i < |str| ==> !IsQuote(str[i])
    ensures Pairs(str) == EmptyPairs
  {
    AtMostOneQuoteNoPairs(str, '\'');
    AtMostOneQuoteNoPairs(str, '"');
  }

  lemma AtMostOneElement(m: set<nat>)
    requires forall x, y :: x in m && y in m ==> x == y
    ensures |m| <= 1
  {
    if m != {} {
      var k :| k in m;
      assert m == {k};
    }
  }

  /** The single pairs depend only on where the `'` and `\` characters are (so a
      `"` never changes them), and the double pairs only on the `"` and `\`. */
  lemma {:induction false} PairsIndependent(s: string, t: string, q: char, n: nat)
    requires IsQuote(q) && n <= |s| == |t|
    requires forall i :: 0 <= i < |s| ==> (s[i] == q <==> t[i] == q) && (s[i] == '\\' <==> t[i] == '\\')
    ensures Side(ScanPrefix(s, n).pairs, q) == Side(ScanPrefix(t, n).pairs, q)
    ensures Pending(ScanPrefix(s, n), q) == Pending(ScanPrefix(t, n), q)
  {
    if n > 0 {
      PairsIndependent(s, t, q, n - 1);
    }
  }
}
