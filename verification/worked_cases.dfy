/** Small worked cases of the dashboard's statistics and date search. */
module WorkedCases {
  import opened Statistics
  import opened DateSearch
  import opened Dashboard

  lemma ArrangeOdd(s: seq<real>)
    requires s == [3.0, 1.0, 2.0]
    ensures Sorted([1.0, 2.0, 3.0]) && multiset(s) == multiset([1.0, 2.0, 3.0])
  {
  }

  lemma ArrangeEven(s: seq<real>)
    requires s == [4.0, 1.0, 3.0, 2.0]
    ensures Sorted([1.0, 2.0, 3.0, 4.0]) && multiset(s) == multiset([1.0, 2.0, 3.0, 4.0])
  {
  }

  /** Odd count: the median is the middle of the sorted values. */
  lemma MedianOddCase(s: seq<real>)
    requires s == [3.0, 1.0, 2.0]
    ensures Median(s) == 2.0
  {
    ArrangeOdd(s);
    MedianFromSorted(s, [1.0, 2.0, 3.0]);
  }

  /** Even count: the median is the average of the two central sorted values. */
  lemma MedianEvenCase(s: seq<real>)
    requires s == [4.0, 1.0, 3.0, 2.0]
    ensures Median(s) == 2.5
  {
    ArrangeEven(s);
    MedianFromSorted(s, [1.0, 2.0, 3.0, 4.0]);
  }

  lemma SumPrefixStep(s: seq<real>, k: nat)
    requires k < |s|
    ensures Sum(s[..k + 1]) == Sum(s[..k]) + s[k]
  {
    assert s[..k + 1] == s[..k] + [s[k]];
    SumAppend(s[..k], s[k]);
  }

  /** Adds up a list of eight values one element at a time. */
  lemma SumOfEight(s: seq<real>)
    requires |s| == 8
    ensures Sum(s) == s[0] + s[1] + s[2] + s[3] + s[4] + s[5] + s[6] + s[7]
  {
    assert s[..0] == [];
    SumPrefixStep(s, 0);
    SumPrefixStep(s, 1);
    SumPrefixStep(s, 2);
    SumPrefixStep(s, 3);
    SumPrefixStep(s, 4);
    SumPrefixStep(s, 5);
    SumPrefixStep(s, 6);
    SumPrefixStep(s, 7);
    assert s[..8] == s;
  }

  /** Population standard deviation: eight values with mean 5 and average squared deviation 4. */
  lemma StandardDeviationCase(s: seq<real>, sqrt: real -> real)
    requires s == [2.0, 4.0, 4.0, 4.0, 5.0, 5.0, 7.0, 9.0]
    requires IsSqrt(sqrt)
    ensures Mean(s) == 5.0
    ensures Variance(s) == 4.0
    ensures StandardDeviation(s, sqrt) == 2.0
  {
    SumOfEight(s);
    var q := Squares(s, 5.0);
    assert q == [9.0, 1.0, 1.0, 1.0, 0.0, 0.0, 4.0, 16.0];
    SumFromFirstIsSum(q);
    SumOfEight(q);
    StandardDeviationSpec(s, sqrt);
    assert Square(2.0) == 4.0;
    SquareInjective(StandardDeviation(s, sqrt), 2.0);
  }

  /** The search ignores letter case and matches anywhere in the date. */
  lemma SearchCase(jan: Row, feb: Row, query: string)
    requires jan.extractDate == "2023-Jan-05" && feb.extractDate == "2023-Feb-01"
    requires query == "JAN"
    ensures FilterByDate([jan, feb], query) == [jan]
  {
    var lowJan, lowFeb := Lower(jan.extractDate), Lower(feb.extractDate);
    assert Lower(query) == "jan" by {
      assert LowerChar('J') == 'j' && LowerChar('A') == 'a' && LowerChar('N') == 'n';
    }
    assert lowJan[5..8] == "jan" by {
      assert LowerChar('J') == 'j';
    }
    assert OccursAt(lowJan, "jan", 5);
    assert MatchesDate(query, jan);
    assert forall k :: 0 <= k < |lowFeb| ==> lowFeb[k] != 'j' by {
      assert forall k :: 0 <= k < |lowFeb| ==> lowFeb[k] == LowerChar(feb.extractDate[k]);
      assert forall k :: 0 <= k < |lowFeb| ==> feb.extractDate[k] != 'J' && feb.extractDate[k] != 'j';
    }
    forall i ensures !OccursAt(lowFeb, "jan", i) {
      if 0 <= i && i + 3 <= |lowFeb| {
        assert lowFeb[i..i + 3][0] == lowFeb[i];
      }
    }
    assert !MatchesDate(query, feb);
    assert [jan, feb][1..] == [feb];
  }
}
