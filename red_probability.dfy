/** `calculate_red_probability`: the share of "Red" among the colours. */
module Probability {
  import opened ColorStatistics

  /** The label the script looks for; the match is exact, case included. */
  const RedLabel: string := "Red"

  /** `counts.get(key, 0)`. */
  function CountOf(counts: map<string, nat>, key: string): nat
  {
    if key in counts then counts[key] else 0
  }

  /** `Counter(s).get(key, 0)` is the number of occurrences of `key`, whether or not it occurs. */
  lemma CountOfFrequencyTable(s: seq<string>, key: string)
    ensures CountOf(FrequencyTable(s), key) == multiset(s)[key]
  {
    FrequencyTableSpec(s);
  }

  /** A colour occurs at most as often as there are colours. */
  lemma {:induction false} OccurrencesAtMostLength(s: seq<string>, x: string)
    ensures multiset(s)[x] <= |s|
  {
    if s != [] {
      var p := s[..|s| - 1];
      assert s == p + [s[|s| - 1]];
      OccurrencesAtMostLength(p, x);
    }
  }

  /** A colour occurs as often as there are colours exactly when it is the only one. */
  lemma {:induction false} OccurrencesEqualLength(s: seq<string>, x: string)
    ensures multiset(s)[x] == |s| <==> forall i :: 0 <= i < |s| ==> s[i] == x
  {
    if s != [] {
      var p := s[..|s| - 1];
      assert s == p + [s[|s| - 1]];
      OccurrencesEqualLength(p, x);
      OccurrencesAtMostLength(p, x);
      if multiset(s)[x] == |s| {
        forall i | 0 <= i < |s|
          ensures s[i] == x
        {
          if i < |p| {
            assert s[i] == p[i];
          }
        }
      }
    }
  }

  /** A count out of `n` observations divided by `n`: a fraction in [0, 1]. */
  function Fraction(count: nat, n: nat): (p: real)
    requires 0 < n && count <= n
    ensures 0.0 <= p <= 1.0
    ensures p == 1.0 <==> count == n
    ensures p == 0.0 <==> count == 0
  {
    (count as real) / (n as real)
  }

  /** `Counter(colors).get("Red", 0)`: how many colours are exactly "Red". */
  function RedCount(colors: seq<string>): (count: nat)
    ensures count == multiset(colors)[RedLabel]
    ensures count <= |colors|
  {
    OccurrencesAtMostLength(colors, RedLabel);
    FrequencyTableSpec(colors);
    CountOf(FrequencyTable(colors), RedLabel)
  }

  /** `Counter(colors).get("Red", 0) / len(colors) if colors else 0`. */
  function RedProbability(colors: seq<string>): (p: real)
    ensures colors == [] ==> p == 0.0
    ensures 0.0 <= p <= 1.0
    ensures colors != [] ==> p == (multiset(colors)[RedLabel] as real) / (|colors| as real)
  {
    if colors == [] then 0.0 else Fraction(RedCount(colors), |colors|)
  }

  /** The estimate is 1 exactly when every colour is "Red", and 0 exactly when none is. */
  lemma RedProbabilityExtremes(colors: seq<string>)
    ensures RedProbability(colors) == 1.0 <==> colors != [] && forall i :: 0 <= i < |colors| ==> colors[i] == RedLabel
    ensures RedProbability(colors) == 0.0 <==> RedLabel !in colors
  {
    OccurrencesEqualLength(colors, RedLabel);
    assert RedLabel in colors <==> RedLabel in multiset(colors);
  }
}
