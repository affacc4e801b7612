/**
 * The counting part of `compute_statistics` and `store_in_dict`: the
 * frequency table that `Counter(colors)` builds, the most common colour, and
 * the mapping of distinct colours onto ranks 1..K.
 */
module ColorStatistics {
  import opened Wrappers
  import opened StringOrder

  predicate NoDuplicates(s: seq<string>)
  {
    forall i, j :: 0 <= i < j < |s| ==> s[i] != s[j]
  }

  /** Position of the first occurrence of `c` in `s`. */
  function FirstIndex(s: seq<string>, c: string): (i: nat)
    requires c in s
    ensures i < |s| && s[i] == c
    ensures forall j :: 0 <= j < i ==> s[j] != c
  {
    if s[0] == c then 0 else 1 + FirstIndex(s[1..], c)
  }

  /** A first occurrence in a prefix is the first occurrence in the whole sequence. */
  lemma FirstIndexInPrefix(p: seq<string>, s: seq<string>, c: string)
    requires p <= s && c in p
    ensures FirstIndex(s, c) == FirstIndex(p, c)
  {
    var i, k := FirstIndex(p, c), FirstIndex(s, c);
    assert s[i] == c;
  }

  /**
   * The keys of `Counter(colors)` in their insertion order: every distinct
   * colour once, ordered by first occurrence.
   */
  function Distinct(s: seq<string>): (d: seq<string>)
    ensures forall c :: c in d <==> c in s
    ensures NoDuplicates(d)
  {
    if s == [] then []
    else
      var d := Distinct(s[..|s| - 1]);
      var x := s[|s| - 1];
      assert s == s[..|s| - 1] + [x];
      if x in d then d else d + [x]
  }

  /** The counter's keys appear in the order of their first occurrence. */
  lemma {:induction false} DistinctInFirstOccurrenceOrder(s: seq<string>)
    ensures forall i, j :: 0 <= i < j < |Distinct(s)| ==>
              FirstIndex(s, Distinct(s)[i]) < FirstIndex(s, Distinct(s)[j])
  {
    if s != [] {
      var p, x := s[..|s| - 1], s[|s| - 1];
      assert s == p + [x];
      DistinctInFirstOccurrenceOrder(p);
      var d := Distinct(p);
      forall c | c in p
        ensures FirstIndex(s, c) == FirstIndex(p, c)
      {
        FirstIndexInPrefix(p, s, c);
      }
      if x !in p {
        assert FirstIndex(s, x) == |s| - 1;
        assert Distinct(s) == d + [x];
        forall i, j | 0 <= i < j < |d| + 1
          ensures FirstIndex(s, (d + [x])[i]) < FirstIndex(s, (d + [x])[j])
        {
          assert (d + [x])[i] == d[i];
          if j < |d| {
            assert (d + [x])[j] == d[j];
          } else {
            assert FirstIndex(s, d[i]) == FirstIndex(p, d[i]) < |p|;
          }
        }
      } else {
        assert Distinct(s) == d;
      }
    }
  }

  /** `dict(Counter(colors))`: each distinct colour mapped to its number of occurrences. */
  function FrequencyTable(s: seq<string>): (m: map<string, nat>)
    ensures forall c :: c in m <==> c in s
  {
    if s == [] then map[]
    else
      var m := FrequencyTable(s[..|s| - 1]);
      var x := s[|s| - 1];
      assert s == s[..|s| - 1] + [x];
      m[x := (if x in m then m[x] else 0) + 1]
  }

  /** Each key of the table maps to its number of occurrences. */
  lemma {:induction false} FrequencyTableSpec(s: seq<string>)
    ensures forall c :: c in FrequencyTable(s) ==> FrequencyTable(s)[c] == multiset(s)[c]
  {
    if s != [] {
      var p, x := s[..|s| - 1], s[|s| - 1];
      assert s == p + [x];
      FrequencyTableSpec(p);
    }
  }

  /** The sum of the values of a frequency table. */
  ghost function SumOfCounts(m: map<string, nat>): nat
    decreases |m|
  {
    if m == map[] then 0
    else
      assert exists k :: k in m;
      var k :| k in m;
      m[k] + SumOfCounts(m - {k})
  }

  /** The sum does not depend on which key is taken out first. */
  lemma {:induction false} SumOfCountsRemove(m: map<string, nat>, k: string)
    requires k in m
    ensures SumOfCounts(m) == m[k] + SumOfCounts(m - {k})
    decreases |m|
  {
    var j :| j in m && SumOfCounts(m) == m[j] + SumOfCounts(m - {j});
    if j != k {
      SumOfCountsRemove(m - {j}, k);
      SumOfCountsRemove(m - {k}, j);
      assert m - {j} - {k} == m - {k} - {j};
    }
  }

  /** The counts of the frequency table add up to the number of colours. */
  lemma {:induction false} FrequencyTableTotal(s: seq<string>)
    ensures SumOfCounts(FrequencyTable(s)) == |s|
  {
    if s != [] {
      var p, x := s[..|s| - 1], s[|s| - 1];
      var m := FrequencyTable(p);
      FrequencyTableTotal(p);
      var m' := FrequencyTable(s);
      SumOfCountsRemove(m', x);
      if x in m {
        SumOfCountsRemove(m, x);
        assert m' - {x} == m - {x};
      } else {
        assert m' - {x} == m;
      }
    }
  }

  /** The frequency table has one key per distinct colour. */
  lemma FrequencyTableSize(s: seq<string>)
    ensures |FrequencyTable(s)| == |Distinct(s)|
  {
    var d := Distinct(s);
    FrequencyTableSpec(s);
    NoDuplicatesCard(d);
    assert FrequencyTable(s).Keys == (set c | c in d);
  }

  /**
   * The position of the first largest count among `keys`: `max` over the
   * counter's items replaces its candidate only on a strictly larger count.
   */
  function FirstMaximalIndex(keys: seq<string>, counts: map<string, nat>): (i: nat)
    requires |keys| > 0
    requires forall k :: k in keys ==> k in counts
    ensures i < |keys|
    ensures forall j :: 0 <= j < |keys| ==> counts[keys[j]] <= counts[keys[i]]
    ensures forall j :: 0 <= j < i ==> counts[keys[j]] < counts[keys[i]]
  {
    if |keys| == 1 then 0
    else
      var i := FirstMaximalIndex(keys[..|keys| - 1], counts);
      if counts[keys[|keys| - 1]] > counts[keys[i]] then |keys| - 1 else i
  }

  /** `Counter(colors).most_common(1)[0][0] if Counter(colors) else None`. */
  function Mode(colors: seq<string>): (r: Option<string>)
    ensures r == None <==> colors == []
    ensures r.Some? ==> r.value in colors
    ensures r.Some? ==> forall c :: c in colors ==> multiset(colors)[c] <= multiset(colors)[r.value]
  {
    var counts := FrequencyTable(colors);
    FrequencyTableSpec(colors);
    assert colors != [] ==> colors[0] in colors;
    if counts == map[] then
      None
    else
      var keys := Distinct(colors);
      assert exists c :: c in colors;
      Some(keys[FirstMaximalIndex(keys, counts)])
  }

  /** Among colours of equal maximal count, the mode is the one seen first. */
  lemma ModeIsFirstOccurringMaximum(colors: seq<string>)
    requires Mode(colors).Some?
    ensures forall c :: c in colors && multiset(colors)[c] == multiset(colors)[Mode(colors).value] ==>
              FirstIndex(colors, Mode(colors).value) <= FirstIndex(colors, c)
  {
    var counts, keys := FrequencyTable(colors), Distinct(colors);
    FrequencyTableSpec(colors);
    var i := FirstMaximalIndex(keys, counts);
    var m := keys[i];
    DistinctInFirstOccurrenceOrder(colors);
    assert Mode(colors) == Some(m);
    forall c | c in colors && multiset(colors)[c] == multiset(colors)[m]
      ensures FirstIndex(colors, m) <= FirstIndex(colors, c)
    {
      var j :| 0 <= j < |keys| && keys[j] == c;
      assert counts[keys[j]] == counts[keys[i]];
      assert !(j < i);
      if i < j {
        assert FirstIndex(colors, keys[i]) < FirstIndex(colors, keys[j]);
      }
    }
  }

  /**
   * `main` sorts the colours before counting, which makes the mode the
   * smallest, in string order, of the colours of maximal count.
   */
  lemma ModeOfSortedIsSmallestMaximum(colors: seq<string>)
    requires Sorted(colors) && Mode(colors).Some?
    ensures forall c :: c in colors && multiset(colors)[c] == multiset(colors)[Mode(colors).value] ==>
              LessEq(Mode(colors).value, c)
  {
    var m := Mode(colors).value;
    ModeIsFirstOccurringMaximum(colors);
    forall c | c in colors && multiset(colors)[c] == multiset(colors)[m]
      ensures LessEq(m, c)
    {
      var i, j := FirstIndex(colors, m), FirstIndex(colors, c);
      assert colors[i] == m && colors[j] == c && i <= j;
      if i < j {
        assert LessEq(colors[i], colors[j]);
      }
    }
  }

  /** A duplicate-free sequence has as many distinct elements as it has entries. */
  lemma {:induction false} NoDuplicatesCard(s: seq<string>)
    requires NoDuplicates(s)
    ensures |(set c | c in s)| == |s|
  {
    if s != [] {
      var p, x := s[..|s| - 1], s[|s| - 1];
      assert s == p + [x];
      NoDuplicatesCard(p);
      assert (set c | c in s) == (set c | c in p) + {x};
      assert x !in (set c | c in p);
    }
  }

  /** An iteration order of `set(colors)`: each distinct colour exactly once. */
  predicate IsEnumerationOf(order: seq<string>, colors: seq<string>)
  {
    && NoDuplicates(order)
    && (forall c :: c in order ==> c in colors)
    && (forall c :: c in colors ==> c in order)
  }

  /** The keys of the counter are one such enumeration. */
  lemma DistinctIsEnumeration(colors: seq<string>)
    ensures IsEnumerationOf(Distinct(colors), colors)
  {
  }

  /** `{color: i + 1 for i, color in enumerate(order)}`. */
  function RankMapping(order: seq<string>): (m: map<string, nat>)
    ensures forall c :: c in m <==> c in order
    ensures forall c :: c in m ==> 1 <= m[c] <= |order|
    ensures NoDuplicates(order) ==> forall i :: 0 <= i < |order| ==> m[order[i]] == i + 1
  {
    if order == [] then map[]
    else
      var p, x := order[..|order| - 1], order[|order| - 1];
      assert order == p + [x];
      RankMapping(p)[x := |order|]
  }

  /** Any enumeration of `set(colors)` has K elements, K the number of distinct colours. */
  lemma EnumerationLength(colors: seq<string>, order: seq<string>)
    requires IsEnumerationOf(order, colors)
    ensures |order| == |Distinct(colors)|
  {
    var d := Distinct(colors);
    NoDuplicatesCard(order);
    NoDuplicatesCard(d);
    assert (set c | c in order) == (set c | c in d);
  }

  /**
   * Whatever order `set(colors)` is enumerated in, the rank mapping sends the
   * K distinct colours one-to-one onto 1..K.
   */
  lemma RankMappingIsBijection(colors: seq<string>, order: seq<string>)
    requires IsEnumerationOf(order, colors)
    ensures |order| == |Distinct(colors)|
    ensures forall c :: c in RankMapping(order) <==> c in colors
    ensures forall r :: r in RankMapping(order).Values <==> 1 <= r <= |order|
    ensures forall c, c' ::
              c in RankMapping(order) && c' in RankMapping(order) && RankMapping(order)[c] == RankMapping(order)[c']
              ==> c == c'
  {
    var m := RankMapping(order);
    EnumerationLength(colors, order);
    forall c, c' | c in m && c' in m && m[c] == m[c']
      ensures c == c'
    {
      var i :| 0 <= i < |order| && order[i] == c;
      var j :| 0 <= j < |order| && order[j] == c';
      assert m[c] == i + 1 && m[c'] == j + 1;
    }
    forall r
      ensures r in m.Values <==> 1 <= r <= |order|
    {
      if 1 <= r <= |order| {
        assert m[order[r - 1]] == r;
      }
      if r in m.Values {
        var c :| c in m && m[c] == r;
      }
    }
  }

  /** `[color_mapping[color] for color in colors] if colors else []`. */
  function Ranks(colors: seq<string>, mapping: map<string, nat>): (r: seq<nat>)
    requires forall c :: c in colors ==> c in mapping
    ensures |r| == |colors|
  {
    if colors == [] then [] else seq(|colors|, i requires 0 <= i < |colors| => mapping[colors[i]])
  }

  /**
   * For any enumeration of the distinct colours, the rank sequence is as long
   * as the colour sequence, its entries lie in 1..K, and two positions carry
   * the same rank exactly when they carry the same colour.
   */
  lemma RanksFaithful(colors: seq<string>, order: seq<string>)
    requires IsEnumerationOf(order, colors)
    ensures |Ranks(colors, RankMapping(order))| == |colors|
    ensures forall i :: 0 <= i < |colors| ==> 1 <= Ranks(colors, RankMapping(order))[i] <= |Distinct(colors)|
    ensures forall i, j :: 0 <= i < |colors| && 0 <= j < |colors| ==>
              (Ranks(colors, RankMapping(order))[i] == Ranks(colors, RankMapping(order))[j] <==> colors[i] == colors[j])
  {
    var m := RankMapping(order);
    RankMappingIsBijection(colors, order);
    var r := Ranks(colors, m);
    forall i, j | 0 <= i < |colors| && 0 <= j < |colors|
      ensures r[i] == r[j] <==> colors[i] == colors[j]
    {
      assert r[i] == m[colors[i]] && r[j] == m[colors[j]];
    }
  }

  /** Two enumerations of the distinct colours give rank sequences with the same equalities. */
  lemma RanksIndependentOfOrder(colors: seq<string>, order1: seq<string>, order2: seq<string>)
    requires IsEnumerationOf(order1, colors) && IsEnumerationOf(order2, colors)
    ensures forall i, j :: 0 <= i < |colors| && 0 <= j < |colors| ==>
              (Ranks(colors, RankMapping(order1))[i] == Ranks(colors, RankMapping(order1))[j] <==>
               Ranks(colors, RankMapping(order2))[i] == Ranks(colors, RankMapping(order2))[j])
  {
    RanksFaithful(colors, order1);
    RanksFaithful(colors, order2);
  }
}
