/**
 * Sums over the values of a dictionary, as the compressed size adds up
 * code lengths over every term's list: the order in which the keys are
 * visited does not matter, and these lemmas say so.
 */
module MapSums {

  /** The sum of weight(v) over the values v of m. */
  ghost function SumValues<V>(m: map<string, V>, weight: V -> nat): nat
    decreases |m|
  {
    if m == map[] then 0
    else
      var k :| k in m;
      weight(m[k]) + SumValues(m - {k}, weight)
  }

  /** The sum may be taken starting from any key. */
  lemma {:induction false} SumValuesPick<V>(m: map<string, V>, weight: V -> nat, k: string)
    requires k in m
    ensures SumValues(m, weight) == weight(m[k]) + SumValues(m - {k}, weight)
    decreases |m|
  {
    var j :| j in m && SumValues(m, weight) == weight(m[j]) + SumValues(m - {j}, weight);
    if j != k {
      SumValuesPick(m - {j}, weight, k);
      SumValuesPick(m - {k}, weight, j);
      assert m - {j} - {k} == m - {k} - {j};
    }
  }

  /** Replacing the value at key k changes the sum by the change in k's weight. */
  lemma SumValuesUpdate<V>(m: map<string, V>, weight: V -> nat, k: string, v: V)
    ensures SumValues(m[k := v], weight)
      == SumValues(m, weight) - (if k in m then weight(m[k]) else 0) + weight(v)
  {
    SumValuesPick(m[k := v], weight, k);
    assert m[k := v] - {k} == m - {k};
    if k in m {
      SumValuesPick(m, weight, k);
    } else {
      assert m - {k} == m;
    }
  }

  /** Two dictionaries over the same keys whose values weigh, key by key, at
      least f and at most bound * f: their sums are related the same way. */
  lemma {:induction false} SumValuesBetween<V, W>(m: map<string, V>, f: V -> nat,
                                                  c: map<string, W>, g: W -> nat, bound: nat)
    requires m.Keys == c.Keys
    requires forall k :: k in m ==> f(m[k]) <= g(c[k]) <= bound * f(m[k])
    ensures SumValues(m, f) <= SumValues(c, g) <= bound * SumValues(m, f)
    decreases |m|
  {
    if m != map[] {
      var k :| k in m;
      var m', c' := m - {k}, c - {k};
      SumValuesPick(m, f, k);
      SumValuesPick(c, g, k);
      assert m'.Keys == c'.Keys;
      SumValuesBetween(m', f, c', g, bound);
      ScaledSum(bound, f(m[k]), SumValues(m', f), g(c[k]), SumValues(c', g), SumValues(m, f));
    } else {
      assert c == map[];
    }
  }

  lemma ScaledSum(bound: nat, a: nat, b: nat, x: nat, y: nat, total: nat)
    requires x <= bound * a && y <= bound * b && total == a + b
    ensures x + y <= bound * total
  {
  }
}
