/** Pure helpers of the lap counter's calibration: the shadow threshold is the
    midpoint of the two reference levels, and a reference level is the mean of
    the readings that parsed during one measuring window. */
module Calibration {
  import opened Wrappers

  /** The shadow threshold derived from the dim and bright reference levels. */
  function Midpoint(dim: real, bright: real): (threshold: real)
    ensures threshold - dim == bright - threshold
    ensures dim < bright ==> dim < threshold < bright
  {
    (dim + bright) / 2.0
  }

  /** The readings that parsed, in arrival order; lines that did not parse are skipped. */
  function Parsed(lines: seq<Option<real>>): (values: seq<real>)
    ensures |values| <= |lines|
    ensures forall x :: x in values <==> Some(x) in lines
    ensures |lines| == 1 ==> values == (match lines[0] case Some(x) => [x] case None => [])
  {
    if lines == [] then []
    else
      var init := Parsed(lines[..|lines| - 1]);
      assert lines == lines[..|lines| - 1] + [lines[|lines| - 1]];
      match lines[|lines| - 1]
      case Some(x) => init + [x]
      case None => init
  }

  /** Filtering a window split in two gives the readings of the first part
      followed by those of the second: order and repetitions are kept. */
  lemma {:induction false} ParsedAppend(a: seq<Option<real>>, b: seq<Option<real>>)
    ensures Parsed(a + b) == Parsed(a) + Parsed(b)
    decreases |b|
  {
    if b != [] {
      var init, last := b[..|b| - 1], b[|b| - 1];
      assert b == init + [last];
      assert a + b == (a + init) + [last];
      assert (a + b)[..|a + b| - 1] == a + init;
      assert b[..|b| - 1] == init;
      ParsedAppend(a, init);
    } else {
      assert a + b == a;
    }
  }

  /** Sum of the readings, accumulated left to right. */
  function Sum(values: seq<real>): (total: real)
  {
    if values == [] then 0.0 else Sum(values[..|values| - 1]) + values[|values| - 1]
  }

  /** The mean of the readings, or 0 when there are none. */
  function Average(values: seq<real>): (mean: real)
    ensures values == [] ==> mean == 0.0
    ensures mean * (|values| as real) == Sum(values)
  {
    if |values| == 0 then 0.0 else Sum(values) / (|values| as real)
  }

  /** The smallest reading. */
  function SeqMin(values: seq<real>): (m: real)
    requires values != []
    ensures m in values
    ensures forall x :: x in values ==> m <= x
  {
    if |values| == 1 then values[0]
    else
      var init := values[..|values| - 1];
      assert values == init + [values[|values| - 1]];
      var m := SeqMin(init);
      if values[|values| - 1] < m then values[|values| - 1] else m
  }

  /** The largest reading. */
  function SeqMax(values: seq<real>): (m: real)
    requires values != []
    ensures m in values
    ensures forall x :: x in values ==> x <= m
  {
    if |values| == 1 then values[0]
    else
      var init := values[..|values| - 1];
      assert values == init + [values[|values| - 1]];
      var m := SeqMax(init);
      if values[|values| - 1] > m then values[|values| - 1] else m
  }

  /** A sum of readings that all lie in [lo, hi] lies in [lo * n, hi * n]. */
  lemma {:induction false} SumBounds(values: seq<real>, lo: real, hi: real)
    requires forall x :: x in values ==> lo <= x <= hi
    ensures lo * (|values| as real) <= Sum(values) <= hi * (|values| as real)
  {
    if values != [] {
      var init, last := values[..|values| - 1], values[|values| - 1];
      assert values == init + [last];
      assert forall x :: x in init ==> x in values;
      assert last in values;
      SumBounds(init, lo, hi);
      var k := |init| as real;
      assert Sum(values) == Sum(init) + last;
      assert lo * (k + 1.0) == lo * k + lo;
      assert hi * (k + 1.0) == hi * k + hi;
    }
  }

  /** Dividing by a positive count keeps a scaled bound. */
  lemma DivideBound(s: real, n: real, b: real)
    requires n > 0.0
    ensures b * n <= s ==> b <= s / n
    ensures s <= b * n ==> s / n <= b
  {
  }

  /** The mean of nonempty readings that all lie in [lo, hi] lies in [lo, hi]. */
  lemma AverageBounds(values: seq<real>, lo: real, hi: real)
    requires values != []
    requires forall x :: x in values ==> lo <= x <= hi
    ensures lo <= Average(values) <= hi
  {
    SumBounds(values, lo, hi);
    DivideBound(Sum(values), |values| as real, lo);
    DivideBound(Sum(values), |values| as real, hi);
  }

  /** The mean of a nonempty set of readings lies between the smallest and the largest. */
  lemma AverageBetween(values: seq<real>)
    requires values != []
    ensures SeqMin(values) <= Average(values) <= SeqMax(values)
  {
    AverageBounds(values, SeqMin(values), SeqMax(values));
  }
}
