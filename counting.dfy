// What the analyzer's counter tables are meant to hold, stated over the log
// itself, and the extremum properties its queries promise.

module Counting {
  import opened LogReader

  /** The time unit a counter table is keyed by. */
  datatype Field = Hour | Day | Month

  function FieldOf(e: LogEntry, f: Field): int
  {
    match f
    case Hour => e.hour
    case Day => e.day
    case Month => e.month
  }

  /** Every entry's field `f` is a valid index into a table of length `n`. */
  predicate AllWithin(es: seq<LogEntry>, f: Field, n: nat)
  {
    forall i :: 0 <= i < |es| ==> 0 <= FieldOf(es[i], f) < n
  }

  /** The number of entries of `es` whose field `f` equals `v`. */
  function Tally(es: seq<LogEntry>, f: Field, v: int): (n: nat)
    ensures n <= |es|
  {
    if es == [] then 0
    else Tally(es[..|es| - 1], f, v) + (if FieldOf(es[|es| - 1], f) == v then 1 else 0)
  }

  /** The counter table that counting `es` by `f` into `n` cells yields. */
  function Histogram(es: seq<LogEntry>, f: Field, n: nat): (table: seq<nat>)
    ensures |table| == n
  {
    if n == 0 then [] else Histogram(es, f, n - 1) + [Tally(es, f, n - 1)]
  }

  function Sum(s: seq<nat>): nat
  {
    if s == [] then 0 else Sum(s[..|s| - 1]) + s[|s| - 1]
  }

  /** Cell `v` of the histogram counts exactly the entries whose field is `v`. */
  lemma {:induction false} HistogramAt(es: seq<LogEntry>, f: Field, n: nat, v: nat)
    requires v < n
    ensures Histogram(es, f, n)[v] == Tally(es, f, v)
  {
    if v < n - 1 {
      HistogramAt(es, f, n - 1, v);
    }
  }

  /** The number of entries whose field `f` lies in `0..n-1`: the table's total, cell by cell. */
  function TallyBelow(es: seq<LogEntry>, f: Field, n: nat): nat
  {
    if n == 0 then 0 else TallyBelow(es, f, n - 1) + Tally(es, f, n - 1)
  }

  lemma SumSnoc(s: seq<nat>, x: nat)
    ensures Sum(s + [x]) == Sum(s) + x
  {
    assert (s + [x])[..|s|] == s;
  }

  lemma {:induction false} SumHistogram(es: seq<LogEntry>, f: Field, n: nat)
    ensures Sum(Histogram(es, f, n)) == TallyBelow(es, f, n)
  {
    if n > 0 {
      SumHistogram(es, f, n - 1);
      SumSnoc(Histogram(es, f, n - 1), Tally(es, f, n - 1));
    }
  }

  /** Counting one more entry adds one to exactly one cell below `n`, if any. */
  lemma {:induction false} TallyBelowStep(es: seq<LogEntry>, e: LogEntry, f: Field, n: nat)
    ensures TallyBelow(es + [e], f, n) == TallyBelow(es, f, n) + (if 0 <= FieldOf(e, f) < n then 1 else 0)
  {
    if n > 0 {
      assert (es + [e])[..|es|] == es;
      TallyBelowStep(es, e, f, n - 1);
    }
  }

  lemma {:induction false} TallyBelowEmpty(f: Field, n: nat)
    ensures TallyBelow([], f, n) == 0
  {
    if n > 0 {
      TallyBelowEmpty(f, n - 1);
    }
  }

  /** When every entry fits the table, the table's cells add up to the number of entries. */
  lemma {:induction false} HistogramSum(es: seq<LogEntry>, f: Field, n: nat)
    requires AllWithin(es, f, n)
    ensures Sum(Histogram(es, f, n)) == |es|
  {
    SumHistogram(es, f, n);
    TallyBelowAll(es, f, n);
  }

  lemma {:induction false} TallyBelowAll(es: seq<LogEntry>, f: Field, n: nat)
    requires AllWithin(es, f, n)
    ensures TallyBelow(es, f, n) == |es|
  {
    if es == [] {
      TallyBelowEmpty(f, n);
    } else {
      var init := es[..|es| - 1];
      assert init + [es[|es| - 1]] == es;
      TallyBelowAll(init, f, n);
      TallyBelowStep(init, es[|es| - 1], f, n);
    }
  }

  /** The field `f` of every entry, in log order. */
  function Values(es: seq<LogEntry>, f: Field): (vs: seq<int>)
    ensures |vs| == |es|
  {
    seq(|es|, i requires 0 <= i < |es| => FieldOf(es[i], f))
  }

  /** Tally agrees with the multiplicity of `v` among the log's field values. */
  lemma {:induction false} TallyIsMultiplicity(es: seq<LogEntry>, f: Field, v: int)
    ensures Tally(es, f, v) == multiset(Values(es, f))[v]
  {
    if es != [] {
      var init := es[..|es| - 1];
      TallyIsMultiplicity(init, f, v);
      assert Values(es, f) == Values(init, f) + [FieldOf(es[|es| - 1], f)];
    }
  }

  /** A log whose every entry has field value `v` puts all its entries into cell `v`. */
  lemma {:induction false} TallyUniform(es: seq<LogEntry>, f: Field, v: int)
    requires forall i :: 0 <= i < |es| ==> FieldOf(es[i], f) == v
    ensures Tally(es, f, v) == |es|
  {
    if es != [] {
      TallyUniform(es[..|es| - 1], f, v);
    }
  }

  /**
   * `b` is where a left-to-right scan of `s[lo..hi]` with a strict `>` ends:
   * a maximum of the range, and the first index holding that maximum.
   */
  ghost predicate IsFirstMax(s: seq<int>, lo: int, hi: int, b: int)
  {
    0 <= lo <= b < hi <= |s| &&
    (forall c :: lo <= c < hi ==> s[c] <= s[b]) &&
    (forall c :: lo <= c < b ==> s[c] < s[b])
  }

  /** The same with a strict `<`: the first index holding the minimum of `s[lo..hi]`. */
  ghost predicate IsFirstMin(s: seq<int>, lo: int, hi: int, b: int)
  {
    0 <= lo <= b < hi <= |s| &&
    (forall c :: lo <= c < hi ==> s[b] <= s[c]) &&
    (forall c :: lo <= c < b ==> s[b] < s[c])
  }

  /** The first-occurrence tie-break leaves no choice: two scans of one table agree. */
  lemma FirstMaxUnique(s: seq<int>, lo: int, hi: int, b1: int, b2: int)
    requires IsFirstMax(s, lo, hi, b1) && IsFirstMax(s, lo, hi, b2)
    ensures b1 == b2
  {
    assert s[b1] == s[b2];
  }

  lemma FirstMinUnique(s: seq<int>, lo: int, hi: int, b1: int, b2: int)
    requires IsFirstMin(s, lo, hi, b1) && IsFirstMin(s, lo, hi, b2)
    ensures b1 == b2
  {
    assert s[b1] == s[b2];
  }

  /** The circular two-hour sums of an hour table: window `h` covers hours `h` and `(h + 1) % 24`. */
  function TwoHourSums(hours: seq<int>): (w: seq<int>)
    requires |hours| == 24
  {
    seq(24, h requires 0 <= h < 24 => hours[h] + hours[(h + 1) % 24])
  }
}
