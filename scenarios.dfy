// Whole-analyzer runs: what a caller can conclude from the analyzer's
// contracts alone, over one log or over concrete logs.

module Scenarios {
  import opened LogReader
  import opened Counting
  import opened Analysis

  /** An access at hour `h` on the 1st of January. */
  function AtHour(h: int): LogEntry
  {
    LogEntry(h, 1, 1)
  }

  /**
   * Over two analyzers reading the same log, the hourly table filled by one
   * adds up to the number of accesses the other counts.
   */
  method TotalsAgree(log: seq<LogEntry>) returns (accesses: nat, hourlyTotal: nat)
    requires AllWithin(log, Hour, 24)
    ensures accesses == hourlyTotal == |log|
  {
    var hourly := new LogAnalyzer(log);
    hourly.AnalyzeHourlyData();
    forall h | 0 <= h < 24
      ensures hourly.hourCounts[..][h] == Histogram(log, Hour, 24)[h]
    {
      HistogramAt(log, Hour, 24, h);
    }
    assert hourly.hourCounts[..] == Histogram(log, Hour, 24);
    HistogramSum(log, Hour, 24);
    hourlyTotal := Sum(hourly.hourCounts[..]);

    var counting := new LogAnalyzer(log);
    accesses := counting.NumberOfAccesses();
  }

  /**
   * The reader is single-pass: after an hourly pass, a daily pass on the same
   * analyzer sees no entries, and so does a count of the accesses.
   */
  method SecondPassSeesNothing(log: seq<LogEntry>) returns (days: seq<nat>, later: nat)
    requires AllWithin(log, Hour, 24)
    ensures |days| == 32 && forall d :: 0 <= d < 32 ==> days[d] == 0
    ensures later == 0
  {
    var a := new LogAnalyzer(log);
    a.AnalyzeHourlyData();
    assert forall d :: 0 <= d < 32 ==> a.dayCounts[d] == 0;
    assert a.reader.Unread() == [];
    a.AnalyzeDailyData();
    assert forall d :: 0 <= d < 32 ==> a.dayCounts[d] == 0;
    days := a.dayCounts[..];
    later := a.NumberOfAccesses();
  }

  /** A log of hours 0, 0, 5, 5, 5, 23, 0. */
  function TieLog(): seq<LogEntry>
  {
    [AtHour(0), AtHour(0), AtHour(5), AtHour(5), AtHour(5), AtHour(23), AtHour(0)]
  }

  /** The hour counts of that log: 3 at hours 0 and 5, 1 at hour 23. */
  function TieCount(h: int): nat
  {
    if h == 0 || h == 5 then 3 else if h == 23 then 1 else 0
  }

  /** Over that log hours 0 and 5 tie at three accesses and the earlier hour wins. */
  method BusiestHourTie() returns (counts: seq<nat>, busiest: nat)
    ensures |counts| == 24 && counts[0] == 3 && counts[5] == 3 && counts[23] == 1
    ensures busiest == 0
  {
    var a := new LogAnalyzer(TieLog());
    a.AnalyzeHourlyData();
    counts := a.hourCounts[..];
    busiest := a.BusiestHour();
    TieLogHours();
    forall h | 0 <= h < 24
      ensures counts[h] == TieCount(h)
    {
      TieHourCount(TieLog(), h);
    }
    TieGoesToEarlierHour(counts, busiest);
  }

  lemma TieLogHours()
    ensures Values(TieLog(), Hour) == [0, 0, 5, 5, 5, 23, 0]
  {
  }

  lemma TieHourCount(log: seq<LogEntry>, h: int)
    requires Values(log, Hour) == [0, 0, 5, 5, 5, 23, 0]
    ensures Tally(log, Hour, h) == TieCount(h)
  {
    TallyIsMultiplicity(log, Hour, h);
  }

  /** With those counts no hour beats hour 0, so the first-occurrence scan stops there. */
  lemma TieGoesToEarlierHour(counts: seq<int>, b: int)
    requires |counts| == 24 && forall h :: 0 <= h < 24 ==> counts[h] == TieCount(h)
    requires IsFirstMax(counts, 0, 24, b)
    ensures b == 0
  {
    assert counts[b] <= counts[0];
  }

  /** A log of hours 22, 22, 23, 23, 23, 0, 0, 0, 0. */
  function WrapLog(): seq<LogEntry>
  {
    [AtHour(22), AtHour(22), AtHour(23), AtHour(23), AtHour(23),
     AtHour(0), AtHour(0), AtHour(0), AtHour(0)]
  }

  /** The hour counts of that log: 4 at hour 0, 2 at hour 22, 3 at hour 23. */
  function WrapCount(h: int): nat
  {
    if h == 0 then 4 else if h == 22 then 2 else if h == 23 then 3 else 0
  }

  /**
   * Over that log the window starting at 23 wraps to hour 0 and, with 3 + 4
   * accesses, beats the window starting at 22 (2 + 3).
   */
  method BusiestTwoHourWraps() returns (busiest: nat)
    ensures busiest == 23
  {
    var a := new LogAnalyzer(WrapLog());
    a.AnalyzeHourlyData();
    busiest := a.BusiestTwoHour();
    ghost var counts := a.hourCounts[..];
    WrapLogHours();
    forall h | 0 <= h < 24
      ensures counts[h] == WrapCount(h)
    {
      WrapHourCount(WrapLog(), h);
    }
    WrapWindowWins(counts, busiest);
  }

  lemma WrapLogHours()
    ensures Values(WrapLog(), Hour) == [22, 22, 23, 23, 23, 0, 0, 0, 0]
  {
  }

  lemma WrapHourCount(log: seq<LogEntry>, h: int)
    requires Values(log, Hour) == [22, 22, 23, 23, 23, 0, 0, 0, 0]
    ensures Tally(log, Hour, h) == WrapCount(h)
  {
    TallyIsMultiplicity(log, Hour, h);
  }

  /** With those counts every window but the one starting at hour 23 has fewer accesses. */
  lemma WrapWindowWins(counts: seq<int>, b: int)
    requires |counts| == 24 && forall h :: 0 <= h < 24 ==> counts[h] == WrapCount(h)
    requires IsFirstMax(TwoHourSums(counts), 0, 24, b)
    ensures b == 23
  {
    var sums := TwoHourSums(counts);
    assert forall k :: 0 <= k < 23 ==> sums[k] < sums[23];
    assert sums[23] <= sums[b];
  }

  /** An empty log leaves every counter at zero; the hour queries then answer hour 0. */
  method EmptyLog() returns (counts: seq<nat>, accesses: nat, busiest: nat, quietest: nat)
    ensures |counts| == 24 && forall h :: 0 <= h < 24 ==> counts[h] == 0
    ensures accesses == 0 && busiest == 0 && quietest == 0
  {
    var a := new LogAnalyzer([]);
    a.AnalyzeHourlyData();
    counts := a.hourCounts[..];
    busiest := a.BusiestHour();
    quietest := a.QuietestHour();
    accesses := a.NumberOfAccesses();
  }
}
