// The analyzer: three fixed-size counter tables filled by passes that drain
// the log reader, and extremum queries that scan those tables.

module Analysis {
  import opened LogReader
  import opened Counting

  /** Scans `a[lo..hi]` keeping the first index of the largest count seen so far. */
  method FirstMaxIndex(a: array<nat>, lo: nat, hi: nat) returns (busiest: nat)
    requires lo < hi <= a.Length
    ensures IsFirstMax(a[..], lo, hi, busiest)
  {
    busiest := lo;
    for c := lo + 1 to hi
      invariant lo <= busiest < c
      invariant forall k :: lo <= k < c ==> a[k] <= a[busiest]
      invariant forall k :: lo <= k < busiest ==> a[k] < a[busiest]
    {
      if a[c] > a[busiest] {
        busiest := c;
      }
    }
  }

  /** Scans `a[lo..hi]` keeping the first index of the smallest count seen so far. */
  method FirstMinIndex(a: array<nat>, lo: nat, hi: nat) returns (quietest: nat)
    requires lo < hi <= a.Length
    ensures IsFirstMin(a[..], lo, hi, quietest)
  {
    quietest := lo;
    for c := lo + 1 to hi
      invariant lo <= quietest < c
      invariant forall k :: lo <= k < c ==> a[quietest] <= a[k]
      invariant forall k :: lo <= k < quietest ==> a[quietest] < a[k]
    {
      if a[c] < a[quietest] {
        quietest := c;
      }
    }
  }

  /**
   * What quietestHour returns: its scan starts from the candidate index
   * `hours[0]` (a count, not an hour) and only ever compares hours 1 to 23
   * against it. The result is that candidate unless some hour in 1..23 has a
   * strictly smaller count, and then the first hour in 1..23 with the
   * smallest count.
   */
  ghost predicate QuietestHourResult(hours: seq<int>, q: int)
    requires |hours| == 24 && 0 <= hours[0] < 24
  {
    0 <= q < 24 &&
    (forall c :: 1 <= c < 24 ==> hours[q] <= hours[c]) &&
    hours[q] <= hours[hours[0]] &&
    (q == hours[0] ||
     (1 <= q && hours[q] < hours[hours[0]] && forall c :: 1 <= c < q ==> hours[q] < hours[c]))
  }

  class LogAnalyzer {
    // Accesses per hour (0..23), per day of month (1..31) and per month (1..12);
    // cell 0 of the day and month tables is never used.
    const hourCounts: array<nat>
    const dayCounts: array<nat>
    const monthCounts: array<nat>
    const reader: LogfileReader

    ghost predicate Valid()
      reads this, reader
    {
      hourCounts.Length == 24 && dayCounts.Length == 32 && monthCounts.Length == 13 &&
      reader.Valid()
    }

    /**
     * Both constructors of the analyzer: the reader is opened on a log whose
     * entries are `log`, and every counter starts at zero.
     */
    constructor (log: seq<LogEntry>)
      ensures Valid()
      ensures fresh(hourCounts) && fresh(dayCounts) && fresh(monthCounts) && fresh(reader)
      ensures forall h :: 0 <= h < 24 ==> hourCounts[h] == 0
      ensures forall d :: 0 <= d < 32 ==> dayCounts[d] == 0
      ensures forall m :: 0 <= m < 13 ==> monthCounts[m] == 0
      ensures reader.entries == log && reader.pos == 0
    {
      hourCounts := new nat[24](_ => 0);
      dayCounts := new nat[32](_ => 0);
      monthCounts := new nat[13](_ => 0);
      reader := new LogfileReader(log);
    }

    /** Drains the reader, adding each unread entry to the cell of its hour. */
    method AnalyzeHourlyData()
      requires Valid()
      requires AllWithin(reader.Unread(), Hour, 24)
      modifies hourCounts, reader
      ensures Valid()
      ensures !reader.HasNext()
      ensures forall h :: 0 <= h < 24 ==>
        hourCounts[h] == old(hourCounts[h]) + Tally(old(reader.Unread()), Hour, h)
      ensures unchanged(dayCounts) && unchanged(monthCounts)
    {
      ghost var start := reader.pos;
      while reader.HasNext()
        invariant Valid()
        invariant start <= reader.pos
        invariant forall k :: start <= k < |reader.entries| ==>
          0 <= reader.entries[k].hour < 24
        invariant forall h :: 0 <= h < 24 ==>
          hourCounts[h] == old(hourCounts[h]) + Tally(reader.entries[start..reader.pos], Hour, h)
        decreases |reader.entries| - reader.pos
      {
        ghost var done := reader.entries[start..reader.pos];
        var entry := reader.Next();
        var hour := entry.hour;
        hourCounts[hour] := hourCounts[hour] + 1;
        assert reader.entries[start..reader.pos] == done + [entry];
        assert (done + [entry])[..|done|] == done;
      }
      assert reader.entries[start..reader.pos] == old(reader.Unread());
    }

    /** Drains the reader, adding each unread entry to the cell of its day of month. */
    method AnalyzeDailyData()
      requires Valid()
      requires AllWithin(reader.Unread(), Day, 32)
      modifies dayCounts, reader
      ensures Valid()
      ensures !reader.HasNext()
      ensures forall d :: 0 <= d < 32 ==>
        dayCounts[d] == old(dayCounts[d]) + Tally(old(reader.Unread()), Day, d)
      ensures unchanged(hourCounts) && unchanged(monthCounts)
    {
      ghost var start := reader.pos;
      while reader.HasNext()
        invariant Valid()
        invariant start <= reader.pos
        invariant forall k :: start <= k < |reader.entries| ==>
          0 <= reader.entries[k].day < 32
        invariant forall d :: 0 <= d < 32 ==>
          dayCounts[d] == old(dayCounts[d]) + Tally(reader.entries[start..reader.pos], Day, d)
        decreases |reader.entries| - reader.pos
      {
        ghost var done := reader.entries[start..reader.pos];
        var entry := reader.Next();
        var day := entry.day;
        dayCounts[day] := dayCounts[day] + 1;
        assert reader.entries[start..reader.pos] == done + [entry];
        assert (done + [entry])[..|done|] == done;
      }
      assert reader.entries[start..reader.pos] == old(reader.Unread());
    }

    /** Drains the reader, adding each unread entry to the cell of its month. */
    method AnalyzeMonthlyData()
      requires Valid()
      requires AllWithin(reader.Unread(), Month, 13)
      modifies monthCounts, reader
      ensures Valid()
      ensures !reader.HasNext()
      ensures forall m :: 0 <= m < 13 ==>
        monthCounts[m] == old(monthCounts[m]) + Tally(old(reader.Unread()), Month, m)
      ensures unchanged(hourCounts) && unchanged(dayCounts)
    {
      ghost var start := reader.pos;
      while reader.HasNext()
        invariant Valid()
        invariant start <= reader.pos
        invariant forall k :: start <= k < |reader.entries| ==>
          0 <= reader.entries[k].month < 13
        invariant forall m :: 0 <= m < 13 ==>
          monthCounts[m] == old(monthCounts[m]) + Tally(reader.entries[start..reader.pos], Month, m)
        decreases |reader.entries| - reader.pos
      {
        ghost var done := reader.entries[start..reader.pos];
        var entry := reader.Next();
        var month := entry.month;
        monthCounts[month] := monthCounts[month] + 1;
        assert reader.entries[start..reader.pos] == done + [entry];
        assert (done + [entry])[..|done|] == done;
      }
      assert reader.entries[start..reader.pos] == old(reader.Unread());
    }

    /** Drains the reader, counting the entries it hands out; no table is touched. */
    method NumberOfAccesses() returns (accesses: nat)
      requires Valid()
      modifies reader
      ensures Valid()
      ensures !reader.HasNext()
      ensures accesses == |old(reader.Unread())|
    {
      accesses := 0;
      while reader.HasNext()
        invariant Valid()
        invariant accesses == reader.pos - old(reader.pos)
        decreases |reader.entries| - reader.pos
      {
        var _ := reader.Next();
        accesses := accesses + 1;
      }
    }

    /** The busiest hour: the first of the hours with the largest count. */
    method BusiestHour() returns (busiest: nat)
      requires Valid()
      ensures busiest < 24
      ensures forall c :: 0 <= c < 24 ==> hourCounts[c] <= hourCounts[busiest]
      ensures forall c :: 0 <= c < busiest ==> hourCounts[c] < hourCounts[busiest]
    {
      busiest := FirstMaxIndex(hourCounts, 0, 24);
    }

    /**
     * The quietest hour, as written: the scan's candidate starts at the index
     * `hourCounts[0]`, which must therefore be an hour, and only hours 1..23
     * are examined as challengers. Hour 0 is the starting candidate only when
     * its own count is 0, and then every later hour is compared against it.
     */
    method QuietestHour() returns (quietest: nat)
      requires Valid()
      requires hourCounts[0] < 24
      ensures QuietestHourResult(hourCounts[..], quietest)
      ensures hourCounts[0] == 0 ==> quietest == 0
    {
      quietest := hourCounts[0];
      ghost var first := quietest;
      for c := 1 to 24
        invariant quietest < 24
        invariant forall k :: 1 <= k < c ==> hourCounts[quietest] <= hourCounts[k]
        invariant hourCounts[quietest] <= hourCounts[first]
        invariant quietest == first ||
          (1 <= quietest < c && hourCounts[quietest] < hourCounts[first] &&
           forall k :: 1 <= k < quietest ==> hourCounts[quietest] < hourCounts[k])
      {
        if hourCounts[c] < hourCounts[quietest] {
          quietest := c;
        }
      }
    }

    /** The quietest hour as evidently intended: the first hour in 0..23 with the smallest count. */
    method QuietestHourCorrected() returns (quietest: nat)
      requires Valid()
      ensures IsFirstMin(hourCounts[..], 0, 24, quietest)
    {
      quietest := FirstMinIndex(hourCounts, 0, 24);
    }

    /**
     * The first hour of the busiest two-hour window, where the window that
     * starts at hour 23 wraps around to hour 0. The running candidate is
     * always below the hour being examined, so its window never needs wrapping
     * and `busiest + 1` stays inside the table.
     */
    method BusiestTwoHour() returns (busiest: nat)
      requires Valid()
      ensures IsFirstMax(TwoHourSums(hourCounts[..]), 0, 24, busiest)
    {
      ghost var sums := TwoHourSums(hourCounts[..]);
      busiest := 0;
      for c := 1 to 24
        invariant busiest < c
        invariant forall k :: 0 <= k < c ==> sums[k] <= sums[busiest]
        invariant forall k :: 0 <= k < busiest ==> sums[k] < sums[busiest]
      {
        if hourCounts[c] + hourCounts[(c + 1) % 24] > hourCounts[busiest] + hourCounts[busiest + 1] {
          busiest := c;
        }
      }
    }

    /** The quietest day of the month: the first day in 1..31 with the smallest count. */
    method QuietestDay() returns (quietest: nat)
      requires Valid()
      ensures IsFirstMin(dayCounts[..], 1, 32, quietest)
    {
      quietest := FirstMinIndex(dayCounts, 1, 32);
    }

    /** The busiest day of the month: the first day in 1..31 with the largest count. */
    method BusiestDay() returns (busiest: nat)
      requires Valid()
      ensures IsFirstMax(dayCounts[..], 1, 32, busiest)
    {
      busiest := FirstMaxIndex(dayCounts, 1, 32);
    }

    /** The quietest month: the first month in 1..12 with the smallest count. */
    method QuietestMonth() returns (quietest: nat)
      requires Valid()
      ensures IsFirstMin(monthCounts[..], 1, 13, quietest)
    {
      quietest := FirstMinIndex(monthCounts, 1, 13);
    }

    /**
     * The busiest month, as written: the scan runs over cells 1..12 of the
     * DAY table, so the result is the first of days 1..12 with the largest
     * count and the month table is never read.
     */
    method BusiestMonth() returns (busiest: nat)
      requires Valid()
      ensures IsFirstMax(dayCounts[..], 1, 13, busiest)
    {
      busiest := FirstMaxIndex(dayCounts, 1, 13);
    }

    /** The busiest month as evidently intended: the first month in 1..12 with the largest count. */
    method BusiestMonthCorrected() returns (busiest: nat)
      requires Valid()
      ensures IsFirstMax(monthCounts[..], 1, 13, busiest)
    {
      busiest := FirstMaxIndex(monthCounts, 1, 13);
    }

    /** The rows of the hourly report: every hour 0..23 with its count, in order. */
    method PrintHourlyCounts() returns (rows: seq<(int, nat)>)
      requires Valid()
      ensures |rows| == 24
      ensures forall h :: 0 <= h < 24 ==> rows[h] == (h, hourCounts[h])
    {
      rows := [];
      for hour := 0 to hourCounts.Length
        invariant |rows| == hour
        invariant forall h :: 0 <= h < hour ==> rows[h] == (h, hourCounts[h])
      {
        rows := rows + [(hour, hourCounts[hour])];
      }
    }

    /** The rows of the monthly report: every month 1..12 with its count, in order. */
    method TotalAccessesPerMonth() returns (rows: seq<(int, nat)>)
      requires Valid()
      ensures |rows| == 12
      ensures forall i :: 0 <= i < 12 ==> rows[i] == (i + 1, monthCounts[i + 1])
    {
      rows := [];
      for month := 1 to 13
        invariant |rows| == month - 1
        invariant forall i :: 0 <= i < month - 1 ==> rows[i] == (i + 1, monthCounts[i + 1])
      {
        rows := rows + [(month, monthCounts[month])];
      }
    }
  }

  /**
   * With more accesses at midnight than there are hours, quietestHour's first
   * candidate is not an hour: an hourly pass over 24 entries at hour 0 reaches
   * a state where `hourCounts[0] == 24`, so the precondition of `QuietestHour`
   * fails and the scan as written would read past the table.
   */
  method MidnightBurstOverflowsQuietestHour(log: seq<LogEntry>) returns (a: LogAnalyzer)
    requires |log| == 24
    requires forall i :: 0 <= i < |log| ==> log[i].hour == 0
    ensures a.Valid() && !a.reader.HasNext()
    ensures a.hourCounts[0] == 24 && !(a.hourCounts[0] < 24)
  {
    a := new LogAnalyzer(log);
    a.AnalyzeHourlyData();
    TallyUniform(log, Hour, 0);
  }

  /**
   * Below that limit quietestHour can still miss hour 0: with 2 accesses at
   * hour 0 and 4 at every other hour, it answers hour 2, which is busier than hour 0.
   */
  lemma QuietestHourMissesHourZero(hours: seq<int>, q: int)
    requires |hours| == 24 && hours[0] == 2
    requires forall c :: 1 <= c < 24 ==> hours[c] == 4
    requires QuietestHourResult(hours, q)
    ensures q == 2 && hours[q] > hours[0]
  {
  }

  /**
   * busiestMonth reads the day table: after a monthly pass alone (the day
   * table still all zero) it answers month 1 whatever the monthly counts are.
   */
  lemma BusiestMonthIgnoresMonthCounts(days: seq<int>, months: seq<int>, b: int)
    requires |days| == 32 && forall d :: 0 <= d < 32 ==> days[d] == 0
    requires |months| == 13 && months[1] == 0 && months[5] == 3
    requires IsFirstMax(days, 1, 13, b)
    ensures b == 1 && months[b] < months[5]
  {
    assert days[1] == days[b];
  }
}
