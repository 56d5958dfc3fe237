/** The batch the `inputs` command asks for: which days, and which year. */
module Selection {
  import opened Wrappers

  /** The last puzzle day of an event. */
  const LastDay: int := 25

  /** The days `lo..=hi`, ascending. */
  function DayRange(lo: int, hi: int): (r: seq<int>)
    decreases hi - lo
    ensures |r| == if lo <= hi then hi - lo + 1 else 0
    ensures forall i :: 0 <= i < |r| ==> r[i] == lo + i
  {
    if lo > hi then [] else [lo] + DayRange(lo + 1, hi)
  }

  /** The days of the batch: the one asked for, or every day of the event. */
  function Days(day: Option<int>): (r: seq<int>)
    ensures day.Some? ==> r == [day.value]
    ensures day.None? ==> |r| == LastDay && forall i :: 0 <= i < |r| ==> r[i] == i + 1
  {
    if day.Some? then [day.value] else DayRange(1, LastDay)
  }

  /** Without a day, the batch holds each day 1 to 25 once, ascending. */
  lemma AllDaysAscendingAndComplete()
    ensures forall i, j :: 0 <= i < j < |Days(None)| ==> Days(None)[i] < Days(None)[j]
    ensures forall d :: d in Days(None) <==> 1 <= d <= LastDay
  {
    var r := Days(None);
    forall d | 1 <= d <= LastDay ensures d in r {
      assert r[d - 1] == d;
    }
  }

  /** The current moment, as far as the default year needs it. */
  datatype Date = Date(year: int, month: int)

  /** The event of year `y` has begun by `now`: every event opens in December. */
  predicate EventStarted(y: int, now: Date)
  {
    y < now.year || (y == now.year && now.month == 12)
  }

  /** The year of the batch: the one asked for, or else the latest event
      that has begun (this year's in December, last year's before). */
  function Year(year: Option<int>, now: Date): (r: int)
    ensures year.Some? ==> r == year.value
    ensures year.None? ==> EventStarted(r, now)
    ensures year.None? ==> forall y :: EventStarted(y, now) ==> y <= r
  {
    if year.Some? then year.value
    else
      var yr := now.year;
      if now.month != 12 then yr - 1 else yr
  }
}
