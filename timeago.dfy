/** `getTimeAgo(timestamp)`: how long ago a referring page was visited, as
    shown in the sidebar. The clock reading is a parameter, and the result is
    the bucket itself rather than its text. */
module TimeAgo {
  import opened IntArith

  /** "just now", "Nm ago", "Nh ago", "Nd ago", or the locale date string of
      the timestamp (kept opaque). */
  datatype Ago = JustNow | Minutes(n: int) | Hours(n: int) | Days(n: int) | Absolute(timestamp: int)

  /** Whole seconds elapsed, `Math.floor((now - timestamp) / 1000)`. Dafny's
      division by a positive divisor already rounds toward negative infinity. */
  function ElapsedSeconds(timestamp: int, now: int): int
  {
    (now - timestamp) / 1000
  }

  function GetTimeAgo(timestamp: int, now: int): (r: Ago)
    ensures var s := ElapsedSeconds(timestamp, now);
      && (r == JustNow <==> s < 60)
      && (r.Minutes? <==> 60 <= s < 3600)
      && (r.Hours? <==> 3600 <= s < 86400)
      && (r.Days? <==> 86400 <= s < 604800)
      && (r.Absolute? <==> 604800 <= s)
    ensures var s := ElapsedSeconds(timestamp, now);
      && (r.Minutes? ==> r.n == s / 60 && 1 <= r.n <= 59)
      && (r.Hours? ==> r.n == s / 3600 && 1 <= r.n <= 23)
      && (r.Days? ==> r.n == s / 86400 && 1 <= r.n <= 6)
      && (r.Absolute? ==> r.timestamp == timestamp)
  {
    var seconds := ElapsedSeconds(timestamp, now);
    if seconds < 60 then JustNow
    else if seconds < 3600 then Minutes(seconds / 60)
    else if seconds < 86400 then Hours(seconds / 3600)
    else if seconds < 604800 then Days(seconds / 86400)
    else Absolute(timestamp)
  }

  /** Buckets from most recent to oldest. */
  function Rank(a: Ago): nat
  {
    match a
    case JustNow => 0
    case Minutes(_) => 1
    case Hours(_) => 2
    case Days(_) => 3
    case Absolute(_) => 4
  }

  /** A later visit never shows as longer ago than an earlier one: its bucket
      is no older, and within the same relative bucket its count is no
      larger. */
  lemma NewerIsNotOlder(earlier: int, later: int, now: int)
    requires earlier <= later
    ensures Rank(GetTimeAgo(later, now)) <= Rank(GetTimeAgo(earlier, now))
    ensures var a, b := GetTimeAgo(later, now), GetTimeAgo(earlier, now);
      Rank(a) == Rank(b) && (a.Minutes? || a.Hours? || a.Days?) ==> a.n <= b.n
  {
    var sl, se := ElapsedSeconds(later, now), ElapsedSeconds(earlier, now);
    DivMonotone(now - later, now - earlier, 1000);
    assert sl <= se;
    DivMonotone(sl, se, 60);
    DivMonotone(sl, se, 3600);
    DivMonotone(sl, se, 86400);
  }
}
