/** Times, broken-down times and time intervals (src/glib/gdatetime.cpp). */
module DateTime {
  import opened Wrappers
  import opened Date

  // ----- broken-down times

  /** The fields of std::tm that are compared: years from 1900 and months from zero. */
  datatype Tm = Tm(year: int, mon: int, mday: int, hour: int, min: int, sec: int)

  predicate Less(a: Tm, b: Tm) {
    if a.year < b.year then true
    else if a.year > b.year then false
    else if a.mon < b.mon then true
    else if a.mon > b.mon then false
    else if a.mday < b.mday then true
    else if a.mday > b.mday then false
    else if a.hour < b.hour then true
    else if a.hour > b.hour then false
    else if a.min < b.min then true
    else if a.min > b.min then false
    else a.sec < b.sec
  }

  predicate SameSecond(a: Tm, b: Tm) {
    a.year == b.year && a.mon == b.mon && a.mday == b.mday && a.hour == b.hour && a.min == b.min && a.sec == b.sec
  }

  // ----- the calendar

  const DAY := 86400

  /** The date some days after the first of January 1970, or before it. */
  function DateOf(n: int): Civil
    decreases if n < 0 then -n else n
  {
    if n == 0 then Civil(1970, 1, 1) else if n > 0 then NextDate(DateOf(n - 1)) else PreviousDate(DateOf(n + 1))
  }

  lemma {:induction false} DateOfNumber(n: int)
    ensures IsDate(DateOf(n)) && DayNumber(DateOf(n)) == DayNumber(Civil(1970, 1, 1)) + n
    decreases if n < 0 then -n else n
  {
    hide NextDate, PreviousDate, DayNumber;
    if n > 0 {
      DateOfNumber(n - 1);
      NextDateNumber(DateOf(n - 1));
    } else if n < 0 {
      DateOfNumber(n + 1);
      PreviousDateNumber(DateOf(n + 1));
    }
  }

  function Gmtime(t: int): Tm {
    var d, s := DateOf(t / DAY), t % DAY;
    Tm(d.year - 1900, d.month - 1, d.day, s / 3600, s % 3600 / 60, s % 60)
  }

  /** The broken-down time is a date of the calendar and a time of day, which together give the seconds. */
  lemma GmtimeMeans(t: int)
    ensures var tm := Gmtime(t); var date := Civil(tm.year + 1900, tm.mon + 1, tm.mday);
      && IsDate(date) && 0 <= tm.hour < 24 && 0 <= tm.min < 60 && 0 <= tm.sec < 60
      && t == 86400 * (DayNumber(date) - DayNumber(Civil(1970, 1, 1))) + 3600 * tm.hour + 60 * tm.min + tm.sec
  {
    hide DateOf, DayNumber, LastDate;
    DateOfNumber(t / DAY);
    Clock(t % DAY);
  }

  lemma ClockInOrder(s: int, r: int)
    requires 0 <= s < r < DAY
    ensures s / 3600 < r / 3600
      || (s / 3600 == r / 3600 && (s % 3600 / 60 < r % 3600 / 60 || (s % 3600 / 60 == r % 3600 / 60 && s % 60 < r % 60)))
  {
    Clock(s);
    Clock(r);
  }

  lemma Clock(s: int)
    ensures s == s / 3600 * 3600 + s % 3600 / 60 * 60 + s % 60
    ensures 0 <= s % 3600 / 60 < 60
  {
    assert s == s / 3600 * 3600 + s % 3600;
    assert s % 3600 == s % 3600 / 60 * 60 + s % 3600 % 60;
    assert s % 3600 % 60 == s % 60 by { Sixties(s); }
  }

  lemma Sixties(s: int)
    ensures s % 3600 % 60 == s % 60
  {
    var h := s / 3600;
    assert s == 60 * (60 * h) + s % 3600;
  }

  /** A later second has a greater broken-down time. */
  lemma GmtimeIncreases(t: int, u: int)
    requires t < u
    ensures Less(Gmtime(t), Gmtime(u))
  {
    hide DateOf, DayNumber, LastDate;
    var n, m := t / DAY, u / DAY;
    DateOfNumber(n);
    DateOfNumber(m);
    if n < m {
      NumbersInOrder(DateOf(n), DateOf(m));
    } else {
      ClockInOrder(t % DAY, u % DAY);
    }
  }

  lemma LessIsOrder(a: Tm, b: Tm, c: Tm)
    ensures !Less(a, a) && (Less(a, b) ==> !Less(b, a))
    ensures Less(a, b) && Less(b, c) ==> Less(a, c)
    ensures !Less(a, b) && !Less(b, a) ==> a == b
  {
  }

  /** So the order of seconds and the order of their broken-down times are the same. */
  lemma GmtimeInOrder(t: int, u: int)
    ensures Less(Gmtime(t), Gmtime(u)) <==> t < u
    ensures Gmtime(t) == Gmtime(u) <==> t == u
  {
    hide Gmtime, Less;
    LessIsOrder(Gmtime(t), Gmtime(u), Gmtime(t));
    if t < u {
      GmtimeIncreases(t, u);
    } else if u < t {
      GmtimeIncreases(u, t);
    }
  }

  // ----- the search

  /** The first second of the window that is not before the target, or the end of it, by trying them all. */
  function Searched(target: Tm, begin: int, end: int): (t: int)
    ensures begin <= t
    decreases end - begin
  {
    if begin >= end || !Less(Gmtime(begin), target) then begin else Searched(target, begin + 1, end)
  }

  lemma {:induction false} SearchedIs(target: Tm, begin: int, end: int, t: int)
    requires begin <= t && (t <= end || t == begin)
    requires forall x :: begin <= x < t ==> Less(Gmtime(x), target)
    requires t < end ==> !Less(Gmtime(t), target)
    ensures Searched(target, begin, end) == t
    decreases t - begin
  {
    hide Gmtime, Less;
    if begin < t {
      SearchedIs(target, begin + 1, end, t);
    }
  }

  /** The binary search, with the same result. */
  method Mktimeutc(target: Tm, begin: int, end: int) returns (t: int)
    ensures t == Searched(target, begin, end)
  {
    hide Gmtime, Less, Searched;
    var count := end - begin;
    t := begin;
    while count > 0
      invariant if begin <= end then begin <= t <= t + count <= end else t == begin && t + count == end
      invariant forall x :: begin <= x < t ==> Less(Gmtime(x), target)
      invariant begin <= t + count < end ==> !Less(Gmtime(t + count), target)
    {
      var i := t;
      var step := count / 2;
      i := i + step;
      var tm := Gmtime(i);
      if Less(tm, target) {
        BeforeIsLess(target, i);
        i := i + 1;
        t := i;
        count := count - (step + 1);
      } else {
        count := step;
      }
    }
    SearchedIs(target, begin, end, t);
  }

  lemma BeforeIsLess(target: Tm, i: int)
    requires Less(Gmtime(i), target)
    ensures forall x :: x <= i ==> Less(Gmtime(x), target)
  {
    hide Gmtime, Less;
    forall x | x <= i ensures Less(Gmtime(x), target) {
      GmtimeInOrder(x, i);
      LessIsOrder(Gmtime(x), Gmtime(i), target);
    }
  }

  /** The search finds the only second with the target's broken-down time, if the window has it. */
  lemma {:induction false} SearchFinds(u: int, begin: int, end: int)
    requires begin <= u <= end
    ensures Searched(Gmtime(u), begin, end) == u
  {
    hide Gmtime, Less;
    forall x | begin <= x <= u ensures Less(Gmtime(x), Gmtime(u)) <==> x < u {
      GmtimeInOrder(x, u);
    }
    SearchedIs(Gmtime(u), begin, end, u);
  }

  /** The result has the target's broken-down time exactly when some second of the window does; otherwise
      the target is not a normal time, or is not in the window. */
  lemma SearchFindsIff(target: Tm, begin: int, end: int)
    requires begin <= end
    ensures var t := Searched(target, begin, end);
      Gmtime(t) == target <==> exists u :: begin <= u <= end && Gmtime(u) == target
  {
    hide Gmtime, Less, Searched;
    SearchedInWindow(target, begin, end);
    if u :| begin <= u <= end && Gmtime(u) == target {
      SearchFinds(u, begin, end);
    }
  }

  lemma {:induction false} SearchedInWindow(target: Tm, begin: int, end: int)
    requires begin <= end
    ensures Searched(target, begin, end) <= end
    decreases end - begin
  {
    hide Gmtime, Less;
    if begin < end {
      SearchedInWindow(target, begin + 1, end);
    }
  }

  // ----- the offset that is remembered

  const WINDOW := 25 * 3600 + 10

  function Max(a: int, b: int): int {
    if a < b then b else a
  }

  /** Without anything remembered; none stands for the timezone error. */
  function EpochBySearch(tm: Tm, t0: int): Option<int>
  {
    var begin, end := Max(WINDOW, t0) - WINDOW, t0 + WINDOW;
    var t := Searched(tm, begin, end);
    if t == begin || t == end then None else Some(t)
  }

  /** With the offset of an earlier call, if any. */
  function Epoch(memo: Option<int>, tm: Tm, t0: int): Option<int>
    requires IsMemo(memo)
  {
    if memo.Some? && SameSecond(Gmtime(t0 + memo.value), tm) then Some(t0 + memo.value) else EpochBySearch(tm, t0)
  }

  /** Any offset that is ever remembered is inside the window. */
  predicate IsMemo(memo: Option<int>) {
    memo.Some? ==> -90010 < memo.value < 90010
  }

  /** What is remembered makes no difference to any answer exactly when the local time is far enough from
      the epoch, or the offset does not reach back to it. */
  lemma MemoMakesNoDifference(offset: int, t0: int)
    requires IsMemo(Some(offset))
    ensures (forall tm :: Epoch(Some(offset), tm, t0) == Epoch(None, tm, t0)) <==> t0 >= 90010 || t0 + offset > 0
  {
    hide Gmtime, Less, Searched;
    var u, begin, end := t0 + offset, Max(WINDOW, t0) - WINDOW, t0 + WINDOW;
    if t0 >= WINDOW || u > 0 {
      SearchFinds(u, begin, end);
    } else {
      SearchedIs(Gmtime(u), begin, end, begin) by { GmtimeInOrder(begin, u); }
      assert Epoch(Some(offset), Gmtime(u), t0) != Epoch(None, Gmtime(u), t0);
    }
  }

  /** For a local time far enough from the epoch, and whatever is remembered, the answer is the second
      with this broken-down time. */
  lemma EpochIsInverse(memo: Option<int>, u: int, t0: int)
    requires t0 >= 90010 && IsMemo(memo) && t0 - 90010 < u < t0 + 90010
    ensures Epoch(memo, Gmtime(u), t0) == Some(u)
  {
    hide Gmtime, Less, Searched;
    SearchFinds(u, t0 - WINDOW, t0 + WINDOW);
    if memo.Some? {
      GmtimeInOrder(t0 + memo.value, u);
    }
  }

  /** A second that is further from the local time than any timezone is an error. */
  lemma EpochIsError(memo: Option<int>, u: int, t0: int)
    requires t0 >= 90010 && IsMemo(memo) && !(t0 - 90010 < u < t0 + 90010)
    ensures Epoch(memo, Gmtime(u), t0) == None
  {
    hide Gmtime, Less, Searched;
    var begin, end := t0 - WINDOW, t0 + WINDOW;
    if memo.Some? {
      GmtimeInOrder(t0 + memo.value, u);
    }
    forall x ensures Less(Gmtime(x), Gmtime(u)) <==> x < u {
      GmtimeInOrder(x, u);
    }
    SearchedIs(Gmtime(u), begin, end, if u <= begin then begin else end);
  }

  /** With nothing remembered a second is found exactly when it is after the epoch and not further from the local
      time than that. */
  lemma EpochWithoutMemo(u: int, t0: int)
    requires t0 > -90010
    ensures Epoch(None, Gmtime(u), t0) == if 0 < u && t0 - 90010 < u < t0 + 90010 then Some(u) else None
  {
    hide Gmtime, Less, Searched;
    var begin, end := Max(WINDOW, t0) - WINDOW, t0 + WINDOW;
    forall x ensures Less(Gmtime(x), Gmtime(u)) <==> x < u {
      GmtimeInOrder(x, u);
    }
    SearchedIs(Gmtime(u), begin, end, if u <= begin then begin else if u < end then u else end);
  }

  /** The memo, which the source keeps in a static variable. */
  class Memo {
    var memo: Option<int>

    constructor ()
      ensures memo == None
    {
      memo := None;
    }

    /** Local time t0 is what mktime() gives for the same broken-down time. */
    method EpochTimeFromUtc(tm: Tm, t0: int) returns (r: Option<int>)
      requires IsMemo(memo)
      modifies this
      ensures IsMemo(memo) && r == Epoch(old(memo), tm, t0)
      ensures memo == if r.Some? then Some(r.value - t0) else old(memo)
    {
      hide Gmtime, Searched;
      if memo.Some? {
        var t := Gmtime(t0 + memo.value);
        if SameSecond(t, tm) {
          return Some(t0 + memo.value);
        }
      }
      var begin := Max(WINDOW, t0) - WINDOW;
      var end := t0 + WINDOW;
      var t := Mktimeutc(tm, begin, end);
      if t == begin || t == end {
        return None;
      }
      if begin <= end {
        SearchedInWindow(tm, begin, end);
      } else {
        SearchedIs(tm, begin, end, begin);
      }
      memo := Some(t - t0);
      r := Some(t);
    }
  }

  // ----- intervals

  const MILLION := 1_000_000
  const LIMIT := 0x1_0000_0000

  /** Seconds and microseconds, of 32 bits without a sign. */
  class TimeInterval {
    var s: int
    var us: int

    /** Before normalise(), which the source's constructor calls and which may throw. */
    constructor (seconds: int, micros: int)
      ensures s == seconds && us == micros
    {
      s, us := seconds, micros;
    }

    /** Microseconds below a million. */
    ghost predicate Valid()
      reads this
    {
      0 <= s < 0x1_0000_0000 && 0 <= us < 1_000_000
    }

    function Micros(): int
      reads this
    {
      s * 1_000_000 + us
    }

    /** Fails if the whole seconds overflow, which leaves the object unusable. */
    method Increase(ds: int) returns (ok: bool)
      requires 0 <= s < LIMIT && 0 <= ds < LIMIT
      modifies this`s
      ensures ok <==> old(s) + ds < 0x1_0000_0000
      ensures s == if ok then old(s) + ds else old(s) + ds - 0x1_0000_0000
    {
      var was := s;
      s := (s + ds) % LIMIT;
      ok := !(s < was);
    }

    method Decrease(ds: int) returns (ok: bool)
      requires 0 <= s < LIMIT && 0 <= ds < LIMIT
      modifies this`s
      ensures ok <==> ds <= old(s)
      ensures s == if ok then old(s) - ds else old(s)
    {
      if s < ds {
        return false;
      }
      s := s - ds;
      ok := true;
    }

    /** Any number of microseconds of 32 bits is brought below a million. */
    method Normalise() returns (ok: bool)
      requires 0 <= s < LIMIT && 0 <= us < LIMIT
      modifies this
      ensures ok <==> old(Micros()) < 0x1_0000_0000 * 1_000_000
      ensures ok ==> Valid() && Micros() == old(Micros())
    {
      if us >= MILLION {
        us := us - MILLION;
        ok := Increase(1);
        if !ok {
          return;
        }
        if us >= MILLION {
          ok := Increase(us / MILLION);
          if !ok {
            return;
          }
          us := us % MILLION;
        }
      }
      ok := true;
    }

    /** The other interval is copied, and may be this one. */
    method Add(other: TimeInterval) returns (ok: bool)
      requires Valid() && other.Valid()
      modifies this
      ensures ok <==> old(Micros() + other.Micros()) < 0x1_0000_0000 * 1_000_000
      ensures ok ==> Valid() && Micros() == old(Micros() + other.Micros())
    {
      var seconds, micros := other.s, other.us;
      us := us + micros;
      if us >= MILLION {
        us := us - MILLION;
        ok := Increase(1);
        if !ok {
          return;
        }
      }
      ok := Increase(seconds);
    }

    method Subtract(other: TimeInterval) returns (ok: bool)
      requires Valid() && other.Valid()
      modifies this
      ensures ok <==> old(Micros()) >= old(other.Micros())
      ensures ok ==> Valid() && Micros() == old(Micros() - other.Micros())
    {
      var seconds, micros := other.s, other.us;
      if us < micros {
        ok := Decrease(1);
        if !ok {
          return;
        }
        us := us + MILLION;
      }
      us := us - micros;
      ok := Decrease(seconds);
    }

    /** The comparison of the two fields is that of the total time. */
    predicate IsLess(other: TimeInterval)
      reads this, other
    {
      s < other.s || (s == other.s && us < other.us)
    }
  }

  lemma IntervalsInOrder(a: TimeInterval, b: TimeInterval)
    requires a.Valid() && b.Valid()
    ensures a.IsLess(b) <==> a.Micros() < b.Micros()
  {
  }
}
