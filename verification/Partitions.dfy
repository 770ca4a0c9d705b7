/** The calendar, and the names that migration '006' of src/db/migrations.ts gives to months. */
module Calendar {
  import Decimal

  // Instants are in milliseconds; a day has 86_400_000, and 28 days have 2_419_200_000.

  /** Months are counted from January 1970. */
  function YearOf(m: nat): nat { 1970 + m / 12 }

  function DaysIn(m: nat): (d: nat)
    ensures 28 <= d <= 31
  {
    var y := YearOf(m);
    if m % 12 == 1 then (if y % 4 == 0 && (y % 100 != 0 || y % 400 == 0) then 29 else 28)
    else if m % 12 in {3, 5, 8, 10} then 30
    else 31
  }

  /** `Date.UTC(year, month, 1)`. */
  function Start(m: nat): nat {
    if m == 0 then 0 else Start(m - 1) + DaysIn(m - 1) * 86_400_000
  }

  predicate IsLeap(y: int) { y % 4 == 0 && (y % 100 != 0 || y % 400 == 0) }

  /** The days of a year before each month, and in all. */
  function DaysBefore(y: nat): (days: seq<nat>)
    ensures |days| == 13
  {
    var l := if IsLeap(y) then 1 else 0;
    [0, 31, 59 + l, 90 + l, 120 + l, 151 + l, 181 + l, 212 + l, 243 + l, 273 + l, 304 + l, 334 + l, 365 + l]
  }

  lemma MonthLength(y: nat, i: nat)
    requires y >= 1970 && i < 12
    ensures DaysIn(12 * (y - 1970) + i) == DaysBefore(y)[i + 1] - DaysBefore(y)[i]
  {
    var m := 12 * (y - 1970) + i;
    assert m / 12 == y - 1970 && m % 12 == i;
  }

  /** The first instant of every month of a year. */
  lemma {:induction false} MonthStart(y: nat, i: nat)
    requires y >= 1970 && i <= 12
    ensures Start(12 * (y - 1970) + i) == Start(12 * (y - 1970)) + DaysBefore(y)[i] * 86_400_000
    decreases i
  {
    if i > 0 {
      MonthStart(y, i - 1);
      MonthLength(y, i - 1);
      NextStart(12 * (y - 1970) + i - 1);
    }
  }

  lemma NextStart(m: nat)
    ensures Start(m + 1) == Start(m) + DaysIn(m) * 86_400_000
  {
  }

  /** The leap years up to a year, by the three rules. */
  function LeapsUpTo(y: nat): int { y / 4 - y / 100 + y / 400 }

  lemma LeapsGrow(y: nat)
    requires y >= 1
    ensures LeapsUpTo(y) == LeapsUpTo(y - 1) + if IsLeap(y) then 1 else 0
  {
    assert y / 4 == (y - 1) / 4 + if y % 4 == 0 then 1 else 0;
    assert y / 100 == (y - 1) / 100 + if y % 100 == 0 then 1 else 0;
    assert y / 400 == (y - 1) / 400 + if y % 400 == 0 then 1 else 0;
  }

  /** The first instant of a year, in closed form. */
  lemma {:induction false} YearStart(y: nat)
    requires y >= 1970
    ensures Start(12 * (y - 1970)) == (365 * (y - 1970) + LeapsUpTo(y - 1) - LeapsUpTo(1969)) * 86_400_000
    decreases y
  {
    if y > 1970 {
      YearStart(y - 1);
      MonthStart(y - 1, 12);
      LeapsGrow(y - 1);
    }
  }

  /** `Date.UTC(2000, 0, 1)` and `Date.UTC(2024, 2, 1)`. */
  lemma KnownDates(y: nat, z: nat)
    requires y == 2000 && z == 2024
    ensures Start(12 * (y - 1970)) == 946_684_800_000
    ensures Start(12 * (z - 1970) + 2) == 1_709_251_200_000
  {
    YearStart(y);
    YearStart(z);
    MonthStart(z, 2);
  }

  lemma {:induction false} StartGrows(m: nat, n: nat)
    requires m < n
    ensures Start(m) + 2_419_200_000 <= Start(n)
    decreases n - m
  {
    assert Start(n) == Start(n - 1) + DaysIn(n - 1) * 86_400_000;
    if m < n - 1 {
      StartGrows(m, n - 1);
    }
  }

  lemma {:induction false} StartsLate(m: nat)
    ensures m <= Start(m)
  {
    if m > 0 {
      StartsLate(m - 1);
    }
  }

  function MonthUpTo(m: nat, t: nat): (r: nat)
    requires t < Start(m + 1)
    ensures Start(r) <= t < Start(r + 1)
  {
    if Start(m) <= t then m else MonthUpTo(m - 1, t)
  }

  /** The month of an instant in UTC. */
  function MonthOf(t: nat): (r: nat)
    ensures Start(r) <= t < Start(r + 1)
  {
    StartsLate(t + 1);
    MonthUpTo(t, t)
  }

  function TwoDigits(n: nat): (s: string)
    requires 1 <= n <= 12
    ensures |s| == 2
  {
    [Decimal.DigitOf(n / 10), Decimal.DigitOf(n % 10)]
  }

  function PartitionName(m: nat): string {
    "audit_trail_y" + Decimal.Digits(YearOf(m)) + "m" + TwoDigits(m % 12 + 1)
  }

  lemma TwoDigitsDiffer(m: nat, n: nat)
    requires 1 <= m <= 12 && 1 <= n <= 12 && TwoDigits(m) == TwoDigits(n)
    ensures m == n
  {
    var s, s' := TwoDigits(m), TwoDigits(n);
    assert s[0] == s'[0] && s[1] == s'[1];
  }

  lemma NameParts(y: string, y': string, d: string, d': string)
    requires |d| == 2 && |d'| == 2
    requires "audit_trail_y" + y + "m" + d == "audit_trail_y" + y' + "m" + d'
    ensures y == y' && d == d'
  {
    var head := "audit_trail_y";
    var a, b := head + y + "m" + d, head + y' + "m" + d';
    assert a[|head|..|a| - 3] == y && b[|head|..|b| - 3] == y';
    assert a[|a| - 2..] == d && b[|b| - 2..] == d';
  }

  /** A name shows the year and the month, which is two digits from 01 to 12. */
  lemma NameShows(m: nat)
    ensures exists y: string, d: string ::
              && Decimal.AllDigits(y) && Decimal.AllDigits(d) && |d| == 2
              && PartitionName(m) == "audit_trail_y" + y + "m" + d
              && Decimal.Value(y) == 1970 + m / 12 && Decimal.Value(d) == m % 12 + 1
  {
    var y, d := Decimal.Digits(YearOf(m)), TwoDigits(m % 12 + 1);
    Decimal.DigitsValue(YearOf(m));
    assert d[..1] == [d[0]] && d[..1][..0] == "";
    assert Decimal.Value(d[..1]) == (m % 12 + 1) / 10;
    assert Decimal.Value(d) == 10 * Decimal.Value(d[..1]) + (m % 12 + 1) % 10;
  }

  /** Different months have different names. */
  lemma NamesDiffer(m: nat, n: nat)
    ensures PartitionName(m) == PartitionName(n) <==> m == n
  {
    if PartitionName(m) == PartitionName(n) {
      var y, y' := YearOf(m), YearOf(n);
      NameParts(Decimal.Digits(y), Decimal.Digits(y'), TwoDigits(m % 12 + 1), TwoDigits(n % 12 + 1));
      Decimal.DigitsValue(y);
      Decimal.DigitsValue(y');
      TwoDigitsDiffer(m % 12 + 1, n % 12 + 1);
    }
  }
}

/** The two loops of migration '006', on any local clock. */
module Partitions {
  import opened Common
  import Calendar

  /** The first instants of the months, the month of an instant in UTC, the names of months, and what the local clock is ahead of UTC. */
  datatype Clock = Clock(start: nat -> nat, month: nat -> nat, name: nat -> string, zone: int -> int)

  predicate Before(m: nat, n: nat) { m < n }

  predicate Instant(t: nat) { t >= 0 }

  /** Months last 28 days at least, no two have one name, and the local clock is less than a day from UTC. */
  ghost predicate Sound(c: Clock) {
    && (forall t: nat {:trigger Instant(t)} :: Instant(t) ==> c.start(c.month(t)) <= t < c.start(c.month(t) + 1))
    && (forall m, n {:trigger Before(m, n)} :: Before(m, n) ==> c.start(m) + 2_419_200_000 <= c.start(n))
    && (forall m, n {:trigger Before(m, n)} :: Before(m, n) ==> c.name(m) != c.name(n))
    && (forall t :: -86_400_000 < c.zone(t) < 86_400_000)
  }

  function ClockIn(zone: int -> int): Clock {
    Clock(Calendar.Start, Calendar.MonthOf, Calendar.PartitionName, zone)
  }

  /** The calendar of `Date` and the migration's names are sound, in every time zone. */
  lemma CalendarIsSound(zone: int -> int)
    requires forall t :: -86_400_000 < zone(t) < 86_400_000
    ensures Sound(ClockIn(zone))
  {
    forall m: nat, n: nat | Before(m, n)
      ensures Calendar.Start(m) + 2_419_200_000 <= Calendar.Start(n) && Calendar.PartitionName(m) != Calendar.PartitionName(n)
    {
      Calendar.StartGrows(m, n);
      Calendar.NamesDiffer(m, n);
    }
  }

  lemma Order(c: Clock, m: nat, n: nat)
    requires Sound(c)
    ensures m < n ==> c.start(m) + 2_419_200_000 <= c.start(n)
    ensures m < n <==> c.start(m) < c.start(n)
    ensures m == n <==> c.name(m) == c.name(n)
  {
    assert Before(m, n) <==> m < n;
    assert Before(n, m) <==> n < m;
  }

  lemma InMonth(c: Clock, t: nat)
    requires Sound(c)
    ensures c.start(c.month(t)) <= t < c.start(c.month(t) + 1)
  {
    assert Instant(t);
  }

  lemma MonthIsUnique(c: Clock, t: nat, m: nat)
    requires Sound(c) && c.start(m) <= t < c.start(m + 1)
    ensures c.month(t) == m
  {
    var r := c.month(t);
    InMonth(c, t);
    Order(c, m, r + 1);
    Order(c, r, m + 1);
  }

  /** `getFullYear()` and `getMonth()`, which read the local clock. */
  function LocalMonth(c: Clock, t: nat): nat
    requires Sound(c)
  {
    if t + c.zone(t) >= 0 then c.month(t + c.zone(t)) else 0
  }

  /** On a clock behind UTC, the first instant of a month is still in the month before. */
  lemma LocalMonthOfStart(c: Clock, m: nat)
    requires Sound(c) && m >= 1
    ensures LocalMonth(c, c.start(m)) == if c.zone(c.start(m)) >= 0 then m else m - 1
  {
    var t := c.start(m);
    var z := c.zone(t);
    Order(c, m - 1, m);
    Order(c, m, m + 1);
    MonthIsUnique(c, t + z, if z >= 0 then m else m - 1);
  }

  // ---------------------------------------------------------------- creating the partitions

  datatype Range = Range(from: nat, until: nat)

  function MonthRange(c: Clock, m: nat): Range { Range(c.start(m), c.start(m + 1)) }

  predicate Overlap(a: Range, b: Range) { a.from < b.until && b.from < a.until }

  lemma RangesApart(c: Clock, m: nat, n: nat)
    requires Sound(c) && m != n
    ensures !Overlap(MonthRange(c, m), MonthRange(c, n))
  {
    Order(c, n, m + 1);
    Order(c, m, n + 1);
  }

  /**
  What the loops make of a month: the month in which its first instant lies on the local clock,
  the name of that month, and the range of the partition.
  */
  datatype Scheme = Scheme(local: nat -> nat, name: nat -> string, range: nat -> Range)

  ghost predicate Describes(p: Scheme, c: Clock)
    requires Sound(c)
  {
    forall m: nat {:trigger Instant(m)} :: Instant(m) ==>
      p.local(m) == LocalMonth(c, c.start(m)) && p.name(m) == c.name(m) && p.range(m) == MonthRange(c, m)
  }

  function SchemeOf(c: Clock): (p: Scheme)
    requires Sound(c)
    ensures Describes(p, c)
  {
    Scheme((m: nat) => LocalMonth(c, c.start(m)), c.name, (m: nat) => MonthRange(c, m))
  }

  lemma At(p: Scheme, c: Clock, m: nat)
    requires Sound(c) && Describes(p, c)
    ensures p.local(m) == LocalMonth(c, c.start(m)) && p.name(m) == c.name(m) && p.range(m) == MonthRange(c, m)
  {
    assert Instant(m);
  }

  /** Ranges of different months do not overlap, their names differ, and the local month is the month or the one before. */
  ghost predicate Proper(p: Scheme) {
    && (forall m, n {:trigger Before(m, n)} :: Before(m, n) ==>
          && p.range(m).from < p.range(n).from && p.name(m) != p.name(n)
          && !Overlap(p.range(m), p.range(n)) && !Overlap(p.range(n), p.range(m)))
    && (forall m: nat {:trigger Instant(m)} :: Instant(m) && m >= 1 ==> p.local(m) == m || p.local(m) == m - 1)
  }

  lemma SchemeIsProper(p: Scheme, c: Clock)
    requires Sound(c) && Describes(p, c)
    ensures Proper(p)
  {
    forall m: nat, n: nat | Before(m, n)
      ensures p.range(m).from < p.range(n).from && p.name(m) != p.name(n)
      ensures !Overlap(p.range(m), p.range(n)) && !Overlap(p.range(n), p.range(m))
    {
      At(p, c, m);
      At(p, c, n);
      Order(c, m, n);
      RangesApart(c, m, n);
      RangesApart(c, n, m);
    }
    forall m: nat | Instant(m) && m >= 1
      ensures p.local(m) == m || p.local(m) == m - 1
    {
      At(p, c, m);
      LocalMonthOfStart(c, m);
    }
  }

  /** The partitions are those of the months of `ms`, each under the name of its local month. */
  ghost predicate IsLabelled(p: Scheme, parts: map<string, Range>, ms: iset<nat>) {
    && (forall m {:trigger p.range(m)} :: m in ms ==> p.name(p.local(m)) in parts && parts[p.name(p.local(m))] == p.range(m))
    && (forall name :: name in parts ==> exists m :: m in ms && name == p.name(p.local(m)))
  }

  lemma MonthIsThere(p: Scheme, parts: map<string, Range>, ms: iset<nat>, m: nat)
    requires IsLabelled(p, parts, ms) && m in ms
    ensures p.name(p.local(m)) in parts && parts[p.name(p.local(m))] == p.range(m)
  {
    var range := p.range(m);
  }

  /** A month of `ms` has the name already. */
  ghost predicate Clashes(p: Scheme, m: nat, ms: iset<nat>) {
    exists k :: k in ms && p.local(k) == p.local(m)
  }

  lemma SameName(p: Scheme, j: nat, k: nat)
    requires Proper(p)
    ensures p.name(j) == p.name(k) <==> j == k
  {
    assert Before(j, k) || Before(k, j) || j == k;
  }

  lemma NameTakenIff(p: Scheme, parts: map<string, Range>, m: nat, ms: iset<nat>)
    requires Proper(p) && IsLabelled(p, parts, ms) && m !in ms
    ensures p.name(p.local(m)) in parts <==> Clashes(p, m, ms)
    ensures forall name :: name in parts ==> !Overlap(parts[name], p.range(m))
  {
    if k :| k in ms && p.local(k) == p.local(m) {
      MonthIsThere(p, parts, ms, k);
    }
    if p.name(p.local(m)) in parts {
      var k :| k in ms && p.name(p.local(m)) == p.name(p.local(k));
      SameName(p, p.local(m), p.local(k));
    }
    forall name | name in parts
      ensures !Overlap(parts[name], p.range(m))
    {
      var k :| k in ms && name == p.name(p.local(k));
      MonthIsThere(p, parts, ms, k);
      assert Before(k, m) || Before(m, k);
    }
  }

  lemma OneMonthMore(p: Scheme, parts: map<string, Range>, m: nat, ms: iset<nat>)
    requires Proper(p) && IsLabelled(p, parts, ms) && m !in ms && !Clashes(p, m, ms)
    ensures IsLabelled(p, parts[p.name(p.local(m)) := p.range(m)], ms + iset{m})
  {
    forall k | k in ms
      ensures p.name(p.local(k)) in parts && parts[p.name(p.local(k))] == p.range(k) && p.name(p.local(k)) != p.name(p.local(m))
    {
      MonthIsThere(p, parts, ms, k);
      SameName(p, p.local(k), p.local(m));
    }
  }

  /** The months from `lo` to before `hi` that are kept. */
  ghost function MonthsWith(kept: nat -> bool, lo: nat, hi: nat): iset<nat> {
    iset m: nat | lo <= m < hi && kept(m)
  }

  /** The clock is not behind UTC at the start of any month from `first` to before `current`. */
  ghost predicate Advances(c: Clock, first: int, current: int) {
    forall m: nat {:trigger c.zone(c.start(m))} :: first <= m < current ==> c.zone(c.start(m)) >= 0
  }

  /**
  Whether month `m` gets its partition when month `n` is the current one: among the five around
  it unless the month before has its name, and in the past unless month `n - 1` has it.
  */
  predicate Kept(p: Scheme, n: nat, m: nat)
    requires n >= 1
  {
    if m >= n then p.local(m) != p.local(m - 1) else m + 2 == n ==> p.local(n - 1) != m
  }

  function KeptAt(p: Scheme, n: nat): nat -> bool
    requires n >= 1
  {
    (m: nat) => Kept(p, n, m)
  }

  /** From `first` to before `n` the local month is the month. */
  ghost predicate LocalFrom(p: Scheme, first: nat, n: int) {
    forall m {:trigger p.local(m)} :: first <= m < n ==> p.local(m) == m
  }

  /** Two months have one local month only when they are neighbours. */
  lemma SharedIff(p: Scheme, k: nat, m: nat)
    requires Proper(p) && 1 <= k < m
    ensures p.local(k) == p.local(m) <==> k == m - 1 && p.local(k) == k && p.local(m) == k
  {
    assert Instant(k) && Instant(m);
  }

  lemma SharedIsKept(p: Scheme, n: nat, m: nat)
    requires Proper(p) && 2 <= n <= m && !Kept(p, n, m)
    ensures Kept(p, n, m - 1)
  {
    SharedIff(p, m - 1, m);
    if m - 1 >= n {
      SharedIff(p, m - 2, m - 1);
    }
  }

  /** Around the current month a name is taken exactly when the month before has it. */
  lemma ClashesAroundIff(p: Scheme, n: nat, m: nat)
    requires Proper(p) && 2 <= n <= m + 1
    ensures TakenIff(p, KeptAt(p, n), m, MonthsWith(KeptAt(p, n), n - 1, m))
  {
    var ms := MonthsWith(KeptAt(p, n), n - 1, m);
    if k :| k in ms && p.local(k) == p.local(m) {
      SharedIff(p, k, m);
      assert !KeptAt(p, n)(m);
    }
    if !Kept(p, n, m) {
      SharedIsKept(p, n, m);
      assert KeptAt(p, n)(m - 1) && m - 1 in ms;
    }
  }

  /** In the past it is taken exactly when month `n - 1` has it. */
  lemma ClashesBeforeIff(p: Scheme, n: nat, first: nat, m: nat)
    requires Proper(p) && 1 <= first <= m && m + 1 < n
    requires LocalFrom(p, first, n - 1)
    ensures TakenIff(p, KeptAt(p, n), m, MonthsWith(KeptAt(p, n), first, m) + MonthsWith(KeptAt(p, n), n - 1, n + 4))
  {
    var before, around := MonthsWith(KeptAt(p, n), first, m), MonthsWith(KeptAt(p, n), n - 1, n + 4);
    if k :| k in before + around && p.local(k) == p.local(m) {
      assert k !in before;
      SharedIff(p, m, k);
    }
    if !Kept(p, n, m) {
      assert KeptAt(p, n)(n - 1) && n - 1 in around;
    }
  }

  /** The month before the current one, or the oldest row's when that is earlier. */
  function Lowest(n: nat, first: Option<nat>): nat
    requires n >= 1
  {
    if first.Some? && first.value < n - 1 then first.value else n - 1
  }

  /** The oldest row's month on the local clock. */
  function FirstOf(c: Clock, oldest: Option<nat>): Option<nat>
    requires Sound(c)
  {
    if oldest.Some? then Some(LocalMonth(c, oldest.value)) else None
  }

  function FirstMonth(c: Clock, now: nat, oldest: Option<nat>): nat
    requires Sound(c) && LocalMonth(c, now) >= 1
  {
    Lowest(LocalMonth(c, now), FirstOf(c, oldest))
  }

  class Catalog {
    var parts: map<string, Range>

    constructor ()
      ensures parts == map[]
    {
      parts := map[];
    }

    /** `CREATE TABLE IF NOT EXISTS`: nothing happens under a known name, and an overlap is an error. */
    method CreateIfNotExists(name: string, range: Range) returns (ok: bool)
      modifies this
      ensures ok <==> name in old(parts) || forall n :: n in old(parts) ==> !Overlap(old(parts)[n], range)
      ensures parts == if ok && name !in old(parts) then old(parts)[name := range] else old(parts)
    {
      if name in parts {
        return true;
      }
      if exists n :: n in parts.Keys && Overlap(parts[n], range) {
        return false;
      }
      parts := parts[name := range];
      return true;
    }

    /** The same, for the partition of a month that is not there yet: it is made exactly when it is kept. */
    method CreateMonth(p: Scheme, m: nat, ghost kept: nat -> bool, ghost ms: iset<nat>, ghost after: iset<nat>) returns (ok: bool)
      requires Proper(p) && IsLabelled(p, parts, ms) && m !in ms && TakenIff(p, kept, m, ms)
      requires after == if kept(m) then ms + iset{m} else ms
      modifies this
      ensures ok && IsLabelled(p, parts, after)
    {
      NameTakenIff(p, parts, m, ms);
      if kept(m) {
        OneMonthMore(p, parts, m, ms);
      }
      ok := CreateIfNotExists(p.name(p.local(m)), p.range(m));
    }

    /** One turn of the loop of step 2. */
    method CreateAroundNext(p: Scheme, n: nat, m: nat) returns (ok: bool)
      requires Proper(p) && 2 <= n <= m + 1
      requires IsLabelled(p, parts, MonthsWith(KeptAt(p, n), n - 1, m))
      modifies this
      ensures ok && IsLabelled(p, parts, MonthsWith(KeptAt(p, n), n - 1, m + 1))
    {
      ghost var kept := KeptAt(p, n);
      ClashesAroundIff(p, n, m);
      NextMonthWith(kept, n - 1, m, iset{});
      ok := CreateMonth(p, m, kept, MonthsWith(kept, n - 1, m), MonthsWith(kept, n - 1, m + 1));
    }

    /** Step 2: the partitions of the previous month, the current one and the next three. */
    method CreateAround(p: Scheme, n: nat) returns (ok: bool)
      requires Proper(p) && n >= 2
      requires parts == map[]
      modifies this
      ensures ok && IsLabelled(p, parts, MonthsWith(KeptAt(p, n), n - 1, n + 4))
    {
      ok := true;
      var i: int := -1;
      while i <= 3
        invariant -1 <= i <= 4 && ok
        invariant IsLabelled(p, parts, MonthsWith(KeptAt(p, n), n - 1, n + i))
      {
        ok := CreateAroundNext(p, n, n + i);
        i := i + 1;
      }
    }

    /** One turn of the loop of step 3; the next month follows the one that the local clock shows. */
    method CreateNext(p: Scheme, first: nat, n: nat, iter: nat) returns (ok: bool, next: nat)
      requires Proper(p) && 1 <= first <= iter && iter + 1 < n
      requires LocalFrom(p, first, n - 1)
      requires IsLabelled(p, parts, MonthsWith(KeptAt(p, n), first, iter) + MonthsWith(KeptAt(p, n), n - 1, n + 4))
      modifies this
      ensures ok && next == iter + 1
      ensures IsLabelled(p, parts, MonthsWith(KeptAt(p, n), first, next) + MonthsWith(KeptAt(p, n), n - 1, n + 4))
    {
      var m := p.local(iter);
      ghost var kept, around := KeptAt(p, n), MonthsWith(KeptAt(p, n), n - 1, n + 4);
      ClashesBeforeIff(p, n, first, m);
      NextMonthWith(kept, first, m, around);
      ok := CreateMonth(p, m, kept, MonthsWith(kept, first, m) + around, MonthsWith(kept, first, m + 1) + around);
      next := m + 1;
    }

    /** Step 3: the partitions from the oldest row's month to the ones that are there. */
    method CreateHistory(p: Scheme, first: nat, n: nat) returns (ok: bool)
      requires Proper(p) && n >= 2 && first >= 1
      requires LocalFrom(p, first, n - 1)
      requires IsLabelled(p, parts, MonthsWith(KeptAt(p, n), n - 1, n + 4))
      modifies this
      ensures ok && IsLabelled(p, parts, MonthsWith(KeptAt(p, n), Lowest(n, Some(first)), n + 4))
    {
      ok := true;
      var iter := first;
      NothingYet(KeptAt(p, n), first, MonthsWith(KeptAt(p, n), n - 1, n + 4));
      var more := Earlier(p, iter, n - 1);
      while more
        invariant more <==> iter < n - 1
        invariant first <= iter && (iter <= n - 1 || iter == first) && ok
        invariant IsLabelled(p, parts, MonthsWith(KeptAt(p, n), first, iter) + MonthsWith(KeptAt(p, n), n - 1, n + 4))
        decreases n - 1 - iter
      {
        ok, iter := CreateNext(p, first, n, iter);
        more := Earlier(p, iter, n - 1);
      }
      MonthsJoin(KeptAt(p, n), first, iter, n);
    }

    /** `iterDate < currentPartStart` */
    method Earlier(p: Scheme, m: nat, n: nat) returns (r: bool)
      requires Proper(p)
      ensures r <==> m < n
    {
      FromOrder(p, m, n);
      return p.range(m).from < p.range(n).from;
    }

    /**
    Both steps, on any clock on which the loop ends (`LoopEndsIff`): no creation fails, and each
    month from the first to the third ahead has its partition unless its name was taken.
    */
    method CreatePartitions(c: Clock, p: Scheme, now: nat, oldest: Option<nat>) returns (ok: bool)
      requires parts == map[]
      requires Sound(c) && Describes(p, c) && now >= c.start(3) && (oldest.Some? ==> oldest.value >= c.start(3))
      requires oldest.Some? ==> Advances(c, LocalMonth(c, oldest.value), LocalMonth(c, now) - 1)
      modifies this
      ensures ok && LocalMonth(c, now) >= 2
      ensures IsLabelled(p, parts, MonthsMade(p, c, now, oldest))
    {
      ReadyForBoth(p, c, now, oldest);
      ok := CreateBoth(p, LocalMonth(c, now), FirstOf(c, oldest));
    }

    method CreateBoth(p: Scheme, n: nat, first: Option<nat>) returns (ok: bool)
      requires Proper(p) && n >= 2 && parts == map[]
      requires first.Some? ==> first.value >= 1 && LocalFrom(p, first.value, n - 1)
      modifies this
      ensures ok && IsLabelled(p, parts, MonthsWith(KeptAt(p, n), Lowest(n, first), n + 4))
    {
      ok := CreateAround(p, n);
      if first.Some? {
        ok := CreateHistory(p, first.value, n);
      }
    }
  }

  /** The name of month `m` is taken by one of `ms` exactly when the month is not kept. */
  ghost predicate TakenIff(p: Scheme, kept: nat -> bool, m: nat, ms: iset<nat>) {
    Clashes(p, m, ms) <==> !kept(m)
  }

  lemma ReadyForBoth(p: Scheme, c: Clock, now: nat, oldest: Option<nat>)
    requires Sound(c) && Describes(p, c) && now >= c.start(3) && (oldest.Some? ==> oldest.value >= c.start(3))
    requires oldest.Some? ==> Advances(c, LocalMonth(c, oldest.value), LocalMonth(c, now) - 1)
    ensures Proper(p) && LocalMonth(c, now) >= 2
    ensures oldest.Some? ==> LocalMonth(c, oldest.value) >= 1 && LocalFrom(p, LocalMonth(c, oldest.value), LocalMonth(c, now) - 1)
  {
    LocalMonthIsLate(c, now);
    SchemeIsProper(p, c);
    if oldest.Some? {
      LocalMonthIsLate(c, oldest.value);
      LocalIsItself(p, c, LocalMonth(c, oldest.value), LocalMonth(c, now) - 1);
    }
  }

  lemma LocalIsItself(p: Scheme, c: Clock, first: nat, n: int)
    requires Sound(c) && Describes(p, c) && first >= 1 && Advances(c, first, n)
    ensures LocalFrom(p, first, n)
  {
    forall m: nat | first <= m < n
      ensures p.local(m) == m
    {
      At(p, c, m);
      LocalMonthOfStart(c, m);
      assert c.zone(c.start(m)) >= 0;
    }
  }

  lemma FromOrder(p: Scheme, m: nat, n: nat)
    requires Proper(p)
    ensures p.range(m).from < p.range(n).from <==> m < n
  {
    assert Before(m, n) <==> m < n;
    assert Before(n, m) <==> n < m;
  }

  lemma NothingYet(kept: nat -> bool, first: nat, around: iset<nat>)
    ensures MonthsWith(kept, first, first) + around == around
  {
  }

  lemma MonthsJoin(kept: nat -> bool, first: nat, iter: nat, n: nat)
    requires n >= 1 && first <= iter && (iter == n - 1 || (iter == first && n - 1 <= iter))
    ensures MonthsWith(kept, first, iter) + MonthsWith(kept, n - 1, n + 4)
            == MonthsWith(kept, Lowest(n, Some(first)), n + 4)
  {
  }

  /** The months that have a partition in the end. */
  ghost function MonthsMade(p: Scheme, c: Clock, now: nat, oldest: Option<nat>): iset<nat>
    requires Sound(c) && LocalMonth(c, now) >= 1
  {
    MonthsWith(KeptAt(p, LocalMonth(c, now)), FirstMonth(c, now, oldest), LocalMonth(c, now) + 4)
  }

  lemma MadeIff(p: Scheme, c: Clock, now: nat, oldest: Option<nat>, m: nat)
    requires Sound(c) && LocalMonth(c, now) >= 1
    ensures m in MonthsMade(p, c, now, oldest)
            <==> FirstMonth(c, now, oldest) <= m < LocalMonth(c, now) + 4 && Kept(p, LocalMonth(c, now), m)
  {
    assert KeptAt(p, LocalMonth(c, now))(m) == Kept(p, LocalMonth(c, now), m);
  }

  lemma NextMonthWith(kept: nat -> bool, lo: nat, m: nat, around: iset<nat>)
    requires lo <= m
    ensures MonthsWith(kept, lo, m + 1) + around
            == if kept(m) then MonthsWith(kept, lo, m) + around + iset{m} else MonthsWith(kept, lo, m) + around
    ensures MonthsWith(kept, lo, m + 1) == if kept(m) then MonthsWith(kept, lo, m) + iset{m} else MonthsWith(kept, lo, m)
  {
  }

  /** The clock is not behind UTC at the start of month `k` if it is not at the start of the month before. */
  ghost predicate StaysAhead(c: Clock, k: nat)
    requires k >= 1
  {
    c.zone(c.start(k - 1)) >= 0 ==> c.zone(c.start(k)) >= 0
  }

  lemma KeptIff(p: Scheme, c: Clock, n: nat, m: nat)
    requires Sound(c) && Describes(p, c) && n >= 2 && m >= 1
    ensures m >= n ==> (Kept(p, n, m) <==> StaysAhead(c, m))
    ensures m + 2 == n ==> (Kept(p, n, m) <==> c.zone(c.start(n - 1)) >= 0)
    ensures m == n - 1 || m + 2 < n ==> Kept(p, n, m)
  {
    if m >= n {
      At(p, c, m - 1);
      At(p, c, m);
      LocalMonthOfStart(c, m - 1);
      LocalMonthOfStart(c, m);
    }
    At(p, c, n - 1);
    LocalMonthOfStart(c, n - 1);
  }

  /**
  Every month has its partition exactly when the clock does not fall behind UTC from one month
  to the next, and is not behind at the start of the first of the five when the past adjoins it.
  */
  lemma AllMonthsMadeIff(p: Scheme, c: Clock, n: nat, lo: nat)
    requires Sound(c) && Describes(p, c) && n >= 2 && 1 <= lo < n
    ensures (forall m {:trigger Kept(p, n, m)} :: lo <= m < n + 4 ==> Kept(p, n, m))
            <==> (forall k {:trigger StaysAhead(c, k)} :: n <= k < n + 4 ==> StaysAhead(c, k))
                 && (lo < n - 1 ==> c.zone(c.start(n - 1)) >= 0)
  {
    forall m | lo <= m < n + 4
      ensures m >= n ==> (Kept(p, n, m) <==> StaysAhead(c, m))
      ensures m + 2 == n ==> (Kept(p, n, m) <==> c.zone(c.start(n - 1)) >= 0)
      ensures m == n - 1 || m + 2 < n ==> Kept(p, n, m)
    {
      KeptIff(p, c, n, m);
    }
    assert lo < n - 1 ==> (Kept(p, n, n - 2) <==> c.zone(c.start(n - 1)) >= 0);
  }

  lemma MonthAtLeast(c: Clock, m: nat, t: nat)
    requires Sound(c) && c.start(m) <= t
    ensures c.month(t) >= m
  {
    InMonth(c, t);
    Order(c, c.month(t) + 1, m);
  }

  lemma LocalMonthIsLate(c: Clock, t: nat)
    requires Sound(c) && t >= c.start(3)
    ensures t + c.zone(t) >= 0 && LocalMonth(c, t) >= 2
  {
    Order(c, 2, 3);
    MonthAtLeast(c, 2, t + c.zone(t));
  }

  // ---------------------------------------------------------------- when the loop ends

  /** The month that the loop stands at after `k` turns. */
  function IterAfter(c: Clock, m: nat, k: nat): nat
    requires Sound(c)
    decreases k
  {
    if k == 0 then m else LocalMonth(c, c.start(IterAfter(c, m, k - 1))) + 1
  }

  lemma {:induction false} LoopAdvances(c: Clock, first: nat, k: nat)
    requires Sound(c) && 1 <= first && Advances(c, first, first + k)
    ensures IterAfter(c, first, k) == first + k
    decreases k
  {
    if k > 0 {
      LoopAdvances(c, first, k - 1);
      LocalMonthOfStart(c, first + k - 1);
    }
  }

  /** The first month at which the clock is behind UTC. */
  lemma {:induction false} FirstBehind(c: Clock, first: nat, current: int) returns (b: nat)
    requires !Advances(c, first, current)
    ensures first <= b < current && c.zone(c.start(b)) < 0 && Advances(c, first, b)
    decreases current - first
  {
    if c.zone(c.start(first)) < 0 {
      b := first;
    } else {
      b := FirstBehind(c, first + 1, current);
    }
  }

  lemma LoopNeverPasses(c: Clock, first: nat, b: nat, k: nat)
    requires Sound(c) && 1 <= first <= b && Advances(c, first, b) && c.zone(c.start(b)) < 0
    ensures IterAfter(c, first, k) <= b
  {
    if first + k <= b {
      LoopAdvances(c, first, k);
    } else {
      LoopStuck(c, first, b, k - (b - first));
    }
  }

  /** At a month whose first instant is still in the month before on the local clock, the loop stays for good. */
  lemma {:induction false} LoopStuck(c: Clock, first: nat, b: nat, extra: nat)
    requires Sound(c) && 1 <= first <= b && Advances(c, first, b) && c.zone(c.start(b)) < 0
    ensures IterAfter(c, first, b - first + extra) == b
    decreases extra
  {
    if extra == 0 {
      LoopAdvances(c, first, b - first);
    } else {
      LoopStuck(c, first, b, extra - 1);
      LocalMonthOfStart(c, b);
    }
  }

  /** The loop ends exactly when the clock is not behind UTC at the start of any month it has to pass. */
  lemma LoopEndsIff(c: Clock, first: nat, current: nat)
    requires Sound(c) && first >= 1
    ensures (exists k: nat :: IterAfter(c, first, k) >= current) <==> Advances(c, first, current)
  {
    if Advances(c, first, current) {
      var k := if first <= current then current - first else 0;
      LoopAdvances(c, first, k);
      assert IterAfter(c, first, k) >= current;
    } else {
      var b := FirstBehind(c, first, current);
      forall k: nat
        ensures IterAfter(c, first, k) < current
      {
        LoopNeverPasses(c, first, b, k);
      }
    }
  }

  // ---------------------------------------------------------------- what the partitions cover

  /** Some partition holds the instant. */
  ghost predicate Covered(parts: map<string, Range>, t: nat) {
    exists name :: name in parts && parts[name].from <= t < parts[name].until
  }

  /** No two partitions overlap, and together they hold the instants of the months that have one and no others. */
  lemma PartitionsHold(p: Scheme, c: Clock, parts: map<string, Range>, ms: iset<nat>)
    requires Sound(c) && Describes(p, c) && IsLabelled(p, parts, ms)
    ensures forall a, b :: a in parts && b in parts && a != b ==> !Overlap(parts[a], parts[b])
    ensures forall t: nat :: Covered(parts, t) <==> c.month(t) in ms
  {
    forall a, b | a in parts && b in parts && a != b
      ensures !Overlap(parts[a], parts[b])
    {
      SchemeIsProper(p, c);
      PartsApart(p, parts, ms, a, b);
    }
    forall t: nat
      ensures Covered(parts, t) <==> c.month(t) in ms
    {
      SchemeIsProper(p, c);
      InMonth(c, t);
      At(p, c, c.month(t));
      CoveredIff(p, parts, ms, t, c.month(t));
    }
  }

  lemma PartsApart(p: Scheme, parts: map<string, Range>, ms: iset<nat>, a: string, b: string)
    requires Proper(p) && IsLabelled(p, parts, ms) && a in parts && b in parts && a != b
    ensures !Overlap(parts[a], parts[b])
  {
    var m :| m in ms && a == p.name(p.local(m));
    var n :| n in ms && b == p.name(p.local(n));
    MonthIsThere(p, parts, ms, m);
    MonthIsThere(p, parts, ms, n);
    assert Before(m, n) || Before(n, m);
  }

  lemma CoveredIff(p: Scheme, parts: map<string, Range>, ms: iset<nat>, t: nat, r: nat)
    requires Proper(p) && IsLabelled(p, parts, ms) && p.range(r).from <= t < p.range(r).until
    ensures Covered(parts, t) <==> r in ms
  {
    if r in ms {
      MonthIsThere(p, parts, ms, r);
    }
    if Covered(parts, t) {
      var name :| name in parts && parts[name].from <= t < parts[name].until;
      var m :| m in ms && name == p.name(p.local(m));
      MonthIsThere(p, parts, ms, m);
      assert Before(m, r) || Before(r, m) || m == r;
    }
  }

  /** On a clock at UTC, the loop ends and every instant from the oldest row to the end of the third month ahead is in a month with a partition. */
  lemma UtcCoversAll(p: Scheme, c: Clock, now: nat, oldest: nat)
    requires Sound(c) && Describes(p, c) && (forall t :: c.zone(t) == 0) && now >= c.start(3)
    ensures LocalMonth(c, now) >= 1
    ensures forall first, current :: Advances(c, first, current)
    ensures forall t {:trigger c.month(t)} :: oldest <= t < c.start(c.month(now) + 4) ==> c.month(t) in MonthsMade(p, c, now, Some(oldest))
  {
    LocalMonthIsLate(c, now);
    forall t: nat | oldest <= t < c.start(c.month(now) + 4)
      ensures c.month(t) in MonthsMade(p, c, now, Some(oldest))
    {
      UtcMonthMade(p, c, now, oldest, t);
    }
  }

  lemma UtcMonthMade(p: Scheme, c: Clock, now: nat, oldest: nat, t: nat)
    requires Sound(c) && Describes(p, c) && (forall t :: c.zone(t) == 0) && LocalMonth(c, now) >= 2
    requires oldest <= t < c.start(c.month(now) + 4)
    ensures c.month(t) in MonthsMade(p, c, now, Some(oldest))
  {
    NeverBehindMade(p, c, now, oldest, c.month(t));
    InMonth(c, oldest);
    MonthAtLeast(c, c.month(oldest), t);
    InMonth(c, t);
    Order(c, c.month(t), c.month(now) + 4);
    assert LocalMonth(c, now) == c.month(now) && LocalMonth(c, oldest) == c.month(oldest);
  }

  lemma NeverBehindKeeps(p: Scheme, c: Clock, n: nat, m: nat)
    requires Sound(c) && Describes(p, c) && n >= 2 && forall t :: c.zone(t) >= 0
    ensures Kept(p, n, m)
  {
    if m >= 1 {
      KeptIff(p, c, n, m);
    } else {
      At(p, c, n - 1);
      LocalMonthOfStart(c, n - 1);
    }
  }

  /**
  On a clock that is never behind UTC, a past row is in a month with a partition unless its local
  month is later than its month and the partitions begin only there.
  */
  lemma OldestCoveredIff(p: Scheme, c: Clock, now: nat, oldest: nat)
    requires Sound(c) && Describes(p, c) && c.start(3) <= oldest <= now && (forall t :: c.zone(t) >= 0) && LocalMonth(c, now) >= 2
    ensures c.month(oldest) in MonthsMade(p, c, now, Some(oldest))
            <==> LocalMonth(c, oldest) <= c.month(oldest) || LocalMonth(c, now) - 1 <= c.month(oldest)
  {
    NeverBehindMade(p, c, now, oldest, c.month(oldest));
    PastIsEarly(c, now, oldest);
  }

  lemma NeverBehindMade(p: Scheme, c: Clock, now: nat, oldest: nat, m: nat)
    requires Sound(c) && Describes(p, c) && (forall t :: c.zone(t) >= 0) && LocalMonth(c, now) >= 2
    ensures m in MonthsMade(p, c, now, Some(oldest)) <==> FirstMonth(c, now, Some(oldest)) <= m < LocalMonth(c, now) + 4
  {
    NeverBehindKeeps(p, c, LocalMonth(c, now), m);
    MadeIff(p, c, now, Some(oldest), m);
  }

  lemma PastIsEarly(c: Clock, now: nat, oldest: nat)
    requires Sound(c) && oldest <= now && c.zone(now) >= 0
    ensures c.month(oldest) <= LocalMonth(c, now)
  {
    InMonth(c, oldest);
    MonthAtLeast(c, c.month(oldest), now + c.zone(now));
  }

  /** The five names are distinct unless the clock falls behind UTC between two of their months. */
  lemma NamesDistinctIff(c: Clock, n: nat)
    requires Sound(c) && n >= 2
    ensures (forall j, k :: n - 1 <= j < k <= n + 3 ==> c.name(LocalMonth(c, c.start(j))) != c.name(LocalMonth(c, c.start(k))))
            <==> forall j, k :: n - 1 <= j < n + 3 && k == j + 1 && c.zone(c.start(j)) >= 0 ==> c.zone(c.start(k)) >= 0
  {
    forall j: nat, k: nat | n - 1 <= j < k <= n + 3
      ensures c.name(LocalMonth(c, c.start(j))) == c.name(LocalMonth(c, c.start(k)))
              <==> k == j + 1 && c.zone(c.start(j)) >= 0 && c.zone(c.start(k)) < 0
    {
      SameNameIff(c, j, k);
    }
  }

  lemma SameNameIff(c: Clock, j: nat, k: nat)
    requires Sound(c) && 1 <= j < k
    ensures c.name(LocalMonth(c, c.start(j))) == c.name(LocalMonth(c, c.start(k)))
            <==> k == j + 1 && c.zone(c.start(j)) >= 0 && c.zone(c.start(k)) < 0
  {
    LocalMonthOfStart(c, j);
    LocalMonthOfStart(c, k);
    Order(c, LocalMonth(c, c.start(j)), LocalMonth(c, c.start(k)));
  }
}
