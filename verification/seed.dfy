/** The rows the database is seeded with on first run: three customers,
    three products, one order for each pair with the same number, and three
    activities under fixed well-known Guids. */
module Seed {
  import opened Wrappers
  import opened Entities

  const TicksPerDay: int := 864_000_000_000

  predicate IsLeapYear(year: int) {
    year % 4 == 0 && (year % 100 != 0 || year % 400 == 0)
  }

  function DaysInMonth(year: int, month: int): int
    requires 1 <= month <= 12
  {
    if month == 2 then (if IsLeapYear(year) then 29 else 28)
    else if month in {4, 6, 9, 11} then 30
    else 31
  }

  /** Days of the year that precede the first of `month`. */
  function DaysBeforeMonth(year: int, month: int): nat
    requires 1 <= month <= 12
  {
    if month == 1 then 0 else DaysBeforeMonth(year, month - 1) + DaysInMonth(year, month - 1)
  }

  /** `new DateTime(year, month, day)` in ticks of the proleptic Gregorian
      calendar. */
  function CalendarDate(year: int, month: int, day: int): (t: DateTime)
    requires 1 <= year <= 9999 && 1 <= month <= 12 && 1 <= day <= DaysInMonth(year, month)
    ensures t >= 0 && t % TicksPerDay == 0
  {
    var y := year - 1;
    (y * 365 + y / 4 - y / 100 + y / 400 + DaysBeforeMonth(year, month) + day - 1) * TicksPerDay
  }

  /** The calendar starts at tick 0 and every day is one day of ticks after
      the one before it, across month and year ends; together these fix
      the tick count of every date. */
  lemma CalendarDateEpoch()
    ensures CalendarDate(1, 1, 1) == 0
  {
  }

  lemma CalendarNextDay(year: int, month: int, day: int)
    requires 1 <= year <= 9999 && 1 <= month <= 12 && 1 <= day < DaysInMonth(year, month)
    ensures CalendarDate(year, month, day + 1) == CalendarDate(year, month, day) + TicksPerDay
  {
  }

  lemma CalendarNextMonth(year: int, month: int)
    requires 1 <= year <= 9999 && 1 <= month < 12
    ensures CalendarDate(year, month + 1, 1) ==
      CalendarDate(year, month, DaysInMonth(year, month)) + TicksPerDay
  {
  }

  /** The days of a year add up to 365, or 366 in a leap year. */
  lemma DaysInYear(year: int)
    ensures DaysBeforeMonth(year, 12) + DaysInMonth(year, 12) == if IsLeapYear(year) then 366 else 365
  {
    var feb := DaysInMonth(year, 2);
    assert DaysBeforeMonth(year, 2) == 31;
    assert DaysBeforeMonth(year, 3) == 31 + feb;
    assert DaysBeforeMonth(year, 4) == 62 + feb;
    assert DaysBeforeMonth(year, 5) == 92 + feb;
    assert DaysBeforeMonth(year, 6) == 123 + feb;
    assert DaysBeforeMonth(year, 7) == 153 + feb;
    assert DaysBeforeMonth(year, 8) == 184 + feb;
    assert DaysBeforeMonth(year, 9) == 215 + feb;
    assert DaysBeforeMonth(year, 10) == 245 + feb;
    assert DaysBeforeMonth(year, 11) == 276 + feb;
    assert DaysBeforeMonth(year, 12) == 306 + feb;
  }

  lemma CalendarNextYear(year: int)
    requires 1 <= year < 9999
    ensures CalendarDate(year + 1, 1, 1) == CalendarDate(year, 12, 31) + TicksPerDay
  {
    DaysInYear(year);
    var y := year - 1;
    LeapDays(y);
  }

  /** Going from year `y` to `y + 1` adds one to the leap-day count exactly
      when year `y + 1` is a leap year. */
  lemma LeapDays(y: int)
    requires y >= 0
    ensures ((y + 1) / 4 - (y + 1) / 100 + (y + 1) / 400) - (y / 4 - y / 100 + y / 400)
      == if IsLeapYear(y + 1) then 1 else 0
  {
    DivStep(y, 4);
    DivStep(y, 100);
    DivStep(y, 400);
  }

  /** `(y + 1) / d` exceeds `y / d` by one exactly when `d` divides `y + 1`. */
  lemma DivStep(y: int, d: int)
    requires y >= 0 && d > 0
    ensures (y + 1) / d == y / d + (if (y + 1) % d == 0 then 1 else 0)
  {
    var q, r := y / d, y % d;
    if r + 1 < d {
      DivUnique(y + 1, d, q, r + 1);
    } else {
      assert y + 1 == (q + 1) * d;
      DivUnique(y + 1, d, q + 1, 0);
    }
  }

  /** Euclidean division has one quotient and one remainder. */
  lemma DivUnique(x: int, d: int, q: int, r: int)
    requires d > 0 && 0 <= r < d && x == q * d + r
    ensures x / d == q && x % d == r
  {
    var q', r' := x / d, x % d;
    assert q * d - q' * d == (q - q') * d;
    assert (q - q') * d == r' - r;
    if q > q' {
      MulAtLeast(q - q', d);
    } else if q < q' {
      assert (q' - q) * d == r - r';
      MulAtLeast(q' - q, d);
    }
  }

  /** A positive multiple of `d` is at least `d`. */
  lemma {:induction false} MulAtLeast(a: int, d: int)
    requires a >= 1 && d > 0
    ensures a * d >= d
  {
    if a > 1 {
      MulAtLeast(a - 1, d);
      assert a * d == (a - 1) * d + d;
    }
  }

  /** The Guid written `11111111-1111-1111-1111-111111111111`, and so on. */
  const Guid1: Guid := 0x1111_1111_1111_1111_1111_1111_1111_1111
  const Guid2: Guid := 0x2222_2222_2222_2222_2222_2222_2222_2222
  const Guid3: Guid := 0x3333_3333_3333_3333_3333_3333_3333_3333

  function SeedCustomers(): CustomerTable {
    map[
      1 := Customer(1, Some("John"), Some("Doe"), Some("1234567890"), Some("john@example.com")),
      2 := Customer(2, Some("Jane"), Some("Smith"), Some("9876543210"), Some("jane@example.com")),
      3 := Customer(3, Some("Mike"), Some("Johnson"), Some("5551234567"), Some("mike@example.com"))]
  }

  function SeedProducts(): ProductTable {
    map[
      1 := Product(1, Some("Product A"), Some("Description for Product A"), Some("SKU-001")),
      2 := Product(2, Some("Product B"), Some("Description for Product B"), Some("SKU-002")),
      3 := Product(3, Some("Product C"), Some("Description for Product C"), Some("SKU-003"))]
  }

  /** The three orders. The seed reads the clock once per date, six times
      in all; the single reading `now` stands for all six. */
  function SeedOrders(now: DateTime): OrderTable {
    [ Order(1, 1, 1, Some("Pending"), now, now),
      Order(2, 2, 2, Some("Shipped"), now, now),
      Order(3, 3, 3, Some("Delivered"), now, now)]
  }

  function SeedActivities(): ActivityTable {
    var jan1 := CalendarDate(2024, 1, 1);
    var jan3 := CalendarDate(2024, 1, 3);
    var feb1 := CalendarDate(2024, 2, 1);
    var mar1 := CalendarDate(2024, 3, 1);
    map[
      Guid1 := Activity(Guid1, Some("Welcome Email"), Some("noreply@company.com"),
                        Some("john@example.com"), Some("Company Team"),
                        jan1, None, Some(jan3), Some(jan1)),
      Guid2 := Activity(Guid2, Some("Product Update"), Some("updates@company.com"),
                        Some("jane@example.com"), Some("Product Team"),
                        feb1, None, Some(feb1), Some(feb1)),
      Guid3 := Activity(Guid3, Some("Newsletter"), Some("news@company.com"),
                        Some("mike@example.com"), Some("Marketing Team"),
                        mar1, Some(mar1), None, Some(mar1))]
  }

  /** The seeded database. */
  function Initial(now: DateTime): (db: Db)
    ensures ReferencesResolve(db)
    ensures |db.customers| == |db.products| == |db.orders| == |db.activities| == 3
  {
    var db := Db(SeedCustomers(), SeedProducts(), SeedOrders(now), SeedActivities());
    assert db.customers.Keys == {1, 2, 3};
    assert db.products.Keys == {1, 2, 3};
    assert db.activities.Keys == {Guid1, Guid2, Guid3};
    db
  }

  /** The first seeded activity was created at midnight on 1 January 2024,
      tick 638396640000000000, and the three seed activities were created a
      month apart in that order. */
  lemma SeedActivityDates()
    ensures CalendarDate(2024, 1, 1) == 638_396_640_000_000_000
    ensures CalendarDate(2024, 1, 1) < CalendarDate(2024, 2, 1) < CalendarDate(2024, 3, 1)
    ensures CalendarDate(2024, 3, 1) - CalendarDate(2024, 2, 1) == 29 * TicksPerDay
  {
  }
}
