/**
  The purchase date of a car is packed into one C `int` as DDMMYYYY: the day times
  1000000, plus the month times 10000, plus the year. It is unpacked with C's integer
  division and remainder, which truncate toward zero.
 */
module PurchaseDate {
  /** C's `a / b` for a positive divisor: the quotient truncated toward zero. */
  function CDiv(a: int, b: int): int
    requires b > 0
  {
    if a >= 0 then a / b else -((-a) / b)
  }

  /** C's `a % b` for a positive divisor: the remainder takes the sign of `a`. */
  function CMod(a: int, b: int): (r: int)
    requires b > 0
    ensures a == CDiv(a, b) * b + r
    ensures a >= 0 ==> 0 <= r < b
  {
    a - CDiv(a, b) * b
  }

  function Day(d: int): int { CDiv(d, 1000000) }
  function Month(d: int): int { CMod(CDiv(d, 10000), 100) }
  function Year(d: int): int { CMod(d, 10000) }

  /** The packing DDMMYYYY. */
  function Pack(day: int, month: int, year: int): (d: int)
    ensures 0 <= day && 0 <= month < 100 && 0 <= year < 10000 ==> 0 <= d
  {
    day * 1000000 + month * 10000 + year
  }

  /** For a non-negative packed date, the parts come out in their ranges. */
  lemma UnpackRanges(d: int)
    requires d >= 0
    ensures 0 <= Day(d) && 0 <= Month(d) < 100 && 0 <= Year(d) < 10000
  {
  }

  /** Unpacking a non-negative value and packing it again gives the value back. */
  lemma PackUnpackNatural(d: int)
    requires d >= 0
    ensures Pack(Day(d), Month(d), Year(d)) == d
  {
    var q, r := d / 1000000, d % 1000000;
    assert d == q * 1000000 + r && 0 <= r < 1000000;
    var m, y := r / 10000, r % 10000;
    assert r == m * 10000 + y && 0 <= m < 100;
    assert d == (q * 100 + m) * 10000 + y;
    assert CDiv(d, 10000) == q * 100 + m;
    assert Month(d) == m;
    assert Year(d) == y;
  }

  /** Each part of a negative value is the negated part of its magnitude. */
  lemma UnpackNegate(e: int)
    requires e > 0
    ensures Day(-e) == -Day(e) && Month(-e) == -Month(e) && Year(-e) == -Year(e)
  {
    var t := CDiv(e, 10000);
    assert CDiv(-e, 10000) == -t;
    if t > 0 {
      assert CDiv(-t, 100) == -CDiv(t, 100);
    }
  }

  /**
    The re-encoding in process_customer_purchases: decoding a date and packing the parts
    again yields the date it started from, whatever its sign.
   */
  lemma PackUnpack(d: int)
    ensures Pack(Day(d), Month(d), Year(d)) == d
  {
    if d >= 0 {
      PackUnpackNatural(d);
    } else {
      PackUnpackNatural(-d);
      UnpackNegate(-d);
    }
  }

  /** Packing a day, month and year in range and unpacking gives the same three parts. */
  lemma UnpackPack(day: int, month: int, year: int)
    requires 0 <= day && 0 <= month < 100 && 0 <= year < 10000
    ensures Day(Pack(day, month, year)) == day
    ensures Month(Pack(day, month, year)) == month
    ensures Year(Pack(day, month, year)) == year
  {
    var d := Pack(day, month, year);
    var r := month * 10000 + year;
    assert 0 <= r < 1000000;
    assert d == day * 1000000 + r;
    assert CDiv(d, 1000000) == day;
    assert CDiv(d, 10000) == day * 100 + month;
    assert CMod(day * 100 + month, 100) == month;
    assert CMod(d, 10000) == year;
  }
}
