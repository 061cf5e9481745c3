/** RapidJSON's integer printing: pairs of digits from a table, groups of eight digits at a time,
    no leading zeros. */
module Itoa {
  import opened Common
  import opened Decimal
  import opened JsonText

  /** The digit at index `i` of the table "00", "01", ..., "99". */
  function Lut(i: nat): char
    requires i < 200
  {
    DigitChar(if i % 2 == 0 then i / 20 else i / 2 % 10)
  }

  /** The two digits of `d`. */
  function Two(d: nat): string
    requires d < 100
  {
    [Lut(2 * d), Lut(2 * d + 1)]
  }

  function Four(d: nat): string
    requires d < 10000
  {
    Two(d / 100) + Two(d % 100)
  }

  function Eight(d: nat): string
    requires d < 100000000
  {
    Four(d / 10000) + Four(d % 10000)
  }

  lemma PrintTwo(a: nat, d: nat)
    requires d < 100
    ensures a > 0 ==> Print(100 * a + d) == Print(a) + Two(d)
    ensures a == 0 && d >= 10 ==> Print(d) == Two(d)
    ensures a == 0 && d < 10 ==> Print(d) == [Lut(2 * d + 1)]
  {
    var n := 100 * a + d;
    assert n / 10 == 10 * a + d / 10 && n % 10 == d % 10;
    assert n / 10 / 10 == a && n / 10 % 10 == d / 10;
    assert 2 * d / 20 == d / 10;
  }

  lemma PrintFour(a: nat, d: nat)
    requires a > 0 && d < 10000
    ensures Print(10000 * a + d) == Print(a) + Four(d)
  {
    PrintTwo(a, d / 100);
    PrintTwo(100 * a + d / 100, d % 100);
    assert 100 * (100 * a + d / 100) + d % 100 == 10000 * a + d;
    Assoc(Print(a), Two(d / 100), Two(d % 100));
  }

  lemma PrintEight(a: nat, d: nat)
    requires a > 0 && d < 100000000
    ensures Print(100000000 * a + d) == Print(a) + Eight(d)
  {
    PrintFour(a, d / 10000);
    PrintFour(10000 * a + d / 10000, d % 10000);
    assert 10000 * (10000 * a + d / 10000) + d % 10000 == 100000000 * a + d;
    Assoc(Print(a), Four(d / 10000), Four(d % 10000));
  }

  /** The numeral of a number below 10000, by its length. */
  lemma PrintUpto4(v: nat)
    requires v < 10000
    ensures v < 10 ==> Print(v) == [Lut(v % 100 * 2 + 1)]
    ensures 10 <= v < 100 ==> Print(v) == [Lut(v % 100 * 2), Lut(v % 100 * 2 + 1)]
    ensures 100 <= v < 1000 ==> Print(v) == [Lut(v / 100 * 2 + 1), Lut(v % 100 * 2), Lut(v % 100 * 2 + 1)]
    ensures v >= 1000 ==> Print(v) == [Lut(v / 100 * 2), Lut(v / 100 * 2 + 1), Lut(v % 100 * 2), Lut(v % 100 * 2 + 1)]
  {
    hide Print, Lut;
    PrintTwo(0, v / 100);
    PrintTwo(v / 100, v % 100);
  }

  /** A number below 10000 without leading zeros: the digits are switched on one by one. */
  method Upto4(v: nat) returns (w: string)
    requires v < 10000
    ensures w == Print(v)
  {
    hide Print, Lut;
    PrintUpto4(v);
    var d1, d2 := v / 100 * 2, v % 100 * 2;
    w := "";
    if v >= 1000 { w := w + [Lut(d1)]; }
    if v >= 100 { w := w + [Lut(d1 + 1)]; }
    if v >= 10 { w := w + [Lut(d2)]; }
    w := w + [Lut(d2 + 1)];
  }

  /** A number below 10^8: the leading four digits without, the others with their zeros. */
  method Upto8(v: nat) returns (w: string)
    requires v < 100000000
    ensures w == Print(v)
  {
    if v < 10000 {
      w := Upto4(v);
    } else {
      var b, c := v / 10000, v % 10000;
      w := Upto4(b);
      w := w + Four(c);
      PrintFour(b, c);
    }
  }

  /** u32toa. */
  method U32ToA(value: nat) returns (w: string)
    requires value < 0x1_0000_0000
    ensures w == Print(value)
  {
    if value < 100000000 {
      w := Upto8(value);
    } else {
      var a := value / 100000000;
      if a >= 10 {
        w := [Lut(2 * a), Lut(2 * a + 1)];
      } else {
        w := [DigitChar(a)];
      }
      PrintTwo(0, a);
      PrintEight(a, value % 100000000);
      w := w + Eight(value % 100000000);
    }
  }

  /** The digits above 10^16, of which there are at most four. */
  method Above16(a: nat) returns (w: string)
    requires 0 < a < 10000
    ensures w == Print(a)
  {
    hide Print, Lut;
    PrintTwo(0, a / 100);
    PrintTwo(a / 100, a % 100);
    if a < 10 {
      w := [DigitChar(a)];
      OneDigit(a);
    } else if a < 100 {
      w := Two(a);
    } else if a < 1000 {
      w := [DigitChar(a / 100)] + Two(a % 100);
      OneDigit(a / 100);
    } else {
      w := Two(a / 100) + Two(a % 100);
    }
  }

  lemma OneDigit(d: nat)
    requires d < 10
    ensures Print(d) == [DigitChar(d)]
  {
  }

  /** u64toa. */
  method U64ToA(value: nat) returns (w: string)
    requires value < 0x1_0000_0000_0000_0000
    ensures w == Print(value)
  {
    hide Print, Eight;
    if value < 100000000 {
      w := Upto8(value);
    } else if value < 10000000000000000 {
      w := Upto8(value / 100000000);
      w := w + Eight(value % 100000000);
      PrintEight(value / 100000000, value % 100000000);
    } else {
      var a, rest := value / 10000000000000000, value % 10000000000000000;
      var v0, v1 := rest / 100000000, rest % 100000000;
      w := Above16(a);
      PrintEight(a, v0);
      PrintEight(100000000 * a + v0, v1);
      assert 100000000 * (100000000 * a + v0) + v1 == value;
      w := w + Eight(v0) + Eight(v1);
    }
  }

  /** i32toa, u32toa, i64toa and u64toa, as Accept chooses among the integer types. The negation
      is that of an unsigned number of 32 or 64 bits. */
  method ToText(n: int) returns (w: string)
    requires -0x8000_0000_0000_0000 <= n < 0x1_0000_0000_0000_0000
    ensures w == NumberText(n)
  {
    hide Decimal.Print;
    if -0x8000_0000 <= n < 0x1_0000_0000 {
      if n < 0 {
        var u := (0x1_0000_0000 - (n + 0x1_0000_0000)) % 0x1_0000_0000;
        w := U32ToA(u);
        w := "-" + w;
      } else {
        w := U32ToA(n);
      }
    } else if n < 0 {
      var u := (0x1_0000_0000_0000_0000 - (n + 0x1_0000_0000_0000_0000)) % 0x1_0000_0000_0000_0000;
      w := U64ToA(u);
      w := "-" + w;
    } else {
      w := U64ToA(n);
    }
  }
}
