/** Order numbers `ORD-YYYYMMDD-NNNNN`: the UTC date of creation without its dashes, then a
    five-digit random number. The clock and the random source are parameters. */
module OrderNumber {
  import opened Base
  import opened Strings
  import opened Numerals

  /** A calendar date in UTC, as `Date.prototype.toISOString` prints it (years 0 to 9999). */
  datatype Date = Date(year: nat, month: nat, day: nat)

  predicate ValidDate(d: Date)
  {
    d.year <= 9999 && 1 <= d.month <= 12 && 1 <= d.day <= 31
  }

  /** `Math.floor(Math.random() * 100000)` is below this bound. */
  const RandomBound := 100000

  const Prefix := "ORD-"

  /** `n.toString().padStart(w, "0")` */
  function Padded(n: nat, w: nat): string
  {
    PadStart(Decimal(n), w, '0')
  }

  /** `toISOString().slice(0, 10)`: `YYYY-MM-DD`. */
  function IsoDate(d: Date): string
  {
    Padded(d.year, 4) + "-" + Padded(d.month, 2) + "-" + Padded(d.day, 2)
  }

  predicate IsDash(c: char)
  {
    c == '-'
  }

  /** `.replace(/-/g, "")` */
  function DateStamp(d: Date): string
  {
    RemoveWhere(IsoDate(d), IsDash)
  }

  /** `generateOrderNumber()` for the given date and random draw. */
  function GenerateOrderNumber(d: Date, random: nat): (r: string)
    requires ValidDate(d) && random < RandomBound
    ensures |r| == 18 && r[..4] == Prefix && r[12] == '-'
    ensures IsDecimal(r[4..12]) && IsDecimal(r[13..])
  {
    PowersOfTen();
    DateStampShape(d);
    PaddedDecimal(d.year, 4);
    PaddedDecimal(d.month, 2);
    PaddedDecimal(d.day, 2);
    PaddedDecimal(random, 5);
    OrderShape(Padded(d.year, 4), Padded(d.month, 2), Padded(d.day, 2), Padded(random, 5));
    Prefix + DateStamp(d) + "-" + Padded(random, 5)
  }

  /** Reading an order number back: the date fields and the random draw. */
  function ParseOrderNumber(s: string): Option<(Date, nat)>
  {
    if |s| != 18 || s[..4] != Prefix || s[12] != '-' then None
    else if !IsDecimal(s[4..8]) || !IsDecimal(s[8..10]) || !IsDecimal(s[10..12]) || !IsDecimal(s[13..]) then None
    else Some((Date(ParseDecimal(s[4..8]), ParseDecimal(s[8..10]), ParseDecimal(s[10..12])), ParseDecimal(s[13..])))
  }

  /** Every order number reads back as the date and draw it was made from. */
  lemma OrderNumberRoundTrip(d: Date, random: nat)
    requires ValidDate(d) && random < RandomBound
    ensures ParseOrderNumber(GenerateOrderNumber(d, random)) == Some((d, random))
  {
    PowersOfTen();
    DateStampShape(d);
    PaddedDecimal(d.year, 4);
    PaddedDecimal(d.month, 2);
    PaddedDecimal(d.day, 2);
    PaddedDecimal(random, 5);
    OrderParts(Padded(d.year, 4), Padded(d.month, 2), Padded(d.day, 2), Padded(random, 5));
  }

  /** Different dates or draws give different order numbers. */
  lemma OrderNumberInjective(d: Date, random: nat, e: Date, other: nat)
    requires ValidDate(d) && random < RandomBound && ValidDate(e) && other < RandomBound
    ensures GenerateOrderNumber(d, random) == GenerateOrderNumber(e, other) ==> d == e && random == other
  {
    OrderNumberRoundTrip(d, random);
    OrderNumberRoundTrip(e, other);
  }

  /** An order number assembled from decimal fields of the right widths has the order-number
      shape. */
  lemma OrderShape(y: string, m: string, n: string, p: string)
    requires IsDecimal(y) && IsDecimal(m) && IsDecimal(n) && IsDecimal(p)
    requires |y| == 4 && |m| == 2 && |n| == 2 && |p| == 5
    ensures var r := Prefix + (y + m + n) + "-" + p;
      |r| == 18 && r[..4] == Prefix && r[12] == '-' && IsDecimal(r[4..12]) && IsDecimal(r[13..])
  {
    var r := Prefix + (y + m + n) + "-" + p;
    assert r[4..12] == y + m + n && r[13..] == p;
  }

  /** ... and reads back as those fields. */
  lemma OrderParts(y: string, m: string, n: string, p: string)
    requires IsDecimal(y) && IsDecimal(m) && IsDecimal(n) && IsDecimal(p)
    requires |y| == 4 && |m| == 2 && |n| == 2 && |p| == 5
    ensures ParseOrderNumber(Prefix + (y + m + n) + "-" + p)
      == Some((Date(ParseDecimal(y), ParseDecimal(m), ParseDecimal(n)), ParseDecimal(p)))
  {
    var r := Prefix + (y + m + n) + "-" + p;
    assert r[..4] == Prefix && r[12] == '-' && r[13..] == p;
    assert r[4..8] == y && r[8..10] == m && r[10..12] == n;
  }

  /** The stamp is the padded year, month and day side by side. */
  lemma DateStampShape(d: Date)
    requires ValidDate(d)
    ensures DateStamp(d) == Padded(d.year, 4) + Padded(d.month, 2) + Padded(d.day, 2)
  {
    PowersOfTen();
    PaddedDecimal(d.year, 4);
    PaddedDecimal(d.month, 2);
    PaddedDecimal(d.day, 2);
    StampOfFields(Padded(d.year, 4), Padded(d.month, 2), Padded(d.day, 2));
  }

  /** Dropping the dashes of `y-m-d` leaves the three fields side by side. */
  lemma StampOfFields(y: string, m: string, n: string)
    requires IsDecimal(y) && IsDecimal(m) && IsDecimal(n)
    ensures RemoveWhere(y + "-" + m + "-" + n, IsDash) == y + m + n
  {
    DigitsKept(y);
    DigitsKept(m);
    DigitsKept(n);
    var dash := RemoveWhere("-", IsDash);
    assert dash == [];
    RemoveAppend(y, "-", IsDash);
    var a := RemoveWhere(y + "-", IsDash);
    assert a == y;
    RemoveAppend(y + "-", m, IsDash);
    var b := RemoveWhere(y + "-" + m, IsDash);
    assert b == y + m;
    RemoveAppend(y + "-" + m, "-", IsDash);
    var c := RemoveWhere(y + "-" + m + "-", IsDash);
    assert c == y + m;
    RemoveAppend(y + "-" + m + "-", n, IsDash);
  }

  lemma DigitsKept(s: string)
    requires IsDecimal(s)
    ensures RemoveWhere(s, IsDash) == s
  {
    RemoveNothing(s, IsDash);
  }

  /** A number below `10^w`, padded to `w` digits, has exactly `w` digits and reads back. */
  lemma PaddedDecimal(n: nat, w: nat)
    requires w >= 1 && n < Pow(10, w)
    ensures |Padded(n, w)| == w && IsDecimal(Padded(n, w)) && ParseDecimal(Padded(n, w)) == n
  {
    TextLength(n, DecimalDigits, w);
    DecimalRoundTrip(n);
    ZeroPadded(Decimal(n), w);
  }

  /** Zeros in front of decimal digits change neither their kind nor their value. */
  lemma ZeroPadded(t: string, w: nat)
    requires IsDecimal(t) && |t| <= w
    ensures |PadStart(t, w, '0')| == w && IsDecimal(PadStart(t, w, '0'))
    ensures ParseDecimal(PadStart(t, w, '0')) == ParseDecimal(t)
  {
    var z := seq(w - |t|, _ => '0');
    var p := PadStart(t, w, '0');
    assert p == z + t;
    assert IsAlphabet(DecimalDigits);
    assert AllIn(t, DecimalDigits) by {
      forall k | 0 <= k < |t| ensures t[k] in DecimalDigits {
        DecimalDigitAt(t[k]);
      }
    }
    LeadingZeros(z, t, DecimalDigits);
  }

  lemma PowersOfTen()
    ensures Pow(10, 2) == 100 && Pow(10, 4) == 10000 && Pow(10, 5) == 100000
  {
    assert Pow(10, 1) == 10;
    assert Pow(10, 2) == 100;
    assert Pow(10, 3) == 1000;
    assert Pow(10, 4) == 10000;
  }
}
