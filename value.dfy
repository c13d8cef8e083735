/** The column value variant: which alternative each constructor argument is
    stored as, the checked accessors with their conversion table, equality,
    the range check on dates and the textual form of the alternatives whose
    printing the library implements itself (null, integers, strings, time). */
module Values {
  import opened Errors
  import opened Bytes
  import opened Text

  /** A calendar date, as a year/month/day triple. */
  datatype Date = Date(year: int, month: int, day: int)

  /** A point in time with microsecond resolution. */
  datatype DateTime = DateTime(date: Date, hour: int, minute: int, second: int, micros: int)

  /** The variant's alternatives, in the variant's order. Floating-point
      payloads are IEEE-754 bit patterns; a time is a signed count of
      microseconds. */
  datatype Value =
    | Null
    | UInt64(u: uint64)
    | Int64(i: int64)
    | Str(s: bytes)
    | Float(fbits: uint32)
    | Double(dbits: uint64)
    | DateVal(date: Date)
    | DateTimeVal(datetime: DateTime)
    | Time(micros: int64)

  /** The type a caller names in `is<T>`, `get<T>` and `get_optional<T>`. */
  datatype Tag =
    NullTag | UInt64Tag | Int64Tag | StringTag | FloatTag | DoubleTag | DateTag | DateTimeTag | TimeTag

  function TagOf(v: Value): Tag
  {
    match v
    case Null => NullTag
    case UInt64(_) => UInt64Tag
    case Int64(_) => Int64Tag
    case Str(_) => StringTag
    case Float(_) => FloatTag
    case Double(_) => DoubleTag
    case DateVal(_) => DateTag
    case DateTimeVal(_) => DateTimeTag
    case Time(_) => TimeTag
  }

  predicate IsNull(v: Value) {
    v.Null?
  }

  // ------------------------------------------------------------ construction

  datatype IntWidth = W8 | W16 | W32 | W64

  function Pow2(k: nat): (r: nat)
    ensures r >= 1
  {
    if k == 0 then 1 else 2 * Pow2(k - 1)
  }

  lemma Pow2Values()
    ensures Pow2(23) == 0x80_0000 && Pow2(52) == 0x10_0000_0000_0000
  {
    assert Pow2(4) == 16 && Pow2(7) == 128;
    Pow2Add(4, 4);
    Pow2Add(8, 8);
    Pow2Add(16, 7);
    Pow2Add(16, 16);
    Pow2Add(32, 16);
    Pow2Add(48, 4);
  }

  /** The argument handed to `value(const T&)`: an unsigned or signed integer
      of some width, or an argument of any other type. */
  datatype Argument =
    | UnsignedArg(width: IntWidth, n: int)
    | SignedArg(width: IntWidth, n: int)
    | OtherArg(v: Value)

  /** 2^bits for an integer type of the given width. */
  function Modulus(w: IntWidth): nat
  {
    match w
    case W8 => 0x100
    case W16 => 0x1_0000
    case W32 => 0x1_0000_0000
    case W64 => TWO_64
  }

  /** What the argument's C++ type guarantees: the number fits its width, and
      a non-integer argument is not an integer. */
  predicate ValidArgument(a: Argument)
  {
    match a
    case UnsignedArg(w, n) => 0 <= n < Modulus(w)
    case SignedArg(w, n) => -(Modulus(w) / 2) <= n < Modulus(w) / 2
    case OtherArg(v) => !v.UInt64? && !v.Int64?
  }

  /** value(const T&) through value_cast_int: every unsigned integer becomes a
      uint64, every signed integer an int64, anything else is kept as is. */
  function Construct(a: Argument): (r: Value)
    requires ValidArgument(a)
    ensures a.UnsignedArg? ==> r.UInt64? && r.u == a.n
    ensures a.SignedArg? ==> r.Int64? && r.i == a.n
    ensures a.OtherArg? ==> r == a.v
  {
    match a
    case UnsignedArg(_, n) => UInt64(n)
    case SignedArg(_, n) => Int64(n)
    case OtherArg(v) => v
  }

  lemma {:induction false} Pow2Monotonic(j: nat, k: nat)
    requires j <= k
    ensures Pow2(j) <= Pow2(k)
    decreases k
  {
    if j < k {
      Pow2Monotonic(j, k - 1);
    }
  }

  // --------------------------------------------------------------- accessors

  /** get_optional_noconv<T>: the payload only when the stored alternative is T. */
  function GetOptionalNoConv(v: Value, t: Tag): (r: Option<Value>)
    ensures r.Some? <==> TagOf(v) == t
    ensures r.Some? ==> r.value == v
  {
    if TagOf(v) == t then Some(v) else None
  }

  /** get_optional<T>: exact match, except that an int64 that is not negative
      is also readable as uint64, a uint64 that fits is readable as int64 and
      a float is readable as double. */
  function GetOptional(v: Value, t: Tag): (r: Option<Value>)
    ensures r.Some? ==> TagOf(r.value) == t
  {
    var res := GetOptionalNoConv(v, t);
    match t
    case UInt64Tag =>
      if res.None? && v.Int64? && v.i >= 0 then Some(UInt64(v.i)) else res
    case Int64Tag =>
      if res.None? && v.UInt64? && v.u <= INT64_MAX then Some(Int64(v.u)) else res
    case DoubleTag =>
      if res.None? && v.Float? then Some(Double(WidenFloat(v.fbits))) else res
    case _ => res
  }

  /** value::is_convertible_to<T>. */
  predicate IsConvertibleTo(v: Value, t: Tag) {
    GetOptional(v, t).Some?
  }

  /** get<T>: the value get_optional<T> yields, or bad_variant_access. */
  function Get(v: Value, t: Tag): (r: Result<Value>)
    ensures r.Err? <==> GetOptional(v, t).None?
    ensures r.Err? ==> r.error == BadVariantAccess
    ensures r.Ok? ==> GetOptional(v, t) == Some(r.value)
  {
    var res := GetOptional(v, t);
    if res.None? then Err(BadVariantAccess) else Ok(res.value)
  }

  /** The mathematical integer an integer alternative holds. */
  function IntegerOf(v: Value): int
    requires v.UInt64? || v.Int64?
  {
    if v.UInt64? then v.u else v.i
  }

  /** uint64 is readable from a uint64 and from a non-negative int64, with the
      same value; from nothing else. */
  lemma GetOptionalUInt64(v: Value)
    ensures GetOptional(v, UInt64Tag).Some? <==> v.UInt64? || (v.Int64? && v.i >= 0)
    ensures GetOptional(v, UInt64Tag).Some? ==> IntegerOf(GetOptional(v, UInt64Tag).value) == IntegerOf(v)
  {
  }

  /** int64 is readable from an int64 and from a uint64 up to INT64_MAX, with
      the same value; from nothing else. */
  lemma GetOptionalInt64(v: Value)
    ensures GetOptional(v, Int64Tag).Some? <==> v.Int64? || (v.UInt64? && v.u <= INT64_MAX)
    ensures GetOptional(v, Int64Tag).Some? ==> IntegerOf(GetOptional(v, Int64Tag).value) == IntegerOf(v)
  {
  }

  /** Every target other than the two integers and double matches exactly. */
  lemma GetOptionalExact(v: Value, t: Tag)
    requires t != UInt64Tag && t != Int64Tag && t != DoubleTag
    ensures GetOptional(v, t).Some? <==> TagOf(v) == t
    ensures GetOptional(v, t).Some? ==> GetOptional(v, t).value == v
  {
  }

  /** double is readable from a double as is and from a float by widening. */
  lemma GetOptionalDouble(v: Value)
    ensures GetOptional(v, DoubleTag).Some? <==> v.Double? || v.Float?
    ensures v.Double? ==> GetOptional(v, DoubleTag) == Some(v)
  {
  }

  /** Every value is readable as its own alternative, unchanged. */
  lemma ConvertibleToOwnTag(v: Value)
    ensures GetOptional(v, TagOf(v)) == Some(v)
  {
  }

  /** Reading an integer back as the kind it was built from gives the number
      that was passed to the constructor. */
  lemma ConstructThenGet(a: Argument)
    requires ValidArgument(a)
    ensures a.UnsignedArg? ==> Get(Construct(a), UInt64Tag).Ok? && IntegerOf(Get(Construct(a), UInt64Tag).value) == a.n
    ensures a.SignedArg? ==> Get(Construct(a), Int64Tag).Ok? && IntegerOf(Get(Construct(a), Int64Tag).value) == a.n
    ensures a.SignedArg? ==> (Get(Construct(a), UInt64Tag).Ok? <==> a.n >= 0)
    ensures a.UnsignedArg? ==> (Get(Construct(a), Int64Tag).Ok? <==> a.n <= INT64_MAX)
  {
  }

  // ------------------------------------------------------------ IEEE-754 bits

  function Sign32(b: uint32): nat { b / 0x8000_0000 }
  function Exponent32(b: uint32): nat { (b / 0x80_0000) % 0x100 }
  function Fraction32(b: uint32): nat { b % 0x80_0000 }
  function Sign64(b: uint64): nat { b / 0x8000_0000_0000_0000 }
  function Exponent64(b: uint64): nat { (b / 0x10_0000_0000_0000) % 0x800 }
  function Fraction64(b: uint64): nat { b % 0x10_0000_0000_0000 }

  predicate IsNaN32(b: uint32) { Exponent32(b) == 0xff && Fraction32(b) != 0 }
  predicate IsNaN64(b: uint64) { Exponent64(b) == 0x7ff && Fraction64(b) != 0 }
  predicate IsZero32(b: uint32) { b % 0x8000_0000 == 0 }
  predicate IsZero64(b: uint64) { b % 0x8000_0000_0000_0000 == 0 }

  /** The index of the highest set bit of a positive number. */
  function HighBit(n: nat): (k: nat)
    requires n >= 1
    ensures Pow2(k) <= n < Pow2(k + 1)
  {
    if n == 1 then 0 else 1 + HighBit(n / 2)
  }

  lemma DivModUnique(x: int, d: int, q: int, rem: int)
    requires d > 0 && 0 <= rem < d && x == q * d + rem
    ensures x / d == q && x % d == rem
  {
    var k := q - x / d;
    assert k * d == x % d - rem;
  }

  /** The three fields of a float bit pattern, and its bits below the sign. */
  lemma Unpack32(b: uint32)
    ensures Sign32(b) < 2 && Exponent32(b) < 0x100 && Fraction32(b) < 0x80_0000
    ensures b % 0x8000_0000 == Exponent32(b) * 0x80_0000 + Fraction32(b)
  {
    var q := b / 0x80_0000;
    var e, f := q % 0x100, b % 0x80_0000;
    assert b == q * 0x80_0000 + f;
    assert q == (q / 0x100) * 0x100 + e;
    assert b == (q / 0x100) * 0x8000_0000 + (e * 0x80_0000 + f);
    DivModUnique(b, 0x8000_0000, q / 0x100, e * 0x80_0000 + f);
  }

  function Pack64(sign: nat, exponent: nat, fraction: nat): (r: uint64)
    requires sign < 2 && exponent < 0x800 && fraction < 0x10_0000_0000_0000
    ensures Sign64(r) == sign && Exponent64(r) == exponent && Fraction64(r) == fraction
    ensures r % 0x8000_0000_0000_0000 == exponent * 0x10_0000_0000_0000 + fraction
  {
    var low := exponent * 0x10_0000_0000_0000 + fraction;
    var r := sign * 0x8000_0000_0000_0000 + low;
    DivModUnique(r, 0x8000_0000_0000_0000, sign, low);
    DivModUnique(r, 0x10_0000_0000_0000, sign * 0x800 + exponent, fraction);
    DivModUnique(sign * 0x800 + exponent, 0x800, sign, exponent);
    r
  }

  /** A subnormal float's fraction, normalised: its highest set bit becomes
      the implicit one and the rest fills the top of the 52-bit field. */
  function NormalisedFraction(fraction: nat): (r: (nat, nat))
    requires 1 <= fraction < 0x80_0000
    ensures r.0 <= 22 && r.1 < 0x10_0000_0000_0000
  {
    var k := HighBit(fraction);
    HighBitBelow23(fraction);
    var low: nat := fraction - Pow2(k);
    var scale: nat := Pow2(52 - k);
    ShiftedFractionBound(fraction, k);
    MulNat(low, scale);
    (k, low * scale)
  }

  lemma HighBitBelow23(n: nat)
    requires 1 <= n < 0x80_0000
    ensures HighBit(n) <= 22
  {
    var k := HighBit(n);
    if k > 22 {
      Pow2Monotonic(23, k);
      Pow2Values();
    }
  }

  lemma ShiftedFractionBound(n: nat, k: nat)
    requires k <= 22 && Pow2(k) <= n < Pow2(k + 1)
    ensures (n - Pow2(k)) * Pow2(52 - k) < 0x10_0000_0000_0000
  {
    Pow2Add(k, 52 - k);
    Pow2Values();
    MulStrict(n - Pow2(k), Pow2(k), Pow2(52 - k));
  }

  /** The exact conversion of a float to a double, on bit patterns: the sign
      is kept, the exponent rebiased (subnormal floats normalised) and the
      fraction shifted into the wider field. */
  function WidenFloat(b: uint32): (r: uint64)
    ensures Sign64(r) == Sign32(b)
    ensures IsNaN64(r) <==> IsNaN32(b)
    ensures IsZero64(r) <==> IsZero32(b)
  {
    Unpack32(b);
    var sign, exponent, fraction := Sign32(b), Exponent32(b), Fraction32(b);
    if exponent == 0xff then
      Pack64(sign, 0x7ff, fraction * 0x2000_0000)
    else if exponent == 0 && fraction == 0 then
      Pack64(sign, 0, 0)
    else if exponent == 0 then
      var n := NormalisedFraction(fraction);
      Pack64(sign, n.0 + 874, n.1)
    else
      Pack64(sign, exponent + 896, fraction * 0x2000_0000)
  }

  lemma {:induction false} Pow2Add(j: nat, k: nat)
    ensures Pow2(j) * Pow2(k) == Pow2(j + k)
    decreases j
  {
    if j > 0 {
      Pow2Add(j - 1, k);
    }
  }

  lemma MulNat(a: nat, b: nat)
    ensures a * b >= 0
  {
  }

  lemma MulStrict(a: nat, b: nat, c: nat)
    requires a < b && c >= 1
    ensures a * c < b * c
  {
  }

  // ---------------------------------------------------------------- equality

  predicate FloatEquals(a: uint32, b: uint32) {
    (IsZero32(a) && IsZero32(b)) || (!IsNaN32(a) && a == b)
  }

  predicate DoubleEquals(a: uint64, b: uint64) {
    (IsZero64(a) && IsZero64(b)) || (!IsNaN64(a) && a == b)
  }

  /** operator== on values: the alternatives must match; payloads compare as
      their C++ types do (IEEE-754 comparison for floating point). */
  predicate Equals(a: Value, b: Value)
  {
    match (a, b)
    case (Float(x), Float(y)) => FloatEquals(x, y)
    case (Double(x), Double(y)) => DoubleEquals(x, y)
    case _ => a == b
  }

  /** Values of different alternatives are never equal; values of the same
      non-floating alternative are equal exactly when their payloads are. */
  lemma EqualsIsTagExact(a: Value, b: Value)
    ensures TagOf(a) != TagOf(b) ==> !Equals(a, b)
    ensures TagOf(a) == TagOf(b) && !a.Float? && !a.Double? ==> (Equals(a, b) <==> a == b)
    ensures Equals(a, b) ==> Equals(b, a)
  {
  }

  /** int64(42) and uint64(42) differ, yet each reads as the other. */
  lemma SignedUnsignedExample()
    ensures !Equals(Int64(42), UInt64(42))
    ensures GetOptional(Int64(42), UInt64Tag) == Some(UInt64(42))
    ensures GetOptional(UInt64(0xffff_ffff_ffff_fffe), Int64Tag) == None
  {
  }

  // ------------------------------------------------------------------- dates

  function DaysInMonth(year: int, month: int): nat
    requires 1 <= month <= 12
  {
    if month == 2 then
      (if (year % 4 == 0 && year % 100 != 0) || year % 400 == 0 then 29 else 28)
    else if month == 4 || month == 6 || month == 9 || month == 11 then 30
    else 31
  }

  predicate ValidDate(d: Date) {
    1 <= d.month <= 12 && 1 <= d.day <= DaysInMonth(d.year, d.month)
  }

  predicate DateBefore(a: Date, b: Date) {
    a.year < b.year || (a.year == b.year && (a.month < b.month || (a.month == b.month && a.day < b.day)))
  }

  const MinDate: Date := Date(0, 1, 1)
  const MaxDate: Date := Date(9999, 12, 31)

  /** is_out_of_range: below min_date or above max_date. */
  predicate IsOutOfRange(d: Date) {
    DateBefore(d, MinDate) || DateBefore(MaxDate, d)
  }

  /** For a real calendar date, the range check is a check on the year. */
  lemma OutOfRangeByYear(d: Date)
    requires ValidDate(d)
    ensures IsOutOfRange(d) <==> d.year < 0 || d.year > 9999
  {
  }

  // ---------------------------------------------------------------- printing

  const SECOND: nat := 1_000_000
  const MINUTE: nat := 60_000_000
  const HOUR: nat := 3_600_000_000

  /** C++ integer division and remainder, which truncate toward zero. */
  function TruncDiv(a: int, b: int): int
    requires b > 0
  {
    if a >= 0 then a / b else -((-a) / b)
  }

  function TruncMod(a: int, b: int): int
    requires b > 0
  {
    a - b * TruncDiv(a, b)
  }

  function Abs(x: int): nat {
    if x < 0 then -x else x
  }

  /** The four numbers print_visitor extracts from a time: |hours|, and the
      minutes, seconds and microseconds of the remainder. */
  function TimeParts(t: int64): (nat, nat, nat, nat)
  {
    (Abs(TruncDiv(t, HOUR)),
     Abs(TruncDiv(TruncMod(t, HOUR), MINUTE)),
     Abs(TruncDiv(TruncMod(t, MINUTE), SECOND)),
     Abs(TruncMod(t, SECOND)))
  }

  /** print_visitor on a time: "[-]HH:MM:SS.uuuuuu", hours with at least two
      digits. */
  function FormatTime(t: int64): seq<char>
  {
    var sign := if t < 0 then "-" else "";
    var parts := TimeParts(t);
    sign + Clock(parts.0, parts.1, parts.2, parts.3)
  }

  /** The "%02d:%02u:%02u.%06u" part of the format. */
  function Clock(h: nat, m: nat, sec: nat, u: nat): seq<char>
  {
    ZeroPadded(h, 2) + ClockTail(m, sec, u)
  }

  /** ":MM:SS.uuuuuu" */
  function ClockTail(m: nat, sec: nat, u: nat): seq<char>
  {
    ":" + ZeroPadded(m, 2) + ":" + ZeroPadded(sec, 2) + "." + ZeroPadded(u, 6)
  }

  /** Below the next unit, minutes, seconds and microseconds print in their
      full widths, so the tail has a fixed shape. */
  lemma ClockTailShape(m: nat, sec: nat, u: nat)
    requires m < 60 && sec < 60 && u < SECOND
    ensures var tail := ClockTail(m, sec, u);
      |tail| == 13 && tail[0] == ':' && tail[3] == ':' && tail[6] == '.'
      && tail[1..3] == ZeroPadded(m, 2) && tail[4..6] == ZeroPadded(sec, 2) && tail[7..] == ZeroPadded(u, 6)
  {
    ZeroPaddedWidth(m, 2);
    ZeroPaddedWidth(sec, 2);
    ZeroPaddedWidth(u, 6);
  }

  lemma ModOfHourMod(x: nat)
    ensures (x % HOUR) % MINUTE == x % MINUTE
    ensures (x % MINUTE) % SECOND == x % SECOND
  {
    var r := x % HOUR;
    DivModUnique(x, MINUTE, 60 * (x / HOUR) + r / MINUTE, r % MINUTE);
    var m := x % MINUTE;
    DivModUnique(x, SECOND, 60 * (x / MINUTE) + m / SECOND, m % SECOND);
  }

  /** The printed parts are the hours, minutes, seconds and microseconds of
      |t|, each minor part below its unit. */
  lemma TimePartsDecompose(t: int64)
    ensures var p := TimeParts(t);
      p.1 < 60 && p.2 < 60 && p.3 < SECOND &&
      p.0 * HOUR + p.1 * MINUTE + p.2 * SECOND + p.3 == Abs(t)
  {
    var x := Abs(t);
    var p := TimeParts(t);
    if t < 0 {
      assert TruncDiv(t, HOUR) == -(x / HOUR);
      assert TruncMod(t, HOUR) == -(x % HOUR);
      assert TruncMod(t, MINUTE) == -(x % MINUTE);
      assert TruncMod(t, SECOND) == -(x % SECOND);
    }
    assert p.0 == x / HOUR && p.3 == x % SECOND;
    assert p.1 == (x % HOUR) / MINUTE;
    assert p.2 == (x % MINUTE) / SECOND;
    ModOfHourMod(x);
  }

  /** Reads "H+:MM:SS.uuuuuu" back into microseconds. */
  function ParseClock(body: seq<char>): Option<nat>
  {
    if |body| < 15 then None
    else
      var tail := body[|body| - 13..];
      if tail[0] != ':' || tail[3] != ':' || tail[6] != '.' then None
      else
        var h := ParseDecimal(body[..|body| - 13]);
        var m := ParseDecimal(tail[1..3]);
        var sec := ParseDecimal(tail[4..6]);
        var u := ParseDecimal(tail[7..]);
        if h.None? || m.None? || sec.None? || u.None? then None
        else Some(h.value * HOUR + m.value * MINUTE + sec.value * SECOND + u.value)
  }

  /** Reads "[-]H+:MM:SS.uuuuuu" back into microseconds. */
  function ParseTime(s: seq<char>): Option<int>
  {
    if |s| > 0 && s[0] == '-' then
      match ParseClock(s[1..])
      case Some(x) => Some(-(x as int))
      case None => None
    else ParseClock(s)
  }

  lemma ParseClockOfParts(h: nat, m: nat, sec: nat, u: nat)
    requires m < 60 && sec < 60 && u < SECOND
    ensures IsDigit(Clock(h, m, sec, u)[0])
    ensures ParseClock(Clock(h, m, sec, u)) == Some(h * HOUR + m * MINUTE + sec * SECOND + u)
  {
    var hs, tail := ZeroPadded(h, 2), ClockTail(m, sec, u);
    ClockTailShape(m, sec, u);
    var body := hs + tail;
    assert body[..|body| - 13] == hs;
    assert body[|body| - 13..] == tail;
    ParseDecimalOfZeroPadded(h, 2);
    ParseDecimalOfZeroPadded(m, 2);
    ParseDecimalOfZeroPadded(sec, 2);
    ParseDecimalOfZeroPadded(u, 6);
  }

  /** The printed form of a time determines it: reading it back gives the
      same number of microseconds, so sign, hours and every part survive. */
  lemma FormatTimeRoundTrip(t: int64)
    ensures ParseTime(FormatTime(t)) == Some(t)
  {
    var p := TimeParts(t);
    var c := Clock(p.0, p.1, p.2, p.3);
    ClockOfTime(t);
    assert FormatTime(t) == (if t < 0 then "-" else "") + c;
    ParseTimeOfSigned(t < 0, c, Abs(t));
  }

  /** The clock part of a printed time reads back as |t|. */
  lemma ClockOfTime(t: int64)
    ensures var p := TimeParts(t); var c := Clock(p.0, p.1, p.2, p.3);
      |c| > 0 && IsDigit(c[0]) && ParseClock(c) == Some(Abs(t))
  {
    var p := TimeParts(t);
    TimePartsDecompose(t);
    ParseClockOfParts(p.0, p.1, p.2, p.3);
  }

  /** A sign followed by a clock reads back as the clock's value, negated
      under the sign. */
  lemma ParseTimeOfSigned(negative: bool, body: seq<char>, x: nat)
    requires |body| > 0 && IsDigit(body[0]) && ParseClock(body) == Some(x)
    ensures ParseTime((if negative then "-" else "") + body) == Some(if negative then 0 - x as int else x as int)
  {
    var s := (if negative then "-" else "") + body;
    if negative {
      assert s[0] == '-' && s[1..] == body;
    } else {
      assert s == body;
    }
  }

  /** The sign appears exactly for negative times. */
  lemma FormatTimeSign(t: int64)
    ensures |FormatTime(t)| >= 15
    ensures FormatTime(t)[0] == '-' <==> t < 0
  {
    var p := TimeParts(t);
    var hs := ZeroPadded(p.0, 2);
    if t >= 0 {
      assert FormatTime(t)[0] == hs[0];
      assert IsDigit(hs[0]);
    }
  }

  // Printed forms from the unit tests: hours take as many digits as they
  // need, the minor parts keep their widths, and the sign comes first.

  lemma ZeroTimeVector()
    ensures FormatTime(0) == "00:00:00.000000"
  {
    assert ZeroPadded(0, 2) == "00" && ZeroPadded(0, 6) == "000000" by { PaddedVectors(); }
    FormatTimeOf(0, 0, 0, 0, 0);
  }

  lemma OneDigitTimeVector()
    ensures FormatTime(18_305_000_050) == "05:05:05.000050"
  {
    assert ZeroPadded(5, 2) == "05" && ZeroPadded(50, 6) == "000050" by { PaddedVectors(); }
    FormatTimeOf(18_305_000_050, 5, 5, 5, 50);
  }

  lemma MaxHoursTimeVector()
    ensures FormatTime(-3_020_399_999_999) == "-838:59:59.999999"
  {
    assert ZeroPadded(838, 2) == "838" && ZeroPadded(59, 2) == "59" && ZeroPadded(999999, 6) == "999999"
      by { PaddedVectors(); }
    assert "-838:59:59.999999" == "-" + "838" + (":" + "59" + ":" + "59" + "." + "999999");
    FormatTimeOf(-3_020_399_999_999, 838, 59, 59, 999999);
  }

  lemma NegativeTimeVector()
    ensures FormatTime(-82_800_000_005) == "-23:00:00.000005"
  {
    assert ZeroPadded(23, 2) == "23" && ZeroPadded(0, 2) == "00" && ZeroPadded(5, 6) == "000005"
      by { PaddedVectors(); }
    assert "-23:00:00.000005" == "-" + "23" + (":" + "00" + ":" + "00" + "." + "000005");
    FormatTimeOf(-82_800_000_005, 23, 0, 0, 5);
  }

  /** A time prints as its unique decomposition. */
  lemma FormatTimeOf(t: int64, h: nat, m: nat, sec: nat, u: nat)
    requires m < 60 && sec < 60 && u < SECOND
    requires Abs(t) == h * HOUR + m * MINUTE + sec * SECOND + u
    ensures FormatTime(t) == (if t < 0 then "-" else "") + ZeroPadded(h, 2)
      + (":" + ZeroPadded(m, 2) + ":" + ZeroPadded(sec, 2) + "." + ZeroPadded(u, 6))
  {
    TimePartsVector(t, h, m, sec, u);
  }

  /** The parts of a time are its unique decomposition. */
  lemma TimePartsVector(t: int64, h: nat, m: nat, sec: nat, u: nat)
    requires m < 60 && sec < 60 && u < SECOND
    requires Abs(t) == h * HOUR + m * MINUTE + sec * SECOND + u
    ensures TimeParts(t) == (h, m, sec, u)
  {
    TimePartsDecompose(t);
    var p := TimeParts(t);
    DivModUnique(Abs(t), HOUR, h, m * MINUTE + sec * SECOND + u);
    DivModUnique(Abs(t), HOUR, p.0, p.1 * MINUTE + p.2 * SECOND + p.3);
    DivModUnique(m * MINUTE + sec * SECOND + u, MINUTE, m, sec * SECOND + u);
    DivModUnique(m * MINUTE + sec * SECOND + u, MINUTE, p.1, p.2 * SECOND + p.3);
    DivModUnique(sec * SECOND + u, SECOND, sec, u);
    DivModUnique(sec * SECOND + u, SECOND, p.2, p.3);
  }

  lemma PaddedVectors()
    ensures ZeroPadded(0, 2) == "00" && ZeroPadded(5, 2) == "05" && ZeroPadded(23, 2) == "23"
    ensures ZeroPadded(59, 2) == "59" && ZeroPadded(838, 2) == "838"
    ensures ZeroPadded(0, 6) == "000000" && ZeroPadded(5, 6) == "000005" && ZeroPadded(50, 6) == "000050"
    ensures ZeroPadded(999999, 6) == "999999"
  {
    TwoDigitPaddedVectors();
    SixDigitPaddedVectors();
  }

  /** Hours, minutes and seconds pad to two digits and overflow them freely. */
  lemma TwoDigitPaddedVectors()
    ensures ZeroPadded(0, 2) == "00" && ZeroPadded(5, 2) == "05" && ZeroPadded(23, 2) == "23"
    ensures ZeroPadded(59, 2) == "59" && ZeroPadded(838, 2) == "838"
  {
    assert Zeros(1) == "0";
    assert ZeroPadded(0, 2) == "00" by { DecimalVectors(); PaddedOfDecimal(0, 2, "0"); }
    assert ZeroPadded(5, 2) == "05" by { DecimalVectors(); PaddedOfDecimal(5, 2, "5"); }
    assert ZeroPadded(23, 2) == "23" by { DecimalVectors(); PaddedOfDecimal(23, 2, "23"); }
    assert ZeroPadded(59, 2) == "59" by { DecimalVectors(); PaddedOfDecimal(59, 2, "59"); }
    assert ZeroPadded(838, 2) == "838" by { DecimalVectors(); PaddedOfDecimal(838, 2, "838"); }
  }

  /** Microseconds pad to six digits. */
  lemma SixDigitPaddedVectors()
    ensures ZeroPadded(0, 6) == "000000" && ZeroPadded(5, 6) == "000005" && ZeroPadded(50, 6) == "000050"
    ensures ZeroPadded(999999, 6) == "999999"
  {
    assert Zeros(5) == "00000";
    assert Zeros(4) == "0000";
    assert ZeroPadded(0, 6) == "000000" by { DecimalVectors(); PaddedOfDecimal(0, 6, "0"); }
    assert ZeroPadded(5, 6) == "000005" by { DecimalVectors(); PaddedOfDecimal(5, 6, "5"); }
    assert ZeroPadded(50, 6) == "000050" by { DecimalVectors(); PaddedOfDecimal(50, 6, "50"); }
    assert ZeroPadded(999999, 6) == "999999" by { DecimalVectors(); PaddedOfDecimal(999999, 6, "999999"); }
  }

  lemma PaddedOfDecimal(n: nat, width: nat, d: seq<char>)
    requires Decimal(n) == d
    ensures ZeroPadded(n, width) == (if |d| < width then Zeros(width - |d|) else []) + d
  {
  }

  lemma DecimalVectors()
    ensures Decimal(0) == "0" && Decimal(5) == "5" && Decimal(23) == "23" && Decimal(59) == "59"
    ensures Decimal(50) == "50" && Decimal(838) == "838" && Decimal(999999) == "999999"
  {
    assert Decimal(83) == "83";
    assert Decimal(99) == "99";
    assert Decimal(999) == "999";
    assert Decimal(9999) == "9999";
    assert Decimal(99999) == "99999";
  }

  /** The alternatives whose printing the library implements itself; floating
      point and the calendar types are printed by external code. */
  predicate Printable(v: Value) {
    !v.Float? && !v.Double? && !v.DateVal? && !v.DateTimeVal?
  }

  function BytesAsChars(s: bytes): seq<char>
  {
    seq(|s|, i requires 0 <= i < |s| => s[i] as char)
  }

  /** operator<< on a value. */
  function Print(v: Value): (r: seq<char>)
    requires Printable(v)
    ensures v.Null? ==> r == "<NULL>"
    ensures v.Time? ==> ParseTime(r) == Some(v.micros)
    ensures v.UInt64? ==> ParseDecimal(r) == Some(v.u)
    ensures v.Int64? ==> (|r| >= 1 && (r[0] == '-' <==> v.i < 0)
      && ParseDecimal(if v.i < 0 then r[1..] else r) == Some(if v.i < 0 then -(v.i as int) else v.i))
    ensures v.Str? ==> |r| == |v.s| && forall k :: 0 <= k < |r| ==> r[k] as int == v.s[k]
  {
    match v
    case Null => "<NULL>"
    case UInt64(u) => ParseDecimalOfDecimal(u); Decimal(u)
    case Int64(i) =>
      var m: nat := if i < 0 then -(i as int) else i;
      ParseDecimalOfDecimal(m);
      assert !IsDigit('-');
      if i < 0 then assert ("-" + Decimal(m))[1..] == Decimal(m); SignedDecimal(i)
      else SignedDecimal(i)
    case Str(s) => BytesAsChars(s)
    case Time(t) => FormatTimeRoundTrip(t); FormatTime(t)
  }

  /** Printed integers and null from the unit tests. */
  lemma PrintVectors()
    ensures Print(Null) == "<NULL>"
    ensures Print(Int64(42)) == "42" && Print(Int64(-90)) == "-90" && Print(Int64(0)) == "0"
    ensures Print(UInt64(42)) == "42" && Print(UInt64(0)) == "0"
  {
    assert Decimal(42) == "42" && Decimal(90) == "90";
  }
}
