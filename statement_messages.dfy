/** The binary-protocol command packets of prepared statements:
    COM_STMT_PREPARE, the prepare-OK response, COM_STMT_EXECUTE with its
    parameter block, and COM_STMT_CLOSE. The client writes the commands and
    reads the response; the opposite direction of each is given as a
    reference definition, tied to the client's by a round-trip lemma, and the
    byte vectors the unit tests fix are checked against the encoder. */
module StatementMessages {
  import opened Errors
  import opened Bytes
  import opened Values

  const COM_STMT_PREPARE: uint8 := 0x16
  const COM_STMT_EXECUTE: uint8 := 0x17
  const COM_STMT_CLOSE: uint8 := 0x19

  // -------------------------------------------------------- COM_STMT_PREPARE

  /** The command byte and then the statement text, with neither a length
      prefix nor a terminator. */
  function SerializePrepare(statement: bytes): (r: bytes)
    ensures |r| == 1 + |statement| && r[0] == COM_STMT_PREPARE && r[1..] == statement
  {
    [COM_STMT_PREPARE] + statement
  }

  /** The server's reading of the command (reference definition). */
  function DeserializePrepare(s: bytes): (r: Result<bytes>)
  {
    if |s| == 0 || s[0] != COM_STMT_PREPARE then Err(ProtocolValueError) else Ok(s[1..])
  }

  lemma PrepareRoundTrip(statement: bytes)
    ensures DeserializePrepare(SerializePrepare(statement)) == Ok(statement)
  {
    assert SerializePrepare(statement)[1..] == statement;
  }

  /** The bytes of a text made of 8-bit characters. */
  function Ascii(text: string): (r: bytes)
    requires forall i :: 0 <= i < |text| ==> text[i] as int < 0x100
    ensures |r| == |text|
  {
    if text == [] then [] else [text[0] as int] + Ascii(text[1..])
  }

  // --------------------------------------------------------------- prepare OK

  datatype PrepareOk = PrepareOk(statementId: uint32, numColumns: uint16, numParams: uint16, warningCount: uint16)

  /** The body after the OK header: statement id (4), number of columns (2),
      number of parameters (2), one reserved byte, warning count (2). */
  function DeserializePrepareOk(s: bytes): (r: Result<(PrepareOk, bytes)>)
    ensures r.Ok? <==> |s| >= 11
    ensures r.Err? ==> r.error == IncompleteMessage
    ensures r.Ok? ==> r.value.1 == s[11..]
  {
    Pow256Values();
    var id :- ReadInt(s, 4);
    var columns :- ReadInt(id.1, 2);
    var params :- ReadInt(columns.1, 2);
    var reserved :- ReadFixed(params.1, 1);
    var warnings :- ReadInt(reserved.1, 2);
    assert s[11..] == warnings.1;
    Ok((PrepareOk(id.0, columns.0, params.0, warnings.0), warnings.1))
  }

  /** The server's side of the response (reference definition). */
  function SerializePrepareOk(p: PrepareOk): (r: bytes)
    ensures |r| == 11
  {
    Pow256Values();
    ToLE(p.statementId, 4) + (ToLE(p.numColumns, 2) + (ToLE(p.numParams, 2) + ([0] + ToLE(p.warningCount, 2))))
  }

  lemma PrepareOkRoundTrip(p: PrepareOk, rest: bytes)
    ensures DeserializePrepareOk(SerializePrepareOk(p) + rest) == Ok((p, rest))
  {
    Pow256Values();
    var t3 := [0] + (ToLE(p.warningCount, 2) + rest);
    var t2 := ToLE(p.numParams, 2) + t3;
    var t1 := ToLE(p.numColumns, 2) + t2;
    assert SerializePrepareOk(p) + rest == ToLE(p.statementId, 4) + t1;
    ReadIntOfToLE(p.statementId, 4, t1);
    ReadIntOfToLE(p.numColumns, 2, t2);
    ReadIntOfToLE(p.numParams, 2, t3);
    assert t3[..1] == [0] && t3[1..] == ToLE(p.warningCount, 2) + rest;
    ReadIntOfToLE(p.warningCount, 2, rest);
  }

  lemma PrepareOkVector()
    ensures DeserializePrepareOk([0x01, 0x00, 0x00, 0x00, 0x02, 0x00, 0x03, 0x00, 0x00, 0x00, 0x00])
      == Ok((PrepareOk(1, 2, 3, 0), []))
  {
    PrepareOkRoundTrip(PrepareOk(1, 2, 3, 0), []);
    PrepareOkBytesVector();
    assert SerializePrepareOk(PrepareOk(1, 2, 3, 0)) + [] == SerializePrepareOk(PrepareOk(1, 2, 3, 0));
  }

  lemma PrepareOkBytesVector()
    ensures SerializePrepareOk(PrepareOk(1, 2, 3, 0)) == [0x01, 0x00, 0x00, 0x00, 0x02, 0x00, 0x03, 0x00, 0x00, 0x00, 0x00]
  {
    Pow256Values();
    var a, b, c, d := ToLE(1, 4), ToLE(2, 2), ToLE(3, 2), ToLE(0, 2);
    SmallToLE(1, 4);
    SmallToLE(2, 2);
    SmallToLE(3, 2);
    SmallToLE(0, 2);
    assert SerializePrepareOk(PrepareOk(1, 2, 3, 0)) == a + (b + (c + ([0] + d)));
  }

  // ------------------------------------------------------------- null bitmap

  /** One bitmap byte for up to eight parameters: bit k is set iff the k-th
      of them is null. */
  function NullBitmapByte(chunk: seq<Value>): (r: nat)
    requires |chunk| <= 8
    ensures r < Pow2(|chunk|)
  {
    if chunk == [] then 0
    else (if IsNull(chunk[0]) then 1 else 0) + 2 * NullBitmapByte(chunk[1..])
  }

  /** ceil(n/8) bytes, eight parameters per byte, lowest bit first. */
  function NullBitmap(params: seq<Value>): (r: bytes)
    ensures |r| == (|params| + 7) / 8
    decreases |params|
  {
    if params == [] then []
    else if |params| <= 8 then
      Pow2Monotonic(|params|, 8);
      assert Pow2(8) == 256;
      [NullBitmapByte(params)]
    else
      assert Pow2(8) == 256;
      [NullBitmapByte(params[..8])] + NullBitmap(params[8..])
  }

  /** Bit k of x. */
  function Bit(x: nat, k: nat): nat
  {
    if k == 0 then x % 2 else Bit(x / 2, k - 1)
  }

  /** Whether a bitmap marks parameter i as null. */
  predicate NullAt(bitmap: bytes, i: nat) {
    i / 8 < |bitmap| && Bit(bitmap[i / 8], i % 8) == 1
  }

  lemma {:induction false} NullBitmapByteBit(chunk: seq<Value>, k: nat)
    requires |chunk| <= 8 && k < |chunk|
    ensures Bit(NullBitmapByte(chunk), k) == 1 <==> IsNull(chunk[k])
  {
    if k > 0 {
      var x := NullBitmapByte(chunk);
      assert x / 2 == NullBitmapByte(chunk[1..]);
      NullBitmapByteBit(chunk[1..], k - 1);
    }
  }

  lemma {:induction false} BitAbove(x: nat, j: nat, k: nat)
    requires x < Pow2(j) && j <= k
    ensures Bit(x, k) == 0
  {
    if k == 0 {
    } else if j == 0 {
      BitAbove(x / 2, 0, k - 1);
    } else {
      BitAbove(x / 2, j - 1, k - 1);
    }
  }

  /** The bitmap marks exactly the null parameters, and its padding bits
      past the last parameter are clear. */
  lemma {:induction false} NullBitmapBit(params: seq<Value>, i: nat)
    requires i < 8 * |NullBitmap(params)|
    ensures i < |params| ==> (NullAt(NullBitmap(params), i) <==> IsNull(params[i]))
    ensures i >= |params| ==> !NullAt(NullBitmap(params), i)
    decreases |params|
  {
    var bitmap := NullBitmap(params);
    if |params| <= 8 {
      assert i / 8 == 0 && i % 8 == i;
      assert bitmap[0] == NullBitmapByte(params);
      if i < |params| {
        NullBitmapByteBit(params, i);
      } else {
        BitAbove(bitmap[0], |params|, i);
      }
    } else if i < 8 {
      assert i / 8 == 0 && i % 8 == i;
      assert bitmap[0] == NullBitmapByte(params[..8]);
      NullBitmapByteBit(params[..8], i);
    } else {
      NullBitmapAfterFirst(params, i);
      NullBitmapBit(params[8..], i - 8);
    }
  }

  lemma NullBitmapAfterFirst(params: seq<Value>, i: nat)
    requires |params| > 8 && 8 <= i < 8 * |NullBitmap(params)|
    ensures (i - 8) < 8 * |NullBitmap(params[8..])|
    ensures NullAt(NullBitmap(params), i) == NullAt(NullBitmap(params[8..]), i - 8)
  {
    var bitmap := NullBitmap(params);
    assert bitmap[1..] == NullBitmap(params[8..]);
    assert i / 8 == (i - 8) / 8 + 1 && i % 8 == (i - 8) % 8;
  }

  /** The parameters of the several-parameters test: nulls at 3 and 8. */
  const SeveralParams: seq<Value> := [
    UInt64(0xab_ffff_abac_adae), Int64(-0xab_ffff_abac_adae), Str(Ascii("test")),
    Null, Double(0x6c6f_3095_a6ee_c056), DateVal(Date(2010, 9, 3)),
    DateTimeVal(DateTime(Date(2010, 9, 3), 10, 30, 59, 231800)), Time(829_859_231_800), Null]

  lemma NullBitmapVector()
    ensures NullBitmap(SeveralParams) == [0x08, 0x01]
  {
    var p := SeveralParams;
    assert p[..8] == [p[0], p[1], p[2], p[3], p[4], p[5], p[6], p[7]];
    assert p[8..] == [Null];
  }

  // ---------------------------------------------------------- parameter types

  /** The (type, unsigned-flag) pair of a parameter. */
  function TypePair(v: Value): (uint8, uint8)
  {
    match v
    case Null => (0x06, 0x00)
    case UInt64(_) => (0x08, 0x80)
    case Int64(_) => (0x08, 0x00)
    case Str(_) => (0x0f, 0x00)
    case Float(_) => (0x04, 0x00)
    case Double(_) => (0x05, 0x00)
    case DateVal(_) => (0x0a, 0x00)
    case DateTimeVal(_) => (0x0c, 0x00)
    case Time(_) => (0x0b, 0x00)
  }

  /** Distinct alternatives get distinct pairs, so the pair names the
      alternative a value block holds. */
  lemma TypePairInjective(a: Value, b: Value)
    ensures TypePair(a) == TypePair(b) <==> TagOf(a) == TagOf(b)
  {
  }

  function EncodeTypes(params: seq<Value>): (r: bytes)
    ensures |r| == 2 * |params|
  {
    if params == [] then []
    else [TypePair(params[0]).0, TypePair(params[0]).1] + EncodeTypes(params[1..])
  }

  function TypePairs(params: seq<Value>): seq<(uint8, uint8)>
  {
    seq(|params|, i requires 0 <= i < |params| => TypePair(params[i]))
  }

  /** The server's reading of n type pairs (reference definition). */
  function ReadTypes(s: bytes, n: nat): (r: Result<(seq<(uint8, uint8)>, bytes)>)
    ensures r.Ok? ==> |r.value.0| == n
  {
    if n == 0 then Ok(([], s))
    else if |s| < 2 then Err(IncompleteMessage)
    else
      var more :- ReadTypes(s[2..], n - 1);
      Ok(([(s[0], s[1])] + more.0, more.1))
  }

  lemma {:induction false} ReadTypesRoundTrip(params: seq<Value>, rest: bytes)
    ensures ReadTypes(EncodeTypes(params) + rest, |params|) == Ok((TypePairs(params), rest))
  {
    if params != [] {
      var s := EncodeTypes(params) + rest;
      assert s[0] == TypePair(params[0]).0 && s[1] == TypePair(params[0]).1;
      assert s[2..] == EncodeTypes(params[1..]) + rest;
      ReadTypesRoundTrip(params[1..], rest);
      assert TypePairs(params) == [TypePair(params[0])] + TypePairs(params[1..]);
    } else {
      assert TypePairs(params) == [];
      assert EncodeTypes(params) + rest == rest;
    }
  }

  // ---------------------------------------------------------- parameter values

  /** The byte ranges the wire fields of a value can hold. */
  predicate FitsWire(v: Value) {
    match v
    case Str(s) => |s| < TWO_64
    case DateVal(d) => DateFits(d)
    case DateTimeVal(dt) =>
      DateFits(dt.date) && 0 <= dt.hour < 0x100 && 0 <= dt.minute < 0x100 && 0 <= dt.second < 0x100
      && 0 <= dt.micros < 0x1_0000_0000
    case _ => true
  }

  predicate DateFits(d: Date) {
    0 <= d.year < 0x1_0000 && 0 <= d.month < 0x100 && 0 <= d.day < 0x100
  }

  /** Every calendar date inside the supported range fits the wire fields. */
  lemma InRangeDateFits(d: Date)
    requires ValidDate(d) && !IsOutOfRange(d)
    ensures FitsWire(DateVal(d))
  {
    OutOfRangeByYear(d);
  }

  /** Only strings carry a bound the encoder itself needs. */
  predicate Serializable(v: Value) {
    v.Str? ==> |v.s| < TWO_64
  }

  /** year (2, truncated to 16 bits), month, day. */
  function DateBytes(d: Date): (r: bytes)
    ensures |r| == 4
  {
    Pow256Values();
    ToLE(d.year % 0x1_0000, 2) + [d.month % 0x100, d.day % 0x100]
  }

  const DAY: nat := 86_400_000_000

  /** The fields of a time on the wire: days, hours of the day, minutes,
      seconds and microseconds of |t|. */
  function TimeFields(t: int64): (r: (nat, nat, nat, nat, nat))
    ensures r.0 < 0x1_0000_0000 && r.1 < 24 && r.2 < 60 && r.3 < 60 && r.4 < SECOND
    ensures r.0 * DAY + r.1 * HOUR + r.2 * MINUTE + r.3 * SECOND + r.4 == Abs(t)
  {
    var p := TimeParts(t);
    TimePartsDecompose(t);
    (p.0 / 24, p.0 % 24, p.1, p.2, p.3)
  }

  /** The value block of one parameter; a null contributes nothing. */
  function EncodeValue(v: Value): (r: bytes)
    requires Serializable(v)
    ensures v.Null? <==> r == []
  {
    Pow256Values();
    match v
    case Null => []
    case UInt64(u) => ToLE(u, 8)
    case Int64(i) => ToLE(ToTwos64(i), 8)
    case Str(s) => EncodeLenencString(s)
    case Float(b) => ToLE(b, 4)
    case Double(b) => ToLE(b, 8)
    case DateVal(d) => [4] + DateBytes(d)
    case DateTimeVal(dt) =>
      [11] + (DateBytes(dt.date) + ([dt.hour % 0x100, dt.minute % 0x100, dt.second % 0x100]
        + ToLE(dt.micros % 0x1_0000_0000, 4)))
    case Time(t) => [12, if t < 0 then 1 else 0] + TimeFieldBytes(TimeFields(t))
  }

  predicate AllSerializable(params: seq<Value>) {
    forall i :: 0 <= i < |params| ==> Serializable(params[i])
  }

  function EncodeValues(params: seq<Value>): bytes
    requires AllSerializable(params)
  {
    if params == [] then [] else EncodeValue(params[0]) + EncodeValues(params[1..])
  }

  function ReadDate(s: bytes): (r: Result<(Date, bytes)>)
  {
    Pow256Values();
    var year :- ReadInt(s, 2);
    var month :- ReadInt(year.1, 1);
    var day :- ReadInt(month.1, 1);
    Ok((Date(year.0, month.0, day.0), day.1))
  }

  /** The server's reading of a date block (reference definition). */
  function DecodeDate(s: bytes): (r: Result<(Value, bytes)>)
  {
    if |s| == 0 then Err(IncompleteMessage)
    else if s[0] != 4 then Err(ProtocolValueError)
    else
      var d :- ReadDate(s[1..]);
      Ok((DateVal(d.0), d.1))
  }

  /** The server's reading of a datetime block (reference definition). */
  function DecodeDateTime(s: bytes): (r: Result<(Value, bytes)>)
  {
    Pow256Values();
    if |s| == 0 then Err(IncompleteMessage)
    else if s[0] != 11 then Err(ProtocolValueError)
    else
      var d :- ReadDate(s[1..]);
      var c :- ReadClock(d.1);
      var (hour, minute, second, micros) := c.0;
      Ok((DateTimeVal(DateTime(d.0, hour, minute, second, micros)), c.1))
  }

  /** hours, minutes, seconds (1 byte each) and microseconds (4). */
  function ReadClock(s: bytes): (r: Result<((nat, nat, nat, nat), bytes)>)
  {
    Pow256Values();
    var clock :- ReadFixed(s, 3);
    var micros :- ReadInt(clock.1, 4);
    Ok(((clock.0[0], clock.0[1], clock.0[2], micros.0), micros.1))
  }

  lemma ClockRoundTrip(hour: uint8, minute: uint8, second: uint8, micros: uint32, rest: bytes)
    ensures ReadClock([hour, minute, second] + (ToLE(micros, 4) + rest)) == Ok(((hour, minute, second, micros), rest))
  {
    Pow256Values();
    ReadFixedThen([hour, minute, second], ToLE(micros, 4) + rest);
    ReadIntOfToLE(micros, 4, rest);
  }

  /** The server's reading of a time block (reference definition). */
  function DecodeTime(s: bytes): (r: Result<(Value, bytes)>)
  {
    if |s| < 2 then Err(IncompleteMessage)
    else if s[0] != 12 || s[1] > 1 then Err(ProtocolValueError)
    else
      var f :- ReadTimeFields(s[2..]);
      var (days, hours, minutes, seconds, micros) := f.0;
      var magnitude := days * DAY + hours * HOUR + minutes * MINUTE + seconds * SECOND + micros;
      var t := if s[1] == 1 then -magnitude else magnitude;
      if t < -0x8000_0000_0000_0000 || t > INT64_MAX then Err(ProtocolValueError)
      else Ok((Time(t), f.1))
  }

  /** days (4), hours, minutes, seconds (1 each), microseconds (4). */
  function TimeFieldBytes(f: (nat, nat, nat, nat, nat)): bytes
    requires f.0 < 0x1_0000_0000 && f.1 < 0x100 && f.2 < 0x100 && f.3 < 0x100 && f.4 < 0x1_0000_0000
  {
    Pow256Values();
    ToLE(f.0, 4) + ([f.1, f.2, f.3] + ToLE(f.4, 4))
  }

  function ReadTimeFields(s: bytes): (r: Result<((nat, nat, nat, nat, nat), bytes)>)
  {
    Pow256Values();
    var days :- ReadInt(s, 4);
    var clock :- ReadFixed(days.1, 3);
    var micros :- ReadInt(clock.1, 4);
    Ok(((days.0, clock.0[0], clock.0[1], clock.0[2], micros.0), micros.1))
  }

  lemma TimeFieldsRoundTrip(f: (nat, nat, nat, nat, nat), rest: bytes)
    requires f.0 < 0x1_0000_0000 && f.1 < 0x100 && f.2 < 0x100 && f.3 < 0x100 && f.4 < 0x1_0000_0000
    ensures ReadTimeFields(TimeFieldBytes(f) + rest) == Ok((f, rest))
  {
    Pow256Values();
    var clock: bytes := [f.1, f.2, f.3];
    var t := clock + (ToLE(f.4, 4) + rest);
    assert TimeFieldBytes(f) + rest == ToLE(f.0, 4) + t;
    ReadIntOfToLE(f.0, 4, t);
    ReadFixedThen(clock, ToLE(f.4, 4) + rest);
    ReadIntOfToLE(f.4, 4, rest);
  }

  /** The server's reading of one non-null value block, chosen by the
      parameter's type pair (reference definition). */
  function DecodeValue(typePair: (uint8, uint8), s: bytes): (r: Result<(Value, bytes)>)
  {
    Pow256Values();
    match typePair
    case (0x08, 0x80) => var n :- ReadInt(s, 8); Ok((UInt64(n.0), n.1))
    case (0x08, 0x00) => var n :- ReadInt(s, 8); Ok((Int64(FromTwos64(n.0)), n.1))
    case (0x0f, 0x00) => var str :- ReadLenencString(s); Ok((Str(str.0), str.1))
    case (0x04, 0x00) => var n :- ReadInt(s, 4); Ok((Float(n.0), n.1))
    case (0x05, 0x00) => var n :- ReadInt(s, 8); Ok((Double(n.0), n.1))
    case (0x0a, 0x00) => DecodeDate(s)
    case (0x0c, 0x00) => DecodeDateTime(s)
    case (0x0b, 0x00) => DecodeTime(s)
    case (0x06, 0x00) => Ok((Null, s))
    case _ => Err(ProtocolValueError)
  }

  /** The server's reading of the value blocks: a parameter marked null in
      the bitmap has none (reference definition). */
  function ReadValues(bitmap: bytes, types: seq<(uint8, uint8)>, i: nat, s: bytes): (r: Result<(seq<Value>, bytes)>)
    requires i <= |types|
    decreases |types| - i
  {
    if i == |types| then Ok(([], s))
    else
      var v :- if NullAt(bitmap, i) then Ok((Null, s)) else DecodeValue(types[i], s);
      var more :- ReadValues(bitmap, types, i + 1, v.1);
      Ok(([v.0] + more.0, more.1))
  }

  lemma DateRoundTrip(d: Date, rest: bytes)
    requires DateFits(d)
    ensures ReadDate(DateBytes(d) + rest) == Ok((d, rest))
  {
    Pow256Values();
    var t := [d.month] + ([d.day] + rest);
    DateBytesLayout(d, rest);
    ReadIntOfToLE(d.year, 2, t);
    ReadByteThen(d.month, [d.day] + rest);
    ReadByteThen(d.day, rest);
  }

  /** A date that fits is written without truncation. */
  lemma DateBytesLayout(d: Date, rest: bytes)
    requires DateFits(d)
    ensures d.year < Pow256(2)
    ensures DateBytes(d) + rest == ToLE(d.year, 2) + ([d.month] + ([d.day] + rest))
  {
    Pow256Values();
  }

  lemma DateValueRoundTrip(d: Date, rest: bytes)
    requires FitsWire(DateVal(d))
    ensures DecodeDate(EncodeValue(DateVal(d)) + rest) == Ok((DateVal(d), rest))
  {
    var s := EncodeValue(DateVal(d)) + rest;
    assert s[0] == 4 && s[1..] == DateBytes(d) + rest;
    DateRoundTrip(d, rest);
  }

  lemma DateTimeRoundTrip(dt: DateTime, rest: bytes)
    requires FitsWire(DateTimeVal(dt))
    ensures DecodeDateTime(EncodeValue(DateTimeVal(dt)) + rest) == Ok((DateTimeVal(dt), rest))
  {
    var t := [dt.hour, dt.minute, dt.second] + (ToLE(dt.micros, 4) + rest);
    var s := DateTimeLayout(dt, rest);
    assert s[0] == 11 && s[1..] == DateBytes(dt.date) + t;
    DateRoundTrip(dt.date, t);
    ClockRoundTrip(dt.hour, dt.minute, dt.second, dt.micros, rest);
  }

  lemma DateTimeLayout(dt: DateTime, rest: bytes) returns (s: bytes)
    requires FitsWire(DateTimeVal(dt))
    ensures s == EncodeValue(DateTimeVal(dt)) + rest
    ensures dt.micros < Pow256(4)
    ensures s == [11] + (DateBytes(dt.date) + ([dt.hour, dt.minute, dt.second] + (ToLE(dt.micros, 4) + rest)))
  {
    Pow256Values();
    s := EncodeValue(DateTimeVal(dt)) + rest;
    DateTimeBytesFit(dt);
    NestedConcat([11], DateBytes(dt.date), [dt.hour, dt.minute, dt.second], ToLE(dt.micros, 4), rest);
  }

  /** A date-time that fits is written without truncation. */
  lemma DateTimeBytesFit(dt: DateTime)
    requires FitsWire(DateTimeVal(dt))
    ensures dt.micros < Pow256(4)
    ensures EncodeValue(DateTimeVal(dt))
      == [11] + (DateBytes(dt.date) + ([dt.hour, dt.minute, dt.second] + ToLE(dt.micros, 4)))
  {
    Pow256Values();
    var v := DateTimeVal(dt);
    assert [dt.hour % 0x100, dt.minute % 0x100, dt.second % 0x100] == [dt.hour, dt.minute, dt.second];
    assert dt.micros % 0x1_0000_0000 == dt.micros;
    assert EncodeValue(v) == [11] + (DateBytes(dt.date) + ([dt.hour % 0x100, dt.minute % 0x100, dt.second % 0x100]
      + ToLE(dt.micros % 0x1_0000_0000, 4)));
  }

  lemma NestedConcat(a: bytes, b: bytes, c: bytes, d: bytes, rest: bytes)
    ensures (a + (b + (c + d))) + rest == a + (b + (c + (d + rest)))
  {
  }

  lemma TimeRoundTrip(x: int64, rest: bytes)
    ensures DecodeTime(EncodeValue(Time(x)) + rest) == Ok((Time(x), rest))
  {
    var f := TimeFields(x);
    var s := EncodeValue(Time(x)) + rest;
    var a := TimeFieldBytes(f) + rest;
    TimeLayout(x, rest);
    assert s[0] == 12 && s[1] == (if x < 0 then 1 else 0);
    assert s[2..] == a;
    TimeFieldsRoundTrip(f, rest);
    DecodeTimeOf(s, x < 0, f, rest, x);
  }

  lemma TimeLayout(x: int64, rest: bytes)
    ensures EncodeValue(Time(x)) + rest == [12, if x < 0 then 1 else 0] + (TimeFieldBytes(TimeFields(x)) + rest)
  {
    ConcatAssoc([12, if x < 0 then 1 else 0], TimeFieldBytes(TimeFields(x)), rest);
  }

  /** A time block whose fields add up to the magnitude of `x`, with the
      sign byte of `x`, reads as `x`. */
  lemma DecodeTimeOf(s: bytes, negative: bool, f: (nat, nat, nat, nat, nat), rest: bytes, x: int64)
    requires |s| >= 2 && s[0] == 12 && s[1] == (if negative then 1 else 0)
    requires ReadTimeFields(s[2..]) == Ok((f, rest))
    requires var m := f.0 * DAY + f.1 * HOUR + f.2 * MINUTE + f.3 * SECOND + f.4;
      x == (if negative then -m else m)
    ensures DecodeTime(s) == Ok((Time(x), rest))
  {
  }

  lemma ScalarRoundTrip(v: Value, rest: bytes)
    requires v.UInt64? || v.Int64? || v.Float? || v.Double?
    ensures DecodeValue(TypePair(v), EncodeValue(v) + rest) == Ok((v, rest))
  {
    Pow256Values();
    match v
    case UInt64(u) => ReadIntOfToLE(u, 8, rest);
    case Int64(i) => ReadIntOfToLE(ToTwos64(i), 8, rest); TwosRoundTrip(i, 0);
    case Float(b) => ReadIntOfToLE(b, 4, rest);
    case Double(b) => ReadIntOfToLE(b, 8, rest);
  }

  /** Each non-null value block, read with its own type pair, gives back the
      value. */
  lemma ValueRoundTrip(v: Value, rest: bytes)
    requires FitsWire(v) && !v.Null?
    ensures DecodeValue(TypePair(v), EncodeValue(v) + rest) == Ok((v, rest))
  {
    match v
    case Str(s) => LenencStringRoundTrip(s, rest);
    case DateVal(d) => DateValueRoundTrip(d, rest);
    case DateTimeVal(dt) => DateTimeRoundTrip(dt, rest);
    case Time(x) => TimeRoundTrip(x, rest);
    case _ => ScalarRoundTrip(v, rest);
  }

  predicate AllFitWire(params: seq<Value>) {
    forall i :: 0 <= i < |params| ==> FitsWire(params[i])
  }

  lemma FitWireSerializable(params: seq<Value>, i: nat)
    requires AllFitWire(params) && i <= |params|
    ensures AllSerializable(params[i..])
  {
    forall j | 0 <= j < |params[i..]| ensures Serializable(params[i..][j]) {
      assert FitsWire(params[i + j]);
    }
  }

  lemma {:induction false} ReadValuesRoundTrip(params: seq<Value>, i: nat, rest: bytes)
    requires i <= |params|
    requires AllFitWire(params)
    ensures AllSerializable(params[i..])
    ensures ReadValues(NullBitmap(params), TypePairs(params), i, EncodeValues(params[i..]) + rest)
      == Ok((params[i..], rest))
    decreases |params| - i
  {
    FitWireSerializable(params, i);
    if i < |params| {
      ReadValuesRoundTrip(params, i + 1, rest);
      ReadValuesCons(params, i, rest);
    } else {
      assert params[i..] == [];
      assert EncodeValues(params[i..]) + rest == rest;
    }
  }

  /** The step of the round trip: the value at `i` in front of the blocks
      after it. */
  lemma ReadValuesCons(params: seq<Value>, i: nat, rest: bytes)
    requires i < |params| && AllFitWire(params)
    requires AllSerializable(params[i + 1..])
    requires ReadValues(NullBitmap(params), TypePairs(params), i + 1, EncodeValues(params[i + 1..]) + rest)
      == Ok((params[i + 1..], rest))
    ensures AllSerializable(params[i..])
    ensures ReadValues(NullBitmap(params), TypePairs(params), i, EncodeValues(params[i..]) + rest)
      == Ok((params[i..], rest))
  {
    ConsFacts(params, i);
    ConsEncoding(params, i, rest);
    ReadValuesStep(NullBitmap(params), TypePairs(params), i, params[i], EncodeValues(params[i + 1..]) + rest,
      params[i + 1..], rest);
  }

  /** What the step needs to know about the parameter at `i`. */
  lemma ConsFacts(params: seq<Value>, i: nat)
    requires i < |params| && AllFitWire(params)
    ensures FitsWire(params[i]) && TypePairs(params)[i] == TypePair(params[i])
    ensures NullAt(NullBitmap(params), i) <==> params[i].Null?
  {
    BitmapCovers(|params|, i);
    NullBitmapBit(params, i);
  }

  /** How the blocks from `i` on split into the one at `i` and the rest. */
  lemma ConsEncoding(params: seq<Value>, i: nat, rest: bytes)
    requires i < |params| && AllFitWire(params)
    ensures AllSerializable(params[i..]) && AllSerializable(params[i + 1..])
    ensures EncodeValues(params[i..]) + rest == EncodeValue(params[i]) + (EncodeValues(params[i + 1..]) + rest)
    ensures params[i..] == [params[i]] + params[i + 1..]
  {
    FitWireSerializable(params, i);
    EncodeValuesCons(params, i);
    ConcatAssoc(EncodeValue(params[i]), EncodeValues(params[i + 1..]), rest);
  }

  lemma ConcatAssoc(a: bytes, b: bytes, c: bytes)
    ensures (a + b) + c == a + (b + c)
  {
  }

  lemma BitmapCovers(n: nat, i: nat)
    requires i < n
    ensures i < 8 * ((n + 7) / 8)
  {
  }

  lemma EncodeValuesCons(params: seq<Value>, i: nat)
    requires i < |params| && AllSerializable(params[i..])
    ensures AllSerializable(params[i + 1..])
    ensures EncodeValues(params[i..]) == EncodeValue(params[i]) + EncodeValues(params[i + 1..])
  {
    assert params[i..][0] == params[i] && params[i..][1..] == params[i + 1..];
  }

  /** One value block in front of the rest. */
  lemma ReadValuesStep(bitmap: bytes, types: seq<(uint8, uint8)>, i: nat, v: Value, after: bytes,
                       tail: seq<Value>, rest: bytes)
    requires i < |types| && types[i] == TypePair(v) && (NullAt(bitmap, i) <==> v.Null?) && FitsWire(v)
    requires ReadValues(bitmap, types, i + 1, after) == Ok((tail, rest))
    ensures ReadValues(bitmap, types, i, EncodeValue(v) + after) == Ok(([v] + tail, rest))
  {
    if !v.Null? {
      ValueRoundTrip(v, after);
    } else {
      assert EncodeValue(v) + after == after;
    }
  }

  // -------------------------------------------------------- COM_STMT_EXECUTE

  datatype ExecuteRequest = ExecuteRequest(
    statementId: uint32,
    flags: uint8,
    iterationCount: uint32,
    newParamsBound: uint8,
    params: seq<Value>)

  predicate SerializableRequest(req: ExecuteRequest) {
    AllSerializable(req.params)
  }

  /** The command byte, statement id (4), flags (1), iteration count (4),
      the null bitmap, the new-params flag (1), a type pair per parameter and
      then the value blocks in parameter order. */
  function SerializeExecute(req: ExecuteRequest): (r: bytes)
    requires SerializableRequest(req)
    ensures |r| >= 11 + |NullBitmap(req.params)| + 2 * |req.params|
    ensures r[0] == COM_STMT_EXECUTE
  {
    [COM_STMT_EXECUTE] + (ExecuteHeader(req) + ExecuteParams(req))
  }

  /** Statement id, flags and iteration count. */
  function ExecuteHeader(req: ExecuteRequest): (r: bytes)
    ensures |r| == 9
  {
    Pow256Values();
    ToLE(req.statementId, 4) + ([req.flags] + ToLE(req.iterationCount, 4))
  }

  /** Everything after the iteration count. */
  function ExecuteParams(req: ExecuteRequest): (r: bytes)
    requires SerializableRequest(req)
    ensures |r| >= |NullBitmap(req.params)| + 1 + 2 * |req.params|
  {
    NullBitmap(req.params) + ([req.newParamsBound] + (EncodeTypes(req.params) + EncodeValues(req.params)))
  }

  /** The server's reading of the command, knowing from the prepare how many
      parameters the statement has (reference definition). */
  function DeserializeExecute(s: bytes, numParams: nat): (r: Result<(ExecuteRequest, bytes)>)
  {
    if |s| == 0 then Err(IncompleteMessage)
    else if s[0] != COM_STMT_EXECUTE then Err(ProtocolValueError)
    else
      var header :- DeserializeExecuteHeader(s[1..]);
      var params :- DeserializeParams(header.1, numParams);
      var (id, flags, iterations) := header.0;
      Ok((ExecuteRequest(id, flags, iterations, params.0.0, params.0.1), params.1))
  }

  function DeserializeExecuteHeader(s: bytes): (r: Result<((uint32, uint8, uint32), bytes)>)
  {
    Pow256Values();
    var id :- ReadInt(s, 4);
    var flags :- ReadInt(id.1, 1);
    var iterations :- ReadInt(flags.1, 4);
    Ok(((id.0, flags.0, iterations.0), iterations.1))
  }

  function DeserializeParams(s: bytes, numParams: nat): (r: Result<((uint8, seq<Value>), bytes)>)
  {
    Pow256Values();
    var bitmap :- ReadFixed(s, (numParams + 7) / 8);
    var newParams :- ReadInt(bitmap.1, 1);
    var types :- ReadTypes(newParams.1, numParams);
    var values :- ReadValues(bitmap.0, types.0, 0, types.1);
    Ok(((newParams.0, values.0), values.1))
  }

  predicate WireRequest(req: ExecuteRequest) {
    AllFitWire(req.params)
  }

  lemma ExecuteHeaderRoundTrip(req: ExecuteRequest, rest: bytes)
    ensures DeserializeExecuteHeader(ExecuteHeader(req) + rest)
      == Ok(((req.statementId, req.flags, req.iterationCount), rest))
  {
    Pow256Values();
    var t2 := ToLE(req.iterationCount, 4) + rest;
    var t1 := [req.flags] + t2;
    assert ExecuteHeader(req) + rest == ToLE(req.statementId, 4) + t1;
    ReadIntOfToLE(req.statementId, 4, t1);
    ReadByteThen(req.flags, t2);
    ReadIntOfToLE(req.iterationCount, 4, rest);
  }

  lemma ExecuteParamsRoundTrip(req: ExecuteRequest, rest: bytes)
    requires WireRequest(req)
    ensures SerializableRequest(req)
    ensures DeserializeParams(ExecuteParams(req) + rest, |req.params|)
      == Ok(((req.newParamsBound, req.params), rest))
  {
    var p := req.params;
    FitWireSerializable(p, 0);
    assert p[0..] == p;
    var values := EncodeValues(p) + rest;
    var types := EncodeTypes(p) + values;
    var afterBitmap := [req.newParamsBound] + types;
    ExecuteParamsLayout(req, rest);
    ReadFixedThen(NullBitmap(p), afterBitmap);
    ReadByteThen(req.newParamsBound, types);
    ReadTypesRoundTrip(p, values);
    ReadValuesRoundTrip(p, 0, rest);
    DeserializeParamsOf(ExecuteParams(req) + rest, |p|, NullBitmap(p), afterBitmap,
      req.newParamsBound, types, TypePairs(p), values, p, rest);
  }

  lemma ExecuteParamsLayout(req: ExecuteRequest, rest: bytes)
    requires SerializableRequest(req)
    ensures ExecuteParams(req) + rest == NullBitmap(req.params)
      + ([req.newParamsBound] + (EncodeTypes(req.params) + (EncodeValues(req.params) + rest)))
  {
  }

  /** Reading the parameters is reading the bitmap, the flag, the type
      pairs and the values in turn. */
  lemma DeserializeParamsOf(s: bytes, numParams: nat, bitmap: bytes, afterBitmap: bytes, newParams: uint8,
                            types: bytes, pairs: seq<(uint8, uint8)>, values: bytes,
                            params: seq<Value>, rest: bytes)
    requires ReadFixed(s, (numParams + 7) / 8) == Ok((bitmap, afterBitmap))
    requires ReadInt(afterBitmap, 1) == Ok((newParams, types))
    requires ReadTypes(types, numParams) == Ok((pairs, values))
    requires ReadValues(bitmap, pairs, 0, values) == Ok((params, rest))
    ensures DeserializeParams(s, numParams) == Ok(((newParams, params), rest))
  {
  }

  /** Reading the command back with the statement's parameter count gives
      every header field and every parameter. */
  lemma ExecuteRoundTrip(req: ExecuteRequest, rest: bytes)
    requires WireRequest(req)
    ensures SerializableRequest(req)
    ensures DeserializeExecute(SerializeExecute(req) + rest, |req.params|) == Ok((req, rest))
  {
    ExecuteParamsRoundTrip(req, rest);
    var params := ExecuteParams(req) + rest;
    assert SerializeExecute(req) == [COM_STMT_EXECUTE] + (ExecuteHeader(req) + ExecuteParams(req));
    NestedConcat([COM_STMT_EXECUTE], ExecuteHeader(req), [], ExecuteParams(req), rest);
    assert [] + ExecuteParams(req) == ExecuteParams(req);
    assert [] + params == params;
    DeserializeExecuteOf(req, params, |req.params|, rest);
  }

  lemma DeserializeExecuteOf(req: ExecuteRequest, params: bytes, numParams: nat, rest: bytes)
    requires DeserializeParams(params, numParams) == Ok(((req.newParamsBound, req.params), rest))
    ensures DeserializeExecute([COM_STMT_EXECUTE] + (ExecuteHeader(req) + params), numParams) == Ok((req, rest))
  {
    var s := [COM_STMT_EXECUTE] + (ExecuteHeader(req) + params);
    assert s[1..] == ExecuteHeader(req) + params;
    ExecuteHeaderRoundTrip(req, params);
  }

  // The unit test vectors, byte for byte. Each request is written field by
  // field: command byte, statement id, flags, iteration count, null bitmap,
  // new-params flag, type pairs and values.

  /** A request with one parameter lays out its bitmap, type pair and value
      directly after the header. */
  lemma OneParamLayout(id: uint32, flags: uint8, v: Value)
    requires Serializable(v)
    ensures SerializeExecute(ExecuteRequest(id, flags, 1, 1, [v]))
      == [COM_STMT_EXECUTE] + (ExecuteHeader(ExecuteRequest(id, flags, 1, 1, [v]))
         + ([if v.Null? then 1 else 0] + ([1] + ([TypePair(v).0, TypePair(v).1] + EncodeValue(v)))))
  {
    OneParamBitmap(v);
    OneParamFields(v);
  }

  lemma OneParamBitmap(v: Value)
    ensures NullBitmap([v]) == [if v.Null? then 1 else 0]
  {
    assert [v][1..] == [];
    assert NullBitmapByte([v]) == if v.Null? then 1 else 0;
  }

  lemma OneParamFields(v: Value)
    requires Serializable(v)
    ensures EncodeTypes([v]) == [TypePair(v).0, TypePair(v).1]
    ensures EncodeValues([v]) == EncodeValue(v)
  {
    assert [v][1..] == [];
    assert EncodeTypes([v]) == [TypePair(v).0, TypePair(v).1] + [];
    assert EncodeValues([v]) == EncodeValue(v) + [];
  }

  /** Statement id 1, the given flags byte and one iteration. */
  lemma HeaderVector(flags: uint8, params: seq<Value>)
    ensures ExecuteHeader(ExecuteRequest(1, flags, 1, 1, params)) == [0x01, 0x00, 0x00, 0x00, flags, 0x01, 0x00, 0x00, 0x00]
  {
    Pow256Values();
    assert ToLE(1, 4) == [0x01, 0x00, 0x00, 0x00];
  }

  lemma UInt64Vector()
    ensures EncodeValue(UInt64(0xab_ffff_abac_adae)) == [0xae, 0xad, 0xac, 0xab, 0xff, 0xff, 0xab, 0x00]
  {
    assert ToLE(0xab_ffff_abac_adae, 8) == [0xae, 0xad, 0xac, 0xab, 0xff, 0xff, 0xab, 0x00];
  }

  lemma SmallUInt64Vector()
    ensures EncodeValue(UInt64(0xab_ffff)) == [0xff, 0xff, 0xab, 0x00, 0x00, 0x00, 0x00, 0x00]
  {
    assert ToLE(0xab_ffff, 8) == [0xff, 0xff, 0xab, 0x00, 0x00, 0x00, 0x00, 0x00];
  }

  /** -0xabffffabacadae in two's complement, little-endian. */
  lemma Int64Vector()
    ensures EncodeValue(Int64(-0xab_ffff_abac_adae)) == [0x52, 0x52, 0x53, 0x54, 0x00, 0x00, 0x54, 0xff]
  {
    var u := ToTwos64(-0xab_ffff_abac_adae);
    assert u == 0xff54_0000_5453_5252;
    assert ToLE(0xff54_0000_5453_5252, 8) == [0x52, 0x52, 0x53, 0x54, 0x00, 0x00, 0x54, 0xff];
  }

  lemma StringVector()
    ensures EncodeValue(Str(Ascii("test"))) == [0x04, 0x74, 0x65, 0x73, 0x74]
  {
    assert "test"[1..] == "est" && "est"[1..] == "st" && "st"[1..] == "t" && "t"[1..] == [];
    assert Ascii("test") == [0x74, 0x65, 0x73, 0x74];
    assert EncodeLenenc(4) == [0x04];
  }

  lemma FloatVector()
    ensures EncodeValue(Float(0x6188_2d01)) == [0x01, 0x2d, 0x88, 0x61]
  {
    assert ToLE(0x6188_2d01, 4) == [0x01, 0x2d, 0x88, 0x61];
  }

  lemma DoubleVector()
    ensures EncodeValue(Double(0x6c6f_3095_a6ee_c056)) == [0x56, 0xc0, 0xee, 0xa6, 0x95, 0x30, 0x6f, 0x6c]
  {
    assert ToLE(0x6c6f_3095_a6ee_c056, 8) == [0x56, 0xc0, 0xee, 0xa6, 0x95, 0x30, 0x6f, 0x6c];
  }

  lemma DateVector()
    ensures EncodeValue(DateVal(Date(2010, 9, 3))) == [0x04, 0xda, 0x07, 0x09, 0x03]
  {
    assert DateBytes(Date(2010, 9, 3)) == [0xda, 0x07, 0x09, 0x03];
  }

  lemma DateTimeVector()
    ensures EncodeValue(DateTimeVal(DateTime(Date(2010, 9, 3), 10, 30, 59, 231800)))
      == [0x0b, 0xda, 0x07, 0x09, 0x03, 0x0a, 0x1e, 0x3b, 0x78, 0x89, 0x03, 0x00]
  {
    var dt := DateTime(Date(2010, 9, 3), 10, 30, 59, 231800);
    DateTimeBytesFit(dt);
    assert DateBytes(Date(2010, 9, 3)) == [0xda, 0x07, 0x09, 0x03];
    assert ToLE(231800, 4) == [0x78, 0x89, 0x03, 0x00];
  }

  /** 230:30:59.231800 is 829 859 231 800 microseconds: 9 days and 14 hours. */
  lemma TimeVector()
    ensures TimeFields(829_859_231_800) == (9, 14, 30, 59, 231800)
    ensures EncodeValue(Time(829_859_231_800)) == [0x0c, 0x00, 0x09, 0x00, 0x00, 0x00, 0x0e, 0x1e, 0x3b, 0x78, 0x89, 0x03, 0x00]
  {
    var t := 829_859_231_800;
    assert TruncDiv(t, HOUR) == 230 && TruncMod(t, HOUR) == 1_859_231_800;
    assert TruncDiv(1_859_231_800, MINUTE) == 30 && TruncMod(t, MINUTE) == 59_231_800;
    assert TruncDiv(59_231_800, SECOND) == 59 && TruncMod(t, SECOND) == 231_800;
    assert TimeParts(t) == (230, 30, 59, 231800);
  }

  lemma ExecuteUInt64Vector()
    ensures SerializeExecute(ExecuteRequest(1, 0x80, 1, 1, [UInt64(0xab_ffff_abac_adae)])) ==
      [0x17] + ([0x01, 0x00, 0x00, 0x00, 0x80, 0x01, 0x00, 0x00, 0x00] + ([0x00] + ([0x01] + ([0x08, 0x80] +
      [0xae, 0xad, 0xac, 0xab, 0xff, 0xff, 0xab, 0x00]))))
  {
    OneParamLayout(1, 0x80, UInt64(0xab_ffff_abac_adae));
    HeaderVector(0x80, [UInt64(0xab_ffff_abac_adae)]);
    UInt64Vector();
  }

  lemma ExecuteInt64Vector()
    ensures SerializeExecute(ExecuteRequest(1, 0, 1, 1, [Int64(-0xab_ffff_abac_adae)])) ==
      [0x17] + ([0x01, 0x00, 0x00, 0x00, 0x00, 0x01, 0x00, 0x00, 0x00] + ([0x00] + ([0x01] + ([0x08, 0x00] +
      [0x52, 0x52, 0x53, 0x54, 0x00, 0x00, 0x54, 0xff]))))
  {
    OneParamLayout(1, 0, Int64(-0xab_ffff_abac_adae));
    HeaderVector(0, [Int64(-0xab_ffff_abac_adae)]);
    Int64Vector();
  }

  lemma ExecuteStringVector()
    ensures SerializeExecute(ExecuteRequest(1, 0, 1, 1, [Str(Ascii("test"))])) ==
      [0x17] + ([0x01, 0x00, 0x00, 0x00, 0x00, 0x01, 0x00, 0x00, 0x00] + ([0x00] + ([0x01] + ([0x0f, 0x00] +
      [0x04, 0x74, 0x65, 0x73, 0x74]))))
  {
    OneParamLayout(1, 0, Str(Ascii("test")));
    HeaderVector(0, [Str(Ascii("test"))]);
    StringVector();
  }

  /** 0x61882d01 is the bit pattern of 3.14e20f. */
  lemma ExecuteFloatVector()
    ensures SerializeExecute(ExecuteRequest(1, 0, 1, 1, [Float(0x6188_2d01)])) ==
      [0x17] + ([0x01, 0x00, 0x00, 0x00, 0x00, 0x01, 0x00, 0x00, 0x00] + ([0x00] + ([0x01] + ([0x04, 0x00] +
      [0x01, 0x2d, 0x88, 0x61]))))
  {
    OneParamLayout(1, 0, Float(0x6188_2d01));
    HeaderVector(0, [Float(0x6188_2d01)]);
    FloatVector();
  }

  /** 0x6c6f3095a6eec056 is the bit pattern of 2.1e214. */
  lemma ExecuteDoubleVector()
    ensures SerializeExecute(ExecuteRequest(1, 0, 1, 1, [Double(0x6c6f_3095_a6ee_c056)])) ==
      [0x17] + ([0x01, 0x00, 0x00, 0x00, 0x00, 0x01, 0x00, 0x00, 0x00] + ([0x00] + ([0x01] + ([0x05, 0x00] +
      [0x56, 0xc0, 0xee, 0xa6, 0x95, 0x30, 0x6f, 0x6c]))))
  {
    OneParamLayout(1, 0, Double(0x6c6f_3095_a6ee_c056));
    HeaderVector(0, [Double(0x6c6f_3095_a6ee_c056)]);
    DoubleVector();
  }

  lemma ExecuteDateVector()
    ensures SerializeExecute(ExecuteRequest(1, 0, 1, 1, [DateVal(Date(2010, 9, 3))])) ==
      [0x17] + ([0x01, 0x00, 0x00, 0x00, 0x00, 0x01, 0x00, 0x00, 0x00] + ([0x00] + ([0x01] + ([0x0a, 0x00] +
      [0x04, 0xda, 0x07, 0x09, 0x03]))))
  {
    OneParamLayout(1, 0, DateVal(Date(2010, 9, 3)));
    HeaderVector(0, [DateVal(Date(2010, 9, 3))]);
    DateVector();
  }

  lemma ExecuteDateTimeVector()
    ensures SerializeExecute(ExecuteRequest(1, 0, 1, 1, [DateTimeVal(DateTime(Date(2010, 9, 3), 10, 30, 59, 231800))])) ==
      [0x17] + ([0x01, 0x00, 0x00, 0x00, 0x00, 0x01, 0x00, 0x00, 0x00] + ([0x00] + ([0x01] + ([0x0c, 0x00] +
      [0x0b, 0xda, 0x07, 0x09, 0x03, 0x0a, 0x1e, 0x3b, 0x78, 0x89, 0x03, 0x00]))))
  {
    OneParamLayout(1, 0, DateTimeVal(DateTime(Date(2010, 9, 3), 10, 30, 59, 231800)));
    HeaderVector(0, [DateTimeVal(DateTime(Date(2010, 9, 3), 10, 30, 59, 231800))]);
    DateTimeVector();
  }

  lemma ExecuteTimeVector()
    ensures SerializeExecute(ExecuteRequest(1, 0, 1, 1, [Time(829_859_231_800)])) ==
      [0x17] + ([0x01, 0x00, 0x00, 0x00, 0x00, 0x01, 0x00, 0x00, 0x00] + ([0x00] + ([0x01] + ([0x0b, 0x00] +
      [0x0c, 0x00, 0x09, 0x00, 0x00, 0x00, 0x0e, 0x1e, 0x3b, 0x78, 0x89, 0x03, 0x00]))))
  {
    OneParamLayout(1, 0, Time(829_859_231_800));
    HeaderVector(0, [Time(829_859_231_800)]);
    TimeVector();
  }

  lemma ExecuteSmallUInt64Vector()
    ensures SerializeExecute(ExecuteRequest(1, 0x80, 1, 1, [UInt64(0xab_ffff)])) ==
      [0x17] + ([0x01, 0x00, 0x00, 0x00, 0x80, 0x01, 0x00, 0x00, 0x00] + ([0x00] + ([0x01] + ([0x08, 0x80] +
      [0xff, 0xff, 0xab, 0x00, 0x00, 0x00, 0x00, 0x00]))))
  {
    OneParamLayout(1, 0x80, UInt64(0xab_ffff));
    HeaderVector(0x80, [UInt64(0xab_ffff)]);
    SmallUInt64Vector();
  }

  lemma ExecuteNullVector()
    ensures SerializeExecute(ExecuteRequest(1, 0, 1, 1, [Null])) ==
      [0x17] + ([0x01, 0x00, 0x00, 0x00, 0x00, 0x01, 0x00, 0x00, 0x00] + ([0x01] + ([0x01] + [0x06, 0x00])))
  {
    OneParamLayout(1, 0, Null);
    HeaderVector(0, [Null]);
    assert [0x06, 0x00] + [] == [0x06, 0x00];
  }

  /** The values of the nine parameters, one after the other: the two NULLs
      take no bytes. */
  lemma SeveralParamsValues()
    ensures EncodeValues(SeveralParams) ==
      [0xae, 0xad, 0xac, 0xab, 0xff, 0xff, 0xab, 0x00] + ([0x52, 0x52, 0x53, 0x54, 0x00, 0x00, 0x54, 0xff] + ([0x04, 0x74, 0x65, 0x73, 0x74] + ([0x56, 0xc0, 0xee, 0xa6, 0x95, 0x30, 0x6f, 0x6c] + ([0x04, 0xda, 0x07, 0x09, 0x03] + ([0x0b, 0xda, 0x07, 0x09, 0x03, 0x0a, 0x1e, 0x3b, 0x78, 0x89, 0x03, 0x00] + [0x0c, 0x00, 0x09, 0x00, 0x00, 0x00, 0x0e, 0x1e, 0x3b, 0x78, 0x89, 0x03, 0x00])))))
  {
    NullsAtThreeAndEight(SeveralParams);
    UInt64Vector();
    Int64Vector();
    StringVector();
    DoubleVector();
    DateVector();
    DateTimeVector();
    TimeVector();
  }

  /** Nine values whose fourth and ninth are NULL, one after the other. */
  lemma NullsAtThreeAndEight(p: seq<Value>)
    requires |p| == 9 && AllSerializable(p) && p[3] == Null && p[8] == Null
    ensures EncodeValues(p) == EncodeValue(p[0]) + (EncodeValue(p[1]) + (EncodeValue(p[2]) + (EncodeValue(p[4]) + (EncodeValue(p[5]) + (EncodeValue(p[6]) + EncodeValue(p[7]))))))
  {
    assert p[9..] == [];
    EncodeValuesAt(p, 8);
    EncodeValuesAt(p, 7);
    assert EncodeValues(p[7..]) == EncodeValue(p[7]) + [] == EncodeValue(p[7]);
    EncodeValuesAt(p, 6);
    EncodeValuesAt(p, 5);
    EncodeValuesAt(p, 4);
    EncodeValuesAt(p, 3);
    assert EncodeValues(p[3..]) == [] + EncodeValues(p[4..]) == EncodeValues(p[4..]);
    EncodeValuesAt(p, 2);
    EncodeValuesAt(p, 1);
    EncodeValuesAt(p, 0);
    assert p[0..] == p;
  }

  lemma EncodeValuesAt(params: seq<Value>, k: nat)
    requires k < |params| && AllSerializable(params)
    ensures EncodeValues(params[k..]) == EncodeValue(params[k]) + EncodeValues(params[k + 1..])
  {
    assert params[k..][1..] == params[k + 1..];
  }

  lemma SeveralParamsTypes()
    ensures EncodeTypes(SeveralParams) == [0x08, 0x80, 0x08, 0x00, 0x0f, 0x00, 0x06, 0x00, 0x05, 0x00,
      0x0a, 0x00, 0x0c, 0x00, 0x0b, 0x00, 0x06, 0x00]
  {
  }

  /** The nine-parameter vector, field by field: command byte, header, null
      bitmap, new-params flag, type pairs, values. */
  lemma ExecuteSeveralParamsVector()
    ensures SerializeExecute(ExecuteRequest(2, 0, 1, 1, SeveralParams)) ==
      [0x17] + ([0x02, 0x00, 0x00, 0x00, 0x00, 0x01, 0x00, 0x00, 0x00] + ([0x08, 0x01] + ([0x01] + (
      [0x08, 0x80, 0x08, 0x00, 0x0f, 0x00, 0x06, 0x00, 0x05, 0x00, 0x0a, 0x00, 0x0c, 0x00, 0x0b, 0x00, 0x06, 0x00] + (
      [0xae, 0xad, 0xac, 0xab, 0xff, 0xff, 0xab, 0x00] + ([0x52, 0x52, 0x53, 0x54, 0x00, 0x00, 0x54, 0xff] + ([0x04, 0x74, 0x65, 0x73, 0x74] + ([0x56, 0xc0, 0xee, 0xa6, 0x95, 0x30, 0x6f, 0x6c] + ([0x04, 0xda, 0x07, 0x09, 0x03] + ([0x0b, 0xda, 0x07, 0x09, 0x03, 0x0a, 0x1e, 0x3b, 0x78, 0x89, 0x03, 0x00] + [0x0c, 0x00, 0x09, 0x00, 0x00, 0x00, 0x0e, 0x1e, 0x3b, 0x78, 0x89, 0x03, 0x00]))))))))))
  {
    var req := ExecuteRequest(2, 0, 1, 1, SeveralParams);
    assert ExecuteHeader(req) == [0x02, 0x00, 0x00, 0x00, 0x00, 0x01, 0x00, 0x00, 0x00];
    NullBitmapVector();
    SeveralParamsTypes();
    SeveralParamsValues();
  }

  // ---------------------------------------------------------- COM_STMT_CLOSE

  /** The command byte and the 4-byte statement id. */
  function SerializeClose(statementId: uint32): (r: bytes)
    ensures |r| == 5 && r[0] == COM_STMT_CLOSE
  {
    Pow256Values();
    [COM_STMT_CLOSE] + ToLE(statementId, 4)
  }

  /** The server's reading of the command (reference definition). */
  function DeserializeClose(s: bytes): (r: Result<(uint32, bytes)>)
  {
    Pow256Values();
    if |s| == 0 then Err(IncompleteMessage)
    else if s[0] != COM_STMT_CLOSE then Err(ProtocolValueError)
    else
      var id :- ReadInt(s[1..], 4);
      Ok((id.0, id.1))
  }

  lemma CloseRoundTrip(statementId: uint32, rest: bytes)
    ensures DeserializeClose(SerializeClose(statementId) + rest) == Ok((statementId, rest))
  {
    Pow256Values();
    assert (SerializeClose(statementId) + rest)[1..] == ToLE(statementId, 4) + rest;
    ReadIntOfToLE(statementId, 4, rest);
  }

  lemma CloseVector()
    ensures SerializeClose(1) == [0x19, 0x01, 0x00, 0x00, 0x00]
  {
  }
}
