/** The generic execute pipeline shared by text queries and prepared
    statements: serialise the request, reset the sequence number, send it,
    classify the first response (OK packet, error packet, or the number of
    column definitions that follow), read exactly that many column
    definitions and build the resultset.

    The channel is modelled as a queue of read outcomes (a packet or a
    transport error) and a log of what the client sent. The decoders of the
    OK packet, the error packet and the column definition are not part of
    this model and are passed in. */
module ExecuteGeneric {
  import opened Errors
  import opened Bytes
  import opened StatementMessages

  const OK_PACKET_HEADER: uint8 := 0x00
  const ERROR_PACKET_HEADER: uint8 := 0xff
  const COM_QUERY: uint8 := 0x03

  // ------------------------------------------------------------------ packets

  datatype OkPacket = OkPacket(
    affectedRows: uint64,
    lastInsertId: uint64,
    statusFlags: uint16,
    warnings: uint16,
    info: bytes)

  /** The OK packet a fresh processor holds before any response. */
  const EMPTY_OK: OkPacket := OkPacket(0, 0, 0, 0, [])

  datatype ErrPacket = ErrPacket(errorCode: uint16, sqlState: bytes, errorMessage: string)

  datatype ColumnDefinition = ColumnDefinition(
    schema: bytes,
    table: bytes,
    orgTable: bytes,
    name: bytes,
    orgName: bytes,
    characterSet: uint16,
    columnLength: uint32,
    columnType: uint8,
    flags: uint16,
    decimals: uint8)

  /** The decoders left opaque, each reading a whole packet body under the
      channel's capabilities, and the platform's largest `size_t`. */
  datatype Decoders = Decoders(
    okPacket: (bytes, uint32) -> Result<OkPacket>,
    errPacket: (bytes, uint32) -> Result<ErrPacket>,
    columnDefinition: (bytes, uint32) -> Result<ColumnDefinition>,
    sizeMax: nat)

  /** Which row deserialiser the resultset will use. */
  datatype RowFormat = TextRows | BinaryRows

  datatype Resultset =
    | NoResultset
    | OkResultset(buffer: bytes, ok: OkPacket)
    | RowsResultset(fieldBuffers: seq<bytes>, fields: seq<ColumnDefinition>, rowFormat: RowFormat)

  // ----------------------------------------------------------------- requests

  datatype Request = ComQuery(query: bytes) | ComStmtExecute(statement: ExecuteRequest)

  predicate ValidRequest(req: Request) {
    req.ComStmtExecute? ==> SerializableRequest(req.statement)
  }

  /** The request as sent. Neither command's layout depends on the
      capabilities. */
  function Serialize(req: Request, caps: uint32): (r: bytes)
    requires ValidRequest(req)
    ensures |r| >= 1
    ensures r[0] == if req.ComQuery? then COM_QUERY else COM_STMT_EXECUTE
    ensures req.ComQuery? ==> r[1..] == req.query
  {
    match req
    case ComQuery(q) => [COM_QUERY] + q
    case ComStmtExecute(s) => SerializeExecute(s)
  }

  // ------------------------------------------------------ the first response

  datatype Response = OkResponse(ok: OkPacket) | FieldCount(count: nat)

  /** The reading of the first response and, for a decoded error packet, the
      server's message. */
  datatype Classified = Classified(result: Result<Response>, message: Option<string>)

  /** What `process_response` makes of the first response packet. */
  function ClassifyResponse(d: Decoders, caps: uint32, buffer: bytes): (c: Classified)
    ensures c.message.Some? ==> c.result.Err? && c.result.error.ServerError?
    ensures c.result.Ok? && c.result.value.FieldCount? ==> 1 <= c.result.value.count <= d.sizeMax
    ensures buffer == [] ==> c == Classified(Err(IncompleteMessage), None)
  {
    if buffer == [] then Classified(Err(IncompleteMessage), None)
    else if buffer[0] == OK_PACKET_HEADER then
      match d.okPacket(buffer[1..], caps)
      case Err(e) => Classified(Err(e), None)
      case Ok(ok) => Classified(Ok(OkResponse(ok)), None)
    else if buffer[0] == ERROR_PACKET_HEADER then
      match d.errPacket(buffer[1..], caps)
      case Err(e) => Classified(Err(e), None)
      case Ok(p) => Classified(Err(ServerError(p.errorCode)), Some(p.errorMessage))
    else
      match DecodeLenenc(buffer)
      case Err(e) => Classified(Err(e), None)
      case Ok((n, rest)) =>
        if rest != [] then Classified(Err(ExtraBytes), None)
        else if n > d.sizeMax then Classified(Err(ProtocolValueError), None)
        else if n == 0 then Classified(Err(ProtocolValueError), None)
        else Classified(Ok(FieldCount(n)), None)
  }

  /** A field count the platform can hold, sent on its own, announces that
      many column definitions. */
  lemma ClassifyFieldCount(d: Decoders, caps: uint32, n: uint64)
    requires 1 <= n <= d.sizeMax
    ensures ClassifyResponse(d, caps, EncodeLenenc(n)) == Classified(Ok(FieldCount(n)), None)
  {
    LenencTiers(n);
    LenencRoundTrip(n, []);
    assert EncodeLenenc(n) + [] == EncodeLenenc(n);
  }

  /** Any non-zero count, in one byte or behind a marker, followed by more
      bytes is extra_bytes; one above the platform's `size_t` on its own is a
      protocol error. (A lone zero byte is the OK header; a zero count behind
      a marker is ClassifyZeroFieldCount.) */
  lemma ClassifyBadFieldCount(d: Decoders, caps: uint32, n: uint64, rest: bytes)
    requires n >= 1 && (n > d.sizeMax || rest != [])
    ensures ClassifyResponse(d, caps, EncodeLenenc(n) + rest).result
      == Err(if rest != [] then ExtraBytes else ProtocolValueError)
  {
    LenencTiers(n);
    LenencRoundTrip(n, rest);
  }

  /** A zero count spelt with the two-byte marker reaches the zero check. */
  lemma ClassifyZeroFieldCount(d: Decoders, caps: uint32)
    ensures ClassifyResponse(d, caps, [0xfc, 0x00, 0x00]).result == Err(ProtocolValueError)
  {
    Pow256Values();
    assert [0xfc, 0x00, 0x00][1..] == ToLE(0, 2);
    ReadIntOfToLE(0, 2, []);
    assert ToLE(0, 2) + [] == ToLE(0, 2);
  }

  /** An OK packet's body is handed to the OK decoder; an error packet's to
      the error decoder, and the server's code becomes the error. */
  lemma ClassifyHeaders(d: Decoders, caps: uint32, body: bytes)
    ensures var c := ClassifyResponse(d, caps, [OK_PACKET_HEADER] + body);
      match d.okPacket(body, caps)
      case Ok(ok) => c == Classified(Ok(OkResponse(ok)), None)
      case Err(e) => c == Classified(Err(e), None)
    ensures var c := ClassifyResponse(d, caps, [ERROR_PACKET_HEADER] + body);
      match d.errPacket(body, caps)
      case Ok(p) => c == Classified(Err(ServerError(p.errorCode)), Some(p.errorMessage))
      case Err(e) => c == Classified(Err(e), None)
  {
    assert ([OK_PACKET_HEADER] + body)[1..] == body;
    assert ([ERROR_PACKET_HEADER] + body)[1..] == body;
  }

  // ------------------------------------------------- the column definitions

  /** The i-th queued read outcome is a packet that decodes as a column
      definition. */
  predicate GoodField(d: Decoders, caps: uint32, input: seq<Result<bytes>>, i: nat) {
    i < |input| && input[i].Ok? && d.columnDefinition(input[i].value, caps).Ok?
  }

  /** The error that reading the i-th column definition stops with. */
  function FailureAt(d: Decoders, caps: uint32, input: seq<Result<bytes>>, i: nat): Errc
    requires !GoodField(d, caps, input, i)
  {
    if i >= |input| then EndOfStream
    else if input[i].Err? then input[i].error
    else d.columnDefinition(input[i].value, caps).error
  }

  datatype FieldsRun = FieldsRun(result: Result<(seq<ColumnDefinition>, seq<bytes>)>, consumed: nat)

  /** Reading `n` column definitions from the queued read outcomes (reference
      definition): the definitions and their packets, in order, or the first
      failure; `consumed` counts the outcomes taken from the queue. */
  function ReadFields(d: Decoders, caps: uint32, input: seq<Result<bytes>>, n: nat): (r: FieldsRun)
    ensures r.consumed <= |input| && r.consumed <= n
    ensures r.result.Ok? ==> r.consumed == n && |r.result.value.0| == n && |r.result.value.1| == n
  {
    if n == 0 then FieldsRun(Ok(([], [])), 0)
    else
      var prev := ReadFields(d, caps, input, n - 1);
      if prev.result.Err? then prev
      else
        var k := prev.consumed;
        if k == |input| then FieldsRun(Err(EndOfStream), k)
        else
          match input[k]
          case Err(e) => FieldsRun(Err(e), k + 1)
          case Ok(packet) =>
            match d.columnDefinition(packet, caps)
            case Err(e) => FieldsRun(Err(e), k + 1)
            case Ok(f) => FieldsRun(Ok((prev.result.value.0 + [f], prev.result.value.1 + [packet])), k + 1)
  }

  /** When every one of the first `n` outcomes is a good definition packet,
      the run keeps each packet and its decoded definition, in order. */
  lemma {:induction false} ReadFieldsAllGood(d: Decoders, caps: uint32, input: seq<Result<bytes>>, n: nat)
    requires forall j :: 0 <= j < n ==> GoodField(d, caps, input, j)
    ensures var r := ReadFields(d, caps, input, n);
      r.result.Ok? && r.consumed == n
      && (forall j :: 0 <= j < n ==>
            GoodField(d, caps, input, j) && r.result.value.1[j] == input[j].value
            && r.result.value.0[j] == d.columnDefinition(input[j].value, caps).value)
  {
    if n > 0 {
      ReadFieldsAllGood(d, caps, input, n - 1);
      assert GoodField(d, caps, input, n - 1);
    }
  }

  /** Otherwise the run stops at the first bad outcome, with its error,
      having taken it from the queue unless the queue ran dry. */
  lemma {:induction false} ReadFieldsFirstFailure(d: Decoders, caps: uint32, input: seq<Result<bytes>>, n: nat, k: nat)
    requires k < n
    requires forall j :: 0 <= j < k ==> GoodField(d, caps, input, j)
    requires !GoodField(d, caps, input, k)
    ensures ReadFields(d, caps, input, n).result == Err(FailureAt(d, caps, input, k))
    ensures ReadFields(d, caps, input, n).consumed == if k < |input| then k + 1 else k
  {
    if n - 1 == k {
      ReadFieldsAllGood(d, caps, input, k);
      if k > 0 { assert GoodField(d, caps, input, k - 1); }
    } else {
      ReadFieldsFirstFailure(d, caps, input, n - 1, k);
    }
  }

  /** One more definition after a clean run of `i`: the queue running dry, a
      failed read, a failed decode, or one more entry in each vector. */
  lemma ReadFieldsStep(d: Decoders, caps: uint32, input: seq<Result<bytes>>, i: nat,
                       fields: seq<ColumnDefinition>, buffers: seq<bytes>)
    requires ReadFields(d, caps, input, i) == FieldsRun(Ok((fields, buffers)), i)
    ensures i == |input| ==> ReadFields(d, caps, input, i + 1) == FieldsRun(Err(EndOfStream), i)
    ensures i < |input| && input[i].Err? ==> ReadFields(d, caps, input, i + 1) == FieldsRun(Err(input[i].error), i + 1)
    ensures i < |input| && input[i].Ok? ==>
      var f := d.columnDefinition(input[i].value, caps);
      ReadFields(d, caps, input, i + 1) ==
        if f.Err? then FieldsRun(Err(f.error), i + 1)
        else FieldsRun(Ok((fields + [f.value], buffers + [input[i].value])), i + 1)
  {
  }

  /** A run that has failed stays failed, however many more definitions were
      announced. */
  lemma {:induction false} ReadFieldsFailurePersists(d: Decoders, caps: uint32, input: seq<Result<bytes>>, k: nat, n: nat)
    requires k <= n && ReadFields(d, caps, input, k).result.Err?
    ensures ReadFields(d, caps, input, n) == ReadFields(d, caps, input, k)
    decreases n - k
  {
    if n > k {
      ReadFieldsFailurePersists(d, caps, input, k, n - 1);
    }
  }

  // -------------------------------------------------------- the whole run

  /** The outcome of a run: the resultset or the error, the server's message
      when an error packet was decoded, how many read outcomes were taken
      from the queue and whether the request was written. */
  datatype Run = Run(result: Result<Resultset>, message: Option<string>, consumed: nat, wrote: bool)

  /** The execute pipeline on its inputs (reference definition). */
  function ExecuteSpec(d: Decoders, rowFormat: RowFormat, caps: uint32, writeFailure: Option<Errc>,
                       input: seq<Result<bytes>>): (r: Run)
    ensures r.consumed <= |input|
    ensures r.result.Ok? ==> r.result.value.OkResultset? || r.result.value.RowsResultset?
  {
    if writeFailure.Some? then Run(Err(writeFailure.value), None, 0, false)
    else if input == [] then Run(Err(EndOfStream), None, 0, true)
    else
      match input[0]
      case Err(e) => Run(Err(e), None, 1, true)
      case Ok(buffer) =>
        var c := ClassifyResponse(d, caps, buffer);
        match c.result
        case Err(e) => Run(Err(e), c.message, 1, true)
        case Ok(OkResponse(ok)) => Run(Ok(OkResultset(buffer, ok)), None, 1, true)
        case Ok(FieldCount(n)) =>
          var f := ReadFields(d, caps, input[1..], n);
          match f.result
          case Err(e) => Run(Err(e), None, 1 + f.consumed, true)
          case Ok((fields, buffers)) => Run(Ok(RowsResultset(buffers, fields, rowFormat)), None, 1 + n, true)
  }

  /** The first response determines the shape: an OK packet gives the
      OK-shaped resultset holding that packet, read alone; a field count n
      gives, on success, exactly n definitions with their n packets, in the
      order read, after 1 + n reads. */
  lemma ExecuteShape(d: Decoders, rowFormat: RowFormat, caps: uint32, input: seq<Result<bytes>>)
    requires input != [] && input[0].Ok?
    ensures var r := ExecuteSpec(d, rowFormat, caps, None, input);
      var c := ClassifyResponse(d, caps, input[0].value);
      (c.result.Ok? && c.result.value.OkResponse? ==>
        r.result == Ok(OkResultset(input[0].value, c.result.value.ok)) && r.consumed == 1)
      && (r.result.Ok? && r.result.value.RowsResultset? ==>
        c.result.Ok? && c.result.value.FieldCount?
        && |r.result.value.fields| == c.result.value.count
        && |r.result.value.fieldBuffers| == c.result.value.count
        && r.consumed == 1 + c.result.value.count
        && forall j :: 0 <= j < c.result.value.count ==>
             GoodField(d, caps, input[1..], j) && r.result.value.fieldBuffers[j] == input[1 + j].value
             && r.result.value.fields[j] == d.columnDefinition(input[1 + j].value, caps).value)
  {
    var c := ClassifyResponse(d, caps, input[0].value);
    if c.result.Ok? && c.result.value.FieldCount? {
      var n := c.result.value.count;
      var tail := input[1..];
      if ReadFields(d, caps, tail, n).result.Ok? {
        var k := FirstBad(d, caps, tail, n);
        if k < n {
          ReadFieldsFirstFailure(d, caps, tail, n, k);
        } else {
          ReadFieldsAllGood(d, caps, tail, n);
        }
      }
    }
  }

  /** The index of the first bad outcome among the first n, or n when there
      is none. */
  function FirstBad(d: Decoders, caps: uint32, input: seq<Result<bytes>>, n: nat): (k: nat)
    ensures k <= n
    ensures forall j :: 0 <= j < k ==> GoodField(d, caps, input, j)
    ensures k < n ==> !GoodField(d, caps, input, k)
  {
    if n == 0 then 0
    else
      var k := FirstBad(d, caps, input, n - 1);
      if k < n - 1 || !GoodField(d, caps, input, n - 1) then k else n
  }

  /** Every input either yields all n definitions or stops at its first bad
      outcome. */
  lemma {:induction false} ReadFieldsCharacterised(d: Decoders, caps: uint32, input: seq<Result<bytes>>, n: nat)
    ensures var k := FirstBad(d, caps, input, n);
      if k == n then ReadFields(d, caps, input, n).result.Ok?
      else ReadFields(d, caps, input, n).result == Err(FailureAt(d, caps, input, k))
  {
    var k := FirstBad(d, caps, input, n);
    if k == n {
      ReadFieldsAllGood(d, caps, input, n);
    } else {
      ReadFieldsFirstFailure(d, caps, input, n, k);
    }
  }

  /** Nothing is written after a failed write, and nothing is read after a
      failed read or decode: the run consumes the outcomes up to and
      including the first failure. */
  lemma ExecuteStopsAtFirstFailure(d: Decoders, rowFormat: RowFormat, caps: uint32, writeFailure: Option<Errc>,
                                   input: seq<Result<bytes>>)
    ensures var r := ExecuteSpec(d, rowFormat, caps, writeFailure, input);
      (writeFailure.Some? ==> r == Run(Err(writeFailure.value), None, 0, false))
      && (writeFailure.None? && input != [] && input[0].Err? ==> r == Run(Err(input[0].error), None, 1, true))
      && (writeFailure.None? && input != [] && input[0].Ok? && ClassifyResponse(d, caps, input[0].value).result.Err? ==>
            r.result.Err? && r.consumed == 1)
  {
  }

  // ------------------------------------------------------------ the channel

  datatype Event = SequenceReset | Wrote(packet: bytes)

  /** A connection to the server: its negotiated capabilities, the failure
      every write meets (if any), the read outcomes still to come and the log
      of what was sent. */
  class Channel {
    const capabilities: uint32
    const writeFailure: Option<Errc>
    var input: seq<Result<bytes>>
    var log: seq<Event>

    constructor (capabilities: uint32, writeFailure: Option<Errc>, input: seq<Result<bytes>>)
      ensures this.capabilities == capabilities && this.writeFailure == writeFailure
      ensures this.input == input && log == []
    {
      this.capabilities := capabilities;
      this.writeFailure := writeFailure;
      this.input := input;
      log := [];
    }

    method ResetSequenceNumber()
      modifies this`log
      ensures log == old(log) + [SequenceReset]
    {
      log := log + [SequenceReset];
    }

    method Write(packet: bytes) returns (err: Option<Errc>)
      modifies this`log
      ensures err == writeFailure
      ensures log == old(log) + if writeFailure.None? then [Wrote(packet)] else []
    {
      err := writeFailure;
      if err.None? {
        log := log + [Wrote(packet)];
      }
    }

    /** The next read outcome; a drained queue reports the end of the stream. */
    method Read() returns (r: Result<bytes>)
      modifies this`input
      ensures old(input) == [] ==> r == Err(EndOfStream) && input == []
      ensures old(input) != [] ==> r == old(input)[0] && input == old(input)[1..]
    {
      if input == [] {
        r := Err(EndOfStream);
      } else {
        r := input[0];
        input := input[1..];
      }
    }
  }

  // ---------------------------------------------------------- the processor

  /** The state one execution builds up: the packet buffer, the announced
      field count, the OK packet and the two parallel vectors of column
      definitions and their packets. */
  class ExecuteProcessor {
    const decoders: Decoders
    const rowFormat: RowFormat
    const channel: Channel
    var buffer: bytes
    var fieldCount: nat
    var okPacket: OkPacket
    var fields: seq<ColumnDefinition>
    var fieldBuffers: seq<bytes>

    constructor (decoders: Decoders, rowFormat: RowFormat, channel: Channel)
      ensures this.decoders == decoders && this.rowFormat == rowFormat && this.channel == channel
      ensures buffer == [] && fieldCount == 0 && okPacket == EMPTY_OK && fields == [] && fieldBuffers == []
    {
      this.decoders := decoders;
      this.rowFormat := rowFormat;
      this.channel := channel;
      buffer := [];
      fieldCount := 0;
      okPacket := EMPTY_OK;
      fields := [];
      fieldBuffers := [];
    }

    /** Serialises the request with the channel's current capabilities and
        resets the sequence number. */
    method ProcessRequest(req: Request)
      requires ValidRequest(req)
      modifies this`buffer, channel`log
      ensures buffer == Serialize(req, channel.capabilities)
      ensures channel.log == old(channel.log) + [SequenceReset]
    {
      buffer := Serialize(req, channel.capabilities);
      channel.ResetSequenceNumber();
    }

    /** Classifies the response held in the buffer: an OK packet sets the
        field count to 0, a field count sets it, an error packet yields the
        server's error and message. */
    method ProcessResponse() returns (err: Option<Errc>, message: Option<string>)
      modifies this`okPacket, this`fieldCount
      ensures var c := ClassifyResponse(decoders, channel.capabilities, buffer);
        err == (if c.result.Err? then Some(c.result.error) else None) && message == c.message
        && (c.result.Ok? && c.result.value.OkResponse? ==> okPacket == c.result.value.ok && fieldCount == 0)
        && (c.result.Ok? && c.result.value.FieldCount? ==> fieldCount == c.result.value.count)
    {
      var caps := channel.capabilities;
      message := None;
      if buffer == [] {
        err := Some(IncompleteMessage);
        return;
      }
      var msgType := buffer[0];
      if msgType == OK_PACKET_HEADER {
        var ok := decoders.okPacket(buffer[1..], caps);
        if ok.Err? {
          err := Some(ok.error);
          return;
        }
        okPacket := ok.value;
        fieldCount := 0;
        err := None;
      } else if msgType == ERROR_PACKET_HEADER {
        var packet := decoders.errPacket(buffer[1..], caps);
        if packet.Err? {
          err := Some(packet.error);
        } else {
          err := Some(ServerError(packet.value.errorCode));
          message := Some(packet.value.errorMessage);
        }
      } else {
        var numFields := DecodeLenenc(buffer);
        if numFields.Err? {
          err := Some(numFields.error);
          return;
        }
        if numFields.value.1 != [] {
          err := Some(ExtraBytes);
          return;
        }
        if numFields.value.0 > decoders.sizeMax {
          err := Some(ProtocolValueError);
          return;
        }
        fieldCount := numFields.value.0;
        if fieldCount == 0 {
          err := Some(ProtocolValueError);
          return;
        }
        err := None;
      }
    }

    /** Decodes the buffer as a column definition and, on success, appends
        it and its packet to the two vectors and empties the buffer. */
    method ProcessFieldDefinition() returns (err: Option<Errc>)
      modifies this`buffer, this`fields, this`fieldBuffers
      ensures var f := decoders.columnDefinition(old(buffer), channel.capabilities);
        (f.Err? ==> err == Some(f.error) && buffer == old(buffer) && fields == old(fields)
                    && fieldBuffers == old(fieldBuffers))
        && (f.Ok? ==> err.None? && fields == old(fields) + [f.value]
                      && fieldBuffers == old(fieldBuffers) + [old(buffer)] && buffer == [])
    {
      var f := decoders.columnDefinition(buffer, channel.capabilities);
      if f.Err? {
        err := Some(f.error);
        return;
      }
      fields := fields + [f.value];
      fieldBuffers := fieldBuffers + [buffer];
      buffer := [];
      err := None;
    }

    /** One step of the definition loop: reads the next packet into the
        buffer and processes it as a column definition. */
    method ReadFieldDefinition() returns (err: Option<Errc>)
      modifies this`buffer, this`fields, this`fieldBuffers, channel`input
      ensures var q := old(channel.input);
        (q == [] ==> err == Some(EndOfStream) && channel.input == [])
        && (q != [] ==> channel.input == q[1..])
        && (q != [] && q[0].Err? ==> err == Some(q[0].error))
        && (q != [] && q[0].Ok? ==>
              var f := decoders.columnDefinition(q[0].value, channel.capabilities);
              (f.Err? ==> err == Some(f.error))
              && (f.Ok? ==> err.None? && fields == old(fields) + [f.value]
                            && fieldBuffers == old(fieldBuffers) + [q[0].value]))
      ensures err.Some? ==> fields == old(fields) && fieldBuffers == old(fieldBuffers)
    {
      var packet := channel.Read();
      if packet.Err? {
        return Some(packet.error);
      }
      buffer := packet.value;
      err := ProcessFieldDefinition();
    }

    /** Reads and decodes the announced column definitions, one packet at a
        time, stopping at the first failed read or decode. */
    method ProcessFieldDefinitions() returns (err: Option<Errc>)
      requires fields == [] && fieldBuffers == []
      modifies this`buffer, this`fields, this`fieldBuffers, channel`input
      ensures var f := ReadFields(decoders, channel.capabilities, old(channel.input), fieldCount);
        channel.input == old(channel.input)[f.consumed..]
        && (f.result.Err? ==> err == Some(f.result.error))
        && (f.result.Ok? ==> err.None? && fields == f.result.value.0 && fieldBuffers == f.result.value.1)
      ensures fieldCount == 0 ==> buffer == old(buffer)
    {
      ghost var input0 := channel.input;
      ghost var caps := channel.capabilities;
      var i := 0;
      while i < fieldCount
        invariant 0 <= i <= fieldCount
        invariant ReadFields(decoders, caps, input0, i) == FieldsRun(Ok((fields, fieldBuffers)), i)
        invariant channel.input == input0[i..]
        invariant fieldCount == 0 ==> buffer == old(buffer)
        decreases fieldCount - i
      {
        ReadFieldsStep(decoders, caps, input0, i, fields, fieldBuffers);
        err := ReadFieldDefinition();
        if err.Some? {
          ReadFieldsFailurePersists(decoders, caps, input0, i + 1, fieldCount);
          return;
        }
        i := i + 1;
      }
      err := None;
    }

    /** The asynchronous form of the definition loop: `remaining` counts the
        definitions still to come, once down per definition processed, and
        is 0 on success. */
    method CountDownFieldDefinitions() returns (err: Option<Errc>, remaining: nat)
      requires fields == [] && fieldBuffers == []
      modifies this`buffer, this`fields, this`fieldBuffers, channel`input
      ensures var f := ReadFields(decoders, channel.capabilities, old(channel.input), fieldCount);
        channel.input == old(channel.input)[f.consumed..]
        && (f.result.Err? ==> err == Some(f.result.error))
        && (f.result.Ok? ==> err.None? && fields == f.result.value.0 && fieldBuffers == f.result.value.1)
      ensures remaining == fieldCount - |fields|
      ensures err.None? ==> remaining == 0
      ensures fieldCount == 0 ==> buffer == old(buffer)
    {
      ghost var input0 := channel.input;
      ghost var caps := channel.capabilities;
      remaining := fieldCount;
      ghost var done: nat := 0;
      while remaining > 0
        invariant done + remaining == fieldCount
        invariant ReadFields(decoders, caps, input0, done) == FieldsRun(Ok((fields, fieldBuffers)), done)
        invariant channel.input == input0[done..]
        invariant fieldCount == 0 ==> buffer == old(buffer)
        decreases remaining
      {
        ReadFieldsStep(decoders, caps, input0, done, fields, fieldBuffers);
        err := ReadFieldDefinition();
        if err.Some? {
          ReadFieldsFailurePersists(decoders, caps, input0, done + 1, fieldCount);
          return;
        }
        remaining := remaining - 1;
        done := done + 1;
      }
      err := None;
    }

    /** With no fields the OK-shaped resultset holding the response packet,
        otherwise the metadata-shaped one holding the definitions. */
    function CreateResultset(): (r: Resultset)
      reads this
      ensures fieldCount == 0 ==> r == OkResultset(buffer, okPacket)
      ensures fieldCount != 0 ==> r.RowsResultset? && r.fields == fields && r.fieldBuffers == fieldBuffers
    {
      if fieldCount == 0 then OkResultset(buffer, okPacket)
      else RowsResultset(fieldBuffers, fields, rowFormat)
    }
  }

  // ------------------------------------------------------------ execution

  /** The log a run leaves: the reset, then the request if it was written. */
  function RunLog(run: Run, packet: bytes): seq<Event> {
    [SequenceReset] + if run.wrote then [Wrote(packet)] else []
  }

  /** What a caller sees of a run: the resultset on success (on failure the
      previous `output`, untouched), the error, and the server's message
      when there is one (otherwise the previous `info`). */
  predicate Reports(run: Run, output: Resultset, info: string, result: Resultset, err: Option<Errc>, message: string) {
    (run.result.Ok? ==> err.None? && result == run.result.value)
    && (run.result.Err? ==> err == Some(run.result.error) && result == output)
    && message == run.message.GetOr(info)
  }

  /** A finished run as the caller and the channel see it: what `Reports`
      says, the queue with the consumed outcomes removed and the log with the
      run's events appended. */
  predicate Completes(run: Run, output: Resultset, info: string, input0: seq<Result<bytes>>, log0: seq<Event>,
                      packet: bytes, result: Resultset, err: Option<Errc>, message: string,
                      input: seq<Result<bytes>>, log: seq<Event>) {
    run.consumed <= |input0|
    && Reports(run, output, info, result, err, message)
    && input == input0[run.consumed..]
    && log == log0 + RunLog(run, packet)
  }

  // The return paths of the pipeline, one lemma each.

  lemma CompletesWhenWriteFails(d: Decoders, rowFormat: RowFormat, caps: uint32, writeFailure: Option<Errc>,
                                input0: seq<Result<bytes>>, log0: seq<Event>, packet: bytes,
                                output: Resultset, info: string)
    requires writeFailure.Some?
    ensures Completes(ExecuteSpec(d, rowFormat, caps, writeFailure, input0), output, info, input0, log0, packet,
                      output, writeFailure, info, input0, log0 + [SequenceReset])
  {
  }

  lemma CompletesWhenReadFails(d: Decoders, rowFormat: RowFormat, caps: uint32,
                               input0: seq<Result<bytes>>, log0: seq<Event>, packet: bytes,
                               output: Resultset, info: string)
    requires input0 == [] || input0[0].Err?
    ensures Completes(ExecuteSpec(d, rowFormat, caps, None, input0), output, info, input0, log0, packet,
                      output, Some(if input0 == [] then EndOfStream else input0[0].error), info,
                      if input0 == [] then [] else input0[1..], log0 + [SequenceReset] + [Wrote(packet)])
  {
  }

  lemma CompletesWhenRejected(d: Decoders, rowFormat: RowFormat, caps: uint32,
                              input0: seq<Result<bytes>>, log0: seq<Event>, packet: bytes,
                              output: Resultset, info: string)
    requires input0 != [] && input0[0].Ok?
    requires ClassifyResponse(d, caps, input0[0].value).result.Err?
    ensures var c := ClassifyResponse(d, caps, input0[0].value);
      Completes(ExecuteSpec(d, rowFormat, caps, None, input0), output, info, input0, log0, packet,
                output, Some(c.result.error), c.message.GetOr(info), input0[1..], log0 + [SequenceReset] + [Wrote(packet)])
  {
  }

  lemma CompletesAfterFields(d: Decoders, rowFormat: RowFormat, caps: uint32,
                             input0: seq<Result<bytes>>, log0: seq<Event>, packet: bytes,
                             output: Resultset, info: string)
    requires input0 != [] && input0[0].Ok?
    requires ClassifyResponse(d, caps, input0[0].value).result.Ok?
    ensures var c := ClassifyResponse(d, caps, input0[0].value).result.value;
      var n := if c.FieldCount? then c.count else 0;
      var f := ReadFields(d, caps, input0[1..], n);
      Completes(ExecuteSpec(d, rowFormat, caps, None, input0), output, info, input0, log0, packet,
                if f.result.Err? then output
                else if c.OkResponse? then OkResultset(input0[0].value, c.ok)
                else RowsResultset(f.result.value.1, f.result.value.0, rowFormat),
                if f.result.Err? then Some(f.result.error) else None,
                info, input0[1..][f.consumed..], log0 + [SequenceReset] + [Wrote(packet)])
  {
    assert input0[1..][0..] == input0[1..];
  }

  /** The synchronous pipeline. */
  method Execute(decoders: Decoders, rowFormat: RowFormat, channel: Channel, request: Request,
                 output: Resultset, info: string)
    returns (result: Resultset, err: Option<Errc>, message: string)
    requires ValidRequest(request)
    modifies channel`input, channel`log
    ensures var run := ExecuteSpec(decoders, rowFormat, channel.capabilities, channel.writeFailure, old(channel.input));
      Reports(run, output, info, result, err, message)
      && channel.input == old(channel.input)[run.consumed..]
      && channel.log == old(channel.log) + RunLog(run, Serialize(request, channel.capabilities))
  {
    ghost var input0 := channel.input;
    ghost var log0 := channel.log;
    ghost var caps := channel.capabilities;
    ghost var request0 := Serialize(request, caps);
    result, message := output, info;

    var processor := new ExecuteProcessor(decoders, rowFormat, channel);
    processor.ProcessRequest(request);

    err := channel.Write(processor.buffer);
    if err.Some? {
      CompletesWhenWriteFails(decoders, rowFormat, caps, channel.writeFailure, input0, log0, request0, output, info);
      return;
    }

    var packet := channel.Read();
    if packet.Err? {
      err := Some(packet.error);
      CompletesWhenReadFails(decoders, rowFormat, caps, input0, log0, request0, output, info);
      return;
    }
    processor.buffer := packet.value;

    var serverMessage;
    err, serverMessage := processor.ProcessResponse();
    if serverMessage.Some? {
      message := serverMessage.value;
    }
    if err.Some? {
      CompletesWhenRejected(decoders, rowFormat, caps, input0, log0, request0, output, info);
      return;
    }

    err := processor.ProcessFieldDefinitions();
    CompletesAfterFields(decoders, rowFormat, caps, input0, log0, request0, output, info);
    if err.Some? {
      return;
    }

    result := processor.CreateResultset();
    err := None;
  }

  /** The first response was read and classified as a failure: the only
      case in which the asynchronous pipeline hands back an error info. */
  predicate ResponseRejected(d: Decoders, caps: uint32, writeFailure: Option<Errc>, input: seq<Result<bytes>>) {
    writeFailure.None? && input != [] && input[0].Ok? && ClassifyResponse(d, caps, input[0].value).result.Err?
  }

  /** A run's server message comes only from a rejected first response. */
  lemma MessageOnlyWhenRejected(d: Decoders, rowFormat: RowFormat, caps: uint32, writeFailure: Option<Errc>,
                                input: seq<Result<bytes>>)
    ensures ExecuteSpec(d, rowFormat, caps, writeFailure, input).message.Some? ==>
      ResponseRejected(d, caps, writeFailure, input)
      && ExecuteSpec(d, rowFormat, caps, writeFailure, input).result.Err?
  {
  }

  /** The asynchronous pipeline: the same steps in the same order, counting
      the outstanding definitions down. Every failure completes with an
      empty resultset; the error info is handed back only when the first
      response is rejected, and then holds the server's message, if any. */
  method AsyncExecute(decoders: Decoders, rowFormat: RowFormat, channel: Channel, request: Request, info: string)
    returns (result: Resultset, err: Option<Errc>, message: string)
    requires ValidRequest(request)
    modifies channel`input, channel`log
    ensures var caps := channel.capabilities;
      var run := ExecuteSpec(decoders, rowFormat, caps, channel.writeFailure, old(channel.input));
      var rejected := ResponseRejected(decoders, caps, channel.writeFailure, old(channel.input));
      Reports(run, NoResultset, if rejected then [] else info, result, err, message)
      && channel.input == old(channel.input)[run.consumed..]
      && channel.log == old(channel.log) + RunLog(run, Serialize(request, caps))
  {
    ghost var input0 := channel.input;
    ghost var log0 := channel.log;
    ghost var caps := channel.capabilities;
    ghost var request0 := Serialize(request, caps);
    result, message := NoResultset, info;

    var processor := new ExecuteProcessor(decoders, rowFormat, channel);
    processor.ProcessRequest(request);

    err := channel.Write(processor.buffer);
    if err.Some? {
      CompletesWhenWriteFails(decoders, rowFormat, caps, channel.writeFailure, input0, log0, request0, NoResultset, info);
      return;
    }

    var packet := channel.Read();
    if packet.Err? {
      err := Some(packet.error);
      CompletesWhenReadFails(decoders, rowFormat, caps, input0, log0, request0, NoResultset, info);
      return;
    }
    processor.buffer := packet.value;

    var serverMessage;
    err, serverMessage := processor.ProcessResponse();
    if err.Some? {
      message := serverMessage.GetOr([]);
      CompletesWhenRejected(decoders, rowFormat, caps, input0, log0, request0, NoResultset, []);
      return;
    }

    var remaining;
    err, remaining := processor.CountDownFieldDefinitions();
    CompletesAfterFields(decoders, rowFormat, caps, input0, log0, request0, NoResultset, info);
    if err.Some? {
      return;
    }
    result := processor.CreateResultset();
  }
}
