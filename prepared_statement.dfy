/** The prepared-statement handle: the channel it was prepared on and the
    server's prepare-OK response. A handle without a channel is invalid.
    Executing checks the parameter count before anything reaches the
    channel; closing resets the sequence number and sends COM_STMT_CLOSE. */
module PreparedStatements {
  import opened Errors
  import opened Bytes
  import opened Text
  import opened Values
  import opened StatementMessages
  import opened ExecuteGeneric

  const MESSAGE_HEAD: string := "prepared_statement::execute: expected "
  const MESSAGE_MIDDLE: string := " params, but got "

  /** The error message of a parameter-count mismatch. */
  function ParamsMessage(expected: nat, got: nat): (r: string)
  {
    MESSAGE_HEAD + (Decimal(expected) + (MESSAGE_MIDDLE + Decimal(got)))
  }

  /** Reads the two counts back out of a mismatch message (reference
      reading). */
  function ParseParamsMessage(s: string): (r: Option<(nat, nat)>)
  {
    if |s| < |MESSAGE_HEAD| || s[..|MESSAGE_HEAD|] != MESSAGE_HEAD then None
    else
      var t := s[|MESSAGE_HEAD|..];
      var k := LeadingDigits(t);
      var u := t[k..];
      if |u| < |MESSAGE_MIDDLE| || u[..|MESSAGE_MIDDLE|] != MESSAGE_MIDDLE then None
      else
        match (ParseDecimal(t[..k]), ParseDecimal(u[|MESSAGE_MIDDLE|..]))
        case (Some(n), Some(m)) => Some((n, m))
        case _ => None
  }

  /** The message names both counts: they can be read back from it. */
  lemma ParamsMessageRoundTrip(expected: nat, got: nat)
    ensures ParseParamsMessage(ParamsMessage(expected, got)) == Some((expected, got))
  {
    var s := ParamsMessage(expected, got);
    var t := Decimal(expected) + (MESSAGE_MIDDLE + Decimal(got));
    assert s[..|MESSAGE_HEAD|] == MESSAGE_HEAD;
    assert s[|MESSAGE_HEAD|..] == t;
    LeadingDigitsOfDigitsThen(Decimal(expected), MESSAGE_MIDDLE + Decimal(got));
    var k := |Decimal(expected)|;
    assert t[..k] == Decimal(expected);
    var u := t[k..];
    assert u == MESSAGE_MIDDLE + Decimal(got);
    assert u[..|MESSAGE_MIDDLE|] == MESSAGE_MIDDLE;
    assert u[|MESSAGE_MIDDLE|..] == Decimal(got);
    ParseDecimalOfDecimal(expected);
    ParseDecimalOfDecimal(got);
  }

  /** Different counts give different messages. */
  lemma ParamsMessageInjective(n1: nat, m1: nat, n2: nat, m2: nat)
    requires ParamsMessage(n1, m1) == ParamsMessage(n2, m2)
    ensures n1 == n2 && m1 == m2
  {
    ParamsMessageRoundTrip(n1, m1);
    ParamsMessageRoundTrip(n2, m2);
  }

  /** The count check: a mismatch sets the error and the message, a match
      leaves both as they were. */
  function CheckNumParams(numParams: nat, paramCount: nat, err: Option<Errc>, info: string): (r: (Option<Errc>, string))
    ensures paramCount != numParams ==> r.0 == Some(WrongNumParams) && ParseParamsMessage(r.1) == Some((numParams, paramCount))
    ensures paramCount == numParams ==> r == (err, info)
  {
    if paramCount != numParams then
      ParamsMessageRoundTrip(numParams, paramCount);
      (Some(WrongNumParams), ParamsMessage(numParams, paramCount))
    else (err, info)
  }

  /** The request an execution sends: the statement id, no cursor flags, one
      iteration and the parameters bound afresh. */
  function StatementRequest(statementId: uint32, params: seq<Value>): (r: ExecuteRequest)
    ensures r.statementId == statementId && r.params == params
  {
    ExecuteRequest(statementId, 0, 1, 1, params)
  }

  class PreparedStatement {
    var channel: Channel?
    var stmt: PrepareOk

    predicate Valid()
      reads this
    {
      channel != null
    }

    function Id(): uint32
      reads this
    {
      stmt.statementId
    }

    function NumParams(): uint16
      reads this
    {
      stmt.numParams
    }

    /** A default-constructed handle is invalid. */
    constructor Default()
      ensures !Valid()
    {
      channel := null;
      stmt := PrepareOk(0, 0, 0, 0);
    }

    /** A handle built from a prepare-OK response is valid; its id is the
        response's first field and its parameter count the third. */
    constructor FromPrepareOk(channel: Channel, ok: PrepareOk)
      ensures Valid() && this.channel == channel && stmt == ok
      ensures Id() == ok.statementId && NumParams() == ok.numParams
    {
      this.channel := channel;
      stmt := ok;
    }

    /** Move construction takes the other handle's state. */
    constructor Move(other: PreparedStatement)
      ensures channel == other.channel && stmt == other.stmt
      ensures Valid() <==> other.Valid()
    {
      channel := other.channel;
      stmt := other.stmt;
    }

    /** Move assignment takes the other handle's state. */
    method MoveAssign(other: PreparedStatement)
      modifies this
      ensures channel == old(other.channel) && stmt == old(other.stmt)
      ensures Valid() <==> old(other.Valid())
    {
      channel, stmt := other.channel, other.stmt;
    }

    /** Synchronous execution: errors cleared, then the count check; only a
        matching count runs the pipeline, with the binary row format. */
    method Execute(decoders: Decoders, params: seq<Value>)
      returns (result: Resultset, err: Option<Errc>, info: string)
      requires Valid() && AllSerializable(params)
      modifies channel`input, channel`log
      ensures |params| != NumParams() ==>
        result == NoResultset && err == Some(WrongNumParams) && info == ParamsMessage(NumParams(), |params|)
        && channel.input == old(channel.input) && channel.log == old(channel.log)
      ensures |params| == NumParams() ==>
        var run := ExecuteSpec(decoders, BinaryRows, channel.capabilities, channel.writeFailure, old(channel.input));
        Reports(run, NoResultset, "", result, err, info)
        && channel.input == old(channel.input)[run.consumed..]
        && channel.log == old(channel.log) + RunLog(run, SerializeExecute(StatementRequest(Id(), params)))
    {
      result, err, info := NoResultset, None, "";
      var check := CheckNumParams(NumParams(), |params|, err, info);
      err, info := check.0, check.1;
      if err.None? {
        result, err, info := ExecuteGeneric.Execute(decoders, BinaryRows, channel,
                                                    ComStmtExecute(StatementRequest(Id(), params)), result, info);
      }
    }

    /** Asynchronous execution: the error info is cleared; a mismatch
        completes with the error, the message and an empty resultset without
        touching the channel. */
    method AsyncExecute(decoders: Decoders, params: seq<Value>)
      returns (result: Resultset, err: Option<Errc>, info: string)
      requires Valid() && AllSerializable(params)
      modifies channel`input, channel`log
      ensures |params| != NumParams() ==>
        result == NoResultset && err == Some(WrongNumParams) && info == ParamsMessage(NumParams(), |params|)
        && channel.input == old(channel.input) && channel.log == old(channel.log)
      ensures |params| == NumParams() ==>
        var run := ExecuteSpec(decoders, BinaryRows, channel.capabilities, channel.writeFailure, old(channel.input));
        Reports(run, NoResultset, "", result, err, info)
        && channel.input == old(channel.input)[run.consumed..]
        && channel.log == old(channel.log) + RunLog(run, SerializeExecute(StatementRequest(Id(), params)))
    {
      info := "";
      var check := CheckNumParams(NumParams(), |params|, None, "");
      if check.0.Some? {
        result, err, info := NoResultset, check.0, check.1;
        return;
      }
      result, err, info := ExecuteGeneric.AsyncExecute(decoders, BinaryRows, channel,
                                                       ComStmtExecute(StatementRequest(Id(), params)), info);
    }

    /** Closing resets the sequence number and sends COM_STMT_CLOSE with the
        statement id; no response is read. */
    method Close() returns (err: Option<Errc>, info: string)
      requires Valid()
      modifies channel`log
      ensures err == channel.writeFailure && info == ""
      ensures channel.log == old(channel.log) + [SequenceReset]
                             + if err.None? then [Wrote(SerializeClose(Id()))] else []
    {
      err, info := None, "";
      channel.ResetSequenceNumber();
      err := channel.Write(SerializeClose(Id()));
    }

    method AsyncClose() returns (err: Option<Errc>, info: string)
      requires Valid()
      modifies channel`log
      ensures err == channel.writeFailure && info == ""
      ensures channel.log == old(channel.log) + [SequenceReset]
                             + if err.None? then [Wrote(SerializeClose(Id()))] else []
    {
      info := "";
      channel.ResetSequenceNumber();
      err := channel.Write(SerializeClose(Id()));
    }
  }
}
