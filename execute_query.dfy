/** Text queries: the query text goes out as a COM_QUERY packet (the
    command byte followed by the text, with no length prefix or terminator)
    through the generic execute pipeline, whose rows are then read with the
    text row deserialiser. */
module ExecuteQuery {
  import opened Errors
  import opened Bytes
  import opened ExecuteGeneric

  /** The packet a query sends, whatever the capabilities. */
  lemma QueryPacket(query: bytes, caps: uint32)
    ensures Serialize(ComQuery(query), caps) == [COM_QUERY] + query
  {
    var r := Serialize(ComQuery(query), caps);
    assert r == [r[0]] + r[1..];
  }

  method ExecuteQuery(decoders: Decoders, channel: Channel, query: bytes, output: Resultset, info: string)
    returns (result: Resultset, err: Option<Errc>, message: string)
    modifies channel`input, channel`log
    ensures var run := ExecuteSpec(decoders, TextRows, channel.capabilities, channel.writeFailure, old(channel.input));
      Reports(run, output, info, result, err, message)
      && channel.input == old(channel.input)[run.consumed..]
      && channel.log == old(channel.log) + RunLog(run, [COM_QUERY] + query)
  {
    QueryPacket(query, channel.capabilities);
    result, err, message := Execute(decoders, TextRows, channel, ComQuery(query), output, info);
  }

  method AsyncExecuteQuery(decoders: Decoders, channel: Channel, query: bytes, info: string)
    returns (result: Resultset, err: Option<Errc>, message: string)
    modifies channel`input, channel`log
    ensures var caps := channel.capabilities;
      var run := ExecuteSpec(decoders, TextRows, caps, channel.writeFailure, old(channel.input));
      var rejected := ResponseRejected(decoders, caps, channel.writeFailure, old(channel.input));
      Reports(run, NoResultset, if rejected then [] else info, result, err, message)
      && channel.input == old(channel.input)[run.consumed..]
      && channel.log == old(channel.log) + RunLog(run, [COM_QUERY] + query)
  {
    QueryPacket(query, channel.capabilities);
    result, err, message := AsyncExecute(decoders, TextRows, channel, ComQuery(query), info);
  }
}
