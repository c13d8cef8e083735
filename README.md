# A verified model of the mysql-asio client core

This project models, in Dafny, five parts of the MySQL client library
mysql-asio (later Boost.MySQL), and proves properties of each.

- **The value variant** (`Values`). Constructor arguments collapse:
  - every unsigned integer is stored as `uint64`;
  - every signed integer is stored as `int64`;
  - anything else is stored as is.

  `get_optional<T>` and `get<T>` apply the conversion table:
  - `int64` and `uint64` read as each other when the number fits;
  - a float reads as a double by exact widening;
  - every other target matches its own alternative only.

  The module also covers equality, the date range check, and the printed form of null, the integers, strings and times: an integer prints as its sign and decimal digits, a string as its bytes one character each.
- **The generic execute pipeline** (`ExecuteGeneric`). An `ExecuteProcessor` class serialises the request and resets the sequence number. It then classifies the first response as one of:
  - an OK packet;
  - an error packet;
  - a length-encoded field count, which must be non-zero and fit `size_t`.

  It reads exactly that many column definitions into two parallel vectors and builds either the OK-shaped or the metadata-shaped resultset. The synchronous pipeline (`Execute`, whose definitions are read by the `while` loop of `ProcessFieldDefinitions`) and the asynchronous one (`AsyncExecute`, counting `remaining` down in `CountDownFieldDefinitions`) are methods over a `Channel` object. The channel holds a queue of read outcomes and a log of what the client sent. Both methods are proved against one reference function, `ExecuteSpec`. Text queries (`ExecuteQuery`) are the same pipeline with a COM_QUERY packet and text rows.
- **The prepared-statement handle** (`PreparedStatements`). A `PreparedStatement` class holds the channel and the prepare-OK response:
  - it is valid exactly when it has a channel;
  - it checks the parameter count before anything reaches the channel;
  - closing resets the sequence number and sends COM_STMT_CLOSE.
- **The connection-phase records** (`HandshakeMessages`):
  - Protocol::HandshakeV10;
  - HandshakeResponse41;
  - SSLRequest;
  - AuthSwitchRequest and AuthSwitchResponse;
  - AuthMoreData.

  Each record the client receives has a decoder, and each record it sends has an encoder. The opposite direction is written as a reference definition, and a round-trip lemma ties the two.
- **The binary prepared-statement packets** (`StatementMessages`):
  - COM_STMT_PREPARE;
  - the prepare-OK response;
  - COM_STMT_EXECUTE: null bitmap, new-params flag, type pairs and value blocks;
  - COM_STMT_CLOSE.

  The unit tests' byte vectors are proved against the encoder, and every packet has a round trip through a reference decoder.

Two support modules are shared by the others:
- `Bytes`: little-endian integers, two's complement, length-encoded integers and strings, null-terminated strings.
- `Text`: decimal digits and zero padding, with their readings back.

The ok-packet, error-packet and column-definition decoders are not part of this model. The pipeline takes them as parameters (`Decoders`), together with the platform's largest `size_t`. The transport is the `Channel` object:
- a queue of packets or transport errors to read;
- an optional write failure;
- a log of sequence-number resets and written packets.

## Model

| member | source | states |
|---|---|---|
| Values.Construct | include/boost/mysql/impl/value.hpp:74-102 | an unsigned argument is stored as uint64 and a signed one as int64, both with the same number; any other argument is stored unchanged |
| Values.ConstructThenGet | test/unit/value.cpp:59-93 | reading a constructed integer back as its own kind gives the number passed in; a signed one reads as uint64 iff it is not negative, an unsigned one as int64 iff it is at most INT64_MAX |
| Values.GetOptionalNoConv | include/boost/mysql/impl/value.hpp:65-72 | the result is present iff the stored alternative is the one asked for, and is then the stored value |
| Values.GetOptional | include/boost/mysql/impl/value.hpp:104-156 | a present result always holds the alternative asked for |
| Values.GetOptionalUInt64 | include/boost/mysql/impl/value.hpp:110-124 | uint64 is readable iff the value is a uint64 or a non-negative int64, and it then holds the same number |
| Values.GetOptionalInt64 | include/boost/mysql/impl/value.hpp:126-140 | int64 is readable iff the value is an int64 or a uint64 no larger than INT64_MAX, and it then holds the same number |
| Values.GetOptionalDouble | include/boost/mysql/impl/value.hpp:142-156 | double is readable iff the value is a double or a float; a double is returned as is |
| Values.GetOptionalExact | include/boost/mysql/impl/value.hpp:104-108 | for every target other than uint64, int64 and double, the result is present iff the stored alternative matches, and is then the value itself |
| Values.ConvertibleToOwnTag | test/unit/value.cpp:213-230 | every value is readable as its own alternative, unchanged |
| Values.Get | include/boost/mysql/impl/value.hpp:158-165 | fails with bad_variant_access iff get_optional is empty, and otherwise returns what get_optional returns |
| Values.WidenFloat | include/boost/mysql/impl/value.hpp:149-153 | float to double widening on bit patterns keeps the sign, maps NaN exactly to NaN and zero exactly to zero |
| Values.EqualsIsTagExact | test/unit/value.cpp:307-366 | values of different alternatives are never equal; same-alternative values other than floating point are equal iff their payloads are; equality is symmetric |
| Values.SignedUnsignedExample | test/unit/value.cpp:286-295 | int64(42) and uint64(42) are unequal yet each reads as the other; uint64 0xfffffffffffffffe does not read as int64 |
| Values.OutOfRangeByYear | include/boost/mysql/impl/value.hpp:17-22 | for a real calendar date, being below 0000-01-01 or above 9999-12-31 is the same as the year lying outside 0..9999 |
| Values.TimePartsDecompose | include/boost/mysql/impl/value.hpp:45-49 | the printed hours, minutes, seconds and microseconds are the decomposition of |t|, each minor part below its unit, despite the truncating C++ division |
| Values.ClockTailShape | include/boost/mysql/impl/value.hpp:51-57 | minutes and seconds below 60 print in two digits and microseconds below one second in six, at fixed positions after the hours |
| Values.ParseClockOfParts | include/boost/mysql/impl/value.hpp:51-57 | the "%02d:%02u:%02u.%06u" text of a decomposition starts with a digit and reads back as the same number of microseconds |
| Values.ClockOfTime | include/boost/mysql/impl/value.hpp:46-57 | the clock part of a printed time reads back as |t| |
| Values.FormatTimeRoundTrip | include/boost/mysql/impl/value.hpp:42-60 | reading a printed time back gives the same time: sign, hours and every part are all kept |
| Values.FormatTimeSign | include/boost/mysql/impl/value.hpp:45 | a printed time is at least 15 characters long and starts with '-' iff the time is negative |
| Values.FormatTimeOf | include/boost/mysql/impl/value.hpp:42-60 | a time prints as its sign, its hours padded to at least two digits, then ":MM:SS.uuuuuu" |
| Values.TimePartsVector | include/boost/mysql/impl/value.hpp:45-49 | the printed parts are the unique decomposition of |t| into hours, minutes below 60, seconds below 60 and microseconds below a second |
| Values.ZeroTimeVector | test/unit/value.cpp:412-429 | zero prints as "00:00:00.000000" |
| Values.OneDigitTimeVector | test/unit/value.cpp:412-429 | 05:05:05.000050 prints with its leading zeros |
| Values.MaxHoursTimeVector | test/unit/value.cpp:412-429 | minus 838:59:59.999999 prints as "-838:59:59.999999", with hours in three digits |
| Values.NegativeTimeVector | test/unit/value.cpp:407-429 | minus 23 hours and 5 microseconds prints as "-23:00:00.000005" |
| Values.PaddedVectors | test/unit/value.cpp:412-429 | the padded component strings that the time-printing tests list |
| Values.TwoDigitPaddedVectors | test/unit/value.cpp:412-423 | hours, minutes and seconds pad to two digits, and 838 keeps its three |
| Values.SixDigitPaddedVectors | test/unit/value.cpp:425-430 | microseconds pad to six digits |
| Values.DecimalVectors | test/unit/value.cpp:412-429 | decimal forms of the numbers the printing tests use |
| Values.Print | include/boost/mysql/impl/value.hpp:32-63 | null prints "<NULL>"; a printed time reads back as the same time; a printed uint64 reads back as the same number; a printed int64 starts with '-' iff negative and its digits read back as the magnitude; a printed string has one character per byte with the byte's code |
| Values.PrintVectors | test/unit/value.cpp:470-474 | null, 42, -90 and 0 print as the unit tests expect, for both integer alternatives |
| Bytes.LenencRoundTrip | include/boost/mysql/detail/network_algorithms/impl/execute_generic.hpp:69-75 | decoding a length-encoded integer gives back the number and leaves the rest of the buffer untouched |
| Bytes.LenencTiers | include/boost/mysql/detail/network_algorithms/impl/execute_generic.hpp:69-75 | numbers below 251 take one byte; larger ones take the marker 0xfc, 0xfd or 0xfe and 3, 4 or 9 bytes in all |
| Bytes.TwosRoundTrip | test/unit/detail/protocol/prepared_statement_messages.cpp:83-90 | the 64-bit two's complement pattern and its reading are inverse bijections between int64 and uint64 |
| HandshakeMessages.DecodeHandshake | include/boost/mysql/detail/protocol/handshake_messages.hpp:19-52 | in this model decoding fails only with incomplete_message (an assumption: see Left out); decoded server version and plugin name hold no NUL, and the merged auth data fits its 8 + 0xff buffer |
| HandshakeMessages.MergeGreeting | include/boost/mysql/detail/protocol/handshake_messages.hpp:26-27 | the merged auth data is part 1 then part 2, and the capability flags have the two halves as their low and high 16 bits |
| HandshakeMessages.HandshakeRoundTrip | include/boost/mysql/detail/protocol/handshake_messages.hpp:19-45 | decoding a greeting a server writes gives back every field in order and leaves the rest of the buffer |
| HandshakeMessages.SerializeHandshakeResponse | include/boost/mysql/detail/protocol/handshake_messages.hpp:55-66 | the response starts with client flags (4), max packet size (4) and character set (1), followed by 23 zero bytes |
| HandshakeMessages.HandshakeResponseRoundTrip | include/boost/mysql/detail/protocol/handshake_messages.hpp:55-80 | the server reads every field back, except the database, which is sent, and so survives, only under CLIENT_CONNECT_WITH_DB |
| HandshakeMessages.DatabaseAndPluginRoundTrip | include/boost/mysql/detail/protocol/handshake_messages.hpp:61-64 | the optional database and the plugin name read back, the database as empty when the capability is unset |
| HandshakeMessages.ClientHeadRoundTrip | include/boost/mysql/detail/protocol/handshake_messages.hpp:93-99 | the fixed 32-byte head shared by the response and the SSL request reads back as its three fields |
| HandshakeMessages.SerializeSslRequest | include/boost/mysql/detail/protocol/handshake_messages.hpp:93-110 | the SSL request is exactly 32 bytes: flags, max packet size, character set, then 23 zero bytes |
| HandshakeMessages.SslRequestRoundTrip | include/boost/mysql/detail/protocol/handshake_messages.hpp:93-110 | the server reads back every field of the SSL request |
| HandshakeMessages.DecodeAuthSwitchRequest | include/boost/mysql/detail/protocol/handshake_messages.hpp:113-148 | fails (incomplete_message) iff the packet holds no NUL; otherwise the plugin name is the bytes before the first NUL, and the plugin data is the bytes after it less one trailing zero byte when there is one |
| HandshakeMessages.AuthSwitchRequestRoundTrip | include/boost/mysql/detail/protocol/handshake_messages.hpp:113-126 | plugin name and plugin data of a server's auth switch request are read back exactly |
| HandshakeMessages.AuthSwitchRequestUnterminated | include/boost/mysql/detail/protocol/handshake_messages.hpp:113-126 | plugin data that does not end in a zero byte is kept whole, up to the end of the packet |
| HandshakeMessages.AuthSwitchRequestTrimsOneZero | include/boost/mysql/detail/protocol/handshake_messages.hpp:142-148 | plugin data ending in a zero byte loses exactly that one byte |
| HandshakeMessages.SerializeAuthSwitchResponse | include/boost/mysql/detail/protocol/handshake_messages.hpp:129-140 | the response is the plugin data alone, byte for byte in length |
| HandshakeMessages.AuthSwitchResponseRoundTrip | include/boost/mysql/detail/protocol/handshake_messages.hpp:129-140 | the server reads back the plugin data, consuming the whole packet |
| HandshakeMessages.DecodeAuthMoreData | include/boost/mysql/detail/protocol/handshake_messages.hpp:151-162 | always succeeds and consumes the whole packet |
| HandshakeMessages.AuthMoreDataRoundTrip | include/boost/mysql/detail/protocol/handshake_messages.hpp:151-162 | decoding and encoding the more-data packet are inverse in both directions |
| StatementMessages.SerializePrepare | test/unit/detail/protocol/prepared_statement_messages.cpp:20-31 | 0x16 followed by the statement text, with no length prefix or terminator |
| StatementMessages.PrepareRoundTrip | test/unit/detail/protocol/prepared_statement_messages.cpp:20-31 | the server reads the statement text back |
| StatementMessages.DeserializePrepareOk | test/unit/detail/protocol/prepared_statement_messages.cpp:33-43 | succeeds iff at least 11 bytes remain, leaving exactly the bytes after them; otherwise incomplete_message |
| StatementMessages.PrepareOkRoundTrip | test/unit/detail/protocol/prepared_statement_messages.cpp:33-43 | statement id, field count, parameter count and warnings are read back in that order, with the filler skipped |
| StatementMessages.PrepareOkVector | test/unit/detail/protocol/prepared_statement_messages.cpp:33-43 | the test's 11 bytes decode as id 1, 2 fields, 3 params, 0 warnings |
| StatementMessages.PrepareOkBytesVector | test/unit/detail/protocol/prepared_statement_messages.cpp:33-43 | the server's form of that response is the test's 11 bytes |
| StatementMessages.NullBitmap | test/unit/detail/protocol/prepared_statement_messages.cpp:141-172 | the bitmap has ceil(n/8) bytes |
| StatementMessages.NullBitmapBit | test/unit/detail/protocol/prepared_statement_messages.cpp:141-172 | bit i is set iff parameter i is null, and no padding bit is set |
| StatementMessages.NullBitmapVector | test/unit/detail/protocol/prepared_statement_messages.cpp:148-172 | nine parameters with nulls at 3 and 8 give the bitmap 08 01 |
| StatementMessages.TypePairInjective | test/unit/detail/protocol/prepared_statement_messages.cpp:158-161 | two values get the same type pair iff they hold the same alternative |
| StatementMessages.EncodeTypes | test/unit/detail/protocol/prepared_statement_messages.cpp:158-161 | two bytes per parameter |
| StatementMessages.ReadTypesRoundTrip | test/unit/detail/protocol/prepared_statement_messages.cpp:158-161 | the server reads back the type pairs of every parameter, in order |
| StatementMessages.InRangeDateFits | include/boost/mysql/impl/value.hpp:17-22 | every calendar date inside the supported range fits the date's wire fields |
| StatementMessages.DateBytes | test/unit/detail/protocol/prepared_statement_messages.cpp:115-122 | a date's fields take four bytes |
| StatementMessages.TimeFields | test/unit/detail/protocol/prepared_statement_messages.cpp:132-140 | the wire fields of a time are days, hours below 24, minutes, seconds and microseconds, summing to |t| |
| StatementMessages.EncodeValue | test/unit/detail/protocol/prepared_statement_messages.cpp:141-147 | a parameter contributes no value bytes iff it is null |
| StatementMessages.DateRoundTrip | test/unit/detail/protocol/prepared_statement_messages.cpp:115-122 | year, month and day read back from the four date bytes |
| StatementMessages.DateValueRoundTrip | test/unit/detail/protocol/prepared_statement_messages.cpp:115-122 | a date value block (length 4 then the fields) reads back as the same date |
| StatementMessages.DateTimeRoundTrip | test/unit/detail/protocol/prepared_statement_messages.cpp:123-131 | a datetime value block (length 11, date, hour, minute, second, 4-byte micros) reads back as the same datetime |
| StatementMessages.ClockRoundTrip | test/unit/detail/protocol/prepared_statement_messages.cpp:123-131 | hour, minute, second and micros read back from their seven bytes |
| StatementMessages.TimeFieldsRoundTrip | test/unit/detail/protocol/prepared_statement_messages.cpp:132-140 | days, hours, minutes, seconds and micros read back from their eleven bytes |
| StatementMessages.TimeRoundTrip | test/unit/detail/protocol/prepared_statement_messages.cpp:132-140 | a time value block (length 12, sign, the fields) reads back as the same signed time |
| StatementMessages.ScalarRoundTrip | test/unit/detail/protocol/prepared_statement_messages.cpp:75-114 | integer and floating-point blocks read back, under their type pair, as the same value |
| StatementMessages.ValueRoundTrip | test/unit/detail/protocol/prepared_statement_messages.cpp:74-140 | every non-null value whose fields fit the wire reads back, under its type pair, as itself |
| StatementMessages.ReadValuesRoundTrip | test/unit/detail/protocol/prepared_statement_messages.cpp:148-172 | guided by the bitmap and the type pairs, the server reads back every parameter, nulls included, in order |
| StatementMessages.SerializeExecute | test/unit/detail/protocol/prepared_statement_messages.cpp:74-90 | the packet starts with 0x17 and is at least the header, bitmap, flag and type pairs long |
| StatementMessages.ExecuteHeader | test/unit/detail/protocol/prepared_statement_messages.cpp:74-90 | statement id, flags and iteration count take nine bytes |
| StatementMessages.ExecuteParams | test/unit/detail/protocol/prepared_statement_messages.cpp:148-172 | the parameter block is at least the bitmap, the new-params flag and the type pairs long |
| StatementMessages.ExecuteHeaderRoundTrip | test/unit/detail/protocol/prepared_statement_messages.cpp:74-90 | statement id, flags and iteration count read back in order |
| StatementMessages.ExecuteParamsRoundTrip | test/unit/detail/protocol/prepared_statement_messages.cpp:148-172 | the new-params flag and every parameter read back from the parameter block |
| StatementMessages.ExecuteRoundTrip | test/unit/detail/protocol/prepared_statement_messages.cpp:74-181 | the server, knowing the parameter count, reads back the whole execute request |
| StatementMessages.OneParamLayout | test/unit/detail/protocol/prepared_statement_messages.cpp:74-147 | a one-parameter packet is command, header, a one-byte bitmap, the flag, the type pair and the value |
| StatementMessages.HeaderVector | test/unit/detail/protocol/prepared_statement_messages.cpp:74-90 | the header bytes of statement 1 with one iteration |
| StatementMessages.UInt64Vector | test/unit/detail/protocol/prepared_statement_messages.cpp:75-82 | uint64 0xabffffabacadae is its 8 little-endian bytes |
| StatementMessages.SmallUInt64Vector | test/unit/detail/protocol/prepared_statement_messages.cpp:173-180 | uint64 0xabffff is padded to 8 bytes |
| StatementMessages.Int64Vector | test/unit/detail/protocol/prepared_statement_messages.cpp:83-90 | int64 -0xabffffabacadae is 52 52 53 54 00 00 54 ff |
| StatementMessages.StringVector | test/unit/detail/protocol/prepared_statement_messages.cpp:91-98 | "test" is 04 74 65 73 74 |
| StatementMessages.FloatVector | test/unit/detail/protocol/prepared_statement_messages.cpp:99-106 | the float 3.14e20 is its 4 bit-pattern bytes |
| StatementMessages.DoubleVector | test/unit/detail/protocol/prepared_statement_messages.cpp:107-114 | the double 2.1e214 is its 8 bit-pattern bytes |
| StatementMessages.DateVector | test/unit/detail/protocol/prepared_statement_messages.cpp:115-122 | 2010-09-03 is 04 da 07 09 03 |
| StatementMessages.DateTimeVector | test/unit/detail/protocol/prepared_statement_messages.cpp:123-131 | 2010-09-03 10:30:59.231800 is the test's 12 bytes |
| StatementMessages.TimeVector | test/unit/detail/protocol/prepared_statement_messages.cpp:132-140 | 230:30:59.231800 has 9 days and 14 hours and is the test's 13 bytes |
| StatementMessages.ExecuteUInt64Vector | test/unit/detail/protocol/prepared_statement_messages.cpp:75-82 | the whole uint64 test packet |
| StatementMessages.ExecuteInt64Vector | test/unit/detail/protocol/prepared_statement_messages.cpp:83-90 | the whole int64 test packet |
| StatementMessages.ExecuteStringVector | test/unit/detail/protocol/prepared_statement_messages.cpp:91-98 | the whole string test packet |
| StatementMessages.ExecuteFloatVector | test/unit/detail/protocol/prepared_statement_messages.cpp:99-106 | the whole float test packet |
| StatementMessages.ExecuteDoubleVector | test/unit/detail/protocol/prepared_statement_messages.cpp:107-114 | the whole double test packet |
| StatementMessages.ExecuteDateVector | test/unit/detail/protocol/prepared_statement_messages.cpp:115-122 | the whole date test packet |
| StatementMessages.ExecuteDateTimeVector | test/unit/detail/protocol/prepared_statement_messages.cpp:123-131 | the whole datetime test packet |
| StatementMessages.ExecuteTimeVector | test/unit/detail/protocol/prepared_statement_messages.cpp:132-140 | the whole time test packet |
| StatementMessages.ExecuteNullVector | test/unit/detail/protocol/prepared_statement_messages.cpp:141-147 | a lone null sets bitmap bit 0, gets the pair 06 00 and adds no value bytes |
| StatementMessages.ExecuteSmallUInt64Vector | test/unit/detail/protocol/prepared_statement_messages.cpp:173-180 | the forward_list test's packet: the encoding depends only on the parameters, not on the container |
| StatementMessages.SeveralParamsValues | test/unit/detail/protocol/prepared_statement_messages.cpp:148-172 | the value blocks of the nine-parameter test, nulls contributing nothing |
| StatementMessages.SeveralParamsTypes | test/unit/detail/protocol/prepared_statement_messages.cpp:158-161 | the type pairs of the nine-parameter test |
| StatementMessages.NullsAtThreeAndEight | test/unit/detail/protocol/prepared_statement_messages.cpp:148-172 | with nulls at 3 and 8, the value area is the other seven blocks in order |
| StatementMessages.ExecuteSeveralParamsVector | test/unit/detail/protocol/prepared_statement_messages.cpp:148-172 | the whole nine-parameter test packet |
| StatementMessages.SerializeClose | test/unit/detail/protocol/prepared_statement_messages.cpp:183-185 | five bytes starting with 0x19 |
| StatementMessages.CloseRoundTrip | test/unit/detail/protocol/prepared_statement_messages.cpp:183-185 | the server reads the statement id back from the 4 little-endian bytes |
| StatementMessages.CloseVector | test/unit/detail/protocol/prepared_statement_messages.cpp:183-185 | closing statement 1 sends 19 01 00 00 00 |
| ExecuteGeneric.Serialize | include/boost/mysql/detail/network_algorithms/impl/execute_generic.hpp:33-43 | a query is 0x03 followed by the text; a statement execution starts with 0x17 |
| ExecuteGeneric.ClassifyResponse | include/boost/mysql/detail/network_algorithms/impl/execute_generic.hpp:45-97 | a server message comes only with a server error; an accepted field count is between 1 and the largest size_t; an empty buffer is incomplete_message |
| ExecuteGeneric.ClassifyHeaders | include/boost/mysql/detail/network_algorithms/impl/execute_generic.hpp:57-66 | after 0x00 the OK packet decides the result, with no message; after 0xff the error packet gives the server's code and message, or its decode error |
| ExecuteGeneric.ClassifyFieldCount | include/boost/mysql/detail/network_algorithms/impl/execute_generic.hpp:67-96 | a length-encoded count from 1 to the largest size_t is accepted as the field count |
| ExecuteGeneric.ClassifyBadFieldCount | include/boost/mysql/detail/network_algorithms/impl/execute_generic.hpp:72-92 | any non-zero count, one-byte or marked (0xfc, 0xfd, 0xfe), followed by extra bytes fails with extra_bytes; a lone count above the largest size_t fails with protocol_value_error |
| ExecuteGeneric.ClassifyZeroFieldCount | include/boost/mysql/detail/network_algorithms/impl/execute_generic.hpp:85-92 | a field count of zero is protocol_value_error |
| ExecuteGeneric.ReadFields | include/boost/mysql/detail/network_algorithms/impl/execute_generic.hpp:170-180 | never consumes more than n packets; on success consumes exactly n and yields n definitions and n packets |
| ExecuteGeneric.ReadFieldsAllGood | include/boost/mysql/detail/network_algorithms/impl/execute_generic.hpp:170-180 | n good packets give n definitions, each the decoding of its packet, in order, with the packets kept alongside |
| ExecuteGeneric.ReadFieldsFirstFailure | include/boost/mysql/detail/network_algorithms/impl/execute_generic.hpp:170-180 | the first bad packet's error is the result, and nothing after it is read |
| ExecuteGeneric.ReadFieldsStep | include/boost/mysql/detail/network_algorithms/impl/execute_generic.hpp:171-179 | one more iteration fails on a missing packet, a read error or a decode error, or appends the new definition and its packet |
| ExecuteGeneric.ReadFieldsFailurePersists | include/boost/mysql/detail/network_algorithms/impl/execute_generic.hpp:174-179 | once reading has failed, further iterations change nothing |
| ExecuteGeneric.FirstBad | include/boost/mysql/detail/network_algorithms/impl/execute_generic.hpp:170-180 | the index of the first packet that does not read and decode, with every earlier one good |
| ExecuteGeneric.ReadFieldsCharacterised | include/boost/mysql/detail/network_algorithms/impl/execute_generic.hpp:170-180 | reading succeeds iff no packet among the n is bad, and otherwise fails with the first bad one's error |
| ExecuteGeneric.ExecuteSpec | include/boost/mysql/detail/network_algorithms/impl/execute_generic.hpp:153-185 | never consumes more than the queue holds; a success is an OK-shaped or a metadata-shaped resultset |
| ExecuteGeneric.ExecuteShape | include/boost/mysql/detail/network_algorithms/impl/execute_generic.hpp:114-131 | an OK response gives the OK resultset after one read; a metadata resultset has exactly field_count definitions and packets, each the decoding of the packet read for it |
| ExecuteGeneric.ExecuteStopsAtFirstFailure | include/boost/mysql/detail/network_algorithms/impl/execute_generic.hpp:158-168 | a failed write reads nothing; a failed first read or a rejected response stops after one read |
| ExecuteGeneric.MessageOnlyWhenRejected | include/boost/mysql/detail/network_algorithms/impl/execute_generic.hpp:256-263 | a server message appears only when the first response was read and rejected, and the run then failed |
| ExecuteGeneric.Channel.ResetSequenceNumber | include/boost/mysql/detail/network_algorithms/impl/execute_generic.hpp:41-42 | appends a sequence reset to the log |
| ExecuteGeneric.Channel.Write | include/boost/mysql/detail/network_algorithms/impl/execute_generic.hpp:158-160 | reports the channel's write failure, and logs the packet only when there is none |
| ExecuteGeneric.Channel.Read | include/boost/mysql/detail/network_algorithms/impl/execute_generic.hpp:162-164 | takes the next outcome off the queue; an empty queue ends the stream |
| ExecuteGeneric.ExecuteProcessor.constructor | include/boost/mysql/detail/network_algorithms/impl/execute_generic.hpp:21-30 | a fresh processor has an empty buffer, no fields and a field count of 0 |
| ExecuteGeneric.ExecuteProcessor.ProcessRequest | include/boost/mysql/detail/network_algorithms/impl/execute_generic.hpp:33-43 | the buffer holds the request serialised under the channel's capabilities, and a sequence reset is logged |
| ExecuteGeneric.ExecuteProcessor.ProcessResponse | include/boost/mysql/detail/network_algorithms/impl/execute_generic.hpp:45-97 | error and message are the classification's; an OK response stores the OK packet and sets field_count to 0; a count sets field_count |
| ExecuteGeneric.ExecuteProcessor.ProcessFieldDefinition | include/boost/mysql/detail/network_algorithms/impl/execute_generic.hpp:99-112 | a decode error changes nothing; a success appends one definition and its packet, so the vectors stay parallel, and empties the buffer |
| ExecuteGeneric.ExecuteProcessor.ReadFieldDefinition | include/boost/mysql/detail/network_algorithms/impl/execute_generic.hpp:173-179 | reads one packet and processes it; on any error the vectors are unchanged |
| ExecuteGeneric.ExecuteProcessor.ProcessFieldDefinitions | include/boost/mysql/detail/network_algorithms/impl/execute_generic.hpp:170-180 | the loop's result and the consumed packets are exactly those of ReadFields over field_count |
| ExecuteGeneric.ExecuteProcessor.CountDownFieldDefinitions | include/boost/mysql/detail/network_algorithms/impl/execute_generic.hpp:264-284 | same outcome as ReadFields; remaining is field_count minus the definitions read, and 0 on success |
| ExecuteGeneric.ExecuteProcessor.CreateResultset | include/boost/mysql/detail/network_algorithms/impl/execute_generic.hpp:114-132 | with no fields, the OK-shaped resultset holding the buffer and OK packet; otherwise the metadata-shaped one holding the two vectors |
| ExecuteGeneric.Execute | include/boost/mysql/detail/network_algorithms/impl/execute_generic.hpp:144-185 | the result, error, message, remaining queue and log are those of ExecuteSpec; on failure output is left as it was |
| ExecuteGeneric.AsyncExecute | include/boost/mysql/detail/network_algorithms/impl/execute_generic.hpp:188-304 | the same steps and outcome as the synchronous pipeline, but failures complete with an empty resultset, and the error info is replaced only when the response is rejected |
| ExecuteQuery.QueryPacket | include/boost/mysql/detail/network_algorithms/impl/execute_query.hpp:23 | a query goes out as 0x03 followed by the text, whatever the capabilities |
| ExecuteQuery.ExecuteQuery | include/boost/mysql/detail/network_algorithms/impl/execute_query.hpp:14-32 | the pipeline's outcome with text rows, the COM_QUERY packet logged |
| ExecuteQuery.AsyncExecuteQuery | include/boost/mysql/detail/network_algorithms/impl/execute_query.hpp:35-55 | the asynchronous pipeline's outcome with text rows |
| PreparedStatements.ParamsMessageRoundTrip | include/boost/mysql/impl/prepared_statement.hpp:29-31 | both counts can be read back from the mismatch message |
| PreparedStatements.ParamsMessageInjective | include/boost/mysql/impl/prepared_statement.hpp:29-31 | different counts give different messages |
| PreparedStatements.CheckNumParams | include/boost/mysql/impl/prepared_statement.hpp:19-33 | a mismatch sets wrong_num_params and a message naming both counts; a match leaves error and info untouched |
| PreparedStatements.StatementRequest | include/boost/mysql/impl/prepared_statement.hpp:54-62 | the execution request carries the handle's statement id and the given parameters |
| PreparedStatements.PreparedStatement.Default | test/unit/prepared_statement.cpp:28-32 | a default-constructed handle is invalid |
| PreparedStatements.PreparedStatement.FromPrepareOk | test/unit/prepared_statement.cpp:34-41 | a handle built from a prepare-OK response is valid, its id from the first field and its parameter count from the third |
| PreparedStatements.PreparedStatement.Move | test/unit/prepared_statement.cpp:43-58 | move construction takes the other handle's state, valid or not |
| PreparedStatements.PreparedStatement.MoveAssign | test/unit/prepared_statement.cpp:60-81 | move assignment takes the other handle's state, valid or not |
| PreparedStatements.PreparedStatement.Execute | include/boost/mysql/impl/prepared_statement.hpp:36-66 | a count mismatch returns an empty resultset, wrong_num_params and the message without touching the channel; a match runs the pipeline with binary rows on the statement's request, error and info cleared first |
| PreparedStatements.PreparedStatement.AsyncExecute | include/boost/mysql/impl/prepared_statement.hpp:82-129 | a count mismatch completes with the error, the message and an empty resultset before any channel operation; a match runs the pipeline |
| PreparedStatements.PreparedStatement.Close | include/boost/mysql/impl/prepared_statement.hpp:131-140 | error and info are cleared; a sequence reset then COM_STMT_CLOSE with the id are logged; the error is the write's |
| PreparedStatements.PreparedStatement.AsyncClose | include/boost/mysql/impl/prepared_statement.hpp:152-172 | the same effect as Close, with the error info cleared first |

## Left out

- **Asynchronous machinery.** The completion tokens, `Op` coroutines, `async_completion`, `post`, executors and `shared_ptr` ownership are not modelled. An asynchronous operation is a method that runs its steps in order and returns what the handler would receive.
- **The optional `error_info*`.** Asynchronous calls take an `error_info*` that may be null. The model always passes an info and returns the one the caller would see.
- **Channel internals.** Packet framing, the sequence-number counter, the transport and capabilities negotiation are not part of this model. The channel is a queue of read outcomes, an optional write failure and a log of resets and written packets.
- **Opaque decoders.** The ok-packet, error-packet and column-definition decoders are not part of this model; they are parameters of the pipeline.
- **Row reading.** Row reading after the metadata (the resultset's own reads) is not part of this model. The row format is carried only as a tag.
- **Date and datetime printing.** `operator<<` on dates and datetimes calls into the external date library, and is not modelled.
- **Float and double printing.** This is done by the standard stream and is not modelled.
- Values.FormatTime: hours are not truncated to `int`. Hours are printed as an unbounded number. The source casts them to `int` before `%02d`, which differs only for times beyond what `int` holds. No time in the supported range comes near that.
- Values.WidenFloat: the NaN payload is not stated. A NaN is widened with its payload shifted. The model does not state the quiet bit the hardware may set; its contract states sign, NaN-ness and zero-ness only.
- **Throwing overloads.** The overloads that throw instead of returning an error code (`get<T>` throwing mapped to `BadVariantAccess`, `execute`/`close` without `err`) only wrap the error-code forms. They are not modelled separately.
- **Variable-length temporal forms.** The encoder always writes the full date (4), datetime (11) and time (12) bodies that the unit tests show. The shorter forms the protocol also allows are not produced.
- **Parameter containers.** Parameters are a `seq`, so the iterator-pair interface and container independence are not modelled beyond the forward_list vector.
- **Missing source files.** These are not part of this model:
  - the `.ipp` implementations of the records;
  - `execute_statement.hpp` and `close_statement.hpp`;
  - the query and statement serialisers.

  The statement records' behaviour is taken from the unit tests' byte vectors and the records' field lists. The handshake decoders follow the published layouts of the protocol's connection phase (Protocol::HandshakeV10 and Protocol::AuthSwitchRequest), where the field lists alone do not fix a rule.
- HandshakeMessages.DecodeHandshake: the part-2 auth data rule is taken from the published Protocol::HandshakeV10 layout, not from code: part 2 is max(13, announced length - 8) bytes and its last byte, a terminator, is dropped. The decoder starts after the protocol-version byte, which the header lists only as a comment. That it fails only with incomplete_message is the model's assumption: its `deserialize_` (handshake_messages.hpp:47-52) is not part of this model, and a check there that returns another error (on capabilities such as the CLIENT_PLUGIN_AUTH the client requires, handshake_messages.hpp:64) cannot be ruled out.
- HandshakeMessages.DecodeAuthSwitchRequest: one trailing zero byte of the plugin data is dropped. The field list declares the data as a rest-of-packet string, but the record declares its own `deserialize_` (handshake_messages.hpp:142-148), whose implementation is not part of this model; the trim follows the published Protocol::AuthSwitchRequest layout, whose data the server ends with a NUL.
- **Length-encoded field count and 0xfb.** The field count is decoded as a standard length-encoded integer. Any first byte other than the markers 0xfc, 0xfd and 0xfe is the value itself, so 0xfb reads as 251 fields and is not rejected.
- **Capabilities.** Capabilities are threaded through the serialisers but used only by CLIENT_CONNECT_WITH_DB in the handshake response.
- **PreparedStatement moved-from state.** The state of a handle after it has been moved from is not modelled; `Move` and `MoveAssign` leave the source as it was.
- **Length bounds.** Strings longer than 2^64 - 1 bytes cannot be length-encoded and are excluded by precondition.
- **Authentication.** The handshake algorithm itself and the authentication plugins (SHA-1, SHA-256, RSA) are not part of this model.
- **Integration tests.** The live-server behaviour in the integration tests is not modelled.
- ExecuteGeneric.Execute: the definition loop is not inline. The definition loops live in `ProcessFieldDefinitions` and `CountDownFieldDefinitions`, so `Execute` and `AsyncExecute` call them rather than looping inline.
