/**
 Length-prefixed messages on a relay connection (dchat-tuna/nkn-tuna-session/message.go): four
 little-endian length bytes, then the message.
 */
module MessageFraming {
  import opened Bytes
  import opened Sequences
  import opened Wrappers

  const WORD := 0x1_0000_0000

  /** `PutUint32` of the length; converting to 32 bits drops what does not fit. */
  function LengthBytes(length: nat): (bytes: seq<Byte>)
    ensures |bytes| == 4
  {
    [length % 256, length / 256 % 256, length / 65536 % 256, length / 16777216 % 256]
  }

  function Uint32(bytes: seq<Byte>): nat
    requires |bytes| >= 4
  {
    bytes[0] + 256 * (bytes[1] as nat) + 65536 * (bytes[2] as nat) + 16777216 * (bytes[3] as nat)
  }

  lemma LengthSurvives(length: nat)
    ensures Uint32(LengthBytes(length)) == length % WORD
  {
    var a, b, c := length / 256, length / 65536, length / 16777216;
    assert b == a / 256 && c == b / 256 && length / WORD == c / 256;
  }

  function Encode(message: seq<Byte>): seq<Byte> {
    LengthBytes(|message|) + message
  }

  function EncodeAll(messages: seq<seq<Byte>>): seq<Byte> {
    FlatMap(Encode, messages)
  }

  datatype ReadError = EndOfStream | UnexpectedEnd | TooLarge(size: nat)

  datatype Outcome = Outcome(result: Result<seq<Byte>, ReadError>, rest: seq<Byte>)

  /** `io.ReadFull`: all the bytes asked for, or an error when the stream ends first. */
  function ReadFull(stream: seq<Byte>, n: nat): Outcome {
    if n <= |stream| then Outcome(Ok(stream[..n]), stream[n..])
    else Outcome(Err(if stream == [] then EndOfStream else UnexpectedEnd), [])
  }

  /** `readMessage`: a message longer than the limit is refused once its length is known. */
  function Read(stream: seq<Byte>, limit: nat): Outcome {
    var header := ReadFull(stream, 4);
    if header.result.Err? then header else
      var size := Uint32(header.result.value);
      if size > limit then Outcome(Err(TooLarge(size)), header.rest) else ReadFull(header.rest, size)
  }

  lemma BytesSurvive(bytes: seq<Byte>)
    requires |bytes| == 4
    ensures Uint32(bytes) < WORD && LengthBytes(Uint32(bytes)) == bytes
  {
    var n := Uint32(bytes);
    assert n / 256 == bytes[1] + 256 * (bytes[2] as nat) + 65536 * (bytes[3] as nat);
    assert n / 65536 == n / 256 / 256 == bytes[2] + 256 * (bytes[3] as nat);
    assert n / 16777216 == n / 65536 / 256 == bytes[3];
  }

  lemma ReadSplits(stream: seq<Byte>, message: seq<Byte>, rest: seq<Byte>)
    requires stream == Encode(message) + rest
    ensures |stream| >= 4 + |message| && stream[..4] == LengthBytes(|message|)
    ensures stream[4..] == message + rest
    ensures stream[4..][..|message|] == message && stream[4..][|message|..] == rest
  {
  }

  lemma ReadMeansEncoded(stream: seq<Byte>, limit: nat)
    ensures var o := Read(stream, limit);
            o.result.Ok? ==> |o.result.value| <= limit && stream == Encode(o.result.value) + o.rest
  {
    if Read(stream, limit).result.Ok? {
      BytesSurvive(stream[..4]);
      var size := Uint32(stream[..4]);
      assert stream == stream[..4] + stream[4..][..size] + stream[4..][size..];
    }
  }

  lemma EncodedIsRead(message: seq<Byte>, rest: seq<Byte>, limit: nat)
    requires |message| <= limit < WORD
    ensures Read(Encode(message) + rest, limit) == Outcome(Ok(message), rest)
  {
    ReadSplits(Encode(message) + rest, message, rest);
    LengthSurvives(|message|);
  }

  /** Reading succeeds exactly on streams that start with the encoding of a message within the limit. */
  lemma ReadsExactlyTheEncoded(stream: seq<Byte>, limit: nat, message: seq<Byte>, rest: seq<Byte>)
    requires limit < WORD
    ensures Read(stream, limit) == Outcome(Ok(message), rest)
            <==> |message| <= limit && stream == Encode(message) + rest
  {
    if |message| <= limit && stream == Encode(message) + rest {
      EncodedIsRead(message, rest, limit);
    } else {
      ReadMeansEncoded(stream, limit);
    }
  }

  /** What failing says: nothing more came, the stream broke off, or a message over the limit was announced. */
  lemma ReadErrorsMean(stream: seq<Byte>, limit: nat)
    ensures var result := Read(stream, limit).result;
            && (result == Err(UnexpectedEnd) <==>
                  if |stream| < 4 then |stream| > 0
                  else |stream| > 4 && Uint32(stream) <= limit && |stream| < 4 + Uint32(stream))
            && (result == Err(EndOfStream) <==>
                  |stream| == 0 || (|stream| == 4 && 0 < Uint32(stream) <= limit))
            && (result.Err? && result.error.TooLarge? <==> |stream| >= 4 && Uint32(stream) > limit)
  {
    if |stream| >= 4 {
      assert Uint32(stream[..4]) == Uint32(stream);
    }
  }

  /** Reading until the first error, as the session's reader does. */
  function ReadAll(stream: seq<Byte>, limit: nat): (seq<seq<Byte>>, ReadError)
    decreases |stream|
  {
    var o := Read(stream, limit);
    if o.result.Err? then ([], o.result.error) else
      var (messages, error) := ReadAll(o.rest, limit);
      ([o.result.value] + messages, error)
  }

  /** A sequence of messages is read back exactly if and only if each is within the reader's limit. */
  lemma {:induction false} ReadBackIff(messages: seq<seq<Byte>>, limit: nat)
    requires limit < WORD
    ensures (forall m <- messages :: |m| <= limit) <==> ReadAll(EncodeAll(messages), limit) == (messages, EndOfStream)
  {
    if messages != [] {
      var first, rest := messages[0], messages[1..];
      ReadBackIff(rest, limit);
      FlatMapFirst(Encode, messages);
      assert messages == [first] + rest;
      ReadsExactlyTheEncoded(EncodeAll(messages), limit, first, EncodeAll(rest));
    }
  }

  /** One end of a relay connection: bytes written to it, and bytes still to be read from it. */
  class Connection {
    var outgoing: seq<Byte>
    var incoming: seq<Byte>

    /** `conn.Write`, which may fail after part of the bytes. */
    method Write(bytes: seq<Byte>, failedAfter: Option<nat>) returns (ok: bool)
      modifies this`outgoing
      ensures ok <==> failedAfter.None? || failedAfter.value >= |bytes|
      ensures outgoing == old(outgoing) + if ok then bytes else bytes[..failedAfter.value]
    {
      ok := failedAfter.None? || failedAfter.value >= |bytes|;
      outgoing := outgoing + if ok then bytes else bytes[..failedAfter.value];
    }

    /** Writes the length, then the message; a failure leaves a proper prefix of the encoding. */
    method WriteMessage(buf: seq<Byte>, headerFails: Option<nat>, bodyFails: Option<nat>) returns (ok: bool)
      modifies this`outgoing
      ensures ok ==> outgoing == old(outgoing) + Encode(buf)
      ensures !ok ==> exists n :: 0 <= n < |Encode(buf)| && outgoing == old(outgoing) + Encode(buf)[..n]
    {
      var msgSizeBuf := new Byte[4];
      msgSizeBuf[0] := |buf| % 256;
      msgSizeBuf[1] := |buf| / 256 % 256;
      msgSizeBuf[2] := |buf| / 65536 % 256;
      msgSizeBuf[3] := |buf| / 16777216 % 256;
      assert msgSizeBuf[..] == LengthBytes(|buf|);
      ok := Write(msgSizeBuf[..], headerFails);
      if !ok {
        assert Encode(buf)[..headerFails.value] == LengthBytes(|buf|)[..headerFails.value];
        return;
      }
      ok := Write(buf, bodyFails);
      if !ok {
        assert Encode(buf)[..4 + bodyFails.value] == LengthBytes(|buf|) + buf[..bodyFails.value];
      }
    }

    method ReadMessage(limit: nat) returns (result: Result<seq<Byte>, ReadError>)
      modifies this`incoming
      ensures Outcome(result, incoming) == Read(old(incoming), limit)
    {
      var header := ReadFull(incoming, 4);
      incoming := header.rest;
      if header.result.Err? {
        return header.result;
      }
      var msgSize := Uint32(header.result.value);
      if msgSize > limit {
        return Err(TooLarge(msgSize));
      }
      var body := ReadFull(incoming, msgSize);
      incoming := body.rest;
      return body.result;
    }
  }
}
