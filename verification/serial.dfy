// mesh/serial.go: frames of a two-byte little-endian length and a protobuf record, over a byte stream.

module Serial {
  import opened Base
  import opened Wire

  const MAX_FRAME := 4096
  const DISCARD := 100
  /** After so many errors in a row the reading loop empties the port's input buffer. */
  const FLUSH_AFTER: nat := 10

  datatype FrameError = HeaderRead | ZeroLength | TooLong(length: nat) | DataRead | Malformed

  /** PutUint16 of uint16(n): a length above 65535 loses its high bits. */
  function Header(n: nat): seq<byte>
  {
    [n % 0x100, n / 0x100 % 0x100]
  }

  /** The little-endian value of two header bytes. */
  function HeaderLength(lo: int, hi: int): int
  {
    lo + 0x100 * hi
  }

  function Frame(m: MeshMessage): seq<byte>
    requires GoMessage(m)
  {
    Header(|Encode(m)|) + Encode(m)
  }

  /** What ReadFrame returns when `rx` is everything the port will ever deliver. */
  function FrameResult(rx: seq<byte>): Result<MeshMessage, FrameError>
  {
    if |rx| < 2 then Err(HeaderRead)
    else
      var n := HeaderLength(rx[0], rx[1]);
      if n == 0 then Err(ZeroLength)
      else if n > MAX_FRAME then Err(TooLong(n))
      else if |rx| < 2 + n then Err(DataRead)
      else
        match Decode(rx[2..2 + n])
        case Some(m) => Ok(m)
        case None => Err(Malformed)
  }

  /** The bytes ReadFrame consumes, apart from those it discards after an oversized length. */
  function Consumed(rx: seq<byte>): (c: nat)
    ensures c <= |rx|
    ensures rx != [] ==> c > 0
  {
    if |rx| < 2 then |rx|
    else
      var n := HeaderLength(rx[0], rx[1]);
      if n == 0 || n > MAX_FRAME then 2
      else if |rx| < 2 + n then |rx|
      else 2 + n
  }

  /** The header and at most 100 further bytes are gone. */
  predicate SkippedAfterHeader(before: seq<byte>, after: seq<byte>)
  {
    && 2 <= |before| - |after| <= 102
    && after == before[|before| - |after|..]
  }

  /** Some bytes at the front are gone. */
  predicate Flushed(before: seq<byte>, after: seq<byte>)
  {
    |after| <= |before| && after == before[|before| - |after|..]
  }

  /** The messages whose frame a reader accepts. */
  predicate Readable(m: MeshMessage)
  {
    GoMessage(m) && 1 <= |Encode(m)| <= 4096
  }

  lemma HeaderValue(n: nat)
    requires n < 0x1_0000
    ensures HeaderLength(Header(n)[0], Header(n)[1]) == n
  {
  }

  /** A frame comes back, whole and with nothing more consumed, exactly when its length is in range. */
  lemma FrameRoundTrip(m: MeshMessage, rest: seq<byte>)
    requires GoMessage(m)
    ensures FrameResult(Frame(m) + rest) == Ok(m) && Consumed(Frame(m) + rest) == |Frame(m)| <==> Readable(m)
  {
    hide Encode, Decode;
    var rx := Frame(m) + rest;
    var n := |Encode(m)|;
    if Readable(m) {
      HeaderValue(n);
      assert rx[2..2 + n] == Encode(m);
      RoundTrip(m);
    } else if n > MAX_FRAME && n < 0x1_0000 {
      HeaderValue(n);
    }
  }

  /** The bytes of a frame: the length of the record, low byte first, and the record. */
  lemma FrameBytes(m: MeshMessage)
    requires GoMessage(m)
    ensures var f := Frame(m);
      && |f| == 2 + |Encode(m)| && f[2..] == Encode(m)
      && (|Encode(m)| < 0x1_0000 ==> f[0] as int + 0x100 * f[1] as int == |Encode(m)|)
  {
    hide Encode;
  }

  /** ReadFrame succeeds exactly on a length of 1 to 4096, low byte first, and a whole record that decodes. */
  lemma FrameAccepted(rx: seq<byte>, m: MeshMessage)
    ensures FrameResult(rx) == Ok(m) <==>
      && |rx| >= 2
      && var n := rx[0] as int + 0x100 * rx[1] as int;
        1 <= n <= 4096 && |rx| >= 2 + n && Decode(rx[2..2 + n]) == Some(m)
    ensures FrameResult(rx) == Ok(m) ==> Consumed(rx) == 2 + rx[0] as int + 0x100 * rx[1] as int
    ensures FrameResult(rx).Err? && FrameResult(rx).error.TooLong? <==>
            |rx| >= 2 && rx[0] as int + 0x100 * rx[1] as int > 4096
  {
    hide Decode;
  }

  // ---- Streams of frames ----

  predicate AllReadable(ms: seq<MeshMessage>)
  {
    forall m :: m in ms ==> Readable(m)
  }

  function Stream(ms: seq<MeshMessage>): seq<byte>
    requires AllReadable(ms)
  {
    if ms == [] then []
    else
      assert Readable(ms[0]);
      Frame(ms[0]) + Stream(ms[1..])
  }

  /**
   * What messageProcessor may make of a stream after `errors` errors in a row: it goes on after every error; the port
   * decides how much is discarded after an oversized length, and how much a flush finds in the buffer.
   */
  ghost predicate Reads(rx: seq<byte>, errors: nat, ms: seq<MeshMessage>)
    decreases |rx|, 0
  {
    if rx == [] then ms == []
    else
      match FrameResult(rx)
      case Ok(m) => ms != [] && ms[0] == m && Reads(rx[Consumed(rx)..], 0, ms[1..])
      case Err(TooLong(_)) =>
        exists k :: 2 <= k <= |rx| && k <= 102 && ReadsOn(rx[k..], errors + 1, ms)
      case Err(_) => ReadsOn(rx[Consumed(rx)..], errors + 1, ms)
  }

  ghost predicate ReadsOn(rx: seq<byte>, errors: nat, ms: seq<MeshMessage>)
    decreases |rx|, 1
  {
    if errors == 10 then exists j :: 0 <= j <= |rx| && Reads(rx[j..], errors, ms)
    else Reads(rx, errors, ms)
  }

  /** The frames at the front are read one after the other. */
  lemma {:induction false} ReadsFront(a: seq<MeshMessage>, rest: seq<byte>, errors: nat, out: seq<MeshMessage>)
    requires AllReadable(a)
    ensures Reads(Stream(a) + rest, errors, out) <==>
            a <= out && Reads(rest, if a == [] then errors else 0, out[|a|..])
    decreases a
  {
    hide Frame, FrameResult, Consumed, Readable, Reads;
    if a == [] {
      assert Stream(a) + rest == rest && out[0..] == out;
    } else {
      var m, tail := a[0], Stream(a[1..]) + rest;
      assert Readable(m);
      ReadableIsGo(m);
      FrameRoundTrip(m, tail);
      ConcatAssociative(Frame(m), Stream(a[1..]), rest);
      ReadsOne(m, tail, errors, out);
      if out != [] {
        ReadsFront(a[1..], rest, 0, out[1..]);
        assert a <= out ==> out[1..][|a| - 1..] == out[|a|..];
        assert a <= out <==> m == out[0] && a[1..] <= out[1..];
      }
    }
  }

  lemma ReadsOne(m: MeshMessage, tail: seq<byte>, errors: nat, out: seq<MeshMessage>)
    requires GoMessage(m) && FrameResult(Frame(m) + tail) == Ok(m) && Consumed(Frame(m) + tail) == |Frame(m)|
    ensures Reads(Frame(m) + tail, errors, out) <==> out != [] && out[0] == m && Reads(tail, 0, out[1..])
  {
    hide FrameResult, Consumed, Encode;
    var rx := Frame(m) + tail;
    assert rx != [];
    assert rx[|Frame(m)|..] == tail;
  }

  /** Reading a stream of frames to its end gives its messages and nothing else. */
  lemma StreamRoundTrip(ms: seq<MeshMessage>, errors: nat, out: seq<MeshMessage>)
    requires AllReadable(ms)
    ensures Reads(Stream(ms), errors, out) <==> out == ms
  {
    hide Stream, Readable, FrameResult, Consumed;
    ReadsFront(ms, [], errors, out);
    assert Stream(ms) + [] == Stream(ms);
    if ms <= out && out[|ms|..] == [] {
      assert out == ms + out[|ms|..];
    }
  }

  /** A record that is empty or does not decode. */
  predicate Bad(record: seq<byte>)
  {
    |record| <= 4096 && (record == [] || Decode(record).None?)
  }

  function BadStream(records: seq<seq<byte>>): seq<byte>
  {
    if records == [] then [] else Header(|records[0]|) + records[0] + BadStream(records[1..])
  }

  /** Up to nine frames with bad records in a row cost the reader nothing but themselves. */
  lemma BadFramesLoseOnlyThemselves(a: seq<MeshMessage>, records: seq<seq<byte>>, b: seq<MeshMessage>,
                                    out: seq<MeshMessage>)
    requires AllReadable(a) && AllReadable(b) && |records| < 10 && forall r :: r in records ==> Bad(r)
    ensures Reads(Stream(a) + (BadStream(records) + Stream(b)), 0, out) <==> out == a + b
  {
    hide Stream, Readable, Reads, BadStream, Bad;
    ReadsFront(a, BadStream(records) + Stream(b), 0, out);
    if a <= out {
      SkipsBadFrames(records, Stream(b), 0, out[|a|..]);
      StreamRoundTrip(b, |records|, out[|a|..]);
      assert out == a + out[|a|..];
    } else {
      assert out == a + b ==> a <= out;
    }
  }

  lemma {:induction false} SkipsBadFrames(records: seq<seq<byte>>, tail: seq<byte>, errors: nat, out: seq<MeshMessage>)
    requires errors + |records| < FLUSH_AFTER && forall r :: r in records ==> Bad(r)
    ensures Reads(BadStream(records) + tail, errors, out) <==> Reads(tail, errors + |records|, out)
    decreases records
  {
    hide Reads, Bad, Header;
    if records == [] {
      assert BadStream(records) + tail == tail;
    } else {
      var record, rest := records[0], BadStream(records[1..]) + tail;
      assert record in records;
      SkipsBadFrame(record, rest, errors, out);
      SkipsBadFrames(records[1..], tail, errors + 1, out);
      assert BadStream(records) + tail == Header(|record|) + record + rest;
    }
  }

  lemma SkipsBadFrame(record: seq<byte>, tail: seq<byte>, errors: nat, out: seq<MeshMessage>)
    requires Bad(record) && errors + 1 < FLUSH_AFTER
    ensures Reads(Header(|record|) + record + tail, errors, out) <==> Reads(tail, errors + 1, out)
  {
    hide Decode;
    var rx := Header(|record|) + record + tail;
    HeaderValue(|record|);
    assert rx[2..2 + |record|] == record;
    assert rx[2 + |record|..] == tail;
  }

  lemma ReadableIsGo(m: MeshMessage)
    requires Readable(m)
    ensures GoMessage(m)
  {
  }

  lemma {:induction false} StreamAppend(a: seq<MeshMessage>, b: seq<MeshMessage>)
    requires AllReadable(a) && AllReadable(b)
    ensures AllReadable(a + b) && Stream(a + b) == Stream(a) + Stream(b)
  {
    hide Frame, Readable;
    if a == [] {
      assert a + b == b;
    } else {
      StreamAppend(a[1..], b);
      assert Readable(a[0]);
      ReadableIsGo(a[0]);
      var head, tail := Frame(a[0]), Stream(a[1..]);
      ConcatAssociative(head, tail, Stream(b));
      assert (a + b)[0] == a[0] && (a + b)[1..] == a[1..] + b;
    }
  }

  // ---- The port and its reader and writer ----

  /** A serial line: `rx` is what remains to be delivered, `tx` what has been written. */
  class SerialPort {
    var rx: seq<byte>
    var tx: seq<byte>

    constructor (incoming: seq<byte>)
      ensures rx == incoming && tx == []
    {
      rx, tx := incoming, [];
    }

    /** Delivers some bytes, as many as the line likes; none only at the end of the input. */
    method Read(n: nat) returns (chunk: seq<byte>)
      modifies this`rx
      ensures |chunk| <= n && old(rx) == chunk + rx
      ensures n > 0 && old(rx) != [] ==> chunk != []
    {
      if n == 0 || rx == [] {
        return [];
      }
      var limit := if n < |rx| then n else |rx|;
      var k :| 1 <= k <= limit;
      chunk, rx := rx[..k], rx[k..];
    }

    /** Discards what has come in and was not read. */
    method Flush()
      modifies this`rx
      ensures Flushed(old(rx), rx)
    {
      var j :| 0 <= j <= |rx|;
      rx := rx[j..];
    }

    method Write(bytes: seq<byte>)
      modifies this`tx
      ensures tx == old(tx) + bytes
    {
      tx := tx + bytes;
    }
  }

  class SerialComm {
    const port: SerialPort

    constructor (port: SerialPort)
      ensures this.port == port
    {
      this.port := port;
    }

    /** io.ReadFull. */
    method ReadFull(n: nat) returns (r: Option<seq<byte>>)
      modifies port`rx
      ensures |old(port.rx)| >= n ==> r == Some(old(port.rx)[..n]) && port.rx == old(port.rx)[n..]
      ensures |old(port.rx)| < n ==> r == None && port.rx == []
    {
      ghost var input := port.rx;
      var got: seq<byte> := [];
      while |got| < n
        invariant |got| <= n && input == got + port.rx
        decreases n - |got|
      {
        var chunk := port.Read(n - |got|);
        if chunk == [] {
          return None;
        }
        got := got + chunk;
      }
      r := Some(got);
    }

    method WriteFrame(msg: MeshMessage)
      requires GoMessage(msg)
      modifies port`tx
      ensures port.tx == old(port.tx) + Frame(msg)
    {
      var data := Encode(msg);
      var header := new byte[2];
      header[0] := |data| % 0x100;
      header[1] := |data| / 0x100 % 0x100;
      assert header[..] == Header(|data|);
      port.Write(header[..]);
      port.Write(data);
      ConcatAssociative(old(port.tx), Header(|data|), data);
    }

    method ReadFrame() returns (r: Result<MeshMessage, FrameError>)
      modifies port`rx
      ensures r == FrameResult(old(port.rx))
      ensures !(r.Err? && r.error.TooLong?) ==> port.rx == old(port.rx)[Consumed(old(port.rx))..]
      ensures r.Err? && r.error.TooLong? ==> SkippedAfterHeader(old(port.rx), port.rx)
    {
      hide Decode;
      ghost var input := port.rx;
      var header := ReadFull(2);
      if header.None? {
        return Err(HeaderRead);
      }
      var length := HeaderLength(header.value[0], header.value[1]);
      if length == 0 {
        return Err(ZeroLength);
      }
      if length > MAX_FRAME {
        var discarded := port.Read(DISCARD);
        assert port.rx == input[2 + |discarded|..];
        return Err(TooLong(length));
      }
      var data := ReadFull(length);
      if data.None? {
        return Err(DataRead);
      }
      assert data.value == input[2..2 + length];
      match Decode(data.value)
      case Some(m) => return Ok(m);
      case None => return Err(Malformed);
    }

    /** The reading half of messageProcessor, until the input is exhausted. */
    method ReadFrames() returns (msgs: seq<MeshMessage>)
      modifies port`rx
      ensures Reads(old(port.rx), 0, msgs) && port.rx == []
    {
      hide FrameResult, Consumed, Reads;
      msgs := [];
      var errors := 0;
      assert forall more: seq<MeshMessage> :: [] + more == more;
      while port.rx != []
        invariant 0 <= errors
        invariant forall more :: Reads(port.rx, errors, more) ==> Reads(old(port.rx), 0, msgs + more)
        decreases |port.rx|
      {
        ghost var rx, before, was := port.rx, msgs, errors;
        var r := ReadFrame();
        ghost var rest := port.rx;
        if r.Ok? {
          msgs, errors := msgs + [r.value], 0;
        } else {
          errors := errors + 1;
          if errors == FLUSH_AFTER {
            port.Flush();
          }
        }
        forall more | Reads(port.rx, errors, more)
          ensures Reads(old(port.rx), 0, msgs + more)
        {
          ReadOn(rx, was, r, rest, port.rx, more);
          assert msgs + more == before + if r.Ok? then [r.value] + more else more;
        }
      }
      NothingLeft(errors);
      assert msgs + [] == msgs;
    }
  }

  /** One turn of the loop takes the stream from `rx` to `rest`, and a flush from there to `left`. */
  lemma ReadOn(rx: seq<byte>, errors: nat, r: Result<MeshMessage, FrameError>, rest: seq<byte>, left: seq<byte>,
               more: seq<MeshMessage>)
    requires rx != [] && r == FrameResult(rx) && Reads(left, if r.Ok? then 0 else errors + 1, more)
    requires !(r.Err? && r.error.TooLong?) ==> rest == rx[Consumed(rx)..]
    requires r.Err? && r.error.TooLong? ==> SkippedAfterHeader(rx, rest)
    requires if r.Err? && errors + 1 == FLUSH_AFTER then Flushed(rest, left) else left == rest
    ensures Reads(rx, errors, if r.Ok? then [r.value] + more else more)
  {
    hide FrameResult, Consumed;
    if r.Ok? {
      assert ([r.value] + more)[1..] == more;
    } else {
      FlushReads(rest, errors + 1, left, more);
      if r.error.TooLong? {
        var k := |rx| - |rest|;
        assert rest == rx[k..];
      }
    }
  }

  lemma FlushReads(rest: seq<byte>, errors: nat, left: seq<byte>, more: seq<MeshMessage>)
    requires Reads(left, errors, more) && if errors == FLUSH_AFTER then Flushed(rest, left) else left == rest
    ensures ReadsOn(rest, errors, more)
  {
    hide Reads;
    if errors == FLUSH_AFTER {
      var j := |rest| - |left|;
      assert left == rest[j..];
    }
  }

  lemma NothingLeft(errors: nat)
    ensures Reads([], errors, [])
  {
  }
}
