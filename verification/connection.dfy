/**
 * Framing of values on a connection's byte stream (`Connection.send` and
 * `Connection.receive` of cp2k/sbp.py). A frame is the 12-byte header
 * immediately followed by the payload bytes.
 */
module Framing {
  import opened Bytes
  import opened Sbp

  /**
   * The payload bytes of a value: a string's own bytes, an array's raw
   * buffer. For a value `send` accepts this is the source's choice by kind
   * code: the string itself for code 1, the array's buffer otherwise.
   */
  function PayloadOf(v: Value): (r: seq<byte>)
    ensures FromData(v).Ok? ==> r == (if FromData(v).value.code == 1 then v.bytes else v.raw)
  {
    match v
    case Str(s) => s
    case Array(_, _, raw) => raw
    case OtherObject => []
  }

  /** The bytes `send` writes for v. */
  function Frame(v: Value): (r: Result<seq<byte>>)
    ensures r.Ok? <==> FromData(v).Ok? && FitsSigned(FromData(v).value.nBytes, LengthFieldSize)
    ensures r.Err? ==> r.error == (if FromData(v).Err? then FromData(v).error else LengthOverflow)
    ensures r.Ok? ==>
      && Header(FromData(v).value).Ok?
      && r.value == Header(FromData(v).value).value + PayloadOf(v)
      && FromHeader(r.value[..HeaderSize]) == FromData(v)
  {
    var c :- FromData(v);
    // strings are sent as they are, arrays as their raw buffer
    var payload := if c.code == 1 then v.bytes else v.raw;
    var header :- Header(c);
    HeaderRoundTrip(c);
    assert (header + payload)[..HeaderSize] == header;
    Ok(header + payload)
  }

  /** recv takes its buffer size as a C int: a larger size fails before reading. */
  const MaxRecvSize: int := 0x8000_0000

  /** The first n bytes of a stream, or all of it when it is shorter (one recv call). */
  function Take(stream: seq<byte>, n: nat): (r: seq<byte>)
    ensures |r| <= n && r <= stream
    ensures |r| < n ==> r == stream
  {
    if n <= |stream| then stream[..n] else stream
  }

  /** How `receive` interprets a payload: codes 0 and 1 as a string, codes 2 and 3 as an array. */
  function Decode(c: Container, data: seq<byte>): (r: Result<Value>)
    requires c.Valid()
    ensures r.Ok? <==> c.code <= 1 || |data| % c.size == 0
    ensures r.Err? ==> r.error == PartialElement
    ensures r.Ok? ==> PayloadOf(r.value) == data && (if c.code <= 1 then r.value.Str? else r.value.Array?)
    ensures r.Ok? && r.value.Array? ==> r.value.dtype == c.dtype && r.value.shape == [|data| / c.size]
  {
    if c.code > 1 then
      if |data| % c.size != 0 then Err(PartialElement)
      else Ok(Array(c.dtype, [|data| / c.size], data))
    else Ok(Str(data))
  }

  /**
   * What `receive` returns for a stream, and the stream left after it: it
   * reads up to 12 header bytes, then up to the declared byte length.
   */
  function Unframe(stream: seq<byte>): (r: (Result<Value>, seq<byte>))
    ensures |r.1| <= |stream| && r.1 == stream[|stream| - |r.1|..]
    ensures r.0 == Err(ConnectionClosed) <==> stream == []
    ensures 0 < |stream| < HeaderSize ==> FromHeader(stream).Err? && r == (Err(FromHeader(stream).error), [])
    ensures |stream| >= HeaderSize && FromHeader(stream[..HeaderSize]).Err? ==>
      r == (Err(FromHeader(stream[..HeaderSize]).error), stream[HeaderSize..])
    ensures |stream| >= HeaderSize && FromHeader(stream[..HeaderSize]).Ok? ==>
      var n := FromHeader(stream[..HeaderSize]).value.nBytes;
      !(0 <= n < MaxRecvSize) ==>
        r == (Err(if n < 0 then NegativeLength else RecvSizeOverflow), stream[HeaderSize..])
    ensures |stream| >= HeaderSize && FromHeader(stream[..HeaderSize]).Ok? ==>
      var c := FromHeader(stream[..HeaderSize]).value;
      0 <= c.nBytes < MaxRecvSize && |stream| < HeaderSize + c.nBytes ==>
        r == (Decode(c, stream[HeaderSize..]), [])
  {
    var header := Take(stream, HeaderSize);
    var rest := stream[|header|..];
    if header == [] then (Err(ConnectionClosed), rest)
    else
      match FromHeader(header)
      case Err(e) => (Err(e), rest)
      case Ok(c) =>
        if c.nBytes < 0 then (Err(NegativeLength), rest)
        else if c.nBytes >= MaxRecvSize then (Err(RecvSizeOverflow), rest)
        else
          var data := Take(rest, c.nBytes);
          (Decode(c, data), rest[|data|..])
  }

  /**
   * A received value's payload follows a 12-byte header that parses, is no
   * longer than the header declares, and has exactly that length when the
   * stream holds it; nothing in between is skipped.
   */
  lemma UnframeParts(stream: seq<byte>)
    requires Unframe(stream).0.Ok?
    ensures
      var (r, left) := Unframe(stream);
      && |stream| >= HeaderSize
      && FromHeader(stream[..HeaderSize]).Ok?
      && var c := FromHeader(stream[..HeaderSize]).value;
      && c.nBytes < MaxRecvSize
      && 0 <= |PayloadOf(r.value)| <= c.nBytes
      && (|stream| >= HeaderSize + c.nBytes ==> |PayloadOf(r.value)| == c.nBytes)
      && stream == stream[..HeaderSize] + PayloadOf(r.value) + left
      && r == Decode(c, PayloadOf(r.value))
  {
    var header := Take(stream, HeaderSize);
    var c := FromHeader(header).value;
    var rest := stream[HeaderSize..];
    var data := Take(rest, c.nBytes);
    assert Unframe(stream) == (Decode(c, data), rest[|data|..]);
    assert stream == header + data + rest[|data|..];
  }

  /** A complete frame is read as its header announces, leaving what follows it. */
  lemma UnframeComplete(header: seq<byte>, payload: seq<byte>, rest: seq<byte>)
    requires FromHeader(header).Ok? && FromHeader(header).value.nBytes == |payload|
    requires |payload| < MaxRecvSize
    ensures Unframe(header + payload + rest) == (Decode(FromHeader(header).value, payload), rest)
  {
    var stream := header + payload + rest;
    assert Take(stream, HeaderSize) == header;
    var after := stream[|header|..];
    assert after == payload + rest;
    assert Take(after, |payload|) == payload;
    assert after[|payload|..] == rest;
  }

  /** The value `receive` returns for a frame that `send` wrote for v. */
  function Echo(v: Value): (r: Value)
    requires FromData(v).Ok?
    ensures v.Str? ==> r == v
    ensures v.Array? && (v.dtype == "<i4" || v.dtype == "<f8") ==> r == v
    ensures v.Array? && StripEndian(v.dtype) == "i1" ==> r == Str(v.raw)
  {
    var c := FromData(v).value;
    if c.code > 1 then Array(c.dtype, [c.nItems], v.raw) else Str(PayloadOf(v))
  }

  /** Decoding the payload of v with the container of v gives what `receive` returns for v. */
  lemma DecodeEcho(v: Value)
    requires FromData(v).Ok?
    requires v.Array? ==> |v.raw| == FromData(v).value.nBytes
    ensures Decode(FromData(v).value, PayloadOf(v)) == Ok(Echo(v))
  {
    var c := FromData(v).value;
    if c.code > 1 {
      MulDivCancel(c.nItems, c.size);
      assert |PayloadOf(v)| / c.size == c.nItems;
    }
  }

  /**
   * Receiving what was sent gives the value back and consumes exactly its
   * frame. An array's buffer holds exactly its items times its element size.
   */
  lemma SendThenReceive(v: Value, rest: seq<byte>)
    requires Frame(v).Ok?
    requires v.Array? ==> |v.raw| == FromData(v).value.nBytes
    requires FromData(v).value.nBytes < MaxRecvSize
    ensures Unframe(Frame(v).value + rest) == (Ok(Echo(v)), rest)
  {
    var c := FromData(v).value;
    var f := Frame(v).value;
    var header, payload := f[..HeaderSize], PayloadOf(v);
    assert f == header + payload;
    assert FromHeader(header) == Ok(c);
    assert |payload| == c.nBytes;
    UnframeComplete(header, payload, rest);
    DecodeEcho(v);
  }

  /** An int32 array goes out as kind 2 with 4 bytes per item and comes back item for item. */
  lemma Int32ArrayExchange(xs: seq<int>)
    requires forall i :: 0 <= i < |xs| ==> FitsSigned(xs[i], 4)
    requires 4 * |xs| < MaxRecvSize
    ensures
      var v := Array("<i4", [|xs|], Int32Bytes(xs));
      && Frame(v).Ok?
      && |Frame(v).value| == HeaderSize + 4 * |xs|
      && FromHeader(Frame(v).value[..HeaderSize]).value.code == 2
      && FromHeader(Frame(v).value[..HeaderSize]).value.nBytes == 4 * |xs|
      && Unframe(Frame(v).value) == (Ok(v), [])
      && Int32Items(v.raw) == xs
  {
    var v := Array("<i4", [|xs|], Int32Bytes(xs));
    assert FitsSigned(4 * |xs|, LengthFieldSize) by {
      assert Pow256(LengthFieldSize) == 0x1_0000_0000_0000_0000;
    }
    assert StripEndian(v.dtype) == KindStrings[2];
    assert FromData(v).value.code == 2;
    SendThenReceive(v, []);
    assert Frame(v).value + [] == Frame(v).value;
    Int32RoundTrip(xs);
  }

  /** The exchange of test/sbp-client.py: the int32 array 0, 1, ..., 9 in a 40-byte payload. */
  lemma Int32RangeExchange()
    ensures
      var xs := seq(10, i => i);
      var v := Array("<i4", [10], Int32Bytes(xs));
      && Frame(v).Ok?
      && FromHeader(Frame(v).value[..HeaderSize]).value.nBytes == 40
      && Unframe(Frame(v).value) == (Ok(v), [])
      && Int32Items(v.raw) == xs
  {
    var xs := seq(10, i => i);
    assert Pow256(4) == 0x1_0000_0000;
    Int32ArrayExchange(xs);
  }

  /**
   * One end of an SBP connection: the bytes received from the peer and not
   * yet read, and the bytes written to the peer.
   */
  class Connection {
    var inbound: seq<byte>
    var outbound: seq<byte>

    constructor (incoming: seq<byte>)
      ensures inbound == incoming && outbound == []
    {
      inbound := incoming;
      outbound := [];
    }

    /** One recv call: at most n bytes, fewer only when the stream ends. */
    method Recv(n: nat) returns (chunk: seq<byte>)
      modifies this`inbound
      ensures chunk == Take(old(inbound), n)
      ensures inbound == old(inbound)[|chunk|..]
    {
      chunk := if n <= |inbound| then inbound[..n] else inbound;
      inbound := inbound[|chunk|..];
    }

    /** Writes the header and the payload of v in one call, or fails before writing. */
    method Send(v: Value) returns (r: Result<()>)
      modifies this`outbound
      ensures r.Ok? <==> Frame(v).Ok?
      ensures r.Err? ==> r.error == Frame(v).error && outbound == old(outbound)
      ensures r.Ok? ==> outbound == old(outbound) + Frame(v).value
    {
      var c :- FromData(v);
      var data := if c.code == 1 then v.bytes else v.raw;
      var header :- Header(c);
      outbound := outbound + (header + data);
      r := Ok(());
    }

    /** Reads one frame and decodes its payload. */
    method Receive() returns (r: Result<Value>)
      modifies this`inbound
      ensures (r, inbound) == Unframe(old(inbound))
    {
      var header := Recv(HeaderSize);
      if header == [] {
        return Err(ConnectionClosed);
      }
      var c :- FromHeader(header);
      if c.nBytes < 0 {
        return Err(NegativeLength);
      }
      if c.nBytes >= MaxRecvSize {
        return Err(RecvSizeOverflow);
      }
      var data := Recv(c.nBytes);
      if c.code > 1 {
        if |data| % c.size != 0 {
          return Err(PartialElement);
        }
        r := Ok(Array(c.dtype, [|data| / c.size], data));
      } else {
        r := Ok(Str(data));
      }
    }
  }

  /**
   * The exchange of test/sbp-client.py over two connection ends, for any
   * int32 array (the test uses 0..9): a client sends the array, and a peer
   * that receives the client's bytes reads back that same array, item for
   * item, leaving nothing unread.
   */
  method EchoClient(xs: seq<int>) returns (sent: Result<()>, received: Result<Value>)
    requires forall i :: 0 <= i < |xs| ==> FitsSigned(xs[i], 4)
    requires 4 * |xs| < MaxRecvSize
    ensures sent.Ok?
    ensures received == Ok(Array("<i4", [|xs|], Int32Bytes(xs)))
    ensures Int32Items(received.value.raw) == xs
  {
    var a := Array("<i4", [|xs|], Int32Bytes(xs));
    Int32ArrayExchange(xs);
    ghost var f := Frame(a).value;
    assert Unframe(f) == (Ok(a), []);
    var client := new Connection([]);
    sent := client.Send(a);
    assert client.outbound == [] + f == f;
    var peer := new Connection(client.outbound);
    received := peer.Receive();
    assert (received, peer.inbound) == Unframe(f);
  }
}
