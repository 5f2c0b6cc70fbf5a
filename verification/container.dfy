/**
 * The wire metadata of one Simple Binary Protocol message: the kind table,
 * code validation, the 12-byte header and the classification of outgoing
 * values (class `Container` of cp2k/sbp.py).
 */
module Sbp {
  import opened Bytes

  /**
   * Why an operation fails; the source raises an exception in each case.
   * `ConnectionClosed`, `NegativeLength`, `RecvSizeOverflow` and `PartialElement`
   * are failures of `receive` (module `Framing`); they are declared here because
   * `Container` and the connection share this one `Result` type.
   */
  datatype Error =
    | UnsupportedType          // neither a string nor an array of a listed element type
    | NotOneDimensional        // an array whose shape has other than one dimension
    | InvalidCode(code: int)   // a kind code outside the table
    | MalformedHeader          // a header whose two fields cannot be read
    | LengthOverflow           // a byte length that does not fit the signed 64-bit field
    | ConnectionClosed         // the header read returned no bytes at all
    | NegativeLength           // the header declares a negative byte length
    | RecvSizeOverflow         // the declared byte length does not fit recv's C int buffer size
    | PartialElement           // a numeric payload that does not split into whole elements

  datatype Result<+T> = Ok(value: T) | Err(error: Error)
  {
    predicate IsFailure() { Err? }

    function PropagateFailure<U>(): Result<U>
      requires Err?
    {
      Err(error)
    }

    function Extract(): T
      requires Ok?
    {
      value
    }
  }

  /**
   * The values a caller can hand to `send` and get back from `receive`:
   * a (byte) string, a numpy array given by its dtype string (endian
   * character first, e.g. "<i4"), its shape and its raw buffer, or any other
   * object. Array elements are kept as bytes; float64 items stay opaque.
   */
  datatype Value =
    | Str(bytes: seq<byte>)
    | Array(dtype: string, shape: seq<nat>, raw: seq<byte>)
    | OtherObject

  /** Byte order of every numeric field and payload. */
  const Endian: char := '<'

  /** The kind table: the position of an element type string is its kind code. */
  const KindStrings: seq<string> := ["i1", "i1", "i4", "f8"]

  const KindFieldSize: nat := 4
  const LengthFieldSize: nat := 8
  const HeaderSize: nat := KindFieldSize + LengthFieldSize

  predicate ValidCode(code: int)
  {
    0 <= code < |KindStrings|
  }

  /** Accepts exactly the codes of the table and fails on any other. */
  function CheckCode(code: int): (r: Result<()>)
    ensures r.Ok? <==> 0 <= code < 4
    ensures r.Err? ==> r.error == InvalidCode(code)
  {
    if !(code >= 0 && code < |KindStrings|) then Err(InvalidCode(code)) else Ok(())
  }

  /** The element size in bytes: the digit that ends the kind's type string. */
  function Size(code: int): (r: nat)
    requires ValidCode(code)
    ensures code == 0 || code == 1 ==> r == 1
    ensures code == 2 ==> r == 4
    ensures code == 3 ==> r == 8
  {
    var s := KindStrings[code];
    (s[|s| - 1] as int) - ('0' as int)
  }

  /** Message metadata: kind code, dtype string, element size, item count, byte count. */
  datatype Container = Container(code: int, dtype: string, size: nat, nItems: int, nBytes: int)
  {
    /** What every Container satisfies: each one is built by NewContainer. */
    ghost predicate Valid()
    {
      && ValidCode(code)
      && dtype == [Endian] + KindStrings[code]
      && size == Size(code)
      && nBytes == size * nItems
    }
  }

  /** Floor division brackets n between two consecutive multiples of the size. */
  lemma {:induction false} FloorDivBounds(n: int, size: nat)
    requires size > 0
    ensures size * (n / size) <= n < size * (n / size) + size
  {
    var q, m := n / size, n % size;
    assert n == size * q + m && 0 <= m < size;
  }

  lemma {:induction false} MulDivCancel(k: int, size: nat)
    requires size > 0
    ensures (size * k) / size == k
  {
    var q, m := (size * k) / size, (size * k) % size;
    var d := k - q;
    assert size * d == m by {
      assert size * k == size * q + m;
      assert size * d == size * k - size * q;
    }
  }

  /**
   * The constructor: `n` is an item count, or a byte count when
   * `isByteCount`, in which case the item count is n divided by the element
   * size rounded towards minus infinity, with no error for a remainder.
   */
  function NewContainer(code: int, n: int, isByteCount: bool): (r: Result<Container>)
    ensures r.Ok? <==> ValidCode(code)
    ensures r.Err? ==> r.error == InvalidCode(code)
    ensures r.Ok? ==> r.value.Valid() && r.value.code == code
    ensures r.Ok? && !isByteCount ==> r.value.nItems == n
    ensures r.Ok? && isByteCount ==> r.value.nBytes <= n < r.value.nBytes + r.value.size
  {
    var _ :- CheckCode(code);
    var size := Size(code);
    // Dafny's division is Euclidean, which for a positive divisor is
    // Python 2's floor division.
    var nItems := if isByteCount then n / size else n;
    FloorDivBounds(n, size);
    Ok(Container(code, [Endian] + KindStrings[code], size, nItems, size * nItems))
  }

  /** The type string of an array dtype with its endian character removed. */
  function StripEndian(dtype: string): (r: string)
    ensures dtype == [] ==> r == []
    ensures dtype != [] ==> dtype == [dtype[0]] + r
  {
    if dtype == [] then [] else dtype[1..]
  }

  /** The first position of x in s (Python's tuple.index). */
  function FirstIndex(s: seq<string>, x: string): (i: nat)
    requires x in s
    ensures i < |s| && s[i] == x
    ensures forall j :: 0 <= j < i ==> s[j] != x
  {
    if s[0] == x then 0 else 1 + FirstIndex(s[1..], x)
  }

  /** Classifies an outgoing value. */
  function FromData(v: Value): (r: Result<Container>)
    ensures r.Ok? <==> v.Str? || (v.Array? && |v.shape| == 1 && StripEndian(v.dtype) in KindStrings)
    ensures r.Ok? ==> r.value.Valid() && (r.value.code == 1 <==> v.Str?)
    ensures v.Str? ==> r.Ok? && r.value.code == 1 && r.value.nItems == |v.bytes|
    ensures v.Array? && r.Ok? ==>
      && r.value.nItems == v.shape[0]
      && KindStrings[r.value.code] == StripEndian(v.dtype)
      && forall j :: 0 <= j < r.value.code ==> KindStrings[j] != StripEndian(v.dtype)
    ensures v.Array? && |v.shape| != 1 ==> r == Err(NotOneDimensional)
    ensures v.Array? && |v.shape| == 1 && StripEndian(v.dtype) !in KindStrings ==> r == Err(UnsupportedType)
    ensures r.Err? && !v.Array? ==> !v.Str? && r.error == UnsupportedType
  {
    match v
    case Array(dtype, shape, _) =>
      if |shape| != 1 then Err(NotOneDimensional)
      else
        var kind := StripEndian(dtype);
        if kind !in KindStrings then Err(UnsupportedType)
        else NewContainer(FirstIndex(KindStrings, kind), shape[0], false)
    case Str(s) => NewContainer(1, |s|, false)
    case OtherObject => Err(UnsupportedType)
  }

  /** The table lists "i1" twice; an array of that type always gets the first code. */
  lemma ByteArraysGetCodeZero(v: Value)
    requires v.Array? && |v.shape| == 1 && StripEndian(v.dtype) == "i1"
    ensures FromData(v).Ok? && FromData(v).value.code == 0
  {
    assert KindStrings[0] == "i1";
  }

  /** Parses a received header: a signed 32-bit kind code, then a signed 64-bit byte length. */
  function FromHeader(header: seq<byte>): (r: Result<Container>)
    ensures |header| < KindFieldSize ==> r == Err(MalformedHeader)
    ensures |header| >= KindFieldSize && ValidCode(DecodeSigned(header[..KindFieldSize])) && |header| != HeaderSize ==>
      r == Err(MalformedHeader)
    ensures |header| >= KindFieldSize && !ValidCode(DecodeSigned(header[..KindFieldSize])) ==>
      r == Err(InvalidCode(DecodeSigned(header[..KindFieldSize])))
    ensures r.Ok? <==> |header| == HeaderSize && ValidCode(DecodeSigned(header[..KindFieldSize]))
    ensures r.Ok? ==>
      var n := DecodeSigned(header[KindFieldSize..]);
      && r.value.Valid()
      && r.value.code == DecodeSigned(header[..KindFieldSize])
      && r.value.nBytes <= n < r.value.nBytes + r.value.size
  {
    if |header| < KindFieldSize then Err(MalformedHeader)
    else
      var code := DecodeSigned(header[..KindFieldSize]);
      var _ :- CheckCode(code);
      if |header| != HeaderSize then Err(MalformedHeader)
      else NewContainer(code, DecodeSigned(header[KindFieldSize..]), true)
  }

  /** Builds the header of a container; fails when the byte length overflows its field. */
  function Header(c: Container): (r: Result<seq<byte>>)
    requires c.Valid()
    ensures r.Ok? <==> FitsSigned(c.nBytes, LengthFieldSize)
    ensures r.Err? ==> r.error == LengthOverflow
    ensures r.Ok? ==>
      && |r.value| == HeaderSize
      && DecodeSigned(r.value[..KindFieldSize]) == c.code
      && DecodeSigned(r.value[KindFieldSize..]) == c.nBytes
  {
    var nBytes := c.nItems * c.size;
    if !FitsSigned(nBytes, LengthFieldSize) then Err(LengthOverflow)
    else
      assert FitsSigned(c.code, KindFieldSize) by {
        assert Pow256(KindFieldSize) == 0x1_0000_0000;
      }
      var kind := EncodeSigned(c.code, KindFieldSize);
      var len := EncodeSigned(nBytes, LengthFieldSize);
      DecodeEncodeSigned(c.code, KindFieldSize);
      DecodeEncodeSigned(nBytes, LengthFieldSize);
      assert (kind + len)[..KindFieldSize] == kind && (kind + len)[KindFieldSize..] == len;
      Ok(kind + len)
  }

  /** Parsing the header of a container gives that container back. */
  lemma HeaderRoundTrip(c: Container)
    requires c.Valid() && Header(c).Ok?
    ensures FromHeader(Header(c).value) == Ok(c)
  {
    var h := Header(c).value;
    MulDivCancel(c.nItems, c.size);
    assert DecodeSigned(h[KindFieldSize..]) == c.size * c.nItems;
  }

  /** A parsed header whose length is a whole number of elements is rebuilt byte for byte. */
  lemma HeaderReencodes(h: seq<byte>)
    requires FromHeader(h).Ok?
    requires DecodeSigned(h[KindFieldSize..]) % FromHeader(h).value.size == 0
    ensures Header(FromHeader(h).value) == Ok(h)
  {
    var c := FromHeader(h).value;
    var n := DecodeSigned(h[KindFieldSize..]);
    assert c.nBytes == n by {
      var q := n / c.size;
      assert n == c.size * q;
      MulDivCancel(q, c.size);
    }
    var e := Header(c).value;
    DecodeSignedInjective(e[..KindFieldSize], h[..KindFieldSize]);
    DecodeSignedInjective(e[KindFieldSize..], h[KindFieldSize..]);
    assert e == e[..KindFieldSize] + e[KindFieldSize..];
    assert h == h[..KindFieldSize] + h[KindFieldSize..];
  }

  /** The raw buffer of an int32 array on a little-endian host. */
  function Int32Bytes(xs: seq<int>): (r: seq<byte>)
    requires forall i :: 0 <= i < |xs| ==> FitsSigned(xs[i], 4)
    ensures |r| == 4 * |xs|
  {
    if xs == [] then [] else EncodeSigned(xs[0], 4) + Int32Bytes(xs[1..])
  }

  /** The items of an int32 array read from a little-endian buffer. */
  function Int32Items(raw: seq<byte>): (r: seq<int>)
    requires |raw| % 4 == 0
    ensures |r| == |raw| / 4
    ensures forall i :: 0 <= i < |r| ==> FitsSigned(r[i], 4)
  {
    if raw == [] then [] else [DecodeSigned(raw[..4])] + Int32Items(raw[4..])
  }

  lemma {:induction false} Int32RoundTrip(xs: seq<int>)
    requires forall i :: 0 <= i < |xs| ==> FitsSigned(xs[i], 4)
    ensures Int32Items(Int32Bytes(xs)) == xs
  {
    if xs != [] {
      var b := Int32Bytes(xs);
      assert b[..4] == EncodeSigned(xs[0], 4);
      assert b[4..] == Int32Bytes(xs[1..]);
      DecodeEncodeSigned(xs[0], 4);
      Int32RoundTrip(xs[1..]);
    }
  }
}
