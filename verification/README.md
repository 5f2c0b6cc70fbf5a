# Simple Binary Protocol framing, in Dafny

This project models the Simple Binary Protocol (SBP) of python-CP2K. SBP is the
length-prefixed, type-tagged framing that the Python side uses to exchange strings
and flat numeric arrays with a CP2K process over one TCP connection.

- `bytes.dfy` (module `Bytes`): fixed-width little-endian integers. There is an
  unsigned and a two's complement encoding, with both round trips proved. The
  header fields use them, and so do the int32 array buffers.
- `container.dfy` (module `Sbp`): the class `Container` of `cp2k/sbp.py`.
  - The kind table `("i1", "i1", "i4", "f8")`.
  - Code validation.
  - The element size, read from the last digit of the type string.
  - The constructor, which takes either an item count or a byte count.
  - Classification of outgoing values (`from_data`).
  - The 12-byte header: a signed 32-bit kind code, then a signed 64-bit byte
    length, both little-endian. It is built by `header` and parsed by
    `from_header`.
  - A `Container` is a datatype, built once and never changed, and
    `Container.Valid` is what every constructed one satisfies.
- `connection.dfy` (module `Framing`): `Connection.send` and `Connection.receive`.
  - The class `Connection` holds two byte sequences. `inbound` holds what the
    peer has sent and is not yet read; `outbound` holds what this end has written.
  - `Send` appends the header and the payload in one write.
  - `Receive` consumes one `recv` of up to 12 bytes, then one `recv` of up to
    the declared length.
  - Each method is proved against a pure function of the stream (`Frame`,
    `Unframe`). The round trip is proved about those functions.

Values are a tagged union:
- `Str(bytes)`: a Python 2 `str`.
- `Array(dtype, shape, raw)`: a numpy array. `dtype` is the array's dtype
  string, such as `"<i4"`, `shape` is its shape and `raw` is its native buffer.
- `OtherObject`: anything else.

Float64 items stay opaque 8-byte groups. Int32 buffers can be read as integers
(`Int32Bytes`, `Int32Items`).

In five places the model follows the code of `cp2k/sbp.py` rather than a
tidier reading of the protocol:
- A byte length that is not a multiple of the element size is not rejected.
  The item count is the floor of the quotient, so `nBytes` becomes the largest
  multiple of the size that is not above the declared length.
- A negative declared length is possible. Floor division then gives a negative
  item count, and `receive` fails at the payload read, because `recv` refuses a
  negative size.
- Python 2's `recv` takes its buffer size as a C `int`. A declared length of
  2^31 bytes or more therefore fails at the payload read, before anything is
  consumed (`Framing.MaxRecvSize`). Sending such a payload is not limited in
  this way, so the round trip holds only for payloads below 2^31 bytes.
- A code-0 array is received back as a string, not as an array.
- `receive` makes exactly one read for the header and one for the payload, with
  no reassembly of fragments. On the in-memory stream, a read returns fewer bytes
  only when the stream ends:
  - A short header fails, because numpy cannot read its fields.
  - A short payload of code 0 or 1 is returned as it is.
  - A short payload of code 2 or 3 fails when it is not a whole number of
    elements. Otherwise it is returned as a shorter array.

Error conditions are the `Sbp.Error` datatype. The source raises instead:
- `SBPError` for unsupported types.
- An `AssertionError` for arrays with other than one dimension.
- A `TypeError` from the malformed `raise` in `check_code`.
- numpy's `ValueError` and `OverflowError`, and the `ValueError` and `OverflowError` of `recv`.
- A `RuntimeError` when the header read is empty.

The model does not distinguish these exception classes. It gives each failure a
constructor of its own.

## Model

| member | source | states |
|---|---|---|
| `Bytes.EncodeSigned` | cp2k/sbp.py:35-36 | a value that fits the width is encoded in exactly `width` bytes (numpy's `<i4`/`<i8` little-endian dtypes) |
| `Bytes.DecodeSigned` | cp2k/sbp.py:69-71 | decoding `width` bytes gives a value that fits `width` bytes in two's complement |
| `Bytes.DecodeUnsigned` | cp2k/sbp.py:69-71 | the unsigned value of n little-endian bytes is below 256^n |
| `Bytes.EncodeUnsigned` | cp2k/sbp.py:102-103 | the encoding has exactly the requested width |
| `Bytes.DecodeEncodeUnsigned` | cp2k/sbp.py:102-103 | decoding the encoding of any x < 256^w gives x back |
| `Bytes.EncodeDecodeUnsigned` | cp2k/sbp.py:69-71 | re-encoding the value of any byte string gives that byte string back |
| `Bytes.DecodeEncodeSigned` | cp2k/sbp.py:35-36 | decoding the two's complement encoding of any value in range gives that value back |
| `Bytes.EncodeDecodeSigned` | cp2k/sbp.py:35-36 | re-encoding the signed value of any byte string gives that byte string back |
| `Bytes.DecodeSignedInjective` | cp2k/sbp.py:69-71 | two equal-width byte strings with the same signed value are equal |
| `Sbp.CheckCode` | cp2k/sbp.py:74-79 | succeeds exactly for codes with 0 <= code < 4; fails with the offending code otherwise |
| `Sbp.Size` | cp2k/sbp.py:90-91 | the element size read from the type string is 1 for codes 0 and 1, 4 for code 2, 8 for code 3 |
| `Sbp.NewContainer` | cp2k/sbp.py:81-96 | succeeds exactly for valid codes; the result is `Valid` (in-table code, size of the code, nBytes == size * nItems); with an item count it keeps it; with a byte count n it sets nBytes to the largest multiple of the size that is <= n, with no error for a remainder |
| `Sbp.StripEndian` | cp2k/sbp.py:50 | the result is the dtype string without its first (endian) character, and empty for an empty string |
| `Sbp.FirstIndex` | cp2k/sbp.py:52 | the index holds x and no earlier index does (tuple.index) |
| `Sbp.FromData` | cp2k/sbp.py:42-63 | succeeds exactly for strings and one-dimensional arrays whose endian-stripped dtype is in the table; strings get code 1 with one item per character; arrays get the first table index of their type and their length as item count; code 1 only for strings; arrays of other shapes fail as not one-dimensional; one-dimensional arrays of an unlisted type and objects that are neither fail as unsupported |
| `Sbp.ByteArraysGetCodeZero` | cp2k/sbp.py:25-26 | an `i1` array is classified with code 0, never 1 |
| `Sbp.FromHeader` | cp2k/sbp.py:65-72 | succeeds exactly for 12-byte headers whose first four bytes hold a valid code; the result is `Valid`, has that code, and its byte count is the declared length rounded down to a multiple of the size; headers under 4 bytes fail as malformed, out-of-range codes as invalid, and headers of any other length than 12 with a valid code as malformed |
| `Sbp.Header` | cp2k/sbp.py:98-105 | fails exactly when the byte length does not fit a signed 64-bit field; otherwise is exactly 12 bytes whose first 4 decode to the code and last 8 to nItems * size |
| `Sbp.HeaderRoundTrip` | cp2k/sbp.py:65-105 | parsing the header of any valid container gives that same container (same code and item count) |
| `Sbp.HeaderReencodes` | cp2k/sbp.py:98-105 | a parsed header whose length is a whole number of elements is rebuilt byte for byte by `Header` |
| `Sbp.Int32Bytes` | cp2k/sbp.py:146 | the buffer of n int32 items is 4n bytes |
| `Sbp.Int32Items` | cp2k/sbp.py:178 | a 4n-byte buffer reads as n items, each a signed 32-bit value |
| `Sbp.Int32RoundTrip` | cp2k/sbp.py:146-178 | reading back the buffer of an int32 array gives its items |
| `Framing.Frame` | cp2k/sbp.py:138-157 | fails exactly when classification fails or the length overflows, with that error; otherwise the bytes are exactly `Header` of the value's container followed by the value's payload, and that header parses back to the container |
| `Framing.PayloadOf` | cp2k/sbp.py:143-146 | for a value `send` accepts, the payload is the string itself when the kind code is 1 and the array's raw buffer otherwise |
| `Framing.Take` | cp2k/sbp.py:163 | one recv returns a prefix of the stream of at most n bytes, shorter only when the stream is |
| `Framing.Decode` | cp2k/sbp.py:177-180 | codes 0 and 1 give a string, codes 2 and 3 an array (possibly empty) of the container's dtype with one item per element; fails exactly when a numeric payload is not a whole number of elements; the value carries the payload unchanged |
| `Framing.Unframe` | cp2k/sbp.py:159-186 | consumes a prefix of the stream; fails with "connection closed" exactly on an empty stream; a short or unparsable header fails with `from_header`'s error; a declared length that is negative or not below 2^31 fails with its own error after consuming only the 12 header bytes; when the stream holds fewer payload bytes than declared, what is left is decoded (so a partial numeric element fails with `PartialElement`) and the stream is emptied |
| `Framing.UnframeParts` | cp2k/sbp.py:163-180 | a received value's payload follows a 12-byte header that parses and declares a length below 2^31, is no longer than that length and exactly that long when the stream holds it; the value is that payload decoded with the header's container; header, payload and remaining stream make up the input |
| `Framing.Echo` | cp2k/sbp.py:174-180 | a string comes back unchanged, so does a `<i4` or `<f8` array, and an `i1` array comes back as the string of its bytes |
| `Framing.UnframeComplete` | cp2k/sbp.py:163-180 | a valid header followed by exactly its declared payload, shorter than 2^31 bytes, is received as that payload decoded with the header's container, and leaves the bytes after it |
| `Framing.DecodeEcho` | cp2k/sbp.py:141-146 | decoding the payload `send` writes for v, with the container `send` classified v as, gives `Echo(v)` |
| `Framing.SendThenReceive` | cp2k/sbp.py:141-180 | for a payload below 2^31 bytes, receiving from a stream that starts with the frame of v yields `Echo(v)` and leaves exactly the bytes after the frame |
| `Framing.Int32ArrayExchange` | cp2k/sbp.py:141-180 | an int32 array of fewer than 2^29 items is sent with code 2 and a byte length of 4 per item, and is received back as the same array with the same items, emptying the stream |
| `Framing.Int32RangeExchange` | test/sbp-client.py:6-12 | the array 0..9 is framed with a byte length of 40 and is received back equal, item for item |
| `Framing.EchoClient` | test/sbp-client.py:6-12 | through the `Send` and `Receive` methods, an int32 array sent by a client is received by the peer that gets the client's bytes as the same array, item for item |
| `Framing.Connection.Recv` | cp2k/sbp.py:174 | returns the first n bytes of the inbound stream (fewer only at its end) and removes them |
| `Framing.Connection.Send` | cp2k/sbp.py:138-157 | appends exactly `Frame(v)` to the outbound stream, or fails with its error and writes nothing |
| `Framing.Connection.Receive` | cp2k/sbp.py:159-186 | returns `Unframe` of the inbound stream and leaves the rest of the stream unread; so it fails on an empty stream, on a negative declared length, and on a declared length of 2^31 or more (recv's C `int` size), each before the payload is read |

## Left out

- Sockets are not part of this model: `Server` and `Client` (`socket`, `bind`, `listen(1)`, `accept`, `connect`). An established connection is a `Connection` built from the bytes the peer sent.
- Real sockets can make partial writes, and `recv` can return fewer bytes while more are still to come. The stream is an in-memory sequence, so `recv` returns fewer bytes only at its end. The source has no retry loop, so the model has none either.
- The `verbose` flag and `print_message` are left out. They only print diagnostics.
- Float64 items are not interpreted. They stay opaque 8-byte groups of the raw buffer.
- numpy dtypes are not modelled beyond their dtype strings. A big-endian array such as `">i4"` is classified by its stripped type string, as the source does. Its bytes are sent unchanged, and the receiver reads them as a `"<i4"` array, which is a different value. numpy also writes the dtype of `"<i1"` as `"|i1"`. The model keeps `"<i1"` in `Container.dtype`, because code-0 and code-1 payloads are returned as strings and the dtype is never used for them.
- `Connection.__init__` refuses to be instantiated directly. That guard is part of the class hierarchy and is not part of this model.
- Multi-dimensional arrays are not modelled. Only the number of dimensions is looked at, through the length of `shape`.
- `Framing.SendThenReceive` and `Framing.DecodeEcho` assume that an array's buffer holds exactly its item count times its element size. numpy guarantees this for every array; the model does not.
- cp2k/connection.py, cp2k/environment.py and cp2k/old.py are not part of this model. The first two are a command layer on top of `send` and `receive`; the third is a deprecated pipe-based variant.
