/**
 * The crate root: the protocol version, the error type, the fixed 8-byte
 * request/response header of section 3.1.1 of RFC 8010 and the
 * exact-length read helpers every decoder builds on.
 */
module Ipp {
  import opened IppTypes
  import opened Streams
  import Utf8

  /** IPP/1.1, major version in the high byte. */
  const IPP_VERSION: u16 := 0x0101

  datatype IppError =
    | HttpError                  // a transport failure; its details are not modelled
    | IOError(kind: IoErrorKind)
    | RequestError(message: string)
    | AttributeError(message: string)
    | StatusError(code: u16)     // the peer answered with a non-successful status
    | TagError(tag: byte)

  /** `From<io::Error> for IppError`. */
  function FromIoError(e: IoErrorKind): IppError
  {
    IOError(e)
  }

  /** `From<StatusCode> for IppError`. */
  function FromStatusCode(code: u16): IppError
  {
    StatusError(code)
  }

  /**
   * `IppHeader`; its constructor is `IppHeader::new`. `operationStatus` is
   * the operation id in a request and the status code in a response.
   */
  datatype IppHeader = IppHeader(version: u16, operationStatus: u16, requestId: u32)

  /** `write_u16::<BigEndian>`. */
  function U16Bytes(x: u16): (b: seq<byte>)
    ensures |b| == 2 && b[0] as int * 0x100 + b[1] == x
  {
    [x / 0x100, x % 0x100]
  }

  /** `write_u32::<BigEndian>`. */
  function U32Bytes(x: u32): (b: seq<byte>)
    ensures |b| == 4 && ((b[0] as int * 0x100 + b[1]) * 0x100 + b[2]) * 0x100 + b[3] == x
  {
    [x / 0x100_0000, x / 0x1_0000 % 0x100, x / 0x100 % 0x100, x % 0x100]
  }

  /** `read_u16::<BigEndian>` on two bytes already read. */
  function U16Of(b0: byte, b1: byte): (x: u16)
    ensures U16Bytes(x) == [b0, b1]
  {
    b0 as int * 0x100 + b1
  }

  /** `read_u32::<BigEndian>` on four bytes already read. */
  function U32Of(b: seq<byte>): (x: u32)
    requires |b| == 4
    ensures U32Bytes(x) == b
  {
    ((b[0] as int * 0x100 + b[1]) * 0x100 + b[2]) * 0x100 + b[3]
  }

  /** The bytes `IppHeader::write` sends. */
  function HeaderBytes(h: IppHeader): seq<byte>
  {
    U16Bytes(h.version) + U16Bytes(h.operationStatus) + U32Bytes(h.requestId)
  }

  /** The header `IppHeader::from_reader` reads from the front of a stream, if it holds 8 bytes. */
  function DecodeHeader(s: seq<byte>): (r: Option<IppHeader>)
    ensures r.Some? <==> |s| >= 8
  {
    if |s| < 8 then None
    else Some(IppHeader(U16Of(s[0], s[1]), U16Of(s[2], s[3]), U32Of(s[4..8])))
  }

  /** The wire layout: 8 bytes; version in bytes 0-1, operation or status in 2-3, request id in 4-7, all big-endian. */
  lemma HeaderLayout(h: IppHeader)
    ensures |HeaderBytes(h)| == 8
    ensures HeaderBytes(h)[0] as int * 0x100 + HeaderBytes(h)[1] == h.version
    ensures HeaderBytes(h)[2] as int * 0x100 + HeaderBytes(h)[3] == h.operationStatus
    ensures var b := HeaderBytes(h);
      ((b[4] as int * 0x100 + b[5]) * 0x100 + b[6]) * 0x100 + b[7] == h.requestId
  {
    var b := HeaderBytes(h);
    assert b[..2] == U16Bytes(h.version);
    assert b[2..4] == U16Bytes(h.operationStatus);
    assert b[4..] == U32Bytes(h.requestId);
  }

  /** Reading back what `write` produced yields the same header and consumes exactly its 8 bytes. */
  lemma HeaderRoundTrip(h: IppHeader, rest: seq<byte>)
    ensures DecodeHeader(HeaderBytes(h) + rest) == Some(h)
    ensures (HeaderBytes(h) + rest)[8..] == rest
  {
    var s := HeaderBytes(h) + rest;
    HeaderLayout(h);
    assert s[4..8] == U32Bytes(h.requestId);
  }

  /** Conversely every 8 bytes are the encoding of the header decoded from them: the header codec is a bijection. */
  lemma DecodeThenWrite(s: seq<byte>)
    requires |s| >= 8
    ensures HeaderBytes(DecodeHeader(s).value) == s[..8]
  {
    var h := DecodeHeader(s).value;
    assert U16Bytes(h.version) == s[..2];
    assert U16Bytes(h.operationStatus) == s[2..4];
    assert U32Bytes(h.requestId) == s[4..8];
    assert s[..8] == s[..2] + s[2..4] + s[4..8];
  }

  /**
   * `IppHeader::write`: three big-endian writes. A sink with fewer than 8
   * bytes of room keeps the part that fitted and the call fails with an I/O
   * error; otherwise it returns 8.
   */
  method WriteHeader(h: IppHeader, w: Sink) returns (r: Result<nat, IppError>)
    modifies w
    ensures w.written == old(w.written) + HeaderBytes(h)[..Min(8, old(w.room))]
    ensures w.room == old(w.room) - Min(8, old(w.room))
    ensures r == if old(w.room) >= 8 then Ok(8) else Err(IOError(WriteZero))
  {
    var e := w.WriteAll(U16Bytes(h.version));
    if e.Err? {
      assert HeaderBytes(h)[..Min(8, old(w.room))] == U16Bytes(h.version)[..old(w.room)];
      return Err(FromIoError(e.error));
    }
    e := w.WriteAll(U16Bytes(h.operationStatus));
    if e.Err? {
      assert HeaderBytes(h)[..Min(8, old(w.room))]
        == U16Bytes(h.version) + U16Bytes(h.operationStatus)[..old(w.room) - 2];
      return Err(FromIoError(e.error));
    }
    e := w.WriteAll(U32Bytes(h.requestId));
    if e.Err? {
      assert HeaderBytes(h)[..Min(8, old(w.room))]
        == U16Bytes(h.version) + U16Bytes(h.operationStatus) + U32Bytes(h.requestId)[..old(w.room) - 4];
      return Err(FromIoError(e.error));
    }
    assert HeaderBytes(h)[..8] == HeaderBytes(h);
    r := Ok(8);
  }

  /** `ReadIppExt::read_vec`: a buffer of `len` bytes filled by one exact read. */
  method ReadVec(src: Source, len: nat) returns (r: Result<seq<byte>, IoErrorKind>)
    modifies src
    ensures len <= |old(src.rest)| ==> r == Ok(old(src.rest)[..len]) && src.rest == old(src.rest)[len..]
    ensures len > |old(src.rest)| ==> r == Err(UnexpectedEof) && src.rest == []
  {
    var buf := new byte[len];
    var e := src.ReadExact(buf);
    if e.Err? {
      return Err(e.error);
    }
    r := Ok(buf[..]);
  }

  /**
   * `ReadIppExt::read_string`: `len` bytes decoded leniently. It fails only
   * when the read does; on well-formed UTF-8 the text is exactly the one
   * those bytes encode.
   */
  method ReadString(src: Source, len: nat) returns (r: Result<string, IoErrorKind>)
    modifies src
    ensures r.Err? <==> len > |old(src.rest)|
    ensures r.Err? ==> r.error == UnexpectedEof && src.rest == []
    ensures r.Ok? ==> src.rest == old(src.rest)[len..] && r.value == Utf8.DecodeLossy(old(src.rest)[..len])
    ensures r.Ok? && Utf8.ValidUtf8(old(src.rest)[..len]) ==> Utf8.EncodeUtf8(r.value) == old(src.rest)[..len]
  {
    var v := ReadVec(src, len);
    if v.Err? {
      return Err(v.error);
    }
    r := Ok(Utf8.DecodeLossy(v.value));
    if Utf8.ValidUtf8(v.value) {
      Utf8.EncodeDecodeValid(v.value);
    }
  }

  /**
   * `IppHeader::from_reader`: three big-endian reads. With fewer than 8
   * bytes left every remaining byte is consumed and no header is returned.
   */
  method ReadHeader(src: Source) returns (r: Result<IppHeader, IppError>)
    modifies src
    ensures |old(src.rest)| >= 8 ==>
      r == Ok(DecodeHeader(old(src.rest)).value) && src.rest == old(src.rest)[8..]
    ensures |old(src.rest)| < 8 ==> r == Err(IOError(UnexpectedEof)) && src.rest == []
  {
    ghost var input := src.rest;
    var version := ReadVec(src, 2);
    if version.Err? {
      return Err(FromIoError(version.error));
    }
    var status := ReadVec(src, 2);
    if status.Err? {
      return Err(FromIoError(status.error));
    }
    var id := ReadVec(src, 4);
    if id.Err? {
      return Err(FromIoError(id.error));
    }
    assert input[4..8] == id.value;
    assert input[8..] == src.rest;
    r := Ok(IppHeader(U16Of(version.value[0], version.value[1]),
                      U16Of(status.value[0], status.value[1]),
                      U32Of(id.value)));
  }
}
