/** The framing layer: a message is a 5-byte header (start byte 0xBB, the
    header's ID and Version, end byte 0xCC) followed by a body wrapped in the
    sentinels 0xAAAA and 0xFFFF, with the body's fields written by the field
    codec in between. FlushMessage skips input up to the next pair of 0xFF
    bytes so that a reader can resynchronise after a broken message. */
module Communication {
  import opened Wire
  import opened Stream
  import opened Serialization

  const HeaderStart: u8 := 0xBB
  const HeaderEnd: u8 := 0xCC
  const MessageStart: u16 := 0xAAAA
  const MessageEnd: u16 := 0xFFFF

  /** The value of a Header: its ID and its Version. */
  datatype HeaderFields = HeaderFields(id: u16, version: u8)

  /** Header{}, the header a fresh Message starts with. */
  const ZeroHeader := HeaderFields(0, 0)

  /** binary.Write of a Header: the ID in little-endian order, then the Version. */
  function HeaderImage(h: HeaderFields): (r: seq<byte>)
    ensures |r| == 3
  {
    LE16(h.id) + [h.version]
  }

  /** binary.Read of a Header from its 3-byte image. */
  function DecodeHeaderImage(b: seq<byte>): (h: HeaderFields)
    requires |b| == 3
  {
    HeaderFields(DecodeLE16(b[..2]), b[2])
  }

  /** The bytes Header.ToStream writes. */
  function EncodeHeader(h: HeaderFields): (r: seq<byte>)
    ensures |r| == 5
  {
    [HeaderStart] + HeaderImage(h) + [HeaderEnd]
  }

  /** The header after Header.FromStream, the read position, and the error. */
  datatype HeaderRead = HeaderRead(header: HeaderFields, pos: nat, err: Option<Error>)

  /** Header.FromStream on a header holding `h`: the start byte must be 0xBB
      or nothing more is read; the header is then overwritten with the next
      three bytes, before the end byte is checked against 0xCC. */
  function DecodeHeader(data: seq<byte>, pos: nat, h: HeaderFields): (r: HeaderRead)
    requires pos <= |data|
    ensures pos <= r.pos <= |data|
  {
    var start := ReadSpec(data, pos, 1);
    if !start.ok then HeaderRead(h, start.pos, Some(ReadFailed))
    else if start.bytes[0] != HeaderStart then HeaderRead(h, start.pos, Some(MissingSOH))
    else
      var image := ReadSpec(data, start.pos, 3);
      if !image.ok then HeaderRead(h, image.pos, Some(ReadFailed))
      else
        var decoded := DecodeHeaderImage(image.bytes);
        var end := ReadSpec(data, image.pos, 1);
        if !end.ok then HeaderRead(decoded, end.pos, Some(ReadFailed))
        else if end.bytes[0] != HeaderEnd then HeaderRead(decoded, end.pos, Some(MissingEOH))
        else HeaderRead(decoded, end.pos, None)
  }

  /** The bytes WriteBody writes and its error: the start sentinel, the
      serialized body, and the end sentinel only when serializing succeeded. */
  function EncodeBody(body: seq<Field>): (r: Encoded)
  {
    var s := SerializeFields(body);
    if s.err.Some? then Encoded(LE16(MessageStart) + s.bytes, s.err)
    else Encoded(LE16(MessageStart) + s.bytes + LE16(MessageEnd), None)
  }

  /** The body ReadBody returns, the read position, and the error. */
  datatype BodyRead = BodyRead(body: seq<Field>, pos: nat, err: Option<Error>)

  /** ReadBody for a body type whose values look like `shape`. The body starts
      as the type's zero value. A failed read of the start sentinel is not
      returned: the flag then keeps its zero value and the result is
      MissingSOM. A decoding error returns the partly decoded body. */
  function DecodeBody(data: seq<byte>, pos: nat, shape: seq<Field>): (r: BodyRead)
    requires pos <= |data|
    ensures pos <= r.pos <= |data|
  {
    var zero := ZeroRecord(shape);
    var start := ReadSpec(data, pos, 2);
    var flag: u16 := if start.ok then DecodeLE16(start.bytes) else 0;
    if flag != MessageStart then BodyRead(zero, start.pos, Some(MissingSOM))
    else
      var d := DeserializeFields(data, start.pos, zero);
      if d.err.Some? then BodyRead(d.fields, d.pos, d.err)
      else
        var end := ReadSpec(data, d.pos, 2);
        if !end.ok then BodyRead(d.fields, end.pos, Some(ReadFailed))
        else if DecodeLE16(end.bytes) != MessageEnd then BodyRead(d.fields, end.pos, Some(MissingEOM))
        else BodyRead(d.fields, end.pos, None)
  }

  /** The bytes Message.ToStream writes and its error. */
  function EncodeMessage(h: HeaderFields, body: seq<Field>): (r: Encoded)
  {
    var b := EncodeBody(body);
    Encoded(EncodeHeader(h) + b.bytes, b.err)
  }

  /** The header and body after Message.FromStream, the read position, and
      the error. */
  datatype MessageRead = MessageRead(header: HeaderFields, body: seq<Field>, pos: nat, err: Option<Error>)

  /** Message.FromStream on a message holding header `h` and body `body`:
      the header is read only when it is the zero header, and a header error
      returns before the body is touched; otherwise the body is replaced by
      what ReadBody returns, even when that is an error. */
  function DecodeMessage(data: seq<byte>, pos: nat, h: HeaderFields, body: seq<Field>): (r: MessageRead)
    requires pos <= |data|
    ensures pos <= r.pos <= |data|
  {
    if h == ZeroHeader then
      var hd := DecodeHeader(data, pos, h);
      if hd.err.Some? then MessageRead(hd.header, body, hd.pos, hd.err)
      else
        var b := DecodeBody(data, hd.pos, body);
        MessageRead(hd.header, b.body, b.pos, b.err)
    else
      var b := DecodeBody(data, pos, body);
      MessageRead(h, b.body, b.pos, b.err)
  }

  /** Where FlushMessage stops reading, and its error. */
  datatype Flushed = Flushed(pos: nat, err: Option<Error>)

  /** FlushMessage's scan from `pos` with `count` consecutive 0xFF bytes
      already seen: each byte read either extends the run or resets it, and
      the scan stops right after the second byte of a run. */
  function FlushFrom(data: seq<byte>, pos: nat, count: nat): (r: Flushed)
    requires pos <= |data|
    decreases |data| - pos
  {
    if pos == |data| then Flushed(pos, Some(ReadFailed))
    else
      var c := if data[pos] == 0xFF then count + 1 else 0;
      if c == 2 then Flushed(pos + 1, None)
      else FlushFrom(data, pos + 1, c)
  }

  function Flush(data: seq<byte>, pos: nat): (r: Flushed)
    requires pos <= |data|
  {
    FlushFrom(data, pos, 0)
  }

  // ---------------------------------------------------------------------
  // The imperative framing layer

  class Header {
    var id: u16
    var version: u8

    function Fields(): (h: HeaderFields)
      reads this
    {
      HeaderFields(id, version)
    }

    constructor (id: u16, version: u8)
      ensures Fields() == HeaderFields(id, version)
    {
      this.id := id;
      this.version := version;
    }

    /** Reads a header from `r` into this one, field by field as binary.Read
        fills it, checking the start and end bytes. */
    method FromStream(r: Reader) returns (err: Option<Error>)
      requires r.Valid()
      modifies this, r
      ensures r.Valid()
      ensures HeaderRead(Fields(), r.pos, err) == DecodeHeader(r.data, old(r.pos), old(Fields()))
    {
      var ok, flag := r.ReadFull(1);
      if !ok {
        return Some(ReadFailed);
      }
      if flag[0] != HeaderStart {
        return Some(MissingSOH);
      }
      var ok2, image := r.ReadFull(3);
      if !ok2 {
        return Some(ReadFailed);
      }
      id := DecodeLE16(image[..2]);
      version := image[2];
      var ok3, flag2 := r.ReadFull(1);
      if !ok3 {
        return Some(ReadFailed);
      }
      if flag2[0] != HeaderEnd {
        return Some(MissingEOH);
      }
      return None;
    }

    /** Writes the start byte, the header and the end byte. */
    method ToStream(w: Writer) returns (err: Option<Error>)
      modifies w
      ensures w.bytes == old(w.bytes) + EncodeHeader(Fields())
      ensures err == None
    {
      w.Write([HeaderStart]);
      w.Write(HeaderImage(Fields()));
      w.Write([HeaderEnd]);
      return None;
    }
  }

  /** Reads a body of the type `shape` stands for: the start sentinel, the
      fields into a zero-valued struct, then the end sentinel. */
  method ReadBody(r: Reader, shape: seq<Field>) returns (res: seq<Field>, err: Option<Error>)
    requires r.Valid()
    modifies r
    ensures r.Valid()
    ensures BodyRead(res, r.pos, err) == DecodeBody(r.data, old(r.pos), shape)
  {
    var zero := ZeroRecord(shape);
    var fields := new Field[|zero|](i requires 0 <= i < |zero| => zero[i]);
    assert fields[..] == zero;
    var flag: u16 := 0;
    var ok, image := r.ReadFull(2);
    if ok {
      flag := DecodeLE16(image);
    }
    if flag != MessageStart {
      return fields[..], Some(MissingSOM);
    }
    err := Deserialize(r, fields);
    res := fields[..];
    if err.Some? {
      return;
    }
    var ok2, image2 := r.ReadFull(2);
    if !ok2 {
      return res, Some(ReadFailed);
    }
    if DecodeLE16(image2) != MessageEnd {
      return res, Some(MissingEOM);
    }
    return res, None;
  }

  /** Writes the start sentinel, the body's fields and, when they were all
      written, the end sentinel. */
  method WriteBody(w: Writer, body: seq<Field>) returns (err: Option<Error>)
    modifies w
    ensures w.bytes == old(w.bytes) + EncodeBody(body).bytes
    ensures err == EncodeBody(body).err
  {
    w.Write(LE16(MessageStart));
    err := Serialize(w, body);
    if err.Some? {
      return;
    }
    w.Write(LE16(MessageEnd));
  }

  /** A message. Go holds the Header by value; here it is a reference that
      the constructor allocates fresh, so no two messages built by it share
      a header. */
  class Message {
    const header: Header
    var body: seq<Field>

    constructor (h: HeaderFields, body: seq<Field>)
      ensures fresh(header)
      ensures header.Fields() == h && this.body == body
    {
      header := new Header(h.id, h.version);
      this.body := body;
    }

    /** Reads the header, unless one was already read, then the body. */
    method FromStream(r: Reader) returns (err: Option<Error>)
      requires r.Valid()
      modifies this, header, r
      ensures r.Valid()
      ensures MessageRead(header.Fields(), body, r.pos, err)
        == DecodeMessage(r.data, old(r.pos), old(header.Fields()), old(body))
    {
      if header.Fields() == ZeroHeader {
        err := header.FromStream(r);
        if err.Some? {
          return;
        }
      }
      body, err := ReadBody(r, body);
    }

    /** Writes the header, then the body. */
    method ToStream(w: Writer) returns (err: Option<Error>)
      modifies w
      ensures w.bytes == old(w.bytes) + EncodeMessage(header.Fields(), body).bytes
      ensures err == EncodeMessage(header.Fields(), body).err
    {
      err := header.ToStream(w);
      if err.Some? {
        return;
      }
      err := WriteBody(w, body);
    }
  }

  /** Reads one byte at a time until two consecutive 0xFF bytes have been
      read; a failed read ends the scan with that error. */
  method FlushMessage(r: Reader) returns (err: Option<Error>)
    requires r.Valid()
    modifies r
    ensures r.Valid()
    ensures Flushed(r.pos, err) == Flush(r.data, old(r.pos))
  {
    ghost var start := r.pos;
    var countEOM := 0;
    while true
      invariant r.Valid() && countEOM <= 1
      invariant FlushFrom(r.data, r.pos, countEOM) == Flush(r.data, start)
      decreases |r.data| - r.pos
    {
      var ok, buffer := r.ReadFull(1);
      if !ok {
        return Some(ReadFailed);
      }
      if buffer[0] == 0xFF {
        countEOM := countEOM + 1;
      } else {
        countEOM := 0;
      }
      if countEOM == 2 {
        return None;
      }
    }
  }

  // ---------------------------------------------------------------------
  // Properties of the header

  lemma HeaderImageRoundTrip(h: HeaderFields)
    ensures DecodeHeaderImage(HeaderImage(h)) == h
  {
    assert HeaderImage(h)[..2] == LE16(h.id);
    LE16RoundTrip(h.id);
  }

  /** Header.ToStream writes five bytes: 0xBB, the low and the high byte of
      the ID, the Version, and 0xCC. */
  lemma HeaderLayout(h: HeaderFields)
    ensures var e := EncodeHeader(h);
      e[0] == 0xBB && e[1] as int + 256 * e[2] as int == h.id && e[3] == h.version && e[4] == 0xCC
  {
  }

  /** Reading what Header.ToStream wrote restores the ID and Version,
      whatever the header held before, and consumes exactly five bytes. */
  lemma HeaderRoundTrip(h: HeaderFields, current: HeaderFields, data: seq<byte>, pos: nat)
    requires pos + 5 <= |data| && data[pos..pos + 5] == EncodeHeader(h)
    ensures DecodeHeader(data, pos, current) == HeaderRead(h, pos + 5, None)
  {
    PrefixedAt(data, pos, [HeaderStart], HeaderImage(h) + [HeaderEnd]);
    PrefixedAt(data, pos + 1, HeaderImage(h), [HeaderEnd]);
    HeaderImageRoundTrip(h);
  }

  /** A header is read without error only from the exact encoding of the
      header it yields. */
  lemma HeaderReadOnlyFromEncoding(data: seq<byte>, pos: nat, current: HeaderFields)
    requires pos <= |data|
    requires DecodeHeader(data, pos, current).err == None
    ensures var r := DecodeHeader(data, pos, current);
      r.pos == pos + 5 && data[pos..pos + 5] == EncodeHeader(r.header)
  {
    var image := data[pos + 1..pos + 4];
    LE16Injective(image[..2], DecodeLE16(image[..2]));
    assert data[pos..pos + 5] == [data[pos]] + image + [data[pos + 4]];
  }

  /** MissingSOH comes exactly from a first byte other than 0xBB; that byte
      alone is consumed and the header keeps its value. */
  lemma HeaderMissingStart(data: seq<byte>, pos: nat, current: HeaderFields)
    requires pos <= |data|
    ensures var r := DecodeHeader(data, pos, current);
      r.err == Some(MissingSOH) <==> pos < |data| && data[pos] != 0xBB
    ensures var r := DecodeHeader(data, pos, current);
      r.err == Some(MissingSOH) ==> r.header == current && r.pos == pos + 1
  {
  }

  /** MissingEOH comes exactly from a fifth byte other than 0xCC after a
      correct start byte; the header has by then been overwritten with the
      three bytes in between. */
  lemma HeaderMissingEnd(data: seq<byte>, pos: nat, current: HeaderFields)
    requires pos <= |data|
    ensures var r := DecodeHeader(data, pos, current);
      r.err == Some(MissingEOH) <==> pos + 5 <= |data| && data[pos] == 0xBB && data[pos + 4] != 0xCC
    ensures var r := DecodeHeader(data, pos, current);
      r.err == Some(MissingEOH) ==>
        r.header == DecodeHeaderImage(data[pos + 1..pos + 4]) && r.pos == pos + 5
  {
  }

  /** A read error comes exactly from input ending before the five bytes,
      unless the first byte already rules out a header; all of the input is
      then consumed. */
  lemma HeaderReadFailure(data: seq<byte>, pos: nat, current: HeaderFields)
    requires pos <= |data|
    ensures var r := DecodeHeader(data, pos, current);
      r.err == Some(ReadFailed) <==> |data| < pos + 5 && (pos == |data| || data[pos] == 0xBB)
    ensures var r := DecodeHeader(data, pos, current);
      r.err == Some(ReadFailed) ==> r.pos == |data|
  {
  }

  // ---------------------------------------------------------------------
  // Properties of the body

  /** The start sentinel and the end sentinel are two bytes each. */
  lemma SentinelBytes()
    ensures LE16(MessageStart) == [0xAA, 0xAA] && LE16(MessageEnd) == [0xFF, 0xFF]
  {
  }

  /** WriteBody writes AA AA, the encodings of the body's fields and FF FF
      when every field has a supported type; otherwise AA AA and the
      encodings of the fields before the first unsupported one, and fails. */
  lemma BodyFraming(body: seq<Field>)
    ensures EncodeBody(body).err == None <==> Supported(body)
    ensures Supported(body) ==>
      EncodeBody(body).bytes == [0xAA, 0xAA] + EncodeAll(body) + [0xFF, 0xFF]
  {
    SerializeFailsIffUnsupported(body, |body|);
    assert body[..|body|] == body;
    if Supported(body) {
      SerializeConcatenates(body, |body|);
    }
  }

  /** When field k is the first of an unsupported type, WriteBody writes
      AA AA and the encodings of the fields before it, and fails. */
  lemma BodyStopsAtUnsupported(body: seq<Field>, k: nat)
    requires k < |body| && body[k].Unsupported? && Supported(body[..k])
    ensures EncodeBody(body) == Encoded([0xAA, 0xAA] + EncodeAll(body[..k]), Some(InvalidType(body[k].typeName)))
  {
    SerializeStopsAtUnsupported(body, k);
  }

  /** The zero value of a type has that type. */
  lemma ZeroRecordSameTypes(shape: seq<Field>, body: seq<Field>)
    requires SameTypes(shape, body)
    ensures SameTypes(ZeroRecord(shape), body)
  {
    forall k | 0 <= k < |body|
      ensures SameType(ZeroRecord(shape)[k], body[k])
    {
      assert SameType(shape[k], body[k]);
    }
  }

  /** Reading what WriteBody wrote, as a body of the same type, gives the
      body back and consumes exactly those bytes. */
  lemma BodyRoundTrip(body: seq<Field>, shape: seq<Field>, data: seq<byte>, pos: nat)
    requires forall k :: 0 <= k < |body| ==> RoundTrips(body[k])
    requires SameTypes(shape, body)
    requires var enc := EncodeBody(body).bytes;
      pos + |enc| <= |data| && data[pos..pos + |enc|] == enc
    ensures EncodeBody(body).err == None
    ensures DecodeBody(data, pos, shape) == BodyRead(body, pos + |EncodeBody(body).bytes|, None)
  {
    var ser := SerializeFields(body).bytes;
    ZeroRecordSameTypes(shape, body);
    assert SerializeFields(body).err == None by {
      assert Supported(body) by {
        forall k | 0 <= k < |body| ensures !body[k].Unsupported? {
          assert RoundTrips(body[k]);
        }
      }
      SerializeFailsIffUnsupported(body, |body|);
      assert body[..|body|] == body;
    }
    PrefixedAt(data, pos, LE16(MessageStart), ser + LE16(MessageEnd));
    PrefixedAt(data, pos + 2, ser, LE16(MessageEnd));
    RoundTrip(body, ZeroRecord(shape), data, pos + 2);
    DecodeFramedBody(data, pos, shape, DeserializeFields(data, pos + 2, ZeroRecord(shape)));
  }

  /** A decoded body between the two sentinels is read without error. */
  lemma DecodeFramedBody(data: seq<byte>, pos: nat, shape: seq<Field>, d: Decoded)
    requires pos + 2 <= |data| && data[pos..pos + 2] == LE16(MessageStart)
    requires DeserializeFields(data, pos + 2, ZeroRecord(shape)) == d && d.err == None
    requires d.pos + 2 <= |data| && data[d.pos..d.pos + 2] == LE16(MessageEnd)
    ensures DecodeBody(data, pos, shape) == BodyRead(d.fields, d.pos + 2, None)
  {
    LE16RoundTrip(MessageStart);
    LE16RoundTrip(MessageEnd);
  }

  /** Two bytes decode to the start sentinel exactly when both are 0xAA. */
  lemma StartSentinel(b: seq<byte>)
    requires |b| == 2
    ensures DecodeLE16(b) == MessageStart <==> b == [0xAA, 0xAA]
  {
    LE16Injective(b, MessageStart);
  }

  /** Two bytes decode to the end sentinel exactly when both are 0xFF. */
  lemma EndSentinel(b: seq<byte>)
    requires |b| == 2
    ensures DecodeLE16(b) == MessageEnd <==> b == [0xFF, 0xFF]
  {
    LE16Injective(b, MessageEnd);
  }

  /** MissingSOM comes exactly from input that does not start with AA AA,
      input too short to hold the sentinel included; the body is then the
      zero value. */
  lemma BodyMissingStart(data: seq<byte>, pos: nat, shape: seq<Field>)
    requires pos <= |data|
    ensures var r := DecodeBody(data, pos, shape);
      r.err == Some(MissingSOM) <==> !(pos + 2 <= |data| && data[pos..pos + 2] == [0xAA, 0xAA])
    ensures var r := DecodeBody(data, pos, shape);
      r.err == Some(MissingSOM) ==>
        r.body == ZeroRecord(shape) && r.pos == (if pos + 2 <= |data| then pos + 2 else |data|)
  {
    if pos + 2 <= |data| {
      StartSentinel(data[pos..pos + 2]);
      DeserializeErrors(data, pos + 2, ZeroRecord(shape), |shape|);
    }
  }

  /** MissingEOM comes exactly from a body that decodes but is followed by
      two bytes other than FF FF; the decoded body is still returned. */
  lemma BodyMissingEnd(data: seq<byte>, pos: nat, shape: seq<Field>)
    requires pos <= |data|
    ensures var r := DecodeBody(data, pos, shape);
      r.err == Some(MissingEOM) <==>
        pos + 2 <= |data| && data[pos..pos + 2] == [0xAA, 0xAA] &&
        var d := DeserializeFields(data, pos + 2, ZeroRecord(shape));
        d.err == None && d.pos + 2 <= |data| && data[d.pos..d.pos + 2] != [0xFF, 0xFF]
    ensures var r := DecodeBody(data, pos, shape);
      r.err == Some(MissingEOM) ==>
        pos + 2 <= |data| && r.body == DeserializeFields(data, pos + 2, ZeroRecord(shape)).fields
  {
    if pos + 2 <= |data| {
      StartSentinel(data[pos..pos + 2]);
      var d := DeserializeFields(data, pos + 2, ZeroRecord(shape));
      DeserializeErrors(data, pos + 2, ZeroRecord(shape), |shape|);
      if d.pos + 2 <= |data| {
        EndSentinel(data[d.pos..d.pos + 2]);
      }
    }
  }

  // ---------------------------------------------------------------------
  // Properties of the message

  /** A message whose header was already read reads only a body, and a
      message whose header read fails keeps its body. */
  lemma MessageHeaderReadOnce(data: seq<byte>, pos: nat, h: HeaderFields, body: seq<Field>)
    requires pos <= |data|
    ensures h != ZeroHeader ==>
      var b := DecodeBody(data, pos, body);
      DecodeMessage(data, pos, h, body) == MessageRead(h, b.body, b.pos, b.err)
    ensures h == ZeroHeader && DecodeHeader(data, pos, h).err.Some? ==>
      var hd := DecodeHeader(data, pos, h);
      DecodeMessage(data, pos, h, body) == MessageRead(hd.header, body, hd.pos, hd.err)
  {
  }

  /** Splits the encoding of a message into its header and its body. */
  lemma MessageParts(h: HeaderFields, body: seq<Field>, data: seq<byte>, pos: nat)
    requires var enc := EncodeMessage(h, body).bytes;
      pos + |enc| <= |data| && data[pos..pos + |enc|] == enc
    ensures data[pos..pos + 5] == EncodeHeader(h)
    ensures var b := EncodeBody(body).bytes;
      data[pos + 5..pos + 5 + |b|] == b
  {
    PrefixedAt(data, pos, EncodeHeader(h), EncodeBody(body).bytes);
  }

  /** Reading what Message.ToStream wrote into a fresh message of the same
      body type restores header and body and consumes exactly those bytes. */
  lemma MessageRoundTrip(h: HeaderFields, body: seq<Field>, shape: seq<Field>, data: seq<byte>, pos: nat)
    requires forall k :: 0 <= k < |body| ==> RoundTrips(body[k])
    requires SameTypes(shape, body)
    requires var enc := EncodeMessage(h, body).bytes;
      pos + |enc| <= |data| && data[pos..pos + |enc|] == enc
    ensures EncodeMessage(h, body).err == None
    ensures DecodeMessage(data, pos, ZeroHeader, shape)
      == MessageRead(h, body, pos + |EncodeMessage(h, body).bytes|, None)
  {
    MessageParts(h, body, data, pos);
    HeaderRoundTrip(h, ZeroHeader, data, pos);
    BodyRoundTrip(body, shape, data, pos + 5);
  }

  /** A message whose header is already set can resume after the header:
      reading from the end of the header gives the body back. */
  lemma MessageResumesAfterHeader(h: HeaderFields, body: seq<Field>, shape: seq<Field>, data: seq<byte>, pos: nat)
    requires h != ZeroHeader
    requires forall k :: 0 <= k < |body| ==> RoundTrips(body[k])
    requires SameTypes(shape, body)
    requires var enc := EncodeMessage(h, body).bytes;
      pos + |enc| <= |data| && data[pos..pos + |enc|] == enc
    ensures DecodeMessage(data, pos + 5, h, shape)
      == MessageRead(h, body, pos + |EncodeMessage(h, body).bytes|, None)
  {
    MessageParts(h, body, data, pos);
    BodyRoundTrip(body, shape, data, pos + 5);
  }

  /** A message whose header is already set does not read a header: given a
      whole message, it fails with MissingSOM on the header's start byte. */
  lemma MessageWithHeaderRejectsHeader(h: HeaderFields, current: HeaderFields, body: seq<Field>, shape: seq<Field>, data: seq<byte>, pos: nat)
    requires current != ZeroHeader
    requires var enc := EncodeMessage(h, body).bytes;
      pos + |enc| <= |data| && data[pos..pos + |enc|] == enc
    ensures DecodeMessage(data, pos, current, shape)
      == MessageRead(current, ZeroRecord(shape), pos + 2, Some(MissingSOM))
  {
    MessageParts(h, body, data, pos);
    assert data[pos] == 0xBB;
    StartSentinel(data[pos..pos + 2]);
  }

  /** The body holding the string "ok" and the byte slice [1, 2, 3]. */
  lemma BodyExample()
    ensures EncodeBody([Str([0x6F, 0x6B]), Slice(1, 3, [1, 2, 3])])
      == Encoded([0xAA, 0xAA, 0x02, 0x00, 0x6F, 0x6B, 0x03, 0x00, 0x00, 0x00, 0x01, 0x02, 0x03, 0xFF, 0xFF], None)
  {
    var cs: seq<byte> := [0x6F, 0x6B];
    var x: seq<byte> := [1, 2, 3];
    assert EncodeField(Str(cs)) == Some([0x02, 0x00, 0x6F, 0x6B]) by {
      assert TruncateU16(|cs|) == 2 && LE16(2) == [2, 0];
      assert LE16(2) + cs == [0x02, 0x00, 0x6F, 0x6B];
    }
    assert EncodeField(Slice(1, 3, x)) == Some([0x03, 0x00, 0x00, 0x00, 0x01, 0x02, 0x03]) by {
      assert TruncateU32(|x|) == 3 && LE32(3) == [3, 0, 0, 0];
      assert LE32(3) + x == [0x03, 0x00, 0x00, 0x00, 0x01, 0x02, 0x03];
    }
    SerializePair(Str(cs), Slice(1, 3, x));
    SentinelBytes();
  }

  /** The message with ID 7, Version 1 and the body above. */
  lemma MessageExample()
    ensures EncodeMessage(HeaderFields(7, 1), [Str([0x6F, 0x6B]), Slice(1, 3, [1, 2, 3])])
      == Encoded([0xBB, 0x07, 0x00, 0x01, 0xCC, 0xAA, 0xAA, 0x02, 0x00, 0x6F, 0x6B,
                  0x03, 0x00, 0x00, 0x00, 0x01, 0x02, 0x03, 0xFF, 0xFF], None)
  {
    BodyExample();
    HeaderExample();
  }

  /** The header with ID 7 and Version 1. */
  lemma HeaderExample()
    ensures EncodeHeader(HeaderFields(7, 1)) == [0xBB, 0x07, 0x00, 0x01, 0xCC]
  {
    assert LE16(7) == [7, 0];
  }

  // ---------------------------------------------------------------------
  // Properties of FlushMessage

  /** Two consecutive 0xFF bytes, both at or after `start`, end just before q. */
  predicate PairEndsAt(data: seq<byte>, start: nat, q: nat)
  {
    start + 2 <= q <= |data| && data[q - 2] == 0xFF && data[q - 1] == 0xFF
  }

  /** The scan from `pos`, with `count` telling whether the byte before was
      an unpaired 0xFF, stops right after the first pair at or after
      `start`, or fails at the end of the input when there is none. */
  lemma {:induction false} FlushFromFindsFirstPair(data: seq<byte>, start: nat, pos: nat, count: nat)
    requires start <= pos <= |data| && count <= 1
    requires count == 1 <==> pos > start && data[pos - 1] == 0xFF
    requires forall q: nat :: q <= pos ==> !PairEndsAt(data, start, q)
    ensures var r := FlushFrom(data, pos, count);
      r.err == None ==> PairEndsAt(data, start, r.pos) && forall q: nat :: q < r.pos ==> !PairEndsAt(data, start, q)
    ensures var r := FlushFrom(data, pos, count);
      r.err.Some? ==> r == Flushed(|data|, Some(ReadFailed)) && forall q: nat :: !PairEndsAt(data, start, q)
    decreases |data| - pos
  {
    if pos < |data| {
      var c := if data[pos] == 0xFF then count + 1 else 0;
      if c != 2 {
        assert !PairEndsAt(data, start, pos + 1);
        FlushFromFindsFirstPair(data, start, pos + 1, c);
      }
    }
  }

  /** FlushMessage succeeds exactly when a pair of consecutive 0xFF bytes
      lies ahead, and then stops right after the first such pair, leaving
      later bytes unread; otherwise it consumes everything and fails. */
  lemma FlushFindsFirstPair(data: seq<byte>, pos: nat)
    requires pos <= |data|
    ensures var r := Flush(data, pos);
      r.err == None <==> exists q: nat :: PairEndsAt(data, pos, q)
    ensures var r := Flush(data, pos);
      r.err == None ==> PairEndsAt(data, pos, r.pos) && forall q: nat :: q < r.pos ==> !PairEndsAt(data, pos, q)
    ensures var r := Flush(data, pos);
      r.err.Some? ==> r == Flushed(|data|, Some(ReadFailed))
  {
    FlushFromFindsFirstPair(data, pos, pos, 0);
  }

  /** FlushMessage stops after the pair and leaves 0x99 unread; a byte
      other than 0xFF between two 0xFF bytes resets the count; input that
      ends inside a run fails with the read error. */
  lemma FlushExample()
    ensures Flush([0x01, 0x02, 0xFF, 0xFF, 0x99], 0) == Flushed(4, None)
    ensures Flush([0xFF, 0x01, 0xFF, 0xFF, 0x09], 0) == Flushed(4, None)
    ensures Flush([0xFF, 0x01, 0xFF], 0) == Flushed(3, Some(ReadFailed))
    ensures Flush([0xFF], 0) == Flushed(1, Some(ReadFailed))
  {
  }

  /** After a message, FlushMessage stops at the end of its end sentinel when
      no earlier pair of 0xFF bytes lies in between. */
  lemma FlushSkipsToEndOfMessage(h: HeaderFields, body: seq<Field>, data: seq<byte>, pos: nat, from: nat)
    requires EncodeMessage(h, body).err == None
    requires var enc := EncodeMessage(h, body).bytes;
      pos + |enc| <= |data| && data[pos..pos + |enc|] == enc
    requires pos <= from <= pos + |EncodeMessage(h, body).bytes| - 2
    requires forall q: nat :: q < pos + |EncodeMessage(h, body).bytes| ==> !PairEndsAt(data, from, q)
    ensures Flush(data, from) == Flushed(pos + |EncodeMessage(h, body).bytes|, None)
  {
    var n := |EncodeMessage(h, body).bytes|;
    var e := pos + n;
    assert EncodeMessage(h, body).bytes[n - 2..] == [0xFF, 0xFF];
    assert data[e - 2] == EncodeMessage(h, body).bytes[n - 2];
    assert data[e - 1] == EncodeMessage(h, body).bytes[n - 1];
    assert PairEndsAt(data, from, e);
    FlushFindsFirstPair(data, from);
  }
}
