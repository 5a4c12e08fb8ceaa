/** The generic field codec: Serialize writes a struct's fields in declared
    order and Deserialize reads them back into a struct, each field by its
    shape. Go's reflection is replaced by an explicit list of fields whose
    values carry their own type. */
module Serialization {
  import opened Wire
  import opened Stream

  /** One struct field, classified as the codec classifies it.
      Fixed:       a value with a fixed binary size that is not a slice
                   (sized numbers, bools, and arrays and structs of those),
                   held as its little-endian image; the image length is the
                   type's size. Platform-sized int, uint and uintptr have no
                   binary size, nor has anything that contains them: such a
                   field is Unsupported (e.g. Unsupported("int")).
      Slice:       a slice of len elements whose type has the fixed size
                   elemSize, held as the concatenation of the elements'
                   images (len * elemSize bytes).
      Str:         a Go string, as its bytes.
      Unsupported: any other type, known only by its name. */
  datatype Field =
    | Fixed(image: seq<byte>)
    | Slice(elemSize: nat, len: nat, image: seq<byte>)
    | Str(chars: seq<byte>)
    | Unsupported(typeName: string)

  /** A slice's image holds exactly its len elements. */
  predicate WellFormed(f: Field)
  {
    f.Slice? ==> |f.image| == f.len * f.elemSize
  }

  /** Two fields are values of the same Go type. */
  predicate SameType(a: Field, b: Field)
  {
    match a
    case Fixed(x) => b.Fixed? && |b.image| == |x|
    case Slice(es, _, _) => b.Slice? && b.elemSize == es
    case Str(_) => b.Str?
    case Unsupported(t) => b == Unsupported(t)
  }

  predicate SameTypes(a: seq<Field>, b: seq<Field>)
  {
    |a| == |b| && forall i :: 0 <= i < |a| ==> SameType(a[i], b[i])
  }

  /** The zero value of a field's type. */
  function ZeroOf(f: Field): (z: Field)
    ensures SameType(z, f) && WellFormed(z)
  {
    match f
    case Fixed(x) => Fixed(Zeros(|x|))
    case Slice(es, _, _) => Slice(es, 0, [])
    case Str(_) => Str([])
    case Unsupported(_) => f
  }

  function ZeroRecord(fields: seq<Field>): (z: seq<Field>)
    ensures SameTypes(z, fields)
  {
    seq(|fields|, i requires 0 <= i < |fields| => ZeroOf(fields[i]))
  }

  /** binary.Size of the field's value: the byte count of its image, or -1
      when the type has no fixed size. For a slice this is the total number
      of bytes, len * elemSize, not the number of elements. */
  function BinarySize(f: Field): (n: int)
    ensures n >= 0 <==> f.Fixed? || f.Slice?
    ensures WellFormed(f) && f.Slice? ==> n == f.len * f.elemSize
  {
    match f
    case Fixed(x) => |x|
    case Slice(_, _, x) => |x|
    case Str(_) => -1
    case Unsupported(_) => -1
  }

  /** The bytes Serialize writes for one field, or None for a type it refuses.
      A slice gets a 4-byte prefix holding uint32(binary.Size) and a string a
      2-byte prefix holding uint16(len). */
  function EncodeField(f: Field): (r: Option<seq<byte>>)
  {
    match f
    case Fixed(x) => Some(x)
    case Slice(_, _, x) => Some(LE32(TruncateU32(|x|)) + x)
    case Str(cs) => Some(LE16(TruncateU16(|cs|)) + cs)
    case Unsupported(_) => None
  }

  /** What Serialize has written to the writer, and the error it returns. */
  datatype Encoded = Encoded(bytes: seq<byte>, err: Option<Error>)

  /** Serialize's state after the loop has visited the first i fields: it
      stops at the first field of an unsupported type. */
  function SerializeUpTo(fields: seq<Field>, i: nat): (r: Encoded)
    requires i <= |fields|
  {
    if i == 0 then Encoded([], None)
    else
      var prev := SerializeUpTo(fields, i - 1);
      if prev.err.Some? then prev
      else
        match EncodeField(fields[i - 1])
        case None => Encoded(prev.bytes, Some(InvalidType(fields[i - 1].typeName)))
        case Some(b) => Encoded(prev.bytes + b, None)
  }

  function SerializeFields(fields: seq<Field>): (r: Encoded)
  {
    SerializeUpTo(fields, |fields|)
  }

  /** Result of decoding one field: its new value, the read position after
      it, and the error. */
  datatype FieldDecoded = FieldDecoded(field: Field, pos: nat, err: Option<Error>)

  function DecodeField(data: seq<byte>, pos: nat, f: Field): (r: FieldDecoded)
    requires pos <= |data|
    ensures pos <= r.pos <= |data|
  {
    match f
    case Fixed(x) =>
      var body := ReadSpec(data, pos, |x|);
      if !body.ok then FieldDecoded(f, body.pos, Some(ReadFailed))
      else FieldDecoded(Fixed(body.bytes), body.pos, None)
    case Slice(es, _, _) =>
      var prefix := ReadSpec(data, pos, 4);
      if !prefix.ok then FieldDecoded(f, prefix.pos, Some(ReadFailed))
      else
        var size := DecodeLE32(prefix.bytes);
        var body := ReadSpec(data, prefix.pos, size * es);
        if !body.ok then FieldDecoded(Slice(es, size, Zeros(size * es)), body.pos, Some(ReadFailed))
        else FieldDecoded(Slice(es, size, body.bytes), body.pos, None)
    case Str(_) =>
      var prefix := ReadSpec(data, pos, 2);
      if !prefix.ok then FieldDecoded(f, prefix.pos, Some(ReadFailed))
      else
        var body := ReadSpec(data, prefix.pos, DecodeLE16(prefix.bytes));
        if !body.ok then FieldDecoded(f, body.pos, Some(ReadFailed))
        else FieldDecoded(Str(body.bytes), body.pos, None)
    case Unsupported(t) => FieldDecoded(f, pos, Some(InvalidType(t)))
  }

  /** What Deserialize leaves in the target struct, the read position, and
      the error. */
  datatype Decoded = Decoded(fields: seq<Field>, pos: nat, err: Option<Error>)

  /** Deserialize's state after the loop has visited the first i fields of
      the struct `target`: each visited field is overwritten with its decoded
      value, and the first error stops the loop, leaving later fields as
      they were. */
  function DeserializeUpTo(data: seq<byte>, pos: nat, target: seq<Field>, i: nat): (r: Decoded)
    requires pos <= |data| && i <= |target|
    ensures pos <= r.pos <= |data|
    ensures |r.fields| == |target|
  {
    if i == 0 then Decoded(target, pos, None)
    else
      var prev := DeserializeUpTo(data, pos, target, i - 1);
      if prev.err.Some? then prev
      else
        var d := DecodeField(data, prev.pos, target[i - 1]);
        Decoded(prev.fields[i - 1 := d.field], d.pos, d.err)
  }

  function DeserializeFields(data: seq<byte>, pos: nat, target: seq<Field>): (r: Decoded)
    requires pos <= |data|
  {
    DeserializeUpTo(data, pos, target, |target|)
  }

  // ---------------------------------------------------------------------
  // The imperative codec

  /** Writes one field: a fixed-size value as its image, preceded by a
      4-byte byte count when it is a slice; a string as a 2-byte length
      followed by its bytes one at a time; any other type is refused before
      anything is written. */
  method SerializeField(w: Writer, fld: Field) returns (err: Option<Error>)
    modifies w
    ensures EncodeField(fld).Some? ==> err == None && w.bytes == old(w.bytes) + EncodeField(fld).value
    ensures EncodeField(fld).None? ==> err == Some(InvalidType(fld.typeName)) && w.bytes == old(w.bytes)
  {
    var bSize := BinarySize(fld);
    if bSize >= 0 {
      if fld.Slice? {
        w.Write(LE32(TruncateU32(bSize)));
      }
      w.Write(fld.image);
    } else {
      match fld
      case Str(chars) =>
        var size := |chars|;
        w.Write(LE16(TruncateU16(size)));
        ghost var before := w.bytes;
        var j := 0;
        while j < size
          invariant 0 <= j <= size
          invariant w.bytes == before + chars[..j]
        {
          w.Write([chars[j]]);
          assert chars[..j + 1] == chars[..j] + [chars[j]];
          j := j + 1;
        }
        assert chars[..size] == chars;
      case Unsupported(name) =>
        return Some(InvalidType(name));
    }
    return None;
  }

  /** Writes the fields of `data` to `w` in declared order; stops at the
      first field of an unsupported type. */
  method Serialize(w: Writer, data: seq<Field>) returns (err: Option<Error>)
    modifies w
    ensures w.bytes == old(w.bytes) + SerializeFields(data).bytes
    ensures err == SerializeFields(data).err
  {
    var i := 0;
    while i < |data|
      invariant 0 <= i <= |data|
      invariant SerializeUpTo(data, i).err == None
      invariant w.bytes == old(w.bytes) + SerializeUpTo(data, i).bytes
    {
      err := SerializeField(w, data[i]);
      if err.Some? {
        SerializeStaysFailed(data, i + 1, |data|);
        return;
      }
      i := i + 1;
    }
    return None;
  }

  /** Reads one field from `r` into data[i], mutating it where Go's
      reflection does: a slice field is replaced by a zero slice of the
      announced length before its elements are read, and a string is read
      byte by byte into a fresh buffer that is stored only when complete. */
  method DeserializeField(r: Reader, data: array<Field>, i: nat) returns (err: Option<Error>)
    requires r.Valid() && i < data.Length
    modifies r, data
    ensures r.Valid()
    ensures FieldDecoded(data[i], r.pos, err) == DecodeField(r.data, old(r.pos), old(data[i]))
    ensures forall k :: 0 <= k < data.Length && k != i ==> data[k] == old(data[k])
  {
    var fld := data[i];
    var bSize := BinarySize(fld);
    if bSize >= 0 {
      if fld.Slice? {
        var ok, tmp := r.ReadFull(4);
        if !ok {
          return Some(ReadFailed);
        }
        var size := DecodeLE32(tmp);
        data[i] := Slice(fld.elemSize, size, Zeros(size * fld.elemSize));
        var ok2, image := r.ReadFull(size * fld.elemSize);
        if !ok2 {
          return Some(ReadFailed);
        }
        data[i] := Slice(fld.elemSize, size, image);
      } else {
        var ok, image := r.ReadFull(|fld.image|);
        if !ok {
          return Some(ReadFailed);
        }
        data[i] := Fixed(image);
      }
    } else {
      match fld
      case Str(_) =>
        var ok, tmp := r.ReadFull(2);
        if !ok {
          return Some(ReadFailed);
        }
        var size := DecodeLE16(tmp);
        ghost var start := r.pos;
        var strBuffer := new byte[size];
        var j := 0;
        while j < size
          invariant 0 <= j <= size
          invariant r.Valid() && r.pos == start + j
          invariant strBuffer[..j] == r.data[start..start + j]
          invariant forall k :: 0 <= k < data.Length ==> data[k] == old(data[k])
        {
          var ok1, b := r.ReadFull(1);
          if !ok1 {
            return Some(ReadFailed);
          }
          strBuffer[j] := b[0];
          j := j + 1;
        }
        assert strBuffer[..] == strBuffer[..size];
        data[i] := Str(strBuffer[..]);
      case Unsupported(name) =>
        return Some(InvalidType(name));
    }
    return None;
  }

  /** Reads the fields of the struct `data` from `r` in declared order,
      updating them in place; stops at the first error and returns it. */
  method Deserialize(r: Reader, data: array<Field>) returns (err: Option<Error>)
    requires r.Valid()
    modifies r, data
    ensures r.Valid()
    ensures Decoded(data[..], r.pos, err) == DeserializeFields(r.data, old(r.pos), old(data[..]))
  {
    ghost var target := data[..];
    ghost var start := r.pos;
    var i := 0;
    while i < data.Length
      invariant 0 <= i <= data.Length
      invariant r.Valid()
      invariant DeserializeUpTo(r.data, start, target, i) == Decoded(data[..], r.pos, None)
    {
      ghost var before := data[..];
      DeserializeLeavesLaterFields(r.data, start, target, i);
      err := DeserializeField(r, data, i);
      assert data[..] == before[i := data[i]];
      DeserializeStep(r.data, start, target, i, FieldDecoded(data[i], r.pos, err));
      if err.Some? {
        DeserializeStaysFailed(r.data, start, target, i + 1, |target|);
        return;
      }
      i := i + 1;
    }
    return None;
  }

  // ---------------------------------------------------------------------
  // Properties of the field codec

  /** Once Serialize has failed, later fields change nothing. */
  lemma {:induction false} SerializeStaysFailed(fields: seq<Field>, i: nat, j: nat)
    requires i <= j <= |fields|
    requires SerializeUpTo(fields, i).err.Some?
    ensures SerializeUpTo(fields, j) == SerializeUpTo(fields, i)
    decreases j
  {
    if j > i {
      SerializeStaysFailed(fields, i, j - 1);
    }
  }

  /** No field has a type Serialize refuses. */
  predicate Supported(fields: seq<Field>)
  {
    forall k :: 0 <= k < |fields| ==> !fields[k].Unsupported?
  }

  /** Reference definition: the encodings of the fields, concatenated in
      declared order, with nothing in between. */
  function EncodeAll(fields: seq<Field>): (r: seq<byte>)
    requires Supported(fields)
  {
    if fields == [] then [] else EncodeField(fields[0]).value + EncodeAll(fields[1..])
  }

  lemma SupportedAppend(a: seq<Field>, b: seq<Field>)
    requires Supported(a) && Supported(b)
    ensures Supported(a + b)
    ensures a != [] ==> Supported(a[1..])
  {
    assert forall k :: 0 <= k < |a + b| ==> (a + b)[k] == if k < |a| then a[k] else b[k - |a|];
  }

  lemma {:induction false} EncodeAllAppend(a: seq<Field>, b: seq<Field>)
    requires Supported(a) && Supported(b)
    ensures Supported(a + b)
    ensures EncodeAll(a + b) == EncodeAll(a) + EncodeAll(b)
  {
    SupportedAppend(a, b);
    if a != [] {
      assert (a + b)[0] == a[0];
      assert (a + b)[1..] == a[1..] + b;
      EncodeAllAppend(a[1..], b);
    } else {
      assert a + b == b;
    }
  }

  /** Serialize's output is the concatenation of the fields' encodings in
      declared order as long as every field is supported. */
  lemma {:induction false} SerializeConcatenates(fields: seq<Field>, i: nat)
    requires i <= |fields| && Supported(fields[..i])
    ensures SerializeUpTo(fields, i) == Encoded(EncodeAll(fields[..i]), None)
    decreases i
  {
    if i > 0 {
      assert fields[..i - 1] == fields[..i][..i - 1];
      SerializeConcatenates(fields, i - 1);
      assert fields[..i] == fields[..i - 1] + [fields[i - 1]];
      EncodeAllAppend(fields[..i - 1], [fields[i - 1]]);
      assert EncodeAll([fields[i - 1]]) == EncodeField(fields[i - 1]).value + EncodeAll([]);
    }
  }

  /** Serialize succeeds exactly when no field has a type it refuses, and
      its only error is InvalidType. */
  lemma {:induction false} SerializeFailsIffUnsupported(fields: seq<Field>, i: nat)
    requires i <= |fields|
    ensures SerializeUpTo(fields, i).err == None <==> Supported(fields[..i])
    ensures SerializeUpTo(fields, i).err.Some? ==> SerializeUpTo(fields, i).err.value.InvalidType?
    decreases i
  {
    if i > 0 {
      SerializeFailsIffUnsupported(fields, i - 1);
      assert fields[..i] == fields[..i - 1] + [fields[i - 1]];
      assert fields[..i][i - 1] == fields[i - 1];
      if !Supported(fields[..i - 1]) {
        var k :| 0 <= k < i - 1 && fields[..i - 1][k].Unsupported?;
        assert fields[..i][k] == fields[..i - 1][k];
      }
    }
  }

  /** Serialize fails on the first field of an unsupported type, naming that
      type, after writing exactly the encodings of the fields before it. */
  lemma SerializeStopsAtUnsupported(fields: seq<Field>, k: nat)
    requires k < |fields| && fields[k].Unsupported?
    requires Supported(fields[..k])
    ensures SerializeFields(fields) == Encoded(EncodeAll(fields[..k]), Some(InvalidType(fields[k].typeName)))
  {
    SerializeConcatenates(fields, k);
    SerializeStaysFailed(fields, k + 1, |fields|);
  }

  /** Serialize of a one-field struct writes that field's encoding. */
  lemma SerializeSingle(f: Field)
    ensures EncodeField(f).Some? ==> SerializeFields([f]) == Encoded(EncodeField(f).value, None)
  {
    assert SerializeUpTo([f], 0) == Encoded([], None);
    assert [f][0] == f;
  }

  /** Serialize of a two-field struct writes the two encodings in order. */
  lemma SerializePair(f: Field, g: Field)
    requires EncodeField(f).Some? && EncodeField(g).Some?
    ensures SerializeFields([f, g]) == Encoded(EncodeField(f).value + EncodeField(g).value, None)
  {
    assert SerializeUpTo([f, g], 0) == Encoded([], None);
    assert [f, g][0] == f && [f, g][1] == g;
    assert SerializeUpTo([f, g], 1) == Encoded(EncodeField(f).value, None);
  }

  /** A field with a fixed size is written as its little-endian image alone,
      binary.Size bytes long, without a prefix. */
  lemma FixedFieldEncoding(x: seq<byte>)
    ensures SerializeFields([Fixed(x)]) == Encoded(x, None)
    ensures |SerializeFields([Fixed(x)]).bytes| == BinarySize(Fixed(x))
  {
    SerializeSingle(Fixed(x));
  }

  /** A slice is written as a 4-byte little-endian count of its BYTES,
      len * elemSize truncated to 32 bits, followed by its elements' images. */
  lemma SliceFieldEncoding(f: Field)
    requires f.Slice? && WellFormed(f)
    ensures SerializeFields([f]).err == None
    ensures var b := SerializeFields([f]).bytes;
      |b| == 4 + f.len * f.elemSize && DecodeLE32(b[..4]) == (f.len * f.elemSize) % 0x1_0000_0000 && b[4..] == f.image
  {
    SerializeSingle(f);
    LE32RoundTrip(TruncateU32(|f.image|));
  }

  /** A string is written as a 2-byte little-endian prefix holding its
      length modulo 65536, followed by all of its bytes. */
  lemma StrFieldEncoding(cs: seq<byte>)
    ensures SerializeFields([Str(cs)]).err == None
    ensures var b := SerializeFields([Str(cs)]).bytes;
      |b| == 2 + |cs| && DecodeLE16(b[..2]) == |cs| % 0x1_0000 && b[2..] == cs
  {
    SerializeSingle(Str(cs));
    LE16RoundTrip(TruncateU16(|cs|));
  }

  /** Empty slices and strings are written as a zero prefix and no payload. */
  lemma EmptyEncodings(es: nat)
    ensures SerializeFields([Slice(es, 0, [])]) == Encoded([0, 0, 0, 0], None)
    ensures SerializeFields([Str([])]) == Encoded([0, 0], None)
  {
    assert LE32(0) == [0, 0, 0, 0] && LE16(0) == [0, 0];
    SerializeSingle(Slice(es, 0, []));
    SerializeSingle(Str([]));
  }

  /** The loop's step i, from a known state after i - 1 fields. */
  lemma DeserializeStepAt(data: seq<byte>, pos: nat, target: seq<Field>, i: nat, fs: seq<Field>, p: nat, d: FieldDecoded)
    requires pos <= p <= |data| && 0 < i <= |target|
    requires DeserializeUpTo(data, pos, target, i - 1) == Decoded(fs, p, None)
    requires DecodeField(data, p, target[i - 1]) == d
    ensures DeserializeUpTo(data, pos, target, i) == Decoded(fs[i - 1 := d.field], d.pos, d.err)
  {
  }

  lemma DeserializeStep(data: seq<byte>, pos: nat, target: seq<Field>, i: nat, d: FieldDecoded)
    requires pos <= |data| && i < |target|
    requires DeserializeUpTo(data, pos, target, i).err == None
    requires d == DecodeField(data, DeserializeUpTo(data, pos, target, i).pos, target[i])
    ensures DeserializeUpTo(data, pos, target, i + 1) == Decoded(DeserializeUpTo(data, pos, target, i).fields[i := d.field], d.pos, d.err)
  {
  }

  /** Once Deserialize has failed, later fields are left alone. */
  lemma {:induction false} DeserializeStaysFailed(data: seq<byte>, pos: nat, target: seq<Field>, i: nat, j: nat)
    requires pos <= |data| && i <= j <= |target|
    requires DeserializeUpTo(data, pos, target, i).err.Some?
    ensures DeserializeUpTo(data, pos, target, j) == DeserializeUpTo(data, pos, target, i)
    decreases j
  {
    if j > i {
      DeserializeStaysFailed(data, pos, target, i, j - 1);
    }
  }

  /** The fields the loop has not reached yet keep their values. */
  lemma {:induction false} DeserializeLeavesLaterFields(data: seq<byte>, pos: nat, target: seq<Field>, i: nat)
    requires pos <= |data| && i <= |target|
    ensures forall k :: i <= k < |target| ==> DeserializeUpTo(data, pos, target, i).fields[k] == target[k]
    decreases i
  {
    if i > 0 {
      DeserializeLeavesLaterFields(data, pos, target, i - 1);
    }
  }

  /** Deserialize stops at the first field that fails and returns its error
      unchanged; fields before it keep their decoded values, the failing
      field holds what its decoding left, later fields are untouched. */
  lemma DeserializeStopsAtFirstError(data: seq<byte>, pos: nat, target: seq<Field>, i: nat)
    requires pos <= |data| && i < |target|
    requires DeserializeUpTo(data, pos, target, i).err == None
    requires DecodeField(data, DeserializeUpTo(data, pos, target, i).pos, target[i]).err.Some?
    ensures var before := DeserializeUpTo(data, pos, target, i);
      var d := DecodeField(data, before.pos, target[i]);
      DeserializeFields(data, pos, target) == Decoded(before.fields[i := d.field], d.pos, d.err)
    ensures forall k :: i < k < |target| ==> DeserializeFields(data, pos, target).fields[k] == target[k]
  {
    DeserializeStaysFailed(data, pos, target, i + 1, |target|);
    DeserializeLeavesLaterFields(data, pos, target, i);
  }

  /** A field of an unsupported type stops Deserialize without reading a
      byte and without touching that field or any later one. */
  lemma DeserializeStopsAtUnsupported(data: seq<byte>, pos: nat, target: seq<Field>, i: nat)
    requires pos <= |data| && i < |target| && target[i].Unsupported?
    requires DeserializeUpTo(data, pos, target, i).err == None
    ensures var before := DeserializeUpTo(data, pos, target, i);
      DeserializeFields(data, pos, target) == Decoded(before.fields, before.pos, Some(InvalidType(target[i].typeName)))
  {
    var before := DeserializeUpTo(data, pos, target, i);
    assert DecodeField(data, before.pos, target[i]) == FieldDecoded(target[i], before.pos, Some(InvalidType(target[i].typeName)));
    DeserializeStopsAtFirstError(data, pos, target, i);
    DeserializeLeavesLaterFields(data, pos, target, i);
    assert before.fields[i := target[i]] == before.fields;
  }

  /** Deserialize only ever fails with a read error or with a field of an
      unsupported type. */
  lemma {:induction false} DeserializeErrors(data: seq<byte>, pos: nat, target: seq<Field>, i: nat)
    requires pos <= |data| && i <= |target|
    ensures var e := DeserializeUpTo(data, pos, target, i).err;
      e.Some? ==> e.value == ReadFailed || e.value.InvalidType?
  {
    if i > 0 {
      DeserializeErrors(data, pos, target, i - 1);
    }
  }

  /** The fields for which decoding the encoding gives the value back: all
      fixed-size fields, slices of 1-byte elements and empty slices of fewer
      than 2^32 bytes, and strings shorter than 65536 bytes. */
  predicate RoundTrips(f: Field)
  {
    match f
    case Fixed(_) => true
    case Slice(es, n, x) => |x| == n * es && (es == 1 || n == 0) && |x| < 0x1_0000_0000
    case Str(cs) => |cs| < 0x1_0000
    case Unsupported(_) => false
  }

  /** Decoding one field's encoding into a field of the same type gives
      the field back and consumes exactly its encoding. */
  lemma DecodeFieldRoundTrip(f: Field, target: Field, data: seq<byte>, pos: nat)
    requires RoundTrips(f) && SameType(target, f)
    requires var enc := EncodeField(f).value;
      pos + |enc| <= |data| && data[pos..pos + |enc|] == enc
    ensures DecodeField(data, pos, target) == FieldDecoded(f, pos + |EncodeField(f).value|, None)
  {
    match f
    case Fixed(x) =>
    case Slice(es, n, x) =>
      SliceRoundTrip(es, n, x, target, data, pos);
    case Str(cs) =>
      StrRoundTrip(cs, target.chars, data, pos);
  }

  lemma SliceRoundTrip(es: nat, n: nat, x: seq<byte>, target: Field, data: seq<byte>, pos: nat)
    requires |x| == n * es && (es == 1 || n == 0) && |x| < 0x1_0000_0000
    requires target.Slice? && target.elemSize == es
    requires pos + 4 + |x| <= |data| && data[pos..pos + 4 + |x|] == LE32(|x|) + x
    ensures DecodeField(data, pos, target) == FieldDecoded(Slice(es, n, x), pos + 4 + |x|, None)
  {
    PrefixedAt(data, pos, LE32(|x|), x);
    LE32RoundTrip(|x|);
    assert |x| * es == |x| by {
      if n == 0 {
        assert |x| == 0;
      }
    }
  }

  lemma StrRoundTrip(cs: seq<byte>, current: seq<byte>, data: seq<byte>, pos: nat)
    requires |cs| < 0x1_0000
    requires pos + 2 + |cs| <= |data| && data[pos..pos + 2 + |cs|] == LE16(|cs|) + cs
    ensures DecodeField(data, pos, Str(current)) == FieldDecoded(Str(cs), pos + 2 + |cs|, None)
  {
    PrefixedAt(data, pos, LE16(|cs|), cs);
    LE16RoundTrip(|cs|);
  }


  /** What Serialize has written after i fields is a prefix of what it
      writes after any later field. */
  lemma {:induction false} SerializePrefix(fields: seq<Field>, i: nat, j: nat)
    requires i <= j <= |fields| && SerializeUpTo(fields, j).err == None
    ensures SerializeUpTo(fields, i).err == None
    ensures |SerializeUpTo(fields, i).bytes| <= |SerializeUpTo(fields, j).bytes|
    ensures SerializeUpTo(fields, j).bytes[..|SerializeUpTo(fields, i).bytes|] == SerializeUpTo(fields, i).bytes
    decreases j
  {
    if j > i {
      SerializePrefix(fields, i, j - 1);
    }
  }

  /** One more field appends that field's encoding. */
  lemma SerializeStep(fields: seq<Field>, i: nat)
    requires i < |fields| && SerializeUpTo(fields, i + 1).err == None
    ensures SerializeUpTo(fields, i).err == None && EncodeField(fields[i]).Some?
    ensures SerializeUpTo(fields, i + 1).bytes == SerializeUpTo(fields, i).bytes + EncodeField(fields[i]).value
  {
  }

  /** Within the encoding of a struct, field i's encoding starts right
      after the encodings of the fields before it. */
  lemma FieldEncodingAt(fields: seq<Field>, data: seq<byte>, pos: nat, i: nat)
    requires i < |fields| && SerializeFields(fields).err == None
    requires var all := SerializeFields(fields).bytes;
      pos + |all| <= |data| && data[pos..pos + |all|] == all
    ensures EncodeField(fields[i]).Some?
    ensures var p := pos + |SerializeUpTo(fields, i).bytes|;
      var enc := EncodeField(fields[i]).value;
      p + |enc| <= |data| && data[p..p + |enc|] == enc
    ensures |SerializeUpTo(fields, i + 1).bytes| == |SerializeUpTo(fields, i).bytes| + |EncodeField(fields[i]).value|
  {
    SerializePrefix(fields, i + 1, |fields|);
    SerializeStep(fields, i);
    PieceAt(data, pos, SerializeFields(fields).bytes, SerializeUpTo(fields, i).bytes, EncodeField(fields[i]).value);
  }

  lemma SpliceStep(fields: seq<Field>, target: seq<Field>, j: nat)
    requires j < |fields| && |fields| == |target|
    ensures (fields[..j] + target[j..])[j := fields[j]] == fields[..j + 1] + target[j + 1..]
  {
    assert fields[..j + 1] == fields[..j] + [fields[j]];
  }

  /** Field k is decoded back from p, where its encoding sits, up to q,
      where the next one starts. */
  lemma FieldRoundTripAt(fields: seq<Field>, target: seq<Field>, data: seq<byte>, pos: nat, k: nat, p: nat, q: nat)
    requires k < |fields| == |target|
    requires RoundTrips(fields[k]) && SameType(target[k], fields[k])
    requires SerializeFields(fields).err == None
    requires var all := SerializeFields(fields).bytes;
      pos + |all| <= |data| && data[pos..pos + |all|] == all
    requires p == pos + |SerializeUpTo(fields, k).bytes| && q == pos + |SerializeUpTo(fields, k + 1).bytes|
    ensures p <= |data| && DecodeField(data, p, target[k]) == FieldDecoded(fields[k], q, None)
  {
    FieldEncodingAt(fields, data, pos, k);
    DecodeFieldRoundTrip(fields[k], target[k], data, p);
  }

  /** Field k decodes back from offsets[k], where its encoding sits, and
      ends at offsets[k + 1]. */
  predicate FieldDecodesBack(fields: seq<Field>, target: seq<Field>, data: seq<byte>, offsets: seq<nat>, k: nat)
    requires k < |fields| == |target| && |offsets| == |target| + 1
  {
    offsets[k] <= |data| &&
    DecodeField(data, offsets[k], target[k]) == FieldDecoded(fields[k], offsets[k + 1], None)
  }

  predicate FieldsDecodeBack(fields: seq<Field>, target: seq<Field>, data: seq<byte>, offsets: seq<nat>)
    requires |fields| == |target| && |offsets| == |target| + 1
  {
    forall k: nat :: k < |target| ==> FieldDecodesBack(fields, target, data, offsets, k)
  }

  /** One more field decoded back to itself extends the decoded prefix. */
  lemma RoundTripStep(fields: seq<Field>, target: seq<Field>, data: seq<byte>, pos: nat, p: nat, q: nat, i: nat)
    requires 0 < i <= |fields| == |target| && pos <= p <= |data|
    requires DecodeField(data, p, target[i - 1]) == FieldDecoded(fields[i - 1], q, None)
    requires DeserializeUpTo(data, pos, target, i - 1) == Decoded(fields[..i - 1] + target[i - 1..], p, None)
    ensures DeserializeUpTo(data, pos, target, i) == Decoded(fields[..i] + target[i..], q, None)
  {
    DeserializeStepAt(data, pos, target, i, fields[..i - 1] + target[i - 1..], p, FieldDecoded(fields[i - 1], q, None));
    SpliceStep(fields, target, i - 1);
  }

  /** After i fields, Deserialize run over the encodings of `fields` holds the
      first i of them and stands where field i's encoding starts. */
  lemma {:induction false} RoundTripUpTo(fields: seq<Field>, target: seq<Field>, data: seq<byte>, offsets: seq<nat>, i: nat)
    requires i <= |fields| == |target| && |offsets| == |target| + 1 && offsets[0] <= |data|
    requires FieldsDecodeBack(fields, target, data, offsets)
    ensures DeserializeUpTo(data, offsets[0], target, i) == Decoded(fields[..i] + target[i..], offsets[i], None)
    decreases i
  {
    if i == 0 {
      assert fields[..0] + target[0..] == target;
    } else {
      RoundTripUpTo(fields, target, data, offsets, i - 1);
      assert FieldDecodesBack(fields, target, data, offsets, i - 1);
      RoundTripStep(fields, target, data, offsets[0], offsets[i - 1], offsets[i], i);
    }
  }

  /** Round trip: deserializing what Serialize wrote, into any struct of the
      same type, restores every field and consumes exactly those bytes. */
  lemma RoundTrip(fields: seq<Field>, target: seq<Field>, data: seq<byte>, pos: nat)
    requires forall k :: 0 <= k < |fields| ==> RoundTrips(fields[k])
    requires SameTypes(target, fields)
    requires var enc := SerializeFields(fields).bytes;
      pos + |enc| <= |data| && data[pos..pos + |enc|] == enc
    ensures SerializeFields(fields).err == None
    ensures DeserializeFields(data, pos, target) == Decoded(fields, pos + |SerializeFields(fields).bytes|, None)
  {
    assert fields[..|fields|] == fields;
    assert Supported(fields) by {
      forall k | 0 <= k < |fields| ensures !fields[k].Unsupported? {
        assert RoundTrips(fields[k]);
      }
    }
    SerializeConcatenates(fields, |fields|);
    EncodingsDecodeBack(fields, target, data, pos);
    RoundTripUpTo(fields, target, data, Offsets(fields, pos), |fields|);
    assert fields[..|fields|] + target[|fields|..] == fields;
  }

  /** Where each field's encoding starts within the encoding of the struct
      written from `pos`, and where the last one ends. */
  function Offsets(fields: seq<Field>, pos: nat): (r: seq<nat>)
    ensures |r| == |fields| + 1
  {
    seq(|fields| + 1, k requires 0 <= k <= |fields| => pos + |SerializeUpTo(fields, k).bytes|)
  }

  /** Every field of an encoded struct decodes back from its offset. */
  lemma EncodingsDecodeBack(fields: seq<Field>, target: seq<Field>, data: seq<byte>, pos: nat)
    requires forall k :: 0 <= k < |fields| ==> RoundTrips(fields[k])
    requires SameTypes(target, fields)
    requires SerializeFields(fields).err == None
    requires var enc := SerializeFields(fields).bytes;
      pos + |enc| <= |data| && data[pos..pos + |enc|] == enc
    ensures FieldsDecodeBack(fields, target, data, Offsets(fields, pos))
  {
    forall k: nat | k < |target|
      ensures FieldDecodesBack(fields, target, data, Offsets(fields, pos), k)
    {
      FieldDecodesBackAt(fields, target, data, pos, k);
    }
  }

  lemma FieldDecodesBackAt(fields: seq<Field>, target: seq<Field>, data: seq<byte>, pos: nat, k: nat)
    requires k < |fields| == |target|
    requires RoundTrips(fields[k]) && SameType(target[k], fields[k])
    requires SerializeFields(fields).err == None
    requires var enc := SerializeFields(fields).bytes;
      pos + |enc| <= |data| && data[pos..pos + |enc|] == enc
    ensures FieldDecodesBack(fields, target, data, Offsets(fields, pos), k)
  {
    var offsets := Offsets(fields, pos);
    FieldRoundTripAt(fields, target, data, pos, k, offsets[k], offsets[k + 1]);
  }

  /** A non-empty slice of elements wider than one byte never comes back:
      its prefix counts bytes, which the decoder takes for elements. */
  lemma SliceOfWideElementsDoesNotRoundTrip(f: Field, target: Field, data: seq<byte>, pos: nat)
    requires f.Slice? && WellFormed(f) && f.elemSize >= 2 && f.len > 0
    requires |f.image| < 0x1_0000_0000
    requires SameType(target, f)
    requires var enc := EncodeField(f).value;
      pos + |enc| <= |data| && data[pos..pos + |enc|] == enc
    ensures var d := DecodeField(data, pos, target);
      d.field.len == |f.image| > f.len && d.field != f
  {
    PrefixedAt(data, pos, LE32(|f.image|), f.image);
    LE32RoundTrip(|f.image|);
    MoreBytesThanElements(f.len, f.elemSize);
  }

  lemma MoreBytesThanElements(n: nat, es: nat)
    requires n > 0 && es >= 2
    ensures n * es > n
  {
    assert n * es == n + n * (es - 1);
  }

  /** The one 2-byte element of a slice is announced as two elements... */
  lemma SliceCounterexampleEncoding()
    ensures SerializeFields([Slice(2, 1, [7, 0])]) == Encoded([2, 0, 0, 0, 7, 0], None)
  {
    assert LE32(2) == [2, 0, 0, 0];
    SerializeSingle(Slice(2, 1, [7, 0]));
  }

  /** ...and the decoder then runs out of input, leaving a zero slice of
      two elements. */
  lemma SliceCounterexampleDecoding()
    ensures DeserializeFields([2, 0, 0, 0, 7, 0], 0, [Slice(2, 0, [])])
      == Decoded([Slice(2, 2, [0, 0, 0, 0])], 6, Some(ReadFailed))
  {
    var data: seq<byte> := [2, 0, 0, 0, 7, 0];
    var d := FieldDecoded(Slice(2, 2, [0, 0, 0, 0]), 6, Some(ReadFailed));
    assert DecodeField(data, 0, Slice(2, 0, [])) == d by {
      assert data[0..4] == [2, 0, 0, 0];
      assert Zeros(4) == [0, 0, 0, 0];
    }
    DeserializeStepAt(data, 0, [Slice(2, 0, [])], 1, [Slice(2, 0, [])], 0, d);
  }

  /** A string of 65536 bytes or more has its length prefix wrapped: the
      decoder reads only |cs| mod 65536 bytes of it and leaves the rest. */
  lemma LongStringIsTruncated(cs: seq<byte>, current: seq<byte>, data: seq<byte>, pos: nat)
    requires |cs| >= 0x1_0000
    requires pos + 2 + |cs| <= |data|
    requires data[pos..pos + 2 + |cs|] == EncodeField(Str(cs)).value
    ensures var n := |cs| % 0x1_0000;
      DecodeField(data, pos, Str(current)) == FieldDecoded(Str(cs[..n]), pos + 2 + n, None)
  {
    var n := |cs| % 0x1_0000;
    PrefixedAt(data, pos, LE16(n), cs);
    LE16RoundTrip(n);
    SubSlice(data, pos + 2, cs, 0, n);
  }
}
