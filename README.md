# gommunication in Dafny

A model of the gommunication library: a small binary codec that writes a Go
struct to a byte stream and reads it back. It has two layers.

- **Field codec** (`serialization.go`). `Serialize` walks a struct's fields in
  declared order and writes each one by shape:
  - a value of fixed binary size is written as its little-endian image;
  - a slice of fixed-size elements is written as a 4-byte little-endian count,
    then the elements;
  - a string is written as a 2-byte little-endian length, then its bytes one
    at a time;
  - any other type fails with `invalid type <T>`.

  `Deserialize` reads the fields back into a struct, updating them in place.
- **Framing** (`communication.go`).
  - A `Header` (ID `uint16`, Version `uint8`) is written between the bytes
    `0xBB` and `0xCC`.
  - A body is written between the sentinels `0xAAAA` and `0xFFFF`.
  - A `Message` is a header followed by a body. It reads its header only
    while the header is still the zero header.
  - `FlushMessage` skips input up to the next two consecutive `0xFF` bytes.

The bytes of a message are `BB id_lo id_hi ver CC AA AA <fields> FF FF`.

## Files

| file | module | content |
|---|---|---|
| `wire.dfy` | `Wire` | bytes, `u16`/`u32`, their little-endian images, the library's errors |
| `stream.dfy` | `Stream` | the `io.Reader` as a `Reader` class (bytes and a read position), the `io.Writer` as a `Writer` class (a growing byte sequence) |
| `serialization.dfy` | `Serialization` | the field datatype, specification functions, the `Serialize`/`Deserialize` methods and the codec's lemmas |
| `communication.dfy` | `Communication` | header, body, message and flush specification functions, the `Header` and `Message` classes, `ReadBody`, `WriteBody`, `FlushMessage` and the framing lemmas |

### How the model is built

**Fields.** Go reflection is replaced by a list of tagged field values:
`Fixed(image)`, `Slice(elemSize, len, image)`, `Str(chars)` and
`Unsupported(typeName)`.
- A value carries its own type.
- `ZeroOf`/`ZeroRecord` give the zero value of the same type.
- `SameType`/`SameTypes` compare types.

**Methods follow the Go code.**
- Each method is proved against a specification function of the input and
  the old state.
- The string loops write and read one byte at a time, as the code does.
- `Deserialize` updates an `array<Field>` in place.
- `Header.FromStream` overwrites the header's fields.
- `FlushMessage` keeps the `countEOM` counter in its loop.

**The Reader.**
- `ReadFull(k)` models `binary.Read` of a `k`-byte value.
- On a short read it consumes the rest of the input and fails with
  `ReadFailed`.

**Behaviour of the code worth knowing:**
- The count written before a slice is `binary.Size` of the slice. That is
  the number of bytes, not of elements, yet the decoder reads it as a number
  of elements. Slices therefore come back only when the elements are one
  byte wide or the slice is empty.
  - `SliceOfWideElementsDoesNotRoundTrip` proves this.
  - `SliceCounterexampleEncoding` and `SliceCounterexampleDecoding` work a
    concrete case.
- The message-start sentinel follows the header rather than preceding it.
  The header sits between `0xBB` and `0xCC`.
- A failed read of the message-start sentinel is not passed on: `ReadBody`
  reports `MissingSOM` and has consumed the rest of the input.
- `DecodeMessage` replaces the body even when `ReadBody` fails: it gets the
  zero value or the partly decoded body.

## Model

| member | source | states |
|---|---|---|
| `Wire.TruncateU16` | serialization.go:38 | `uint16(len)` keeps lengths below 65536 unchanged |
| `Wire.TruncateU32` | serialization.go:23 | `uint32(size)` keeps sizes below 2^32 unchanged |
| `Wire.LE16RoundTrip` | serialization.go:88-89 | reading back the 2-byte little-endian image of a `uint16` gives the value |
| `Wire.LE16Injective` | communication.go:125-128 | two bytes decode to a value exactly when they are that value's image |
| `Wire.LE32RoundTrip` | serialization.go:71-76 | reading back the 4-byte little-endian image of a `uint32` gives the value |
| `Stream.Reader.ReadFull` | serialization.go:80-83 | a read of k bytes returns the next k bytes, or fails after consuming the whole rest of the input |
| `Stream.Writer.Write` | serialization.go:29-32 | a write appends the value's image to the output |
| `Serialization.ZeroOf` | communication.go:123 | the zero value has the same type and is well formed |
| `Serialization.ZeroRecord` | communication.go:123 | the zero struct has the same field types |
| `Serialization.BinarySize` | serialization.go:19-20 | the size is non-negative exactly for fixed-size values and slices; for a slice it is len × elemSize bytes |
| `Serialization.SerializeField` | serialization.go:14-51 | writes exactly one field's encoding (`EncodeField`), or fails with `InvalidType` and writes nothing |
| `Serialization.Serialize` | serialization.go:10-56 | the output is the old output plus `SerializeUpTo` over all fields: the encodings up to the first unsupported one; the error is that field's `InvalidType` |
| `Serialization.DeserializeField` | serialization.go:62-105 | updates field i to what `DecodeField` gives from the old position, with its read position and error; other fields are unchanged |
| `Serialization.Deserialize` | serialization.go:58-109 | the struct, read position and error after the loop equal `DeserializeUpTo` over all fields: decoding in order, stopping at the first error |
| `Serialization.SerializeStaysFailed` | serialization.go:48-49 | after the first unsupported field, nothing more is written and the error stays |
| `Serialization.SerializeConcatenates` | serialization.go:13-53 | with only supported fields, the output is the concatenation of the per-field encodings in declared order, with no names or tags |
| `Serialization.SerializeFailsIffUnsupported` | serialization.go:48-49 | `Serialize` fails exactly when some field has an unsupported type, and then with `InvalidType` |
| `Serialization.SerializeStopsAtUnsupported` | serialization.go:48-49 | at the first unsupported field k, the output holds the encodings of fields 0..k-1 and the error names field k's type |
| `Serialization.FixedFieldEncoding` | serialization.go:19-32 | a fixed-size field is written as its image alone, `binary.Size` bytes, with no prefix |
| `Serialization.SliceFieldEncoding` | serialization.go:19-29 | a slice is written as a 4-byte prefix holding len × elemSize (a byte count) modulo 2^32, followed by the elements |
| `Serialization.StrFieldEncoding` | serialization.go:36-47 | a string is written as a 2-byte prefix holding `uint16(len)`, followed by its bytes |
| `Serialization.EmptyEncodings` | serialization.go:19-47 | an empty slice encodes as `00 00 00 00` and an empty string as `00 00` |
| `Serialization.DeserializeStaysFailed` | serialization.go:72-104 | once a field fails, the loop has returned: the result no longer changes |
| `Serialization.DeserializeLeavesLaterFields` | serialization.go:61-65 | fields the loop has not reached keep their values |
| `Serialization.DeserializeStopsAtFirstError` | serialization.go:72-99 | the first failing field's error is returned unchanged; earlier fields keep their decoded values, the failing field holds what its decoding left, later fields are untouched |
| `Serialization.DeserializeStopsAtUnsupported` | serialization.go:102-103 | an unsupported field stops `Deserialize` with `InvalidType`, consumes nothing and changes neither that field nor later ones |
| `Serialization.DeserializeErrors` | serialization.go:72-103 | `Deserialize` fails only with a read error or `InvalidType` |
| `Serialization.DecodeFieldRoundTrip` | serialization.go:67-101 | a field that round-trips is decoded back from its encoding into any field of its type, consuming exactly the encoding |
| `Serialization.SliceRoundTrip` | serialization.go:70-83 | a slice of 1-byte elements, or an empty slice, shorter than 2^32 bytes is decoded back from its encoding |
| `Serialization.StrRoundTrip` | serialization.go:87-101 | a string shorter than 65536 bytes is decoded back from its encoding |
| `Serialization.RoundTrip` | serialization.go:58-109 | deserializing what `Serialize` wrote, into any struct of the same type, restores every field and consumes exactly those bytes |
| `Serialization.SliceOfWideElementsDoesNotRoundTrip` | serialization.go:70-77 | a non-empty slice with elements of 2 or more bytes comes back with a length equal to its byte count, so it differs from the original |
| `Serialization.SliceCounterexampleEncoding` | serialization.go:19-29 | the slice with one 2-byte element is written as `02 00 00 00 07 00` |
| `Serialization.SliceCounterexampleDecoding` | serialization.go:70-83 | reading `02 00 00 00 07 00` back allocates two elements, runs out of input and fails |
| `Serialization.LongStringIsTruncated` | serialization.go:36-38 | a string of 65536 bytes or more is read back as its first len mod 65536 bytes |
| `Communication.Header.constructor` | communication.go:15-18 | a header holds the given ID and Version |
| `Communication.Header.FromStream` | communication.go:59-83 | the new header, read position and error equal `DecodeHeader` from the old position over the old header |
| `Communication.Header.ToStream` | communication.go:85-97 | appends the start byte, the header's image and the end byte, and never fails |
| `Communication.ReadBody` | communication.go:123-148 | the body, read position and error equal `DecodeBody` of the given type from the old position |
| `Communication.WriteBody` | communication.go:150-162 | appends the body's framed encoding (`EncodeBody`) and returns `Serialize`'s error |
| `Communication.Message.constructor` | communication.go:24-27 | a message holds a fresh header with the given fields, and the given body |
| `Communication.Message.FromStream` | communication.go:99-111 | the new header, body, read position and error equal `DecodeMessage` over the old header and body |
| `Communication.Message.ToStream` | communication.go:113-121 | appends the header's encoding and then the body's framed encoding (`EncodeMessage`), returning early on a header error |
| `Communication.FlushMessage` | communication.go:167-184 | stops where `FlushFrom`, the byte-by-byte scan for two consecutive `0xFF` with a count of 0, stops, with its error |
| `Communication.HeaderImageRoundTrip` | communication.go:69-72 | reading back a header's 3-byte image gives the header |
| `Communication.HeaderLayout` | communication.go:85-97 | the header is written as five bytes: `0xBB`, ID low byte, ID high byte, Version, `0xCC` |
| `Communication.HeaderExample` | communication.go:85-97 | the header with ID 7 and Version 1 is written as `BB 07 00 01 CC` |
| `Communication.HeaderRoundTrip` | communication.go:59-97 | reading what `Header.ToStream` wrote restores ID and Version, whatever the header held, and consumes exactly 5 bytes |
| `Communication.HeaderReadOnlyFromEncoding` | communication.go:59-83 | a header read succeeds only on the exact 5-byte encoding of the header it yields |
| `Communication.HeaderMissingStart` | communication.go:60-67 | `MissingSOH` arises exactly when the first byte is not `0xBB`; only that byte is consumed and the header is unchanged |
| `Communication.HeaderMissingEnd` | communication.go:69-80 | `MissingEOH` arises exactly when the start byte is right and the fifth byte is not `0xCC`; the header has by then been overwritten with the three bytes in between |
| `Communication.HeaderReadFailure` | communication.go:61-77 | a read error arises exactly when the input ends within the five bytes, unless the first byte already rules out a header; all input is consumed |
| `Communication.SentinelBytes` | communication.go:34-35 | the message sentinels are written as `AA AA` and `FF FF` |
| `Communication.StartSentinel` | communication.go:128 | two bytes match the start sentinel exactly when both are `0xAA` |
| `Communication.EndSentinel` | communication.go:142 | two bytes match the end sentinel exactly when both are `0xFF` |
| `Communication.BodyFraming` | communication.go:150-162 | `WriteBody` succeeds exactly when every field is supported, and then writes `AA AA`, the field encodings and `FF FF` |
| `Communication.BodyStopsAtUnsupported` | communication.go:156-159 | when field k is the first unsupported one, `WriteBody` writes `AA AA` and the encodings of fields 0..k-1, omits the trailer, and fails |
| `Communication.BodyRoundTrip` | communication.go:123-162 | reading what `WriteBody` wrote, as a body of the same type, gives the body back and consumes exactly those bytes |
| `Communication.BodyMissingStart` | communication.go:124-131 | `MissingSOM` arises exactly when the next two bytes are not `AA AA`, a stream too short to hold them included; the body is then the zero value and at most two bytes are consumed |
| `Communication.BodyMissingEnd` | communication.go:138-145 | `MissingEOM` arises exactly when the body decodes but the next two bytes are not `FF FF`; the decoded body is still returned |
| `Communication.BodyExample` | communication.go:150-162 | the body holding "ok" and the byte slice [1, 2, 3] is written as `AA AA 02 00 6F 6B 03 00 00 00 01 02 03 FF FF` |
| `Communication.MessageHeaderReadOnce` | communication.go:99-111 | a message whose header is already set reads only a body; a header read error returns before the body is touched |
| `Communication.MessageRoundTrip` | communication.go:99-121 | reading what `Message.ToStream` wrote into a message with a zero header restores header and body and consumes exactly those bytes |
| `Communication.MessageResumesAfterHeader` | communication.go:100-108 | a message whose header is set, read from the end of the header, gets the body back |
| `Communication.MessageWithHeaderRejectsHeader` | communication.go:100-108 | a message whose header is set, given a whole message, fails with `MissingSOM` on the `0xBB` byte and gets the zero body |
| `Communication.MessageExample` | communication.go:113-121 | the message with ID 7, Version 1 and the body above is written as `BB 07 00 01 CC AA AA 02 00 6F 6B 03 00 00 00 01 02 03 FF FF` |
| `Communication.FlushFromFindsFirstPair` | communication.go:168-183 | the scan, resumed with the count of a preceding unpaired `0xFF`, stops right after the first `0xFF 0xFF` pair, or fails at the end of the input when there is none |
| `Communication.FlushFindsFirstPair` | communication.go:167-184 | `FlushMessage` succeeds exactly when a `0xFF 0xFF` pair lies ahead, and stops right after the first such pair, leaving later bytes unread; otherwise it consumes everything and fails with the read error |
| `Communication.FlushExample` | communication.go:167-184 | on `01 02 FF FF 99` it stops before `99`; a non-`0xFF` byte resets the count; on `FF` alone it fails |
| `Communication.FlushSkipsToEndOfMessage` | communication.go:164-184 | from inside a message with no earlier `FF FF` pair, `FlushMessage` stops right after that message's end sentinel |

## Left out

- Go reflection is not modelled (`reflect.ValueOf`, `NumField`, `Interface`, `Set`). A struct is an explicit list of typed field values. The panics for a non-struct type or for unexported fields are not modelled.
- Type names are not computed. The name in `invalid type <T>` is the name the `Unsupported` field carries; `fld.Type().String()` is not modelled.
- Sized numbers, booleans, floating-point values, and arrays and nested structs of those are opaque fixed-size little-endian images. No value interpretation, IEEE 754 included, is modelled. Platform-sized `int`, `uint` and `uintptr`, and arrays, slices and structs containing them, have no `binary.Size`; they are `Unsupported` fields and fail with `invalid type int` (serialization.go:48-49, 102-103).
- Pointer and interface fields are not modelled; no `Field` constructor expresses them. `binary.Size` looks through them, so their shape depends on the value, not the type: a non-nil `*uint32` is written as its 4-byte pointee but fails to read back with `binary.Read`'s own `invalid type` error, which `DeserializeErrors` does not cover; a nil pointer, as in `ReadBody`'s zero body, fails with `invalid type *uint32` (or panics on older Go versions); an `any` field holding a `[]byte` is written without a length prefix, because the slice test looks at the static kind.
- `Communication.Message.constructor`: Go's `Message` holds its `Header` by value. The model's `header` is a reference, fresh from the constructor; sharing one header between two messages, which Go cannot do, is ruled out only by that `fresh`, not by the type.
- `io.EOF` and `io.ErrUnexpectedEOF` are one error, `ReadFailed`.
- Partial `Read` results are not modelled. Examples are `(0, nil)` or `(1, io.EOF)` from the one-byte reads in `FlushMessage`.
- Stream.Writer.Write: the sink never fails, so the write-error returns of `Serialize`, `Header.ToStream`, `WriteBody` and `Message.ToStream` are not modelled. Error values of later steps are therefore never overwritten by write failures.
- The package variable `endianness` is the constant little-endian order. Reassigning it is not modelled.
- The generic `BodyType` of `ReadBody` and `Message` is given by a value of that type (`shape`). Only its field types matter.
- The Go error strings are kept in `Wire.Error.Text` but carry no contract.
- Lengths and sizes (Go `int`) are unbounded. The only truncations modelled are `uint16(len)` and `uint32(binary.Size)`.

