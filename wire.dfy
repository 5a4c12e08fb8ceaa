/** Byte-level vocabulary shared by the field codec and the framing layer:
    bytes, the fixed-width unsigned integers of the wire format, their
    little-endian images, and the error values the library returns. */
module Wire {

  type byte = b: int | 0 <= b < 256
  type u8 = byte
  type u16 = n: int | 0 <= n < 0x1_0000
  type u32 = n: int | 0 <= n < 0x1_0000_0000

  /** Go's `error`: `None` stands for a nil error. */
  datatype Option<+T> = None | Some(value: T)

  /** The errors the library can return. `ReadFailed` stands for any failure of
      the underlying reader (io.EOF and io.ErrUnexpectedEOF alike). */
  datatype Error =
    | ReadFailed
    | InvalidType(typeName: string)
    | MissingSOH
    | MissingEOH
    | MissingSOM
    | MissingEOM
  {
    /** The text the error carries. */
    function Text(): string
    {
      match this
      case ReadFailed => "EOF"
      case InvalidType(name) => "invalid type " + name
      case MissingSOH => "not at the start of a header"
      case MissingEOH => "there are bytes left on the header"
      case MissingSOM => "not at the start of a valid message"
      case MissingEOM => "there are bytes left on the message"
    }
  }

  /** Go's `uint16(n)` and `uint32(n)` conversions of a non-negative int. */
  function TruncateU16(n: nat): (r: u16)
    ensures n < 0x1_0000 ==> r == n
  {
    n % 0x1_0000
  }

  function TruncateU32(n: nat): (r: u32)
    ensures n < 0x1_0000_0000 ==> r == n
  {
    n % 0x1_0000_0000
  }

  /** Little-endian image of a uint16, as binary.Write with LittleEndian emits it. */
  function LE16(n: u16): (r: seq<byte>)
    ensures |r| == 2
  {
    [n % 256, n / 256]
  }

  function DecodeLE16(b: seq<byte>): (n: u16)
    requires |b| == 2
  {
    b[0] as int + 256 * b[1] as int
  }

  /** Little-endian image of a uint32. */
  function LE32(n: u32): (r: seq<byte>)
    ensures |r| == 4
  {
    [n % 256, n / 256 % 256, n / 256 / 256 % 256, n / 256 / 256 / 256]
  }

  function DecodeLE32(b: seq<byte>): (n: u32)
    requires |b| == 4
  {
    b[0] as int + 256 * b[1] as int + 0x1_0000 * b[2] as int + 0x100_0000 * b[3] as int
  }

  lemma LE16RoundTrip(n: u16)
    ensures DecodeLE16(LE16(n)) == n
  {
  }

  /** The two images are the only two-byte sequences decoding to their value. */
  lemma LE16Injective(b: seq<byte>, n: u16)
    requires |b| == 2
    ensures DecodeLE16(b) == n <==> b == LE16(n)
  {
    if DecodeLE16(b) == n {
      assert b[0] == n % 256 && b[1] == n / 256;
    }
  }

  lemma LE32RoundTrip(n: u32)
    ensures DecodeLE32(LE32(n)) == n
  {
    var q1 := n / 256;
    var q2 := q1 / 256;
    assert n == n % 256 + 256 * q1;
    assert q1 == q1 % 256 + 256 * q2;
    assert q2 == q2 % 256 + 256 * (q2 / 256);
  }

  /** A piece of a stretch of the input is the same piece of what the
      stretch holds. */
  lemma SubSlice(data: seq<byte>, pos: nat, whole: seq<byte>, a: nat, b: nat)
    requires pos + |whole| <= |data| && data[pos..pos + |whole|] == whole
    requires a <= b <= |whole|
    ensures data[pos + a..pos + b] == whole[a..b]
  {
    forall k | 0 <= k < b - a
      ensures data[pos + a..pos + b][k] == whole[a..b][k]
    {
      assert data[pos + a..pos + b][k] == data[pos..pos + |whole|][a + k];
    }
  }

  /** If a stretch of the input holds `whole`, which begins with `front`
      followed by `piece`, then `piece` sits right after `front`. */
  lemma PieceAt(data: seq<byte>, pos: nat, whole: seq<byte>, front: seq<byte>, piece: seq<byte>)
    requires pos + |whole| <= |data| && data[pos..pos + |whole|] == whole
    requires |front| + |piece| <= |whole| && whole[..|front| + |piece|] == front + piece
    ensures data[pos + |front|..pos + |front| + |piece|] == piece
  {
    SubSlice(data, pos, whole, |front|, |front| + |piece|);
    assert whole[|front|..|front| + |piece|] == (front + piece)[|front|..];
  }

  /** A stretch of the input holding a prefix followed by a payload holds
      each of them in turn. */
  lemma PrefixedAt(data: seq<byte>, pos: nat, prefix: seq<byte>, payload: seq<byte>)
    requires pos + |prefix| + |payload| <= |data|
    requires data[pos..pos + |prefix| + |payload|] == prefix + payload
    ensures data[pos..pos + |prefix|] == prefix
    ensures data[pos + |prefix|..pos + |prefix| + |payload|] == payload
  {
    SubSlice(data, pos, prefix + payload, 0, |prefix|);
    SubSlice(data, pos, prefix + payload, |prefix|, |prefix| + |payload|);
    assert (prefix + payload)[..|prefix|] == prefix;
    assert (prefix + payload)[|prefix|..] == payload;
  }

  function Zeros(n: nat): (r: seq<byte>)
    ensures |r| == n
  {
    if n == 0 then [] else [0] + Zeros(n - 1)
  }
}
