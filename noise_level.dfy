/**
 * `parse_noise_level`: a reading is the first four payload bytes read as a
 * big-endian 32-bit word (the bit pattern of an IEEE-754 `f32`).
 */
module NoiseLevel {
  import opened Wrappers
  import opened Bytes

  type Word = w: int | 0 <= w < 0x1_0000_0000

  /** The one way `read_f32` fails here: the payload ends before four bytes. */
  datatype IoError = UnexpectedEof

  /** The big-endian word in the first four bytes; fewer than four bytes is an error. */
  function ParseNoiseLevel(payload: seq<Byte>): (r: Result<Word, IoError>)
    ensures r.Success? <==> |payload| >= 4
  {
    if |payload| < 4 then Failure(UnexpectedEof)
    else Success(((payload[0] as int * 0x100 + payload[1]) * 0x100 + payload[2]) * 0x100 + payload[3])
  }

  /** The four bytes of a word, most significant first. */
  function EncodeBigEndian(w: Word): (bytes: seq<Byte>)
    ensures |bytes| == 4
  {
    var q1 := w / 0x100;
    var q2 := q1 / 0x100;
    [q2 / 0x100, q2 % 0x100, q1 % 0x100, w % 0x100]
  }

  lemma {:induction false} SplitLowByte(hi: int, lo: int)
    requires 0 <= lo < 0x100
    ensures (hi * 0x100 + lo) / 0x100 == hi && (hi * 0x100 + lo) % 0x100 == lo
  {
  }

  /** Reading back an encoded word gives the word. */
  lemma {:induction false} DecodeEncode(w: Word)
    ensures ParseNoiseLevel(EncodeBigEndian(w)) == Success(w)
  {
    var q1 := w / 0x100;
    var q2 := q1 / 0x100;
    assert w == q1 * 0x100 + w % 0x100;
    assert q1 == q2 * 0x100 + q1 % 0x100;
    assert q2 == (q2 / 0x100) * 0x100 + q2 % 0x100;
  }

  /** The word read from a payload encodes back to the payload's first four bytes. */
  lemma {:induction false} EncodeDecode(payload: seq<Byte>)
    requires |payload| >= 4
    ensures EncodeBigEndian(ParseNoiseLevel(payload).value) == payload[..4]
  {
    var q2 := payload[0] as int * 0x100 + payload[1];
    var q1 := q2 * 0x100 + payload[2];
    var w := q1 * 0x100 + payload[3];
    assert ParseNoiseLevel(payload).value == w;
    SplitLowByte(q1, payload[3]);
    SplitLowByte(q2, payload[2]);
    SplitLowByte(payload[0], payload[1]);
  }

  /** Bytes after the fourth never change the reading. */
  lemma {:induction false} TrailingBytesIgnored(payload: seq<Byte>, extra: seq<Byte>)
    requires |payload| >= 4
    ensures ParseNoiseLevel(payload + extra) == ParseNoiseLevel(payload)
  {
    assert (payload + extra)[..4] == payload[..4];
  }
}
