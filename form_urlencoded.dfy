/**
 * The `application/x-www-form-urlencoded` parser that `parse_query` runs over
 * the query string (`form_urlencoded::parse`, following section 5.1 of the
 * WHATWG URL Standard), and the matching serializer as its inverse.
 *
 * Names and values stay bytes: the parser's final lossy UTF-8 decoding maps
 * ASCII bytes to themselves and never produces an ASCII character from a
 * non-ASCII byte, so every decision the subscriber takes on the decoded
 * strings (is the name `from`? is the value an `i64`?) comes out the same.
 */
module FormUrlencoded {
  import opened Bytes

  datatype Pair = Pair(name: seq<Byte>, value: seq<Byte>)

  /** Position of the first `b` in `s`, or `|s|` when there is none. */
  function IndexOf(s: seq<Byte>, b: Byte): (k: nat)
    ensures k <= |s|
    ensures k < |s| ==> s[k] == b
    ensures forall i :: 0 <= i < k ==> s[i] != b
  {
    if s == [] then 0
    else if s[0] == b then 0
    else 1 + IndexOf(s[1..], b)
  }

  lemma {:induction false} IndexOfFirst(x: seq<Byte>, b: Byte, rest: seq<Byte>)
    requires b !in x
    ensures IndexOf(x + [b] + rest, b) == |x|
  {
    assert (x + [b] + rest)[|x|] == b;
  }

  /** Every `+` becomes a space. */
  function ReplacePlus(s: seq<Byte>): (r: seq<Byte>)
    ensures |r| == |s| && PLUS !in r
    ensures forall i :: 0 <= i < |s| && s[i] != PLUS ==> r[i] == s[i]
  {
    seq(|s|, i requires 0 <= i < |s| => if s[i] == PLUS then SPACE else s[i])
  }

  /** The value of a hexadecimal digit (either case), as Rust's `char::to_digit(16)`. */
  function HexValue(b: Byte): (v: int)
    ensures 0 <= v < 16 || v == -1
  {
    if ZERO <= b <= ZERO + 9 then b - ZERO
    else if 'a' as int <= b <= 'f' as int then b - 'a' as int + 10
    else if 'A' as int <= b <= 'F' as int then b - 'A' as int + 10
    else -1
  }

  predicate IsHex(b: Byte) {
    HexValue(b) >= 0
  }

  /**
   * Percent-decoding: `%` followed by two hex digits stands for the byte they
   * spell; any other `%` is kept as it is, and so is every other byte.
   */
  function PercentDecode(s: seq<Byte>): (r: seq<Byte>)
    ensures |r| <= |s|
    ensures PERCENT !in s ==> r == s
    decreases |s|
  {
    if s == [] then []
    else if s[0] == PERCENT && |s| >= 3 && IsHex(s[1]) && IsHex(s[2]) then
      [HexValue(s[1]) * 16 + HexValue(s[2])] + PercentDecode(s[3..])
    else
      [s[0]] + PercentDecode(s[1..])
  }

  /** Decoding of one name or value: `+` to space first, then percent-decoding. */
  function Decode(s: seq<Byte>): (r: seq<Byte>)
    ensures |r| <= |s|
    ensures PERCENT !in s && PLUS !in s ==> r == s
  {
    PercentDecode(ReplacePlus(s))
  }

  /** A non-empty `&`-separated piece: the name up to the first `=`, the value after it (empty without `=`). */
  function SplitPair(piece: seq<Byte>): (p: Pair)
    ensures EQUALS !in piece ==> p == Pair(Decode(piece), [])
    ensures |p.name| + |p.value| <= |piece|
  {
    var k := IndexOf(piece, EQUALS);
    if k < |piece| then Pair(Decode(piece[..k]), Decode(piece[k + 1..]))
    else
      assert piece[..k] == piece;
      Pair(Decode(piece), Decode([]))
  }

  /** The pair an `&`-separated piece stands for; an empty piece stands for none. */
  function PiecePairs(piece: seq<Byte>): seq<Pair> {
    if piece == [] then [] else [SplitPair(piece)]
  }

  /** The name/value pairs of a query string, in order; empty pieces are skipped. */
  function Parse(input: seq<Byte>): (pairs: seq<Pair>)
    ensures input == [] ==> pairs == []
    decreases |input|
  {
    if input == [] then []
    else
      var k := IndexOf(input, AMPERSAND);
      if k == |input| then PiecePairs(input)
      else PiecePairs(input[..k]) + Parse(input[k + 1..])
  }

  /** Every pair comes from a non-empty piece, so there are never more pairs than bytes. */
  lemma {:induction false} ParseLength(input: seq<Byte>)
    ensures |Parse(input)| <= |input|
    decreases |input|
  {
    if input != [] {
      var k := IndexOf(input, AMPERSAND);
      if k < |input| {
        var head := PiecePairs(input[..k]);
        var rest := input[k + 1..];
        assert |head| <= k;
        ParseUnfold(input, k);
        ParseLength(rest);
        assert |Parse(input)| == |head| + |Parse(rest)|;
      } else {
        assert input[..k] == input;
      }
    }
  }

  /** A query string without `&` is a single piece. */
  lemma {:induction false} ParseOnePiece(input: seq<Byte>)
    requires AMPERSAND !in input
    ensures Parse(input) == PiecePairs(input)
  {
  }

  lemma {:induction false} IndexOfConcat(a: seq<Byte>, rest: seq<Byte>, b: Byte)
    requires b in a
    ensures IndexOf(a + rest, b) == IndexOf(a, b)
  {
    assert (a + rest)[IndexOf(a, b)] == b;
  }

  lemma {:induction false} ParseUnfold(input: seq<Byte>, k: nat)
    requires k < |input| && k == IndexOf(input, AMPERSAND)
    ensures Parse(input) == PiecePairs(input[..k]) + Parse(input[k + 1..])
  {
  }

  lemma {:induction false} SliceAround(a: seq<Byte>, b: seq<Byte>, j: nat)
    requires j < |a|
    ensures (a + [AMPERSAND] + b)[..j] == a[..j]
    ensures (a + [AMPERSAND] + b)[j + 1..] == a[j + 1..] + [AMPERSAND] + b
  {
  }

  lemma {:induction false} ParseAtFirstAmpersand(a: seq<Byte>, b: seq<Byte>)
    requires AMPERSAND !in a
    ensures Parse(a + [AMPERSAND] + b) == PiecePairs(a) + Parse(b)
  {
    var s := a + [AMPERSAND] + b;
    IndexOfFirst(a, AMPERSAND, b);
    assert s[..|a|] == a;
    assert s[|a| + 1..] == b;
    ParseUnfold(s, |a|);
  }

  /** Parsing distributes over `&`: the pieces on either side are parsed independently. */
  lemma {:induction false} ParseConcat(a: seq<Byte>, b: seq<Byte>)
    ensures Parse(a + [AMPERSAND] + b) == Parse(a) + Parse(b)
    decreases |a|
  {
    if AMPERSAND in a {
      var j := IndexOf(a, AMPERSAND);
      var s := a + [AMPERSAND] + b;
      IndexOfConcat(a, [AMPERSAND] + b, AMPERSAND);
      assert s == a + ([AMPERSAND] + b);
      SliceAround(a, b, j);
      calc {
        Parse(s);
        { ParseUnfold(s, j); }
        PiecePairs(a[..j]) + Parse(a[j + 1..] + [AMPERSAND] + b);
        { ParseConcat(a[j + 1..], b); }
        PiecePairs(a[..j]) + (Parse(a[j + 1..]) + Parse(b));
        (PiecePairs(a[..j]) + Parse(a[j + 1..])) + Parse(b);
        { ParseUnfold(a, j); }
        Parse(a) + Parse(b);
      }
    } else {
      ParseAtFirstAmpersand(a, b);
      ParseOnePiece(a);
    }
  }

  // The serializer (the byte serializer of section 5.2 of the WHATWG URL Standard).

  predicate IsUnreserved(b: Byte) {
    IsDigit(b) || 'a' as int <= b <= 'z' as int || 'A' as int <= b <= 'Z' as int
    || b == '*' as int || b == '-' as int || b == '.' as int || b == '_' as int
  }

  function UpperHex(n: int): (h: Byte)
    requires 0 <= n < 16
    ensures HexValue(h) == n && h != PLUS && h != PERCENT
  {
    if n < 10 then ZERO + n else 'A' as int + n - 10
  }

  function EncodeByte(b: Byte): seq<Byte> {
    if IsUnreserved(b) then [b]
    else if b == SPACE then [PLUS]
    else [PERCENT, UpperHex(b / 16), UpperHex(b % 16)]
  }

  function Encode(s: seq<Byte>): (r: seq<Byte>)
    ensures AMPERSAND !in r && EQUALS !in r
  {
    if s == [] then [] else EncodeByte(s[0]) + Encode(s[1..])
  }

  function SerializePair(p: Pair): seq<Byte> {
    Encode(p.name) + [EQUALS] + Encode(p.value)
  }

  function Serialize(pairs: seq<Pair>): seq<Byte> {
    if pairs == [] then []
    else if |pairs| == 1 then SerializePair(pairs[0])
    else SerializePair(pairs[0]) + [AMPERSAND] + Serialize(pairs[1..])
  }

  lemma {:induction false} ReplacePlusConcat(a: seq<Byte>, b: seq<Byte>)
    ensures ReplacePlus(a + b) == ReplacePlus(a) + ReplacePlus(b)
  {
  }

  lemma {:induction false} DecodeEncodeByte(b: Byte, rest: seq<Byte>)
    ensures PercentDecode(ReplacePlus(EncodeByte(b)) + rest) == [b] + PercentDecode(rest)
  {
    var e := EncodeByte(b);
    if IsUnreserved(b) || b == SPACE {
      assert ReplacePlus(e) == [b];
      assert ([b] + rest)[1..] == rest;
    } else {
      assert ReplacePlus(e) == e;
      assert (e + rest)[3..] == rest;
    }
  }

  /** Decoding undoes encoding, byte for byte. */
  lemma {:induction false} DecodeEncode(s: seq<Byte>)
    ensures Decode(Encode(s)) == s
  {
    if s != [] {
      calc {
        Decode(Encode(s));
        PercentDecode(ReplacePlus(EncodeByte(s[0]) + Encode(s[1..])));
        { ReplacePlusConcat(EncodeByte(s[0]), Encode(s[1..])); }
        PercentDecode(ReplacePlus(EncodeByte(s[0])) + ReplacePlus(Encode(s[1..])));
        { DecodeEncodeByte(s[0], ReplacePlus(Encode(s[1..]))); }
        [s[0]] + Decode(Encode(s[1..]));
        { DecodeEncode(s[1..]); }
        s;
      }
    }
  }

  lemma {:induction false} SplitPairSerialize(p: Pair)
    ensures SplitPair(SerializePair(p)) == p
  {
    var piece := SerializePair(p);
    var k := IndexOf(piece, EQUALS);
    assert k == |Encode(p.name)| by {
      assert piece[|Encode(p.name)|] == EQUALS;
    }
    assert piece[..k] == Encode(p.name);
    assert piece[k + 1..] == Encode(p.value);
    DecodeEncode(p.name);
    DecodeEncode(p.value);
  }

  /** Parsing a serialized list of pairs gives back exactly those pairs. */
  lemma {:induction false} ParseSerialize(pairs: seq<Pair>)
    ensures Parse(Serialize(pairs)) == pairs
  {
    if pairs != [] {
      var head := SerializePair(pairs[0]);
      assert AMPERSAND !in head by {
        assert head == Encode(pairs[0].name) + [EQUALS] + Encode(pairs[0].value);
      }
      SplitPairSerialize(pairs[0]);
      if |pairs| == 1 {
        ParseOnePiece(head);
      } else {
        ParseConcat(head, Serialize(pairs[1..]));
        ParseSerialize(pairs[1..]);
      }
    }
  }
}
