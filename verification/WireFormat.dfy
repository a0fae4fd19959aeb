/**
 The protobuf helpers of server/rapidly/observability/remote_write.py, and a reader written
 from the Protocol Buffers "Encoding" guide that undoes them.
 */
module WireFormat {
  import opened Prelude

  type Byte = b: int | 0 <= b < 256

  type Bytes = seq<Byte>

  datatype Error = NegativeVarint

  // ----- varints ------------------------------------------------------------------------

  function VarintOf(n: nat): (bytes: Bytes)
    ensures 1 <= |bytes|
  {
    if n < 128 then [n] else [n % 128 + 128] + VarintOf(n / 128)
  }

  /** `_varint`: low seven bits first, the high bit set on all bytes but the last. */
  method Varint(n: int) returns (r: Result<Bytes, Error>)
    ensures r == if n < 0 then Err(NegativeVarint) else Ok(VarintOf(n))
  {
    if n < 0 {
      return Err(NegativeVarint);
    }
    var parts: Bytes := [];
    var left := n;
    while left > 127
      invariant 0 <= left
      invariant parts + VarintOf(left) == VarintOf(n)
    {
      assert VarintOf(left) == [left % 128 + 128] + VarintOf(left / 128);
      parts := parts + [left % 128 + 128];
      left := left / 128;
    }
    parts := parts + [left % 128];
    return Ok(parts);
  }

  /** Reads one varint, minimal or not, and returns what follows it. */
  function ReadVarint(bytes: Bytes): (r: Option<(nat, Bytes)>)
    ensures r.Some? ==> |r.value.1| < |bytes|
  {
    if bytes == [] then None
    else if bytes[0] < 128 then Some((bytes[0], bytes[1..]))
    else
      var more := ReadVarint(bytes[1..]);
      if more.None? then None
      else Some((bytes[0] - 128 + 128 * more.value.0, more.value.1))
  }

  /** A varint followed by anything is read back, and exactly what follows is left. */
  lemma {:induction false} VarintRoundTrip(n: nat, suffix: Bytes)
    ensures ReadVarint(VarintOf(n) + suffix) == Some((n, suffix))
  {
    var bytes := VarintOf(n) + suffix;
    if n < 128 {
      assert bytes[1..] == suffix;
    } else {
      VarintRoundTrip(n / 128, suffix);
      assert bytes[1..] == VarintOf(n / 128) + suffix;
    }
  }

  /** The continuation bit is set on every byte but the last. */
  lemma {:induction false} VarintContinuation(n: nat, i: nat)
    requires i < |VarintOf(n)|
    ensures 128 <= VarintOf(n)[i] <==> i < |VarintOf(n)| - 1
  {
    if n >= 128 && i > 0 {
      VarintContinuation(n / 128, i - 1);
    }
  }

  /** No shorter byte string reads as the same number. */
  lemma {:induction false} VarintShortest(n: nat, bytes: Bytes)
    requires ReadVarint(bytes) == Some((n, []))
    ensures |VarintOf(n)| <= |bytes|
  {
    if bytes[0] >= 128 {
      var more := ReadVarint(bytes[1..]).value.0;
      VarintShortest(more, bytes[1..]);
      if n >= 128 {
        assert n / 128 == more;
      }
    }
  }

  /** No varint is the beginning of another. */
  lemma VarintPrefixFree(m: nat, n: nat, s: Bytes, t: Bytes)
    requires VarintOf(m) + s == VarintOf(n) + t
    ensures m == n && s == t
  {
    VarintRoundTrip(m, s);
    VarintRoundTrip(n, t);
  }

  // ----- fields -------------------------------------------------------------------------

  const WIRE_VARINT := 0
  const WIRE_64BIT := 1
  const WIRE_LEN_DELIMITED := 2

  /** The IEEE 754 double, as its eight bytes in little-endian order. */
  type Double = b: Bytes | |b| == 8 witness [0, 0, 0, 0, 0, 0, 0, 0]

  /** `bytes([tag << 3 | wire])` fails beyond one byte. */
  function FieldHeader(tag: nat, wire: nat): Bytes
    requires tag < 32 && wire < 8
  {
    [tag * 8 + wire]
  }

  function FieldBytes(tag: nat, payload: Bytes): Bytes
    requires tag < 32
  {
    FieldHeader(tag, WIRE_LEN_DELIMITED) + VarintOf(|payload|) + payload
  }

  function FieldDouble(tag: nat, value: Double): Bytes
    requires tag < 32
  {
    FieldHeader(tag, WIRE_64BIT) + value
  }

  function FieldInt64(tag: nat, value: int): Result<Bytes, Error>
    requires tag < 32
  {
    if value < 0 then Err(NegativeVarint) else Ok(FieldHeader(tag, WIRE_VARINT) + VarintOf(value))
  }

  /** One field of a message, as the wire format describes it. */
  datatype Field =
    | VarintField(tag: nat, number: nat)
    | Fixed64Field(tag: nat, double: Double)
    | LengthField(tag: nat, payload: Bytes)
    | Fixed32Field(tag: nat, word: Bytes)

  /**
   Reads one field: its key is itself a varint, with the wire types 0 (varint), 1 (64 bits), 2
   (length-delimited) and 5 (32 bits); groups are not read.
   */
  function ReadField(bytes: Bytes): (r: Option<(Field, Bytes)>)
    ensures r.Some? ==> |r.value.1| < |bytes|
  {
    var key := ReadVarint(bytes);
    if key.None? then None
    else
      var tag, wire, rest := key.value.0 / 8, key.value.0 % 8, key.value.1;
      if tag == 0 then None
      else if wire == 0 then
        var n := ReadVarint(rest);
        if n.None? then None else Some((VarintField(tag, n.value.0), n.value.1))
      else if wire == 1 then
        if |rest| < 8 then None else Some((Fixed64Field(tag, rest[..8]), rest[8..]))
      else if wire == 2 then
        var n := ReadVarint(rest);
        if n.None? || |n.value.1| < n.value.0 then None
        else Some((LengthField(tag, n.value.1[..n.value.0]), n.value.1[n.value.0..]))
      else if wire == 5 then
        if |rest| < 4 then None else Some((Fixed32Field(tag, rest[..4]), rest[4..]))
      else None
  }

  function ReadFields(bytes: Bytes): Option<seq<Field>>
    decreases |bytes|
  {
    if bytes == [] then Some([])
    else
      var first := ReadField(bytes);
      if first.None? then None
      else
        var more := ReadFields(first.value.1);
        if more.None? then None else Some([first.value.0] + more.value)
  }

  /** The one-byte header is the key of the wire format exactly for tags below 16. */
  lemma HeaderIsKey(tag: nat, wire: nat, rest: Bytes)
    requires tag < 32 && wire < 8
    ensures ReadVarint(FieldHeader(tag, wire) + rest) == Some((tag * 8 + wire, rest)) <==> tag < 16
  {
    var bytes := FieldHeader(tag, wire) + rest;
    assert bytes[1..] == rest;
  }

  lemma ReadBytesField(tag: nat, payload: Bytes, rest: Bytes)
    requires 0 < tag < 16
    ensures ReadField(FieldBytes(tag, payload) + rest) == Some((LengthField(tag, payload), rest))
  {
    var after := VarintOf(|payload|) + (payload + rest);
    assert FieldBytes(tag, payload) + rest == FieldHeader(tag, WIRE_LEN_DELIMITED) + after;
    HeaderIsKey(tag, WIRE_LEN_DELIMITED, after);
    VarintRoundTrip(|payload|, payload + rest);
    assert (payload + rest)[..|payload|] == payload && (payload + rest)[|payload|..] == rest;
  }

  lemma ReadDoubleField(tag: nat, value: Double, rest: Bytes)
    requires 0 < tag < 16
    ensures ReadField(FieldDouble(tag, value) + rest) == Some((Fixed64Field(tag, value), rest))
  {
    var after := value + rest;
    assert FieldDouble(tag, value) + rest == FieldHeader(tag, WIRE_64BIT) + after;
    HeaderIsKey(tag, WIRE_64BIT, after);
    assert after[..8] == value && after[8..] == rest;
  }

  lemma ReadInt64Field(tag: nat, value: nat, rest: Bytes)
    requires 0 < tag < 16
    ensures ReadField(FieldInt64(tag, value).value + rest) == Some((VarintField(tag, value), rest))
  {
    var after := VarintOf(value) + rest;
    assert FieldInt64(tag, value).value + rest == FieldHeader(tag, WIRE_VARINT) + after;
    HeaderIsKey(tag, WIRE_VARINT, after);
    VarintRoundTrip(value, rest);
  }
}
