/** UTF-16 transcoding of MoarVM strings (src/strings/utf16.c).

    Decoding turns a byte buffer into a sequence of codepoints: an odd byte count is
    rejected, a leading byte-order mark selects the byte order (RFC 2781, section 3.2),
    surrogate pairs are combined (RFC 2781, section 2.2) and malformed surrogates are
    rejected. Encoding writes codepoints as 16-bit code units, splitting codepoints
    above U+FFFF into surrogate pairs (RFC 2781, section 2.1), and appends two zero
    units that the reported size does not count.
 */
module Utf16 {

  type Byte = b: int | 0 <= b < 0x100

  datatype Result<T, E> = Ok(value: T) | Err(error: E)

  datatype DecodeError = OddByteCount | UnexpectedLowSurrogate | IncompleteSurrogatePair

  datatype EncodeError = StartOutOfRange | LengthOutOfRange

  datatype ByteOrder = LittleEndian | BigEndian

  /** What the encoder hands back: the 16-bit buffer, two zero units included, and the
      size in bytes of the part before them. */
  datatype Encoded = Encoded(buffer: seq<int>, outputSize: int)

  // For a 16-bit unit u these are (u & 0xFC00) == 0xD800 and (u & 0xFC00) == 0xDC00.
  predicate IsHighSurrogate(u: int) { 0xD800 <= u <= 0xDBFF }
  predicate IsLowSurrogate(u: int) { 0xDC00 <= u <= 0xDFFF }

  /** A Unicode scalar value: a codepoint that is not a surrogate. */
  predicate IsScalarValue(v: int) { 0 <= v <= 0x10FFFF && !(0xD800 <= v <= 0xDFFF) }

  predicate IsUnit(u: int) { 0 <= u < 0x10000 }

  ghost predicate AllUnits(u: seq<int>) { forall i :: 0 <= i < |u| ==> IsUnit(u[i]) }

  /** The codepoint a high/low surrogate pair stands for. */
  function CombineSurrogates(hi: int, lo: int): (v: int)
    requires IsHighSurrogate(hi) && IsLowSurrogate(lo)
    ensures 0x10000 <= v <= 0x10FFFF
    ensures IsScalarValue(v)
  {
    0x10000 + (hi % 0x400) * 0x400 + lo % 0x400
  }

  // ---------------------------------------------------------------------------
  // Bytes and code units

  /** The unit whose two bytes start at pos, the high byte taken first in big-endian
      order and second in little-endian order. */
  function UnitAt(bytes: seq<Byte>, pos: int, order: ByteOrder): (u: int)
    requires 0 <= pos && pos + 1 < |bytes|
    ensures IsUnit(u)
  {
    if order == LittleEndian then bytes[pos + 1] as int * 0x100 + bytes[pos] as int
    else bytes[pos] as int * 0x100 + bytes[pos + 1] as int
  }

  /** The code units of an even-length byte buffer. */
  function Units(bytes: seq<Byte>, order: ByteOrder): (u: seq<int>)
    requires |bytes| % 2 == 0
    ensures |u| == |bytes| / 2
  {
    seq(|bytes| / 2, k requires 0 <= k < |bytes| / 2 => UnitAt(bytes, 2 * k, order))
  }

  lemma UnitsAreUnits(bytes: seq<Byte>, order: ByteOrder)
    requires |bytes| % 2 == 0
    ensures AllUnits(Units(bytes, order))
  {
  }

  /** The byte at position i of the in-memory image of the 16-bit units u. */
  function ByteOfUnits(u: seq<int>, order: ByteOrder, i: int): Byte
    requires 0 <= i < 2 * |u|
  {
    if (i % 2 == 0) == (order == BigEndian) then (u[i / 2] / 0x100) % 0x100 else u[i / 2] % 0x100
  }

  /** The bytes of a sequence of code units stored in the given order. */
  function UnitsToBytes(u: seq<int>, order: ByteOrder): (bytes: seq<Byte>)
    ensures |bytes| == 2 * |u|
  {
    seq(2 * |u|, i requires 0 <= i < 2 * |u| => ByteOfUnits(u, order, i))
  }

  lemma UnitsOfUnitsToBytes(u: seq<int>, order: ByteOrder)
    requires AllUnits(u)
    ensures Units(UnitsToBytes(u, order), order) == u
  {
    var b := UnitsToBytes(u, order);
    forall k | 0 <= k < |u| ensures Units(b, order)[k] == u[k] {
      assert b[2 * k] == ByteOfUnits(u, order, 2 * k);
      assert b[2 * k + 1] == ByteOfUnits(u, order, 2 * k + 1);
      assert (2 * k + 1) / 2 == k && (2 * k) / 2 == k;
      assert IsUnit(u[k]);
    }
  }

  /** The unit the decoding loop reads with byte indices low and high at pos is unit k
      of the bytes after the skipped mark. */
  lemma UnitRead(bytes: seq<Byte>, skip: int, order: ByteOrder, low: int, high: int, k: int, pos: int)
    requires (low == 0 && high == 1 && order == LittleEndian) || (low == 1 && high == 0 && order == BigEndian)
    requires 0 <= skip <= |bytes| && (|bytes| - skip) % 2 == 0
    requires 0 <= k < (|bytes| - skip) / 2 && pos == skip + 2 * k
    ensures bytes[pos + high] as int * 0x100 + bytes[pos + low] as int == Units(bytes[skip..], order)[k]
  {
    assert bytes[skip..][2 * k] == bytes[skip + 2 * k];
    assert bytes[skip..][2 * k + 1] == bytes[skip + 2 * k + 1];
  }

  /** Byte-order-mark sniffing: FF FE selects little-endian, FE FF big-endian, and in
      both cases the two bytes are skipped; otherwise the native order is kept. */
  function Sniff(bytes: seq<Byte>, native: ByteOrder): (r: (ByteOrder, int))
    ensures r.1 == 0 || r.1 == 2
  {
    if |bytes| >= 2 && bytes[0] == 0xFF && bytes[1] == 0xFE then (LittleEndian, 2)
    else if |bytes| >= 2 && bytes[0] == 0xFE && bytes[1] == 0xFF then (BigEndian, 2)
    else (native, 0)
  }

  // ---------------------------------------------------------------------------
  // Decoding

  /** Number of high surrogates among the units. */
  function HighCount(u: seq<int>): nat
  {
    if u == [] then 0 else (if IsHighSurrogate(u[0]) then 1 else 0) + HighCount(u[1..])
  }

  /** Prefixes the codepoints decoded so far to the outcome of decoding the rest. */
  function Prepend(done: seq<int>, rest: Result<seq<int>, DecodeError>): Result<seq<int>, DecodeError>
  {
    match rest
    case Ok(v) => Ok(done + v)
    case Err(e) => Err(e)
  }

  /** Decoding of code units, left to right, failing at the first malformed surrogate. */
  function DecodeUnits(u: seq<int>): Result<seq<int>, DecodeError>
  {
    if u == [] then Ok([])
    else if IsLowSurrogate(u[0]) then Err(UnexpectedLowSurrogate)
    else if IsHighSurrogate(u[0]) then
      if |u| == 1 || !IsLowSurrogate(u[1]) then Err(IncompleteSurrogatePair)
      else Prepend([CombineSurrogates(u[0], u[1])], DecodeUnits(u[2..]))
    else Prepend([u[0]], DecodeUnits(u[1..]))
  }

  /** On success every decoded value is a scalar value, and one codepoint is produced
      per unit except that a surrogate pair yields one codepoint for two units. */
  lemma {:induction false} DecodedValues(u: seq<int>)
    requires AllUnits(u)
    ensures DecodeUnits(u).Ok? ==> |DecodeUnits(u).value| + HighCount(u) == |u|
    ensures DecodeUnits(u).Ok? ==> forall i :: 0 <= i < |DecodeUnits(u).value| ==> IsScalarValue(DecodeUnits(u).value[i])
  {
    if u != [] && DecodeUnits(u).Ok? {
      var s := DecodeUnits(u).value;
      assert IsUnit(u[0]);
      if IsHighSurrogate(u[0]) {
        assert u[1..][1..] == u[2..];
        DecodedValues(u[2..]);
        assert s == [CombineSurrogates(u[0], u[1])] + DecodeUnits(u[2..]).value;
      } else {
        DecodedValues(u[1..]);
        assert s == [u[0]] + DecodeUnits(u[1..]).value;
      }
    }
  }

  /** One step of DecodeUnits on the suffix that starts at unit k. */
  lemma DecodeUnitsAt(u: seq<int>, k: int)
    requires 0 <= k < |u|
    ensures DecodeUnits(u[k..]) ==
      if IsLowSurrogate(u[k]) then Err(UnexpectedLowSurrogate)
      else if IsHighSurrogate(u[k]) then
        if k + 1 == |u| || !IsLowSurrogate(u[k + 1]) then Err(IncompleteSurrogatePair)
        else Prepend([CombineSurrogates(u[k], u[k + 1])], DecodeUnits(u[k + 2..]))
      else Prepend([u[k]], DecodeUnits(u[k + 1..]))
  {
    assert u[k..][1..] == u[k + 1..];
    if k + 1 < |u| {
      assert u[k..][2..] == u[k + 2..];
    }
  }

  lemma LowSurrogateStep(u: seq<int>, k: int)
    requires 0 <= k < |u| && IsLowSurrogate(u[k])
    ensures DecodeUnits(u[k..]) == Err(UnexpectedLowSurrogate)
  {
    DecodeUnitsAt(u, k);
  }

  lemma UnpairedHighSurrogateStep(u: seq<int>, k: int)
    requires 0 <= k < |u| && IsHighSurrogate(u[k])
    requires k + 1 == |u| || !IsLowSurrogate(u[k + 1])
    ensures DecodeUnits(u[k..]) == Err(IncompleteSurrogatePair)
  {
    DecodeUnitsAt(u, k);
  }

  lemma SurrogatePairStep(u: seq<int>, k: int)
    requires 0 <= k < |u| - 1 && IsHighSurrogate(u[k]) && IsLowSurrogate(u[k + 1])
    ensures DecodeUnits(u[k..]) == Prepend([CombineSurrogates(u[k], u[k + 1])], DecodeUnits(u[k + 2..]))
  {
    DecodeUnitsAt(u, k);
  }

  lemma SingleUnitStep(u: seq<int>, k: int)
    requires 0 <= k < |u| && !IsHighSurrogate(u[k]) && !IsLowSurrogate(u[k])
    ensures DecodeUnits(u[k..]) == Prepend([u[k]], DecodeUnits(u[k + 1..]))
  {
    DecodeUnitsAt(u, k);
  }

  lemma PrependPrepend(a: seq<int>, b: seq<int>, r: Result<seq<int>, DecodeError>)
    ensures Prepend(a, Prepend(b, r)) == Prepend(a + b, r)
  {
    if r.Ok? {
      assert a + (b + r.value) == (a + b) + r.value;
    }
  }

  /** Moves one decoded codepoint from the pending suffix to the decoded prefix. */
  lemma Advance(spec: Result<seq<int>, DecodeError>, done: seq<int>, rest: Result<seq<int>, DecodeError>,
                value: int, rest': Result<seq<int>, DecodeError>)
    requires spec == Prepend(done, rest) && rest == Prepend([value], rest')
    ensures spec == Prepend(done + [value], rest')
  {
    PrependPrepend(done, [value], rest');
  }

  /** Decoding of a byte buffer with the given native byte order. */
  function DecodeBytes(bytes: seq<Byte>, native: ByteOrder): Result<seq<int>, DecodeError>
  {
    if |bytes| % 2 != 0 then Err(OddByteCount)
    else
      var (order, skip) := Sniff(bytes, native);
      DecodeUnits(Units(bytes[skip..], order))
  }

  lemma DecodedLengthBound(bytes: seq<Byte>, native: ByteOrder)
    requires DecodeBytes(bytes, native).Ok?
    ensures |DecodeBytes(bytes, native).value| <= |bytes| / 2
  {
    var (order, skip) := Sniff(bytes, native);
    var u := Units(bytes[skip..], order);
    assert DecodeBytes(bytes, native) == DecodeUnits(u);
    UnitsAreUnits(bytes[skip..], order);
    DecodedValues(u);
  }

  lemma DecodeLittleEndianMark(rest: seq<Byte>, native: ByteOrder)
    requires |rest| % 2 == 0
    ensures DecodeBytes([0xFF, 0xFE] + rest, native) == DecodeUnits(Units(rest, LittleEndian))
  {
    assert ([0xFF, 0xFE] + rest)[2..] == rest;
  }

  lemma DecodeBigEndianMark(rest: seq<Byte>, native: ByteOrder)
    requires |rest| % 2 == 0
    ensures DecodeBytes([0xFE, 0xFF] + rest, native) == DecodeUnits(Units(rest, BigEndian))
  {
    assert ([0xFE, 0xFF] + rest)[2..] == rest;
  }

  /** Without a leading FF FE or FE FF the whole buffer is decoded in the native order. */
  lemma DecodeWithoutMark(bytes: seq<Byte>, native: ByteOrder)
    requires |bytes| % 2 == 0
    requires !(|bytes| >= 2 && ((bytes[0] == 0xFF && bytes[1] == 0xFE) || (bytes[0] == 0xFE && bytes[1] == 0xFF)))
    ensures DecodeBytes(bytes, native) == DecodeUnits(Units(bytes, native))
  {
    assert bytes[0..] == bytes;
  }

  /** MVM_string_utf16_decode: rejects an odd byte count, lets a byte-order mark
      override the native order, then decodes the rest of the buffer. */
  method Decode(bytes: seq<Byte>, native: ByteOrder) returns (r: Result<seq<int>, DecodeError>)
    ensures |bytes| % 2 != 0 ==> r == Err(OddByteCount)
    ensures r == DecodeBytes(bytes, native)
  {
    var low, high := if native == LittleEndian then 0 else 1, if native == LittleEndian then 1 else 0;
    if |bytes| % 2 != 0 {
      return Err(OddByteCount);
    }
    var pos := 0;
    if |bytes| >= 2 {
      if bytes[0] == 0xFF && bytes[1] == 0xFE {
        low, high := 0, 1;
        pos := 2;
      } else if bytes[0] == 0xFE && bytes[1] == 0xFF {
        low, high := 1, 0;
        pos := 2;
      }
    }
    ghost var order := if low == 0 then LittleEndian else BigEndian;
    assert (order, pos) == Sniff(bytes, native);
    r := DecodeFrom(bytes, pos, low, high, order);
  }

  /** The decoding loop of MVM_string_utf16_decode: from pos to the end of the buffer,
      two bytes at a time (four for a surrogate pair), into a buffer of |bytes| / 2
      codepoints. */
  method DecodeFrom(bytes: seq<Byte>, skip: int, low: int, high: int, ghost order: ByteOrder)
    returns (r: Result<seq<int>, DecodeError>)
    requires (low == 0 && high == 1 && order == LittleEndian) || (low == 1 && high == 0 && order == BigEndian)
    requires 0 <= skip <= |bytes| && (|bytes| - skip) % 2 == 0
    ensures r == DecodeUnits(Units(bytes[skip..], order))
  {
    ghost var u := Units(bytes[skip..], order);
    ghost var spec := DecodeUnits(u);
    // The loop runs to the end of the buffer, wherever a byte-order mark left pos.
    var pos := skip;
    var end := |bytes|;
    assert end == skip + 2 * |u|;
    var out := new int[|bytes| / 2];
    var n := 0;
    ghost var k := 0;
    assert u[0..] == u && out[..0] == [];
    if spec.Ok? {
      assert [] + spec.value == spec.value;
    }
    while pos < end
      invariant pos == skip + 2 * k && 0 <= n <= k <= |u|
      invariant spec == Prepend(out[..n], DecodeUnits(u[k..]))
      decreases end - pos
    {
      var step := ReadCodepoint(bytes, skip, pos, low, high, order, k);
      if step.Err? {
        return Err(step.error);
      }
      var (value, units) := step.value;
      ghost var prefix := out[..n];
      Advance(spec, prefix, DecodeUnits(u[k..]), value, DecodeUnits(u[k + units..]));
      out[n] := value;
      assert out[..n + 1] == prefix + [value];
      n := n + 1;
      pos := pos + 2 * units;
      k := k + units;
    }
    assert k == |u| && u[k..] == [];
    assert out[..n] + [] == out[..n];
    return Ok(out[..n]);
  }

  /** One iteration of the decoding loop: reads the unit at pos and, for a high
      surrogate, the low surrogate after it; yields the codepoint and the number of
      units it took, or the error the suffix of units decodes to. */
  method ReadCodepoint(bytes: seq<Byte>, skip: int, pos: int, low: int, high: int, ghost order: ByteOrder, ghost k: int)
    returns (r: Result<(int, int), DecodeError>)
    requires (low == 0 && high == 1 && order == LittleEndian) || (low == 1 && high == 0 && order == BigEndian)
    requires 0 <= skip <= |bytes| && (|bytes| - skip) % 2 == 0
    requires 0 <= k < |Units(bytes[skip..], order)| && pos == skip + 2 * k
    ensures r.Err? ==> DecodeUnits(Units(bytes[skip..], order)[k..]) == Err(r.error)
    ensures r.Ok? ==> 1 <= r.value.1 <= 2 && k + r.value.1 <= |Units(bytes[skip..], order)|
    ensures r.Ok? ==> DecodeUnits(Units(bytes[skip..], order)[k..])
                      == Prepend([r.value.0], DecodeUnits(Units(bytes[skip..], order)[k + r.value.1..]))
  {
    ghost var u := Units(bytes[skip..], order);
    var value := bytes[pos + high] as int * 0x100 + bytes[pos + low] as int;
    UnitRead(bytes, skip, order, low, high, k, pos);
    if IsLowSurrogate(value) {
      LowSurrogateStep(u, k);
      return Err(UnexpectedLowSurrogate);
    }
    if IsHighSurrogate(value) {
      if pos + 2 == |bytes| {
        UnpairedHighSurrogateStep(u, k);
        return Err(IncompleteSurrogatePair);
      }
      var value2 := bytes[pos + 2 + high] as int * 0x100 + bytes[pos + 2 + low] as int;
      UnitRead(bytes, skip, order, low, high, k + 1, pos + 2);
      if !IsLowSurrogate(value2) {
        UnpairedHighSurrogateStep(u, k);
        return Err(IncompleteSurrogatePair);
      }
      SurrogatePairStep(u, k);
      return Ok((CombineSurrogates(value, value2), 2));
    }
    SingleUnitStep(u, k);
    return Ok((value, 1));
  }

  // ---------------------------------------------------------------------------
  // Encoding

  /** The units written for one codepoint, each stored into a 16-bit slot (hence the
      reduction modulo 0x10000, which also covers negative values). */
  function EncodeCodepoint(v: int): (u: seq<int>)
    ensures |u| == (if v < 0x10000 then 1 else 2)
    ensures IsUnit(u[0]) && (|u| == 2 ==> IsUnit(u[1]))
  {
    if v < 0x10000 then [v % 0x10000]
    else
      var w := v - 0x10000;
      [(0xD800 + w / 0x400) % 0x10000, (0xDC00 + w % 0x400) % 0x10000]
  }

  function EncodeUnits(s: seq<int>): (u: seq<int>)
    ensures |s| <= |u| <= 2 * |s|
  {
    if s == [] then [] else EncodeCodepoint(s[0]) + EncodeUnits(s[1..])
  }

  lemma {:induction false} EncodeUnitsAreUnits(s: seq<int>)
    ensures AllUnits(EncodeUnits(s))
  {
    if s != [] {
      EncodeUnitsAreUnits(s[1..]);
      var e := EncodeCodepoint(s[0]);
      var u := EncodeUnits(s);
      assert u == e + EncodeUnits(s[1..]);
      forall i | 0 <= i < |u| ensures IsUnit(u[i]) {
        if i >= |e| {
          assert u[i] == EncodeUnits(s[1..])[i - |e|];
        }
      }
    }
  }

  lemma {:induction false} EncodeUnitsAppend(s: seq<int>, v: int)
    ensures EncodeUnits(s + [v]) == EncodeUnits(s) + EncodeCodepoint(v)
  {
    if s == [] {
      assert [v][1..] == [];
    } else {
      assert (s + [v])[1..] == s[1..] + [v];
      EncodeUnitsAppend(s[1..], v);
    }
  }

  lemma EncodeUnitsCons(v: int, s: seq<int>)
    ensures EncodeUnits([v] + s) == EncodeCodepoint(v) + EncodeUnits(s)
  {
    assert ([v] + s)[1..] == s;
  }

  lemma CombineSurrogatesInverse(hi: int, lo: int)
    requires IsHighSurrogate(hi) && IsLowSurrogate(lo)
    ensures EncodeCodepoint(CombineSurrogates(hi, lo)) == [hi, lo]
  {
    var w := CombineSurrogates(hi, lo) - 0x10000;
    assert w == (hi % 0x400) * 0x400 + lo % 0x400;
    assert w / 0x400 == hi % 0x400 && w % 0x400 == lo % 0x400;
  }

  lemma SplitArithmetic(v: int)
    requires 0x10000 <= v <= 0x10FFFF
    ensures IsHighSurrogate(0xD800 + (v - 0x10000) / 0x400)
    ensures IsLowSurrogate(0xDC00 + (v - 0x10000) % 0x400)
    ensures 0x10000 + ((0xD800 + (v - 0x10000) / 0x400) % 0x400) * 0x400
            + (0xDC00 + (v - 0x10000) % 0x400) % 0x400 == v
  {
    var w := v - 0x10000;
    assert 0 <= w / 0x400 < 0x400;
    assert (0xD800 + w / 0x400) % 0x400 == w / 0x400;
    assert (0xDC00 + w % 0x400) % 0x400 == w % 0x400;
  }

  lemma EncodeCodepointUnits(v: int)
    requires IsScalarValue(v)
    ensures v < 0x10000 ==> EncodeCodepoint(v) == [v]
    ensures v >= 0x10000 ==> var hi, lo := EncodeCodepoint(v)[0], EncodeCodepoint(v)[1];
      IsHighSurrogate(hi) && IsLowSurrogate(lo) && CombineSurrogates(hi, lo) == v
  {
    if v >= 0x10000 {
      SplitArithmetic(v);
    }
  }

  lemma DecodeEncodedCodepoint(v: int, rest: seq<int>)
    requires IsScalarValue(v)
    ensures DecodeUnits(EncodeCodepoint(v) + rest) == Prepend([v], DecodeUnits(rest))
  {
    var e := EncodeCodepoint(v);
    EncodeCodepointUnits(v);
    var u := e + rest;
    if v < 0x10000 {
      assert u[0] == v && u[1..] == rest;
    } else {
      assert u[0] == e[0] && u[1] == e[1] && u[2..] == rest;
    }
    DecodeUnitsAt(u, 0);
    assert u[0..] == u;
  }

  /** Decoding what the encoder writes gives the codepoints back. */
  lemma {:induction false} DecodeEncodeUnits(s: seq<int>)
    requires forall i :: 0 <= i < |s| ==> IsScalarValue(s[i])
    ensures DecodeUnits(EncodeUnits(s)) == Ok(s)
  {
    if s != [] {
      DecodeEncodeUnits(s[1..]);
      DecodeEncodedCodepoint(s[0], EncodeUnits(s[1..]));
      assert s == [s[0]] + s[1..];
    }
  }

  /** Encoding what the decoder produced gives the units back. */
  lemma {:induction false} EncodeDecodeUnits(u: seq<int>)
    requires AllUnits(u)
    requires DecodeUnits(u).Ok?
    ensures EncodeUnits(DecodeUnits(u).value) == u
  {
    if u != [] {
      var s := DecodeUnits(u).value;
      if IsHighSurrogate(u[0]) {
        EncodeDecodeUnits(u[2..]);
        CombineSurrogatesInverse(u[0], u[1]);
        assert s == [CombineSurrogates(u[0], u[1])] + DecodeUnits(u[2..]).value;
        assert s[1..] == DecodeUnits(u[2..]).value;
        assert u == [u[0], u[1]] + u[2..];
      } else {
        EncodeDecodeUnits(u[1..]);
        assert s == [u[0]] + DecodeUnits(u[1..]).value;
        assert s[1..] == DecodeUnits(u[1..]).value;
        assert u == [u[0]] + u[1..];
      }
    }
  }

  /** The byte-level round trip: the native-order bytes of an encoding decode to the
      original codepoints, unless the first codepoint is U+FEFF or U+FFFE, whose bytes
      read as a byte-order mark. */
  lemma RoundTrip(s: seq<int>, native: ByteOrder)
    requires forall i :: 0 <= i < |s| ==> IsScalarValue(s[i])
    requires s != [] ==> s[0] != 0xFEFF && s[0] != 0xFFFE
    ensures DecodeBytes(UnitsToBytes(EncodeUnits(s), native), native) == Ok(s)
  {
    var u := EncodeUnits(s);
    EncodeUnitsAreUnits(s);
    var b := UnitsToBytes(u, native);
    UnitsOfUnitsToBytes(u, native);
    if s != [] {
      EncodeCodepointUnits(s[0]);
      assert u[0] == EncodeCodepoint(s[0])[0];
      assert u[0] != 0xFEFF && u[0] != 0xFFFE;
      assert Units(b, native)[0] == UnitAt(b, 0, native);
    }
    assert Sniff(b, native) == (native, 0);
    assert b[0..] == b;
    DecodeEncodeUnits(s);
  }

  lemma UnitsToBytesCons(x: int, e: seq<int>, order: ByteOrder)
    ensures UnitsToBytes([x] + e, order)[2..] == UnitsToBytes(e, order)
  {
    var b := UnitsToBytes([x] + e, order);
    forall i | 0 <= i < 2 * |e| ensures b[2..][i] == UnitsToBytes(e, order)[i] {
      assert ([x] + e)[(i + 2) / 2] == e[i / 2];
    }
  }

  /** A byte-order mark in the stream's own order is consumed, whatever the native order. */
  lemma MarkConsumed(e: seq<int>, native: ByteOrder)
    requires AllUnits(e)
    ensures DecodeBytes(UnitsToBytes([0xFEFF] + e, native), native) == DecodeUnits(e)
  {
    var b := UnitsToBytes([0xFEFF] + e, native);
    UnitsToBytesCons(0xFEFF, e, native);
    assert b[0] == ByteOfUnits([0xFEFF] + e, native, 0);
    assert b[1] == ByteOfUnits([0xFEFF] + e, native, 1);
    assert Sniff(b, native) == (native, 2);
    UnitsOfUnitsToBytes(e, native);
    assert Units(b[2..], native) == e;
    assert |b| % 2 == 0;
    assert DecodeBytes(b, native) == DecodeUnits(Units(b[2..], native));
  }

  lemma EncodeMark(s: seq<int>)
    ensures EncodeUnits([0xFEFF] + s) == [0xFEFF] + EncodeUnits(s)
  {
    EncodeUnitsCons(0xFEFF, s);
    assert EncodeCodepoint(0xFEFF) == [0xFEFF];
  }

  /** A leading U+FEFF in the encoded string is taken for a byte-order mark and
      dropped by the decoder. */
  lemma LeadingMarkDropped(s: seq<int>, native: ByteOrder)
    requires forall i :: 0 <= i < |s| ==> IsScalarValue(s[i])
    ensures DecodeBytes(UnitsToBytes(EncodeUnits([0xFEFF] + s), native), native) == Ok(s)
  {
    EncodeMark(s);
    EncodeUnitsAreUnits(s);
    MarkConsumed(EncodeUnits(s), native);
    DecodeEncodeUnits(s);
  }

  /** The body of the encoding loop: stores the units of one codepoint at pos. */
  method WriteCodepoint(result: array<int>, pos: int, value: int) returns (next: int)
    requires 0 <= pos && pos + |EncodeCodepoint(value)| <= result.Length
    modifies result
    ensures next == pos + |EncodeCodepoint(value)|
    ensures result[..next] == old(result[..pos]) + EncodeCodepoint(value)
  {
    if value < 0x10000 {
      result[pos] := value % 0x10000;
      next := pos + 1;
    } else {
      var w := value - 0x10000;
      result[pos] := (0xD800 + w / 0x400) % 0x10000;
      result[pos + 1] := (0xDC00 + w % 0x400) % 0x10000;
      next := pos + 2;
    }
  }

  /** MVM_string_utf16_encode_substr: range checks on start and length, then one or two
      units per codepoint of s[start..start + length] and two zero units after them. */
  method EncodeSubstr(s: seq<int>, start: int, length: int) returns (r: Result<Encoded, EncodeError>)
    ensures (start < 0 || start > |s|) ==> r == Err(StartOutOfRange)
    ensures 0 <= start <= |s| && (length < 0 || start + length > |s|) ==> r == Err(LengthOutOfRange)
    ensures 0 <= start && 0 <= length && start + length <= |s| ==>
      r.Ok? && r.value.buffer == EncodeUnits(s[start..start + length]) + [0, 0]
      && r.value.outputSize == 2 * (|r.value.buffer| - 2)
  {
    if start < 0 || start > |s| {
      return Err(StartOutOfRange);
    }
    if length < 0 || start + length > |s| {
      return Err(LengthOutOfRange);
    }
    var result := new int[AllocatedUnits(length)];
    var pos := 0;
    var strPos := 0;
    ghost var done: seq<int> := [];
    while strPos < length
      invariant 0 <= strPos <= length
      invariant done == EncodeUnits(s[start..start + strPos])
      invariant pos == |done| <= 2 * strPos
      invariant result[..pos] == done
    {
      var value := s[start + strPos];
      assert s[start..start + strPos + 1] == s[start..start + strPos] + [value];
      EncodeUnitsAppend(s[start..start + strPos], value);
      pos := WriteCodepoint(result, pos, value);
      done := done + EncodeCodepoint(value);
      strPos := strPos + 1;
    }
    result[pos], result[pos + 1] := 0, 0;
    assert result[..pos + 2] == result[..pos] + [0, 0];
    return Ok(Encoded(result[..pos + 2], 2 * pos));
  }

  /** MVM_string_utf16_encode: the whole string. */
  method Encode(s: seq<int>) returns (buffer: seq<int>)
    ensures buffer == EncodeUnits(s) + [0, 0]
  {
    var r := EncodeSubstr(s, 0, |s|);
    assert s[0..|s|] == s;
    buffer := r.value.buffer;
  }

  // ---------------------------------------------------------------------------
  // Buffer sizes

  /** Units allocated for the encoding of length codepoints: two per codepoint plus the
      two zero units (length * 4 + 4 bytes). */
  function AllocatedUnits(length: int): (r: int)
    ensures forall s :: |s| == length ==> |EncodeUnits(s)| + 2 <= r
  {
    2 * length + 2
  }

  /** The allocation as written in the source: length * 4 + 2 bytes. */
  function AllocatedBytesAsWritten(length: int): int
  {
    length * 4 + 2
  }

  /** Bytes the encoder writes for s, the two zero units included. */
  function WrittenBytes(s: seq<int>): int
  {
    2 * (|EncodeUnits(s)| + 2)
  }

  lemma EncodingFitsAllocation(s: seq<int>)
    ensures |EncodeUnits(s)| + 2 <= AllocatedUnits(|s|)
    ensures WrittenBytes(s) <= 2 * AllocatedUnits(|s|)
  {
  }

  /** When every codepoint needs a surrogate pair (the empty string included), the
      encoder writes two bytes more than the source allocates. */
  lemma {:induction false} AllocationAsWrittenOverrun(s: seq<int>)
    requires forall i :: 0 <= i < |s| ==> s[i] >= 0x10000
    ensures WrittenBytes(s) == AllocatedBytesAsWritten(|s|) + 2
  {
    AllPairsLength(s);
  }

  lemma {:induction false} AllPairsLength(s: seq<int>)
    requires forall i :: 0 <= i < |s| ==> s[i] >= 0x10000
    ensures |EncodeUnits(s)| == 2 * |s|
  {
    if s != [] {
      AllPairsLength(s[1..]);
    }
  }

  /** Where the source's decoding loop stops: the end pointer is taken after the
      byte-order mark has been skipped, so it lies skip + |bytes| bytes into the buffer. */
  function DecodeEndAsWritten(bytes: seq<Byte>, native: ByteOrder): (r: int)
    ensures r == |bytes| || r == |bytes| + 2
  {
    Sniff(bytes, native).1 + |bytes|
  }

  /** With a byte-order mark the loop as written reads its last unit from the two bytes
      just past the buffer. */
  lemma DecodeEndAsWrittenOverrun(bytes: seq<Byte>, native: ByteOrder)
    requires |bytes| >= 2
    requires (bytes[0] == 0xFF && bytes[1] == 0xFE) || (bytes[0] == 0xFE && bytes[1] == 0xFF)
    ensures DecodeEndAsWritten(bytes, native) == |bytes| + 2
  {
  }
}
