/**
 * The octet decoder (med/octet_decoder.hpp): big-endian assembly of a
 * value from a fixed number of octets, and the per-IE decode steps that
 * move a cursor over the input and store what they read into the IE.
 *
 * The codec buffer itself is not part of this model beyond a cursor over a
 * byte sequence; its `advance` is given a precondition of enough bytes.
 */
module OctetDecoding {
  import opened Exceptions
  import opened Arithmetic

  type byte = x: nat | x < 256

  function Pow256(n: nat): (p: nat)
    ensures p >= 1
  {
    if n == 0 then 1 else 256 * Pow256(n - 1)
  }

  /** Reference definition of big-endian: the sum of `b[i] * 256^(N-1-i)`. */
  function BigEndian(b: seq<byte>): nat {
    if b == [] then 0 else b[0] * Pow256(|b| - 1) + BigEndian(b[1..])
  }

  /**
   * `get_byte`: the fold `value = (value << 8) | *input` over the remaining
   * octets. It shifts the start value past all of them and adds their
   * big-endian value.
   */
  function GetByte(value: nat, input: seq<byte>): (r: nat)
    ensures r == value * Pow256(|input|) + BigEndian(input)
    decreases |input|
  {
    if input == [] then value
    else
      var n := |input| - 1;
      assert (value * 256 + input[0]) * Pow256(n) == value * (256 * Pow256(n)) + input[0] * Pow256(n);
      GetByte(value * 256 + input[0], input[1..])
  }

  /**
   * `get_bytes`: folds the octets into a value-initialised 0. The result is
   * their big-endian value and lies below `256^N`.
   */
  function GetBytes(input: seq<byte>): (v: nat)
    ensures v == BigEndian(input)
    ensures v < Pow256(|input|)
  {
    BigEndianBound(input);
    GetByte(0, input)
  }

  /** `N` octets hold a value below `256^N`. */
  lemma {:induction false} BigEndianBound(b: seq<byte>)
    ensures BigEndian(b) < Pow256(|b|)
  {
    if b != [] {
      var p := Pow256(|b| - 1);
      BigEndianBound(b[1..]);
      MulMono(b[0], 255, p);
      assert BigEndian(b) == b[0] * p + BigEndian(b[1..]);
      assert Pow256(|b|) == 256 * p;
    }
  }

  /** The inverse of `get_bytes`: the `n` octets of `v`, most significant first. */
  function ToBytes(v: nat, n: nat): (b: seq<byte>)
    ensures |b| == n
  {
    if n == 0 then [] else [(v / Pow256(n - 1)) % 256] + ToBytes(v % Pow256(n - 1), n - 1)
  }

  /** Every value below `256^n` is read back from its `n` octets. */
  lemma {:induction false} GetBytesOfToBytes(v: nat, n: nat)
    requires v < Pow256(n)
    ensures GetBytes(ToBytes(v, n)) == v
    decreases n
  {
    if n > 0 {
      var p := Pow256(n - 1);
      var q, r := ToBytesHead(v, n);
      var tail := ToBytes(r, n - 1);
      GetBytesOfToBytes(r, n - 1);
      BigEndianCons(q, tail);
    }
  }

  /** Every octet sequence is written back from the value it is read as. */
  lemma {:induction false} ToBytesOfGetBytes(b: seq<byte>)
    ensures ToBytes(GetBytes(b), |b|) == b
  {
    if b != [] {
      var n := |b| - 1;
      var p := Pow256(n);
      var rest := BigEndian(b[1..]);
      var v := BigEndian(b);
      assert v / p == b[0] && v % p == rest by {
        BigEndianBound(b[1..]);
        DivModUnique(b[0], rest, p);
      }
      ToBytesOfGetBytes(b[1..]);
      assert ToBytes(v, |b|) == [b[0]] + ToBytes(rest, n);
    }
  }

  /** The first octet of `ToBytes(v, n)` is the quotient by `256^(n-1)`, the rest encodes the remainder. */
  lemma ToBytesHead(v: nat, n: nat) returns (q: byte, r: nat)
    requires n > 0 && v < Pow256(n)
    ensures ToBytes(v, n) == [q] + ToBytes(r, n - 1)
    ensures r < Pow256(n - 1) && v == q * Pow256(n - 1) + r
  {
    var p := Pow256(n - 1);
    DivBelow(v, p, 256);
    q, r := v / p, v % p;
  }

  lemma BigEndianCons(x: byte, t: seq<byte>)
    ensures BigEndian([x] + t) == x * Pow256(|t|) + BigEndian(t)
  {
    assert ([x] + t)[1..] == t;
  }

  /** The octets `0x35, 0xD9` of the 16-bit field in the Set tests read as `0x35D9`. */
  lemma SetTestVector()
    ensures GetBytes([0x35, 0xD9]) == 0x35D9
    ensures ToBytes(0x35D9, 2) == [0x35, 0xD9]
  {
  }

  /** The decode buffer: the input octets and the cursor into them. */
  class DecodeBuffer {
    const data: seq<byte>
    var offset: nat

    ghost predicate Valid()
      reads this
    {
      offset <= |data|
    }

    constructor (data: seq<byte>)
      ensures this.data == data && offset == 0 && Valid()
    {
      this.data := data;
      offset := 0;
    }

    /** The octets not consumed yet. */
    function Remaining(): (rest: seq<byte>)
      reads this
      requires Valid()
      ensures data == data[..offset] + rest
    {
      data[offset..]
    }

    /** `size()`: the number of octets left. */
    function Size(): (n: nat)
      reads this
      requires Valid()
      ensures offset + n == |data|
    {
      |data| - offset
    }

    /** `advance(n)`: consumes `n` octets and returns them. */
    method Advance(n: nat) returns (consumed: seq<byte>)
      requires Valid() && n <= Size()
      modifies this
      ensures Valid() && offset == old(offset) + n
      ensures consumed == old(Remaining())[..n] && old(Remaining()) == consumed + Remaining()
    {
      consumed := data[offset..offset + n];
      offset := offset + n;
    }
  }

  /**
   * An IE with a fixed-width value (`IE_VALUE`). `accepts` is its
   * `set_encoded` verdict on a raw value; an IE whose `set_encoded` returns
   * nothing accepts every value.
   */
  class ValueIe {
    const name: string
    const bits: nat
    const accepts: nat -> bool
    var value: Option<nat>

    constructor (name: string, bits: nat, accepts: nat -> bool)
      ensures this.name == name && this.bits == bits && this.accepts == accepts && value == None
    {
      this.name, this.bits, this.accepts := name, bits, accepts;
      value := None;
    }
  }

  /**
   * An IE holding an octet string (`IE_OCTET_STRING`). `accepts` is its
   * `set_encoded` verdict on the octets it is offered; it keeps all of them
   * when it accepts.
   */
  class OctetStringIe {
    const name: string
    const accepts: seq<byte> -> bool
    var value: seq<byte>

    constructor (name: string, accepts: seq<byte> -> bool)
      ensures this.name == name && this.accepts == accepts && value == []
    {
      this.name, this.accepts := name, accepts;
      value := [];
    }
  }

  /** `octet_decoder`: the decode steps over one decode buffer. */
  class OctetDecoder {
    const buffer: DecodeBuffer

    constructor (buffer: DecodeBuffer)
      ensures this.buffer == buffer
    {
      this.buffer := buffer;
    }

    /** `CHECK_STATE`: whether any octet is left to decode. */
    function CheckState(): (more: bool)
      reads this, buffer
      requires buffer.Valid()
      ensures more <==> buffer.offset < |buffer.data|
    {
      buffer.Size() != 0
    }

    /**
     * `IE_VALUE`: consumes `bits / 8` octets, reads them big-endian and offers
     * the value to the IE. A rejected value fails with `invalid_value`
     * carrying it; the octets stay consumed either way.
     */
    method DecodeValue(ie: ValueIe) returns (r: Result<()>)
      requires buffer.Valid() && ie.bits % 8 == 0 && ie.bits / 8 <= buffer.Size()
      modifies buffer, ie
      ensures buffer.Valid() && buffer.offset == old(buffer.offset) + ie.bits / 8
      ensures var raw := BigEndian(old(buffer.Remaining())[..ie.bits / 8]);
        && (r.Ok? <==> ie.accepts(raw))
        && (r.Ok? ==> ie.value == Some(raw))
        && (r.Err? ==> r.error == InvalidValue(ie.name, raw) && ie.value == old(ie.value))
    {
      var octets := buffer.Advance(ie.bits / 8);
      var val := GetBytes(octets);
      if ie.accepts(val) {
        ie.value := Some(val);
        r := Ok(());
      } else {
        r := Err(InvalidValue(ie.name, val));
      }
    }

    /** `IE_LEN`: a length IE is decoded as the value IE it wraps. */
    method DecodeLength(ie: ValueIe) returns (r: Result<()>)
      requires buffer.Valid() && ie.bits % 8 == 0 && ie.bits / 8 <= buffer.Size()
      modifies buffer, ie
      ensures buffer.Valid() && buffer.offset == old(buffer.offset) + ie.bits / 8
      ensures var raw := BigEndian(old(buffer.Remaining())[..ie.bits / 8]);
        && (r.Ok? <==> ie.accepts(raw))
        && (r.Ok? ==> ie.value == Some(raw))
        && (r.Err? ==> r.error == InvalidValue(ie.name, raw) && ie.value == old(ie.value))
    {
      r := DecodeValue(ie);
    }

    /**
     * `IE_TAG`: decodes a fresh writable copy of the tag IE, whose
     * `set_encoded` verdict is `accepts`, through `IE_VALUE`, and returns the
     * value it then holds. A rejected value fails with `invalid_value`.
     */
    method DecodeTag(name: string, bits: nat, accepts: nat -> bool) returns (r: Result<nat>)
      requires buffer.Valid() && bits % 8 == 0 && bits / 8 <= buffer.Size()
      modifies buffer
      ensures buffer.Valid() && buffer.offset == old(buffer.offset) + bits / 8
      ensures var raw := BigEndian(old(buffer.Remaining())[..bits / 8]);
        && raw < Pow256(bits / 8)
        && (r.Ok? <==> accepts(raw))
        && (r.Ok? ==> r.value == raw)
        && (r.Err? ==> r.error == InvalidValue(name, raw))
    {
      var ie := new ValueIe(name, bits, accepts);
      var decoded := DecodeValue(ie);
      BigEndianBound(old(buffer.Remaining())[..bits / 8]);
      if decoded.Ok? {
        r := Ok(ie.value.value);
      } else {
        r := Err(decoded.error);
      }
    }

    /** `IE_NULL`: an IE with no octets consumes nothing. */
    method DecodeNull() returns (r: Result<()>)
      requires buffer.Valid()
      ensures r.Ok? && buffer.offset == old(buffer.offset)
    {
      r := Ok(());
    }

    /**
     * `IE_OCTET_STRING`: offers every remaining octet to the IE. When it
     * accepts, the cursor moves past exactly the IE's new size; otherwise
     * decoding fails with `invalid_value` carrying the IE's size and the
     * cursor stays.
     */
    method DecodeOctetString(ie: OctetStringIe) returns (r: Result<()>)
      requires buffer.Valid()
      modifies buffer, ie
      ensures buffer.Valid()
      ensures r.Ok? <==> ie.accepts(old(buffer.Remaining()))
      ensures r.Ok? ==> ie.value == old(buffer.Remaining()) && buffer.offset == old(buffer.offset) + |ie.value|
      ensures r.Err? ==>
        r.error == InvalidValue(ie.name, |ie.value|) && ie.value == old(ie.value) && buffer.offset == old(buffer.offset)
    {
      var offered := buffer.Remaining();
      if ie.accepts(offered) {
        ie.value := offered;
        var _ := buffer.Advance(|ie.value|);
        r := Ok(());
      } else {
        r := Err(InvalidValue(ie.name, |ie.value|));
      }
    }
  }
}
