/** The variable-length unsigned integers shared by the sync protocol and the state vectors:
    seven payload bits a byte, least significant group first, high bit set on every byte but
    the last.  Values are uint64 on the wire, so the decoder truncates to 64 bits. */
module VarUint {
  import opened Results

  type byte = x: int | 0 <= x < 256

  const U64: int := 0x1_0000_0000_0000_0000

  datatype WireError = Eof | UnexpectedEof | Overflow | WrongMessageType | UnknownSyncType
                     | MissingDocumentId | MissingPayload | TrailingBytes

  /** A decoded value together with the bytes that were left unread. */
  datatype Read<+T> = Read(value: T, rest: seq<byte>)

  function Pow2(n: nat): nat {
    if n == 0 then 1 else 2 * Pow2(n - 1)
  }

  lemma {:induction false} Pow2Positive(n: nat)
    ensures Pow2(n) >= 1
  {
    if n > 0 { Pow2Positive(n - 1); }
  }

  lemma {:induction false} Pow2Adds(m: nat, n: nat)
    ensures Pow2(m + n) == Pow2(m) * Pow2(n)
    decreases n
  {
    if n == 0 {
    } else {
      Pow2Adds(m, n - 1);
      calc {
        Pow2(m + n);
        2 * Pow2(m + (n - 1));
        2 * (Pow2(m) * Pow2(n - 1));
        Pow2(m) * (2 * Pow2(n - 1));
        Pow2(m) * Pow2(n);
      }
    }
  }

  lemma Pow2Shift7(n: nat)
    ensures Pow2(n + 7) == 128 * Pow2(n)
  {
    assert Pow2(n + 7) == 2 * Pow2(n + 6);
    assert Pow2(n + 6) == 2 * Pow2(n + 5);
    assert Pow2(n + 5) == 2 * Pow2(n + 4);
    assert Pow2(n + 4) == 2 * Pow2(n + 3);
    assert Pow2(n + 3) == 2 * Pow2(n + 2);
    assert Pow2(n + 2) == 2 * Pow2(n + 1);
  }

  lemma Pow2At64()
    ensures Pow2(64) == U64 && Pow2(63) * 2 == U64
  {
    assert Pow2(8) == 256;
    Pow2Adds(8, 8);
    assert Pow2(16) == 65536;
    Pow2Adds(16, 16);
    Pow2Adds(32, 32);
  }

  lemma {:induction false} Pow2Monotone(m: nat, n: nat)
    requires m <= n
    ensures Pow2(m) <= Pow2(n)
    decreases n
  {
    if m < n { Pow2Monotone(m, n - 1); Pow2Positive(n - 1); }
  }

  /** The canonical encoding. */
  function Encode(value: nat): seq<byte> {
    if value < 128 then [value] else [value % 128 + 128] + Encode(value / 128)
  }

  /** What the decoding loop computes from `s`, having already gathered `value` from `shift`
      bits.  The shifted group is truncated to 64 bits; it shares no bit with `value`, so the
      loop's bitwise-or is an addition. */
  function Decode(s: seq<byte>, value: nat, shift: nat): Result<Read<nat>, WireError> {
    if s == [] then Err(Eof)
    else
      var next := value + ((s[0] % 128) * Pow2(shift)) % U64;
      if s[0] < 128 then Ok(Read(next, s[1..]))
      else if shift + 7 > 63 then Err(Overflow)
      else Decode(s[1..], next, shift + 7)
  }

  function DecodeVarUint(s: seq<byte>): Result<Read<nat>, WireError> {
    Decode(s, 0, 0)
  }

  method EncodeVarUint(value: nat) returns (buffer: seq<byte>)
    requires value < U64
    ensures buffer == Encode(value)
  {
    buffer := [];
    var left := value;
    while true
      invariant buffer + Encode(left) == Encode(value)
      decreases left
    {
      var next := left % 128;
      ghost var before := left;
      left := left / 128;
      if left == 0 {
        buffer := buffer + [next];
        return;
      }
      assert Encode(before) == [next + 128] + Encode(left);
      buffer := buffer + [next + 128];
    }
  }

  /** A cursor over received bytes; `unread` is what it has not consumed yet. */
  class Reader {
    var data: seq<byte>
    var pos: nat
    ghost var unread: seq<byte>

    ghost predicate Valid()
      reads this
    {
      pos <= |data| && unread == data[pos..]
    }

    constructor (data: seq<byte>)
      ensures Valid() && unread == data
    {
      this.data := data;
      this.pos := 0;
      this.unread := data;
    }

    method ReadByte() returns (r: Result<byte, WireError>)
      requires Valid()
      modifies this`pos, this`unread
      ensures Valid()
      ensures old(unread) == [] ==> r == Err(Eof) && unread == []
      ensures old(unread) != [] ==> r == Ok(old(unread)[0]) && unread == old(unread)[1..]
    {
      if pos == |data| {
        return Err(Eof);
      }
      r := Ok(data[pos]);
      pos := pos + 1;
      unread := unread[1..];
    }

    method AtEnd() returns (end: bool)
      requires Valid()
      ensures end <==> unread == []
    {
      end := pos == |data|;
    }

    method ReadVarUint() returns (r: Result<nat, WireError>)
      requires Valid()
      modifies this`pos, this`unread
      ensures Valid()
      ensures match DecodeVarUint(old(unread))
              case Ok(read) => r == Ok(read.value) && unread == read.rest
              case Err(error) => r == Err(error)
    {
      var value: nat, shift: nat := 0, 0;
      while true
        invariant Valid()
        invariant Decode(unread, value, shift) == DecodeVarUint(old(unread))
        decreases |unread|
      {
        var current := ReadByte();
        if current.Err? {
          return Err(current.error);
        }
        value := value + ((current.value % 128) * Pow2(shift)) % U64;
        if current.value < 128 {
          return Ok(value);
        }
        shift := shift + 7;
        if shift > 63 {
          return Err(Overflow);
        }
      }
    }

    /** Reads exactly `length` bytes, or fails. */
    method ReadFull(length: nat) returns (r: Result<seq<byte>, WireError>)
      requires Valid()
      modifies this`pos, this`unread
      ensures Valid()
      ensures length <= |old(unread)| ==> r == Ok(old(unread)[..length]) && unread == old(unread)[length..]
      ensures length > |old(unread)| ==> r == Err(if old(unread) == [] then Eof else UnexpectedEof)
    {
      if length <= |data| - pos {
        r := Ok(data[pos..pos + length]);
        assert data[pos..][..length] == data[pos..pos + length];
        assert data[pos..][length..] == data[pos + length..];
        unread := unread[length..];
        pos := pos + length;
      } else {
        r := Err(if pos == |data| then Eof else UnexpectedEof);
        pos, unread := |data|, [];
      }
    }
  }

  lemma Regroup(low: nat, high: nat, p: nat)
    ensures (low + 128 * high) * p == low * p + high * (128 * p)
    ensures low * p >= 0 && high * (128 * p) >= 0
    ensures high >= 1 ==> high * (128 * p) >= 128 * p
  {
    assert (low + 128 * high) * p == low * p + (128 * high) * p;
    assert (128 * high) * p == high * (128 * p);
    if high >= 1 {
      assert high * (128 * p) == 128 * p + (high - 1) * (128 * p);
      assert (high - 1) * (128 * p) >= 0;
    }
  }

  /** One group of a value in place: it is not cut off, and if more follow there is room for them. */
  lemma GroupInPlace(v: nat, value: nat, shift: nat)
    requires value + v * Pow2(shift) < U64 && shift <= 63
    ensures ((v % 128) * Pow2(shift)) % U64 == (v % 128) * Pow2(shift)
    ensures v >= 128 ==> shift + 7 <= 63
    ensures value + v * Pow2(shift) == value + (v % 128) * Pow2(shift) + v / 128 * Pow2(shift + 7)
  {
    var p := Pow2(shift);
    Regroup(v % 128, v / 128, p);
    assert v == v % 128 + 128 * (v / 128);
    Pow2Shift7(shift);
    if v >= 128 && shift + 7 > 63 {
      Pow2Monotone(64, shift + 7);
      Pow2At64();
      assert false;
    }
  }

  lemma EncodeFirst(v: nat)
    requires v >= 128
    ensures Encode(v) == [v % 128 + 128] + Encode(v / 128)
  {
  }

  lemma EncodeStep(v: nat, rest: seq<byte>)
    requires v >= 128
    ensures var s := Encode(v) + rest;
            s[0] == v % 128 + 128 && s[0] % 128 == v % 128 && s[1..] == Encode(v / 128) + rest
  {
    hide Encode;
    EncodeFirst(v);
    FirstOff(v % 128 + 128, Encode(v / 128), rest);
  }

  lemma FirstOff(first: byte, more: seq<byte>, rest: seq<byte>)
    ensures ([first] + more + rest)[0] == first && ([first] + more + rest)[1..] == more + rest
  {
  }

  lemma {:induction false} DecodeInvertsEncodeAt(v: nat, value: nat, shift: nat, rest: seq<byte>)
    requires value + v * Pow2(shift) < U64 && shift <= 63
    ensures Decode(Encode(v) + rest, value, shift) == Ok(Read(value + v * Pow2(shift), rest))
    decreases v
  {
    hide Pow2;
    var s := Encode(v) + rest;
    GroupInPlace(v, value, shift);
    if v < 128 {
      assert s[1..] == rest && s[0] == v;
    } else {
      EncodeStep(v, rest);
      DecodeInvertsEncodeAt(v / 128, value + (v % 128) * Pow2(shift), shift + 7, rest);
    }
  }

  /** Every uint64 decodes back to itself, whatever follows it stays unread, and the decoder
      never reports an overflow on it. */
  lemma DecodeInvertsEncode(v: nat, rest: seq<byte>)
    requires v < U64
    ensures DecodeVarUint(Encode(v) + rest) == Ok(Read(v, rest))
  {
    DecodeInvertsEncodeAt(v, 0, 0, rest);
    assert v * Pow2(0) == v;
  }

  /** At the last position only the lowest bit of a group survives. */
  lemma TopGroup(group: nat)
    requires group < 128
    ensures (group * Pow2(63)) % U64 == (group % 2) * Pow2(63)
    ensures (group % 2) * Pow2(63) <= Pow2(63) && 2 * Pow2(63) == U64
  {
    Pow2At64();
    var half, bit, p := group / 2, group % 2, Pow2(63);
    assert (2 * half + bit) * p == half * U64 + bit * p by {
      assert (2 * half + bit) * p == (2 * half) * p + bit * p;
      assert (2 * half) * p == half * (2 * p);
    }
    assert bit == 0 || bit == 1;
    assert 0 <= bit * p < U64;
  }

  lemma GroupFits(value: nat, group: nat, shift: nat)
    requires value < Pow2(shift) && shift <= 63 && shift % 7 == 0 && group < 128
    ensures var next := value + (group * Pow2(shift)) % U64;
            next < U64 && (shift + 7 <= 63 ==> next < Pow2(shift + 7))
  {
    if shift == 63 {
      TopGroup(group);
    } else {
      LowGroup(group, shift);
    }
  }

  lemma MulMonotone(a: nat, b: nat, p: nat)
    requires a <= b
    ensures 0 <= a * p <= b * p
  {
  }

  lemma LowGroup(group: nat, shift: nat)
    requires shift + 7 <= 63 && group < 128
    ensures (group * Pow2(shift)) % U64 == group * Pow2(shift) <= 127 * Pow2(shift)
    ensures 128 * Pow2(shift) == Pow2(shift + 7) < U64
  {
    Pow2Shift7(shift);
    Pow2At64();
    Pow2Monotone(shift + 7, 63);
    MulMonotone(group, 127, Pow2(shift));
  }

  /** Whatever bytes arrive, a decoded value fits the 64 bits of the word it fills. */
  lemma {:induction false} DecodedValueFits(s: seq<byte>, value: nat, shift: nat)
    requires value < Pow2(shift) && shift <= 63 && shift % 7 == 0
    requires Decode(s, value, shift).Ok?
    ensures Decode(s, value, shift).value.value < U64
    decreases |s|
  {
    GroupFits(value, s[0] % 128, shift);
    if s[0] >= 128 {
      DecodedValueFits(s[1..], value + ((s[0] % 128) * Pow2(shift)) % U64, shift + 7);
    }
  }

  /** The length of an encoding is governed by the size of the value, group by group. */
  lemma {:induction false} EncodingLength(v: nat, n: nat)
    requires n >= 1
    ensures |Encode(v)| <= n <==> v < Pow2(7 * n)
    decreases n
  {
    if n == 1 {
      assert Pow2(7) == 128 by { Pow2Shift7(0); }
      if v >= 128 { EncodeNonEmpty(v / 128); }
    } else {
      Pow2Shift7(7 * (n - 1));
      var p := Pow2(7 * (n - 1));
      assert Pow2(7 * n) == 128 * p;
      Pow2Positive(7 * (n - 1));
      if v >= 128 {
        EncodingLength(v / 128, n - 1);
      }
    }
  }

  lemma EncodeNonEmpty(v: nat)
    ensures |Encode(v)| >= 1
  {
  }

  /** A uint64 takes at most ten bytes. */
  lemma EncodeAtMostTenBytes(v: nat)
    requires v < U64
    ensures 1 <= |Encode(v)| <= 10
  {
    EncodeNonEmpty(v);
    EncodingLength(v, 10);
    Pow2At64();
    Pow2Monotone(64, 70);
  }

  /** Decoding looks only at the bytes it consumes: replacing what follows them changes
      nothing but the unread rest.  The decoded value always fits 64 bits. */
  lemma {:induction false} DecodeReadsAPrefix(s: seq<byte>, value: nat, shift: nat, other: seq<byte>)
    requires Decode(s, value, shift).Ok?
    ensures var read := Decode(s, value, shift).value;
            |read.rest| < |s|
            && read.rest == s[|s| - |read.rest|..]
            && Decode(s[..|s| - |read.rest|] + other, value, shift) == Ok(Read(read.value, other))
    decreases |s|
  {
    var next := value + ((s[0] % 128) * Pow2(shift)) % U64;
    if s[0] < 128 {
      assert s[..1] + other == [s[0]] + other;
      assert ([s[0]] + other)[1..] == other;
    } else {
      DecodeReadsAPrefix(s[1..], next, shift + 7, other);
      var rest := Decode(s, value, shift).value.rest;
      var k := |s| - |rest|;
      var t := s[..k] + other;
      assert t[1..] == s[1..][..k - 1] + other;
    }
  }

  // ---- which accepted bytes are canonical ----

  /** What the groups read from a position on amount to, counted from that position: the tenth
      group keeps its lowest bit only. */
  function Payload(s: seq<byte>, shift: nat): nat {
    if |s| == 0 then 0
    else if s[0] < 128 then (if shift == 63 then s[0] % 2 else s[0])
    else s[0] % 128 + 128 * Payload(s[1..], shift + 7)
  }

  lemma {:induction false} DecodedIsPayload(s: seq<byte>, value: nat, shift: nat)
    requires value < Pow2(shift) && shift <= 63 && shift % 7 == 0 && Decode(s, value, shift).Ok?
    ensures Decode(s, value, shift).value.value == value + Payload(s, shift) * Pow2(shift)
    decreases |s|
  {
    hide Pow2;
    var group := s[0] % 128;
    GroupFits(value, group, shift);
    if shift == 63 {
      TopGroup(group);
    } else {
      LowGroup(group, shift);
      if s[0] >= 128 {
        DecodedIsPayload(s[1..], value + group * Pow2(shift), shift + 7);
        Regroup(group, Payload(s[1..], shift + 7), Pow2(shift));
      }
    }
  }

  /** How many bytes the decoding loop reads. */
  function Used(s: seq<byte>): nat {
    if |s| == 0 then 0 else if s[0] < 128 then 1 else 1 + Used(s[1..])
  }

  lemma {:induction false} UsedBytes(s: seq<byte>, value: nat, shift: nat)
    requires shift <= 63 && shift % 7 == 0 && Decode(s, value, shift).Ok?
    ensures 1 <= Used(s) <= |s| && s[Used(s) - 1] < 128 && shift + 7 * Used(s) <= 70
    ensures |Decode(s, value, shift).value.rest| == |s| - Used(s)
    decreases |s|
  {
    hide Pow2;
    if s[0] >= 128 { UsedBytes(s[1..], value + ((s[0] % 128) * Pow2(shift)) % U64, shift + 7); }
  }

  /** No redundant zero group at the end, and no bits beyond the 64th. */
  predicate Tight(s: seq<byte>, shift: nat)
    requires 1 <= Used(s) <= |s|
  {
    var last := s[Used(s) - 1];
    (Used(s) == 1 || last != 0) && (shift + 7 * Used(s) == 70 ==> last <= 1)
  }

  lemma {:induction false} CanonicalAt(s: seq<byte>, shift: nat)
    requires 1 <= Used(s) <= |s| && s[Used(s) - 1] < 128 && shift + 7 * Used(s) <= 70
    ensures s[..Used(s)] == Encode(Payload(s, shift)) <==> Tight(s, shift)
    decreases |s|
  {
    if s[0] < 128 {
      assert s[..1] == [s[0]];
    } else {
      CanonicalAt(s[1..], shift + 7);
      CanonicalGroup(s, Used(s), Payload(s, shift), Payload(s[1..], shift + 7));
    }
  }

  /** One more group in front of a sequence of groups. */
  lemma CanonicalGroup(s: seq<byte>, n: nat, p: nat, q: nat)
    requires 2 <= n <= |s| && s[0] >= 128 && p == s[0] % 128 + 128 * q
    ensures s[..n] == Encode(p) <==> q > 0 && s[1..][..n - 1] == Encode(q)
    ensures Encode(0) == [0] && s[1..][..n - 1][n - 2] == s[n - 1]
  {
    assert p % 128 == s[0] % 128 && p / 128 == q;
    assert s[..n] == [s[0]] + s[1..][..n - 1];
    EncodeNonEmpty(q);
    if q == 0 {
      assert |Encode(p)| == 1;
    } else {
      assert Encode(p) == [s[0]] + Encode(q);
      assert ([s[0]] + Encode(q))[1..] == Encode(q);
      assert s[..n][1..] == s[1..][..n - 1];
    }
  }

  /** For all bytes the decoder accepts: the bytes read are the ones the encoder produces exactly
      when there is one of them or the last is not zero, and a tenth one is at most 1. */
  lemma CanonicalExactlyWhen(s: seq<byte>)
    requires DecodeVarUint(s).Ok?
    ensures var read := DecodeVarUint(s).value;
            var used := |s| - |read.rest|;
            1 <= used <= 10
            && (s[..used] == Encode(read.value) <==> (used == 1 || s[used - 1] != 0) && (used == 10 ==> s[9] <= 1))
  {
    hide Encode, Decode, Payload, Used;
    assert Pow2(0) == 1;
    DecodedIsPayload(s, 0, 0);
    UsedBytes(s, 0, 0);
    CanonicalAt(s, 0);
  }

  /** The decoder accepts more than the encoder produces: a redundant zero group, and a tenth
      byte whose upper bits fall off the end of the 64-bit word. */
  lemma DecoderAcceptsNonCanonical()
    ensures DecodeVarUint([0x80, 0x00]) == Ok(Read(0, [])) && Encode(0) == [0]
    ensures DecodeVarUint([0x80, 0x80, 0x80, 0x80, 0x80, 0x80, 0x80, 0x80, 0x80, 0x02]) == Ok(Read(0, []))
    ensures DecodeVarUint([0x80, 0x80, 0x80, 0x80, 0x80, 0x80, 0x80, 0x80, 0x80, 0x80, 0x00]) == Err(Overflow)
  {
    var zero: seq<byte>, two: seq<byte>, more: seq<byte> := [0x00], [0x02], [0x80, 0x00];
    LastGroup(0, 7);
    Pow2At64();
    LastGroup(2, 63);
    assert 0x80 % 128 == 0 && 0 * Pow2(63) == 0;
    assert Decode(more, 0, 63) == Err(Overflow);
    ZeroGroups(1, zero, 0);
    ZeroGroups(9, two, 0);
    ZeroGroups(9, more, 0);
    assert Zeros(1) + zero == [0x80, 0x00];
    assert Zeros(9) + two == [0x80, 0x80, 0x80, 0x80, 0x80, 0x80, 0x80, 0x80, 0x80, 0x02];
    assert Zeros(9) + more == [0x80, 0x80, 0x80, 0x80, 0x80, 0x80, 0x80, 0x80, 0x80, 0x80, 0x00];
  }

  lemma LastGroup(b: byte, shift: nat)
    requires b < 128
    ensures Decode([b], 0, shift) == Ok(Read((b * Pow2(shift)) % U64, []))
  {
    assert b % 128 == b;
    var s: seq<byte> := [b];
    assert s[1..] == [];
  }

  function Zeros(n: nat): seq<byte> {
    seq(n, _ => 0x80)
  }

  lemma {:induction false} ZeroGroups(n: nat, tail: seq<byte>, shift: nat)
    requires shift + 7 * n <= 63
    ensures Decode(Zeros(n) + tail, 0, shift) == Decode(tail, 0, shift + 7 * n)
    decreases n
  {
    if n == 0 {
      assert Zeros(0) + tail == tail;
    } else {
      var s := Zeros(n) + tail;
      assert s[1..] == Zeros(n - 1) + tail;
      assert s[0] == 0x80 && 0 * Pow2(shift) % U64 == 0;
      ZeroGroups(n - 1, tail, shift + 7);
    }
  }

  /** Least significant group first: 300 is 44 and twice 128. */
  lemma EncodedThreeHundred()
    ensures Encode(300) == [0xAC, 0x02]
  {
    assert Encode(2) == [2];
  }
}
