/** The entropy-coded output of `ccs_jpgfile`: bits packed into bytes, with a zero stuffed behind every 0xFF byte. */
module JpegBits {
  import opened Arith
  import opened BitInt
  import Limbs
  import LimbShifts

  /** The n low bits of x, most significant first. */
  function Bits(x: int, n: nat): (s: seq<bool>)
    ensures |s| == n
    decreases n
  {
    if n == 0 then [] else Bits(x / 2, n - 1) + [x % 2 == 1]
  }

  /** The number a bit string denotes, most significant bit first. */
  function Val(s: seq<bool>): int {
    if s == [] then 0 else 2 * Val(s[..|s| - 1]) + Flag(s[|s| - 1])
  }

  lemma ValSnoc(s: seq<bool>, b: bool)
    ensures Val(s + [b]) == 2 * Val(s) + Flag(b)
  {
    assert (s + [b])[..|s|] == s;
  }

  lemma BitsOfDouble(v: int, b: bool, n: nat)
    ensures Bits(2 * v + Flag(b), n + 1) == Bits(v, n) + [b]
  {
    DivModUnique(2 * v + Flag(b), 2, v, Flag(b));
  }

  lemma {:induction false} BitsOfVal(s: seq<bool>)
    ensures Bits(Val(s), |s|) == s && 0 <= Val(s) < Shl(1, |s|)
  {
    if s != [] {
      var u, b := s[..|s| - 1], s[|s| - 1];
      BitsOfVal(u);
      BitsOfDouble(Val(u), b, |u|);
      assert s == u + [b];
    }
  }

  /** All bits of a sequence of bytes. */
  function AllBits(bytes: seq<Byte>): seq<bool> {
    if bytes == [] then [] else AllBits(bytes[..|bytes| - 1]) + Bits(bytes[|bytes| - 1], 8)
  }

  lemma AllBitsSnoc(bytes: seq<Byte>, b: Byte)
    ensures AllBits(bytes + [b]) == AllBits(bytes) + Bits(b, 8)
  {
    assert (bytes + [b])[..|bytes|] == bytes;
  }

  /** What the encoder writes for a byte of data. */
  function StuffedByte(b: Byte): seq<Byte> {
    if b == 0xFF then [b, 0] else [b]
  }

  function Stuffed(bytes: seq<Byte>): seq<Byte> {
    if bytes == [] then [] else Stuffed(bytes[..|bytes| - 1]) + StuffedByte(bytes[|bytes| - 1])
  }

  lemma StuffedSnoc(bytes: seq<Byte>, b: Byte)
    ensures Stuffed(bytes + [b]) == Stuffed(bytes) + StuffedByte(b)
  {
    assert (bytes + [b])[..|bytes|] == bytes;
  }

  /**
   * What a decoder makes of the output, from the left: the byte behind 0xFF is dropped (section B.1.1.5 of
   * ITU-T T.81).
   */
  function Unstuffed(out: seq<Byte>): seq<Byte> {
    if out == [] then []
    else if out[0] == 0xFF && |out| > 1 then [out[0]] + Unstuffed(out[2..])
    else [out[0]] + Unstuffed(out[1..])
  }

  /** The same encoding, seen from the left. */
  lemma {:induction false} StuffedLeft(bytes: seq<Byte>)
    ensures bytes != [] ==> Stuffed(bytes) == StuffedByte(bytes[0]) + Stuffed(bytes[1..])
    decreases |bytes|
  {
    if |bytes| > 1 {
      var init := bytes[..|bytes| - 1];
      StuffedLeft(init);
      assert init[1..] == bytes[1..][..|bytes| - 2];
      assert bytes[1..][|bytes| - 2] == bytes[|bytes| - 1];
    } else if |bytes| == 1 {
      assert bytes[..0] == [] && bytes[1..] == [];
    }
  }

  /** A decoder recovers the data bytes. */
  lemma {:induction false} UnstuffedStuffed(bytes: seq<Byte>)
    ensures Unstuffed(Stuffed(bytes)) == bytes
  {
    StuffedLeft(bytes);
    if bytes != [] {
      UnstuffedStuffed(bytes[1..]);
      var rest := Stuffed(bytes[1..]);
      assert (StuffedByte(bytes[0]) + rest)[|StuffedByte(bytes[0])|..] == rest;
      assert bytes == [bytes[0]] + bytes[1..];
    }
  }

  /** A byte of the output is no marker: behind 0xFF comes a zero. */
  predicate NoMarkerAt(out: seq<Byte>, i: nat)
    requires i < |out|
  {
    out[i] == 0xFF ==> i + 1 < |out| && out[i + 1] == 0
  }

  lemma {:induction false} NoMarkers(bytes: seq<Byte>, i: nat)
    requires i < |Stuffed(bytes)|
    ensures NoMarkerAt(Stuffed(bytes), i)
    decreases |bytes|
  {
    var before, last := Stuffed(bytes[..|bytes| - 1]), StuffedByte(bytes[|bytes| - 1]);
    if i < |before| {
      NoMarkers(bytes[..|bytes| - 1], i);
    } else {
      assert i > |before| ==> last[1] == 0;
    }
  }

  function Ones(n: nat): (s: seq<bool>)
    ensures |s| == n && forall i :: 0 <= i < n ==> s[i]
  {
    seq(n, _ => true)
  }

  lemma {:induction false} BitsAt(x: int, n: nat, i: nat)
    requires i < n
    ensures Bits(x, n)[i] == Bit(x, n - 1 - i)
    decreases n
  {
    if i < n - 1 {
      BitsAt(x / 2, n - 1, i);
      ShrShr(x, 1, n - 2 - i);
      assert Shr(x, 0) == x;
    } else {
      assert Shr(x, 0) == x;
    }
  }

  lemma OneBit(u: int)
    requires 0 <= u < Shl(1, 32)
    ensures 0 <= Shr(u, 31) <= 1
  {
    ShrSpec(u, 31);
    ShlStep(1, 31);
    ShlZero(31);
    ShlPlus(1, 1, 31);
    ShlMonotone(2, Shr(u, 31), 31);
    ShlMonotone(0, Shr(u, 31) + 1, 31);
  }

  lemma TwiceLow(y: int)
    ensures Low(2 * Low(y, 32), 32) == Low(2 * y, 32)
  {
    LowStep(2 * y, 32);
    LowStep(2 * Low(y, 32), 32);
    LowOfLow(y, 31, 32);
  }

  /** The top bit of the shifting register is the next bit to send. */
  lemma TopBitNext(x: int, n: nat, i: nat)
    requires i < n <= 32
    ensures var y := Shl(x, 32 - n + i);
      (Shr(Low(y, 32), 31) == 1) == Bits(x, n)[i] && Low(2 * Low(y, 32), 32) == Low(Shl(x, 32 - n + i + 1), 32)
  {
    hide Shl, Shr, Low, Bits;
    var y := Shl(x, 32 - n + i);
    BitsAt(x, n, i);
    ShrOfShl(x, 32 - n + i, n - 1 - i);
    Limbs.ShrByLimb(y);
    LimbShifts.BitOfLow(y, 31);
    ShrSpec(y, 32);
    ShlStep(1, 31);
    TopBit(Low(y, 32), 31);
    OneBit(Low(y, 32));
    ShlStep(x, 32 - n + i);
    TwiceLow(y);
  }

  /** The low |s| bits of a byte are s. */
  ghost predicate Pending(s: seq<bool>, b: Byte) {
    Low(b, |s|) == Val(s)
  }

  lemma NothingPending(b: Byte)
    ensures Pending([], b) && Stuffed([]) == [] && AllBits([]) == []
  {
    assert Shl(b, 0) == b;
  }

  lemma ByteOf(x: int, b: Byte)
    requires b == x % 0x100
    ensures b == Low(x, 8) == Low(b, 8)
  {
    Shl8(x / 0x100);
    Shl8(1);
    DivModEq(x, 0x100);
    ShrUnique(x, 8, x / 0x100, b);
    FitsU(b, 8);
  }

  lemma PendingPush(s: seq<bool>, b: Byte, c: bool, b': Byte)
    requires |s| < 8 && Pending(s, b) && b' == (2 * b) % 0x100 + Flag(c)
    ensures Pending(s + [c], b') && (|s| == 7 ==> Bits(b', 8) == s + [c])
  {
    hide Low, Shl, Val, Bits;
    var k, x := |s|, 2 * b + Flag(c);
    ByteOf(x, b');
    LowOfLow(x, k + 1, 8);
    LowStep(x, k + 1);
    ValSnoc(s, c);
    BitsOfVal(s + [c]);
  }

  class JpegFile {
    var outbyte: Byte
    var bytebitcounter: nat
    var out: seq<Byte> // what was written to the file
    ghost var bytes: seq<Byte>    // the complete bytes of data
    ghost var waiting: seq<bool>  // the bits pushed since

    /** Every bit pushed so far. */
    ghost function Stream(): seq<bool>
      reads this
    {
      AllBits(bytes) + waiting
    }

    /** The file holds the complete bytes, stuffed; the last bits wait in the low end of outbyte. */
    ghost predicate Valid()
      reads this
    {
      bytebitcounter == |waiting| < 8 && out == Stuffed(bytes) && Pending(waiting, outbyte)
    }

    constructor ()
      ensures Valid() && Stream() == [] && out == []
    {
      hide Stuffed, AllBits, Pending;
      outbyte, bytebitcounter, out, bytes, waiting := 0, 0, [], [], [];
      new;
      NothingPending(0);
    }

    /** `pushbit`. */
    method PushBit(c: bool)
      modifies `outbyte, `bytebitcounter
      ensures outbyte == (2 * old(outbyte)) % 0x100 + Flag(c) && bytebitcounter == old(bytebitcounter) + 1
    {
      outbyte := (2 * outbyte) % 0x100;
      outbyte := outbyte + Flag(c); // outbyte |= c
      bytebitcounter := bytebitcounter + 1;
    }

    /** `writebits`, and the zero behind a byte that could be taken for a marker. */
    method WriteByte()
      modifies `outbyte, `out
      ensures out == old(out) + StuffedByte(old(outbyte))
    {
      out := out + [outbyte];
      if outbyte == 0xFF {
        outbyte := 0;
        out := out + [outbyte];
      }
    }

    /** `writebits` when the byte is full, and the reset. */
    method CompleteByte()
      requires out == Stuffed(bytes) && |waiting| == 8 && Bits(outbyte, 8) == waiting
      modifies `outbyte, `out, `bytes, `waiting
      ensures out == Stuffed(bytes) && waiting == [] && AllBits(bytes) == old(Stream()) && Pending([], outbyte)
    {
      hide Stuffed, AllBits, StuffedByte, Bits, Pending;
      StuffedSnoc(bytes, outbyte);
      AllBitsSnoc(bytes, outbyte);
      bytes, waiting := bytes + [outbyte], [];
      WriteByte();
      outbyte := 0;
      NothingPending(0);
    }

    /** One bit, and the byte it completes. */
    method Push(c: bool)
      requires Valid()
      modifies this
      ensures Valid() && Stream() == old(Stream()) + [c]
    {
      hide Stuffed, AllBits, Pending, Val;
      ghost var b := outbyte;
      PushBit(c);
      PendingPush(waiting, b, c, outbyte);
      waiting := waiting + [c];
      if bytebitcounter == 8 {
        CompleteByte();
        bytebitcounter := 0;
      }
    }

    /** `write`: the low numbits bits, most significant first. */
    method Write(numbits: nat, bits: int)
      requires Valid() && 1 <= numbits <= 32 && 0 <= bits < 0x1_0000_0000
      modifies this
      ensures Valid() && Stream() == old(Stream()) + Bits(bits, numbits)
    {
      hide Stuffed, AllBits, Pending, Bits, Low, Shl, Shr;
      var b := Low(Shl(bits, 32 - numbits), 32);
      ghost var all, stream := Bits(bits, numbits), Stream();
      assert stream == stream + all[..0];
      for i := 0 to numbits
        invariant Valid() && Stream() == stream + all[..i]
        invariant b == Low(Shl(bits, 32 - numbits + i), 32)
      {
        TopBitNext(bits, numbits, i);
        Push(Shr(b, 31) == 1);
        assert all[..i + 1] == all[..i] + [all[i]];
        b := Low(2 * b, 32);
      }
      assert all[..numbits] == all;
    }

    /** `flush`: ones fill the last byte. */
    method Flush()
      requires Valid()
      modifies this
      ensures Valid() && waiting == []
      ensures Stream() == old(Stream()) + Ones(if old(bytebitcounter) == 0 then 0 else 8 - old(bytebitcounter))
    {
      hide Stuffed, AllBits, Pending, Val, Bits;
      if bytebitcounter == 0 {
        return;
      }
      ghost var stream, n := Stream(), 8 - bytebitcounter;
      while bytebitcounter != 8
        invariant bytebitcounter == |waiting| <= 8 && out == Stuffed(bytes) && Pending(waiting, outbyte)
        invariant bytebitcounter == 8 ==> Bits(outbyte, 8) == waiting
        invariant Stream() == stream + Ones(n - (8 - bytebitcounter))
        decreases 8 - bytebitcounter
      {
        ghost var b := outbyte;
        PushBit(true);
        PendingPush(waiting, b, true, outbyte);
        ghost var before := Stream();
        waiting := waiting + [true];
        assert Stream() == before + [true];
        assert Ones(n - (8 - bytebitcounter)) == Ones(n - (8 - bytebitcounter) - 1) + [true];
      }
      StuffedSnoc(bytes, outbyte);
      AllBitsSnoc(bytes, outbyte);
      bytes, waiting := bytes + [outbyte], [];
      WriteByte();
      bytebitcounter := 0;
      NothingPending(outbyte);
    }
  }

  /** One call of `write`. */
  datatype Code = Code(numbits: nat, bits: int) {
    predicate Ok() { 1 <= numbits <= 32 && 0 <= bits < 0x1_0000_0000 }
  }

  function AllPushed(codes: seq<Code>): seq<bool> {
    if codes == [] then []
    else
      var last := codes[|codes| - 1];
      AllPushed(codes[..|codes| - 1]) + Bits(last.bits, last.numbits)
  }

  lemma NothingPushed()
    ensures AllPushed([]) == []
  {
  }

  lemma PushedSnoc(codes: seq<Code>, i: nat)
    requires i < |codes|
    ensures AllPushed(codes[..i + 1]) == AllPushed(codes[..i]) + Bits(codes[i].bits, codes[i].numbits)
  {
    assert codes[..i + 1][..i] == codes[..i];
  }

  lemma {:induction false} WholeBytes(bytes: seq<Byte>)
    ensures |AllBits(bytes)| % 8 == 0
  {
    hide Bits;
    if bytes != [] { WholeBytes(bytes[..|bytes| - 1]); }
  }

  /** How many bits the last byte still has room for. */
  lemma Room(bytes: seq<Byte>, waiting: seq<bool>)
    requires |waiting| < 8
    ensures -|AllBits(bytes) + waiting| % 8 == if |waiting| == 0 then 0 else 8 - |waiting|
  {
    hide AllBits;
    WholeBytes(bytes);
  }

  /** Any sequence of codes and a flush: a decoder finds the codes' bits, then fewer than eight ones, and no marker. */
  method Encode(codes: seq<Code>) returns (out: seq<Byte>)
    requires forall i :: 0 <= i < |codes| ==> codes[i].Ok()
    ensures AllBits(Unstuffed(out)) == AllPushed(codes) + Ones(-|AllPushed(codes)| % 8)
    ensures forall i :: 0 <= i < |out| && out[i] == 0xFF ==> i + 1 < |out| && out[i + 1] == 0
  {
    hide AllBits, Stuffed, Unstuffed, Bits, Pending, Ones, AllPushed;
    var f := new JpegFile();
    NothingPushed();
    for i := 0 to |codes|
      invariant f.Valid() && fresh(f) && f.Stream() == AllPushed(codes[..i])
    {
      f.Write(codes[i].numbits, codes[i].bits);
      PushedSnoc(codes, i);
    }
    assert codes[..|codes|] == codes;
    Room(f.bytes, f.waiting);
    f.Flush();
    out := f.out;
    UnstuffedStuffed(f.bytes);
    assert f.Stream() == AllBits(f.bytes);
    forall i | 0 <= i < |out| && out[i] == 0xFF ensures i + 1 < |out| && out[i + 1] == 0 {
      NoMarkers(f.bytes, i);
    }
  }
}
