/** The bit stream of dataview/asn1crt_encoding.c: a buffer and a cursor of a byte and a bit index.
    Its meaning is the sequence of bits before the cursor; the encoders count on every bit from the
    cursor on being zero, which `Zeroed` names. */
module BitStreams {
  import opened Bits
  import opened BitSequences

  /** x' is x after piece has been appended at pos: the bits before pos are kept, piece follows, the
      rest is untouched, so that a zero tail stays a zero tail. */
  ghost predicate Extends(x: seq<bool>, x': seq<bool>, pos: nat, piece: seq<bool>) {
    && Overwrites(x, x', pos, piece)
    && x'[..pos + |piece|] == x[..pos] + piece
    && (ZeroFrom(x, pos) ==> ZeroFrom(x', pos + |piece|))
  }

  ghost predicate ZeroFrom(x: seq<bool>, pos: nat) {
    pos <= |x| && x[pos..] == Zeros(|x| - pos)
  }

  class BitStream {
    const buf: array<bv8>
    const count: nat
    var currentByte: nat
    var currentBit: nat

    ghost predicate Valid()
      reads this
    {
      currentBit < 8 && count <= buf.Length && Pos() <= 8 * count
    }

    function Pos(): nat
      reads this
    {
      8 * currentByte + currentBit
    }

    /** All bits of the buffer. */
    ghost function Bits(): (r: seq<bool>)
      reads this, buf
      requires Valid()
      ensures |r| == 8 * count
    {
      BitsOf(buf[..count])
    }

    /** The bits before the cursor. */
    ghost function Written(): (r: seq<bool>)
      reads this, buf
      requires Valid()
      ensures |r| == Pos()
    {
      Bits()[..Pos()]
    }

    ghost predicate Zeroed()
      reads this, buf
      requires Valid()
    {
      ZeroFrom(Bits(), Pos())
    }

    ghost predicate HasRoom(n: nat)
      reads this
    {
      Pos() + n <= 8 * count
    }

    constructor AttachBuffer(buf: array<bv8>, count: nat)
      requires count <= buf.Length
      ensures this.buf == buf && this.count == count && Valid() && Pos() == 0
    {
      this.buf, this.count := buf, count;
      currentByte, currentBit := 0, 0;
    }

    /** AttachBuffer on a cleared buffer. */
    constructor Init(buf: array<bv8>, count: nat)
      requires count <= buf.Length
      modifies buf
      ensures this.buf == buf && this.count == count && Valid() && Pos() == 0 && Zeroed()
      ensures forall j | 0 <= j < count :: buf[j] == 0
      ensures forall j | count <= j < buf.Length :: buf[j] == old(buf[j])
    {
      this.buf, this.count := buf, count;
      currentByte, currentBit := 0, 0;
      new;
      forall j | 0 <= j < count { buf[j] := 0; }
      ZeroBuffer(buf[..count]);
      assert Bits()[0..] == Bits();
    }

    // ---------- writing ----------

    /** Only moves the cursor: what it appends is whatever the buffer holds. Past the end of the
        buffer the byte index restarts, as in streaming mode. */
    method AppendNBitZero(nbits: nat)
      requires Valid()
      modifies this
      ensures currentBit == old(Pos() + nbits) % 8
      ensures old(currentByte + (currentBit + nbits) / 8) > count ==> currentByte == old(currentByte + (currentBit + nbits) / 8) - count
      ensures old(HasRoom(nbits)) ==> Valid() && Pos() == old(Pos()) + nbits && Bits() == old(Bits())
      ensures old(HasRoom(nbits) && Zeroed()) ==> Extends(old(Bits()), Bits(), old(Pos()), Zeros(nbits))
    {
      hide BitsOf, Extends, ZeroFrom, Zeros;
      var totalBits := currentBit + nbits;
      var totalBytes := totalBits / 8;
      ghost var x, p := Bits(), Pos();
      currentBit := totalBits % 8;
      if currentByte + totalBytes <= count {
        currentByte := currentByte + totalBytes;
      } else {
        var extraBytes := currentByte + totalBytes - count;
        currentByte := count;
        currentByte := extraBytes;
      }
      if p + nbits <= 8 * count && ZeroFrom(x, p) { ZerosExtend(x, p, nbits); }
    }

    method AppendBit(v: bool)
      requires Valid() && HasRoom(1)
      modifies this, buf
      ensures Valid() && Pos() == old(Pos()) + 1
      ensures Extends(old(Bits()), Bits(), old(Pos()), [v])
    {
      hide And, Or, Not, Mask, BitsOf, Extends;
      ghost var s := buf[..count];
      if v {
        buf[currentByte] := Or(buf[currentByte], Mask(currentBit));
      } else {
        var nmask := Not(Mask(currentBit));
        buf[currentByte] := And(buf[currentByte], nmask);
      }
      BitEffect(s, buf[..count], currentByte, currentBit, v);
      if currentBit < 7 {
        currentBit := currentBit + 1;
      } else {
        currentBit := 0;
        currentByte := currentByte + 1;
      }
    }

    method AppendByte(v: bv8, negate: bool)
      requires Valid() && HasRoom(8)
      modifies this, buf
      ensures Valid() && Pos() == old(Pos()) + 8
      ensures Extends(old(Bits()), Bits(), old(Pos()), ByteBits(if negate then Not(v) else v))
    {
      hide And, Or, Not, Shr, Shl, MaskB, ByteBits, BitsOf, Extends;
      ghost var s := buf[..count];
      var cb := currentBit;
      var ncb := 8 - cb;
      var v := if negate then Not(v) else v;
      var mask := Not(MaskB(ncb));
      buf[currentByte] := Or(And(buf[currentByte], mask), Shr(v, cb));
      currentByte := currentByte + 1;
      if cb != 0 {
        mask := Not(mask);
        NotNot(MaskB(ncb));
        buf[currentByte] := Or(And(buf[currentByte], mask), Shl(v, ncb));
      }
      ByteEffect(s, buf[..count], currentByte - 1, cb, v);
    }

    /** AppendByte with a check before the second byte. */
    method AppendByte0(v: bv8) returns (ok: bool)
      requires Valid() && currentByte < count
      modifies this, buf
      ensures ok == old(HasRoom(8))
      ensures ok ==> Valid() && Pos() == old(Pos()) + 8 && Extends(old(Bits()), Bits(), old(Pos()), ByteBits(v))
    {
      hide And, Or, Not, Shr, Shl, MaskB, ByteBits, BitsOf, Extends;
      ghost var s := buf[..count];
      var cb := currentBit;
      var ncb := 8 - cb;
      var mask := Not(MaskB(ncb));
      buf[currentByte] := Or(And(buf[currentByte], mask), Shr(v, cb));
      currentByte := currentByte + 1;
      if cb != 0 {
        if currentByte >= count {
          return false;
        }
        mask := Not(mask);
        NotNot(MaskB(ncb));
        buf[currentByte] := Or(And(buf[currentByte], mask), Shl(v, ncb));
      }
      ByteEffect(s, buf[..count], currentByte - 1, cb, v);
      ok := true;
    }

    /** Appends the nbits low bits of v. Across a byte boundary the old bits of the second byte are
        kept in the written positions, so there the tail must be zero. */
    method AppendPartialByte(v: bv8, nbits: nat, negate: bool)
      requires Valid() && 1 <= nbits <= 7 && HasRoom(nbits)
      requires currentBit + nbits > 8 ==> Zeroed()
      requires negate || forall k | 0 <= k < 8 - nbits :: !BitAt(v, k)
      modifies this, buf
      ensures Valid() && Pos() == old(Pos()) + nbits
      ensures Extends(old(Bits()), Bits(), old(Pos()), LowBits(if negate then And(MaskB(nbits), Not(v)) else v, nbits))
    {
      hide And, Or, Not, Shr, Shl, MaskB, BitsOf, Extends, BitAt, LowBits;
      var v' := if negate then And(MaskB(nbits), Not(v)) else v;
      if negate { MaskedHighBits(v, nbits); }
      if currentBit + nbits <= 8 {
        StorePartial(v', nbits);
      } else {
        StoreSplit(v', nbits);
      }
    }

    /** AppendPartialByte inside a byte */
    method StorePartial(v: bv8, nbits: nat)
      requires Valid() && 1 <= nbits && currentBit + nbits <= 8 && HasRoom(nbits)
      requires forall k | 0 <= k < 8 - nbits :: !BitAt(v, k)
      modifies this, buf
      ensures Valid() && Pos() == old(Pos()) + nbits
      ensures Extends(old(Bits()), Bits(), old(Pos()), LowBits(v, nbits))
    {
      hide And, Or, Not, Shr, Shl, MaskB, BitsOf, Extends, BitAt, LowBits;
      ghost var s := buf[..count];
      var mask1, mask2 := Not(MaskB(8 - currentBit)), MaskB(8 - currentBit - nbits);
      buf[currentByte] := Or(And(buf[currentByte], Or(mask1, mask2)), Shl(v, 8 - currentBit - nbits));
      PartialEffect(s, buf[..count], currentByte, currentBit, v, nbits);
      currentBit := currentBit + nbits;
      if currentBit == 8 {
        currentBit := 0;
        currentByte := currentByte + 1;
      }
    }

    /** AppendPartialByte across a byte boundary */
    method StoreSplit(v: bv8, nbits: nat)
      requires Valid() && nbits <= 7 && currentBit + nbits > 8 && HasRoom(nbits) && Zeroed()
      requires forall k | 0 <= k < 8 - nbits :: !BitAt(v, k)
      modifies this, buf
      ensures Valid() && Pos() == old(Pos()) + nbits
      ensures Extends(old(Bits()), Bits(), old(Pos()), LowBits(v, nbits))
    {
      hide And, Or, Not, Shr, Shl, MaskB, BitsOf, Extends, BitAt, LowBits, ZeroFrom;
      ghost var s := buf[..count];
      var cb, rest := currentBit, currentBit + nbits - 8;
      buf[currentByte] := Or(And(buf[currentByte], Not(MaskB(8 - cb))), Shr(v, rest));
      currentByte := currentByte + 1;
      buf[currentByte] := Or(And(buf[currentByte], Not(MaskB(8 - rest))), Shl(v, 8 - rest));
      PartialSplitEffect(s, buf[..count], currentByte - 1, cb, v, nbits);
      currentBit := rest;
    }

    /** The first byte of an array: the byte after it is masked even when the cursor is on a byte
        boundary, where that changes nothing. */
    method StoreFirst(v: bv8)
      requires Valid() && HasRoom(8) && (currentBit == 0 ==> currentByte + 1 < buf.Length)
      modifies this, buf
      ensures Valid() && Pos() == old(Pos()) + 8 && currentBit == old(currentBit)
      ensures Extends(old(Bits()), Bits(), old(Pos()), ByteBits(v))
    {
      hide And, Or, Not, Shr, Shl, MaskB, ByteBits, BitsOf, Extends;
      ghost var s := buf[..count];
      var cb := currentBit;
      var ncb := 8 - cb;
      var mask := Not(MaskB(ncb));
      var nmask := Not(mask);
      NotNot(MaskB(ncb)); FullMask(buf[currentByte + 1]); ShlEight(v);
      buf[currentByte] := Or(And(buf[currentByte], mask), Shr(v, cb));
      currentByte := currentByte + 1;
      buf[currentByte] := Or(And(buf[currentByte], nmask), Shl(v, ncb));
      ByteEffect(s, buf[..count], currentByte - 1, cb, v);
    }

    /** A byte in the middle of an array, written by OR alone. */
    method StoreMiddle(v: bv8)
      requires Valid() && HasRoom(8) && currentByte + 1 < count && Zeroed()
      modifies this, buf
      ensures Valid() && Pos() == old(Pos()) + 8 && currentBit == old(currentBit)
      ensures Extends(old(Bits()), Bits(), old(Pos()), ByteBits(v))
    {
      hide And, Or, Not, Shr, Shl, MaskB, ByteBits, BitsOf, Extends, ZeroFrom;
      ghost var s := buf[..count];
      var v1 := Shr(v, currentBit);
      var v2 := Shl(v, 8 - currentBit);
      buf[currentByte] := Or(buf[currentByte], v1);
      currentByte := currentByte + 1;
      buf[currentByte] := Or(buf[currentByte], v2);
      OrByteEffect(s, buf[..count], currentByte - 1, currentBit, v);
    }

    /** The last byte of an array. */
    method StoreLast(v: bv8)
      requires Valid() && HasRoom(8)
      modifies this, buf
      ensures Valid() && Pos() == old(Pos()) + 8 && currentBit == old(currentBit)
      ensures Extends(old(Bits()), Bits(), old(Pos()), ByteBits(v))
    {
      hide And, Or, Not, Shr, Shl, MaskB, ByteBits, BitsOf, Extends;
      ghost var s := buf[..count];
      var cb := currentBit;
      var mask := Not(MaskB(8 - cb));
      var nmask := Not(mask);
      NotNot(MaskB(8 - cb));
      buf[currentByte] := Or(And(buf[currentByte], mask), Shr(v, cb));
      currentByte := currentByte + 1;
      if cb != 0 {
        buf[currentByte] := Or(And(buf[currentByte], nmask), Shl(v, 8 - cb));
      }
      ByteEffect(s, buf[..count], currentByte - 1, cb, v);
    }

    /** The inner loop only ORs, so with three bytes or more the tail must be zero. One capacity check
        at entry covers every access. */
    method AppendByteArray(arr: seq<bv8>) returns (ok: bool)
      requires Valid()
      requires |arr| > 2 ==> Zeroed()
      requires currentBit == 0 && |arr| == 1 ==> currentByte + 1 < buf.Length
      modifies this, buf
      ensures ok == old(HasRoom(8 * |arr|))
      ensures ok ==> Valid() && Pos() == old(Pos()) + 8 * |arr| && Extends(old(Bits()), Bits(), old(Pos()), BitsOf(arr))
      ensures !ok ==> currentByte == old(currentByte) && currentBit == old(currentBit) && buf[..] == old(buf[..])
    {
      hide ByteBits, BitsOf, Extends, ZeroFrom;
      if (currentByte + |arr|) * 8 + currentBit > count * 8 {
        return false;
      }
      ghost var x, p := Bits(), Pos();
      NothingExtends(x, p);
      if |arr| > 0 {
        StoreFirst(arr[0]);
        NextByte(x, x, Bits(), p, arr, 0);
      }
      var i := 1;
      while i < |arr| - 1
        invariant |arr| > 0 ==> 1 <= i && (i == 1 || i < |arr|)
        invariant Valid() && Pos() == p + 8 * (if |arr| == 0 then 0 else i)
        invariant Extends(x, Bits(), p, BitsOf(if |arr| == 0 then [] else arr[..i]))
      {
        ghost var x1 := Bits();
        ZeroAfter(x, x1, p, BitsOf(arr[..i]));
        StoreMiddle(arr[i]);
        NextByte(x, x1, Bits(), p, arr, i);
        i := i + 1;
      }
      if |arr| - 1 > 0 {
        ghost var x1 := Bits();
        StoreLast(arr[|arr| - 1]);
        NextByte(x, x1, Bits(), p, arr, |arr| - 1);
      }
      assert arr[..|arr|] == arr && (|arr| == 0 ==> arr == []);
      ok := true;
    }

    /** Octets without a length: a copy on a byte boundary, shifted bytes otherwise. */
    method EncodeOctetString_no_length(arr: seq<bv8>) returns (ok: bool)
      requires Valid()
      requires |arr| > 2 ==> Zeroed()
      modifies this, buf
      ensures ok == old(HasRoom(8 * |arr|))
      ensures ok ==> Valid() && Pos() == old(Pos()) + 8 * |arr| && Extends(old(Bits()), Bits(), old(Pos()), BitsOf(arr))
      ensures ok && old(Zeroed()) ==> Zeroed() && Written() == old(Written()) + BitsOf(arr)
      ensures !ok ==> currentByte == old(currentByte) && currentBit == old(currentBit) && buf[..] == old(buf[..])
    {
      hide BitsOf, Extends, ZeroFrom;
      var cb := currentBit;
      ghost var x, p := Bits(), Pos();
      if cb == 0 {
        ok := currentByte + |arr| <= count;
        if ok {
          ghost var s := buf[..count];
          forall j | 0 <= j < |arr| { buf[currentByte + j] := arr[j]; }
          CopyEffect(s, buf[..count], currentByte, arr);
          currentByte := currentByte + |arr|;
        }
      } else {
        ok := AppendByteArray(arr);
      }
      if ok { ExtendsWritten(x, Bits(), p, BitsOf(arr)); }
    }

    /** Appends the first nbits bits of src. */
    method AppendBits(src: seq<bv8>, nbits: nat)
      requires Valid() && Zeroed() && HasRoom(nbits) && nbits <= 8 * |src|
      modifies this, buf
      ensures Valid() && Pos() == old(Pos()) + nbits
      ensures Extends(old(Bits()), Bits(), old(Pos()), BitsOf(src)[..nbits])
      ensures Zeroed() && Written() == old(Written()) + BitsOf(src)[..nbits]
    {
      hide BitsOf, Extends, Shr, LowBits, BitAt, ZeroFrom;
      var bytesToEncode := nbits / 8;
      var remainingBits := nbits % 8;
      ghost var x, p := Bits(), Pos();
      var _ := EncodeOctetString_no_length(src[..bytesToEncode]);
      if remainingBits > 0 {
        var lastByte := Shr(src[bytesToEncode], 8 - remainingBits);
        ShrBits(src[bytesToEncode], 8 - remainingBits);
        ZeroAfter(x, Bits(), p, BitsOf(src[..bytesToEncode]));
        ghost var x1 := Bits();
        AppendPartialByte(lastByte, remainingBits, false);
        ExtendsThen(x, x1, Bits(), p, BitsOf(src[..bytesToEncode]), LowBits(lastByte, remainingBits));
      }
      FirstBits(src, nbits);
      ExtendsWritten(x, Bits(), p, BitsOf(src)[..nbits]);
    }

    // ---------- reading ----------

    method ReadBit() returns (ok: bool, v: bool)
      requires Valid() && currentByte < buf.Length
      modifies this
      ensures ok == old(HasRoom(1))
      ensures ok ==> Valid() && Pos() == old(Pos()) + 1 && Bits() == old(Bits()) && v == Bits()[old(Pos())]
    {
      hide BitAt, BitsOf;
      v := BitAt(buf[currentByte], currentBit);
      if currentByte < count { BitOf(buf[..count], currentByte, currentBit); }
      if currentBit < 7 {
        currentBit := currentBit + 1;
      } else {
        currentBit := 0;
        currentByte := currentByte + 1;
      }
      ok := currentByte * 8 + currentBit <= count * 8;
    }

    method ReadByte() returns (ok: bool, v: bv8)
      requires Valid()
      modifies this
      ensures ok == old(HasRoom(8))
      ensures ok ==> Valid() && Pos() == old(Pos()) + 8 && Bits() == old(Bits()) && ByteBits(v) == Bits()[old(Pos())..Pos()]
      ensures !ok ==> Pos() == old(Pos())
    {
      hide And, Or, Not, Shr, Shl, MaskB, ByteBits, BitsOf;
      var cb := currentBit;
      var requiredBytes := if cb > 0 then 2 else 1;
      var availableBytes := count - currentByte;
      v := 0;
      if availableBytes < requiredBytes {
        return false, v;
      }
      ghost var b0 := buf[currentByte];
      v := Shl(buf[currentByte], cb);
      currentByte := currentByte + 1;
      if cb > 0 {
        var ncb := 8 - cb;
        v := Or(v, Shr(buf[currentByte], ncb));
      }
      ShlEight(b0);
      ByteSlice(buf[..count], currentByte - 1, cb, v);
      ok := true;
    }

    /** Reads 1 to 7 bits. The buffer is read before the end of the stream is checked. */
    method ReadPartialByte(nbits: nat) returns (ok: bool, v: bv8)
      requires Valid() && 1 <= nbits <= 7 && Pos() + nbits <= 8 * buf.Length
      modifies this
      ensures ok == old(HasRoom(nbits))
      ensures ok ==> Valid() && Pos() == old(Pos()) + nbits && Bits() == old(Bits()) && LowBits(v, nbits) == Bits()[old(Pos())..Pos()]
      ensures forall k | 0 <= k < 8 - nbits :: !BitAt(v, k)
    {
      hide And, Or, Not, Shr, Shl, MaskB, BitsOf, BitAt, LowBits;
      var cb := currentBit;
      var totalBits := cb + nbits;
      if totalBits <= 8 {
        v := And(Shr(buf[currentByte], 8 - totalBits), MaskB(nbits));
        PartialRead(buf[currentByte], cb, nbits, v);
        if totalBits <= 8 && currentByte < count {
          PartialSlice(buf[..count], currentByte, cb, nbits, v);
        }
        currentBit := currentBit + nbits;
        if currentBit == 8 {
          currentBit := 0;
          currentByte := currentByte + 1;
        }
      } else {
        var totalBitsForNextByte := totalBits - 8;
        ghost var b0 := buf[currentByte];
        v := Shl(buf[currentByte], totalBitsForNextByte);
        currentByte := currentByte + 1;
        v := Or(v, Shr(buf[currentByte], 8 - totalBitsForNextByte));
        v := And(v, MaskB(nbits));
        PartialSplitRead(b0, buf[currentByte], cb, nbits, v);
        if currentByte < count {
          PartialSlice(buf[..count], currentByte - 1, cb, nbits, v);
        }
        currentBit := totalBitsForNextByte;
      }
      ok := currentByte * 8 + currentBit <= count * 8;
    }

    /** Each byte read combines two bytes of the buffer, so on a byte boundary the byte after the last
        one is read too. */
    method ReadByteArray(n: nat) returns (ok: bool, arr: seq<bv8>)
      requires Valid()
      requires currentBit == 0 ==> currentByte + n < buf.Length
      modifies this
      ensures ok == old(HasRoom(8 * n))
      ensures ok ==> Valid() && Pos() == old(Pos()) + 8 * n && Bits() == old(Bits()) && |arr| == n && BitsOf(arr) == Bits()[old(Pos())..Pos()]
      ensures !ok ==> Pos() == old(Pos())
    {
      hide And, Or, Not, Shr, Shl, MaskB, ByteBits, BitsOf, Mask, BitAt;
      var cb := currentBit;
      var ncb := 8 - cb;
      var rb := currentByte;
      arr := [];
      if (currentByte + n) * 8 + cb > count * 8 {
        return false, arr;
      }
      EmptyBits(Bits()[Pos()..Pos()]);
      for i := 0 to n
        invariant currentByte == old(currentByte) && currentBit == cb && rb == currentByte + i && |arr| == i
        invariant BitsOf(arr) == Bits()[Pos()..Pos() + 8 * i]
      {
        var w := Shl(buf[rb], cb);
        ghost var b0 := buf[rb];
        rb := rb + 1;
        w := Or(w, Shr(buf[rb], ncb));
        ShlEight(b0); ShlEight(buf[rb]); FullMask(b0);
        ByteSlice(buf[..count], rb - 1, cb, w);
        NextSlice(Bits(), Pos(), arr, w);
        arr := arr + [w];
      }
      currentByte := currentByte + n;
      ok := true;
    }

    method DecodeOctetString_no_length(n: nat) returns (ok: bool, arr: seq<bv8>)
      requires Valid()
      modifies this
      ensures ok == old(HasRoom(8 * n))
      ensures ok ==> Valid() && Pos() == old(Pos()) + 8 * n && Bits() == old(Bits()) && |arr| == n && BitsOf(arr) == Bits()[old(Pos())..Pos()]
      ensures !ok ==> Pos() == old(Pos())
    {
      hide BitsOf;
      var cb := currentBit;
      arr := [];
      if cb == 0 {
        ok := currentByte + n <= count;
        if ok {
          arr := buf[..count][currentByte..currentByte + n];
          BitsOfSlice(buf[..count], currentByte, currentByte + n);
          currentByte := currentByte + n;
        }
      } else {
        ok, arr := ReadByteArray(n);
      }
    }
  }

  /** The effect of an append on the written bits and on a zero tail. */
  lemma ExtendsWritten(x: seq<bool>, x': seq<bool>, pos: nat, piece: seq<bool>)
    requires Extends(x, x', pos, piece)
    ensures x'[..pos + |piece|] == x[..pos] + piece
    ensures ZeroFrom(x, pos) ==> ZeroFrom(x', pos + |piece|)
  {}

  /** What AppendByteArray wrote at any bit offset, ReadByteArray reads back. */
  lemma ByteArrayReadsBack(x: seq<bool>, x': seq<bool>, pos: nat, arr: seq<bv8>, got: seq<bv8>)
    requires Extends(x, x', pos, BitsOf(arr)) && |got| == |arr|
    requires pos + 8 * |arr| <= |x'| && BitsOf(got) == x'[pos..pos + 8 * |arr|]
    ensures got == arr
  {
    hide BitsOf;
    BitsOfIsInjective(got, arr);
  }

  lemma ZeroBuffer(s: seq<bv8>)
    requires forall j | 0 <= j < |s| :: s[j] == 0
    ensures BitsOf(s) == Zeros(8 * |s|)
  {
    forall i | 0 <= i < 8 * |s| ensures !BitsOf(s)[i] {
      assert s[i / 8] == 0;
    }
  }

  lemma ZerosExtend(x: seq<bool>, pos: nat, n: nat)
    requires pos + n <= |x| && ZeroFrom(x, pos)
    ensures Extends(x, x, pos, Zeros(n))
  {
    assert forall i | pos <= i < |x| :: x[i] == x[pos..][i - pos];
    assert x[pos + n..] == Zeros(|x| - pos - n);
  }

  lemma Overwritten(x: seq<bool>, x': seq<bool>, pos: nat, piece: seq<bool>)
    requires Overwrites(x, x', pos, piece)
    ensures Extends(x, x', pos, piece)
  {
    if ZeroFrom(x, pos) {
      assert forall i | pos <= i < |x| :: x[i] == x[pos..][i - pos];
    }
  }

  lemma ExtendsThen(x: seq<bool>, x1: seq<bool>, x2: seq<bool>, pos: nat, a: seq<bool>, b: seq<bool>)
    requires Extends(x, x1, pos, a) && Extends(x1, x2, pos + |a|, b)
    ensures Extends(x, x2, pos, a + b)
  {}

  /** A byte that lies wholly in a zero tail is zero. */
  lemma ZeroByte(s: seq<bv8>, pos: nat, j: nat, k: nat)
    requires pos <= 8 * j + k < 8 * |s| && k < 8
    requires ZeroFrom(BitsOf(s), pos)
    ensures !BitAt(s[j], k)
  {
    hide BitAt;
    assert BitsOf(s)[8 * j + k] == BitAt(s[j], k);
    assert BitsOf(s)[pos..][8 * j + k - pos] == BitsOf(s)[8 * j + k];
  }

  /** s' agrees with s outside bytes cur and, where a write crosses the boundary, cur + 1. */
  ghost predicate SameElsewhere(s: seq<bv8>, s': seq<bv8>, cur: nat, crosses: bool) {
    && |s'| == |s|
    && cur < |s|
    && (crosses ==> cur + 1 < |s|)
    && forall j | 0 <= j < |s| && j != cur && !(crosses && j == cur + 1) :: s'[j] == s[j]
  }

  lemma BitEffect(s: seq<bv8>, s': seq<bv8>, cur: nat, cb: nat, v: bool)
    requires cb < 8 && SameElsewhere(s, s', cur, false)
    requires s'[cur] == if v then Or(s[cur], Mask(cb)) else And(s[cur], Not(Mask(cb)))
    ensures Extends(BitsOf(s), BitsOf(s'), 8 * cur + cb, [v])
  {
    hide And, Or, Not, Mask, BitAt, LowBits, BitsOf, Overwrites, Extends;
    BitWrite(s[cur], cb, v, s'[cur]);
    WriteBits(s, s', cur, cb, [v]);
    Overwritten(BitsOf(s), BitsOf(s'), 8 * cur + cb, [v]);
  }

  lemma ByteEffect(s: seq<bv8>, s': seq<bv8>, cur: nat, cb: nat, v: bv8)
    requires cb < 8 && SameElsewhere(s, s', cur, cb > 0)
    requires s'[cur] == Or(And(s[cur], Not(MaskB(8 - cb))), Shr(v, cb))
    requires cb > 0 ==> s'[cur + 1] == Or(And(s[cur + 1], MaskB(8 - cb)), Shl(v, 8 - cb))
    ensures Extends(BitsOf(s), BitsOf(s'), 8 * cur + cb, ByteBits(v))
  {
    hide And, Or, Not, Shr, Shl, MaskB, BitAt, LowBits, BitsOf, Overwrites, Extends;
    HeadWrite(s[cur], v, cb, s'[cur]);
    if cb > 0 { TailWrite(s[cur + 1], v, cb, s'[cur + 1]); }
    WriteBits(s, s', cur, cb, ByteBits(v));
    Overwritten(BitsOf(s), BitsOf(s'), 8 * cur + cb, ByteBits(v));
  }

  lemma MaskedHighBits(v: bv8, n: nat)
    requires n <= 8
    ensures forall k | 0 <= k < 8 - n :: !BitAt(And(MaskB(n), Not(v)), k)
  {
    hide *;
    AndBits(MaskB(n), Not(v)); MaskBBits(n);
  }

  lemma PartialEffect(s: seq<bv8>, s': seq<bv8>, cur: nat, cb: nat, v: bv8, n: nat)
    requires 1 <= n && cb + n <= 8 && SameElsewhere(s, s', cur, false)
    requires forall k | 0 <= k < 8 - n :: !BitAt(v, k)
    requires s'[cur] == Or(And(s[cur], Or(Not(MaskB(8 - cb)), MaskB(8 - cb - n))), Shl(v, 8 - cb - n))
    ensures Extends(BitsOf(s), BitsOf(s'), 8 * cur + cb, LowBits(v, n))
  {
    hide And, Or, Not, Shr, Shl, MaskB, BitAt, LowBits, BitsOf, Overwrites, Extends;
    PartialWrite(s[cur], v, cb, n, s'[cur]);
    WriteBits(s, s', cur, cb, LowBits(v, n));
    Overwritten(BitsOf(s), BitsOf(s'), 8 * cur + cb, LowBits(v, n));
  }

  lemma PartialSplitEffect(s: seq<bv8>, s': seq<bv8>, cur: nat, cb: nat, v: bv8, n: nat)
    requires cb < 8 && 1 <= n < 8 && 8 < cb + n && SameElsewhere(s, s', cur, true)
    requires forall k | 0 <= k < 8 - n :: !BitAt(v, k)
    requires ZeroFrom(BitsOf(s), 8 * cur + cb)
    requires s'[cur] == Or(And(s[cur], Not(MaskB(8 - cb))), Shr(v, cb + n - 8))
    requires s'[cur + 1] == Or(And(s[cur + 1], Not(MaskB(16 - cb - n))), Shl(v, 16 - cb - n))
    ensures Extends(BitsOf(s), BitsOf(s'), 8 * cur + cb, LowBits(v, n))
  {
    hide And, Or, Not, Shr, Shl, MaskB, BitAt, LowBits, BitsOf, Overwrites, Extends, ZeroFrom;
    var b := s[cur + 1];
    PartialHeadWrite(s[cur], v, cb, n, s'[cur]);
    forall k | 0 <= k < 8 ensures !BitAt(b, k) { ZeroByte(s, 8 * cur + cb, cur + 1, k); }
    PartialTailWrite(b, v, cb + n - 8, n, s'[cur + 1]);
    WriteBits(s, s', cur, cb, LowBits(v, n));
    Overwritten(BitsOf(s), BitsOf(s'), 8 * cur + cb, LowBits(v, n));
  }

  /** The inner loop of AppendByteArray: an OR into a zero tail. */
  lemma OrByteEffect(s: seq<bv8>, s': seq<bv8>, cur: nat, cb: nat, v: bv8)
    requires cb < 8 && SameElsewhere(s, s', cur, true)
    requires ZeroFrom(BitsOf(s), 8 * cur + cb)
    requires s'[cur] == Or(s[cur], Shr(v, cb)) && s'[cur + 1] == Or(s[cur + 1], Shl(v, 8 - cb))
    ensures Extends(BitsOf(s), BitsOf(s'), 8 * cur + cb, ByteBits(v))
  {
    hide And, Or, Not, Shr, Shl, MaskB, BitAt, LowBits, BitsOf, Overwrites, Extends, ZeroFrom;
    var b, b' := s[cur], s[cur + 1];
    forall k | cb <= k < 8 ensures !BitAt(b, k) { ZeroByte(s, 8 * cur + cb, cur, k); }
    forall k | 0 <= k < 8 ensures !BitAt(b', k) { ZeroByte(s, 8 * cur + cb, cur + 1, k); }
    OrHeadWrite(b, v, cb, s'[cur]);
    OrTailWrite(b', v, cb, s'[cur + 1]);
    if cb == 0 { SameBits(s'[cur + 1], b'); }
    WriteBits(s, s', cur, cb, ByteBits(v));
    Overwritten(BitsOf(s), BitsOf(s'), 8 * cur + cb, ByteBits(v));
  }

  lemma CopyEffect(s: seq<bv8>, s': seq<bv8>, cur: nat, arr: seq<bv8>)
    requires |s'| == |s| && cur + |arr| <= |s|
    requires forall j | 0 <= j < |s| :: s'[j] == if cur <= j < cur + |arr| then arr[j - cur] else s[j]
    ensures Extends(BitsOf(s), BitsOf(s'), 8 * cur, BitsOf(arr))
  {
    hide BitAt;
    forall i | 0 <= i < 8 * |s|
      ensures BitsOf(s')[i] == if 8 * cur <= i < 8 * cur + 8 * |arr| then BitsOf(arr)[i - 8 * cur] else BitsOf(s)[i]
    {
      assert (i - 8 * cur) / 8 == i / 8 - cur && (i - 8 * cur) % 8 == i % 8;
    }
    Overwritten(BitsOf(s), BitsOf(s'), 8 * cur, BitsOf(arr));
  }

  lemma NothingExtends(x: seq<bool>, pos: nat)
    requires pos <= |x|
    ensures Extends(x, x, pos, []) && BitsOf([]) == []
  {}

  lemma ZeroAfter(x: seq<bool>, x': seq<bool>, pos: nat, piece: seq<bool>)
    requires Extends(x, x', pos, piece) && ZeroFrom(x, pos)
    ensures ZeroFrom(x', pos + |piece|)
  {}

  /** One more byte of arr has been appended. */
  lemma NextByte(x: seq<bool>, x1: seq<bool>, x2: seq<bool>, pos: nat, arr: seq<bv8>, i: nat)
    requires i < |arr| && Extends(x, x1, pos, BitsOf(arr[..i])) && Extends(x1, x2, pos + 8 * i, ByteBits(arr[i]))
    ensures Extends(x, x2, pos, BitsOf(arr[..i + 1]))
  {
    hide BitsOf;
    ExtendsThen(x, x1, x2, pos, BitsOf(arr[..i]), ByteBits(arr[i]));
    BitsOfBytes(arr[..i], [arr[i]]); BitsOfByte(arr[i]);
    assert arr[..i + 1] == arr[..i] + [arr[i]];
  }

  lemma FirstBits(src: seq<bv8>, nbits: nat)
    requires nbits <= 8 * |src|
    ensures nbits % 8 == 0 ==> BitsOf(src)[..nbits] == BitsOf(src[..nbits / 8])
    ensures nbits % 8 > 0 ==> BitsOf(src)[..nbits] == BitsOf(src[..nbits / 8]) + LowBits(Shr(src[nbits / 8], 8 - nbits % 8), nbits % 8)
  {
    hide BitAt, Shr, BitsOf, LowBits;
    var n, r, x := nbits / 8, nbits % 8, BitsOf(src);
    BitsOfSlice(src, 0, n);
    assert src[0..n] == src[..n];
    if r > 0 {
      var c := Shr(src[n], 8 - r);
      ShrBits(src[n], 8 - r);
      forall k | 0 <= k < r ensures x[8 * n..nbits][k] == LowBits(c, r)[k] {
        LowBitAt(c, r, k); BitOf(src, n, k);
      }
      assert x[..nbits] == x[0..8 * n] + x[8 * n..nbits];
    }
  }

  lemma BitOf(s: seq<bv8>, j: nat, k: nat)
    requires j < |s| && k < 8
    ensures BitsOf(s)[8 * j + k] == BitAt(s[j], k)
  {
    hide BitAt;
  }

  lemma EmptyBits(x: seq<bool>)
    requires x == []
    ensures BitsOf([]) == x
  {}

  lemma ByteSlice(s: seq<bv8>, cur: nat, cb: nat, v: bv8)
    requires cb < 8 && cur < |s| && (cb > 0 ==> cur + 1 < |s|)
    requires v == if cb > 0 then Or(Shl(s[cur], cb), Shr(s[cur + 1], 8 - cb)) else s[cur]
    ensures ByteBits(v) == BitsOf(s)[8 * cur + cb..8 * cur + cb + 8]
  {
    hide *;
    forall k | 0 <= k < 8 ensures ByteBits(v)[k] == BitsOf(s)[8 * cur + cb..8 * cur + cb + 8][k] {
      ByteSliceAt(s, cur, cb, v, k);
    }
  }

  lemma ByteSliceAt(s: seq<bv8>, cur: nat, cb: nat, v: bv8, k: nat)
    requires k < 8 && cb < 8 && cur < |s| && (cb > 0 ==> cur + 1 < |s|)
    requires v == if cb > 0 then Or(Shl(s[cur], cb), Shr(s[cur + 1], 8 - cb)) else s[cur]
    ensures ByteBits(v)[k] == BitsOf(s)[8 * cur + cb + k]
  {
    hide *;
    assert ByteBits(v)[k] == BitAt(v, k) by { ByteBitAt(v, k); }
    if cb + k < 8 {
      assert BitAt(v, k) == BitAt(s[cur], cb + k) by { if cb > 0 { ByteRead(s[cur], s[cur + 1], cb, v); } }
      BitOf(s, cur, cb + k);
    } else {
      assert BitAt(v, k) == BitAt(s[cur + 1], cb + k - 8) by { ByteRead(s[cur], s[cur + 1], cb, v); }
      BitOf(s, cur + 1, cb + k - 8);
    }
  }

  lemma ByteBitAt(v: bv8, k: nat)
    requires k < 8
    ensures ByteBits(v)[k] == BitAt(v, k)
  {
    hide BitAt, LowBits;
    LowBitAt(v, 8, k);
  }

  lemma NextSlice(x: seq<bool>, pos: nat, arr: seq<bv8>, w: bv8)
    requires pos + 8 * |arr| + 8 <= |x| && BitsOf(arr) == x[pos..pos + 8 * |arr|]
    requires ByteBits(w) == x[pos + 8 * |arr|..pos + 8 * |arr| + 8]
    ensures BitsOf(arr + [w]) == x[pos..pos + 8 * (|arr| + 1)]
  {
    hide BitsOf, ByteBits;
    BitsOfBytes(arr, [w]); BitsOfByte(w);
  }

  lemma PartialSlice(s: seq<bv8>, cur: nat, cb: nat, n: nat, v: bv8)
    requires cb < 8 && 1 <= n < 8 && cur < |s| && (cb + n > 8 ==> cur + 1 < |s|)
    requires forall k | 0 <= k < 8 ::
      BitAt(v, k) == (k >= 8 - n && if k + cb + n < 16 then BitAt(s[cur], k + cb + n - 8) else BitAt(s[cur + 1], k + cb + n - 16))
    ensures LowBits(v, n) == BitsOf(s)[8 * cur + cb..8 * cur + cb + n]
  {
    hide *;
    forall k | 0 <= k < n ensures LowBits(v, n)[k] == BitsOf(s)[8 * cur + cb..8 * cur + cb + n][k] {
      PartialSliceAt(s, cur, cb, n, v, k);
    }
  }

  lemma PartialSliceAt(s: seq<bv8>, cur: nat, cb: nat, n: nat, v: bv8, k: nat)
    requires cb < 8 && k < n < 8 && cur < |s| && (cb + n > 8 ==> cur + 1 < |s|)
    requires BitAt(v, k + 8 - n) == if cb + k < 8 then BitAt(s[cur], cb + k) else BitAt(s[cur + 1], cb + k - 8)
    ensures LowBits(v, n)[k] == BitsOf(s)[8 * cur + cb + k]
  {
    hide *;
    LowBitAt(v, n, k);
    if cb + k < 8 { BitOf(s, cur, cb + k); } else { BitOf(s, cur + 1, cb + k - 8); }
  }

  /** On a byte boundary the written bits are whole bytes. */
  lemma WrittenBytes(s: BitStream)
    requires s.Valid() && s.Pos() % 8 == 0
    ensures s.currentByte <= s.buf.Length && BitsOf(s.buf[..s.currentByte]) == s.Written()
  {
    hide BitsOf;
    BitsOfSlice(s.buf[..s.count], 0, s.currentByte);
    assert s.buf[..s.count][0..s.currentByte] == s.buf[..s.currentByte];
  }
}
