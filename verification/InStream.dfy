/** pb_istream_t over a buffer and the primitive readers of pb_decode.c. Each reader delivers what
    the front of the remaining input denotes, and leaves position plus bytes_left where it was. */
module InStream {
  import opened Prelude
  import opened Varint
  import opened Wire
  import opened OutStream

  lemma {:induction false} GroupEndsAt(r: bytes, i: nat)
    requires i < |r| && r[i] < 128 && forall j :: 0 <= j < i ==> r[j] >= 128
    ensures GroupLen(r) == Some(i + 1)
  {
    GroupLenOf(r[..i + 1], r[i + 1..]);
    assert r == r[..i + 1] + r[i + 1..];
  }

  lemma {:induction false} GroupEndsAfter(r: bytes, i: nat)
    requires i <= |r| && forall j :: 0 <= j < i ==> r[j] >= 128
    ensures GroupLen(r).Some? ==> GroupLen(r).value > i
  {
  }

  lemma EvalSnoc(r: bytes, i: nat)
    requires i < |r|
    ensures Eval(r[..i + 1]) == Eval(r[..i]) + Pow128(i) * (r[i] % 128)
  {
    EvalSplit(r[..i + 1], i);
    assert r[..i + 1][..i] == r[..i] && r[..i + 1][i..] == [r[i]];
    assert Eval([r[i]]) == r[i] % 128 + 128 * Eval([r[i]][1..]);
  }

  /** What the 32-bit loop has accumulated after `i` bytes, none of them the last. */
  ghost predicate Accumulated32(r: bytes, i: nat, result: nat)
  {
    && 1 <= i <= |r| && i <= 10
    && (forall j :: 0 <= j < i ==> r[j] >= 128)
    && Fits32(r[..i])
    && result == Eval(r[..i]) % TWO_32
    && (i <= 4 ==> result == Eval(r[..i]) < Pow128(i))
    && (i >= 5 ==> (result >= TWO_31 <==> r[4] % 16 >= 8))
  }

  /** Is the byte at `i` acceptable after what has been read? (the loop's three tests) */
  predicate Step32Ok(r: bytes, i: nat, result: nat)
    requires 1 <= i < |r|
  {
    if i >= 5 then i < 10 && (r[i] % 128 == 0 || (result >= TWO_31 && r[i] == if i < 9 then 0xFF else 0x01))
    else if i == 4 then FifthOk(r[4])
    else true
  }

  /** The accumulator after an acceptable byte. */
  function Step32(r: bytes, i: nat, result: nat): nat
    requires 1 <= i < |r|
  {
    if i >= 5 then result
    else if i == 4 then r[4] % 16 * 0x1000_0000 + result
    else Pow128(i) * (r[i] % 128) + result
  }

  lemma Fits32Snoc(r: bytes, i: nat)
    requires 1 <= i < |r| && i < 10 && Fits32(r[..i])
    ensures Fits32(r[..i + 1]) <==>
      (i == 4 ==> FifthOk(r[4])) && (i >= 5 ==> ExtensionOk(r[..i + 1], i))
  {
    var g, h := r[..i], r[..i + 1];
    assert h[..i] == g && h[i] == r[i];
    if i >= 5 {
      assert h[4] == g[4];
      if Fits32(h) {
        assert ExtensionOk(h, i);
      }
      if ExtensionOk(h, i) {
        forall k | 5 <= k < |h|
          ensures ExtensionOk(h, k)
        {
          if k < i {
            assert ExtensionOk(g, k);
          }
        }
      }
    }
  }

  /** A rejected byte rejects the varint: no complete group that starts this way fits. */
  lemma Rejected32(r: bytes, i: nat, result: nat)
    requires Accumulated32(r, i, result) && i < |r| && !Step32Ok(r, i, result)
    ensures Read32(r) == None
  {
    GroupEndsAfter(r, i);
    var n := GroupLen(r);
    if n.Some? {
      var g := r[..n.value];
      if i < 10 {
        assert g[i] == r[i] && g[4] == r[4];
        assert i >= 5 ==> !ExtensionOk(g, i);
      }
    }
  }

  lemma Mod32(a: nat, p: nat, c: nat)
    ensures (a + TWO_32 * (p * c)) % TWO_32 == a % TWO_32
  {
  }

  /** Digits from the sixth on do not reach the low 32 bits ... */
  lemma HighDigits32(r: bytes, i: nat)
    requires 5 <= i < |r|
    ensures Eval(r[..i + 1]) % TWO_32 == Eval(r[..i]) % TWO_32
  {
    EvalSnoc(r, i);
    Pow128Split(i);
    var p, c := Pow128(i - 5), r[i] % 128;
    MulAssoc(TWO_32, 8 * p, c);
    Mod32(Eval(r[..i]), 8 * p, c);
  }

  /** ... and the fifth reaches with its low nibble. */
  lemma FifthDigit32(r: bytes)
    requires 4 < |r| && Eval(r[..4]) < 0x1000_0000
    ensures Eval(r[..5]) % TWO_32 == r[4] % 16 * 0x1000_0000 + Eval(r[..4])
  {
    hide Eval;
    hide Pow128;
    EvalSnoc(r, 4);
    LowNibble(r[4]);
    FifthBy(Eval(r[..5]), Eval(r[..4]), r[4] % 128);
  }

  lemma LowNibble(b: byte)
    ensures b % 128 % 16 == b % 16
  {
  }

  lemma FifthBy(whole: nat, low: nat, x: nat)
    requires low < 0x1000_0000 && whole == low + Pow128(4) * x
    ensures whole % TWO_32 == x % 16 * 0x1000_0000 + low
  {
    Pow128Values();
    Nibble(x, low);
  }

  lemma Nibble(x: nat, low: nat)
    requires low < 0x1000_0000
    ensures (low + 0x1000_0000 * x) % TWO_32 == x % 16 * 0x1000_0000 + low
  {
    assert 0x1000_0000 * x == 0x1000_0000 * (x % 16) + TWO_32 * (x / 16);
  }

  lemma {:induction false} Pow128Split(i: nat)
    requires i >= 5
    ensures Pow128(i) == TWO_32 * (8 * Pow128(i - 5))
  {
    Pow128Values();
    if i > 5 {
      Pow128Split(i - 1);
    }
  }

  lemma Continue32(r: bytes, i: nat, result: nat)
    requires Accumulated32(r, i, result) && i < |r| && Step32Ok(r, i, result) && r[i] >= 128
    ensures Accumulated32(r, i + 1, Step32(r, i, result))
  {
    Value32(r, i, result);
  }

  lemma {:induction false} Value32(r: bytes, i: nat, result: nat)
    requires Accumulated32(r, i, result) && i < |r| && Step32Ok(r, i, result)
    ensures Fits32(r[..i + 1]) && Step32(r, i, result) == Eval(r[..i + 1]) % TWO_32
    ensures i < 4 ==> Step32(r, i, result) == Eval(r[..i + 1]) < Pow128(i + 1)
    ensures i == 4 ==> (Step32(r, i, result) >= TWO_31 <==> r[4] % 16 >= 8)
  {
    Fits32Snoc(r, i);
    EvalBound(r[..i + 1]);
    Pow128Values();
    if i >= 5 {
      HighDigits32(r, i);
    } else if i == 4 {
      FifthDigit32(r);
    } else {
      EvalSnoc(r, i);
      Pow128Monotone(i + 1, 4);
    }
  }

  lemma Finish32(r: bytes, i: nat, result: nat)
    requires Accumulated32(r, i, result) && i < |r| && Step32Ok(r, i, result) && r[i] < 128
    ensures Read32(r) == Some((Step32(r, i, result), i + 1))
  {
    GroupEndsAt(r, i);
    Value32(r, i, result);
  }

  // ───────────── The 64-bit loop ─────────────

  ghost predicate Accumulated64(r: bytes, i: nat, result: nat)
  {
    i <= |r| && i <= 9 && (forall j :: 0 <= j < i ==> r[j] >= 128) && result == Eval(r[..i]) < Pow128(i)
  }

  lemma Bound64(r: bytes, i: nat)
    requires i < |r| && i <= 9 && (i == 9 ==> r[i] < 2)
    ensures Eval(r[..i + 1]) < TWO_64
  {
    Pow128Values();
    EvalBound(r[..i + 1]);
    if i < 9 {
      Pow128Monotone(i + 1, 9);
    } else {
      EvalSnoc(r, 9);
      EvalBound(r[..9]);
    }
  }

  lemma Continue64(r: bytes, i: nat, result: nat)
    requires Accumulated64(r, i, result) && i < |r| && i < 9 && r[i] >= 128
    ensures Accumulated64(r, i + 1, ShiftIn(r[i], i, result))
  {
    EvalSnoc(r, i);
    EvalBound(r[..i + 1]);
  }

  lemma Finish64(r: bytes, i: nat, result: nat)
    requires Accumulated64(r, i, result) && i < |r| && (i == 9 ==> r[i] < 2) && r[i] < 128
    ensures Read64(r) == Some((ShiftIn(r[i], i, result), i + 1))
  {
    EvalSnoc(r, i);
    Bound64(r, i);
    GroupEndsAt(r, i);
  }

  /** `value | (b & 0x7F) << 7 * digit`. */
  function ShiftIn(b: byte, digit: nat, value: nat): (r: nat)
    requires value < Pow128(digit)
    ensures r == Pow128(digit) * (b % 128) + value
  {
    MultipleOf(b % 128, Pow128(digit));
    Or(Pow128(digit) * (b % 128), value, Pow128(digit))
  }

  lemma MultipleOf(x: nat, p: nat)
    requires p >= 1
    ensures p * x % p == 0
  {
    QuotientUnique(p * x, p, x, 0);
  }

  lemma Rejected64(r: bytes, result: nat)
    requires Accumulated64(r, 9, result) && 9 < |r| && r[9] >= 2
    ensures Read64(r) == None
  {
    if r[9] >= 128 {
      GroupEndsAfter(r, 10);
    } else {
      GroupEndsAt(r, 9);
      EvalSnoc(r, 9);
      Pow128Values();
    }
  }

  lemma {:induction false} NoEnd(r: bytes)
    requires forall j :: 0 <= j < |r| ==> r[j] >= 128
    ensures GroupLen(r) == None
  {
    GroupEndsAfter(r, |r|);
  }

  predicate Flagged(s: bytes)
  {
    forall j :: 0 <= j < |s| ==> s[j] >= 128
  }

  lemma NothingFlagged()
    ensures Flagged([])
  {
  }

  /** Of a group that starts with the flagged bytes `taken`, the next byte. */
  lemma {:induction false} NextOfGroup(r: bytes, taken: bytes, rest: bytes)
    requires r == taken + rest && Flagged(taken)
    ensures rest == [] ==> GroupLen(r) == None
    ensures GroupLen(r).Some? ==> GroupLen(r).value > |taken|
    ensures rest != [] && rest[0] < 128 ==> GroupLen(r) == Some(|taken| + 1)
    ensures rest != [] ==> r == (taken + rest[..1]) + rest[1..]
    ensures rest != [] && rest[0] >= 128 ==> Flagged(taken + rest[..1])
  {
    GroupEndsAfter(r, |taken|);
    if rest == [] {
      NoEnd(r);
    } else if rest[0] < 128 {
      GroupEndsAt(r, |taken|);
    }
  }

  lemma Unended32(r: bytes, result: nat)
    requires Accumulated32(r, |r|, result)
    ensures Read32(r) == None
  {
    NoEnd(r);
  }

  lemma Parted(s: bytes, at: nat, n: nat, size: nat)
    requires size <= n && at + n <= |s|
    ensures s[at..at + n][..size] == s[at..at + size] && s[at..at + n][size..] == s[at + size..at + n]
  {
  }

  class IStream {
    const src: bytes         // the caller's buffer, never written
    var pos: nat             // the read pointer, as an offset
    var bytesLeft: nat

    ghost predicate Valid()
      reads this
    {
      pos + bytesLeft <= |src|
    }

    ghost function Rest(): bytes
      requires Valid()
      reads this
    {
      src[pos..pos + bytesLeft]
    }

    ghost function End(): nat
      reads this
    {
      pos + bytesLeft
    }

    constructor (buffer: bytes, at: nat, length: nat)
      requires at + length <= |buffer|
      ensures Valid() && src == buffer && pos == at && bytesLeft == length
      ensures Rest() == buffer[at..at + length]
    {
      src, pos, bytesLeft := buffer, at, length;
    }

    /** pb_read of a buffer stream. */
    method Read(count: nat) returns (ok: bool, data: bytes)
      requires Valid()
      modifies this
      ensures Valid() && End() == old(End()) && pos >= old(pos)
      ensures ok <==> count <= old(bytesLeft)
      ensures ok ==> data == old(Rest())[..count] && Rest() == old(Rest())[count..]
      ensures !ok ==> pos == old(pos)
    {
      data := [];
      if count == 0 {
        return true, [];
      }
      if bytesLeft < count {
        return false, [];
      }
      data := src[pos..pos + count];
      pos := pos + count;
      bytesLeft := bytesLeft - count;
      ok := true;
    }

    method ReadByte() returns (ok: bool, b: byte)
      requires Valid()
      modifies this
      ensures Valid() && End() == old(End()) && pos >= old(pos)
      ensures ok <==> old(bytesLeft) > 0
      ensures ok ==> b == old(Rest())[0] && Rest() == old(Rest())[1..]
      ensures !ok ==> pos == old(pos)
    {
      b := 0;
      if bytesLeft == 0 {
        return false, 0;
      }
      b := src[pos];
      pos := pos + 1;
      bytesLeft := bytesLeft - 1;
      ok := true;
    }

    /** pb_decode_varint32_eof: at most 32 bits, or a 64-bit sign extension of them. */
    method DecodeVarint32() returns (ok: bool, value: nat, eof: bool)
      requires Valid()
      modifies this
      ensures Valid() && End() == old(End()) && pos >= old(pos)
      ensures ok <==> Read32(old(Rest())).Some?
      ensures ok ==> value == Read32(old(Rest())).value.0 && Rest() == old(Rest())[Read32(old(Rest())).value.1..]
      ensures eof <==> old(bytesLeft) == 0
    {
      ghost var r := Rest();
      value := 0;
      var b: byte;
      ok, b := ReadByte();
      eof := !ok && bytesLeft == 0;
      if !ok {
        return;
      }
      FirstByte(r);
      if b < 0x80 {
        value := b;
      } else {
        ok, value := Multibyte32(r, b % 128);
      }
    }

    /** The bytes after a flagged first one. */
    method Multibyte32(ghost r: bytes, first: nat) returns (ok: bool, value: nat)
      requires Valid() && r != [] && Rest() == r[1..] && Accumulated32(r, 1, first)
      modifies this
      ensures Valid() && End() == old(End()) && pos >= old(pos)
      ensures ok <==> Read32(r).Some?
      ensures ok ==> value == Read32(r).value.0 && Rest() == r[Read32(r).value.1..]
    {
      hide Read32;
      hide Accumulated32;
      hide Step32Ok;
      var b: byte, i := 0x80, 1;
      value := first;
      while b >= 0x80
        invariant Valid() && End() == old(End()) && pos >= old(pos) && i <= |r| && Rest() == r[i..]
        invariant b >= 0x80 ==> Accumulated32(r, i, value)
        invariant b < 0x80 ==> Read32(r) == Some((value, i))
        decreases bytesLeft, b >= 0x80
      {
        ok, b := ReadByte();
        if !ok {
          Unended32(r, value);
          return;
        }
        var accepted, next := NextByte32(r, value, i, b);
        if !accepted {
          Rejected32(r, i, value);
          return false, value;
        }
        if b >= 0x80 {
          Continue32(r, i, value);
        } else {
          Finish32(r, i, value);
        }
        value := next;
        i := i + 1;
      }
      ok := true;
    }

    /** pb_decode_varint. */
    method DecodeVarint() returns (ok: bool, value: nat)
      requires Valid()
      modifies this
      ensures Valid() && End() == old(End()) && pos >= old(pos)
      ensures ok <==> Read64(old(Rest())).Some?
      ensures ok ==> value == Read64(old(Rest())).value.0 && Rest() == old(Rest())[Read64(old(Rest())).value.1..]
    {
      ghost var r := Rest();
      var b: byte, i := 0x80, 0;
      value := 0;
      assert Eval(r[..0]) == 0 && Pow128(0) == 1;
      while b >= 0x80
        invariant Valid() && End() == old(End()) && pos >= old(pos) && i <= |r| && Rest() == r[i..]
        invariant b >= 0x80 ==> Accumulated64(r, i, value)
        invariant b < 0x80 ==> Read64(r) == Some((value, i))
        decreases bytesLeft, b >= 0x80
      {
        ok, b := ReadByte();
        if !ok {
          NoEnd(r);
          return;
        }
        if 7 * i >= 63 && b / 2 != 0 {
          Rejected64(r, value);
          return false, value;
        }
        if b >= 0x80 {
          Continue64(r, i, value);
        } else {
          Finish64(r, i, value);
        }
        value := ShiftIn(b, i, value);
        i := i + 1;
      }
      ok := true;
    }

    /** pb_skip_varint: to the end of the group, however long. */
    method SkipVarint() returns (ok: bool)
      requires Valid()
      modifies this
      ensures Valid() && End() == old(End()) && pos >= old(pos)
      ensures ok <==> Frame(WT_VARINT, old(Rest())).Some?
      ensures ok ==> Rest() == Frame(WT_VARINT, old(Rest())).value.1
    {
      ghost var r := Rest();
      ghost var i := 0;
      var b: byte := 0x80;
      while b >= 0x80
        invariant Valid() && End() == old(End()) && pos >= old(pos) && i <= |r| && Rest() == r[i..]
        invariant b >= 0x80 ==> forall j :: 0 <= j < i ==> r[j] >= 128
        invariant b < 0x80 ==> GroupLen(r) == Some(i)
        decreases bytesLeft, b >= 0x80
      {
        var data;
        ok, data := Read(1);
        if !ok {
          NoEnd(r);
          return;
        }
        b := data[0];
        if b < 0x80 {
          GroupEndsAt(r, i);
        }
        i := i + 1;
      }
      ok := true;
    }

    /** pb_skip_string. */
    method SkipString() returns (ok: bool)
      requires Valid()
      modifies this
      ensures Valid() && End() == old(End()) && pos >= old(pos)
      ensures ok <==> Frame(WT_STRING, old(Rest())).Some?
      ensures ok ==> Rest() == Frame(WT_STRING, old(Rest())).value.1
    {
      var length, eof, data;
      ok, length, eof := DecodeVarint32();
      if ok {
        ok, data := Read(length);
      }
    }

    /** pb_skip_field: any wire type, without knowing the field. */
    method SkipField(wireType: nat) returns (ok: bool)
      requires Valid()
      modifies this
      ensures Valid() && End() == old(End()) && pos >= old(pos)
      ensures ok <==> Frame(wireType, old(Rest())).Some?
      ensures ok ==> Rest() == Frame(wireType, old(Rest())).value.1
      ensures wireType == 5 ==> ok == (|old(Rest())| >= 4) && (ok ==> Rest() == old(Rest())[4..])
      ensures wireType == 1 ==> ok == (|old(Rest())| >= 8) && (ok ==> Rest() == old(Rest())[8..])
    {
      var data;
      if wireType == WT_VARINT {
        ok := SkipVarint();
      } else if wireType == WT_64BIT {
        ok, data := Read(8);
      } else if wireType == WT_STRING {
        ok := SkipString();
      } else if wireType == WT_32BIT {
        ok, data := Read(4);
      } else {
        ok := false;
      }
    }

    /** read_raw_value: a scalar's bytes for a callback, ten at most. */
    method ReadRawValue(wireType: nat) returns (ok: bool, data: bytes)
      requires Valid() && wireType != WT_STRING
      modifies this
      ensures Valid() && End() == old(End()) && pos >= old(pos)
      ensures ok <==> (Frame(wireType, old(Rest())).Some?
                       && (wireType == WT_VARINT ==> |Frame(wireType, old(Rest())).value.0| <= 10))
      ensures ok ==> data == Frame(wireType, old(Rest())).value.0 && Rest() == Frame(wireType, old(Rest())).value.1
    {
      data := [];
      if wireType == WT_VARINT {
        ok, data := ReadRawVarint();
      } else if wireType == WT_64BIT {
        ok, data := Read(8);
      } else if wireType == WT_32BIT {
        ok, data := Read(4);
      } else {
        ok := false;
      }
    }

    method ReadRawVarint() returns (ok: bool, data: bytes)
      requires Valid()
      modifies this
      ensures Valid() && End() == old(End()) && pos >= old(pos)
      ensures ok <==> GroupLen(old(Rest())).Some? && GroupLen(old(Rest())).value <= 10
      ensures ok ==> |data| == GroupLen(old(Rest())).value
      ensures ok ==> data == old(Rest())[..|data|] && Rest() == old(Rest())[|data|..]
    {
      hide GroupLen;
      hide Flagged;
      ghost var r := Rest();
      data := [];
      var b: byte := 0x80;
      NothingFlagged();
      while b >= 0x80
        invariant Valid() && End() == old(End()) && pos >= old(pos) && |data| <= 10
        invariant r == data + Rest()
        invariant b >= 0x80 ==> Flagged(data)
        invariant b < 0x80 ==> GroupLen(r) == Some(|data|)
        decreases bytesLeft, b >= 0x80
      {
        NextOfGroup(r, data, Rest());
        if |data| + 1 > 10 {
          return false, data;
        }
        var one;
        ok, one := Read(1);
        if !ok {
          return;
        }
        b := one[0];
        data := data + one;
      }
      ok := true;
    }

    /** pb_decode_tag. */
    method DecodeTag() returns (ok: bool, wireType: nat, tag: nat, eof: bool)
      requires Valid()
      modifies this
      ensures Valid() && End() == old(End()) && pos >= old(pos)
      ensures ok <==> Read32(old(Rest())).Some?
      ensures ok ==> tag == Read32(old(Rest())).value.0 / 8 && wireType == Read32(old(Rest())).value.0 % 8
      ensures ok ==> Rest() == old(Rest())[Read32(old(Rest())).value.1..]
      ensures eof <==> old(bytesLeft) == 0
    {
      var temp;
      wireType, tag := 0, 0;
      ok, temp, eof := DecodeVarint32();
      if ok {
        tag, wireType := temp / 8, temp % 8;
      }
    }

    /** pb_make_string_substream: the payload becomes a stream of its own, and is no longer
        counted in this one. Only the close moves this stream's pointer past it. */
    method MakeSubstream() returns (ok: bool, sub: IStream)
      requires Valid()
      modifies this
      ensures Valid() && sub.Valid() && fresh(sub) && sub.src == src
      ensures ok <==> Frame(WT_STRING, old(Rest())).Some?
      ensures ok ==> sub.End() + bytesLeft == old(End()) && sub.pos == pos >= old(pos)
      ensures ok ==> sub.Rest() == Frame(WT_STRING, old(Rest())).value.0
      ensures ok ==> src[sub.End()..sub.End() + bytesLeft] == Frame(WT_STRING, old(Rest())).value.1
    {
      hide Read32;
      var size, eof;
      ok, size, eof := DecodeVarint32();
      if !ok || bytesLeft < size {
        sub := new IStream(src, 0, 0);
        return false, sub;
      }
      Parted(src, pos, bytesLeft, size);
      sub := new IStream(src, pos, size);
      bytesLeft := bytesLeft - size;
    }

    /** pb_close_string_substream: whatever is left of the payload is read over. */
    method CloseSubstream(sub: IStream) returns (ok: bool)
      requires Valid() && sub.Valid() && sub != this && sub.src == src && sub.End() + bytesLeft <= |src|
      modifies this, sub
      ensures ok && Valid() && pos == old(sub.End()) && bytesLeft == old(bytesLeft)
      ensures Rest() == src[old(sub.End())..old(sub.End()) + bytesLeft]
    {
      var data;
      ok := true;
      if sub.bytesLeft > 0 {
        ok, data := sub.Read(sub.bytesLeft);
      }
      pos := sub.pos;
    }
  }

  /** `(byte & 0x70) == 0 || (byte & 0x78) == 0x78`. */
  lemma FifthTest(b: byte)
    ensures b / 16 % 8 == 0 || b / 8 % 16 == 15 <==> FifthOk(b)
  {
  }

  /** The three tests of the loop, and the accumulator they lead to. */
  method NextByte32(ghost r: bytes, value: nat, digit: nat, b: byte) returns (accepted: bool, next: nat)
    requires Accumulated32(r, digit, value) && digit < |r| && b == r[digit]
    ensures accepted <==> Step32Ok(r, digit, value)
    ensures accepted ==> next == Step32(r, digit, value)
  {
    var bitpos := 7 * digit;
    next := value;
    if bitpos >= 32 {
      var signExtension := if bitpos < 63 then 0xFF else 0x01;
      var validExtension := b % 128 == 0 || (value / TWO_31 != 0 && b == signExtension);
      accepted := bitpos < 64 && validExtension;
    } else if bitpos == 28 {
      FifthTest(b);
      accepted := b / 16 % 8 == 0 || b / 8 % 16 == 15;
      Pow128Values();
      next := Or(b % 16 * 0x1000_0000, value, 0x1000_0000);
    } else {
      accepted := true;
      next := ShiftIn(b, digit, value);
    }
  }

  lemma FirstByte(r: bytes)
    requires r != []
    ensures r[0] < 128 ==> Read32(r) == Some((r[0], 1))
    ensures r[0] >= 128 ==> Accumulated32(r, 1, r[0] % 128)
  {
    assert r[..1] == [r[0]] && Eval([r[0]][1..]) == 0;
    assert Eval(r[..1]) == r[0] % 128;
    assert Pow128(1) == 128 * Pow128(0);
    if r[0] < 128 {
      GroupEndsAt(r, 0);
    }
  }
}
