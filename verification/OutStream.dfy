/** pb_ostream_t and the primitive writers of pb_encode.c. A stream without a buffer only counts
    (the sizing pass); a stream over a buffer writes at `pos` and never past its limit. */
module OutStream {
  import opened Prelude
  import opened Varint

  /** The observable state of an output stream, as a value. */
  datatype OState = OState(sizing: bool, mem: bytes, pos: nat, limit: nat, written: nat)
  {
    predicate Ok()
    {
      !sizing ==> written <= limit && pos + (limit - written) <= |mem|
    }

    /** One past the last buffer position this stream may store to. */
    function End(): nat
      requires Ok() && !sizing
    {
      pos + (limit - written)
    }

    predicate Room(n: nat)
    {
      sizing || written + n <= limit
    }

    function Append(data: bytes): OState
      requires Ok() && Room(|data|)
    {
      if sizing then this.(written := written + |data|)
      else OState(false, mem[..pos] + data + mem[pos + |data|..], pos + |data|, limit, written + |data|)
    }
  }

  /** `b` differs from `a` only inside the window that `a` was allowed to write. */
  ghost predicate Confined(a: OState, b: OState)
    requires a.Ok()
  {
    && b.Ok() && b.sizing == a.sizing && b.limit == a.limit
    && (!a.sizing ==>
          && |b.mem| == |a.mem| && a.pos <= b.pos && b.End() == a.End()
          && b.mem[..a.pos] == a.mem[..a.pos] && b.mem[a.End()..] == a.mem[a.End()..])
  }

  /** What every encoder promises about `enc`, the bytes its argument stands for (None: the
      argument has no encoding). It succeeds exactly when there are such bytes and they fit, and
      has then appended exactly them; failing, it has stored nothing outside its window. */
  ghost predicate Emits(a: OState, b: OState, enc: Option<bytes>, ok: bool)
    requires a.Ok()
  {
    && Confined(a, b)
    && (ok <==> enc.Some? && a.Room(|enc.value|))
    && (ok ==> b == a.Append(enc.value))
  }

  function Cat(e: Option<bytes>, f: Option<bytes>): (r: Option<bytes>)
  {
    if e.Some? && f.Some? then Some(e.value + f.value) else None
  }

  lemma EmitsNothing(a: OState)
    requires a.Ok()
    ensures Emits(a, a, Some([]), true)
  {
    if !a.sizing {
      assert a.mem[..a.pos] + [] + a.mem[a.pos..] == a.mem;
    }
  }

  /** What cannot be sent is refused, nothing written. */
  lemma EmitsRefused(a: OState)
    requires a.Ok()
    ensures Emits(a, a, None, false)
  {
  }

  /** What does not fit is refused as well. */
  lemma EmitsFull(a: OState, e: bytes)
    requires a.Ok() && !a.Room(|e|)
    ensures Emits(a, a, Some(e), false)
  {
  }

  lemma EmitsCounted(a: OState, e: bytes)
    requires a.Ok() && a.sizing
    ensures Emits(a, a.(written := a.written + |e|), Some(e), true)
  {
  }

  /** When output succeeds, and how far it then gets. */
  lemma EmitsWhen(a: OState, b: OState, enc: Option<bytes>, ok: bool)
    requires a.Ok() && Emits(a, b, enc, ok)
    ensures ok <==> enc.Some? && a.Room(|enc.value|)
    ensures ok ==> b.written == a.written + |enc.value|
  {
  }

  /** Sequential composition of successful output. */
  lemma EmitsThen(a: OState, b: OState, c: OState, e: Option<bytes>, f: Option<bytes>, ok: bool)
    requires a.Ok() && Emits(a, b, e, true) && Emits(b, c, f, ok)
    ensures Emits(a, c, Cat(e, f), ok)
  {
    ConfinedThen(a, b, c);
    if ok {
      AppendThen(a, e.value, f.value);
    }
  }

  lemma ConfinedThen(a: OState, b: OState, c: OState)
    requires a.Ok() && Confined(a, b) && Confined(b, c)
    ensures Confined(a, c)
  {
    if !a.sizing {
      assert c.mem[..a.pos] == c.mem[..b.pos][..a.pos];
      assert b.mem[..b.pos][..a.pos] == b.mem[..a.pos];
    }
  }

  lemma AppendThen(a: OState, e: bytes, f: bytes)
    requires a.Ok() && a.Room(|e|) && a.Append(e).Ok() && a.Append(e).Room(|f|)
    ensures a.Room(|e + f|) && a.Append(e).Append(f) == a.Append(e + f)
  {
    if !a.sizing {
      Spliced(a.mem, a.pos, e, f);
    }
  }

  lemma Spliced(mem: bytes, pos: nat, e: bytes, f: bytes)
    requires pos + |e| + |f| <= |mem|
    ensures var once := mem[..pos] + e + mem[pos + |e|..];
      once[..pos + |e|] + f + once[pos + |e| + |f|..] == mem[..pos] + (e + f) + mem[pos + |e + f|..]
  {
    var once := mem[..pos] + e + mem[pos + |e|..];
    assert once[..pos + |e|] == mem[..pos] + e;
    assert once[pos + |e| + |f|..] == mem[pos + |e| + |f|..];
  }

  lemma EmitsFailed(a: OState, b: OState, e: Option<bytes>, f: Option<bytes>)
    requires a.Ok() && Emits(a, b, e, false)
    ensures Emits(a, b, Cat(e, f), false)
  {
  }

  /** The value still to be emitted after `i` low digits: the pending digit `b`, the bits left in
      `low`, and the high half above them. */
  function Split(i: nat, b: byte, low: nat, high: nat): nat
    requires i <= 4
  {
    match i
    case 0 => b + 0x80 * low + TWO_32 * high
    case 1 => b + 0x80 * low + 0x200_0000 * high
    case 2 => b + 0x80 * low + 0x4_0000 * high
    case 3 => b + 0x80 * low + 0x800 * high
    case _ => b + 0x10 * high
  }

  predicate SplitOk(i: nat, b: byte, low: nat)
  {
    && b < 128
    && (i == 0 ==> low < 0x200_0000) && (i == 1 ==> low < 0x4_0000)
    && (i == 2 ==> low < 0x800) && (i == 3 ==> low < 0x10)
    && (i == 4 ==> low == 0 && b < 16)
  }

  lemma SplitShift(i: nat, b: byte, low: nat, high: nat)
    requires i < 4 && SplitOk(i, b, low) && (low != 0 || high != 0)
    ensures SplitOk(i + 1, low % 128, low / 128)
    ensures Split(i, b, low, high) == b + 128 * Split(i + 1, low % 128, low / 128, high)
    ensures Split(i + 1, low % 128, low / 128, high) >= 1
  {
  }

  /** One more flagged digit: `out` followed by the digits still due is unchanged. */
  lemma NextDigit(out: bytes, b: byte, rest: nat)
    requires b < 128 && rest >= 1
    ensures out + Digits(b + 128 * rest) == out + [128 + b] + Digits(rest)
  {
    assert (b + 128 * rest) % 128 == b && (b + 128 * rest) / 128 == rest;
    assert out + ([128 + b] + Digits(rest)) == out + [128 + b] + Digits(rest);
  }

  /** The digits of the low half, into the start of `buffer`: up to four bytes, and a pending one. */
  method LowDigits(buffer: array<byte>, low0: nat, high: nat) returns (i: nat, b: byte)
    requires low0 < TWO_32 && buffer.Length == 10
    modifies buffer
    ensures i <= 4 && SplitOk(i, b, 0) && (high != 0 ==> i == 4)
    ensures buffer[..i] + Digits(Split(i, b, 0, high)) == Digits(low0 + TWO_32 * high)
  {
    hide Digits;
    var low := low0;
    i := 0;
    b := low % 128;
    low := low / 128;
    ghost var out: bytes := [];
    while i < 4 && (low != 0 || high != 0)
      invariant i <= 4 && SplitOk(i, b, low) && out == buffer[..i]
      invariant out + Digits(Split(i, b, low, high)) == Digits(low0 + TWO_32 * high)
      decreases 4 - i
    {
      SplitShift(i, b, low, high);
      NextDigit(out, b, Split(i + 1, low % 128, low / 128, high));
      out := out + [128 + b];
      b := Or(0x80, b, 0x80);
      buffer[i] := b;
      i := i + 1;
      b := low % 128;
      low := low / 128;
    }
  }

  /** The digits of what is left of the high half, after the pending digit `b0`. */
  method HighDigits(buffer: array<byte>, i0: nat, b0: byte, high0: nat) returns (i: nat)
    requires i0 <= buffer.Length == 10 && b0 < 128
    requires i0 + |Digits(b0 + 128 * high0)| <= 10
    modifies buffer
    ensures i <= 10 && buffer[..i] == old(buffer[..i0]) + Digits(b0 + 128 * high0)
  {
    var high: nat, b: byte := high0, b0;
    i := i0;
    ghost var out := buffer[..i0];
    ghost var all := out + Digits(b0 + 128 * high0);
    while high != 0
      invariant i < 10 && b < 128 && out == buffer[..i]
      invariant out + Digits(b + 128 * high) == all
      decreases high
    {
      NextDigit(out, b, high);
      assert |all| >= i + 1 + 1;
      out := out + [128 + b];
      b := Or(0x80, b, 0x80);
      buffer[i] := b;
      i := i + 1;
      b := high % 128;
      high := high / 128;
    }
    buffer[i] := b;
    i := i + 1;
    assert buffer[..i] == out + [b];
  }

  method SplitDigits(low: nat, high: nat) returns (digits: bytes)
    requires low < TWO_32 && high < TWO_32
    ensures digits == Digits(low + TWO_32 * high)
  {
    Digits64Length(low + TWO_32 * high);
    var buffer := new byte[10];
    var i, b := LowDigits(buffer, low, high);
    ghost var rest := Split(i, b, 0, high);
    if high != 0 {
      b := Or(high % 8 * 16, b, 16);
    }
    assert b + 128 * (high / 8) == rest;
    i := HighDigits(buffer, i, b, high / 8);
    digits := buffer[..i];
  }

  class OStream {
    var buf: array?<byte>     // null: a sizing stream (no callback)
    var pos: nat              // the write pointer, as an offset
    var maxSize: nat
    var bytesWritten: nat

    ghost predicate Valid()
      reads this
    {
      buf != null ==> bytesWritten <= maxSize && pos + (maxSize - bytesWritten) <= buf.Length
    }

    ghost function Snap(): (s: OState)
      reads this, buf
      ensures Valid() ==> s.Ok()
    {
      OState(buf == null, if buf == null then [] else buf[..], pos, maxSize, bytesWritten)
    }

    constructor Sizing()
      ensures Valid() && buf == null && bytesWritten == 0
    {
      buf, pos, maxSize, bytesWritten := null, 0, 0, 0;
    }

    /** A stream over `b` writing at `at`, allowed `size` bytes. */
    constructor Over(b: array<byte>, at: nat, size: nat)
      requires at + size <= b.Length
      ensures Valid() && buf == b && pos == at && maxSize == size && bytesWritten == 0
    {
      buf, pos, maxSize, bytesWritten := b, at, size, 0;
    }

    method Write(data: bytes) returns (ok: bool)
      requires Valid()
      modifies this, buf
      ensures Valid() && buf == old(buf)
      ensures Emits(old(Snap()), Snap(), Some(data), ok)
    {
      if |data| > 0 && buf != null {
        if bytesWritten + |data| > maxSize {
          return false;
        }
        forall i | 0 <= i < |data| {
          buf[pos + i] := data[i];
        }
        pos := pos + |data|;
      }
      bytesWritten := bytesWritten + |data|;
      ok := true;
      assert buf != null ==> buf[..] == old(Snap()).Append(data).mem;
    }

    /** A write with no data pointer, as done while sizing: only the count advances. */
    method Count(n: nat)
      requires Valid() && buf == null
      modifies this
      ensures Valid() && buf == null
      ensures Snap() == old(Snap()).(written := old(bytesWritten) + n)
    {
      bytesWritten := bytesWritten + n;
    }

    method EncodeVarint32(low: nat, high: nat) returns (ok: bool)
      requires Valid() && low < TWO_32 && high < TWO_32
      modifies this, buf
      ensures Valid() && buf == old(buf)
      ensures Emits(old(Snap()), Snap(), Some(Digits(low + TWO_32 * high)), ok)
    {
      var digits := SplitDigits(low, high);
      ok := Write(digits);
    }

    method EncodeVarint(value: nat) returns (ok: bool)
      requires Valid() && value < TWO_64
      modifies this, buf
      ensures Valid() && buf == old(buf)
      ensures Emits(old(Snap()), Snap(), Some(Digits(value)), ok)
    {
      if value <= 0x7F {
        ok := Write([value]);
      } else {
        ok := EncodeVarint32(value % TWO_32, value / TWO_32);
      }
    }

    /** ZigZag by masks: `~((v & mask) << 1)` on the 64-bit pattern of a negative value. */
    method EncodeSVarint(value: int) returns (ok: bool)
      requires Valid() && -TWO_63 <= value < TWO_63
      modifies this, buf
      ensures Valid() && buf == old(buf)
      ensures Emits(old(Snap()), Snap(), Some(Digits(ZigZag(value))), ok)
    {
      var zigzagged: nat;
      if value < 0 {
        var masked := ToU64(value) % TWO_63;
        zigzagged := TWO_64 - 1 - masked * 2 % TWO_64;
      } else {
        zigzagged := value * 2 % TWO_64;
      }
      assert zigzagged == ZigZag(value);
      ok := EncodeVarint(zigzagged);
    }

    method EncodeFixed32(value: nat) returns (ok: bool)
      requires Valid() && value < TWO_32
      modifies this, buf
      ensures Valid() && buf == old(buf)
      ensures Emits(old(Snap()), Snap(), Some(LittleEndian(value, 4)), ok)
    {
      LittleEndian4(value);
      ok := Write([
        value % 256, value / 0x100 % 256, value / 0x1_0000 % 256, value / 0x100_0000 % 256]);
    }

    method EncodeFixed64(value: nat) returns (ok: bool)
      requires Valid() && value < TWO_64
      modifies this, buf
      ensures Valid() && buf == old(buf)
      ensures Emits(old(Snap()), Snap(), Some(LittleEndian(value, 8)), ok)
    {
      LittleEndian8(value);
      ok := Write([
        value % 256, value / 0x100 % 256, value / 0x1_0000 % 256, value / 0x100_0000 % 256,
        value / TWO_32 % 256, value / 0x100_0000_0000 % 256,
        value / 0x1_0000_0000_0000 % 256, value / 0x100_0000_0000_0000 % 256]);
    }

    method EncodeTag(wireType: nat, fieldNumber: nat) returns (ok: bool)
      requires Valid() && wireType < 8 && fieldNumber < TWO_32
      modifies this, buf
      ensures Valid() && buf == old(buf)
      ensures Emits(old(Snap()), Snap(), Some(Digits(fieldNumber * 8 + wireType)), ok)
    {
      ok := EncodeVarint(Or(fieldNumber * 8, wireType, 8));
    }

    /** Length prefix and contents. */
    method EncodeString(data: bytes) returns (ok: bool)
      requires Valid() && |data| < TWO_64
      modifies this, buf
      ensures Valid() && buf == old(buf)
      ensures Emits(old(Snap()), Snap(), Some(Digits(|data|) + data), ok)
    {
      ghost var a := Snap();
      ok := EncodeVarint(|data|);
      if !ok {
        EmitsFailed(a, Snap(), Some(Digits(|data|)), Some(data));
        return;
      }
      ghost var b := Snap();
      ok := Write(data);
      EmitsThen(a, b, Snap(), Some(Digits(|data|)), Some(data), ok);
    }
  }

  /** The low `n` bytes of `v`, least significant first. */
  function LittleEndian(v: nat, n: nat): (s: bytes)
    ensures |s| == n
  {
    if n == 0 then [] else [v % 256] + LittleEndian(v / 256, n - 1)
  }

  lemma {:induction false} LittleEndian4(v: nat)
    ensures LittleEndian(v, 4) == [v % 256, v / 0x100 % 256, v / 0x1_0000 % 256, v / 0x100_0000 % 256]
  {
    var a := v / 256;
    var b := a / 256;
    assert b == v / 0x1_0000;
    assert b / 256 == v / 0x100_0000;
    assert LittleEndian(b / 256, 1) == [b / 256 % 256] + LittleEndian(b / 256 / 256, 0);
    assert LittleEndian(b, 2) == [b % 256, b / 256 % 256];
    assert LittleEndian(a, 3) == [a % 256] + LittleEndian(b, 2);
  }

  lemma {:induction false} LittleEndian8(v: nat)
    ensures LittleEndian(v, 8) == [
      v % 256, v / 0x100 % 256, v / 0x1_0000 % 256, v / 0x100_0000 % 256,
      v / TWO_32 % 256, v / 0x100_0000_0000 % 256,
      v / 0x1_0000_0000_0000 % 256, v / 0x100_0000_0000_0000 % 256]
  {
    LittleEndian4(v);
    LittleEndian4(v / TWO_32);
    LittleEndianHalves(v);
    HighBytes(v);
  }

  lemma HighBytes(v: nat)
    ensures v / TWO_32 / 0x100 == v / 0x100_0000_0000
    ensures v / TWO_32 / 0x1_0000 == v / 0x1_0000_0000_0000
    ensures v / TWO_32 / 0x100_0000 == v / 0x100_0000_0000_0000
  {
  }

  lemma {:induction false} LittleEndianHalves(v: nat)
    ensures LittleEndian(v, 8) == LittleEndian(v, 4) + LittleEndian(v / TWO_32, 4)
  {
    var a := v / 256;
    var b := a / 256;
    var c := b / 256;
    assert c / 256 == v / TWO_32;
    assert LittleEndian(v, 8) == [v % 256] + LittleEndian(a, 7);
    assert LittleEndian(a, 7) == [a % 256] + LittleEndian(b, 6);
    assert LittleEndian(b, 6) == [b % 256] + LittleEndian(c, 5);
    assert LittleEndian(c, 5) == [c % 256] + LittleEndian(v / TWO_32, 4);
    assert LittleEndian(v, 4) == [v % 256] + LittleEndian(a, 3);
    assert LittleEndian(a, 3) == [a % 256] + LittleEndian(b, 2);
    assert LittleEndian(b, 2) == [b % 256] + LittleEndian(c, 1);
    assert LittleEndian(c, 1) == [c % 256] + LittleEndian(c / 256, 0);
  }

  /** Reading bytes least significant first. */
  function FromLittleEndian(s: bytes): nat
  {
    if s == [] then 0 else s[0] + 256 * FromLittleEndian(s[1..])
  }

  function Pow256(n: nat): nat
  {
    if n == 0 then 1 else 256 * Pow256(n - 1)
  }

  lemma {:induction false} LittleEndianInverse(v: nat, n: nat)
    requires v < Pow256(n)
    ensures FromLittleEndian(LittleEndian(v, n)) == v
  {
    if n > 0 {
      LittleEndianInverse(v / 256, n - 1);
      assert LittleEndian(v, n)[1..] == LittleEndian(v / 256, n - 1);
    }
  }
}
