/** pb.h and pb_common.c: field descriptors packed into 1, 2, 4 or 8 words, and the iterator that
    walks them. pb_size_t is 16 bits wide (PB_FIELD_32BIT is not defined). */
module Descriptor {
  import opened Prelude
  import opened Bits

  /** One line of a message's field table. `submsg` names the descriptor of a submessage field. */
  datatype FieldDef = FieldDef(width: Width, tag: nat, typ: u8, dataOffset: nat, dataSize: nat,
                               sizeOffset: nat, arraySize: nat, submsg: nat)

  datatype Width = W1 | W2 | W4 | W8

  const LTYPE_SUBMESSAGE := 8
  const LTYPE_SUBMSG_W_CB := 9
  const LTYPE_EXTENSION := 10

  /** The low nibble of a type byte. */
  function LtypeOf(typ: u8): u8
  {
    typ % 16
  }

  predicate IsSubmsg(typ: u8)
  {
    LtypeOf(typ) == LTYPE_SUBMESSAGE || LtypeOf(typ) == LTYPE_SUBMSG_W_CB
  }

  predicate IsExtension(typ: u8)
  {
    LtypeOf(typ) == LTYPE_EXTENSION
  }

  /** Bits 4 and 5; PB_HTYPE_REQUIRED is 0. */
  predicate IsRequired(typ: u8)
  {
    typ / 16 % 4 == 0
  }

  // ───────────── Packing ─────────────

  /** A C cast to int_least8_t. */
  function AsInt8(x: nat): int
  {
    if x % 256 < 128 then x % 256 else x % 256 - 256
  }

  /** The PB_FIELDINFO_ASSERT conditions. For the wide formats the size offset is cast to eight
      bits before it is checked. */
  predicate Fits(f: FieldDef)
  {
    match f.width
    case W1 => f.tag < 64 && f.dataOffset < 256 && f.sizeOffset < 16 && f.dataSize < 16 && f.arraySize < 2
    case W2 => f.tag < 1024 && f.dataOffset < 0x1_0000 && f.sizeOffset < 16 && f.dataSize < 4096 && f.arraySize < 4096
    case _ => f.tag < 0x1_0000 && f.dataOffset < 0x1_0000 && 0 <= AsInt8(f.sizeOffset) && f.dataSize < 0x1_0000 &&
              f.arraySize < 0x1_0000
  }

  /** Words of a descriptor: 2^n for the format number n in its lowest two bits. */
  function Len(w: Width): nat
  {
    match w
    case W1 => 1
    case W2 => 2
    case W4 => 4
    case W8 => 8
  }

  /** The part common to all first words: format, six bits of tag, type. */
  function Word0(format: nat, f: FieldDef): nat
  {
    format + f.tag * 4 % 256 + f.typ * 256
  }

  /** Word 1 of the wide formats: size offset and the rest of the tag. */
  function WideWord1(f: FieldDef): nat
  {
    AsInt8(f.sizeOffset) % 0x1_0000_0000 + f.tag * 4 / 256 * 256
  }

  /** PB_FIELDINFO_1, _2, _4 and _8. */
  function Pack(f: FieldDef): (w: seq<u32>)
    requires Fits(f)
    ensures |w| == Len(f.width)
  {
    match f.width
    case W1 => [Word0(0, f) + f.dataOffset * 0x1_0000 + f.sizeOffset * 0x100_0000 + f.dataSize * 0x1000_0000]
    case W2 => [Word0(1, f) + f.arraySize * 0x1_0000 + f.sizeOffset * 0x1000_0000,
                f.dataOffset + f.dataSize * 0x1_0000 + f.tag / 64 * 0x1000_0000]
    case W4 => [Word0(2, f) + f.arraySize * 0x1_0000, WideWord1(f), f.dataOffset, f.dataSize]
    case W8 => [Word0(3, f), WideWord1(f), f.dataOffset, f.dataSize, f.arraySize, 0, 0, 0]
  }

  /** What load_descriptor_values reads from the words. */
  datatype Loaded = Loaded(tag: u16, typ: u8, dataOffset: u32, dataSize: u16, sizeOffset: int, arraySize: u16)

  /** The words of the entry at the head of `w`. */
  function Unpack(w: seq<u32>): Loaded
    requires |w| >= 1 && |w| >= EntryLen(w[0])
  {
    var w0 := w[0];
    var tag6, typ := w0 / 4 % 64, w0 / 256 % 256;
    match w0 % 4
    case 0 => Loaded(tag6, typ, w0 / 0x1_0000 % 256, w0 / 0x1000_0000 % 16, w0 / 0x100_0000 % 16, 1)
    case 1 => Loaded(tag6 + w[1] / 0x1000_0000 * 64, typ, w[1] % 0x1_0000, w[1] / 0x1_0000 % 4096,
                     w0 / 0x1000_0000 % 16, w0 / 0x1_0000 % 4096)
    case 2 => Loaded((tag6 + w[1] / 256 * 64) % 0x1_0000, typ, w[2], w[3] % 0x1_0000,
                     AsInt8(w[1] % 256), w0 / 0x1_0000)
    case _ => Loaded((tag6 + w[1] / 256 * 64) % 0x1_0000, typ, w[2], w[3] % 0x1_0000,
                     AsInt8(w[1] % 256), w[4] % 0x1_0000)
  }

  /** The number of words of the entry that starts with `w0`. */
  function EntryLen(w0: u32): nat
  {
    match w0 % 4
    case 0 => 1
    case 1 => 2
    case 2 => 4
    case _ => 8
  }

  function Meant(f: FieldDef): Loaded
    requires Fits(f)
  {
    Loaded(f.tag, f.typ, f.dataOffset, f.dataSize, f.sizeOffset, f.arraySize)
  }

  /** Any first word: its four common parts and what lies above them. */
  lemma Word0Parts(format: nat, f: FieldDef, above: nat)
    requires format < 4
    ensures var w := Word0(format, f) + above * 0x1_0000;
      (w % 4 == format && w / 4 % 64 == f.tag % 64 && w / 256 % 256 == f.typ && w / 0x1_0000 == above)
  {
    SixBits(f.tag);
    HeadParts(Word0(format, f) + above * 0x1_0000, format, f.tag % 64, f.typ, above);
  }

  lemma SixBits(tag: nat)
    ensures tag * 4 % 256 == 4 * (tag % 64)
  {
  }

  lemma HeadParts(w: nat, format: nat, tag6: nat, typ: nat, above: nat)
    requires format < 4 && tag6 < 64 && typ < 256 && w == format + 4 * tag6 + typ * 256 + above * 0x1_0000
    ensures w % 4 == format && w / 4 % 64 == tag6 && w / 256 % 256 == typ && w / 0x1_0000 == above
  {
    var high := typ + 256 * above;
    assert w / 4 == tag6 + 64 * high;
    assert w / 256 == high;
  }

  lemma PackedHead(f: FieldDef)
    requires Fits(f)
    ensures EntryLen(Pack(f)[0]) == Len(f.width)
    ensures Pack(f)[0] / 4 % 64 == f.tag % 64 && Pack(f)[0] / 256 % 256 == f.typ
  {
    match f.width
    case W1 => Word0Parts(0, f, f.dataOffset + f.sizeOffset * 0x100 + f.dataSize * 0x1000);
    case W2 => Word0Parts(1, f, f.arraySize + f.sizeOffset * 0x1000);
    case W4 => Word0Parts(2, f, f.arraySize);
    case W8 => Word0Parts(3, f, 0);
  }

  lemma UnpackTag(tag: nat)
    ensures tag % 64 + tag / 64 * 64 == tag
  {
  }

  lemma Above1(w: nat, above: nat, offset: nat, size: nat, count: nat)
    requires w / 0x1_0000 == above && above == offset + size * 0x100 + count * 0x1000
    requires offset < 256 && size < 16 && count < 16
    ensures w / 0x1_0000 % 256 == offset && w / 0x100_0000 % 16 == size && w / 0x1000_0000 % 16 == count
  {
    var high := size + count * 16;
    assert w / 0x100_0000 == above / 256 == high;
    assert w / 0x1000_0000 == high / 16 == count;
  }

  lemma Above2(w: nat, above: nat, count: nat, size: nat)
    requires w / 0x1_0000 == above && above == count + size * 0x1000
    requires count < 4096 && size < 16
    ensures w / 0x1_0000 % 4096 == count && w / 0x1000_0000 % 16 == size
  {
    assert w / 0x1000_0000 == above / 4096 == size;
  }

  lemma Unpack1(f: FieldDef)
    requires Fits(f) && f.width == W1
    ensures |Pack(f)| >= EntryLen(Pack(f)[0])
    ensures Unpack(Pack(f)) == Meant(f).(arraySize := 1)
  {
    hide Word0;
    var above := f.dataOffset + f.sizeOffset * 0x100 + f.dataSize * 0x1000;
    Word0Parts(0, f, above);
    var w := Pack(f)[0];
    assert w == Word0(0, f) + above * 0x1_0000;
    Above1(w, above, f.dataOffset, f.sizeOffset, f.dataSize);
  }

  lemma Second2(w: nat, offset: nat, size: nat, high: nat)
    requires w == offset + size * 0x1_0000 + high * 0x1000_0000
    requires offset < 0x1_0000 && size < 4096
    ensures w % 0x1_0000 == offset && w / 0x1_0000 % 4096 == size && w / 0x1000_0000 == high
  {
    assert w / 0x1_0000 == size + high * 4096;
  }

  lemma Unpack2(f: FieldDef)
    requires Fits(f) && f.width == W2
    ensures |Pack(f)| >= EntryLen(Pack(f)[0])
    ensures Unpack(Pack(f)) == Meant(f)
  {
    hide Word0;
    var above := f.arraySize + f.sizeOffset * 0x1000;
    Word0Parts(1, f, above);
    var w0, w1 := Pack(f)[0], Pack(f)[1];
    assert w0 == Word0(1, f) + above * 0x1_0000;
    Above2(w0, above, f.arraySize, f.sizeOffset);
    Second2(w1, f.dataOffset, f.dataSize, f.tag / 64);
    UnpackTag(f.tag);
  }

  lemma WideParts(f: FieldDef)
    requires Fits(f) && (f.width == W4 || f.width == W8)
    ensures WideWord1(f) % 256 == f.sizeOffset % 256 && WideWord1(f) / 256 * 64 + f.tag % 64 == f.tag
  {
    WideWords(f.sizeOffset % 256, f.tag);
  }

  lemma WideWords(low: nat, tag: nat)
    requires low < 256
    ensures (low + tag * 4 / 256 * 256) % 256 == low && (low + tag * 4 / 256 * 256) / 256 * 64 + tag % 64 == tag
  {
    var high := tag / 64;
    assert tag * 4 / 256 == high;
    assert (low + high * 256) / 256 == high;
  }

  lemma Unpack4(f: FieldDef)
    requires Fits(f) && f.width == W4
    ensures |Pack(f)| >= EntryLen(Pack(f)[0])
    ensures Unpack(Pack(f)) == Meant(f).(sizeOffset := AsInt8(f.sizeOffset))
  {
    hide WideWord1;
    hide AsInt8;
    hide Word0;
    WideParts(f);
    Word0Parts(2, f, f.arraySize);
    Cast8(f.sizeOffset);
  }

  lemma Unpack8(f: FieldDef)
    requires Fits(f) && f.width == W8
    ensures |Pack(f)| >= EntryLen(Pack(f)[0])
    ensures Unpack(Pack(f)) == Meant(f).(sizeOffset := AsInt8(f.sizeOffset))
  {
    hide WideWord1;
    hide AsInt8;
    hide Word0;
    WideParts(f);
    Word0Parts(3, f, 0);
    Cast8(f.sizeOffset);
  }

  lemma Cast8(x: nat)
    ensures AsInt8(x % 256) == AsInt8(x)
  {
  }

  /** Where each value stands, by word and bit: format, six bits of tag and the type in the low half of the first
      word, and the rest by format. */
  lemma PackLayout(f: FieldDef)
    requires Fits(f)
    ensures var w := Pack(f);
      w[0] / 4 % 64 == f.tag % 64 && w[0] / 0x100 % 256 == f.typ &&
      w[0] % 4 == (match f.width case W1 => 0 case W2 => 1 case W4 => 2 case W8 => 3)
    ensures f.width == W1 ==> var w := Pack(f);
      w[0] / 0x1_0000 % 256 == f.dataOffset && w[0] / 0x100_0000 % 16 == f.sizeOffset &&
      w[0] / 0x1000_0000 == f.dataSize
    ensures f.width == W2 ==> var w := Pack(f);
      w[0] / 0x1_0000 % 4096 == f.arraySize && w[0] / 0x1000_0000 == f.sizeOffset &&
      w[1] % 0x1_0000 == f.dataOffset && w[1] / 0x1_0000 % 4096 == f.dataSize && w[1] / 0x1000_0000 == f.tag / 64
    ensures f.width == W4 ==> var w := Pack(f);
      w[0] / 0x1_0000 == f.arraySize && w[1] % 256 == f.sizeOffset % 256 && w[1] / 256 == f.tag / 64 &&
      w[2] == f.dataOffset && w[3] == f.dataSize
    ensures f.width == W8 ==> var w := Pack(f);
      w[0] / 0x1_0000 == 0 && w[1] % 256 == f.sizeOffset % 256 && w[1] / 256 == f.tag / 64 &&
      w[2] == f.dataOffset && w[3] == f.dataSize && w[4] == f.arraySize && w[5..] == [0, 0, 0]
  {
    hide Pack;
    PackedHead(f);
    match f.width
    case W1 => Layout1(f);
    case W2 => Layout2(f);
    case W4 => Layout4(f);
    case W8 => Layout8(f);
  }

  lemma Layout1(f: FieldDef)
    requires Fits(f) && f.width == W1
    ensures var w := Pack(f)[0];
      w % 4 == 0 && w / 0x1_0000 % 256 == f.dataOffset && w / 0x100_0000 % 16 == f.sizeOffset &&
      w / 0x1000_0000 == f.dataSize
  {
    hide Word0;
    var above := f.dataOffset + f.sizeOffset * 0x100 + f.dataSize * 0x1000;
    Word0Parts(0, f, above);
    assert Pack(f)[0] == Word0(0, f) + above * 0x1_0000;
    Above1(Pack(f)[0], above, f.dataOffset, f.sizeOffset, f.dataSize);
    AboveTop(Pack(f)[0], above, f.dataOffset + f.sizeOffset * 0x100, f.dataSize);
  }

  lemma Layout2(f: FieldDef)
    requires Fits(f) && f.width == W2
    ensures var w := Pack(f);
      w[0] % 4 == 1 && w[0] / 0x1_0000 % 4096 == f.arraySize && w[0] / 0x1000_0000 == f.sizeOffset &&
      w[1] % 0x1_0000 == f.dataOffset && w[1] / 0x1_0000 % 4096 == f.dataSize && w[1] / 0x1000_0000 == f.tag / 64
  {
    hide Word0;
    var above := f.arraySize + f.sizeOffset * 0x1000;
    Word0Parts(1, f, above);
    assert Pack(f)[0] == Word0(1, f) + above * 0x1_0000;
    Above2(Pack(f)[0], above, f.arraySize, f.sizeOffset);
    AboveTop(Pack(f)[0], above, f.arraySize, f.sizeOffset);
    Second2(Pack(f)[1], f.dataOffset, f.dataSize, f.tag / 64);
  }

  lemma Layout4(f: FieldDef)
    requires Fits(f) && f.width == W4
    ensures var w := Pack(f);
      w[0] % 4 == 2 && w[0] / 0x1_0000 == f.arraySize && w[1] % 256 == f.sizeOffset % 256 && w[1] / 256 == f.tag / 64 &&
      w[2] == f.dataOffset && w[3] == f.dataSize
  {
    hide Word0;
    hide WideWord1;
    Word0Parts(2, f, f.arraySize);
    WideHigh(f);
  }

  lemma Layout8(f: FieldDef)
    requires Fits(f) && f.width == W8
    ensures var w := Pack(f);
      w[0] % 4 == 3 && w[0] / 0x1_0000 == 0 && w[1] % 256 == f.sizeOffset % 256 && w[1] / 256 == f.tag / 64 &&
      w[2] == f.dataOffset && w[3] == f.dataSize && w[4] == f.arraySize && w[5..] == [0, 0, 0]
  {
    hide Word0;
    hide WideWord1;
    Word0Parts(3, f, 0);
    WideHigh(f);
  }

  lemma AboveTop(w: nat, above: nat, low: nat, top: nat)
    requires w / 0x1_0000 == above && above == low + top * 0x1000 && low < 0x1000
    ensures w / 0x1000_0000 == top
  {
    assert w / 0x1000_0000 == above / 0x1000;
  }

  lemma WideHigh(f: FieldDef)
    requires Fits(f) && (f.width == W4 || f.width == W8)
    ensures WideWord1(f) % 256 == f.sizeOffset % 256 && WideWord1(f) / 256 == f.tag / 64
  {
    WideQuotient(f.sizeOffset % 256, f.tag);
  }

  lemma WideQuotient(low: nat, tag: nat)
    requires low < 256
    ensures (low + tag * 4 / 256 * 256) % 256 == low && (low + tag * 4 / 256 * 256) / 256 == tag / 64
  {
    var high := tag / 64;
    assert tag * 4 / 256 == high;
  }

  /** The low four bits of a type byte say what the field holds, 8 and 9 a submessage, 10 an extension; the next two how
      it occurs, 0 required. */
  lemma TypeBits(typ: u8)
    ensures IsSubmsg(typ) <==> typ % 16 == 8 || typ % 16 == 9
    ensures IsExtension(typ) <==> typ % 16 == 10
    ensures IsRequired(typ) <==> typ / 16 % 4 == 0
    ensures IsArray(typ) <==> typ / 16 % 4 == 2 && typ / 64 in {0, 2}
  {
  }

  /** Under the static asserts, an entry reads back as written exactly when the one-word format was
      given a single element, and the wide formats a size offset below 128: the asserts let an
      array size of 0 and size offsets of 256 and more slip through. */
  lemma PackRoundTrip(f: FieldDef)
    requires Fits(f)
    ensures |Pack(f)| >= EntryLen(Pack(f)[0])
    ensures Unpack(Pack(f)) == Meant(f) <==>
      (match f.width case W1 => f.arraySize == 1 case W2 => true case _ => f.sizeOffset < 128)
  {
    hide Pack;
    hide Unpack;
    match f.width
    case W1 => Unpack1(f);
    case W2 => Unpack2(f);
    case W4 => Unpack4(f);
    case W8 => Unpack8(f);
  }

  /** Two entries that pass the asserts and read back wrong: an array size of 0 comes back as 1, a size
      offset of 256 as none. */
  lemma AssertsTooWeak(f: FieldDef, g: FieldDef)
    requires f == FieldDef(W1, 1, 0x10, 0, 4, 0, 0, 0) && g == FieldDef(W4, 1, 0x10, 300, 4, 256, 1, 0)
    ensures Fits(f) && |Pack(f)| >= EntryLen(Pack(f)[0]) && Unpack(Pack(f)) == Meant(f).(arraySize := 1)
    ensures Fits(g) && |Pack(g)| >= EntryLen(Pack(g)[0]) && Unpack(Pack(g)) == Meant(g).(sizeOffset := 0)
  {
    Unpack1(f);
    Unpack4(g);
  }

  /** In every case the tag, the type and the length are right. */
  lemma PackKeepsTag(f: FieldDef)
    requires Fits(f)
    ensures |Pack(f)| >= EntryLen(Pack(f)[0])
    ensures Unpack(Pack(f)).tag == f.tag && Unpack(Pack(f)).typ == f.typ
  {
    hide Pack;
    hide Unpack;
    match f.width
    case W1 => Unpack1(f);
    case W2 => Unpack2(f);
    case W4 => Unpack4(f);
    case W8 => Unpack8(f);
  }

  // ───────────── A message's table ─────────────

  datatype MsgDesc = MsgDesc(fieldInfo: seq<u32>, submsgInfo: seq<nat>, fieldCount: u16, largestTag: u16)

  /** Word, required-field and submessage positions of field `i`. */
  function Offset(fs: seq<FieldDef>, i: nat): nat
    requires i <= |fs|
  {
    if i == 0 then 0 else Offset(fs, i - 1) + Len(fs[i - 1].width)
  }

  function Required(fs: seq<FieldDef>, i: nat): nat
    requires i <= |fs|
  {
    if i == 0 then 0 else Required(fs, i - 1) + if IsRequired(fs[i - 1].typ) then 1 else 0
  }

  function Submsgs(fs: seq<FieldDef>, i: nat): nat
    requires i <= |fs|
  {
    if i == 0 then 0 else Submsgs(fs, i - 1) + if IsSubmsg(fs[i - 1].typ) then 1 else 0
  }

  /** The field_info and submsg_info arrays that PB_BIND generates. */
  function FieldInfo(fs: seq<FieldDef>, k: nat): (w: seq<u32>)
    requires k <= |fs| && forall i :: 0 <= i < |fs| ==> Fits(fs[i])
    ensures |w| == Offset(fs, k)
  {
    if k == 0 then [] else FieldInfo(fs, k - 1) + Pack(fs[k - 1])
  }

  function SubmsgInfo(fs: seq<FieldDef>, k: nat): (s: seq<nat>)
    requires k <= |fs|
    ensures |s| == Submsgs(fs, k)
  {
    if k == 0 then []
    else SubmsgInfo(fs, k - 1) + if IsSubmsg(fs[k - 1].typ) then [fs[k - 1].submsg] else []
  }

  /** The table of a message: packed fields in ascending order of tags, within 16-bit indices. */
  predicate Describes(d: MsgDesc, fs: seq<FieldDef>)
  {
    (forall i :: 0 <= i < |fs| ==> Fits(fs[i])) && (fs == [] ==> d.largestTag == 0) &&
    (forall i, j :: 0 <= i < j < |fs| ==> fs[i].tag < fs[j].tag) &&
    (forall i :: 0 <= i < |fs| ==> fs[i].tag <= d.largestTag) &&
    d.fieldInfo == FieldInfo(fs, |fs|) && d.submsgInfo == SubmsgInfo(fs, |fs|) &&
    d.fieldCount == |fs| && |d.fieldInfo| < 0x1_0000
  }

  lemma {:induction false} OffsetGrows(fs: seq<FieldDef>, i: nat, k: nat)
    requires i <= k <= |fs|
    ensures Offset(fs, i) + (k - i) <= Offset(fs, k) && Required(fs, i) <= Required(fs, k) <= k
    ensures Submsgs(fs, i) <= Submsgs(fs, k) <= k
    decreases k
  {
    if i < k {
      OffsetGrows(fs, i, k - 1);
    } else if k > 0 {
      OffsetGrows(fs, k - 1, k - 1);
    }
  }

  /** The words of field `i` stand at its offset. */
  lemma {:induction false} FieldInfoAt(fs: seq<FieldDef>, i: nat, k: nat)
    requires i < k <= |fs| && forall j :: 0 <= j < |fs| ==> Fits(fs[j])
    ensures Offset(fs, i) + Len(fs[i].width) <= Offset(fs, k)
    ensures FieldInfo(fs, k)[Offset(fs, i)..Offset(fs, i) + Len(fs[i].width)] == Pack(fs[i])
    decreases k
  {
    hide Pack;
    hide Fits;
    var j := k - 1;
    var shorter := FieldInfo(fs, j);
    if i < j {
      FieldInfoAt(fs, i, j);
      assert FieldInfo(fs, k)[..|shorter|] == shorter;
      var a, b := Offset(fs, i), Offset(fs, i) + Len(fs[i].width);
      assert FieldInfo(fs, k)[a..b] == shorter[a..b];
    }
  }

  lemma {:induction false} SubmsgInfoAt(fs: seq<FieldDef>, i: nat, k: nat)
    requires i < k <= |fs| && IsSubmsg(fs[i].typ)
    ensures Submsgs(fs, i) < Submsgs(fs, k)
    ensures SubmsgInfo(fs, k)[Submsgs(fs, i)] == fs[i].submsg
    decreases k
  {
    hide IsSubmsg;
    if i < k - 1 {
      SubmsgInfoAt(fs, i, k - 1);
    }
  }

  /** The entry at the offset of field `i`, as the iterator sees it. */
  lemma {:induction false} EntryAt(d: MsgDesc, fs: seq<FieldDef>, i: nat)
    requires Describes(d, fs) && i < |fs|
    ensures var at := Offset(fs, i);
      (at < at + EntryLen(Pack(fs[i])[0]) <= |d.fieldInfo| && EntryLen(Pack(fs[i])[0]) == Len(fs[i].width) &&
       d.fieldInfo[at] == Pack(fs[i])[0] && d.fieldInfo[at..at + Len(fs[i].width)] == Pack(fs[i]) &&
       d.fieldInfo[at] / 4 % 64 == fs[i].tag % 64 && d.fieldInfo[at] / 256 % 256 == fs[i].typ)
    ensures IsSubmsg(fs[i].typ) ==> Submsgs(fs, i) < |d.submsgInfo| && d.submsgInfo[Submsgs(fs, i)] == fs[i].submsg
  {
    hide Pack;
    hide Fits;
    hide IsSubmsg;
    var at := Offset(fs, i);
    FieldInfoAt(fs, i, |fs|);
    PackedHead(fs[i]);
    assert d.fieldInfo[at..at + Len(fs[i].width)][0] == Pack(fs[i])[0];
    if IsSubmsg(fs[i].typ) {
      SubmsgInfoAt(fs, i, |fs|);
    }
  }

  /** The first word alone tells where the next field is. */
  lemma NextPlace(d: MsgDesc, fs: seq<FieldDef>, i: nat)
    requires Describes(d, fs) && i + 1 < |fs|
    ensures Offset(fs, i) < |d.fieldInfo|
    ensures var prev := d.fieldInfo[Offset(fs, i)];
      ((Offset(fs, i) + EntryLen(prev)) % 0x1_0000 == Offset(fs, i + 1) &&
       (Required(fs, i) + if IsRequired(prev / 256 % 256) then 1 else 0) % 0x1_0000 == Required(fs, i + 1) &&
       (Submsgs(fs, i) + if IsSubmsg(prev / 256 % 256) then 1 else 0) % 0x1_0000 == Submsgs(fs, i + 1))
  {
    hide Pack;
    hide Fits;
    hide IsSubmsg;
    hide IsRequired;
    EntryAt(d, fs, i);
    OffsetGrows(fs, i + 1, |fs|);
  }

  // ───────────── The iterator ─────────────

  /** Where the size, presence or which_ member of a field is: none, at an offset in the message, or
      the array size itself, for an array without a counter. */
  datatype SizePtr = NoSize | InMessage(at: int) | FixedCount

  /** Bits 4 and 5, and the two highest: a repeated field held in the message or behind a pointer. */
  predicate IsArray(typ: u8)
  {
    typ / 16 % 4 == 2 && (typ / 64 == 0 || typ / 64 == 2)
  }

  /** pField, as an offset; null without a message. */
  function FieldPtr(cur: Loaded, hasMessage: bool): Option<nat>
  {
    if hasMessage then Some(cur.dataOffset) else None
  }

  function SizePtrOf(cur: Loaded, hasMessage: bool): SizePtr
  {
    if !hasMessage then NoSize
    else if cur.sizeOffset != 0 then InMessage(cur.dataOffset - cur.sizeOffset)
    else if IsArray(cur.typ) then FixedCount
    else NoSize
  }

  class FieldIter {
    const desc: MsgDesc
    const hasMessage: bool
    ghost const fields: seq<FieldDef>
    var index: nat
    var fieldInfoIndex: nat
    var requiredIndex: nat
    var submsgIndex: nat
    var cur: Loaded
    var pField: Option<nat>
    var pSize: SizePtr
    var submsgDesc: Option<nat>

    /** The position is that of a field: all four indices agree. */
    ghost predicate Placed()
      reads this
    {
      index < |fields| && fieldInfoIndex == Offset(fields, index) &&
      requiredIndex == Required(fields, index) && submsgIndex == Submsgs(fields, index)
    }

    /** Placed, with the values of that field loaded. */
    ghost predicate Valid()
      reads this
    {
      Describes(desc, fields) && Placed() && Unpacks(fields[index], cur) &&
      pField == FieldPtr(cur, hasMessage) && pSize == SizePtrOf(cur, hasMessage) &&
      submsgDesc == if IsSubmsg(fields[index].typ) then Some(fields[index].submsg) else None
    }

    /** All zero, as memset leaves it. */
    ghost predicate Blank()
      reads this
    {
      Describes(desc, fields) && index == 0 && fieldInfoIndex == 0 && requiredIndex == 0 && submsgIndex == 0 &&
      cur == Loaded(0, 0, 0, 0, 0, 0) && pField == None && pSize == NoSize && submsgDesc == None
    }

    constructor (d: MsgDesc, ghost fs: seq<FieldDef>, message: bool)
      requires Describes(d, fs)
      ensures Blank() && desc == d && fields == fs && hasMessage == message
    {
      desc, hasMessage := d, message;
      fields := fs;
      index, fieldInfoIndex, requiredIndex, submsgIndex := 0, 0, 0, 0;
      cur := Loaded(0, 0, 0, 0, 0, 0);
      pField, pSize, submsgDesc := None, NoSize, None;
    }

    /** load_descriptor_values: false, and nothing loaded, past the last field. */
    method Load() returns (ok: bool)
      requires Describes(desc, fields) && (Placed() || index >= |fields|)
      modifies this`cur, this`pField, this`pSize, this`submsgDesc
      ensures ok <==> index < |fields|
      ensures ok ==> Valid()
      ensures !ok ==> unchanged(this)
    {
      hide Pack;
      hide Unpack;
      hide IsArray;
      hide IsSubmsg;
      hide EntryLen;
      hide Offset;
      hide Required;
      hide Submsgs;
      if index >= desc.fieldCount {
        return false;
      }
      EntryAt(desc, fields, index);
      PackKeepsTag(fields[index]);
      var w0 := desc.fieldInfo[fieldInfoIndex];
      cur := Unpack(desc.fieldInfo[fieldInfoIndex..fieldInfoIndex + EntryLen(w0)]);
      if !hasMessage {
        pField, pSize := None, NoSize;
      } else {
        pField := Some(cur.dataOffset);
        if cur.sizeOffset != 0 {
          pSize := InMessage(cur.dataOffset - cur.sizeOffset);
        } else if IsArray(cur.typ) {
          pSize := FixedCount;
        } else {
          pSize := NoSize;
        }
      }
      submsgDesc := if IsSubmsg(cur.typ) then Some(desc.submsgInfo[submsgIndex]) else None;
      ok := true;
    }

    /** pb_field_iter_begin, on an iterator just cleared: false for a message without fields. */
    method Begin() returns (ok: bool)
      requires Blank()
      modifies this`cur, this`pField, this`pSize, this`submsgDesc
      ensures ok <==> fields != []
      ensures ok ==> Valid() && index == 0
      ensures !ok ==> Blank()
    {
      ok := Load();
    }

    /** To the next field, and from the last (or from an index forced to the end) to the first. */
    method Advance()
      requires Describes(desc, fields) && (Placed() || (index == |fields| && fields != []))
      modifies this`index, this`fieldInfoIndex, this`requiredIndex, this`submsgIndex
      ensures Placed() && index == if old(index) + 1 < |fields| then old(index) + 1 else 0
    {
      hide Pack;
      hide Fits;
      hide IsSubmsg;
      hide IsRequired;
      index := index + 1;
      if index >= desc.fieldCount {
        index, fieldInfoIndex, requiredIndex, submsgIndex := 0, 0, 0, 0;
      } else {
        NextPlace(desc, fields, old(index));
        var prev := desc.fieldInfo[fieldInfoIndex];
        var prevType := prev / 256 % 256;
        fieldInfoIndex := (fieldInfoIndex + EntryLen(prev)) % 0x1_0000;
        requiredIndex := (requiredIndex + if IsRequired(prevType) then 1 else 0) % 0x1_0000;
        submsgIndex := (submsgIndex + if IsSubmsg(prevType) then 1 else 0) % 0x1_0000;
      }
    }

    /** pb_field_iter_next: false once it is back at the first field. */
    method Next() returns (more: bool)
      requires Valid()
      modifies this
      ensures Valid() && index == (if old(index) + 1 < |fields| then old(index) + 1 else 0)
      ensures more == (old(index) + 1 < |fields|)
    {
      Advance();
      var ok := Load();
      more := index != 0;
    }

    /** One turn of the search: the next field, its values loaded only if the fast check of the first
        word does not rule it out. */
    method Probe(tag: nat) returns (found: bool)
      requires Describes(desc, fields) && (Placed() || (index == |fields| && fields != []))
      modifies this
      ensures Placed() && index == if old(index) + 1 < |fields| then old(index) + 1 else 0
      ensures found <==> Matches(fields[index], tag)
      ensures found ==> Valid() && cur.tag == tag
    {
      hide Describes;
      hide Unpacks;
      hide Matches;
      Advance();
      EntryHead(desc, fields, index, tag);
      var info := desc.fieldInfo[fieldInfoIndex];
      if info / 4 % 64 != tag % 64 {
        return false;
      }
      var ok := Load();
      EntryValues(fields[index], cur, tag);
      found := cur.tag == tag && !IsExtension(cur.typ);
    }

    /** From any field, or on a message without fields: finds the tag iff a field that is not an
        extension has it, or the iterator already stands on it; otherwise it is left as it was. */
    method Find(tag: nat) returns (found: bool)
      requires Valid() || (Blank() && fields == [])
      modifies this
      ensures old(Valid()) ==> Valid()
      ensures old(Blank()) && fields == [] ==> unchanged(this)
      ensures found <==> old(cur.tag) == tag || exists i :: 0 <= i < |fields| && Matches(fields[i], tag)
      ensures found ==> cur.tag == tag
      ensures !found ==> index == old(index) && cur.tag == old(cur.tag)
    {
      hide Describes;
      hide Unpacks;
      hide Matches;
      if cur.tag == tag {
        return true;
      }
      if tag > desc.largestTag {
        LargestTag(desc, fields, tag);
        return false;
      }
      NotEmpty(desc, fields, tag);
      TableFacts(desc, fields, index, tag, cur);
      var start := index;
      var n := desc.fieldCount;
      ghost var restart := tag < cur.tag;
      if tag < cur.tag {
        index := n;
      }
      ghost var wrapped := restart;
      while true
        invariant Placed() || (index == n && wrapped && restart)
        invariant wrapped || (start <= index && NoMatch(fields, tag, start + 1, index + 1))
        invariant wrapped ==> index == n || (index < start && NoMatch(fields, tag, 0, index + 1))
        invariant wrapped ==> restart || (index < n && NoMatch(fields, tag, start + 1, n))
        decreases if !wrapped then n - index + start + 1 else if index == n then start + 1 else start - index
      {
        found := Probe(tag);
        wrapped := wrapped || index == 0;
        if found {
          return;
        }
        if index == start {
          break;
        }
      }
      var ok := Load();
      EntryValues(fields[index], cur, tag);
      return false;
    }
  }

  /** A message with a field of tag 1 and an extension of tag 2. From the first field tag 2 is not found;
      standing on the extension, it is. */
  method FindOnExtension() returns (elsewhere: bool, standing: bool)
    ensures !elsewhere && standing
  {
    var fs := [FieldDef(W1, 1, 0x10, 0, 4, 0, 1, 0), FieldDef(W1, 2, 0x5A, 4, 4, 0, 1, 0)];
    TwoFields(fs);
    var iter := new FieldIter(MsgDesc(FieldInfo(fs, 2), SubmsgInfo(fs, 2), 2, 2), fs, true);
    hide Describes;
    hide Pack;
    hide Unpacks;
    var ok := iter.Begin();
    FirstTag(iter.fields[0], iter.cur);
    elsewhere := iter.Find(2);
    var more := iter.Next();
    FirstTag(iter.fields[1], iter.cur);
    standing := iter.Find(2);
  }

  lemma FirstTag(f: FieldDef, cur: Loaded)
    requires Unpacks(f, cur)
    ensures cur.tag == f.tag
  {
  }

  lemma {:induction false} TwoFields(fs: seq<FieldDef>)
    requires fs == [FieldDef(W1, 1, 0x10, 0, 4, 0, 1, 0), FieldDef(W1, 2, 0x5A, 4, 4, 0, 1, 0)]
    ensures Fits(fs[0]) && Fits(fs[1])
    ensures Describes(MsgDesc(FieldInfo(fs, 2), SubmsgInfo(fs, 2), 2, 2), fs)
  {
    hide Pack;
    assert Offset(fs, 2) == Offset(fs, 1) + 1 && Offset(fs, 1) == Offset(fs, 0) + 1;
  }

  /** No field lies beyond the largest tag. */
  lemma LargestTag(d: MsgDesc, fs: seq<FieldDef>, tag: nat)
    requires Describes(d, fs) && tag > d.largestTag
    ensures forall i :: 0 <= i < |fs| ==> !Matches(fs[i], tag)
  {
    hide Fits;
  }

  /** A tag to search for, in a message without fields, is beyond its largest tag or 0. */
  lemma NotEmpty(d: MsgDesc, fs: seq<FieldDef>, tag: nat)
    requires Describes(d, fs) && tag <= d.largestTag && (fs == [] ==> tag != 0)
    ensures fs != []
  {
  }

  /** `cur` holds the values of the packed field `f`; tag and type are the field's own. */
  ghost predicate Unpacks(f: FieldDef, cur: Loaded)
  {
    Fits(f) && |Pack(f)| >= EntryLen(Pack(f)[0]) && cur == Unpack(Pack(f)) && cur.tag == f.tag && cur.typ == f.typ
  }

  /** The field is one that pb_field_iter_find looks for. */
  predicate Matches(f: FieldDef, tag: nat)
  {
    f.tag == tag && !IsExtension(f.typ)
  }

  predicate NoMatch(fs: seq<FieldDef>, tag: nat, lo: nat, hi: nat)
  {
    forall i :: lo <= i < hi && i < |fs| ==> !Matches(fs[i], tag)
  }

  /** What the order of the tags says about where a tag can be. */
  lemma TableFacts(d: MsgDesc, fs: seq<FieldDef>, at: nat, tag: nat, cur: Loaded)
    requires Describes(d, fs) && at < |fs| && Unpacks(fs[at], cur)
    ensures d.fieldCount == |fs| && cur.tag == fs[at].tag
    ensures tag < cur.tag ==> NoMatch(fs, tag, at, |fs|)
  {
    hide Unpack;
    hide Pack;
    hide Fits;
  }

  /** The fast check never passes over the field. */
  lemma {:induction false} EntryHead(d: MsgDesc, fs: seq<FieldDef>, i: nat, tag: nat)
    requires Describes(d, fs) && i < |fs|
    ensures Offset(fs, i) < |d.fieldInfo|
    ensures d.fieldInfo[Offset(fs, i)] / 4 % 64 != tag % 64 ==> !Matches(fs[i], tag)
  {
    hide Pack;
    hide Fits;
    EntryAt(d, fs, i);
  }

  lemma EntryValues(f: FieldDef, cur: Loaded, tag: nat)
    requires Unpacks(f, cur)
    ensures cur.tag == f.tag && (cur.tag == tag && !IsExtension(cur.typ) <==> Matches(f, tag))
  {
  }
}
