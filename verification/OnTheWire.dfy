/** The wire format in numbers (Protocol Buffers Encoding, "Message Structure"): which keys and which bytes an
    encoded field consists of, and what the decoder makes of any body that starts with such a key. */
module OnTheWire {
  import opened Prelude
  import opened Varint
  import opened Schema
  import opened OutStream
  import opened Wire
  import opened Meaning
  import opened RoundTrip
  import opened Algebra
  import opened Encoder
  import opened Decoder

  // ───────────── What is sent ─────────────

  /** 5 for fixed 32-bit values, 1 for fixed 64-bit ones, 2 before a length, 0 before a varint. */
  function WireNumber(lt: LType): nat
  {
    match lt
    case Fixed32 => 5
    case Fixed64 => 1
    case Bytes(_) => 2
    case String(_) => 2
    case Submessage(_) => 2
    case _ => 0
  }

  /** `g` is the shortest varint of the number `v`. */
  ghost predicate IsVarint(g: bytes, v: nat)
  {
    IsMinimal(g) && Eval(g) == v
  }

  /** The key of a field: the varint of tag times eight plus the wire number. */
  lemma EncodedKey(f: Field, v: Value) returns (key: bytes)
    requires Shaped(f.ltype, v)
    ensures EncOne(f, v) == key + EncPayload(f.ltype, v, !f.rule.Callback?)
    ensures IsVarint(key, f.tag * 8 + WireNumber(f.ltype))
  {
    key := Key(f.tag, WireType(f.ltype));
    DigitsMinimal(f.tag * 8 + WireType(f.ltype));
  }

  /** The bytes of a scalar. Negative integers are sent as their 64-bit two's complement, or numbered zigzag:
      0, -1, 1, -2 and so on. */
  lemma {:induction false} ScalarBytes(lt: LType, v: Value)
    requires Packable(lt) && Shaped(lt, v)
    ensures lt.Bool? || lt.UVarint? ==> IsVarint(EncScalar(lt, v), v.n)
    ensures lt.Varint? ==> IsVarint(EncScalar(lt, v), if v.n < 0 then v.n + 0x1_0000_0000_0000_0000 else v.n)
    ensures lt.SVarint? ==> IsVarint(EncScalar(lt, v), if v.n < 0 then -2 * v.n - 1 else 2 * v.n)
    ensures lt.Fixed32? ==> EncScalar(lt, v) == Bytes4(v.n)
    ensures lt.Fixed64? ==> EncScalar(lt, v) == Bytes4(v.n) + Bytes4(v.n / 0x1_0000_0000)
  {
    hide Digits;
    hide Bytes4;
    hide IsMinimal;
    match lt
    case Bool => DigitsMinimal(v.n);
    case UVarint(_) => DigitsMinimal(v.n);
    case Varint(_) => DigitsMinimal(ToU64(v.n));
    case SVarint(_) => DigitsMinimal(ZigZag(v.n));
    case Fixed32 => FourBytes(v.n);
    case Fixed64 =>
      FourBytes(v.n);
      FourBytes(v.n / 0x1_0000_0000);
      LittleEndianHalves(v.n);
  }

  /** The four low bytes of a number, least significant first. */
  function Bytes4(v: nat): bytes
  {
    [v % 256, v / 0x100 % 256, v / 0x1_0000 % 256, v / 0x100_0000 % 256]
  }

  lemma {:induction false} FourBytes(v: nat)
    ensures LittleEndian(v, 4) == Bytes4(v)
  {
    LittleEndian4(v);
  }

  /** A string, a byte array or a submessage: the varint of its length, and its contents; a struct member string
      ends before its first zero byte. */
  lemma DelimitedBytes(lt: LType, v: Value, inStruct: bool) returns (length: bytes, contents: bytes)
    requires LengthDelimited(lt) && Shaped(lt, v)
    ensures EncPayload(lt, v, inStruct) == length + contents && IsVarint(length, |contents|)
    ensures lt.Bytes? || (lt.String? && !inStruct) ==> contents == v.s
    ensures lt.String? && inStruct ==>
      contents <= v.s && 0 !in contents && (|contents| < |v.s| ==> v.s[|contents|] == 0)
    ensures lt.Submessage? ==> contents == EncMsg(lt.desc, v.m)
  {
    contents := Contents(lt, v, inStruct);
    length := Digits(|contents|);
    DigitsMinimal(|contents|);
    if lt.String? {
      UpToNulStops(v.s);
    }
  }

  lemma {:induction false} UpToNulStops(s: bytes)
    ensures |UpToNul(s)| < |s| ==> s[|UpToNul(s)|] == 0
  {
    if s != [] && s[0] != 0 {
      UpToNulStops(s[1..]);
    }
  }

  function TokensOf(f: Field, vs: seq<Value>): (ts: seq<Token>)
    requires forall k :: 0 <= k < |vs| ==> Shaped(f.ltype, vs[k])
    ensures |ts| == |vs| && forall k :: 0 <= k < |vs| ==> ts[k] == TokenOf(f, vs[k])
  {
    seq(|vs|, k requires 0 <= k < |vs| => TokenOf(f, vs[k]))
  }

  lemma {:induction false} EachTokens(f: Field, vs: seq<Value>)
    requires WellFormedField(f) && (forall k :: 0 <= k < |vs| ==> Shaped(f.ltype, vs[k]))
    requires |EncEach(f, vs)| < TWO_32
    ensures Tokens(EncEach(f, vs)) == Some(TokensOf(f, vs))
    decreases |vs|
  {
    hide EncOne;
    hide TokenOf;
    hide Shaped;
    hide WellFormedField;
    hide TokensOf;
    if vs == [] {
      NoTokens(f);
    } else {
      hide Tokens;
      var j := |vs| - 1;
      var init, last := vs[..j], vs[j];
      EncEachPrefix(f, vs, j);
      EachTokens(f, init);
      EncOneToken(f, last);
      TokensConcat(EncEach(f, init), EncOne(f, last));
      LastToken(f, vs, j);
    }
  }

  lemma NoTokens(f: Field)
    ensures Tokens([]) == Some([]) && TokensOf(f, []) == []
  {
  }

  lemma {:induction false} LastToken(f: Field, vs: seq<Value>, j: nat)
    requires (forall k :: 0 <= k < |vs| ==> Shaped(f.ltype, vs[k])) && |vs| == j + 1
    ensures TokensOf(f, vs) == TokensOf(f, vs[..j]) + [TokenOf(f, vs[j])]
  {
    hide TokenOf;
    hide Shaped;
  }

  /** How often a field is sent. Nothing is sent for an absent field or for a plain proto3 scalar at its default; a
      packed array is one field; everything else is sent value by value. */
  lemma {:induction false} SlotTokens(f: Field, s: Slot)
    requires WellFormedField(f) && ShapedSlot(f, s) && |EncSlot(f, s)| < TWO_32
    ensures s == [] ==> EncSlot(f, s) == []
    ensures s != [] && f.rule.Singular? && IsDefault(f.ltype, s[0]) ==> EncSlot(f, s) == []
    ensures s != [] && f.rule.Repeated? && Packable(f.ltype) ==>
      Tokens(EncSlot(f, s)) == Some([Token(f.tag, 2, EncItems(f.ltype, s))])
    ensures s != [] && !(f.rule.Singular? && IsDefault(f.ltype, s[0])) && !(f.rule.Repeated? && Packable(f.ltype)) ==>
      Tokens(EncSlot(f, s)) == Some(TokensOf(f, s))
  {
    hide EncItems;
    hide TokenOf;
    hide EncEach;
    if s != [] && !(f.rule.Singular? && IsDefault(f.ltype, s[0])) {
      if f.rule.Repeated? && Packable(f.ltype) {
        var items := EncItems(f.ltype, s);
        FrameDelimited(items, []);
        assert Delimited(items) + [] == Delimited(items);
        OneToken(f.tag, WT_STRING, Delimited(items), items);
      } else {
        EachTokens(f, s);
      }
    }
  }

  /** What a plain proto3 field leaves unsent: 0 and false, the empty byte array, the empty C string. */
  lemma {:induction false} ZeroUnsent(f: Field, v: Value)
    requires WellFormedField(f) && f.rule.Singular? && Shaped(f.ltype, v) && ShapedSlot(f, [v])
    ensures Packable(f.ltype) ==> (EncSlot(f, [v]) == [] <==> v.n == 0)
    ensures f.ltype.Bytes? ==> (EncSlot(f, [v]) == [] <==> v.s == [])
    ensures f.ltype.String? ==> (EncSlot(f, [v]) == [] <==> v.s == [] || v.s[0] == 0)
  {
    hide EncPayload;
    LoneSlot(f, v);
  }

  /** Fields in order: tags that never fall, all of them below `limit`. */
  predicate Rising(ts: seq<Token>, limit: nat)
  {
    (forall i, j :: 0 <= i < j < |ts| ==> ts[i].tag <= ts[j].tag) && forall i :: 0 <= i < |ts| ==> ts[i].tag < limit
  }

  lemma RisingOn(ts: seq<Token>, us: seq<Token>, tag: nat, limit: nat)
    requires Rising(ts, tag) && tag < limit && forall i :: 0 <= i < |us| ==> us[i].tag == tag
    ensures Rising(ts + us, limit)
  {
  }

  lemma {:induction false} SlotTag(f: Field, s: Slot)
    requires WellFormedField(f) && ShapedSlot(f, s) && |EncSlot(f, s)| < TWO_32
    ensures Tokens(EncSlot(f, s)).Some?
    ensures forall i :: 0 <= i < |Tokens(EncSlot(f, s)).value| ==> Tokens(EncSlot(f, s)).value[i].tag == f.tag
  {
    hide EncSlot;
    hide EncItems;
    SlotTokens(f, s);
    NoTokens(f);
  }

  /** A message is sent as fields in the order of their tags. */
  lemma {:induction false} FieldsRise(d: Desc, m: Message, k: nat, limit: nat)
    requires WellFormed(d) && ShapedMsg(d, m) && k <= |m| && |EncFields(d, m, k)| < TWO_32
    requires forall i :: 0 <= i < k ==> d.fields[i].tag < limit
    ensures Tokens(EncFields(d, m, k)).Some? && Rising(Tokens(EncFields(d, m, k)).value, limit)
    decreases k
  {
    hide EncSlot;
    hide Rising;
    if k == 0 {
      NothingRises(limit);
    } else {
      hide Tokens;
      var j := k - 1;
      var f := d.fields[j];
      assert WellFormedField(f);
      FieldsRise(d, m, j, f.tag);
      SlotTag(f, m[j]);
      TokensConcat(EncFields(d, m, j), EncSlot(f, m[j]));
      RisingOn(Tokens(EncFields(d, m, j)).value, Tokens(EncSlot(f, m[j])).value, f.tag, limit);
    }
  }

  lemma NothingRises(limit: nat)
    ensures Tokens([]) == Some([]) && Rising([], limit)
  {
  }

  // ───────────── What is received ─────────────

  /** `key` is a key in front of `b`: a varint of `tag` times eight plus `wt`, of any length the decoder takes. */
  predicate IsKey(key: bytes, tag: nat, wt: nat)
  {
    wt < 8 && Read32(key) == Some((tag * 8 + wt, |key|))
  }

  /** The shortest varint of the number is such a key. */
  lemma ShortestKey(key: bytes, tag: nat, wt: nat)
    requires wt < 8 && tag * 8 + wt < TWO_32 && IsVarint(key, tag * 8 + wt)
    ensures IsKey(key, tag, wt)
  {
    MinimalUnique(key);
    Read32Digits(tag * 8 + wt, []);
    assert key + [] == key;
  }

  lemma {:induction false} KeyInFront(d: Desc, m: Message, key: bytes, tag: nat, wt: nat, b: bytes)
    requires ShapedMsg(d, m) && IsKey(key, tag, wt)
    ensures Read32(key + b) == Some((tag * 8 + wt, |key|)) && (key + b)[|key|..] == b && key + b != []
  {
    Read32Stable(key, b);
  }

  /** A field the schema does not know: four bytes are skipped after a key of wire type 5, eight after 1, a varint
      after 0, a length and as many bytes after 2; no other wire type and no tag 0 is accepted. */
  lemma {:induction false} SkippedField(d: Desc, m: Message, key: bytes, tag: nat, wt: nat, b: bytes)
    requires ShapedMsg(d, m) && IsKey(key, tag, wt) && forall i :: 0 <= i < |d.fields| ==> d.fields[i].tag != tag
    ensures tag > 0 && wt == 5 ==> (Merge(d, m, key + b) == if |b| >= 4 then Merge(d, m, b[4..]) else None)
    ensures tag > 0 && wt == 1 ==> (Merge(d, m, key + b) == if |b| >= 8 then Merge(d, m, b[8..]) else None)
    ensures tag > 0 && wt == 0 ==>
      (Merge(d, m, key + b) == if GroupLen(b).Some? then Merge(d, m, b[GroupLen(b).value..]) else None)
    ensures tag > 0 && wt == 2 ==>
      (Merge(d, m, key + b) == if LengthFits(b) then Merge(d, m, b[LengthEnd(b)..]) else None)
    ensures tag == 0 || wt in {3, 4, 6, 7} ==> Merge(d, m, key + b) == None
  {
    hide Merge;
    hide Read32;
    hide FieldIndex;
    hide Frame;
    KeyInFront(d, m, key, tag, wt, b);
    MergeNext(d, m, key + b);
    KeyParts(tag, wt);
    FrameNumbers(wt, b);
  }

  lemma KeyParts(tag: nat, wt: nat)
    requires wt < 8
    ensures (tag * 8 + wt) / 8 == tag && (tag * 8 + wt) % 8 == wt
  {
  }

  /** A length and as many bytes stand in front. */
  predicate LengthFits(b: bytes)
  {
    Read32(b).Some? && Read32(b).value.1 + Read32(b).value.0 <= |b|
  }

  function LengthEnd(b: bytes): (n: nat)
    requires LengthFits(b)
    ensures n <= |b|
  {
    Read32(b).value.1 + Read32(b).value.0
  }

  /** What the length speaks of. */
  function Counted(b: bytes): bytes
    requires LengthFits(b)
  {
    b[Read32(b).value.1..LengthEnd(b)]
  }

  /** The payloads by number. */
  lemma {:induction false} FrameNumbers(wt: nat, b: bytes)
    ensures wt == 5 ==> Frame(wt, b) == if |b| >= 4 then Some((b[..4], b[4..])) else None
    ensures wt == 1 ==> Frame(wt, b) == if |b| >= 8 then Some((b[..8], b[8..])) else None
    ensures wt == 0 ==>
      (Frame(wt, b) == if GroupLen(b).Some? then Some((b[..GroupLen(b).value], b[GroupLen(b).value..])) else None)
    ensures wt == 2 ==> Frame(wt, b) == if LengthFits(b) then Some((Counted(b), b[LengthEnd(b)..])) else None
    ensures wt !in {0, 1, 2, 5} ==> Frame(wt, b) == None
  {
    hide Read32;
    hide GroupLen;
  }

  /** A known field in front of a body: its payload is applied, or the whole is refused. */
  lemma {:induction false} KnownField(d: Desc, m: Message, i: nat, key: bytes, wt: nat, b: bytes)
    requires WellFormed(d) && ShapedMsg(d, m) && i < |m| && IsKey(key, d.fields[i].tag, wt)
    ensures Frame(wt, b).None? ==> Merge(d, m, key + b) == None
    ensures Frame(wt, b).Some? ==>
      var s := ApplyField(d.fields[i], m[i], Token(d.fields[i].tag, wt, Frame(wt, b).value.0));
      (Merge(d, m, key + b) == if s.None? then None else Merge(d, Place(d, m, i, s.value), Frame(wt, b).value.1))
  {
    hide Merge;
    hide Read32;
    hide FieldIndex;
    hide Frame;
    hide ApplyField;
    KeyInFront(d, m, key, d.fields[i].tag, wt, b);
    MergeNext(d, m, key + b);
    KeyParts(d.fields[i].tag, wt);
    FieldIndexOf(d, i);
    assert WellFormedField(d.fields[i]);
  }

  /** A field with one value: plain, with a has_ flag, or a oneof member. */
  predicate Plain(f: Field)
  {
    f.rule.Singular? || f.rule.Optional? || f.rule.Oneof?
  }

  lemma {:induction false} PlainScalar(d: Desc, m: Message, i: nat, key: bytes, wt: nat, b: bytes)
    requires WellFormed(d) && ShapedMsg(d, m) && i < |m| && IsKey(key, d.fields[i].tag, wt)
    requires Plain(d.fields[i]) && Packable(d.fields[i].ltype)
    ensures var lt, p := d.fields[i].ltype, Frame(wt, b);
      (Merge(d, m, key + b) ==
       if wt == WireNumber(lt) && p.Some? && ReadScalar(lt, p.value.0).Some?
       then Merge(d, Place(d, m, i, [ReadScalar(lt, p.value.0).value.0]), p.value.1) else None)
  {
    hide Merge;
    hide Frame;
    hide IsKey;
    hide ReadScalar;
    hide Place;
    KnownField(d, m, i, key, wt, b);
  }

  /** The number in four or eight bytes, least significant first. */
  function Number4(b: bytes): (n: nat)
    requires |b| >= 4
    ensures n < TWO_32
  {
    b[0] as int + 0x100 * b[1] as int + 0x1_0000 * b[2] as int + 0x100_0000 * b[3] as int
  }

  function Number8(b: bytes): (n: nat)
    requires |b| >= 8
    ensures n < TWO_64
  {
    Number4(b) + 0x1_0000_0000 * Number4(b[4..])
  }

  lemma {:induction false} ReadNumber4(b: bytes)
    requires |b| >= 4
    ensures FromLittleEndian(b[..4]) == Number4(b)
  {
    var s := b[..4];
    assert FromLittleEndian(s[3..]) == s[3] as int + 256 * FromLittleEndian(s[3..][1..]);
    assert s[3..][1..] == [];
    assert s[2..][1..] == s[3..] && s[1..][1..] == s[2..];
    assert FromLittleEndian(s[2..]) == s[2] as int + 256 * FromLittleEndian(s[3..]);
    assert FromLittleEndian(s[1..]) == s[1] as int + 256 * FromLittleEndian(s[2..]);
  }

  lemma {:induction false} ReadNumber8(b: bytes)
    requires |b| >= 8
    ensures FromLittleEndian(b[..8]) == Number8(b)
  {
    var s := b[..8];
    ReadNumber4(s[4..]);
    assert s[4..][..4] == s[4..] && s[4..] == b[4..][..4];
    assert s[3..][1..] == s[4..] && s[2..][1..] == s[3..] && s[1..][1..] == s[2..];
    assert FromLittleEndian(s[3..]) == s[3] as int + 256 * FromLittleEndian(s[4..]);
    assert FromLittleEndian(s[2..]) == s[2] as int + 256 * FromLittleEndian(s[3..]);
    assert FromLittleEndian(s[1..]) == s[1] as int + 256 * FromLittleEndian(s[2..]);
  }

  /** A fixed-width field takes exactly its bytes, least significant first, and only under its own wire type. */
  lemma {:induction false} ReceivedFixed(d: Desc, m: Message, i: nat, key: bytes, wt: nat, b: bytes)
    requires WellFormed(d) && ShapedMsg(d, m) && i < |m| && IsKey(key, d.fields[i].tag, wt) && Plain(d.fields[i])
    requires d.fields[i].ltype.Fixed32? || d.fields[i].ltype.Fixed64?
    ensures d.fields[i].ltype.Fixed32? ==>
      (Merge(d, m, key + b) ==
       if wt == 5 && |b| >= 4 then Merge(d, Place(d, m, i, [Num(Number4(b))]), b[4..]) else None)
    ensures d.fields[i].ltype.Fixed64? ==>
      (Merge(d, m, key + b) ==
       if wt == 1 && |b| >= 8 then Merge(d, Place(d, m, i, [Num(Number8(b))]), b[8..]) else None)
  {
    hide Merge;
    hide Frame;
    hide IsKey;
    hide Place;
    PlainScalar(d, m, i, key, wt, b);
    FrameNumbers(wt, b);
    if |b| >= 4 {
      ReadNumber4(b);
      assert b[..4][..4] == b[..4];
    }
    if |b| >= 8 {
      ReadNumber8(b);
      assert b[..8][..8] == b[..8];
    }
  }

  lemma {:induction false} GroupAlone(b: bytes)
    requires GroupLen(b).Some?
    ensures Read32(b[..GroupLen(b).value]) == Read32(b) && Read64(b[..GroupLen(b).value]) == Read64(b)
  {
    var n := GroupLen(b).value;
    GroupLenOf(b[..n], []);
    assert b[..n] + [] == b[..n] && b[..n][..n] == b[..n];
  }

  /** The number an integer field takes from the varint `u`: two's complement in 64 bits, or in the low 32 for narrower
      fields; zigzag for the signed types. */
  function FromVarint(lt: LType, u: nat): int
  {
    match lt
    case Varint(bits) =>
      if bits == 64 then (if u < 0x8000_0000_0000_0000 then u else u - 0x1_0000_0000_0000_0000)
      else
        var low := u % 0x1_0000_0000;
        if low < 0x8000_0000 then low else low - 0x1_0000_0000
    case SVarint(_) => if u % 2 == 0 then u / 2 else -((u + 1) / 2)
    case _ => u
  }

  /** The values an integer member of 8, 16, 32 or 64 bits holds. */
  predicate Holds(lt: LType, v: int)
  {
    match lt
    case UVarint(bits) =>
      0 <= v <= (if bits == 8 then 0xFF else if bits == 16 then 0xFFFF else if bits == 32 then 0xFFFF_FFFF
                 else 0xFFFF_FFFF_FFFF_FFFF)
    case _ =>
      var bits := if lt.Varint? then lt.bits else if lt.SVarint? then lt.bits else 64;
      if bits == 8 then -128 <= v <= 127
      else if bits == 16 then -32768 <= v <= 32767
      else if bits == 32 then -0x8000_0000 <= v <= 0x7FFF_FFFF
      else -0x8000_0000_0000_0000 <= v <= 0x7FFF_FFFF_FFFF_FFFF
  }

  predicate WidthOk(lt: LType)
  {
    (lt.Varint? ==> lt.bits in {8, 16, 32, 64}) && (lt.UVarint? ==> lt.bits in {8, 16, 32, 64}) &&
    (lt.SVarint? ==> lt.bits in {8, 16, 32, 64})
  }

  lemma {:induction false} HoldsExactly(lt: LType, v: int)
    requires WidthOk(lt) && Integer(lt)
    ensures Shaped(lt, Num(v)) <==> Holds(lt, v)
  {
  }

  lemma ReadInteger(lt: LType, b: bytes)
    requires WidthOk(lt) && Integer(lt)
    ensures ReadScalar(lt, b) ==
      if Read64(b).Some? && Holds(lt, FromVarint(lt, Read64(b).value.0))
      then Some((Num(FromVarint(lt, Read64(b).value.0)), Read64(b).value.1)) else None
  {
    hide Read64;
    hide Half;
    hide Holds;
    if Read64(b).Some? {
      Halves(lt, Read64(b).value.0);
      HalfRange(lt, FromVarint(lt, Read64(b).value.0));
    }
  }

  lemma HalfRange(lt: LType, v: int)
    requires WidthOk(lt)
    ensures lt.Varint? ==> (-Half(lt.bits) <= v < Half(lt.bits) <==> Holds(lt, v))
    ensures lt.SVarint? ==> (-Half(lt.bits) <= v < Half(lt.bits) <==> Holds(lt, v))
    ensures lt.UVarint? ==> (0 <= v < 2 * Half(lt.bits) <==> Holds(lt, v))
  {
  }

  lemma Halves(lt: LType, u: nat)
    requires WidthOk(lt) && u < TWO_64
    ensures lt.Varint? ==>
      FromVarint(lt, u) == if Half(lt.bits) == TWO_63 then AsInt64(u) else AsInt32(u)
    ensures lt.SVarint? ==> FromVarint(lt, u) == UnZigZag(u)
    ensures lt.UVarint? ==> FromVarint(lt, u) == u
  {
  }

  predicate Integer(lt: LType)
  {
    lt.Varint? || lt.UVarint? || lt.SVarint?
  }

  /** An integer field takes a varint of at most ten bytes and 64 bits, if its member holds the number. */
  lemma {:induction false} ReceivedInteger(d: Desc, m: Message, i: nat, key: bytes, wt: nat, b: bytes)
    requires WellFormed(d) && ShapedMsg(d, m) && i < |m| && IsKey(key, d.fields[i].tag, wt) && Plain(d.fields[i])
    requires Integer(d.fields[i].ltype) && WidthOk(d.fields[i].ltype)
    ensures var lt, u := d.fields[i].ltype, Read64(b);
      (Merge(d, m, key + b) ==
       if wt == 0 && u.Some? && Holds(lt, FromVarint(lt, u.value.0))
       then (HoldsExactly(lt, FromVarint(lt, u.value.0));
             Merge(d, Place(d, m, i, [Num(FromVarint(lt, u.value.0))]), b[u.value.1..]))
       else None)
  {
    hide Merge;
    hide Frame;
    hide IsKey;
    hide FromVarint;
    hide Holds;
    hide ReadScalar;
    hide Place;
    PlainScalar(d, m, i, key, wt, b);
    FrameNumbers(wt, b);
    if GroupLen(b).Some? {
      GroupAlone(b);
      ReadInteger(d.fields[i].ltype, b[..GroupLen(b).value]);
    }
  }

  /** A bool takes any number: 0 is false, everything else true. */
  lemma {:induction false} ReceivedBool(d: Desc, m: Message, i: nat, key: bytes, wt: nat, b: bytes)
    requires WellFormed(d) && ShapedMsg(d, m) && i < |m| && IsKey(key, d.fields[i].tag, wt) && Plain(d.fields[i])
    requires d.fields[i].ltype.Bool?
    ensures Merge(d, m, key + b) ==
       if wt == 0 && Read32(b).Some?
       then Merge(d, Place(d, m, i, [Num(if Read32(b).value.0 == 0 then 0 else 1)]), b[Read32(b).value.1..])
       else None
  {
    hide Merge;
    hide Frame;
    hide IsKey;
    hide Place;
    PlainScalar(d, m, i, key, wt, b);
    FrameNumbers(wt, b);
    if GroupLen(b).Some? {
      GroupAlone(b);
    }
  }

  /** A string or byte array takes a length and as many bytes, if its member has room for them: one byte more for a
      string's terminator, two for the length of a byte array. */
  lemma {:induction false} ReceivedBytes(d: Desc, m: Message, i: nat, key: bytes, wt: nat, b: bytes)
    requires WellFormed(d) && ShapedMsg(d, m) && i < |m| && IsKey(key, d.fields[i].tag, wt) && Plain(d.fields[i])
    ensures d.fields[i].ltype.String? || d.fields[i].ltype.Bytes? ==>
      var lt := d.fields[i].ltype;
      (Merge(d, m, key + b) ==
       if wt == 2 && LengthFits(b) && |Counted(b)| + (if lt.String? then 1 else 2) <= lt.dataSize
       then Merge(d, Place(d, m, i, [Blob(Counted(b))]), b[LengthEnd(b)..]) else None)
  {
    hide Merge;
    hide Frame;
    hide IsKey;
    hide LengthFits;
    hide Counted;
    KnownField(d, m, i, key, wt, b);
    FrameNumbers(wt, b);
    assert WellFormedField(d.fields[i]);
  }

  /** A repeated scalar may also come item by item: each goes to the end of the array, if there is room. */
  lemma {:induction false} ReceivedItem(d: Desc, m: Message, i: nat, key: bytes, wt: nat, b: bytes)
    requires WellFormed(d) && ShapedMsg(d, m) && i < |m| && IsKey(key, d.fields[i].tag, wt) && wt != 2
    requires d.fields[i].rule.Repeated? && Packable(d.fields[i].ltype)
    ensures var f, p := d.fields[i], Frame(wt, b);
      (Merge(d, m, key + b) ==
       if wt == WireNumber(f.ltype) && p.Some? && |m[i]| < f.rule.maxCount && ReadScalar(f.ltype, p.value.0).Some?
       then Merge(d, Place(d, m, i, m[i] + [ReadScalar(f.ltype, p.value.0).value.0]), p.value.1) else None)
  {
    hide Merge;
    hide Frame;
    hide IsKey;
    hide ReadScalar;
    hide ReadItems;
    hide Place;
    KnownField(d, m, i, key, wt, b);
  }

  lemma {:induction false} ItemsExactly(lt: LType, vs: seq<Value>, room: nat)
    requires Packable(lt) && forall k :: 0 <= k < |vs| ==> Shaped(lt, vs[k])
    ensures ReadItems(lt, EncItems(lt, vs), room) == if |vs| <= room then Some(vs) else None
    decreases |vs|
  {
    hide EncScalar;
    hide ReadScalar;
    if |vs| <= room {
      ItemsRoundTrip(lt, vs, room);
    } else {
      var tail := EncItems(lt, vs[1..]);
      ScalarRoundTrip(lt, vs[0], tail);
      ItemStands(lt, vs[0]);
      if room > 0 {
        ItemsExactly(lt, vs[1..], room - 1);
        assert (EncScalar(lt, vs[0]) + tail)[|EncScalar(lt, vs[0])|..] == tail;
      }
    }
  }

  lemma {:induction false} ItemStands(lt: LType, v: Value)
    requires Packable(lt) && Shaped(lt, v)
    ensures EncScalar(lt, v) != []
  {
  }

  /** Packed, all of them go to the end of the array, if there is room for all. */
  lemma {:induction false} ReceivedPacked(d: Desc, m: Message, i: nat, vs: seq<Value>)
    requires WellFormed(d) && ShapedMsg(d, m) && i < |m| && ShapedSlot(d.fields[i], vs)
    requires d.fields[i].rule.Repeated? && Packable(d.fields[i].ltype) && |m[i]| <= d.fields[i].rule.maxCount
    ensures var f := d.fields[i];
      Apply(d, m, Token(f.tag, 2, EncItems(f.ltype, vs))) ==
      if |m[i]| + |vs| <= f.rule.maxCount then Some(Place(d, m, i, m[i] + vs)) else None
  {
    hide EncItems;
    hide ReadItems;
    hide Place;
    var f := d.fields[i];
    ItemsExactly(f.ltype, vs, f.rule.maxCount - |m[i]|);
    FieldIndexOf(d, i);
    ApplyKnown(d, m, Token(f.tag, 2, EncItems(f.ltype, vs)), i);
  }

  lemma {:induction false} EmptyDecodes(d: Desc)
    ensures Decode(d, []) == Some(DefaultMsg(d))
  {
    MergeNothing(d, DefaultMsg(d));
  }

  /** An empty body stands for zeros and empty texts, and for nothing in all other fields. */
  lemma {:induction false} EmptyBody(d: Desc, i: nat)
    requires i < |d.fields|
    ensures Decode(d, []).Some? && |Decode(d, []).value| == |d.fields|
    ensures var f, s := d.fields[i], Decode(d, []).value[i];
      (!f.rule.Singular? ==> s == []) &&
      (f.rule.Singular? && Packable(f.ltype) ==> s == [Num(0)]) &&
      (f.rule.Singular? && (f.ltype.String? || f.ltype.Bytes?) ==> s == [Blob([])]) &&
      (f.rule.Singular? && f.ltype.Submessage? ==>
         |s| == 1 && s[0].Msg? && Decode(f.ltype.desc, []) == Some(s[0].m))
  {
    hide Decode;
    EmptyDecodes(d);
    assert DefaultMsg(d)[i] == DefaultSlot(d.fields[i]);
    if d.fields[i].ltype.Submessage? {
      EmptyDecodes(d.fields[i].ltype.desc);
    }
  }
}
