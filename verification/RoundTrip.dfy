/** Decoding what was encoded gives back the message, for every schema and every message on it. */
module RoundTrip {
  import opened Prelude
  import opened Varint
  import opened Schema
  import opened OutStream
  import opened Wire
  import opened Meaning

  // ───────────── Scalars and packed bodies ─────────────

  lemma Signed(bits: nat, n: int)
    requires -Half(bits) <= n < Half(bits)
    ensures (if Half(bits) == TWO_63 then AsInt64(ToU64(n)) else AsInt32(ToU64(n))) == n
  {
  }

  lemma {:induction false} FixedRoundTrip(v: nat, size: nat, rest: bytes)
    requires v < Pow256(size)
    ensures |LittleEndian(v, size) + rest| >= size
    ensures FromLittleEndian((LittleEndian(v, size) + rest)[..size]) == v
  {
    LittleEndianInverse(v, size);
    assert (LittleEndian(v, size) + rest)[..size] == LittleEndian(v, size);
  }

  /** A packable value is read back from its encoding, whatever follows it. */
  lemma {:induction false} ScalarRoundTrip(lt: LType, v: Value, rest: bytes)
    requires Packable(lt) && Shaped(lt, v)
    ensures ReadScalar(lt, EncScalar(lt, v) + rest) == Some((v, |EncScalar(lt, v)|))
  {
    match lt
    case Bool => Read32Digits(v.n, rest);
    case Varint(bits) => VarintRoundTrip(bits, v.n, rest);
    case UVarint(_) => Read64Digits(v.n, rest);
    case SVarint(bits) => SVarintRoundTrip(bits, v.n, rest);
    case Fixed32 =>
      FixedBound([]);
      FixedRoundTrip(v.n, 4, rest);
    case Fixed64 =>
      FixedBound([]);
      FixedRoundTrip(v.n, 8, rest);
  }

  lemma VarintRoundTrip(bits: nat, n: int, rest: bytes)
    requires -Half(bits) <= n < Half(bits)
    ensures ReadScalar(Varint(bits), Digits(ToU64(n)) + rest) == Some((Num(n), |Digits(ToU64(n))|))
  {
    Read64Digits(ToU64(n), rest);
    Signed(bits, n);
  }

  lemma SVarintRoundTrip(bits: nat, n: int, rest: bytes)
    requires -Half(bits) <= n < Half(bits)
    ensures ReadScalar(SVarint(bits), Digits(ZigZag(n)) + rest) == Some((Num(n), |Digits(ZigZag(n))|))
  {
    ZigZagBijection(n, 0);
    Read64Digits(ZigZag(n), rest);
  }

  lemma {:induction false} FirstItem(lt: LType, v: Value, tail: bytes, room: nat, r: seq<Value>)
    requires Packable(lt) && Shaped(lt, v) && room >= 1
    requires ReadItems(lt, tail, room - 1) == Some(r)
    ensures ReadItems(lt, EncScalar(lt, v) + tail, room) == Some([v] + r)
  {
    var e := EncScalar(lt, v);
    ScalarRoundTrip(lt, v, tail);
    assert (e + tail)[|e|..] == tail;
  }

  /** A packed body is read back whole when the array has room for it. */
  lemma {:induction false} ItemsRoundTrip(lt: LType, vs: seq<Value>, room: nat)
    requires Packable(lt) && (forall k :: 0 <= k < |vs| ==> Shaped(lt, vs[k])) && |vs| <= room
    ensures ReadItems(lt, EncItems(lt, vs), room) == Some(vs)
    decreases |vs|
  {
    hide EncScalar;
    hide ReadScalar;
    if vs != [] {
      ItemsRoundTrip(lt, vs[1..], room - 1);
      FirstItem(lt, vs[0], EncItems(lt, vs[1..]), room, vs[1..]);
      assert [vs[0]] + vs[1..] == vs;
    }
  }

  // ───────────── One value on the wire ─────────────

  /** The payload of a value as the tokenizer sees it. */
  function TokenOf(f: Field, v: Value): Token
    requires Shaped(f.ltype, v)
  {
    Token(f.tag, WireType(f.ltype),
          if Packable(f.ltype) then EncScalar(f.ltype, v) else Contents(f.ltype, v, !f.rule.Callback?))
  }

  lemma KeyRead(tag: nat, wireType: nat, rest: bytes)
    requires 1 <= tag <= 0xFFFF && wireType < 8
    ensures Read32(Key(tag, wireType) + rest) == Some((tag * 8 + wireType, |Key(tag, wireType)|))
  {
    Read32Digits(tag * 8 + wireType, rest);
  }

  lemma FrameDelimited(s: bytes, rest: bytes)
    requires |s| < TWO_32
    ensures Frame(WT_STRING, Delimited(s) + rest) == Some((s, rest))
  {
    var n := Digits(|s|);
    assert Delimited(s) + rest == n + (s + rest);
    Read32Digits(|s|, s + rest);
    assert (n + (s + rest))[|n|..|n| + |s|] == s;
    assert (n + (s + rest))[|n| + |s|..] == rest;
  }

  lemma {:induction false} FrameScalar(lt: LType, v: Value, rest: bytes)
    requires Packable(lt) && Shaped(lt, v)
    ensures Frame(WireType(lt), EncScalar(lt, v) + rest) == Some((EncScalar(lt, v), rest))
  {
    var e := EncScalar(lt, v);
    assert (e + rest)[..|e|] == e && (e + rest)[|e|..] == rest;
    match lt
    case Fixed32 =>
    case Fixed64 =>
    case Bool => DigitsMinimal(v.n); GroupLenOf(e, rest);
    case Varint(_) => DigitsMinimal(ToU64(v.n)); GroupLenOf(e, rest);
    case UVarint(_) => DigitsMinimal(v.n); GroupLenOf(e, rest);
    case SVarint(_) => DigitsMinimal(ZigZag(v.n)); GroupLenOf(e, rest);
  }

  /** A single field is a body with a single token. */
  lemma {:induction false} OneToken(tag: nat, wireType: nat, body: bytes, payload: bytes)
    requires 1 <= tag <= 0xFFFF && wireType < 8
    requires Frame(wireType, body) == Some((payload, []))
    ensures Tokens(Key(tag, wireType) + body) == Some([Token(tag, wireType, payload)])
  {
    hide Read32;
    hide Key;
    hide Frame;
    var b := Key(tag, wireType) + body;
    KeyRead(tag, wireType, body);
    assert b[|Key(tag, wireType)|..] == body;
    assert NextToken(b) == Some((Token(tag, wireType, payload), []));
    TokensStep(b, Token(tag, wireType, payload), []);
    assert Tokens([]) == Some([]);
    assert [Token(tag, wireType, payload)] + [] == [Token(tag, wireType, payload)];
  }

  lemma {:induction false} EncOneToken(f: Field, v: Value)
    requires WellFormedField(f) && Shaped(f.ltype, v)
    requires |EncOne(f, v)| < TWO_32
    ensures Tokens(EncOne(f, v)) == Some([TokenOf(f, v)])
  {
    if Packable(f.ltype) {
      FrameScalar(f.ltype, v, []);
      assert EncScalar(f.ltype, v) + [] == EncScalar(f.ltype, v);
      OneToken(f.tag, WireType(f.ltype), EncScalar(f.ltype, v), EncScalar(f.ltype, v));
    } else {
      var s := Contents(f.ltype, v, !f.rule.Callback?);
      FrameDelimited(s, []);
      assert Delimited(s) + [] == Delimited(s);
      OneToken(f.tag, WT_STRING, Delimited(s), s);
    }
  }

  /** Reading a value's payload over default contents gives the value. */
  lemma {:induction false} ValueRoundTrip(f: Field, v: Value)
    requires WellFormedField(f) && Shaped(f.ltype, v) && NulSafe(f, v)
    requires ValueFits(f.ltype, v) || (f.rule.Callback? && !f.ltype.Submessage?)
    requires |EncOne(f, v)| < TWO_32
    ensures ReadValue(f.ltype, DefaultValue(f.ltype), TokenOf(f, v), !f.rule.Callback?) == Some(v)
    decreases f, 0
  {
    if Packable(f.ltype) {
      ScalarRoundTrip(f.ltype, v, []);
      assert EncScalar(f.ltype, v) + [] == EncScalar(f.ltype, v);
    } else if f.ltype.Submessage? {
      assert |Contents(f.ltype, v, !f.rule.Callback?)| <= |EncOne(f, v)|;
      MessageRoundTrip(f.ltype.desc, v.m);
    }
  }

  // ───────────── Bodies apply field by field ─────────────

  lemma {:induction false} ApplyAllConcat(d: Desc, m: Message, s: seq<Token>, t: seq<Token>)
    requires ShapedMsg(d, m)
    ensures ApplyAll(d, m, s + t) ==
      if ApplyAll(d, m, s).Some? then ApplyAll(d, ApplyAll(d, m, s).value, t) else None
    decreases |s|
  {
    if s == [] {
      assert s + t == t;
    } else {
      assert (s + t)[1..] == s[1..] + t;
      var m' := Apply(d, m, s[0]);
      if m'.Some? {
        ApplyAllConcat(d, m'.value, s[1..], t);
      }
    }
  }

  /** At a field boundary a body may be merged in two steps. */
  lemma {:induction false} MergeConcat(d: Desc, m: Message, a: bytes, b: bytes)
    requires ShapedMsg(d, m) && Merge(d, m, a).Some?
    ensures Merge(d, m, a + b) == Merge(d, Merge(d, m, a).value, b)
  {
    TokensConcat(a, b);
    if Tokens(b).Some? {
      ApplyAllConcat(d, m, Tokens(a).value, Tokens(b).value);
    }
  }

  lemma {:induction false} MergeOne(d: Desc, m: Message, b: bytes, t: Token)
    requires ShapedMsg(d, m) && Tokens(b) == Some([t])
    ensures Merge(d, m, b) == Apply(d, m, t)
  {
    assert [t][1..] == [];
    if Apply(d, m, t).Some? {
      assert ApplyAll(d, Apply(d, m, t).value, []) == Apply(d, m, t);
    }
  }

  lemma {:induction false} FieldIndexOf(d: Desc, i: nat)
    requires WellFormed(d) && i < |d.fields|
    ensures FieldIndex(d, d.fields[i].tag) == Some(i)
  {
    assert FieldIndex(d, d.fields[i].tag).Some?;
  }

  /** One more value of a repeated or callback field, after the values already there. */
  lemma {:induction false} NextValue(d: Desc, p: Message, i: nat, v: Value)
    requires WellFormed(d) && ShapedMsg(d, p) && i < |p| && Shaped(d.fields[i].ltype, v)
    requires d.fields[i].rule.Repeated? || d.fields[i].rule.Callback?
    requires d.fields[i].rule.Repeated? ==> |p[i]| < d.fields[i].rule.maxCount && !Packable(d.fields[i].ltype)
    requires |EncOne(d.fields[i], v)| < TWO_32
    requires ReadValue(d.fields[i].ltype, DefaultValue(d.fields[i].ltype), TokenOf(d.fields[i], v),
                       !d.fields[i].rule.Callback?) == Some(v)
    ensures Merge(d, p, EncOne(d.fields[i], v)) == Some(Update(d, p, i, p[i] + [v]))
  {
    var f := d.fields[i];
    EncOneToken(f, v);
    MergeOne(d, p, EncOne(f, v), TokenOf(f, v));
    FieldIndexOf(d, i);
  }

  /** The values of a repeated or callback field, one by one. */
  lemma {:induction false} EachRoundTrip(d: Desc, m: Message, i: nat, vs: seq<Value>)
    requires WellFormed(d) && ShapedMsg(d, m) && i < |m| && m[i] == []
    requires d.fields[i].rule.Repeated? || d.fields[i].rule.Callback?
    requires d.fields[i].rule.Repeated? ==> !Packable(d.fields[i].ltype)
    requires ShapedSlot(d.fields[i], vs) && SlotFits(d.fields[i], vs)
    requires forall k :: 0 <= k < |vs| ==> NulSafe(d.fields[i], vs[k])
    requires |EncEach(d.fields[i], vs)| < TWO_32
    ensures Merge(d, m, EncEach(d.fields[i], vs)) == Some(Update(d, m, i, vs))
    decreases d.fields[i], 2, |vs|
  {
    var f := d.fields[i];
    if vs == [] {
      assert Tokens([]) == Some([]);
      assert m[i := []] == m;
    } else {
      var init, last := vs[..|vs| - 1], vs[|vs| - 1];
      assert init + [last] == vs;
      EachRoundTrip(d, m, i, init);
      EachLast(d, m, i, init, last);
    }
  }

  lemma {:induction false} EachLast(d: Desc, m: Message, i: nat, init: seq<Value>, last: Value)
    requires WellFormed(d) && ShapedMsg(d, m) && i < |m|
    requires d.fields[i].rule.Repeated? || d.fields[i].rule.Callback?
    requires d.fields[i].rule.Repeated? ==> |init| < d.fields[i].rule.maxCount && !Packable(d.fields[i].ltype)
    requires ShapedSlot(d.fields[i], init) && Shaped(d.fields[i].ltype, last) && NulSafe(d.fields[i], last)
    requires ValueFits(d.fields[i].ltype, last) || (d.fields[i].rule.Callback? && !d.fields[i].ltype.Submessage?)
    requires |EncOne(d.fields[i], last)| < TWO_32
    requires Merge(d, m, EncEach(d.fields[i], init)) == Some(Update(d, m, i, init))
    ensures Merge(d, m, EncEach(d.fields[i], init) + EncOne(d.fields[i], last)) == Some(Update(d, m, i, init + [last]))
    decreases d.fields[i], 1, 0
  {
    ValueRoundTrip(d.fields[i], last);
    EachStep(d, m, i, init, last);
  }

  lemma {:induction false} EachStep(d: Desc, m: Message, i: nat, init: seq<Value>, last: Value)
    requires WellFormed(d) && ShapedMsg(d, m) && i < |m|
    requires d.fields[i].rule.Repeated? || d.fields[i].rule.Callback?
    requires d.fields[i].rule.Repeated? ==> |init| < d.fields[i].rule.maxCount && !Packable(d.fields[i].ltype)
    requires ShapedSlot(d.fields[i], init) && Shaped(d.fields[i].ltype, last)
    requires Merge(d, m, EncEach(d.fields[i], init)) == Some(Update(d, m, i, init))
    requires |EncOne(d.fields[i], last)| < TWO_32
    requires ReadValue(d.fields[i].ltype, DefaultValue(d.fields[i].ltype), TokenOf(d.fields[i], last),
                       !d.fields[i].rule.Callback?) == Some(last)
    ensures Merge(d, m, EncEach(d.fields[i], init) + EncOne(d.fields[i], last))
      == Some(Update(d, m, i, init + [last]))
  {
    var p := Update(d, m, i, init);
    NextValue(d, p, i, last);
    MergeConcat(d, m, EncEach(d.fields[i], init), EncOne(d.fields[i], last));
    assert p[i := init + [last]] == m[i := init + [last]];
  }

  // ───────────── Whole messages ─────────────

  /** The first `k` fields of `m` over default contents. */
  function Partial(d: Desc, m: Message, k: nat): (p: Message)
    requires ShapedMsg(d, m) && k <= |m|
    ensures ShapedMsg(d, p)
  {
    seq(|m|, i requires 0 <= i < |m| => if i < k then m[i] else DefaultSlot(d.fields[i]))
  }

  /** Nothing is sent for an absent value or a default one, and nothing is what they need. */
  lemma {:induction false} AbsentRoundTrip(d: Desc, m: Message, k: nat)
    requires ShapedMsg(d, m) && NulFreeMsg(d, m) && k < |m|
    requires m[k] == [] || (d.fields[k].rule.Singular? && IsDefault(d.fields[k].ltype, m[k][0]))
    ensures Partial(d, m, k) == Partial(d, m, k + 1) && Merge(d, Partial(d, m, k), []) == Some(Partial(d, m, k))
  {
    var f := d.fields[k];
    if m[k] != [] {
      IsDefaultExact(f.ltype, m[k][0]);
      assert m[k] == [DefaultValue(f.ltype)];
    }
    assert m[k] == DefaultSlot(f);
    assert Tokens([]) == Some([]);
  }

  lemma {:induction false} PackedRoundTrip(d: Desc, m: Message, k: nat)
    requires WellFormed(d) && ShapedMsg(d, m) && k < |m| && |EncSlot(d.fields[k], m[k])| < TWO_32
    requires d.fields[k].rule.Repeated? && Packable(d.fields[k].ltype)
    requires 1 <= |m[k]| <= d.fields[k].rule.maxCount
    ensures Merge(d, Partial(d, m, k), EncSlot(d.fields[k], m[k])) == Some(Partial(d, m, k + 1))
  {
    var f, p := d.fields[k], Partial(d, m, k);
    var items := EncItems(f.ltype, m[k]);
    FrameDelimited(items, []);
    assert Delimited(items) + [] == Delimited(items);
    OneToken(f.tag, WT_STRING, Delimited(items), items);
    MergeOne(d, p, EncSlot(f, m[k]), Token(f.tag, WT_STRING, items));
    PackedApplied(d, p, k, m[k]);
    assert p[k := m[k]] == Partial(d, m, k + 1);
  }

  lemma {:induction false} PackedApplied(d: Desc, p: Message, k: nat, vs: seq<Value>)
    requires WellFormed(d) && ShapedMsg(d, p) && k < |p| && p[k] == [] && ShapedSlot(d.fields[k], vs)
    requires d.fields[k].rule.Repeated? && Packable(d.fields[k].ltype) && |vs| <= d.fields[k].rule.maxCount
    ensures Apply(d, p, Token(d.fields[k].tag, WT_STRING, EncItems(d.fields[k].ltype, vs))) == Some(Update(d, p, k, vs))
  {
    ItemsRoundTrip(d.fields[k].ltype, vs, d.fields[k].rule.maxCount);
    FieldIndexOf(d, k);
    assert [] + vs == vs;
  }

  /** A lone value arriving at a field that still has its default. */
  lemma {:induction false} SingleRoundTrip(d: Desc, m: Message, k: nat, v: Value)
    requires WellFormed(d) && ShapedMsg(d, m) && k < |m| && m[k] == [v] && Shaped(d.fields[k].ltype, v)
    requires d.fields[k].rule.Singular? || d.fields[k].rule.Optional? || d.fields[k].rule.Oneof?
    requires |EncOne(d.fields[k], v)| < TWO_32
    requires ReadValue(d.fields[k].ltype, DefaultValue(d.fields[k].ltype), TokenOf(d.fields[k], v), true) == Some(v)
    ensures Merge(d, Partial(d, m, k), EncOne(d.fields[k], v)) == Some(Partial(d, m, k + 1))
  {
    hide Merge;
    hide EncOne;
    hide ReadValue;
    var f, p := d.fields[k], Partial(d, m, k);
    EncOneToken(f, v);
    MergeOne(d, p, EncOne(f, v), TokenOf(f, v));
    FieldIndexOf(d, k);
    if f.rule.Oneof? {
      SelectPartial(d, m, k, v);
    } else {
      assert p[k := [v]] == Partial(d, m, k + 1);
    }
  }

  lemma {:induction false} SelectPartial(d: Desc, m: Message, k: nat, v: Value)
    requires ShapedMsg(d, m) && k < |m| && m[k] == [v] && d.fields[k].rule.Oneof?
    requires Shaped(d.fields[k].ltype, v)
    ensures Select(d, Partial(d, m, k), k, v) == Partial(d, m, k + 1)
  {
    assert forall j :: 0 <= j < |m| && j != k && d.fields[j].rule == d.fields[k].rule ==> m[j] == [];
  }

  lemma {:induction false} SlotRoundTrip(d: Desc, m: Message, k: nat)
    requires WellFormed(d) && ShapedMsg(d, m) && NulFreeMsg(d, m) && Encodable(d, m) && k < |m|
    requires |EncSlot(d.fields[k], m[k])| < TWO_32
    ensures Merge(d, Partial(d, m, k), EncSlot(d.fields[k], m[k])) == Some(Partial(d, m, k + 1))
    decreases d, 2
  {
    var f, s := d.fields[k], m[k];
    if s == [] || (f.rule.Singular? && IsDefault(f.ltype, s[0])) {
      AbsentRoundTrip(d, m, k);
    } else if f.rule.Repeated? && Packable(f.ltype) {
      PackedRoundTrip(d, m, k);
    } else if f.rule.Repeated? || f.rule.Callback? {
      EachRoundTrip(d, Partial(d, m, k), k, s);
      assert Partial(d, m, k)[k := s] == Partial(d, m, k + 1);
    } else {
      assert s == [s[0]];
      LoneSlot(f, s[0]);
      ValueRoundTrip(f, s[0]);
      SingleRoundTrip(d, m, k, s[0]);
    }
  }

  lemma {:induction false} FieldsRoundTrip(d: Desc, m: Message, k: nat)
    requires WellFormed(d) && ShapedMsg(d, m) && NulFreeMsg(d, m) && Encodable(d, m) && k <= |m|
    requires |EncFields(d, m, k)| < TWO_32
    ensures Merge(d, DefaultMsg(d), EncFields(d, m, k)) == Some(Partial(d, m, k))
    decreases d, 3, k, 0
  {
    hide Merge;
    hide EncFields;
    hide Partial;
    hide Encodable;
    hide NulFreeMsg;
    hide WellFormed;
    if k == 0 {
      NothingSent(d, m);
    } else {
      FieldsStep(d, m, k - 1);
    }
  }

  lemma {:induction false} FieldsStep(d: Desc, m: Message, j: nat)
    requires WellFormed(d) && ShapedMsg(d, m) && NulFreeMsg(d, m) && Encodable(d, m) && j < |m|
    requires |EncFields(d, m, j + 1)| < TWO_32
    ensures Merge(d, DefaultMsg(d), EncFields(d, m, j + 1)) == Some(Partial(d, m, j + 1))
    decreases d, 3, j, 1
  {
    hide Merge;
    hide EncSlot;
    hide Partial;
    hide Encodable;
    hide NulFreeMsg;
    hide WellFormed;
    FieldsRoundTrip(d, m, j);
    SlotRoundTrip(d, m, j);
    MergeConcat(d, DefaultMsg(d), EncFields(d, m, j), EncSlot(d.fields[j], m[j]));
  }

  lemma {:induction false} NothingSent(d: Desc, m: Message)
    requires ShapedMsg(d, m)
    ensures Merge(d, DefaultMsg(d), EncFields(d, m, 0)) == Some(Partial(d, m, 0))
  {
    assert Tokens([]) == Some([]);
    assert DefaultMsg(d) == Partial(d, m, 0);
  }

  /** The law of the codec. The size hypothesis is the 32-bit size_t of the encoder. */
  lemma {:induction false} MessageRoundTrip(d: Desc, m: Message)
    requires WellFormed(d) && ShapedMsg(d, m) && NulFreeMsg(d, m) && Encodable(d, m)
    requires |EncMsg(d, m)| < TWO_32
    ensures Decode(d, EncMsg(d, m)) == Some(m)
    decreases d, 4
  {
    FieldsRoundTrip(d, m, |m|);
    assert Partial(d, m, |m|) == m;
  }
}
