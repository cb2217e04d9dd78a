/** What a received body means for a message: its fields, applied to the message one at a time.
    This is the reference against which the stream decoder of pb_decode.c is proved. */
module Meaning {
  import opened Prelude
  import opened Varint
  import opened Schema
  import opened OutStream
  import opened Wire

  /** A packable value read from the front of `b`, with the bytes it takes. */
  function ReadScalar(lt: LType, b: bytes): (r: Option<(Value, nat)>)
    requires Packable(lt)
    ensures r.Some? ==> 1 <= r.value.1 <= |b| && Shaped(lt, r.value.0)
  {
    match lt
    case Bool =>
      var v := Read32(b);
      if v.None? then None else Some((Num(if v.value.0 != 0 then 1 else 0), v.value.1))
    case UVarint(bits) =>
      var v := Read64(b);
      if v.Some? && v.value.0 < 2 * Half(bits) then Some((Num(v.value.0), v.value.1)) else None
    case Varint(bits) =>
      // anything but an int64 member is narrowed to int32 before the range check
      var v := Read64(b);
      if v.None? then None
      else Ranged(bits, if Half(bits) == TWO_63 then AsInt64(v.value.0) else AsInt32(v.value.0), v.value.1)
    case SVarint(bits) =>
      var v := Read64(b);
      if v.None? then None else Ranged(bits, UnZigZag(v.value.0), v.value.1)
    case Fixed32 => if |b| >= 4 then FixedBound(b[..4]); Some((Num(FromLittleEndian(b[..4])), 4)) else None
    case Fixed64 => if |b| >= 8 then FixedBound(b[..8]); Some((Num(FromLittleEndian(b[..8])), 8)) else None
  }

  function Ranged(bits: nat, v: int, n: nat): Option<(Value, nat)>
  {
    if -Half(bits) <= v < Half(bits) then Some((Num(v), n)) else None
  }

  lemma {:induction false} FixedBound(s: bytes)
    ensures FromLittleEndian(s) < Pow256(|s|)
    ensures Pow256(4) == TWO_32 && Pow256(8) == TWO_64
  {
    assert Pow256(4) == TWO_32;
    assert Pow256(8) == 256 * 256 * 256 * 256 * Pow256(4);
    if s != [] {
      FixedBound(s[1..]);
    }
  }

  /** A packed body: values to its end, `room` of them at most. */
  function ReadItems(lt: LType, b: bytes, room: nat): (r: Option<seq<Value>>)
    requires Packable(lt)
    ensures r.Some? ==> |r.value| <= room && forall k :: 0 <= k < |r.value| ==> Shaped(lt, r.value[k])
    decreases room
  {
    if b == [] then Some([])
    else if room == 0 then None
    else
      var v := ReadScalar(lt, b);
      if v.None? then None
      else
        var rest := ReadItems(lt, b[v.value.1..], room - 1);
        if rest.None? then None else Some([v.value.0] + rest.value)
  }

  /** The value one payload gives a field that held `prior`; submessages merge into it. */
  function ReadValue(lt: LType, prior: Value, t: Token, inStruct: bool): (r: Option<Value>)
    requires Shaped(lt, prior)
    ensures r.Some? ==> Shaped(lt, r.value)
    decreases lt, 0
  {
    if Packable(lt) then
      if t.wireType != WireType(lt) then None
      else
        var v := ReadScalar(lt, t.payload);
        if v.None? then None else Some(v.value.0)
    else if inStruct && t.wireType != WT_STRING then None
    else match lt
      case Bytes(size) =>
        if inStruct && (|t.payload| > 0xFFFF || |t.payload| + 2 > size) then None else Some(Blob(t.payload))
      case String(size) =>
        if inStruct && |t.payload| + 1 > size then None else Some(Blob(t.payload))
      case Submessage(d) =>
        var m := Merge(d, prior.m, t.payload);
        if m.None? then None else Some(Msg(m.value))
  }

  function FieldIndex(d: Desc, tag: nat): (r: Option<nat>)
    ensures r.Some? ==> r.value < |d.fields| && d.fields[r.value].tag == tag
    ensures r.None? ==> forall i :: 0 <= i < |d.fields| ==> d.fields[i].tag != tag
  {
    FieldIndexBelow(d, tag, |d.fields|)
  }

  function FieldIndexBelow(d: Desc, tag: nat, k: nat): (r: Option<nat>)
    requires k <= |d.fields|
    ensures r.Some? ==> r.value < k && d.fields[r.value].tag == tag
    ensures r.None? ==> forall i :: 0 <= i < k ==> d.fields[i].tag != tag
  {
    if k == 0 then None
    else if d.fields[k - 1].tag == tag then Some(k - 1)
    else FieldIndexBelow(d, tag, k - 1)
  }

  /** Setting a oneof member makes its group's which_ name it: every other member is absent. */
  function Select(d: Desc, m: Message, i: nat, v: Value): (r: Message)
    requires ShapedMsg(d, m) && i < |m| && d.fields[i].rule.Oneof? && Shaped(d.fields[i].ltype, v)
    ensures ShapedMsg(d, r) && r[i] == [v]
  {
    seq(|m|, j requires 0 <= j < |m| =>
      if j == i then [v]
      else if d.fields[j].rule == d.fields[i].rule then []
      else m[j])
  }

  function Update(d: Desc, m: Message, i: nat, s: Slot): (r: Message)
    requires ShapedMsg(d, m) && i < |m| && !d.fields[i].rule.Oneof? && ShapedSlot(d.fields[i], s)
    ensures ShapedMsg(d, r)
  {
    m[i := s]
  }

  /** The value a field already holds, or its default. */
  function Held(f: Field, s: Slot): (v: Value)
    requires ShapedSlot(f, s)
    ensures Shaped(f.ltype, v)
  {
    if s == [] || f.rule.Repeated? || f.rule.Callback? then DefaultValue(f.ltype) else s[0]
  }

  /** The new contents of a known field. */
  function ApplyField(f: Field, s: Slot, t: Token): (r: Option<Slot>)
    requires ShapedSlot(f, s)
    ensures r.Some? ==> ShapedSlot(f, r.value)
    ensures r.Some? && f.rule.Oneof? ==> |r.value| == 1
    decreases f, 1
  {
    match f.rule
    case Callback =>
      if LengthDelimited(f.ltype) then
        if t.wireType == WT_VARINT && |t.payload| > 10 then None
        else
          var v := ReadValue(f.ltype, Held(f, s), t, false);
          if v.None? then None else Some(s + [v.value])
      else None
    case Repeated(maxCount) =>
      if t.wireType == WT_STRING && Packable(f.ltype) then
        if |s| > maxCount then (if t.payload == [] then Some(s) else None)
        else
          var items := ReadItems(f.ltype, t.payload, maxCount - |s|);
          if items.None? then None else Some(s + items.value)
      else if |s| >= maxCount then None
      else
        var v := ReadValue(f.ltype, Held(f, s), t, true);
        if v.None? then None else Some(s + [v.value])
    case _ =>
      var v := ReadValue(f.ltype, Held(f, s), t, true);
      if v.None? then None else Some([v.value])
  }

  /** One field of the body; unknown tags are skipped. */
  function Apply(d: Desc, m: Message, t: Token): (r: Option<Message>)
    requires ShapedMsg(d, m)
    ensures r.Some? ==> ShapedMsg(d, r.value)
    decreases d, 2
  {
    var i := FieldIndex(d, t.tag);
    if i.None? then Some(m)
    else
      var s := ApplyField(d.fields[i.value], m[i.value], t);
      if s.None? then None
      else if d.fields[i.value].rule.Oneof? then Some(Select(d, m, i.value, s.value[0]))
      else Some(Update(d, m, i.value, s.value))
  }

  function ApplyAll(d: Desc, m: Message, ts: seq<Token>): (r: Option<Message>)
    requires ShapedMsg(d, m)
    ensures r.Some? ==> ShapedMsg(d, r.value)
    decreases d, 3, |ts|
  {
    if ts == [] then Some(m)
    else
      var m' := Apply(d, m, ts[0]);
      if m'.None? then None else ApplyAll(d, m'.value, ts[1..])
  }

  /** Decoding a body into an existing message. */
  function Merge(d: Desc, m: Message, b: bytes): (r: Option<Message>)
    requires ShapedMsg(d, m)
    ensures r.Some? ==> ShapedMsg(d, r.value)
    decreases d, 4
  {
    var ts := Tokens(b);
    if ts.None? then None else ApplyAll(d, m, ts.value)
  }

  /** pb_decode: defaults first, then the body. */
  function Decode(d: Desc, b: bytes): (r: Option<Message>)
    ensures r.Some? ==> ShapedMsg(d, r.value)
  {
    Merge(d, DefaultMsg(d), b)
  }
}
