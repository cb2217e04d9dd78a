/** pb_encode.c: the recursive encoder over a stream. Every method appends exactly the bytes that
    `Wire` assigns to its argument, or fails; submessages are encoded twice, to size and to write. */
module Encoder {
  import opened Prelude
  import opened Varint
  import opened OutStream
  import opened Schema
  import opened Wire

  function When(c: bool, b: bytes): Option<bytes>
  {
    if c then Some(b) else None
  }

  /** pb_enc_bool, pb_enc_varint, pb_enc_fixed. */
  method EncodeScalar(os: OStream, lt: LType, v: Value) returns (ok: bool)
    requires os.Valid() && Packable(lt) && Shaped(lt, v)
    modifies os, os.buf
    ensures os.Valid() && os.buf == old(os.buf)
    ensures Emits(old(os.Snap()), os.Snap(), Some(EncScalar(lt, v)), ok)
  {
    match lt
    case Bool => ok := os.EncodeVarint(v.n);
    case UVarint(_) => ok := os.EncodeVarint(v.n);
    case Varint(_) => ok := os.EncodeVarint(ToU64(v.n));
    case SVarint(_) => ok := os.EncodeSVarint(v.n);
    case Fixed32 => ok := os.EncodeFixed32(v.n);
    case Fixed64 => ok := os.EncodeFixed64(v.n);
  }

  /** strnlen over a character array of `max` + 1 bytes, and whether the string ends there. */
  method StringLength(s: bytes, max: nat) returns (n: nat, terminated: bool)
    ensures n <= |s| && (terminated <==> |UpToNul(s)| <= max)
    ensures terminated ==> s[..n] == UpToNul(s)
  {
    n := 0;
    while n < max && n < |s| && s[n] != 0
      invariant n <= |s| && n <= max
      invariant forall j :: 0 <= j < n ==> s[j] != 0
    {
      n := n + 1;
    }
    terminated := n == |s| || s[n] == 0;
    UpToNulLength(s, n);
    if !terminated {
      UpToNulLength(s, n + 1);
    }
  }

  /** pb_enc_bytes, pb_enc_string, pb_enc_submessage; a callback sends its blobs whole. */
  method EncodeDelimited(os: OStream, lt: LType, v: Value, inStruct: bool) returns (ok: bool)
    requires os.Valid() && LengthDelimited(lt) && Shaped(lt, v)
    requires |Contents(lt, v, inStruct)| < TWO_32 && (lt.Submessage? ==> WellFormed(lt.desc))
    modifies os, os.buf
    ensures os.Valid() && os.buf == old(os.buf)
    ensures Emits(old(os.Snap()), os.Snap(), When(Sendable(lt, v, inStruct), Delimited(Contents(lt, v, inStruct))), ok)
    decreases lt, 2
  {
    hide EncMsg;
    hide WellFormed;
    hide Digits;
    hide Emits;
    EmitsRefused(os.Snap());
    match lt
    case Bytes(size) =>
      if inStruct && |v.s| + 2 > size {
        return false;
      }
      ok := os.EncodeString(v.s);
    case String(size) =>
      var n := |v.s|;
      if inStruct {
        if size == 0 {
          return false;
        }
        var terminated;
        n, terminated := StringLength(v.s, size - 1);
        if !terminated {
          return false;
        }
      }
      assert v.s[..n] == Contents(lt, v, inStruct);
      ok := os.EncodeString(v.s[..n]);
    case Submessage(d) =>
      ok := EncodeSubmessage(os, d, v.m);
  }

  predicate AllSendable(f: Field, vs: seq<Value>)
    requires forall k :: 0 <= k < |vs| ==> Shaped(f.ltype, vs[k])
  {
    forall k :: 0 <= k < |vs| ==> Sendable(f.ltype, vs[k], !f.rule.Callback?)
  }

  predicate Sendable(lt: LType, v: Value, inStruct: bool)
    requires Shaped(lt, v)
  {
    ValueFits(lt, v) || (!inStruct && !lt.Submessage?)
  }

  /** The state of `os` once a substream over the same buffer has advanced from it. */
  lemma SubstreamMerged(a: OState, sub: OState, sub': OState, b: OState, e: bytes)
    requires a.Ok() && !a.sizing && a.Room(|e|)
    requires sub == OState(false, a.mem, a.pos, |e|, 0) && Emits(sub, sub', Some(e), true)
    requires b == OState(false, sub'.mem, sub'.pos, a.limit, a.written + sub'.written)
    ensures sub'.written == |e| && b.Ok() && Emits(a, b, Some(e), true)
  {
    assert b == a.Append(e);
    assert b.mem[..a.pos] == a.mem[..a.pos];
    assert b.mem[a.End()..] == a.mem[a.End()..];
  }

  method EncodeSubmessage(os: OStream, d: Desc, m: Message) returns (ok: bool)
    requires os.Valid() && WellFormed(d) && ShapedMsg(d, m) && |EncMsg(d, m)| < TWO_32
    modifies os, os.buf
    ensures os.Valid() && os.buf == old(os.buf)
    ensures Emits(old(os.Snap()), os.Snap(), When(Encodable(d, m), Delimited(EncMsg(d, m))), ok)
    decreases d, 9
  {
    hide Emits;
    hide Digits;
    hide EncMsg;
    ghost var a := os.Snap();
    ghost var body := EncMsg(d, m);
    var sub := new OStream.Sizing();
    ghost var s := sub.Snap();
    ok := Encode(sub, d, m);
    EmitsWhen(s, sub.Snap(), Encoding(d, m), ok);
    assert os.Snap() == a;
    if !ok {
      EmitsRefused(a);
      return;
    }
    var size := sub.bytesWritten;
    assert size == |body|;

    ok := os.EncodeVarint(size);
    ghost var b := os.Snap();
    if !ok {
      EmitsFailed(a, b, Some(Digits(size)), Some(body));
      return;
    }
    if os.buf == null {
      EmitsCounted(b, body);
      os.Count(size);
      EmitsThen(a, b, os.Snap(), Some(Digits(size)), Some(body), true);
      return true;
    }
    if os.bytesWritten + size > os.maxSize {
      EmitsFull(b, body);
      EmitsThen(a, b, b, Some(Digits(size)), Some(body), false);
      return false;
    }
    sub := new OStream.Over(os.buf, os.pos, size);
    s := sub.Snap();
    var status := Encode(sub, d, m);
    EmitsWhen(s, sub.Snap(), Encoding(d, m), status);
    os.bytesWritten := os.bytesWritten + sub.bytesWritten;
    os.pos := sub.pos;
    SubstreamMerged(b, s, sub.Snap(), os.Snap(), body);
    assert sub.bytesWritten == size;      // "submsg size changed" cannot happen
    ok := status && sub.bytesWritten == size;
    EmitsThen(a, b, os.Snap(), Some(Digits(size)), Some(body), ok);
  }

  method EncodeBasicField(os: OStream, f: Field, v: Value) returns (ok: bool)
    requires os.Valid() && Shaped(f.ltype, v) && WellFormedField(f) && |EncOne(f, v)| < TWO_32
    modifies os, os.buf
    ensures os.Valid() && os.buf == old(os.buf)
    ensures Emits(old(os.Snap()), os.Snap(), When(Sendable(f.ltype, v, !f.rule.Callback?), EncOne(f, v)), ok)
    decreases f, 3
  {
    hide Emits;
    hide Digits;
    ghost var a := os.Snap();
    ghost var key := Key(f.tag, WireType(f.ltype));
    ghost var body := When(Sendable(f.ltype, v, !f.rule.Callback?), EncPayload(f.ltype, v, !f.rule.Callback?));
    ok := os.EncodeTag(WireType(f.ltype), f.tag);
    ghost var b := os.Snap();
    if !ok {
      EmitsFailed(a, b, Some(key), body);
      return;
    }
    if Packable(f.ltype) {
      ok := EncodeScalar(os, f.ltype, v);
    } else {
      ok := EncodeDelimited(os, f.ltype, v, !f.rule.Callback?);
    }
    EmitsThen(a, b, os.Snap(), Some(key), body, ok);
  }

  /** Output part by part: after `e`, the next part of `whole` either follows or fails the whole. */
  lemma NextPart(a: OState, b: OState, c: OState, e: bytes, part: Option<bytes>,
                 whole: Option<bytes>, ok: bool)
    requires a.Ok() && Emits(a, b, Some(e), true) && Emits(b, c, part, ok)
    requires whole.Some? ==> part.Some? && |e| + |part.value| <= |whole.value|
    ensures ok ==> part.Some? && Emits(a, c, Some(e + part.value), true)
    ensures !ok ==> Emits(a, c, whole, false)
  {
    EmitsThen(a, b, c, Some(e), part, ok);
  }

  // ───────────── Arrays ─────────────

  lemma {:induction false} FixedItems(lt: LType, vs: seq<Value>)
    requires (lt.Fixed32? || lt.Fixed64?) && forall k :: 0 <= k < |vs| ==> Shaped(lt, vs[k])
    ensures |EncItems(lt, vs)| == (if lt.Fixed32? then 4 else 8) * |vs|
    decreases |vs|
  {
    if vs != [] {
      FixedItems(lt, vs[1..]);
    }
  }

  /** The size of a packed body: computed for fixed-width items, measured for the others. */
  method PackedSize(lt: LType, vs: seq<Value>) returns (size: nat)
    requires Packable(lt) && forall k :: 0 <= k < |vs| ==> Shaped(lt, vs[k])
    ensures size == |EncItems(lt, vs)|
  {
    if lt.Fixed32? {
      FixedItems(lt, vs);
      return 4 * |vs|;
    }
    if lt.Fixed64? {
      FixedItems(lt, vs);
      return 8 * |vs|;
    }
    var sizing := new OStream.Sizing();
    var i := 0;
    assert vs[0..] == vs;
    while i < |vs|
      invariant i <= |vs| && sizing.Valid() && fresh(sizing) && sizing.buf == null
      invariant sizing.bytesWritten + |EncItems(lt, vs[i..])| == |EncItems(lt, vs)|
    {
      assert vs[i..][1..] == vs[i + 1..];
      var ok := EncodeScalar(sizing, lt, vs[i]);
      i := i + 1;
    }
    size := sizing.bytesWritten;
  }

  lemma Regroup(a: bytes, b: bytes, c: bytes)
    ensures a + (b + c) == a + b + c
  {
  }

  method EncodeItems(os: OStream, lt: LType, vs: seq<Value>) returns (ok: bool)
    requires os.Valid() && Packable(lt) && forall k :: 0 <= k < |vs| ==> Shaped(lt, vs[k])
    modifies os, os.buf
    ensures os.Valid() && os.buf == old(os.buf)
    ensures Emits(old(os.Snap()), os.Snap(), Some(EncItems(lt, vs)), ok)
  {
    hide Emits;
    hide EncScalar;
    ghost var a, whole := os.Snap(), EncItems(lt, vs);
    ghost var done: bytes := [];
    EmitsNothing(a);
    var rest := vs;
    while rest != []
      invariant os.Valid() && os.buf == old(os.buf)
      invariant forall k :: 0 <= k < |rest| ==> Shaped(lt, rest[k])
      invariant done + EncItems(lt, rest) == whole
      invariant Emits(a, os.Snap(), Some(done), true)
      decreases |rest|
    {
      ghost var b, item := os.Snap(), EncScalar(lt, rest[0]);
      Regroup(done, item, EncItems(lt, rest[1..]));
      ok := EncodeScalar(os, lt, rest[0]);
      NextPart(a, b, os.Snap(), done, Some(item), Some(whole), ok);
      if !ok {
        return;
      }
      done := done + item;
      rest := rest[1..];
    }
    assert done == whole;
    ok := true;
  }

  method EncodePacked(os: OStream, f: Field, vs: seq<Value>) returns (ok: bool)
    requires os.Valid() && Packable(f.ltype) && forall k :: 0 <= k < |vs| ==> Shaped(f.ltype, vs[k])
    requires WellFormedField(f) && |EncItems(f.ltype, vs)| < TWO_32
    modifies os, os.buf
    ensures os.Valid() && os.buf == old(os.buf)
    ensures Emits(old(os.Snap()), os.Snap(), Some(Key(f.tag, WT_STRING) + Delimited(EncItems(f.ltype, vs))), ok)
  {
    hide Emits;
    hide EncItems;
    ghost var a := os.Snap();
    ghost var key, items := Key(f.tag, WT_STRING), EncItems(f.ltype, vs);
    ok := os.EncodeTag(WT_STRING, f.tag);
    ghost var b := os.Snap();
    if !ok {
      EmitsFailed(a, b, Some(key), Some(Delimited(items)));
      return;
    }
    var size := PackedSize(f.ltype, vs);
    ok := os.EncodeVarint(size);
    ghost var c := os.Snap();
    if !ok {
      EmitsFailed(b, c, Some(Digits(size)), Some(items));
      EmitsThen(a, b, c, Some(key), Some(Delimited(items)), false);
      return;
    }
    if os.buf == null {
      EmitsCounted(c, items);
      os.Count(size);
    } else {
      ok := EncodeItems(os, f.ltype, vs);
    }
    EmitsThen(b, c, os.Snap(), Some(Digits(size)), Some(items), ok);
    EmitsThen(a, b, os.Snap(), Some(key), Some(Delimited(items)), ok);
  }

  lemma {:induction false} EncEachPrefix(f: Field, vs: seq<Value>, k: nat)
    requires (forall k :: 0 <= k < |vs| ==> Shaped(f.ltype, vs[k])) && k <= |vs|
    ensures |EncEach(f, vs[..k])| <= |EncEach(f, vs)|
    ensures forall j :: 0 <= j < k ==> |EncOne(f, vs[j])| <= |EncEach(f, vs)|
    decreases |vs|
  {
    hide EncOne;
    hide Shaped;
    if k < |vs| {
      assert vs[..|vs| - 1][..k] == vs[..k];
      EncEachPrefix(f, vs[..|vs| - 1], k);
    } else if k > 0 {
      assert vs[..k] == vs;
      EncEachPrefix(f, vs[..k - 1], k - 1);
    }
  }

  lemma {:induction false} NextEach(f: Field, vs: seq<Value>, i: nat)
    requires (forall k :: 0 <= k < |vs| ==> Shaped(f.ltype, vs[k])) && i < |vs|
    ensures EncEach(f, vs[..i + 1]) == EncEach(f, vs[..i]) + EncOne(f, vs[i])
    ensures |EncEach(f, vs[..i])| + |EncOne(f, vs[i])| <= |EncEach(f, vs)|
  {
    EncEachPrefix(f, vs, i + 1);
    assert vs[..i + 1][..i] == vs[..i];
  }

  /** Unpacked elements of an array, or the values a callback supplies. */
  method EncodeEach(os: OStream, f: Field, vs: seq<Value>) returns (ok: bool)
    requires os.Valid() && WellFormedField(f) && forall k :: 0 <= k < |vs| ==> Shaped(f.ltype, vs[k])
    requires |EncEach(f, vs)| < TWO_32
    modifies os, os.buf
    ensures os.Valid() && os.buf == old(os.buf)
    ensures Emits(old(os.Snap()), os.Snap(), When(AllSendable(f, vs), EncEach(f, vs)), ok)
    decreases f, 4
  {
    hide EncOne;
    hide Shaped;
    hide Sendable;
    hide Emits;
    ghost var a := os.Snap();
    ghost var done: bytes := [];
    EmitsNothing(a);
    var i := 0;
    while i < |vs|
      invariant i <= |vs| && os.Valid() && os.buf == old(os.buf)
      invariant done == EncEach(f, vs[..i])
      invariant forall k :: 0 <= k < i ==> Sendable(f.ltype, vs[k], !f.rule.Callback?)
      invariant Emits(a, os.Snap(), Some(done), true)
    {
      ghost var b := os.Snap();
      NextEach(f, vs, i);
      ok := EncodeBasicField(os, f, vs[i]);
      NextPart(a, b, os.Snap(), done, When(Sendable(f.ltype, vs[i], !f.rule.Callback?), EncOne(f, vs[i])),
               When(AllSendable(f, vs), EncEach(f, vs)), ok);
      if !ok {
        return;
      }
      done := done + EncOne(f, vs[i]);
      i := i + 1;
    }
    assert vs[..i] == vs;
    ok := true;
  }

  // ───────────── Fields and messages ─────────────

  /** encode_array: count check, then packed or one by one. */
  method EncodeArray(os: OStream, f: Field, s: Slot) returns (ok: bool)
    requires os.Valid() && ShapedSlot(f, s) && WellFormedField(f) && |EncSlot(f, s)| < TWO_32
    requires f.rule.Repeated?
    modifies os, os.buf
    ensures os.Valid() && os.buf == old(os.buf)
    ensures Emits(old(os.Snap()), os.Snap(), When(SlotFits(f, s), EncSlot(f, s)), ok)
    decreases f, 5
  {
    if s == [] {
      EmitsNothing(os.Snap());
      return true;
    }
    if |s| > f.rule.maxCount {
      return false;
    }
    if Packable(f.ltype) {
      ok := EncodePacked(os, f, s);
    } else {
      ok := EncodeEach(os, f, s);
    }
  }

  /** encode_field: presence and the proto3 default check. */
  method EncodeField(os: OStream, f: Field, s: Slot) returns (ok: bool)
    requires os.Valid() && ShapedSlot(f, s) && WellFormedField(f) && |EncSlot(f, s)| < TWO_32
    modifies os, os.buf
    ensures os.Valid() && os.buf == old(os.buf)
    ensures Emits(old(os.Snap()), os.Snap(), When(SlotFits(f, s), EncSlot(f, s)), ok)
    decreases f, 6
  {
    hide Emits;
    hide EncOne;
    if f.rule.Repeated? {
      ok := EncodeArray(os, f, s);
    } else if s == [] || (f.rule.Singular? && IsDefault(f.ltype, s[0])) {
      EmitsNothing(os.Snap());
      ok := true;          // absent, another oneof member, no callback, or a default value
    } else if f.rule.Callback? {
      ok := EncodeEach(os, f, s);
    } else {
      assert s == [s[0]];
      LoneSlot(f, s[0]);
      ok := EncodeBasicField(os, f, s[0]);
    }
  }

  predicate FieldsFit(d: Desc, m: Message, k: nat)
    requires ShapedMsg(d, m) && k <= |m|
  {
    forall i :: 0 <= i < k ==> SlotFits(d.fields[i], m[i])
  }

  lemma NextField(d: Desc, m: Message, k: nat)
    requires ShapedMsg(d, m) && k < |m|
    ensures EncFields(d, m, k + 1) == EncFields(d, m, k) + EncSlot(d.fields[k], m[k])
    ensures |EncFields(d, m, k)| + |EncSlot(d.fields[k], m[k])| <= |EncMsg(d, m)|
    ensures Encodable(d, m) ==> SlotFits(d.fields[k], m[k])
    ensures FieldsFit(d, m, k + 1) <==> FieldsFit(d, m, k) && SlotFits(d.fields[k], m[k])
  {
    EncFieldsPrefix(d, m, k + 1, |m|);
  }

  lemma {:induction false} EncFieldsPrefix(d: Desc, m: Message, j: nat, k: nat)
    requires ShapedMsg(d, m) && j <= k <= |m|
    ensures |EncFields(d, m, j)| <= |EncFields(d, m, k)|
    decreases k
  {
    if j < k {
      EncFieldsPrefix(d, m, j, k - 1);
    }
  }

  /** pb_encode. On a buffer of N bytes it succeeds exactly when the message can be sent and its
      size is at most N; it never stores past N. On a sizing stream it counts that size. */
  method Encode(os: OStream, d: Desc, m: Message) returns (ok: bool)
    requires os.Valid() && WellFormed(d) && ShapedMsg(d, m) && |EncMsg(d, m)| < TWO_32
    modifies os, os.buf
    ensures os.Valid() && os.buf == old(os.buf)
    ensures Emits(old(os.Snap()), os.Snap(), Encoding(d, m), ok)
    decreases d, 8
  {
    hide Emits;
    ghost var a := os.Snap();
    ghost var done: bytes := [];
    EmitsNothing(a);
    var k := 0;
    while k < |d.fields|
      invariant k <= |m| && os.Valid() && os.buf == old(os.buf)
      invariant FieldsFit(d, m, k) && done == EncFields(d, m, k)
      invariant Emits(a, os.Snap(), Some(done), true)
    {
      ghost var b := os.Snap();
      NextField(d, m, k);
      ok := EncodeField(os, d.fields[k], m[k]);
      NextPart(a, b, os.Snap(), done, When(SlotFits(d.fields[k], m[k]), EncSlot(d.fields[k], m[k])),
               Encoding(d, m), ok);
      if !ok {
        return;
      }
      done := done + EncSlot(d.fields[k], m[k]);
      k := k + 1;
    }
    ok := true;
  }

  /** pb_get_encoded_size: the sizing pass on its own. */
  method GetEncodedSize(d: Desc, m: Message) returns (ok: bool, size: nat)
    requires WellFormed(d) && ShapedMsg(d, m) && |EncMsg(d, m)| < TWO_32
    ensures ok <==> Encodable(d, m)
    ensures ok ==> size == |EncMsg(d, m)|
  {
    var os := new OStream.Sizing();
    ok := Encode(os, d, m);
    size := os.bytesWritten;
  }

  /** Encoding into the first `size` bytes of a buffer, as the web server does with its arena. */
  method EncodeToBuffer(buffer: array<byte>, size: nat, d: Desc, m: Message) returns (ok: bool, n: nat)
    requires WellFormed(d) && ShapedMsg(d, m) && |EncMsg(d, m)| < TWO_32 && size <= buffer.Length
    modifies buffer
    ensures ok <==> Encodable(d, m) && |EncMsg(d, m)| <= size
    ensures ok ==> n == |EncMsg(d, m)| && buffer[..n] == EncMsg(d, m)
    ensures buffer[size..] == old(buffer[size..])
  {
    var os := new OStream.Over(buffer, 0, size);
    ghost var a := os.Snap();
    ok := Encode(os, d, m);
    n := os.bytesWritten;
    assert os.Snap().mem == buffer[..] && buffer[size..] == buffer[..][size..];
    if ok {
      assert buffer[..] == a.mem[..0] + EncMsg(d, m) + a.mem[n..];
    }
  }
}
