/** pb_decode.c: the schema-driven decoder over a stream. It accepts exactly the bodies that
    `Meaning` gives a meaning to, computes that message, and consumes every byte. */
module Decoder {
  import opened Prelude
  import opened Varint
  import opened Schema
  import opened OutStream
  import opened Wire
  import opened Meaning
  import opened InStream
  import opened RoundTrip

  /** Reading a scalar off the stream and reading it out of its framed payload agree. */
  lemma ScalarFramed(lt: LType, r: bytes)
    requires Packable(lt)
    ensures ReadScalar(lt, r).Some? ==>
      Frame(WireType(lt), r) == Some((r[..ReadScalar(lt, r).value.1], r[ReadScalar(lt, r).value.1..]))
    ensures Frame(WireType(lt), r).Some? ==>
      (ReadScalar(lt, r).Some? <==> ReadScalar(lt, Frame(WireType(lt), r).value.0).Some?)
    ensures ReadScalar(lt, r).Some? ==>
      ReadScalar(lt, Frame(WireType(lt), r).value.0).value.0 == ReadScalar(lt, r).value.0
  {
    if WireType(lt) == WT_VARINT {
      if GroupLen(r).Some? {
        var n := GroupLen(r).value;
        GroupLenOf(r[..n], []);
        assert r[..n] + [] == r[..n] && r[..n][..n] == r[..n];
      }
    } else if WireType(lt) == WT_32BIT {
      if |r| >= 4 { assert r[..4][..4] == r[..4]; }
    } else {
      if |r| >= 8 { assert r[..8][..8] == r[..8]; }
    }
  }

  method DecodeScalar(inp: IStream, lt: LType) returns (ok: bool, v: Value)
    requires inp.Valid() && Packable(lt)
    modifies inp
    ensures inp.Valid() && inp.End() == old(inp.End()) && inp.pos >= old(inp.pos)
    ensures ok <==> ReadScalar(lt, old(inp.Rest())).Some?
    ensures ok ==> v == ReadScalar(lt, old(inp.Rest())).value.0
    ensures ok ==> inp.Rest() == old(inp.Rest())[ReadScalar(lt, old(inp.Rest())).value.1..]
  {
    v := Num(0);
    var u, eof, data;
    match lt
    case Bool =>
      ok, u, eof := inp.DecodeVarint32();
      v := Num(if u != 0 then 1 else 0);
    case UVarint(bits) =>
      ok, u := inp.DecodeVarint();
      if ok {
        ok, v := ClampUnsigned(bits, u);
      }
    case Varint(bits) =>
      ok, u := inp.DecodeVarint();
      if ok {
        ok, v := Clamp(bits, if Half(bits) == TWO_63 then AsInt64(u) else AsInt32(u));
      }
    case SVarint(bits) =>
      ok, u := inp.DecodeVarint();
      if ok {
        ok, v := Clamp(bits, UnZigZag(u));
      }
    case Fixed32 =>
      ok, data := inp.Read(4);
      v := Num(if ok then FromLittleEndian(data) else 0);
    case Fixed64 =>
      ok, data := inp.Read(8);
      v := Num(if ok then FromLittleEndian(data) else 0);
  }

  /** Narrowing to the member's width, refused when it changes the value. */
  method Clamp(bits: nat, s: int) returns (ok: bool, v: Value)
    ensures ok <==> Ranged(bits, s, 0).Some?
    ensures ok ==> v == Num(s)
  {
    var h := Half(bits);
    var clamped := (s + h) % (2 * h) - h;
    v := Num(clamped);
    ok := clamped == s;
  }

  method ClampUnsigned(bits: nat, u: nat) returns (ok: bool, v: Value)
    ensures ok <==> u < 2 * Half(bits)
    ensures ok ==> v == Num(u)
  {
    var clamped := u % (2 * Half(bits));
    v := Num(clamped);
    ok := clamped == u;
  }

  /** The packed branch of decode_static_field. */
  method DecodePacked(inp: IStream, lt: LType, vs: seq<Value>, maxCount: nat) returns (ok: bool, r: seq<Value>)
    requires inp.Valid() && Packable(lt)
    modifies inp
    ensures inp.Valid() && (ok ==> inp.End() == old(inp.End()))
    ensures ok <==> (Frame(WT_STRING, old(inp.Rest())).Some?
                     && PackedResult(lt, vs, maxCount, Frame(WT_STRING, old(inp.Rest())).value.0).Some?)
    ensures ok ==> r == PackedResult(lt, vs, maxCount, Frame(WT_STRING, old(inp.Rest())).value.0).value
    ensures ok ==> inp.Rest() == Frame(WT_STRING, old(inp.Rest())).value.1
  {
    hide ReadScalar;
    hide Frame;
    hide PackedResult;
    r := vs;
    var sub;
    ok, sub := inp.MakeSubstream();
    if !ok {
      return;
    }
    ghost var body := sub.Rest();
    var status := true;
    while sub.bytesLeft > 0 && |r| < maxCount && status
      invariant sub.Valid() && sub.End() == old(inp.End()) - inp.bytesLeft && |r| >= |vs|
      invariant status ==> PackedResult(lt, vs, maxCount, body) == PackedResult(lt, r, maxCount, sub.Rest())
      invariant !status ==> PackedResult(lt, vs, maxCount, body) == None
      modifies sub
      decreases sub.bytesLeft, status
    {
      var v;
      ghost var rest := sub.Rest();
      PackedNext(lt, r, maxCount, rest);
      status, v := DecodeScalar(sub, lt);
      if status {
        r := r + [v];
      }
    }
    if sub.bytesLeft != 0 {
      if status {
        PackedLeftOver(lt, r, maxCount, sub.Rest());
      }
      return false, r;
    }
    PackedDone(lt, r, maxCount);
    ok := inp.CloseSubstream(sub);
    ok := status;
  }

  function PackedResult(lt: LType, vs: seq<Value>, maxCount: nat, body: bytes): Option<seq<Value>>
    requires Packable(lt)
  {
    if |vs| > maxCount then (if body == [] then Some(vs) else None)
    else
      var items := ReadItems(lt, body, maxCount - |vs|);
      if items.None? then None else Some(vs + items.value)
  }

  lemma PackedLeftOver(lt: LType, vs: seq<Value>, maxCount: nat, body: bytes)
    requires Packable(lt) && body != [] && |vs| >= maxCount
    ensures PackedResult(lt, vs, maxCount, body) == None
  {
  }

  lemma PackedDone(lt: LType, vs: seq<Value>, maxCount: nat)
    requires Packable(lt)
    ensures PackedResult(lt, vs, maxCount, []) == Some(vs)
  {
    assert vs + [] == vs;
  }

  lemma PackedNext(lt: LType, vs: seq<Value>, maxCount: nat, body: bytes)
    requires Packable(lt) && body != [] && |vs| < maxCount
    ensures PackedResult(lt, vs, maxCount, body) ==
      var v := ReadScalar(lt, body);
      if v.None? then None else PackedResult(lt, vs + [v.value.0], maxCount, body[v.value.1..])
  {
    var v := ReadScalar(lt, body);
    if v.Some? {
      var items := ReadItems(lt, body[v.value.1..], maxCount - |vs| - 1);
      if items.Some? {
        assert vs + ([v.value.0] + items.value) == vs + [v.value.0] + items.value;
      }
    }
  }

  // ───────────── One field ─────────────

  /** pb_dec_bytes and pb_dec_string: length, capacity check, then the bytes. */
  method DecodeBlob(inp: IStream, lt: LType) returns (ok: bool, v: Value)
    requires inp.Valid() && (lt.Bytes? || lt.String?)
    modifies inp
    ensures inp.Valid() && (ok ==> inp.End() == old(inp.End()))
    ensures ok <==> (Frame(WT_STRING, old(inp.Rest())).Some?
                     && BlobFits(lt, |Frame(WT_STRING, old(inp.Rest())).value.0|))
    ensures ok ==> v == Blob(Frame(WT_STRING, old(inp.Rest())).value.0)
    ensures ok ==> inp.Rest() == Frame(WT_STRING, old(inp.Rest())).value.1
  {
    v := Blob([]);
    var size, eof, data;
    ok, size, eof := inp.DecodeVarint32();
    if !ok {
      return;
    }
    match lt {
      case Bytes(dataSize) =>
        if size > 0xFFFF || size + 2 > dataSize {
          return false, v;
        }
      case String(dataSize) =>
        if size + 1 > dataSize {
          return false, v;
        }
    }
    ok, data := inp.Read(size);
    v := Blob(data);
  }

  predicate BlobFits(lt: LType, n: nat)
    requires lt.Bytes? || lt.String?
  {
    match lt
    case Bytes(dataSize) => n <= 0xFFFF && n + 2 <= dataSize
    case String(dataSize) => n + 1 <= dataSize
  }

  /** pb_dec_submessage: the payload, decoded into what the field held. */
  method DecodeSubmessage(inp: IStream, d: Desc, prior: Message) returns (ok: bool, m: Message)
    requires inp.Valid() && WellFormed(d) && ShapedMsg(d, prior)
    modifies inp
    ensures inp.Valid() && (ok ==> inp.End() == old(inp.End()))
    ensures ok <==> (Frame(WT_STRING, old(inp.Rest())).Some?
                     && Merge(d, prior, Frame(WT_STRING, old(inp.Rest())).value.0).Some?)
    ensures ok ==> m == Merge(d, prior, Frame(WT_STRING, old(inp.Rest())).value.0).value
    ensures ok ==> inp.Rest() == Frame(WT_STRING, old(inp.Rest())).value.1
    decreases d, 9
  {
    hide Merge;
    hide Frame;
    m := prior;
    var sub, closed;
    ok, sub := inp.MakeSubstream();
    if !ok {
      return;
    }
    ok, m := DecodeInner(sub, d, prior);
    if ok {
      closed := inp.CloseSubstream(sub);
    }
  }

  /** decode_basic_field for a field held in the struct. */
  method DecodeBasicField(inp: IStream, wireType: nat, lt: LType, prior: Value, ghost tag: nat)
    returns (ok: bool, v: Value)
    requires inp.Valid() && Shaped(lt, prior) && (lt.Submessage? ==> WellFormed(lt.desc))
    modifies inp
    ensures inp.Valid() && (ok ==> inp.End() == old(inp.End()))
    ensures ok <==>
      (Frame(wireType, old(inp.Rest())).Some?
       && ReadValue(lt, prior, Token(tag, wireType, Frame(wireType, old(inp.Rest())).value.0), true).Some?)
    ensures ok ==>
      v == ReadValue(lt, prior, Token(tag, wireType, Frame(wireType, old(inp.Rest())).value.0), true).value
    ensures ok ==> inp.Rest() == Frame(wireType, old(inp.Rest())).value.1
    decreases lt, 1
  {
    hide Merge;
    hide Frame;
    hide ReadScalar;
    hide WellFormed;
    v := prior;
    if wireType != WireType(lt) {
      return false, v;
    }
    if Packable(lt) {
      ScalarFramed(lt, inp.Rest());
      ok, v := DecodeScalar(inp, lt);
    } else if lt.Submessage? {
      var m;
      ok, m := DecodeSubmessage(inp, lt.desc, prior.m);
      v := Msg(m);
    } else {
      ok, v := DecodeBlob(inp, lt);
    }
  }

  /** The application's callback, collecting what it is given: it decodes a submessage, or takes
      the bytes, and consumes its stream. */
  method Collect(sub: IStream, lt: LType, ghost t: Token) returns (ok: bool, v: Value)
    requires sub.Valid() && LengthDelimited(lt) && (lt.Submessage? ==> WellFormed(lt.desc)) && t.payload == sub.Rest()
    modifies sub
    ensures sub.Valid() && (ok ==> sub.bytesLeft == 0 && sub.End() == old(sub.End()))
    ensures ok <==> ReadValue(lt, DefaultValue(lt), t, false).Some?
    ensures ok ==> v == ReadValue(lt, DefaultValue(lt), t, false).value
    decreases lt, 2
  {
    if lt.Submessage? {
      var m;
      ok, m := DecodeInner(sub, lt.desc, DefaultMsg(lt.desc));
      v := Msg(m);
    } else {
      var data;
      ok, data := sub.Read(sub.bytesLeft);
      v := Blob(data);
    }
  }

  /** A length-delimited payload: the callback runs until it has consumed it or stops advancing. */
  method DecodeCallbackString(inp: IStream, f: Field, s: Slot) returns (ok: bool, r: Slot)
    requires inp.Valid() && WellFormedField(f) && f.rule.Callback? && ShapedSlot(f, s)
    modifies inp
    ensures inp.Valid() && (ok ==> inp.End() == old(inp.End()))
    ensures ok <==> (Frame(WT_STRING, old(inp.Rest())).Some?
                     && ApplyField(f, s, Token(f.tag, WT_STRING, Frame(WT_STRING, old(inp.Rest())).value.0)).Some?)
    ensures ok ==> r == ApplyField(f, s, Token(f.tag, WT_STRING, Frame(WT_STRING, old(inp.Rest())).value.0)).value
    ensures ok ==> inp.Rest() == Frame(WT_STRING, old(inp.Rest())).value.1
    decreases f, 0
  {
    r := s;
    var sub, v;
    ok, sub := inp.MakeSubstream();
    if !ok {
      return;
    }
    ghost var t := Token(f.tag, WT_STRING, sub.Rest());
    ghost var result := ReadValue(f.ltype, DefaultValue(f.ltype), t, false);
    var again := true;
    while again
      invariant sub.Valid() && sub.End() == old(inp.End()) - inp.bytesLeft
      invariant again ==> r == s && sub.Rest() == t.payload
      invariant !again ==> sub.bytesLeft == 0 && result.Some? && r == s + [result.value]
      modifies sub
      decreases again
    {
      var before := sub.bytesLeft;
      ok, v := Collect(sub, f.ltype, t);
      if !ok {
        return;
      }
      r := r + [v];
      var left := sub.bytesLeft;
      again := 0 < left < before;
    }
    ok := inp.CloseSubstream(sub);
  }

  /** decode_callback_field: a payload of its own, or the raw bytes of one scalar. */
  method DecodeCallbackField(inp: IStream, wireType: nat, f: Field, s: Slot) returns (ok: bool, r: Slot)
    requires inp.Valid() && WellFormedField(f) && f.rule.Callback? && ShapedSlot(f, s)
    modifies inp
    ensures inp.Valid() && (ok ==> inp.End() == old(inp.End()))
    ensures ok <==> (Frame(wireType, old(inp.Rest())).Some?
                     && ApplyField(f, s, Token(f.tag, wireType, Frame(wireType, old(inp.Rest())).value.0)).Some?)
    ensures ok ==> r == ApplyField(f, s, Token(f.tag, wireType, Frame(wireType, old(inp.Rest())).value.0)).value
    ensures ok ==> inp.Rest() == Frame(wireType, old(inp.Rest())).value.1
    decreases f, 1
  {
    if wireType == WT_STRING {
      ok, r := DecodeCallbackString(inp, f, s);
    } else {
      r := s;
      var data, v;
      ok, data := inp.ReadRawValue(wireType);
      if !ok {
        return;
      }
      var sub := new IStream(data, 0, |data|);
      ok, v := Collect(sub, f.ltype, Token(f.tag, wireType, data));
      r := s + [v];
    }
  }

  /** decode_field, decode_static_field: a known field, by its rule. */
  method DecodeField(inp: IStream, wireType: nat, f: Field, s: Slot) returns (ok: bool, r: Slot)
    requires inp.Valid() && WellFormedField(f) && ShapedSlot(f, s)
    modifies inp
    ensures inp.Valid() && (ok ==> inp.End() == old(inp.End()))
    ensures ok <==> (Frame(wireType, old(inp.Rest())).Some?
                     && ApplyField(f, s, Token(f.tag, wireType, Frame(wireType, old(inp.Rest())).value.0)).Some?)
    ensures ok ==> r == ApplyField(f, s, Token(f.tag, wireType, Frame(wireType, old(inp.Rest())).value.0)).value
    ensures ok ==> inp.Rest() == Frame(wireType, old(inp.Rest())).value.1
    decreases f, 2
  {
    hide Frame;
    hide ReadItems;
    hide ReadValue;
    hide WellFormed;
    var v;
    if f.rule.Callback? {
      ok, r := DecodeCallbackField(inp, wireType, f, s);
    } else if f.rule.Repeated? && wireType == WT_STRING && Packable(f.ltype) {
      ok, r := DecodePacked(inp, f.ltype, s, f.rule.maxCount);
    } else if f.rule.Repeated? && |s| >= f.rule.maxCount {
      ok, r := false, s;
    } else {
      ok, v := DecodeBasicField(inp, wireType, f.ltype, Held(f, s), f.tag);
      r := if f.rule.Repeated? then s + [v] else [v];
    }
  }

  // ───────────── Messages ─────────────

  /** The search of pb_field_iter_find over the field list: circular from the current field, with
      the two shortcuts that ascending tags allow. On failure it ends where it began. */
  method FindField(d: Desc, at: nat, tag: nat) returns (found: bool, i: nat)
    requires WellFormed(d) && (d.fields != [] ==> at < |d.fields|)
    ensures found <==> FieldIndex(d, tag).Some?
    ensures found ==> i == FieldIndex(d, tag).value
    ensures !found ==> i == at
  {
    var n := |d.fields|;
    i := at;
    if n == 0 {
      return false, at;
    }
    if d.fields[at].tag == tag {
      FieldIndexOf(d, at);
      return true, at;
    }
    if tag > d.fields[n - 1].tag {
      return false, at;
    }
    if tag < d.fields[at].tag {
      i := n - 1;          // so that the next step restarts from the first field
    }
    ghost var restarted := i + 1 >= n;
    while true
      invariant i < n && (restarted <==> Next(i, n) <= at)
      invariant restarted ==> forall j :: 0 <= j < n && (j < Next(i, n) || at <= j) ==> d.fields[j].tag != tag
      invariant !restarted ==> forall j :: at <= j < Next(i, n) ==> d.fields[j].tag != tag
      decreases !restarted, n - Next(i, n)
    {
      i := Next(i, n);
      if d.fields[i].tag == tag {
        FieldIndexOf(d, i);
        return true, i;
      }
      if i == at {
        return false, at;
      }
      restarted := restarted || i + 1 >= n;
    }
  }

  function Next(i: nat, n: nat): nat
  {
    if i + 1 >= n then 0 else i + 1
  }

  /** pb_decode_inner: fields until the stream is used up. */
  method DecodeInner(inp: IStream, d: Desc, m0: Message) returns (ok: bool, m: Message)
    requires inp.Valid() && WellFormed(d) && ShapedMsg(d, m0)
    modifies inp
    ensures inp.Valid()
    ensures ok <==> Merge(d, m0, old(inp.Rest())).Some?
    ensures ok ==> m == Merge(d, m0, old(inp.Rest())).value
    ensures ok ==> inp.bytesLeft == 0 && inp.End() == old(inp.End())
    decreases d, 8
  {
    hide Merge;
    hide Frame;
    hide ApplyField;
    hide FieldIndex;
    hide Select;
    m := m0;
    var at: nat := 0;
    while inp.bytesLeft > 0
      invariant inp.Valid() && inp.End() == old(inp.End()) && ShapedMsg(d, m)
      invariant Merge(d, m0, old(inp.Rest())) == Merge(d, m, inp.Rest())
      invariant d.fields != [] ==> at < |d.fields|
      decreases inp.bytesLeft
    {
      var wireType, tag, eof, found;
      ghost var r := inp.Rest();
      MergeNext(d, m, r);
      ok, wireType, tag, eof := inp.DecodeTag();
      if !ok && eof {
        break;             // not reached: the stream was not empty
      }
      if !ok || tag == 0 {
        return false, m;
      }
      found, at := FindField(d, at, tag);
      if !found {
        ok := inp.SkipField(wireType);
        if !ok {
          return;
        }
      } else {
        var f, s := d.fields[at], m[at];
        ok, s := DecodeField(inp, wireType, f, s);
        if !ok {
          return;
        }
        m := if f.rule.Oneof? then Select(d, m, at, s[0]) else Update(d, m, at, s);
      }
    }
    assert inp.Rest() == [];
    MergeNothing(d, m);
    ok := true;
  }

  lemma {:induction false} MergeNothing(d: Desc, m: Message)
    requires ShapedMsg(d, m)
    ensures Merge(d, m, []) == Some(m)
  {
    assert Tokens([]) == Some([]);
  }

  /** The first field of a body, applied. */
  lemma {:induction false} MergeStep(d: Desc, m: Message, r: bytes)
    requires ShapedMsg(d, m) && r != []
    ensures NextToken(r).None? ==> Merge(d, m, r) == None
    ensures NextToken(r).Some? && Apply(d, m, NextToken(r).value.0).None? ==> Merge(d, m, r) == None
    ensures NextToken(r).Some? && Apply(d, m, NextToken(r).value.0).Some? ==>
      Merge(d, m, r) == Merge(d, Apply(d, m, NextToken(r).value.0).value, NextToken(r).value.1)
  {
    var t := NextToken(r);
    if t.Some? {
      TokensStep(r, t.value.0, t.value.1);
      var rest := Tokens(t.value.1);
      if rest.Some? {
        assert ([t.value.0] + rest.value)[1..] == rest.value;
      }
    }
  }

  /** The same, as the decoder goes about it: the key, the field list, the payload. */
  lemma {:induction false} MergeNext(d: Desc, m: Message, r: bytes)
    requires ShapedMsg(d, m) && r != []
    ensures Read32(r).None? ==> Merge(d, m, r) == None
    ensures Read32(r).Some? ==>
      var key, n := Read32(r).value.0, Read32(r).value.1;
      var i, payload := FieldIndex(d, key / 8), Frame(key % 8, r[n..]);
      if key / 8 == 0 || payload.None? then Merge(d, m, r) == None
      else if i.None? then Merge(d, m, r) == Merge(d, m, payload.value.1)
      else
        var f := d.fields[i.value];
        var s := ApplyField(f, m[i.value], Token(f.tag, key % 8, payload.value.0));
        if s.None? then Merge(d, m, r) == None
        else if f.rule.Oneof? then
          Merge(d, m, r) == Merge(d, Select(d, m, i.value, s.value[0]), payload.value.1)
        else Merge(d, m, r) == Merge(d, Update(d, m, i.value, s.value), payload.value.1)
  {
    hide Merge;
    hide Frame;
    hide ApplyField;
    hide FieldIndex;
    hide Select;
    MergeStep(d, m, r);
  }

  /** pb_decode of a whole buffer. */
  method DecodeBuffer(buffer: bytes, d: Desc) returns (ok: bool, m: Message)
    requires WellFormed(d)
    ensures ok <==> Decode(d, buffer).Some?
    ensures ok ==> m == Decode(d, buffer).value
  {
    var inp := new IStream(buffer, 0, |buffer|);
    assert inp.Rest() == buffer;
    ok, m := DecodeInner(inp, d, DefaultMsg(d));
  }
}
