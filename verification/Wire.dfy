/** The wire format without a schema (Protocol Buffers Encoding, "Message Structure"): how a byte
    string divides into tagged fields, and which bytes a well-shaped message stands for. */
module Wire {
  import opened Prelude
  import opened Varint
  import opened Schema
  import opened OutStream

  const WT_VARINT := 0
  const WT_64BIT := 1
  const WT_STRING := 2
  const WT_32BIT := 5

  // ───────────── Fields as tokens ─────────────

  /** One field on the wire; a length-delimited payload is given without its length. */
  datatype Token = Token(tag: nat, wireType: nat, payload: bytes)

  /** The payload at the front of `b`, and what follows it. */
  function Frame(wireType: nat, b: bytes): (r: Option<(bytes, bytes)>)
    ensures r.Some? ==> |r.value.1| <= |b|
  {
    if wireType == WT_VARINT then
      var n := GroupLen(b);
      if n.Some? then Some((b[..n.value], b[n.value..])) else None
    else if wireType == WT_64BIT then
      if |b| >= 8 then Some((b[..8], b[8..])) else None
    else if wireType == WT_32BIT then
      if |b| >= 4 then Some((b[..4], b[4..])) else None
    else if wireType == WT_STRING then
      var len := Read32(b);
      if len.Some? && len.value.1 + len.value.0 <= |b|
      then Some((b[len.value.1..len.value.1 + len.value.0], b[len.value.1 + len.value.0..]))
      else None
    else None
  }

  function NextToken(b: bytes): (r: Option<(Token, bytes)>)
    ensures r.Some? ==> |r.value.1| < |b| && r.value.0.tag > 0
  {
    var key := Read32(b);
    if key.None? || key.value.0 / 8 == 0 then None
    else
      var f := Frame(key.value.0 % 8, b[key.value.1..]);
      if f.None? then None
      else Some((Token(key.value.0 / 8, key.value.0 % 8, f.value.0), f.value.1))
  }

  /** All the fields of a message body. */
  function Tokens(b: bytes): (r: Option<seq<Token>>)
    decreases |b|
  {
    if b == [] then Some([])
    else
      var t := NextToken(b);
      if t.None? then None
      else
        var rest := Tokens(t.value.1);
        if rest.None? then None else Some([t.value.0] + rest.value)
  }

  lemma {:induction false} GroupLenStable(a: bytes, b: bytes)
    requires GroupLen(a).Some?
    ensures GroupLen(a + b) == GroupLen(a)
  {
    var n := GroupLen(a).value;
    GroupLenOf(a[..n], a[n..] + b);
    assert a + b == a[..n] + (a[n..] + b);
  }

  lemma Read32Stable(a: bytes, b: bytes)
    requires Read32(a).Some?
    ensures Read32(a + b) == Read32(a)
  {
    GroupLenStable(a, b);
    var n := GroupLen(a).value;
    assert (a + b)[..n] == a[..n];
  }

  lemma SliceStable(a: bytes, b: bytes, i: nat, j: nat)
    requires i <= j <= |a|
    ensures (a + b)[i..j] == a[i..j] && (a + b)[j..] == a[j..] + b
    ensures (a + b)[..j] == a[..j]
  {
  }

  lemma FrameStable(wireType: nat, a: bytes, b: bytes)
    requires Frame(wireType, a).Some?
    ensures Frame(wireType, a + b) == Some((Frame(wireType, a).value.0, Frame(wireType, a).value.1 + b))
  {
    if wireType == WT_VARINT {
      GroupLenStable(a, b);
      SliceStable(a, b, 0, GroupLen(a).value);
    } else if wireType == WT_64BIT {
      SliceStable(a, b, 0, 8);
    } else if wireType == WT_32BIT {
      SliceStable(a, b, 0, 4);
    } else {
      Read32Stable(a, b);
      SliceStable(a, b, Read32(a).value.1, Read32(a).value.1 + Read32(a).value.0);
    }
  }

  lemma NextTokenStable(a: bytes, b: bytes)
    requires NextToken(a).Some?
    ensures NextToken(a + b) == Some((NextToken(a).value.0, NextToken(a).value.1 + b))
  {
    Read32Stable(a, b);
    var n := Read32(a).value.1;
    assert (a + b)[n..] == a[n..] + b;
    FrameStable(Read32(a).value.0 % 8, a[n..], b);
  }

  function Then(a: Option<seq<Token>>, b: Option<seq<Token>>): Option<seq<Token>>
  {
    if a.Some? && b.Some? then Some(a.value + b.value) else None
  }

  /** At a field boundary a body divides into the fields before it and the fields after it. */
  lemma {:induction false} TokensConcat(a: bytes, b: bytes)
    requires Tokens(a).Some?
    ensures Tokens(a + b) == Then(Tokens(a), Tokens(b))
    decreases |a|
  {
    if a == [] {
      assert a + b == b;
      assert Tokens(b).Some? ==> [] + Tokens(b).value == Tokens(b).value;
    } else {
      var t := NextToken(a).value;
      NextTokenStable(a, b);
      TokensConcat(t.1, b);
      TokensStep(a, t.0, t.1);
      TokensStep(a + b, t.0, t.1 + b);
      ThenAssociative(t.0, Tokens(t.1), Tokens(b));
    }
  }

  lemma {:induction false} TokensStep(b: bytes, t: Token, rest: bytes)
    requires b != [] && NextToken(b) == Some((t, rest))
    ensures Tokens(b) == Then(Some([t]), Tokens(rest))
  {
  }

  lemma ThenAssociative(t: Token, a: Option<seq<Token>>, b: Option<seq<Token>>)
    ensures Then(Some([t]), Then(a, b)) == Then(Then(Some([t]), a), b)
  {
    if a.Some? && b.Some? {
      assert [t] + (a.value + b.value) == [t] + a.value + b.value;
    }
  }

  // ───────────── The bytes of a message ─────────────

  function WireType(lt: LType): (wt: nat)
    ensures wt < 8
  {
    match lt
    case Fixed32 => WT_32BIT
    case Fixed64 => WT_64BIT
    case Bytes(_) => WT_STRING
    case String(_) => WT_STRING
    case Submessage(_) => WT_STRING
    case _ => WT_VARINT
  }

  function Key(tag: nat, wireType: nat): bytes
  {
    Digits(tag * 8 + wireType)
  }

  function Delimited(s: bytes): bytes
  {
    Digits(|s|) + s
  }

  /** A packable value without its key. */
  function EncScalar(lt: LType, v: Value): bytes
    requires Packable(lt) && Shaped(lt, v)
  {
    match lt
    case Bool => Digits(v.n)
    case Varint(_) => Digits(ToU64(v.n))
    case UVarint(_) => Digits(v.n)
    case SVarint(_) => Digits(ZigZag(v.n))
    case Fixed32 => LittleEndian(v.n, 4)
    case Fixed64 => LittleEndian(v.n, 8)
  }

  /** The contents of a length-delimited value. A string handed over by a callback is sent whole. */
  function Contents(lt: LType, v: Value, inStruct: bool): bytes
    requires LengthDelimited(lt) && Shaped(lt, v)
    decreases lt, 1
  {
    match lt
    case Bytes(_) => v.s
    case String(_) => if inStruct then UpToNul(v.s) else v.s
    case Submessage(d) => EncMsg(d, v.m)
  }

  function EncPayload(lt: LType, v: Value, inStruct: bool): bytes
    requires Shaped(lt, v)
    decreases lt, 2
  {
    if Packable(lt) then EncScalar(lt, v) else Delimited(Contents(lt, v, inStruct))
  }

  function EncOne(f: Field, v: Value): bytes
    requires Shaped(f.ltype, v)
    decreases f, 3
  {
    Key(f.tag, WireType(f.ltype)) + EncPayload(f.ltype, v, !f.rule.Callback?)
  }

  /** Unpacked: key and value, one after the other. */
  function EncEach(f: Field, vs: seq<Value>): bytes
    requires forall k :: 0 <= k < |vs| ==> Shaped(f.ltype, vs[k])
    decreases f, 4, |vs|
  {
    if vs == [] then [] else EncEach(f, vs[..|vs| - 1]) + EncOne(f, vs[|vs| - 1])
  }

  /** Packed: values only. */
  function EncItems(lt: LType, vs: seq<Value>): bytes
    requires Packable(lt) && forall k :: 0 <= k < |vs| ==> Shaped(lt, vs[k])
    decreases |vs|
  {
    if vs == [] then [] else EncScalar(lt, vs[0]) + EncItems(lt, vs[1..])
  }

  function EncSlot(f: Field, s: Slot): bytes
    requires ShapedSlot(f, s)
    decreases f, 5
  {
    if s == [] || (f.rule.Singular? && IsDefault(f.ltype, s[0])) then []
    else if f.rule.Repeated? && Packable(f.ltype) then
      Key(f.tag, WT_STRING) + Delimited(EncItems(f.ltype, s))
    else EncEach(f, s)
  }

  lemma {:induction false} LoneSlot(f: Field, v: Value)
    requires ShapedSlot(f, [v]) && Shaped(f.ltype, v)
    ensures EncEach(f, [v]) == EncOne(f, v)
    ensures !f.rule.Repeated? ==>
      EncSlot(f, [v]) == if f.rule.Singular? && IsDefault(f.ltype, v) then [] else EncOne(f, v)
  {
    assert [v][..0] == [];
    assert EncEach(f, [v][..0]) == [];
    assert EncEach(f, [v]) == [] + EncOne(f, v);
  }

  /** The first `k` fields, in descriptor order. */
  function EncFields(d: Desc, m: Message, k: nat): bytes
    requires ShapedMsg(d, m) && k <= |m|
    decreases d, 6, k
  {
    if k == 0 then [] else EncFields(d, m, k - 1) + EncSlot(d.fields[k - 1], m[k - 1])
  }

  function EncMsg(d: Desc, m: Message): bytes
    requires ShapedMsg(d, m)
    decreases d, 7
  {
    EncFields(d, m, |m|)
  }

  // ───────────── Which messages can be sent ─────────────

  /** Static strings are terminated inside their array, byte arrays and counts are within theirs. */
  predicate ValueFits(lt: LType, v: Value)
    requires Shaped(lt, v)
    decreases lt, 0
  {
    match lt
    case Bytes(size) => |v.s| + 2 <= size
    case String(size) => |UpToNul(v.s)| < size
    case Submessage(d) => Encodable(d, v.m)
    case _ => true
  }

  predicate SlotFits(f: Field, s: Slot)
    requires ShapedSlot(f, s)
    decreases f, 1
  {
    && (f.rule.Repeated? ==> |s| <= f.rule.maxCount)
    && ((f.rule.Singular? && IsDefault(f.ltype, s[0]))
        || (f.rule.Callback? && !f.ltype.Submessage?)
        || forall k :: 0 <= k < |s| ==> ValueFits(f.ltype, s[k]))
  }

  predicate Encodable(d: Desc, m: Message)
    requires ShapedMsg(d, m)
    decreases d, 2
  {
    forall i :: 0 <= i < |m| ==> SlotFits(d.fields[i], m[i])
  }

  /** The encoding, if there is one. */
  function Encoding(d: Desc, m: Message): Option<bytes>
    requires ShapedMsg(d, m)
  {
    if Encodable(d, m) then Some(EncMsg(d, m)) else None
  }
}
