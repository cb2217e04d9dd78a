/** Message descriptors and message values: what nanopb's generated field lists and structs say. */
module Schema {
  import opened Prelude

  /** Field data types. Integers carry the width of their struct member; static strings and byte
      arrays carry the size of theirs. */
  datatype LType =
    | Bool
    | Varint(bits: nat)
    | UVarint(bits: nat)
    | SVarint(bits: nat)
    | Fixed32
    | Fixed64
    | Bytes(dataSize: nat)
    | String(dataSize: nat)
    | Submessage(desc: Desc)

  /** How a field occurs. Callback: no struct member, the application supplies or collects the
      values one by one (length-delimited types only, as in the kart's schema). */
  datatype Rule =
    | Singular              // proto3 scalar, no presence flag
    | Optional              // with a has_ flag (proto3 submessages)
    | Repeated(maxCount: nat)
    | Oneof(group: nat)
    | Callback

  datatype Field = Field(tag: nat, ltype: LType, rule: Rule)
  datatype Desc = Desc(fields: seq<Field>)

  /** Fixed-width scalars are numbered by their bit pattern. */
  datatype Value = Num(n: int) | Blob(s: bytes) | Msg(m: seq<seq<Value>>)

  /** The values present in one field: exactly one when singular, at most one when optional or a
      oneof member (empty: has_ clear, or which_ naming another member). */
  type Slot = seq<Value>

  type Message = seq<Slot>

  /** Half the number of values of an integer type. */
  function Half(bits: nat): (h: int)
    ensures 1 <= h <= TWO_63
  {
    if bits == 8 then 0x80 else if bits == 16 then 0x8000 else if bits == 32 then TWO_31 else TWO_63
  }

  predicate Packable(lt: LType)
  {
    lt.Bool? || lt.Varint? || lt.UVarint? || lt.SVarint? || lt.Fixed32? || lt.Fixed64?
  }

  predicate LengthDelimited(lt: LType)
  {
    lt.Bytes? || lt.String? || lt.Submessage?
  }

  /** A descriptor as the generator emits it. */
  ghost predicate WellFormed(d: Desc)
    decreases d, 1
  {
    && (forall i :: 0 <= i < |d.fields| ==> WellFormedField(d.fields[i]))
    && (forall i, j :: 0 <= i < j < |d.fields| ==> d.fields[i].tag < d.fields[j].tag)
  }

  ghost predicate WellFormedField(f: Field)
    decreases f, 0
  {
    && 1 <= f.tag <= 0xFFFF
    && (f.ltype.Bytes? ==> 2 <= f.ltype.dataSize <= 0xFFFF)
    && (f.ltype.String? ==> 1 <= f.ltype.dataSize <= 0xFFFF)
    && (f.rule.Callback? ==> LengthDelimited(f.ltype))
    && (f.ltype.Submessage? ==> WellFormed(f.ltype.desc))
  }

  /** A value of the C type of the field. */
  ghost predicate Shaped(lt: LType, v: Value)
    decreases lt, 0
  {
    match lt
    case Bool => v.Num? && 0 <= v.n <= 1
    case Varint(bits) => v.Num? && -Half(bits) <= v.n < Half(bits)
    case UVarint(bits) => v.Num? && 0 <= v.n < 2 * Half(bits)
    case SVarint(bits) => v.Num? && -Half(bits) <= v.n < Half(bits)
    case Fixed32 => v.Num? && 0 <= v.n < TWO_32
    case Fixed64 => v.Num? && 0 <= v.n < TWO_64
    case Bytes(_) => v.Blob?
    case String(_) => v.Blob?
    case Submessage(d) => v.Msg? && ShapedMsg(d, v.m)
  }

  predicate CountOk(r: Rule, n: nat)
  {
    && (r.Singular? ==> n == 1)
    && (r.Optional? || r.Oneof? ==> n <= 1)
  }

  ghost predicate ShapedMsg(d: Desc, m: Message)
    decreases d, 2
  {
    && |m| == |d.fields|
    && (forall i :: 0 <= i < |m| ==> CountOk(d.fields[i].rule, |m[i]|))
    && (forall i, k :: 0 <= i < |m| && 0 <= k < |m[i]| ==> Shaped(d.fields[i].ltype, m[i][k]))
    && OneMember(d, m)
  }

  /** One field of a shaped message on its own. */
  ghost predicate ShapedSlot(f: Field, s: Slot)
  {
    && CountOk(f.rule, |s|)
    && forall k :: 0 <= k < |s| ==> Shaped(f.ltype, s[k])
  }

  /** The members of a oneof share their storage: at most one of them is present. */
  ghost predicate OneMember(d: Desc, m: Message)
    requires |m| == |d.fields|
  {
    forall i, j :: 0 <= i < j < |m| && d.fields[i].rule.Oneof? && d.fields[i].rule == d.fields[j].rule ==>
      m[i] == [] || m[j] == []
  }

  // ───────────── Default contents (pb_message_set_to_defaults) ─────────────

  function DefaultValue(lt: LType): (v: Value)
    ensures Shaped(lt, v)
    decreases lt, 0
  {
    match lt
    case Submessage(d) => Msg(DefaultMsg(d))
    case Bytes(_) => Blob([])
    case String(_) => Blob([])
    case _ => Num(0)
  }

  function DefaultSlot(f: Field): (s: Slot)
    ensures CountOk(f.rule, |s|)
    ensures forall k :: 0 <= k < |s| ==> Shaped(f.ltype, s[k])
    decreases f, 1
  {
    if f.rule.Singular? then [DefaultValue(f.ltype)] else []
  }

  function DefaultMsg(d: Desc): (m: Message)
    ensures ShapedMsg(d, m)
    ensures forall i :: 0 <= i < |m| ==> m[i] == DefaultSlot(d.fields[i])
    decreases d, 2
  {
    seq(|d.fields|, i requires 0 <= i < |d.fields| => DefaultSlot(d.fields[i]))
  }

  /** What a C string holds: the contents up to the terminator. */
  function UpToNul(s: bytes): (t: bytes)
    ensures t <= s && 0 !in t
    ensures 0 !in s ==> t == s
  {
    if s == [] || s[0] == 0 then [] else [s[0]] + UpToNul(s[1..])
  }

  lemma {:induction false} UpToNulLength(s: bytes, n: nat)
    requires n <= |s| && forall j :: 0 <= j < n ==> s[j] != 0
    ensures |UpToNul(s)| >= n
    ensures n == |s| || s[n] == 0 ==> |UpToNul(s)| == n
    decreases n
  {
    if n > 0 {
      UpToNulLength(s[1..], n - 1);
    }
  }

  /** pb_check_proto3_default_value for a singular field: is there anything to send? */
  predicate IsDefault(lt: LType, v: Value)
    requires Shaped(lt, v)
    decreases lt, 0
  {
    match lt
    case Bytes(_) => v.s == []
    case String(_) => v.s == [] || v.s[0] == 0
    case Submessage(d) => IsDefaultMsg(d, v.m)
    case _ => v.n == 0
  }

  predicate IsDefaultMsg(d: Desc, m: Message)
    requires ShapedMsg(d, m)
    decreases d, 2
  {
    forall i :: 0 <= i < |m| ==>
      if d.fields[i].rule.Singular? then IsDefault(d.fields[i].ltype, m[i][0]) else m[i] == []
  }

  /** No struct member string holds a byte 0, which C cannot represent inside one. Strings handed
      over by a callback come with their length. */
  ghost predicate NulFree(lt: LType, v: Value)
    requires Shaped(lt, v)
    decreases lt, 0
  {
    match lt
    case String(_) => 0 !in v.s
    case Submessage(d) => NulFreeMsg(d, v.m)
    case _ => true
  }

  ghost predicate NulFreeMsg(d: Desc, m: Message)
    requires ShapedMsg(d, m)
    decreases d, 2
  {
    forall i, k :: 0 <= i < |m| && 0 <= k < |m[i]| ==> NulSafe(d.fields[i], m[i][k])
  }

  ghost predicate NulSafe(f: Field, v: Value)
    requires Shaped(f.ltype, v)
    decreases f.ltype, 1
  {
    (f.rule.Callback? && f.ltype.String?) || NulFree(f.ltype, v)
  }

  /** The default check is exact: it holds of the default contents and of nothing else. */
  lemma {:induction false} IsDefaultExact(lt: LType, v: Value)
    requires Shaped(lt, v) && NulFree(lt, v)
    ensures IsDefault(lt, v) <==> v == DefaultValue(lt)
    decreases lt, 0
  {
    if lt.Submessage? {
      IsDefaultMsgExact(lt.desc, v.m);
    }
  }

  lemma {:induction false} IsDefaultMsgExact(d: Desc, m: Message)
    requires ShapedMsg(d, m) && NulFreeMsg(d, m)
    ensures IsDefaultMsg(d, m) <==> m == DefaultMsg(d)
    decreases d, 2
  {
    forall i | 0 <= i < |m|
      ensures (if d.fields[i].rule.Singular? then IsDefault(d.fields[i].ltype, m[i][0]) else m[i] == [])
        <==> m[i] == DefaultSlot(d.fields[i])
    {
      if d.fields[i].rule.Singular? {
        IsDefaultExact(d.fields[i].ltype, m[i][0]);
      } else {
        assert m[i] == [] ==> m[i] == [];
      }
    }
  }
}
