/** config_params.cpp and webserver.cpp: the parameter table, its clamping, and the worst-case bound
    on the configuration reply. Floats are reals in the configuration; on the wire a float is an
    opaque 32-bit pattern, here any function of the value. */
module ReplyGuard {
  import opened Prelude
  import opened Varint
  import opened Schema
  import opened OutStream
  import opened Wire
  import opened Encoder
  import opened Meaning
  import opened RoundTrip
  import opened ControlMath

  const PB_REPLY_CAP: nat := 9216

  datatype PType = TFloat | TInt | TBool

  /** One row of PARAMS. The bounds are given as cfgMin, cfgDef and cfgMax widen them. */
  datatype Param = Param(name: bytes, desc: bytes, cat: bytes, help: bytes, ptype: PType,
                         min: real, def: real, max: real)

  // ───────────── The configuration ─────────────

  datatype CfgVal = F(f: real) | I(i: int)

  function Trunc(x: real): int
  {
    if x >= 0.0 then x.Floor else -(-x).Floor
  }

  /** iround and lround: to nearest, halves away from zero. */
  function Round(x: real): int
  {
    if x < 0.0 then Trunc(x - 0.5) else Trunc(x + 0.5)
  }

  /** To the nearest whole number, and from half way to the one further from zero. */
  lemma RoundNearest(x: real)
    ensures x >= 0.0 ==> x - 0.5 < Round(x) as real <= x + 0.5
    ensures x <= 0.0 ==> x - 0.5 <= Round(x) as real < x + 0.5
  {
  }

  lemma RoundWhole(n: int)
    ensures Round(n as real) == n
  {
  }

  /** int32 parameters have integral bounds. */
  predicate TableOk(ps: seq<Param>)
  {
    forall i :: 0 <= i < |ps| ==> RowOk(ps[i])
  }

  predicate RowOk(p: Param)
  {
    p.min <= p.max && (p.ptype != TFloat ==> Whole(p.min) && Whole(p.def) && Whole(p.max))
  }

  predicate Whole(x: real)
  {
    x.Floor as real == x
  }

  predicate TypeOk(p: Param, v: CfgVal)
  {
    v.F? <==> p.ptype == TFloat
  }

  /** cfgGet, on one field. */
  function Widen(v: CfgVal): real
  {
    match v
    case F(f) => f
    case I(i) => i as real
  }

  function WidenAll(vs: seq<CfgVal>): (xs: seq<real>)
    ensures |xs| == |vs| && forall i :: 0 <= i < |vs| ==> xs[i] == Widen(vs[i])
  {
    seq(|vs|, i requires 0 <= i < |vs| => Widen(vs[i]))
  }

  /** cfgSet, on one field. */
  function Narrow(p: Param, x: real): CfgVal
  {
    if p.ptype == TFloat then F(x) else I(Round(x))
  }

  predicate InRange(p: Param, v: CfgVal)
  {
    p.min <= Widen(v) <= p.max
  }

  class KartConfig {
    const params: seq<Param>
    const fields: array<CfgVal>

    ghost predicate Valid()
      reads this, fields
    {
      TableOk(params) && fields.Length == |params| && forall i :: 0 <= i < |params| ==> TypeOk(params[i], fields[i])
    }

    constructor (ps: seq<Param>)
      requires TableOk(ps)
      ensures Valid() && params == ps && fresh(fields)
      ensures forall i :: 0 <= i < |ps| ==> Widen(fields[i]) == ps[i].def
    {
      params := ps;
      var fs := new CfgVal[|ps|](i => I(0));
      fields := fs;
      new;
      for i := 0 to |ps|
        invariant forall j :: 0 <= j < i ==> TypeOk(ps[j], fields[j]) && Widen(fields[j]) == ps[j].def
      {
        SetKeeps(ps[i], ps[i].def);
        fields[i] := Narrow(ps[i], ps[i].def);
      }
    }

    /** What cfgGet gives for each parameter. */
    ghost function Values(): (xs: seq<real>)
      reads this, fields
      ensures |xs| == fields.Length
    {
      WidenAll(fields[..])
    }

    method Snapshot() returns (xs: seq<real>)
      requires Valid()
      ensures xs == Values()
    {
      xs := [];
      for i := 0 to |params|
        invariant |xs| == i && forall j :: 0 <= j < i ==> xs[j] == Widen(fields[j])
      {
        var x := Get(i);
        xs := xs + [x];
      }
    }

    method Get(i: nat) returns (x: real)
      requires Valid() && i < |params|
      ensures x == Widen(fields[i])
    {
      x := match fields[i] case F(f) => f case I(n) => n as real;
    }

    method Set(i: nat, x: real)
      requires Valid() && i < |params|
      modifies fields
      ensures Valid() && fields[..] == old(fields[..])[i := Narrow(params[i], x)]
    {
      fields[i] := if params[i].ptype == TFloat then F(x) else I(Round(x));
    }

    /** Every field into its bounds; a field already within them is untouched. */
    method ClampAll()
      requires Valid()
      modifies fields
      ensures Valid() && forall i :: 0 <= i < |params| ==> InRange(params[i], fields[i])
      ensures forall i :: 0 <= i < |params| && InRange(params[i], old(fields[i])) ==> fields[i] == old(fields[i])
      ensures forall i :: 0 <= i < |params| && Widen(old(fields[i])) < params[i].min ==>
        Widen(fields[i]) == params[i].min
      ensures forall i :: 0 <= i < |params| && Widen(old(fields[i])) > params[i].max ==>
        Widen(fields[i]) == params[i].max
    {
      for k := 0 to |params|
        invariant Valid() && forall i :: k <= i < |params| ==> fields[i] == old(fields[i])
        invariant forall i :: 0 <= i < k ==> Clamped(params[i], old(fields[i]), fields[i])
      {
        var x := Get(k);
        ClampKeeps(params[k], fields[k]);
        Set(k, Clampf(x, params[k].min, params[k].max));
      }
    }
  }

  ghost predicate Clamped(p: Param, was: CfgVal, v: CfgVal)
  {
    InRange(p, v) && (InRange(p, was) ==> v == was) &&
    (Widen(was) < p.min ==> Widen(v) == p.min) && (Widen(was) > p.max ==> Widen(v) == p.max)
  }

  lemma SetKeeps(p: Param, x: real)
    requires p.ptype == TFloat || Whole(x)
    ensures TypeOk(p, Narrow(p, x)) && Widen(Narrow(p, x)) == x
  {
    RoundWhole(x.Floor);
  }

  lemma ClampKeeps(p: Param, v: CfgVal)
    requires TypeOk(p, v) && p.min <= p.max && (p.ptype != TFloat ==> Whole(p.min) && Whole(p.max))
    ensures Clamped(p, v, Narrow(p, Clampf(Widen(v), p.min, p.max)))
  {
    SetKeeps(p, Clampf(Widen(v), p.min, p.max));
  }

  /** A row of PARAMS whose texts and bounds suit the guard. */
  predicate RowTame(p: Param)
  {
    |p.name| < 128 && (p.ptype == TInt ==> 0.0 <= p.min <= p.def <= p.max < TWO_31 as real)
  }

  /** Clamping is what makes the guard valid: a clamped value of such a row is never negative. */
  lemma ClampedTame(p: Param, v: CfgVal)
    requires RowOk(p) && RowTame(p) && TypeOk(p, v) && InRange(p, v)
    ensures Tame(p, Widen(v))
  {
    if p.ptype == TInt {
      RoundWhole(v.i);
      RoundWhole(p.min.Floor);
      RoundWhole(p.def.Floor);
      RoundWhole(p.max.Floor);
    }
  }

  // ───────────── The reply ─────────────

  /** A value as PM_ONEOF types it. */
  function Typed(p: Param, x: real, bits: real -> nat): Value
  {
    match p.ptype
    case TBool => Num(if x != 0.0 then 1 else 0)
    case TInt => Num(Round(x))
    case TFloat => Num(bits(x))
  }

  function OneofFields(group: nat, tag: nat): (fs: seq<Field>)
    ensures |fs| == 3
  {
    [Field(tag, Bool, Oneof(group)), Field(tag + 1, Varint(32), Oneof(group)), Field(tag + 2, Fixed32, Oneof(group))]
  }

  function TextField(tag: nat): Field
  {
    Field(tag, String(1), Callback)
  }

  function ParamMetaDesc(): (d: Desc)
    ensures |d.fields| == 16
  {
    Desc([TextField(1), TextField(2), TextField(3), TextField(4)] +
         OneofFields(0, 8) + OneofFields(1, 11) + OneofFields(2, 14) + OneofFields(3, 17))
  }

  function ConfigDesc(): Desc
  {
    Desc([Field(1, Submessage(ParamMetaDesc()), Callback)])
  }

  /** The Msg envelope; the other members of its oneof are absent from this reply. */
  function MsgDesc(): Desc
  {
    Desc([Field(2, Submessage(ConfigDesc()), Oneof(0))])
  }

  function OneofSlots(t: PType, v: Value): (ss: seq<Slot>)
    ensures |ss| == 3
  {
    [if t == TBool then [v] else [], if t == TInt then [v] else [], if t == TFloat then [v] else []]
  }

  /** encParamMetas fills one of these for each parameter. */
  function ParamMeta(p: Param, x: real, bits: real -> nat): (m: Message)
    ensures |m| == 16
  {
    [[Blob(p.name)], [Blob(p.desc)], [Blob(p.cat)], [Blob(p.help)]] +
    OneofSlots(p.ptype, Typed(p, x, bits)) + OneofSlots(p.ptype, Typed(p, p.min, bits)) +
    OneofSlots(p.ptype, Typed(p, p.max, bits)) + OneofSlots(p.ptype, Typed(p, p.def, bits))
  }

  function ParamMetas(ps: seq<Param>, xs: seq<real>, bits: real -> nat): (vs: seq<Value>)
    requires |ps| == |xs|
    ensures |vs| == |ps|
  {
    seq(|ps|, i requires 0 <= i < |ps| => Msg(ParamMeta(ps[i], xs[i], bits)))
  }

  function ConfigReply(ps: seq<Param>, xs: seq<real>, bits: real -> nat): Message
    requires |ps| == |xs|
  {
    [[Msg([ParamMetas(ps, xs, bits)])]]
  }

  // ───────────── The guard ─────────────

  /** paramPbBytes. */
  function ParamBytes(p: Param): nat
  {
    3 + 4 * 3 + |p.name| + |p.desc| + |p.cat| + |p.help| + 4 * 7
  }

  function SumBytes(ps: seq<Param>, k: nat): nat
    requires k <= |ps|
  {
    if k == 0 then 0 else SumBytes(ps, k - 1) + ParamBytes(ps[k - 1])
  }

  /** The bytes of all texts. */
  function TextBytes(ps: seq<Param>, k: nat): nat
    requires k <= |ps|
  {
    if k == 0 then 0
    else TextBytes(ps, k - 1) + |ps[k - 1].name| + |ps[k - 1].desc| + |ps[k - 1].cat| + |ps[k - 1].help|
  }

  /** The bound is the texts, and 43 bytes for each parameter. */
  lemma {:induction false} GuardFormula(ps: seq<Param>, k: nat)
    requires k <= |ps|
    ensures SumBytes(ps, k) == 43 * k + TextBytes(ps, k)
    decreases k
  {
    if k > 0 {
      GuardFormula(ps, k - 1);
    }
  }

  method ConfigPbBytes(ps: seq<Param>) returns (n: nat)
    ensures n == SumBytes(ps, |ps|)
  {
    n := 0;
    for k := 0 to |ps|
      invariant n == SumBytes(ps, k)
    {
      n := n + 3 + 4 * 3 + |ps[k].name| + |ps[k].desc| + |ps[k].cat| + |ps[k].help| + 4 * 7;
    }
  }

  /** int32 parameters hold an int32, whatever its sign. */
  predicate Int32s(p: Param, x: real)
  {
    p.ptype == TInt ==> InInt32(x) && InInt32(p.min) && InInt32(p.max) && InInt32(p.def)
  }

  predicate InInt32(x: real)
  {
    -TWO_31 <= Round(x) < TWO_31
  }

  /** What the bound takes for granted: short names, and integers that are not negative. */
  predicate Tame(p: Param, x: real)
  {
    |p.name| < 128 &&
    (p.ptype == TInt ==> NonNegative(x) && NonNegative(p.min) && NonNegative(p.max) && NonNegative(p.def))
  }

  predicate Bounded(p: Param, x: real)
  {
    Tame(p, x) && ParamBytes(p) <= 0x4000
  }

  predicate NonNegative(x: real)
  {
    0 <= Round(x) < TWO_31
  }

  ghost predicate BitsOk(bits: real -> nat)
  {
    forall x: real :: bits(x) < TWO_32
  }

  // ───────────── Shapes ─────────────

  /** The typed values are values of their fields. */
  predicate TypedOk(t: PType, v: Value)
  {
    v.Num? && match t case TBool => 0 <= v.n <= 1 case TInt => -TWO_31 <= v.n < TWO_31 case TFloat => 0 <= v.n < TWO_32
  }

  lemma TypedShaped(p: Param, x: real, bits: real -> nat)
    requires BitsOk(bits) && (p.ptype == TInt ==> InInt32(x))
    ensures TypedOk(p.ptype, Typed(p, x, bits))
  {
  }

  lemma GroupAt(j: nat)
    requires 4 <= j < 16
    ensures ParamMetaDesc().fields[j] == OneofFields((j - 4) / 3, 8 + 3 * ((j - 4) / 3))[(j - 4) % 3]
    ensures ParamMetaDesc().fields[j].tag == j + 4 && ParamMetaDesc().fields[j].rule == Oneof((j - 4) / 3)
  {
  }

  function ValueAt(p: Param, x: real, bits: real -> nat, g: nat): Value
  {
    Typed(p, if g == 0 then x else if g == 1 then p.min else if g == 2 then p.max else p.def, bits)
  }

  lemma SlotAt(p: Param, x: real, bits: real -> nat, j: nat)
    requires 4 <= j < 16
    ensures ParamMeta(p, x, bits)[j] == OneofSlots(p.ptype, ValueAt(p, x, bits, (j - 4) / 3))[(j - 4) % 3]
  {
    hide Typed;
  }

  function TypeIndex(t: PType): nat
  {
    match t case TBool => 0 case TInt => 1 case TFloat => 2
  }

  /** The four texts at the front. */
  function TextOf(p: Param, j: nat): bytes
  {
    if j == 0 then p.name else if j == 1 then p.desc else if j == 2 then p.cat else p.help
  }

  lemma TextAt(p: Param, x: real, bits: real -> nat, j: nat)
    requires j < 4
    ensures ParamMetaDesc().fields[j] == TextField(j + 1) && ParamMeta(p, x, bits)[j] == [Blob(TextOf(p, j))]
  {
    hide Typed;
    hide OneofFields;
    hide OneofSlots;
  }

  lemma FieldShaped(p: Param, x: real, bits: real -> nat, j: nat)
    requires j < 16 && BitsOk(bits) && Int32s(p, x)
    ensures WellFormedField(ParamMetaDesc().fields[j])
    ensures ShapedSlot(ParamMetaDesc().fields[j], ParamMeta(p, x, bits)[j])
    ensures SlotFits(ParamMetaDesc().fields[j], ParamMeta(p, x, bits)[j])
    ensures ParamMetaDesc().fields[j].tag == if j < 4 then j + 1 else j + 4
    ensures if j < 4 then ParamMetaDesc().fields[j].rule == Callback
            else ParamMetaDesc().fields[j].rule == Oneof((j - 4) / 3)
    ensures j >= 4 && (j - 4) % 3 != TypeIndex(p.ptype) ==> ParamMeta(p, x, bits)[j] == []
  {
    hide ParamMetaDesc;
    hide ParamMeta;
    hide Typed;
    hide InInt32;
    hide OneofFields;
    hide OneofSlots;
    if j < 4 {
      TextAt(p, x, bits, j);
    } else {
      GroupAt(j);
      SlotAt(p, x, bits, j);
      GroupShaped((j - 4) / 3, p, x, bits, (j - 4) % 3);
    }
  }

  lemma GroupShaped(g: nat, p: Param, x: real, bits: real -> nat, t: nat)
    requires g < 4 && t < 3 && BitsOk(bits) && Int32s(p, x)
    ensures var f, s := OneofFields(g, 8 + 3 * g)[t], OneofSlots(p.ptype, ValueAt(p, x, bits, g))[t];
      WellFormedField(f) && ShapedSlot(f, s) && SlotFits(f, s) && (t != TypeIndex(p.ptype) ==> s == [])
  {
    hide InInt32;
    hide Typed;
    TypedShaped(p, if g == 0 then x else if g == 1 then p.min else if g == 2 then p.max else p.def, bits);
  }

  lemma MetaShaped(p: Param, x: real, bits: real -> nat)
    requires BitsOk(bits) && Int32s(p, x)
    ensures WellFormed(ParamMetaDesc()) && ShapedMsg(ParamMetaDesc(), ParamMeta(p, x, bits))
    ensures Encodable(ParamMetaDesc(), ParamMeta(p, x, bits))
  {
    var d, m := ParamMetaDesc(), ParamMeta(p, x, bits);
    hide ParamMetaDesc;
    hide ParamMeta;
    hide Int32s;
    forall j | 0 <= j < 16
      ensures WellFormedField(d.fields[j]) && ShapedSlot(d.fields[j], m[j]) && SlotFits(d.fields[j], m[j])
      ensures d.fields[j].tag == if j < 4 then j + 1 else j + 4
      ensures if j < 4 then d.fields[j].rule == Callback else d.fields[j].rule == Oneof((j - 4) / 3)
      ensures j >= 4 && (j - 4) % 3 != TypeIndex(p.ptype) ==> m[j] == []
    {
      FieldShaped(p, x, bits, j);
    }
  }

  lemma BoundedInt32s(p: Param, x: real)
    requires Bounded(p, x)
    ensures Int32s(p, x)
  {
    hide Round;
  }

  // ───────────── Sizes ─────────────

  lemma {:induction false} ShortVarint(v: nat)
    ensures v < 0x80 ==> |Digits(v)| == 1
    ensures v < 0x4000 ==> |Digits(v)| <= 2
    ensures v < TWO_32 ==> |Digits(v)| <= 5
    ensures |Digits(v)| >= 1
  {
    Pow128Values();
    DigitsLength(v, 1);
    DigitsLength(v, 2);
    DigitsLength(v, 5);
  }

  /** encStr: key, length and bytes; one byte less when the string is short. */
  lemma TextSize(tag: nat, t: bytes)
    requires 1 <= tag < 16 && |t| < 0x4000 && ShapedSlot(TextField(tag), [Blob(t)])
    ensures |EncSlot(TextField(tag), [Blob(t)])| <= 3 + |t|
    ensures |t| < 0x80 ==> |EncSlot(TextField(tag), [Blob(t)])| <= 2 + |t|
  {
    assert Shaped(String(1), Blob(t));
    LoneSlot(TextField(tag), Blob(t));
    ShortVarint(tag * 8 + WT_STRING);
    ShortVarint(|t|);
  }

  /** One member of a typed oneof, key included. */
  lemma {:induction false} MemberSize(f: Field, v: Value)
    requires ShapedSlot(f, [v]) && f.rule.Oneof? && f.tag < 256 && Shaped(f.ltype, v)
    requires f.ltype == Bool || f.ltype == Fixed32 || (f.ltype == Varint(32) && 0 <= v.n < TWO_31)
    ensures |EncSlot(f, [v])| <= 7
    ensures f.tag < 16 ==> |EncSlot(f, [v])| <= 6
  {
    LoneSlot(f, v);
    ShortVarint(f.tag * 8 + WireType(f.ltype));
    if !f.ltype.Fixed32? {
      ShortVarint(v.n);
    }
  }

  /** The bytes of slot `j` of a parameter, at most. */
  function SlotBound(p: Param, j: nat): nat
    requires j < 16
  {
    if j == 0 then 2 + |p.name| else if j == 1 then 3 + |p.desc| else if j == 2 then 3 + |p.cat|
    else if j == 3 then 3 + |p.help|
    else if (j - 4) % 3 != TypeIndex(p.ptype) then 0
    else if j < 10 then 6 else 7
  }

  lemma SlotSize(p: Param, x: real, bits: real -> nat, j: nat)
    requires j < 16 && BitsOk(bits) && Bounded(p, x)
    ensures ShapedSlot(ParamMetaDesc().fields[j], ParamMeta(p, x, bits)[j])
    ensures |EncSlot(ParamMetaDesc().fields[j], ParamMeta(p, x, bits)[j])| <= SlotBound(p, j)
  {
    hide ParamMetaDesc;
    hide ParamMeta;
    hide Typed;
    hide NonNegative;
    BoundedInt32s(p, x);
    FieldShaped(p, x, bits, j);
    if j < 4 {
      TextSlotSize(p, x, bits, j);
    } else if (j - 4) % 3 == TypeIndex(p.ptype) {
      GroupAt(j);
      SlotAt(p, x, bits, j);
      GroupSize((j - 4) / 3, p, x, bits);
    }
  }

  lemma TextSlotSize(p: Param, x: real, bits: real -> nat, j: nat)
    requires j < 4 && Bounded(p, x)
    requires ShapedSlot(ParamMetaDesc().fields[j], ParamMeta(p, x, bits)[j])
    ensures |EncSlot(ParamMetaDesc().fields[j], ParamMeta(p, x, bits)[j])| <= SlotBound(p, j)
  {
    hide EncSlot;
    hide ParamMetaDesc;
    hide ParamMeta;
    TextAt(p, x, bits, j);
    TextSize(j + 1, TextOf(p, j));
  }

  lemma TypedNonNegative(p: Param, x: real, bits: real -> nat)
    requires p.ptype == TInt ==> NonNegative(x)
    ensures p.ptype == TInt ==> 0 <= Typed(p, x, bits).n
  {
    hide Round;
  }

  lemma GroupSize(g: nat, p: Param, x: real, bits: real -> nat)
    requires g < 4 && BitsOk(bits) && Bounded(p, x)
    ensures var f, s := OneofFields(g, 8 + 3 * g)[TypeIndex(p.ptype)],
                        OneofSlots(p.ptype, ValueAt(p, x, bits, g))[TypeIndex(p.ptype)];
      (ShapedSlot(f, s) && |EncSlot(f, s)| <= if g < 2 then 6 else 7)
  {
    hide NonNegative;
    hide Typed;
    hide EncSlot;
    var y := if g == 0 then x else if g == 1 then p.min else if g == 2 then p.max else p.def;
    BoundedInt32s(p, x);
    TypedShaped(p, y, bits);
    TypedNonNegative(p, y, bits);
    GroupShaped(g, p, x, bits, TypeIndex(p.ptype));
    MemberSize(OneofFields(g, 8 + 3 * g)[TypeIndex(p.ptype)], ValueAt(p, x, bits, g));
  }

  function BoundTo(p: Param, k: nat): nat
    requires k <= 16
  {
    if k == 0 then 0 else BoundTo(p, k - 1) + SlotBound(p, k - 1)
  }

  lemma {:induction false} MetaFieldsSize(p: Param, x: real, bits: real -> nat, k: nat)
    requires k <= 16 && BitsOk(bits) && Bounded(p, x)
    ensures ShapedMsg(ParamMetaDesc(), ParamMeta(p, x, bits))
    ensures |EncFields(ParamMetaDesc(), ParamMeta(p, x, bits), k)| <= BoundTo(p, k)
    decreases k
  {
    hide ParamMetaDesc;
    hide ParamMeta;
    hide Bounded;
    hide SlotBound;
    hide EncSlot;
    BoundedInt32s(p, x);
    MetaShaped(p, x, bits);
    if k > 0 {
      MetaFieldsSize(p, x, bits, k - 1);
      SlotSize(p, x, bits, k - 1);
    }
  }

  /** All sixteen slots: six bytes less than the guard allows, so three are left for the envelope. */
  lemma {:induction false} BoundTotal(p: Param)
    ensures BoundTo(p, 16) == ParamBytes(p) - 6
  {
    BoundThree(p, 0);
    BoundThree(p, 3);
    BoundThree(p, 4);
    BoundThree(p, 7);
    BoundThree(p, 10);
    BoundThree(p, 13);
  }

  lemma BoundThree(p: Param, k: nat)
    requires k + 3 <= 16
    ensures BoundTo(p, k + 1) == BoundTo(p, k) + SlotBound(p, k)
    ensures BoundTo(p, k + 3) == BoundTo(p, k) + SlotBound(p, k) + SlotBound(p, k + 1) + SlotBound(p, k + 2)
  {
    hide SlotBound;
    assert BoundTo(p, k + 2) == BoundTo(p, k + 1) + SlotBound(p, k + 1);
  }

  lemma MetaSize(p: Param, x: real, bits: real -> nat)
    requires BitsOk(bits) && Bounded(p, x)
    ensures ShapedMsg(ParamMetaDesc(), ParamMeta(p, x, bits))
    ensures |EncMsg(ParamMetaDesc(), ParamMeta(p, x, bits))| <= ParamBytes(p) - 6
  {
    hide ParamMetaDesc;
    hide ParamMeta;
    hide Bounded;
    MetaFieldsSize(p, x, bits, 16);
    BoundTotal(p);
  }

  /** Every parameter of the table, with its current value. */
  predicate AllTame(ps: seq<Param>, xs: seq<real>)
    requires |ps| == |xs|
  {
    forall i :: 0 <= i < |ps| ==> Tame(ps[i], xs[i])
  }

  lemma {:induction false} SumCovers(ps: seq<Param>, i: nat, k: nat)
    requires i < k <= |ps|
    ensures ParamBytes(ps[i]) <= SumBytes(ps, k)
    decreases k
  {
    hide ParamBytes;
    if i < k - 1 {
      SumCovers(ps, i, k - 1);
    }
  }

  lemma {:induction false} TameBounded(ps: seq<Param>, xs: seq<real>)
    requires |ps| == |xs| && AllTame(ps, xs) && SumBytes(ps, |ps|) <= 0x4000
    ensures AllBounded(ps, xs)
  {
    hide Tame;
    hide ParamBytes;
    forall i | 0 <= i < |ps|
      ensures Bounded(ps[i], xs[i])
    {
      SumCovers(ps, i, |ps|);
    }
  }

  predicate AllBounded(ps: seq<Param>, xs: seq<real>)
    requires |ps| == |xs|
  {
    forall i :: 0 <= i < |ps| ==> Bounded(ps[i], xs[i])
  }

  function ParamsField(): Field
  {
    Field(1, Submessage(ParamMetaDesc()), Callback)
  }

  /** The fields of all parameters are in shape, and can be encoded. */
  lemma EachShaped(ps: seq<Param>, xs: seq<real>, bits: real -> nat)
    requires |ps| == |xs| && BitsOk(bits) && AllBounded(ps, xs)
    ensures ShapedSlot(ParamsField(), ParamMetas(ps, xs, bits)) && SlotFits(ParamsField(), ParamMetas(ps, xs, bits))
  {
    hide ParamMetaDesc;
    hide ParamMeta;
    hide Bounded;
    hide ShapedMsg;
    hide Encodable;
    forall i | 0 <= i < |ps|
      ensures ShapedMsg(ParamMetaDesc(), ParamMeta(ps[i], xs[i], bits))
      ensures Encodable(ParamMetaDesc(), ParamMeta(ps[i], xs[i], bits))
    {
      BoundedInt32s(ps[i], xs[i]);
      MetaShaped(ps[i], xs[i], bits);
    }
  }

  lemma EnvelopesWellFormed()
    ensures WellFormed(ConfigDesc()) && WellFormed(MsgDesc())
  {
    var anyone := Param([], [], [], [], TFloat, 0.0, 0.0, 0.0);
    AnyoneBounded(anyone);
    MetaShaped(anyone, 0.0, x => 0);
    hide ParamMetaDesc;
  }

  lemma MetasShaped(ps: seq<Param>, xs: seq<real>, bits: real -> nat)
    requires |ps| == |xs| && BitsOk(bits) && AllBounded(ps, xs)
    ensures ShapedSlot(ParamsField(), ParamMetas(ps, xs, bits))
    ensures ShapedMsg(ConfigDesc(), [ParamMetas(ps, xs, bits)]) && Encodable(ConfigDesc(), [ParamMetas(ps, xs, bits)])
    ensures ShapedMsg(MsgDesc(), ConfigReply(ps, xs, bits)) && Encodable(MsgDesc(), ConfigReply(ps, xs, bits))
  {
    hide ParamMetaDesc;
    hide ParamMetas;
    EachShaped(ps, xs, bits);
    var c := [ParamMetas(ps, xs, bits)];
    OneFieldShaped(ParamsField(), c[0]);
    OneFieldShaped(Field(2, Submessage(ConfigDesc()), Oneof(0)), [Msg(c)]);
  }

  lemma {:induction false} OneFieldShaped(f: Field, s: Slot)
    requires ShapedSlot(f, s) && SlotFits(f, s)
    ensures ShapedMsg(Desc([f]), [s]) && Encodable(Desc([f]), [s])
  {
  }

  lemma AnyoneBounded(p: Param)
    requires p == Param([], [], [], [], TFloat, 0.0, 0.0, 0.0)
    ensures Int32s(p, 0.0)
  {
  }

  /** The parameters so far, keys and lengths included: three bytes below the guard for each. */
  lemma {:induction false} EachSize(ps: seq<Param>, xs: seq<real>, bits: real -> nat, k: nat)
    requires |ps| == |xs| && BitsOk(bits) && AllBounded(ps, xs) && k <= |ps| && SumBytes(ps, k) <= 0x4000
    ensures ShapedSlot(ParamsField(), ParamMetas(ps, xs, bits))
    ensures |EncEach(ParamsField(), ParamMetas(ps, xs, bits)[..k])| + 3 * k <= SumBytes(ps, k)
    decreases k
  {
    hide ParamMetaDesc;
    hide ParamMeta;
    hide Bounded;
    hide ParamBytes;
    MetasShaped(ps, xs, bits);
    var vs := ParamMetas(ps, xs, bits);
    if k > 0 {
      var j := k - 1;
      EachSize(ps, xs, bits, j);
      assert vs[..k][..j] == vs[..j] && vs[..k][j] == Msg(ParamMeta(ps[j], xs[j], bits));
      OneSize(ps[j], xs[j], bits);
    }
  }

  /** A submessage with its key and its length. */
  lemma {:induction false} EnvelopeSize(f: Field, d: Desc, m: Message)
    requires f.ltype == Submessage(d) && 1 <= f.tag < 16 && ShapedMsg(d, m) && |EncMsg(d, m)| < 0x4000
    ensures Shaped(f.ltype, Msg(m)) && |EncOne(f, Msg(m))| <= 3 + |EncMsg(d, m)|
  {
    hide ShapedMsg;
    var inStruct := !f.rule.Callback?;
    assert Contents(f.ltype, Msg(m), inStruct) == EncMsg(d, m);
    assert EncPayload(f.ltype, Msg(m), inStruct) == Delimited(EncMsg(d, m));
    ShortVarint(f.tag * 8 + WT_STRING);
    ShortVarint(|EncMsg(d, m)|);
  }

  lemma OneSize(p: Param, x: real, bits: real -> nat)
    requires BitsOk(bits) && Bounded(p, x) && ParamBytes(p) <= 0x4000
    ensures Shaped(ParamsField().ltype, Msg(ParamMeta(p, x, bits)))
    ensures |EncOne(ParamsField(), Msg(ParamMeta(p, x, bits)))| + 3 <= ParamBytes(p)
  {
    hide ParamMetaDesc;
    hide ParamMeta;
    hide Bounded;
    hide ParamBytes;
    hide EncOne;
    hide EncMsg;
    MetaSize(p, x, bits);
    EnvelopeSize(ParamsField(), ParamMetaDesc(), ParamMeta(p, x, bits));
  }

  lemma {:induction false} ConfigSize(ps: seq<Param>, xs: seq<real>, bits: real -> nat)
    requires |ps| == |xs| && BitsOk(bits) && AllBounded(ps, xs) && SumBytes(ps, |ps|) <= 0x4000
    ensures ShapedMsg(ConfigDesc(), [ParamMetas(ps, xs, bits)])
    ensures |EncMsg(ConfigDesc(), [ParamMetas(ps, xs, bits)])| + 3 * |ps| <= SumBytes(ps, |ps|)
  {
    hide ParamMetaDesc;
    hide ParamMeta;
    hide Bounded;
    var vs := ParamMetas(ps, xs, bits);
    MetasShaped(ps, xs, bits);
    EachSize(ps, xs, bits, |ps|);
    assert vs[..|ps|] == vs;
    assert EncFields(ConfigDesc(), [vs], 0) == [];
    assert EncFields(ConfigDesc(), [vs], 1) == [] + EncSlot(ParamsField(), vs);
  }

  /** The guard is sound: with at least one parameter, short names and no negative integer, the whole
      reply, envelope included, takes at most configPbBytes(). */
  lemma {:induction false} GuardSound(ps: seq<Param>, xs: seq<real>, bits: real -> nat)
    requires |ps| == |xs| >= 1 && BitsOk(bits) && AllTame(ps, xs) && SumBytes(ps, |ps|) <= 0x4000
    ensures WellFormed(MsgDesc()) && ShapedMsg(MsgDesc(), ConfigReply(ps, xs, bits))
    ensures Encodable(MsgDesc(), ConfigReply(ps, xs, bits))
    ensures |EncMsg(MsgDesc(), ConfigReply(ps, xs, bits))| <= SumBytes(ps, |ps|)
  {
    hide ParamMetaDesc;
    hide ParamMetas;
    hide Tame;
    hide Bounded;
    TameBounded(ps, xs);
    MetasShaped(ps, xs, bits);
    ConfigSize(ps, xs, bits);
    hide EncOne;
    EnvelopesWellFormed();
    var c := [ParamMetas(ps, xs, bits)];
    var f := Field(2, Submessage(ConfigDesc()), Oneof(0));
    EnvelopeSize(f, ConfigDesc(), c);
    LoneSlot(f, Msg(c));
    assert EncFields(MsgDesc(), [[Msg(c)]], 0) == [];
    assert EncFields(MsgDesc(), [[Msg(c)]], 1) == [] + EncSlot(f, [Msg(c)]);
  }

  /** The web server's config reply never fails for lack of room: under the compile-time check, and
      with a clamped configuration, encoding into the arena succeeds. */
  method BuildConfigPb(reply: array<byte>, ps: seq<Param>, xs: seq<real>, bits: real -> nat)
    returns (ok: bool, n: nat)
    requires reply.Length == PB_REPLY_CAP && |ps| == |xs| >= 1 && BitsOk(bits) && AllTame(ps, xs)
    requires SumBytes(ps, |ps|) <= PB_REPLY_CAP
    modifies reply
    ensures ShapedMsg(MsgDesc(), ConfigReply(ps, xs, bits))
    ensures ok && n <= SumBytes(ps, |ps|)
    ensures reply[..n] == EncMsg(MsgDesc(), ConfigReply(ps, xs, bits))
  {
    hide MsgDesc;
    hide ConfigReply;
    GuardSound(ps, xs, bits);
    ok, n := EncodeToBuffer(reply, PB_REPLY_CAP, MsgDesc(), ConfigReply(ps, xs, bits));
  }

  /** From any configuration at all to the reply: clamp it, as loading and setting do, and the reply
      fits. The rows of the table need short names and integer bounds that are not negative. */
  method ClampAndReply(cfg: KartConfig, reply: array<byte>, bits: real -> nat) returns (ok: bool, n: nat)
    requires cfg.Valid() && |cfg.params| >= 1 && (forall i :: 0 <= i < |cfg.params| ==> RowTame(cfg.params[i]))
    requires SumBytes(cfg.params, |cfg.params|) <= PB_REPLY_CAP && reply.Length == PB_REPLY_CAP && BitsOk(bits)
    modifies cfg.fields, reply
    ensures cfg.Valid() && ShapedMsg(MsgDesc(), ConfigReply(cfg.params, cfg.Values(), bits))
    ensures AllTame(cfg.params, cfg.Values())
    ensures ok && n <= SumBytes(cfg.params, |cfg.params|)
    ensures reply[..n] == EncMsg(MsgDesc(), ConfigReply(cfg.params, cfg.Values(), bits))
  {
    hide MsgDesc;
    hide ConfigReply;
    hide Tame;
    hide RowTame;
    hide TableOk;
    hide InRange;
    cfg.ClampAll();
    var xs := cfg.Snapshot();
    ValuesTame(cfg.params, cfg.fields[..]);
    ok, n := BuildConfigPb(reply, cfg.params, xs, bits);
  }

  lemma ValuesTame(ps: seq<Param>, vs: seq<CfgVal>)
    requires TableOk(ps) && |ps| == |vs|
    requires forall i :: 0 <= i < |ps| ==> RowTame(ps[i])
    requires forall i :: 0 <= i < |ps| ==> TypeOk(ps[i], vs[i]) && InRange(ps[i], vs[i])
    ensures AllTame(ps, WidenAll(vs))
  {
    hide Tame;
    hide RowTame;
    forall i | 0 <= i < |ps|
      ensures Tame(ps[i], WidenAll(vs)[i])
    {
      ClampedTame(ps[i], vs[i]);
    }
  }

  /** And what the page decodes from it is the table: every text, and each value with its type. */
  lemma {:induction false} ReplyDecodes(ps: seq<Param>, xs: seq<real>, bits: real -> nat)
    requires |ps| == |xs| >= 1 && BitsOk(bits) && AllTame(ps, xs) && SumBytes(ps, |ps|) <= 0x4000
    ensures ShapedMsg(MsgDesc(), ConfigReply(ps, xs, bits))
    ensures Decode(MsgDesc(), EncMsg(MsgDesc(), ConfigReply(ps, xs, bits))) == Some(ConfigReply(ps, xs, bits))
  {
    hide ParamMetaDesc;
    hide ParamMeta;
    hide Tame;
    hide Bounded;
    GuardSound(ps, xs, bits);
    TameBounded(ps, xs);
    MetasShaped(ps, xs, bits);
    ReplyNulFree(ps, xs, bits);
    MessageRoundTrip(MsgDesc(), ConfigReply(ps, xs, bits));
  }

  lemma MetaNulFree(p: Param, x: real, bits: real -> nat)
    requires BitsOk(bits) && Int32s(p, x)
    ensures ShapedMsg(ParamMetaDesc(), ParamMeta(p, x, bits)) && NulFreeMsg(ParamMetaDesc(), ParamMeta(p, x, bits))
  {
    hide Int32s;
    hide Typed;
    MetaShaped(p, x, bits);
    hide ParamMetaDesc;
    hide ParamMeta;
    forall j, k | 0 <= j < 16 && 0 <= k < |ParamMeta(p, x, bits)[j]|
      ensures NulSafe(ParamMetaDesc().fields[j], ParamMeta(p, x, bits)[j][k])
    {
      if j >= 4 {
        GroupAt(j);
        SlotAt(p, x, bits, j);
      } else {
        TextAt(p, x, bits, j);
      }
    }
  }

  lemma ReplyNulFree(ps: seq<Param>, xs: seq<real>, bits: real -> nat)
    requires |ps| == |xs| && BitsOk(bits) && AllBounded(ps, xs)
    requires ShapedMsg(MsgDesc(), ConfigReply(ps, xs, bits))
    ensures NulFreeMsg(MsgDesc(), ConfigReply(ps, xs, bits))
  {
    hide ParamMetaDesc;
    hide ParamMeta;
    hide Bounded;
    forall i | 0 <= i < |ps|
      ensures ShapedMsg(ParamMetaDesc(), ParamMeta(ps[i], xs[i], bits))
      ensures NulFreeMsg(ParamMetaDesc(), ParamMeta(ps[i], xs[i], bits))
    {
      BoundedInt32s(ps[i], xs[i]);
      MetaNulFree(ps[i], xs[i], bits);
    }
    MetasShaped(ps, xs, bits);
    var c := [ParamMetas(ps, xs, bits)];
    assert NulFreeMsg(ConfigDesc(), c);
  }

  // ───────────── Where the guard would not hold ─────────────

  /** An int32 member holding a negative number: ten bytes of varint and the key. */
  lemma {:induction false} NegativeMember(f: Field, n: int)
    requires ShapedSlot(f, [Num(n)]) && f.rule.Oneof? && f.ltype == Varint(32) && -TWO_31 <= n < 0
    ensures |EncSlot(f, [Num(n)])| >= 11
  {
    LoneSlot(f, Num(n));
    Pow128Values();
    DigitsLength(ToU64(n), 9);
    ShortVarint(f.tag * 8 + WT_VARINT);
  }

  lemma NegativeSlot(p: Param, x: real, bits: real -> nat, j: nat)
    requires j < 16 && BitsOk(bits) && Int32s(p, x) && AllNegative(p, x)
    ensures ShapedSlot(ParamMetaDesc().fields[j], ParamMeta(p, x, bits)[j])
    ensures |EncSlot(ParamMetaDesc().fields[j], ParamMeta(p, x, bits)[j])| >= NegativeBytes(p, j)
  {
    FieldShaped(p, x, bits, j);
    if j < 4 {
      var t := TextOf(p, j);
      hide EncSlot;
      assert ParamMetaDesc().fields[j] == TextField(j + 1) && ParamMeta(p, x, bits)[j] == [Blob(t)];
      TextAtLeast(j + 1, t);
    } else if (j - 4) % 3 == 1 {
      hide ParamMetaDesc;
      hide ParamMeta;
      hide Round;
      hide EncSlot;
      GroupAt(j);
      SlotAt(p, x, bits, j);
      NegativeMember(OneofFields((j - 4) / 3, 8 + 3 * ((j - 4) / 3))[1], ValueAt(p, x, bits, (j - 4) / 3).n);
    }
  }

  lemma TextAtLeast(tag: nat, t: bytes)
    requires ShapedSlot(TextField(tag), [Blob(t)])
    ensures |EncSlot(TextField(tag), [Blob(t)])| >= 2 + |t|
  {
    assert Shaped(String(1), Blob(t));
    LoneSlot(TextField(tag), Blob(t));
    ShortVarint(tag * 8 + WT_STRING);
    ShortVarint(|t|);
  }

  predicate AllNegative(p: Param, x: real)
  {
    p.ptype == TInt && Round(x) < 0 && Round(p.min) < 0 && Round(p.max) < 0 && Round(p.def) < 0
  }

  function NegativeBytes(p: Param, j: nat): nat
  {
    if j == 0 then 2 + |p.name| else if j == 1 then 2 + |p.desc| else if j == 2 then 2 + |p.cat|
    else if j == 3 then 2 + |p.help| else if (j - 4) % 3 == 1 then 11 else 0
  }

  function NegativeTo(p: Param, k: nat): nat
  {
    if k == 0 then 0 else NegativeTo(p, k - 1) + NegativeBytes(p, k - 1)
  }

  lemma NegativeThree(p: Param, k: nat)
    ensures NegativeTo(p, k + 1) == NegativeTo(p, k) + NegativeBytes(p, k)
    ensures NegativeTo(p, k + 3) ==
      NegativeTo(p, k) + NegativeBytes(p, k) + NegativeBytes(p, k + 1) + NegativeBytes(p, k + 2)
  {
    hide NegativeBytes;
    assert NegativeTo(p, k + 2) == NegativeTo(p, k + 1) + NegativeBytes(p, k + 1);
  }

  lemma {:induction false} NegativeFields(p: Param, x: real, bits: real -> nat, k: nat)
    requires k <= 16 && BitsOk(bits) && Int32s(p, x) && AllNegative(p, x)
    ensures ShapedMsg(ParamMetaDesc(), ParamMeta(p, x, bits))
    ensures |EncFields(ParamMetaDesc(), ParamMeta(p, x, bits), k)| >= NegativeTo(p, k)
    decreases k
  {
    hide ParamMetaDesc;
    hide ParamMeta;
    hide Int32s;
    hide AllNegative;
    hide NegativeBytes;
    hide EncSlot;
    MetaShaped(p, x, bits);
    if k > 0 {
      NegativeFields(p, x, bits, k - 1);
      NegativeSlot(p, x, bits, k - 1);
    }
  }

  /** The bound counts five bytes for an integer: were the values of a parameter negative, its entry
      alone would exceed what the guard allows for it, whatever its texts. */
  lemma NegativeBreaksGuard(p: Param, x: real, bits: real -> nat)
    requires BitsOk(bits) && Int32s(p, x) && AllNegative(p, x)
    ensures ShapedMsg(ParamMetaDesc(), ParamMeta(p, x, bits))
    ensures |EncMsg(ParamMetaDesc(), ParamMeta(p, x, bits))| > ParamBytes(p)
  {
    hide ParamMetaDesc;
    hide ParamMeta;
    hide AllNegative;
    hide Int32s;
    NegativeFields(p, x, bits, 16);
    NegativeTotal(p);
  }

  lemma {:induction false} NegativeTotal(p: Param)
    ensures NegativeTo(p, 16) == 52 + |p.name| + |p.desc| + |p.cat| + |p.help|
  {
    NegativeThree(p, 0);
    NegativeThree(p, 3);
    NegativeThree(p, 4);
    NegativeThree(p, 7);
    NegativeThree(p, 10);
    NegativeThree(p, 13);
  }

  /** And an empty table still sends its envelope, which the bound does not count. */
  lemma EmptyTable(bits: real -> nat)
    requires BitsOk(bits)
    ensures WellFormed(MsgDesc()) && ShapedMsg(MsgDesc(), ConfigReply([], [], bits))
    ensures |EncMsg(MsgDesc(), ConfigReply([], [], bits))| > SumBytes([], 0)
  {
    hide ParamMetaDesc;
    EnvelopesWellFormed();
    MetasShaped([], [], bits);
    var c := [ParamMetas([], [], bits)];
    var f := Field(2, Submessage(ConfigDesc()), Oneof(0));
    LoneSlot(f, Msg(c));
    assert EncFields(MsgDesc(), [[Msg(c)]], 1) == [] + EncSlot(f, [Msg(c)]);
    ShortVarint(2 * 8 + WT_STRING);
  }
}
