/** What the page finds in the configuration reply: each row of the table, member by member under the tags of
    kart.proto. */
module ReplyContents {
  import opened Prelude
  import opened Schema
  import opened Wire
  import opened Meaning
  import opened ReplyGuard

  /** What a message holds under a tag. */
  function Member(d: Desc, m: Message, tag: nat): Slot
    requires |m| == |d.fields|
  {
    if FieldIndex(d, tag).Some? then m[FieldIndex(d, tag).value] else []
  }

  // ───────────── One parameter ─────────────

  /** The whole number nearest to `x`, the one further from zero from half way. */
  predicate Nearest(n: int, x: real)
  {
    (x >= 0.0 ==> x - 0.5 < n as real <= x + 0.5) && (x <= 0.0 ==> x - 0.5 <= n as real < x + 0.5)
  }

  lemma NearestWhole(n: int, x: real)
    requires Nearest(n, x) && Whole(x)
    ensures n as real == x
  {
    HalfApart(n, x.Floor);
  }

  lemma HalfApart(n: int, k: int)
    requires k as real - 0.5 <= n as real <= k as real + 0.5
    ensures n == k
  {
    var d := n - k;
    assert d as real == n as real - k as real;
  }

  /** A number in a oneof of three: true or false under `tag` for a bool, the number itself under the next tag for an
      int, the pattern of the float under the last; the other two are absent. */
  predicate ShowsNumber(m: Message, tag: nat, t: PType, x: real, bits: real -> nat)
    requires |m| == 16
  {
    var d := ParamMetaDesc();
    match t
    case TBool =>
      Member(d, m, tag) == [Num(if x == 0.0 then 0 else 1)] &&
      Member(d, m, tag + 1) == [] && Member(d, m, tag + 2) == []
    case TInt =>
      Member(d, m, tag) == [] && Member(d, m, tag + 2) == [] &&
      |Member(d, m, tag + 1)| == 1 && Member(d, m, tag + 1)[0].Num? && Nearest(Member(d, m, tag + 1)[0].n, x)
    case TFloat =>
      Member(d, m, tag) == [] && Member(d, m, tag + 1) == [] && Member(d, m, tag + 2) == [Num(bits(x))]
  }

  /** Name, label, category and help; value, minimum, maximum and default. */
  predicate ShowsRow(m: Message, p: Param, x: real, bits: real -> nat)
    requires |m| == 16
  {
    var d := ParamMetaDesc();
    Member(d, m, 1) == [Blob(p.name)] && Member(d, m, 2) == [Blob(p.desc)] &&
    Member(d, m, 3) == [Blob(p.cat)] && Member(d, m, 4) == [Blob(p.help)] &&
    ShowsNumber(m, 8, p.ptype, x, bits) && ShowsNumber(m, 11, p.ptype, p.min, bits) &&
    ShowsNumber(m, 14, p.ptype, p.max, bits) && ShowsNumber(m, 17, p.ptype, p.def, bits)
  }

  /** The types behind the tags: four strings, then four times a bool, an int32 and a float. */
  lemma TagTypes(tag: nat)
    ensures FieldIndex(ParamMetaDesc(), tag).Some? <==> 1 <= tag <= 4 || 8 <= tag <= 19
    ensures 1 <= tag <= 4 ==> FieldIndex(ParamMetaDesc(), tag) == Some(tag - 1)
    ensures 8 <= tag <= 19 ==> FieldIndex(ParamMetaDesc(), tag) == Some(tag - 4)
    ensures FieldIndex(ParamMetaDesc(), tag).Some? ==>
      var lt := ParamMetaDesc().fields[FieldIndex(ParamMetaDesc(), tag).value].ltype;
      if tag <= 4 then lt.String? else if tag % 3 == 2 then lt == Bool else if tag % 3 == 0 then lt == Varint(32)
      else lt == Fixed32
  {
    hide FieldIndex;
    hide OneofFields;
    var d := ParamMetaDesc();
    forall j | 0 <= j < 16
      ensures d.fields[j].tag == if j < 4 then j + 1 else j + 4
      ensures j < 4 ==> d.fields[j].ltype.String?
      ensures j >= 4 ==> d.fields[j].ltype == if j % 3 == 1 then Bool else if j % 3 == 2 then Varint(32) else Fixed32
    {
      EntryType(j);
    }
    if 1 <= tag <= 4 {
      assert d.fields[tag - 1].tag == tag;
    }
    if 8 <= tag <= 19 {
      assert d.fields[tag - 4].tag == tag;
    }
  }

  lemma EntryType(j: nat)
    requires j < 16
    ensures var f := ParamMetaDesc().fields[j];
      f.tag == (if j < 4 then j + 1 else j + 4) && (j < 4 ==> f.ltype.String?) &&
      (j >= 4 ==> f.ltype == if j % 3 == 1 then Bool else if j % 3 == 2 then Varint(32) else Fixed32)
  {
    if j >= 4 {
      GroupAt(j);
    }
  }

  lemma NumberShown(p: Param, x: real, bits: real -> nat, g: nat, m: Message)
    requires g < 4 && m == ParamMeta(p, x, bits)
    ensures var y := if g == 0 then x else if g == 1 then p.min else if g == 2 then p.max else p.def;
      ShowsNumber(m, 8 + 3 * g, p.ptype, y, bits)
  {
    hide ParamMeta;
    hide ParamMetaDesc;
    hide FieldIndex;
    hide Round;
    var y := if g == 0 then x else if g == 1 then p.min else if g == 2 then p.max else p.def;
    TagTypes(8 + 3 * g);
    TagTypes(9 + 3 * g);
    TagTypes(10 + 3 * g);
    SlotAt(p, x, bits, 4 + 3 * g);
    SlotAt(p, x, bits, 5 + 3 * g);
    SlotAt(p, x, bits, 6 + 3 * g);
    RoundNearest(y);
  }

  lemma RowShown(p: Param, x: real, bits: real -> nat)
    ensures ShowsRow(ParamMeta(p, x, bits), p, x, bits)
  {
    hide ParamMeta;
    hide ParamMetaDesc;
    hide FieldIndex;
    hide ShowsNumber;
    var m := ParamMeta(p, x, bits);
    TagTypes(1);
    TagTypes(2);
    TagTypes(3);
    TagTypes(4);
    TextAt(p, x, bits, 0);
    TextAt(p, x, bits, 1);
    TextAt(p, x, bits, 2);
    TextAt(p, x, bits, 3);
    NumberShown(p, x, bits, 0, m);
    NumberShown(p, x, bits, 1, m);
    NumberShown(p, x, bits, 2, m);
    NumberShown(p, x, bits, 3, m);
  }

  // ───────────── The whole reply ─────────────

  /** The reply decodes, as a Msg whose member 2 is a Config whose member 1 is the table, row by row. */
  ghost predicate ShowsTable(reply: bytes, ps: seq<Param>, xs: seq<real>, bits: real -> nat)
    requires |ps| == |xs|
  {
    var got := Decode(MsgDesc(), reply);
    got.Some? &&
    var config := Member(MsgDesc(), got.value, 2);
    |config| == 1 && config[0].Msg? && |config[0].m| == 1 &&
    var rows := Member(ConfigDesc(), config[0].m, 1);
    |rows| == |ps| &&
    forall i :: 0 <= i < |ps| ==>
      rows[i].Msg? && |rows[i].m| == 16 && ShowsRow(rows[i].m, ps[i], xs[i], bits)
  }

  /** The page sees the table: every row in order, with its texts, and each of its numbers under its type. */
  lemma {:induction false} ReplyShows(ps: seq<Param>, xs: seq<real>, bits: real -> nat)
    requires |ps| == |xs| >= 1 && BitsOk(bits) && AllTame(ps, xs) && SumBytes(ps, |ps|) <= 0x4000
    ensures ShapedMsg(MsgDesc(), ConfigReply(ps, xs, bits))
    ensures ShowsTable(EncMsg(MsgDesc(), ConfigReply(ps, xs, bits)), ps, xs, bits)
  {
    hide ParamMeta;
    hide ParamMetaDesc;
    hide ShowsRow;
    hide Tame;
    hide EncMsg;
    hide Decode;
    ReplyDecodes(ps, xs, bits);
    EnvelopeTags();
    forall i | 0 <= i < |ps|
      ensures ShowsRow(ParamMeta(ps[i], xs[i], bits), ps[i], xs[i], bits)
    {
      RowShown(ps[i], xs[i], bits);
    }
  }

  lemma EnvelopeTags()
    ensures FieldIndex(MsgDesc(), 2) == Some(0) && FieldIndex(ConfigDesc(), 1) == Some(0)
  {
    hide ParamMetaDesc;
  }

  /** buildConfigPb on a configuration however it came about: clamped, it is answered, and the page sees it. */
  method AnswerGetConfig(cfg: KartConfig, reply: array<byte>, bits: real -> nat) returns (ok: bool, n: nat)
    requires cfg.Valid() && |cfg.params| >= 1 && (forall i :: 0 <= i < |cfg.params| ==> RowTame(cfg.params[i]))
    requires SumBytes(cfg.params, |cfg.params|) <= PB_REPLY_CAP && reply.Length == PB_REPLY_CAP && BitsOk(bits)
    modifies cfg.fields, reply
    ensures cfg.Valid() && ok && n <= SumBytes(cfg.params, |cfg.params|) && n <= 9216
    ensures ShowsTable(reply[..n], cfg.params, cfg.Values(), bits)
  {
    hide ParamMetaDesc;
    hide RowTame;
    hide Tame;
    hide ShowsTable;
    hide TableOk;
    ok, n := ClampAndReply(cfg, reply, bits);
    ReplyShows(cfg.params, cfg.Values(), bits);
  }
}
