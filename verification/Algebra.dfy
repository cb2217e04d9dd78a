/** Laws of decoding that hold of any body, well-formed by this encoder or not: unknown fields do
    not matter, the order of unrelated fields does not matter, the last scalar wins, and whatever
    was decoded can be sent on. */
module Algebra {
  import opened Prelude
  import opened Schema
  import opened Wire
  import opened Meaning
  import opened RoundTrip

  /** `u` is exactly one field, `t`. */
  predicate IsField(u: bytes, t: Token)
  {
    u != [] && NextToken(u) == Some((t, []))
  }

  lemma {:induction false} FieldTokens(u: bytes, t: Token)
    requires IsField(u, t)
    ensures Tokens(u) == Some([t])
  {
    assert Tokens([]) == Some([]);
    TokensStep(u, t, []);
    assert [t] + [] == [t];
  }

  // ───────────── Locality: a field in the middle of a body ─────────────

  /** Merging around a middle part that divides into fields. */
  lemma {:induction false} MergeAround(d: Desc, m: Message, a: bytes, u: bytes, b: bytes)
    requires ShapedMsg(d, m) && Tokens(a).Some? && Tokens(u).Some?
    ensures Merge(d, m, a + u + b) ==
      if Tokens(b).Some? then ApplyAll(d, m, Tokens(a).value + Tokens(u).value + Tokens(b).value) else None
  {
    TokensConcat(a, u);
    TokensConcat(a + u, b);
  }

  /** If two middle parts do the same to every message, exchanging them changes nothing. */
  lemma {:induction false} Exchange(d: Desc, m: Message, a: bytes, u: bytes, w: bytes, b: bytes)
    requires ShapedMsg(d, m) && Tokens(a).Some? && Tokens(u).Some? && Tokens(w).Some?
    requires forall p: Message :: ShapedMsg(d, p) ==> ApplyAll(d, p, Tokens(u).value) == ApplyAll(d, p, Tokens(w).value)
    ensures Merge(d, m, a + u + b) == Merge(d, m, a + w + b)
  {
    MergeAround(d, m, a, u, b);
    MergeAround(d, m, a, w, b);
    if Tokens(b).Some? {
      var ta, tb := Tokens(a).value, Tokens(b).value;
      ApplyAllConcat(d, m, ta + Tokens(u).value, tb);
      ApplyAllConcat(d, m, ta + Tokens(w).value, tb);
      ApplyAllConcat(d, m, ta, Tokens(u).value);
      ApplyAllConcat(d, m, ta, Tokens(w).value);
    }
  }

  lemma {:induction false} ApplyOne(d: Desc, m: Message, t: Token)
    requires ShapedMsg(d, m)
    ensures ApplyAll(d, m, [t]) == Apply(d, m, t)
  {
    assert [t][1..] == [];
    if Apply(d, m, t).Some? {
      assert ApplyAll(d, Apply(d, m, t).value, []) == Apply(d, m, t);
    }
  }

  lemma {:induction false} ApplyTwo(d: Desc, m: Message, s: Token, t: Token)
    requires ShapedMsg(d, m)
    ensures ApplyAll(d, m, [s, t]) == if Apply(d, m, s).Some? then Apply(d, Apply(d, m, s).value, t) else None
  {
    assert [s, t][1..] == [t];
    if Apply(d, m, s).Some? {
      ApplyOne(d, Apply(d, m, s).value, t);
    }
  }

  // ───────────── Unknown fields ─────────────

  lemma {:induction false} UnknownSkipped(d: Desc, p: Message, t: Token)
    requires ShapedMsg(d, p) && FieldIndex(d, t.tag).None?
    ensures ApplyAll(d, p, [t]) == ApplyAll(d, p, [])
  {
    ApplyOne(d, p, t);
  }

  /** A well-formed field with a tag the schema does not know may stand at any field boundary. */
  lemma {:induction false} UnknownFieldIgnored(d: Desc, m: Message, a: bytes, u: bytes, t: Token, b: bytes)
    requires ShapedMsg(d, m) && Tokens(a).Some? && IsField(u, t) && FieldIndex(d, t.tag).None?
    ensures Merge(d, m, a + u + b) == Merge(d, m, a + b)
  {
    FieldTokens(u, t);
    var none: bytes := [];
    assert Tokens(none) == Some([]);
    forall p: Message | ShapedMsg(d, p)
      ensures ApplyAll(d, p, [t]) == ApplyAll(d, p, [])
    {
      UnknownSkipped(d, p, t);
    }
    Exchange(d, m, a, u, none, b);
    assert a + none == a;
  }

  // ───────────── Order ─────────────

  /** Two fields whose order cannot matter: different ones, not members of one oneof. */
  predicate Independent(d: Desc, i: nat, j: nat)
    requires i < |d.fields| && j < |d.fields|
  {
    i != j && !(d.fields[i].rule.Oneof? && d.fields[i].rule == d.fields[j].rule)
  }

  /** What one field does to the message, slot by slot. */
  function Place(d: Desc, m: Message, i: nat, s: Slot): (r: Message)
    requires ShapedMsg(d, m) && i < |m| && ShapedSlot(d.fields[i], s) && (d.fields[i].rule.Oneof? ==> |s| == 1)
    ensures ShapedMsg(d, r)
  {
    if d.fields[i].rule.Oneof? then Select(d, m, i, s[0]) else Update(d, m, i, s)
  }

  lemma {:induction false} PlaceAt(d: Desc, m: Message, i: nat, s: Slot, k: nat)
    requires ShapedMsg(d, m) && i < |m| && ShapedSlot(d.fields[i], s) && (d.fields[i].rule.Oneof? ==> |s| == 1)
    requires k < |m|
    ensures Place(d, m, i, s)[k] ==
      if k == i then s
      else if d.fields[i].rule.Oneof? && d.fields[k].rule == d.fields[i].rule then []
      else m[k]
  {
    if d.fields[i].rule.Oneof? {
      assert s == [s[0]];
    }
  }

  lemma {:induction false} PlaceCommutes(d: Desc, m: Message, i: nat, s: Slot, j: nat, t: Slot)
    requires ShapedMsg(d, m) && i < |m| && j < |m| && Independent(d, i, j)
    requires ShapedSlot(d.fields[i], s) && (d.fields[i].rule.Oneof? ==> |s| == 1)
    requires ShapedSlot(d.fields[j], t) && (d.fields[j].rule.Oneof? ==> |t| == 1)
    ensures Place(d, Place(d, m, i, s), j, t) == Place(d, Place(d, m, j, t), i, s)
  {
    var l, r := Place(d, Place(d, m, i, s), j, t), Place(d, Place(d, m, j, t), i, s);
    forall k | 0 <= k < |m|
      ensures l[k] == r[k]
    {
      PlaceAt(d, m, i, s, k);
      PlaceAt(d, m, j, t, k);
      PlaceAt(d, Place(d, m, i, s), j, t, k);
      PlaceAt(d, Place(d, m, j, t), i, s, k);
    }
  }

  lemma {:induction false} ApplyKnown(d: Desc, m: Message, t: Token, i: nat)
    requires ShapedMsg(d, m) && FieldIndex(d, t.tag) == Some(i)
    ensures Apply(d, m, t) ==
      if ApplyField(d.fields[i], m[i], t).Some?
      then Some(Place(d, m, i, ApplyField(d.fields[i], m[i], t).value)) else None
  {
  }

  lemma {:induction false} ApplyCommutes(d: Desc, m: Message, s: Token, i: nat, t: Token, j: nat)
    requires ShapedMsg(d, m)
    requires FieldIndex(d, s.tag) == Some(i) && FieldIndex(d, t.tag) == Some(j) && Independent(d, i, j)
    ensures ApplyAll(d, m, [s, t]) == ApplyAll(d, m, [t, s])
  {
    ApplyTwo(d, m, s, t);
    ApplyTwo(d, m, t, s);
    ApplyKnown(d, m, s, i);
    ApplyKnown(d, m, t, j);
    var x, y := ApplyField(d.fields[i], m[i], s), ApplyField(d.fields[j], m[j], t);
    if x.Some? {
      PlaceAt(d, m, i, x.value, j);
      ApplyKnown(d, Place(d, m, i, x.value), t, j);
    }
    if y.Some? {
      PlaceAt(d, m, j, y.value, i);
      ApplyKnown(d, Place(d, m, j, y.value), s, i);
    }
    if x.Some? && y.Some? {
      PlaceCommutes(d, m, i, x.value, j, y.value);
    }
  }

  /** Adjacent independent fields may be swapped, in any body, accepted or not. */
  lemma {:induction false} SwapIndependent(d: Desc, m: Message, a: bytes, u: bytes, s: Token, i: nat,
                                           w: bytes, t: Token, j: nat, b: bytes)
    requires ShapedMsg(d, m) && Tokens(a).Some? && IsField(u, s) && IsField(w, t)
    requires FieldIndex(d, s.tag) == Some(i) && FieldIndex(d, t.tag) == Some(j) && Independent(d, i, j)
    ensures Merge(d, m, a + (u + w) + b) == Merge(d, m, a + (w + u) + b)
  {
    FieldTokens(u, s);
    FieldTokens(w, t);
    TokensConcat(u, w);
    TokensConcat(w, u);
    assert [s] + [t] == [s, t] && [t] + [s] == [t, s];
    forall p: Message | ShapedMsg(d, p)
      ensures ApplyAll(d, p, [s, t]) == ApplyAll(d, p, [t, s])
    {
      ApplyCommutes(d, p, s, i, t, j);
    }
    Exchange(d, m, a, u + w, w + u, b);
  }

  // ───────────── Last one wins ─────────────

  /** The last value sent for a field, or `prior`. */
  function LastValue(f: Field, ts: seq<Token>, prior: Value): (v: Value)
    requires Shaped(f.ltype, prior)
    decreases |ts|
  {
    if ts == [] then prior
    else
      var v := ReadValue(f.ltype, DefaultValue(f.ltype), ts[0], true);
      LastValue(f, ts[1..], if ts[0].tag == f.tag && v.Some? then v.value else prior)
  }

  lemma {:induction false} LastValueApplied(d: Desc, m: Message, ts: seq<Token>, i: nat)
    requires WellFormed(d) && ShapedMsg(d, m) && i < |m| && ApplyAll(d, m, ts).Some?
    requires d.fields[i].rule.Singular? && !d.fields[i].ltype.Submessage?
    ensures ApplyAll(d, m, ts).value[i] == [LastValue(d.fields[i], ts, m[i][0])]
    decreases |ts|
  {
    if ts == [] {
      assert m[i] == [m[i][0]];
    } else {
      var p := Apply(d, m, ts[0]).value;
      LastValueApplied(d, p, ts[1..], i);
      SingularApplied(d, m, ts[0], i);
    }
  }

  /** One token either sets a singular scalar, whatever it held, or leaves it alone. */
  lemma {:induction false} SingularApplied(d: Desc, m: Message, t: Token, i: nat)
    requires WellFormed(d) && ShapedMsg(d, m) && i < |m| && Apply(d, m, t).Some?
    requires d.fields[i].rule.Singular? && !d.fields[i].ltype.Submessage?
    ensures t.tag != d.fields[i].tag ==> Apply(d, m, t).value[i] == m[i]
    ensures t.tag == d.fields[i].tag ==>
      ReadValue(d.fields[i].ltype, DefaultValue(d.fields[i].ltype), t, true).Some?
      && Apply(d, m, t).value[i] == [ReadValue(d.fields[i].ltype, DefaultValue(d.fields[i].ltype), t, true).value]
  {
    var j := FieldIndex(d, t.tag);
    FieldIndexOf(d, i);
    if j.Some? {
      ApplyKnown(d, m, t, j.value);
      PlaceAt(d, m, j.value, ApplyField(d.fields[j.value], m[j.value], t).value, i);
    }
  }

  /** A singular scalar ends up with the last value sent for it, or its default. */
  lemma {:induction false} LastOneWins(d: Desc, b: bytes, i: nat)
    requires WellFormed(d) && i < |d.fields| && Decode(d, b).Some?
    requires d.fields[i].rule.Singular? && !d.fields[i].ltype.Submessage?
    ensures Decode(d, b).value[i] == [LastValue(d.fields[i], Tokens(b).value, DefaultValue(d.fields[i].ltype))]
  {
    LastValueApplied(d, DefaultMsg(d), Tokens(b).value, i);
  }

  // ───────────── A submessage in two pieces ─────────────

  lemma {:induction false} MergeTwice(d: Desc, m: Message, a: bytes, b: bytes)
    requires ShapedMsg(d, m) && Tokens(a).Some?
    ensures Merge(d, m, a + b) == if Merge(d, m, a).Some? then Merge(d, Merge(d, m, a).value, b) else None
  {
    TokensConcat(a, b);
    if Tokens(b).Some? {
      ApplyAllConcat(d, m, Tokens(a).value, Tokens(b).value);
    }
  }

  /** What a submessage token does to the field it is for. */
  lemma {:induction false} SubmessageApplied(d: Desc, m: Message, i: nat, payload: bytes)
    requires WellFormed(d) && ShapedMsg(d, m) && i < |m| && d.fields[i].ltype.Submessage?
    requires d.fields[i].rule.Singular? || d.fields[i].rule.Optional? || d.fields[i].rule.Oneof?
    ensures var f := d.fields[i];
      var v := Merge(f.ltype.desc, Held(f, m[i]).m, payload);
      Apply(d, m, Token(f.tag, WT_STRING, payload)) == if v.Some? then Some(Place(d, m, i, [Msg(v.value)])) else None
  {
    hide Merge;
    hide Place;
    FieldIndexOf(d, i);
    ApplyKnown(d, m, Token(d.fields[i].tag, WT_STRING, payload), i);
  }

  lemma {:induction false} PlaceTwice(d: Desc, m: Message, i: nat, s: Slot, t: Slot)
    requires ShapedMsg(d, m) && i < |m| && ShapedSlot(d.fields[i], s) && ShapedSlot(d.fields[i], t)
    requires d.fields[i].rule.Oneof? ==> |s| == 1 && |t| == 1
    ensures Place(d, Place(d, m, i, s), i, t) == Place(d, m, i, t)
  {
    var l, r := Place(d, Place(d, m, i, s), i, t), Place(d, m, i, t);
    forall k | 0 <= k < |m|
      ensures l[k] == r[k]
    {
      PlaceAt(d, m, i, s, k);
      PlaceAt(d, m, i, t, k);
      PlaceAt(d, Place(d, m, i, s), i, t, k);
    }
  }

  /** One token after the other, or one with both contents: the same. */
  lemma {:induction false} TwiceApplied(d: Desc, m: Message, i: nat, a: bytes, b: bytes)
    requires WellFormed(d) && ShapedMsg(d, m) && i < |m| && d.fields[i].ltype.Submessage? && Tokens(a).Some?
    requires d.fields[i].rule.Singular? || d.fields[i].rule.Optional? || d.fields[i].rule.Oneof?
    ensures var tag := d.fields[i].tag;
      ApplyAll(d, m, [Token(tag, WT_STRING, a), Token(tag, WT_STRING, b)]) ==
      ApplyAll(d, m, [Token(tag, WT_STRING, a + b)])
  {
    hide Merge;
    hide Apply;
    hide ApplyAll;
    hide Place;
    var f := d.fields[i];
    var prior := Held(f, m[i]).m;
    var first := Merge(f.ltype.desc, prior, a);
    ApplyTwo(d, m, Token(f.tag, WT_STRING, a), Token(f.tag, WT_STRING, b));
    ApplyOne(d, m, Token(f.tag, WT_STRING, a + b));
    SubmessageApplied(d, m, i, a);
    SubmessageApplied(d, m, i, a + b);
    MergeTwice(f.ltype.desc, prior, a, b);
    if first.Some? {
      var p := Place(d, m, i, [Msg(first.value)]);
      PlaceAt(d, m, i, [Msg(first.value)], i);
      SubmessageApplied(d, p, i, b);
      var second := Merge(f.ltype.desc, first.value, b);
      if second.Some? {
        PlaceTwice(d, m, i, [Msg(first.value)], [Msg(second.value)]);
      }
    }
  }

  /** Two occurrences of a submessage field are merged: any body means the same with one occurrence of the two
      contents one after the other, accepted or not. */
  lemma {:induction false} SubmessagesMerge(d: Desc, m: Message, i: nat, x: bytes, u: bytes, a: bytes,
                                            w: bytes, b: bytes, both: bytes, y: bytes)
    requires WellFormed(d) && ShapedMsg(d, m) && i < |m| && d.fields[i].ltype.Submessage?
    requires d.fields[i].rule.Singular? || d.fields[i].rule.Optional? || d.fields[i].rule.Oneof?
    requires Tokens(x).Some? && Tokens(a).Some?
    requires IsField(u, Token(d.fields[i].tag, 2, a)) && IsField(w, Token(d.fields[i].tag, 2, b))
    requires IsField(both, Token(d.fields[i].tag, 2, a + b))
    ensures Merge(d, m, x + (u + w) + y) == Merge(d, m, x + both + y)
  {
    var s, t, st := Token(d.fields[i].tag, 2, a), Token(d.fields[i].tag, 2, b), Token(d.fields[i].tag, 2, a + b);
    FieldTokens(u, s);
    FieldTokens(w, t);
    FieldTokens(both, st);
    TokensConcat(u, w);
    assert [s] + [t] == [s, t];
    forall p: Message | ShapedMsg(d, p)
      ensures ApplyAll(d, p, [s, t]) == ApplyAll(d, p, [st])
    {
      TwiceApplied(d, p, i, a, b);
    }
    Exchange(d, m, x, u + w, both, y);
  }

  // ───────────── What was decoded can be sent on ─────────────

  lemma {:induction false} DefaultFits(lt: LType)
    requires lt.String? ==> lt.dataSize >= 1
    requires lt.Bytes? ==> lt.dataSize >= 2
    requires lt.Submessage? ==> WellFormed(lt.desc)
    ensures IsDefault(lt, DefaultValue(lt)) && ValueFits(lt, DefaultValue(lt))
    decreases lt, 0
  {
    if lt.Submessage? {
      DefaultEncodable(lt.desc);
    }
  }

  lemma {:induction false} DefaultEncodable(d: Desc)
    requires WellFormed(d)
    ensures Encodable(d, DefaultMsg(d)) && IsDefaultMsg(d, DefaultMsg(d))
    decreases d, 1
  {
    forall i | 0 <= i < |d.fields|
      ensures SlotFits(d.fields[i], DefaultMsg(d)[i])
      ensures d.fields[i].rule.Singular? ==> IsDefault(d.fields[i].ltype, DefaultMsg(d)[i][0])
    {
      assert WellFormedField(d.fields[i]);
      DefaultFits(d.fields[i].ltype);
    }
  }

  lemma {:induction false} ReadValueFits(lt: LType, prior: Value, t: Token, inStruct: bool)
    requires Shaped(lt, prior) && ReadValue(lt, prior, t, inStruct).Some?
    requires lt.Submessage? ==> WellFormed(lt.desc) && ValueFits(lt, prior)
    ensures inStruct || lt.Submessage? ==> ValueFits(lt, ReadValue(lt, prior, t, inStruct).value)
    decreases lt, 0
  {
    if lt.Submessage? {
      MergeEncodable(lt.desc, prior.m, t.payload);
    }
  }

  lemma {:induction false} ApplyFieldFits(f: Field, s: Slot, t: Token)
    requires WellFormedField(f) && ShapedSlot(f, s) && SlotFits(f, s) && ApplyField(f, s, t).Some?
    ensures SlotFits(f, ApplyField(f, s, t).value)
    decreases f, 1
  {
    DefaultFits(f.ltype);
    var prior := Held(f, s);
    assert f.ltype.Submessage? ==> ValueFits(f.ltype, prior) by {
      if f.ltype.Submessage? && s != [] && !f.rule.Repeated? && !f.rule.Callback? {
        HeldFits(f, s);
      }
    }
    if !(f.rule.Repeated? && t.wireType == WT_STRING && Packable(f.ltype)) {
      ReadValueFits(f.ltype, prior, t, !f.rule.Callback?);
    }
  }

  /** A singular submessage at its default fits too, although the encoder never looks inside it. */
  lemma {:induction false} HeldFits(f: Field, s: Slot)
    requires WellFormedField(f) && ShapedSlot(f, s) && SlotFits(f, s) && f.ltype.Submessage? && s != []
    requires !f.rule.Callback?
    ensures ValueFits(f.ltype, s[0])
    decreases f, 0
  {
    if f.rule.Singular? && IsDefault(f.ltype, s[0]) {
      IsDefaultFits(f.ltype.desc, s[0].m);
    }
  }

  lemma {:induction false} IsDefaultFits(d: Desc, m: Message)
    requires WellFormed(d) && ShapedMsg(d, m) && IsDefaultMsg(d, m)
    ensures Encodable(d, m)
  {
    forall i | 0 <= i < |m|
      ensures SlotFits(d.fields[i], m[i])
    {
    }
  }

  lemma {:induction false} ApplyEncodable(d: Desc, m: Message, t: Token)
    requires WellFormed(d) && ShapedMsg(d, m) && Encodable(d, m) && Apply(d, m, t).Some?
    ensures Encodable(d, Apply(d, m, t).value)
    decreases d, 2
  {
    var i := FieldIndex(d, t.tag);
    if i.Some? {
      ApplyKnown(d, m, t, i.value);
      ApplyFieldFits(d.fields[i.value], m[i.value], t);
      var s := ApplyField(d.fields[i.value], m[i.value], t).value;
      forall k | 0 <= k < |m|
        ensures SlotFits(d.fields[k], Place(d, m, i.value, s)[k])
      {
        PlaceAt(d, m, i.value, s, k);
        assert SlotFits(d.fields[k], m[k]);
      }
    }
  }

  lemma {:induction false} ApplyAllEncodable(d: Desc, m: Message, ts: seq<Token>)
    requires WellFormed(d) && ShapedMsg(d, m) && Encodable(d, m) && ApplyAll(d, m, ts).Some?
    ensures Encodable(d, ApplyAll(d, m, ts).value)
    decreases d, 3, |ts|
  {
    if ts != [] {
      ApplyEncodable(d, m, ts[0]);
      ApplyAllEncodable(d, Apply(d, m, ts[0]).value, ts[1..]);
    }
  }

  /** No input makes the decoder overfill an array or leave a string unterminated. */
  lemma {:induction false} MergeEncodable(d: Desc, m: Message, b: bytes)
    requires WellFormed(d) && ShapedMsg(d, m) && Encodable(d, m) && Merge(d, m, b).Some?
    ensures Encodable(d, Merge(d, m, b).value)
    decreases d, 4
  {
    ApplyAllEncodable(d, m, Tokens(b).value);
  }
}
