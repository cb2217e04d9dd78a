/** Strings kept in struct members end at their first zero byte: what the codec really preserves of
    a message, for every message it can encode. */
module Trimming {
  import opened Prelude
  import opened Schema
  import opened Varint
  import opened OutStream
  import opened Wire
  import opened Meaning
  import opened RoundTrip
  import Algebra

  /** The value as C sees it. */
  function TrimValue(lt: LType, v: Value, inStruct: bool): Value
    requires Shaped(lt, v)
    decreases lt, 0
  {
    match lt
    case String(_) => if inStruct then Blob(UpToNul(v.s)) else v
    case Submessage(d) => Msg(TrimMsg(d, v.m))
    case _ => v
  }

  function TrimSlot(f: Field, s: Slot): (t: Slot)
    requires ShapedSlot(f, s)
    ensures |t| == |s|
    decreases f, 1
  {
    seq(|s|, k requires 0 <= k < |s| => TrimValue(f.ltype, s[k], !f.rule.Callback?))
  }

  function TrimMsg(d: Desc, m: Message): (t: Message)
    requires ShapedMsg(d, m)
    ensures |t| == |m|
    decreases d, 2
  {
    seq(|m|, i requires 0 <= i < |m| => TrimSlot(d.fields[i], m[i]))
  }

  // ───────────── The trimmed message is a message, and free of zero bytes ─────────────

  lemma {:induction false} TrimValueShaped(f: Field, v: Value)
    requires Shaped(f.ltype, v)
    ensures Shaped(f.ltype, TrimValue(f.ltype, v, !f.rule.Callback?))
    ensures NulSafe(f, TrimValue(f.ltype, v, !f.rule.Callback?))
    ensures TrimValue(f.ltype, v, !f.rule.Callback?) == v <==> NulSafe(f, v)
    decreases f.ltype, 1
  {
    if f.ltype.Submessage? {
      TrimMsgShaped(f.ltype.desc, v.m);
    } else if f.ltype.String? {
      assert 0 !in UpToNul(v.s);
    }
  }

  lemma {:induction false} TrimSlotShaped(f: Field, s: Slot)
    requires ShapedSlot(f, s)
    ensures ShapedSlot(f, TrimSlot(f, s))
    ensures forall k :: 0 <= k < |s| ==> NulSafe(f, TrimSlot(f, s)[k])
    ensures TrimSlot(f, s) == s <==> forall k :: 0 <= k < |s| ==> NulSafe(f, s[k])
    decreases f.ltype, 2
  {
    forall k | 0 <= k < |s|
      ensures Shaped(f.ltype, TrimSlot(f, s)[k]) && NulSafe(f, TrimSlot(f, s)[k])
      ensures TrimSlot(f, s)[k] == s[k] <==> NulSafe(f, s[k])
    {
      TrimValueShaped(f, s[k]);
    }
  }

  lemma {:induction false} TrimMsgShaped(d: Desc, m: Message)
    requires ShapedMsg(d, m)
    ensures ShapedMsg(d, TrimMsg(d, m)) && NulFreeMsg(d, TrimMsg(d, m))
    ensures TrimMsg(d, m) == m <==> NulFreeMsg(d, m)
    decreases d, 3
  {
    var t := TrimMsg(d, m);
    forall i | 0 <= i < |m|
      ensures ShapedSlot(d.fields[i], t[i]) && |t[i]| == |m[i]|
      ensures forall k :: 0 <= k < |m[i]| ==> NulSafe(d.fields[i], t[i][k])
      ensures t[i] == m[i] <==> forall k :: 0 <= k < |m[i]| ==> NulSafe(d.fields[i], m[i][k])
    {
      TrimSlotShaped(d.fields[i], m[i]);
    }
  }

  // ───────────── Trimming does not change what is sent ─────────────

  lemma {:induction false} UpToNulTwice(s: bytes)
    ensures UpToNul(UpToNul(s)) == UpToNul(s)
    ensures UpToNul(s) == [] <==> s == [] || s[0] == 0
  {
  }

  /** Same default test, same fit, same bytes: of a value. */
  lemma {:induction false} TrimValueSame(f: Field, v: Value)
    requires Shaped(f.ltype, v)
    ensures Shaped(f.ltype, TrimValue(f.ltype, v, !f.rule.Callback?))
    ensures !f.rule.Callback? ==> IsDefault(f.ltype, TrimValue(f.ltype, v, true)) == IsDefault(f.ltype, v)
    ensures ValueFits(f.ltype, v) ==> ValueFits(f.ltype, TrimValue(f.ltype, v, !f.rule.Callback?))
    ensures EncOne(f, TrimValue(f.ltype, v, !f.rule.Callback?)) == EncOne(f, v)
    decreases f.ltype, 1
  {
    TrimValueShaped(f, v);
    var w := TrimValue(f.ltype, v, !f.rule.Callback?);
    if f.ltype.Submessage? {
      TrimMsgSame(f.ltype.desc, v.m);
      SameContents(f, v, w);
    } else if f.ltype.String? {
      UpToNulTwice(v.s);
      SameContents(f, v, w);
    }
  }

  lemma {:induction false} SameContents(f: Field, v: Value, w: Value)
    requires LengthDelimited(f.ltype) && Shaped(f.ltype, v) && Shaped(f.ltype, w)
    requires Contents(f.ltype, v, !f.rule.Callback?) == Contents(f.ltype, w, !f.rule.Callback?)
    ensures EncOne(f, v) == EncOne(f, w)
  {
    hide Contents;
    hide Shaped;
    assert EncPayload(f.ltype, v, !f.rule.Callback?) == EncPayload(f.ltype, w, !f.rule.Callback?);
  }

  lemma {:induction false} TrimPackable(f: Field, s: Slot)
    requires ShapedSlot(f, s) && Packable(f.ltype)
    ensures TrimSlot(f, s) == s
  {
  }

  lemma {:induction false} TrimEach(f: Field, vs: seq<Value>)
    requires ShapedSlot(f, vs) && (f.rule.Repeated? || f.rule.Callback? || |vs| <= 1)
    ensures ShapedSlot(f, TrimSlot(f, vs))
    ensures EncEach(f, TrimSlot(f, vs)) == EncEach(f, vs)
    decreases f.ltype, 2, |vs|
  {
    TrimSlotShaped(f, vs);
    if vs != [] {
      var j := |vs| - 1;
      TrimValueSame(f, vs[j]);
      if j > 0 {
        TrimEach(f, vs[..j]);
        assert TrimSlot(f, vs)[..j] == TrimSlot(f, vs[..j]);
      }
    }
  }

  lemma {:induction false} TrimSlotSame(f: Field, s: Slot)
    requires ShapedSlot(f, s)
    ensures ShapedSlot(f, TrimSlot(f, s))
    ensures f.rule.Singular? ==> IsDefault(f.ltype, TrimSlot(f, s)[0]) == IsDefault(f.ltype, s[0])
    ensures SlotFits(f, s) ==> SlotFits(f, TrimSlot(f, s))
    ensures EncSlot(f, TrimSlot(f, s)) == EncSlot(f, s)
    decreases f.ltype, 3
  {
    TrimSlotShaped(f, s);
    forall k | 0 <= k < |s|
      ensures ValueFits(f.ltype, s[k]) ==> ValueFits(f.ltype, TrimSlot(f, s)[k])
      ensures !f.rule.Callback? ==> IsDefault(f.ltype, TrimSlot(f, s)[k]) == IsDefault(f.ltype, s[k])
    {
      TrimValueSame(f, s[k]);
    }
    if Packable(f.ltype) {
      TrimPackable(f, s);
    } else {
      TrimEach(f, s);
    }
  }

  lemma {:induction false} TrimFieldsSame(d: Desc, m: Message, k: nat)
    requires ShapedMsg(d, m) && ShapedMsg(d, TrimMsg(d, m)) && k <= |m|
    ensures EncFields(d, TrimMsg(d, m), k) == EncFields(d, m, k)
    decreases d, 4, k
  {
    hide EncSlot;
    hide IsDefault;
    if k > 0 {
      TrimFieldsSame(d, m, k - 1);
      TrimSlotSame(d.fields[k - 1], m[k - 1]);
    }
  }

  /** Trimmed or not, a message is sent as the same bytes. */
  lemma {:induction false} TrimMsgSame(d: Desc, m: Message)
    requires ShapedMsg(d, m)
    ensures ShapedMsg(d, TrimMsg(d, m))
    ensures IsDefaultMsg(d, TrimMsg(d, m)) == IsDefaultMsg(d, m)
    ensures Encodable(d, m) ==> Encodable(d, TrimMsg(d, m))
    ensures EncMsg(d, TrimMsg(d, m)) == EncMsg(d, m)
    decreases d, 5
  {
    hide EncSlot;
    hide EncFields;
    TrimMsgShaped(d, m);
    var t := TrimMsg(d, m);
    forall i | 0 <= i < |m|
      ensures d.fields[i].rule.Singular? ==>
        IsDefault(d.fields[i].ltype, t[i][0]) == IsDefault(d.fields[i].ltype, m[i][0])
      ensures SlotFits(d.fields[i], m[i]) ==> SlotFits(d.fields[i], t[i])
    {
      TrimSlotSame(d.fields[i], m[i]);
    }
    TrimFieldsSame(d, m, |m|);
  }

  // ───────────── The exact round trip ─────────────

  /** Every message that can be encoded comes back trimmed. */
  lemma {:induction false} DecodeTrims(d: Desc, m: Message)
    requires WellFormed(d) && ShapedMsg(d, m) && Encodable(d, m) && |EncMsg(d, m)| < TWO_32
    ensures Decode(d, EncMsg(d, m)) == Some(TrimMsg(d, m))
  {
    TrimMsgShaped(d, m);
    TrimMsgSame(d, m);
    MessageRoundTrip(d, TrimMsg(d, m));
  }

  /** So it comes back unchanged exactly when no struct member string holds a zero byte. */
  lemma {:induction false} RoundTripExactly(d: Desc, m: Message)
    requires WellFormed(d) && ShapedMsg(d, m) && Encodable(d, m) && |EncMsg(d, m)| < TWO_32
    ensures Decode(d, EncMsg(d, m)) == Some(m) <==> NulFreeMsg(d, m)
  {
    DecodeTrims(d, m);
    TrimMsgShaped(d, m);
  }

  /** Sending on what was received: for any input that decodes, the message can be encoded, and
      decoding that gives the message trimmed, so the same message exactly when no received struct
      member string holds a zero byte. */
  lemma {:induction false} ReencodeFaithful(d: Desc, b: bytes)
    requires WellFormed(d) && Decode(d, b).Some? && |EncMsg(d, Decode(d, b).value)| < TWO_32
    ensures var m := Decode(d, b).value;
      (Encodable(d, m) && Decode(d, EncMsg(d, m)) == Some(TrimMsg(d, m)) &&
       (Decode(d, EncMsg(d, m)) == Decode(d, b) <==> NulFreeMsg(d, m)))
  {
    hide Tokens;
    Algebra.DefaultEncodable(d);
    Algebra.MergeEncodable(d, DefaultMsg(d), b);
    DecodeTrims(d, Decode(d, b).value);
    RoundTripExactly(d, Decode(d, b).value);
  }

  // ───────────── The default check ─────────────

  /** Of any value, zero bytes or not, the proto3 default check asks whether C sees the default
      contents; "\0abc" is one that passes it. */
  lemma {:induction false} IsDefaultTrimmed(lt: LType, v: Value)
    requires Shaped(lt, v)
    ensures IsDefault(lt, v) <==> TrimValue(lt, v, true) == DefaultValue(lt)
    decreases lt, 0
  {
    if lt.Submessage? {
      IsDefaultMsgTrimmed(lt.desc, v.m);
    } else if lt.String? {
      UpToNulTwice(v.s);
    }
  }

  lemma {:induction false} IsDefaultMsgTrimmed(d: Desc, m: Message)
    requires ShapedMsg(d, m)
    ensures IsDefaultMsg(d, m) <==> TrimMsg(d, m) == DefaultMsg(d)
    decreases d, 2
  {
    var t := TrimMsg(d, m);
    forall i | 0 <= i < |m|
      ensures (if d.fields[i].rule.Singular? then IsDefault(d.fields[i].ltype, m[i][0]) else m[i] == [])
        <==> t[i] == DefaultSlot(d.fields[i])
    {
      if d.fields[i].rule.Singular? {
        IsDefaultTrimmed(d.fields[i].ltype, m[i][0]);
        assert |m[i]| == 1 && t[i] == TrimSlot(d.fields[i], m[i]);
        assert t[i][0] == TrimValue(d.fields[i].ltype, m[i][0], true);
      } else {
        assert |t[i]| == |m[i]|;
      }
    }
  }
}
