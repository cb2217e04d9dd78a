/** pb_decode.c: the loop that hands a length-delimited field to an application callback until it
    stops taking bytes. The callback is arbitrary, as long as each call returns: it fails, or takes
    some of the bytes of its substream and succeeds. */
module Callbacks {
  import opened Prelude
  import opened Wire
  import opened InStream

  /** What call number `k` does with the bytes it is shown: fail, or take so many of them. */
  type Callback = (nat, bytes) -> Option<nat>

  /** A substream cannot be read beyond its end. */
  ghost predicate Returns(cb: Callback)
  {
    forall k: nat, b: bytes :: cb(k, b).Some? ==> cb(k, b).value <= |b|
  }

  /** The calls made on a payload, the first of them numbered `k`: their count, and the bytes
      nobody took; None if a call fails. */
  function Calls(cb: Callback, k: nat, b: bytes): (r: Option<(nat, nat)>)
    ensures r.Some? ==> 1 <= r.value.0 <= |b| + 1 && r.value.1 <= |b|
    decreases |b|
  {
    var n := cb(k, b);
    if n.None? then None
    else if 0 < n.value < |b| then
      var rest := Calls(cb, k + 1, b[n.value..]);
      if rest.None? then None else Some((rest.value.0 + 1, rest.value.1))
    else Some((1, if n.value <= |b| then |b| - n.value else 0))
  }

  /** The number of calls never exceeds the length of the payload, except for the one call that an
      empty payload gets; and the loop goes on as long as, and no longer than, there is progress. */
  lemma {:induction false} CallsBounded(cb: Callback, k: nat, b: bytes)
    requires Calls(cb, k, b).Some?
    ensures Calls(cb, k, b).value.0 <= if b == [] then 1 else |b|
    ensures b != [] && Calls(cb, k, b).value.1 == |b| ==> Calls(cb, k, b).value.0 == 1 && cb(k, b) == Some(0)
    decreases |b|
  {
    var n := cb(k, b).value;
    if 0 < n < |b| {
      CallsBounded(cb, k + 1, b[n..]);
    }
  }

  /** `done` more calls. */
  function Plus(r: Option<(nat, nat)>, done: nat): Option<(nat, nat)>
  {
    if r.Some? then Some((r.value.0 + done, r.value.1)) else None
  }

  lemma CallsStep(cb: Callback, k: nat, b: bytes, n: nat)
    requires cb(k, b) == Some(n) && n <= |b|
    ensures 0 < n < |b| ==> Calls(cb, k, b) == Plus(Calls(cb, k + 1, b[n..]), 1)
    ensures !(0 < n < |b|) ==> Calls(cb, k, b) == Some((1, |b| - n))
  {
  }

  /** One call of the callback, reading from the substream. */
  method CallOnce(sub: IStream, cb: Callback, k: nat) returns (ok: bool)
    requires sub.Valid() && Returns(cb)
    modifies sub
    ensures sub.Valid() && sub.End() == old(sub.End())
    ensures ok <==> cb(k, old(sub.Rest())).Some?
    ensures ok ==> cb(k, old(sub.Rest())).value <= old(sub.bytesLeft)
    ensures ok ==> sub.Rest() == old(sub.Rest())[cb(k, old(sub.Rest())).value..]
  {
    var n := cb(k, sub.src[sub.pos..sub.pos + sub.bytesLeft]);
    if n.None? {
      return false;
    }
    var data;
    ok, data := sub.Read(n.value);
  }

  /** Whatever the callbacks do, the loop ends; and when they all succeed the parent stream stands
      right behind the field, its end where it was: what they left over has been read past. */
  method CallbackLoop(inp: IStream, cb: Callback) returns (ok: bool, calls: nat)
    requires inp.Valid() && Returns(cb)
    modifies inp
    ensures inp.Valid()
    ensures ok <==> (Frame(WT_STRING, old(inp.Rest())).Some? &&
                     Calls(cb, 0, Frame(WT_STRING, old(inp.Rest())).value.0).Some?)
    ensures ok ==> calls == Calls(cb, 0, Frame(WT_STRING, old(inp.Rest())).value.0).value.0
    ensures ok ==> inp.End() == old(inp.End()) && inp.Rest() == Frame(WT_STRING, old(inp.Rest())).value.1
  {
    hide Frame;
    hide Calls;
    calls := 0;
    var sub;
    ok, sub := inp.MakeSubstream();
    if !ok {
      return;
    }
    ghost var payload := sub.Rest();
    ghost var end := sub.End();
    var again := true;
    while again
      invariant sub.Valid() && sub.End() == end
      invariant again ==> Calls(cb, 0, payload) == Plus(Calls(cb, calls, sub.Rest()), calls)
      invariant !again ==> Calls(cb, 0, payload).Some? && Calls(cb, 0, payload).value.0 == calls
      modifies sub
      decreases if again then sub.bytesLeft + 1 else 0
    {
      var prev := sub.bytesLeft;
      ghost var shown := sub.Rest();
      ok := CallOnce(sub, cb, calls);
      if !ok {
        CallsFail(cb, calls, shown);
        return;
      }
      CallsStep(cb, calls, shown, cb(calls, shown).value);
      calls := calls + 1;
      again := 0 < sub.bytesLeft < prev;
    }
    ok := inp.CloseSubstream(sub);
  }

  lemma {:induction false} CallsFail(cb: Callback, k: nat, b: bytes)
    requires cb(k, b).None?
    ensures Calls(cb, k, b).None?
  {
  }

  /** The calls a field of any wire type gives rise to: the loop for a length-delimited one, a single
      call on a copy of the raw bytes, ten at most, for the others. */
  function FieldCalls(cb: Callback, wireType: nat, payload: bytes): (r: Option<nat>)
  {
    if wireType == WT_STRING then
      var calls := Calls(cb, 0, payload);
      if calls.Some? then Some(calls.value.0) else None
    else if wireType == WT_VARINT && |payload| > 10 then None
    else if cb(0, payload).Some? then Some(1) else None
  }

  /** decode_callback_field with any callback that returns, whatever the type of the field. */
  method DecodeCallback(inp: IStream, wireType: nat, cb: Callback) returns (ok: bool, calls: nat)
    requires inp.Valid() && Returns(cb)
    modifies inp
    ensures inp.Valid()
    ensures ok <==> (Frame(wireType, old(inp.Rest())).Some? &&
                     FieldCalls(cb, wireType, Frame(wireType, old(inp.Rest())).value.0).Some?)
    ensures ok ==> calls == FieldCalls(cb, wireType, Frame(wireType, old(inp.Rest())).value.0).value
    ensures ok ==> inp.End() == old(inp.End()) && inp.Rest() == Frame(wireType, old(inp.Rest())).value.1
  {
    hide Frame;
    hide Calls;
    if wireType == WT_STRING {
      ok, calls := CallbackLoop(inp, cb);
      return;
    }
    calls := 0;
    var data;
    ok, data := inp.ReadRawValue(wireType);
    if !ok {
      return;
    }
    var sub := new IStream(data, 0, |data|);
    assert sub.Rest() == data;
    ok := CallOnce(sub, cb, 0);
    calls := 1;
  }
}
