/**
  Payloads: handles that share one reference-counted value, encoded or decoded when
  first asked for, in buffers that come from a pool and go back to it.
 */
module Payloads {
  import opened Attributes
  import opened Counters

  type Bytes = seq<bv8>

  // An application-defined value, other than nil.
  type Value(==, !new)

  // Encoding never fails; decoding fails, with a panic, on malformed input.
  datatype Codec = Codec(encode: Value -> Bytes, decode: Bytes -> Option<Value>)

  ghost predicate IsRoundTrip(c: Codec) {
    forall v: Value {:trigger c.encode(v)} :: c.decode(c.encode(v)) == Some(v)
  }

  // What a payload was made from. It is never looked at by the operations.
  datatype Origin = FromValue(v: Value) | FromBytes(bytes: Bytes)

  function Encoding(c: Codec, o: Origin): Bytes {
    match o
    case FromValue(v) => c.encode(v)
    case FromBytes(bytes) => bytes
  }

  function Meaning(c: Codec, o: Origin): Option<Value> {
    match o
    case FromValue(v) => Some(v)
    case FromBytes(bytes) => c.decode(bytes)
  }

  // value is Some once hasValue is true; puts counts how often the buffer has been
  // given back to the pool.
  datatype Data = Data(origin: Origin, buffer: Option<nat>, value: Option<Value>, refCount: nat, puts: nat)

  // A handle that is closed, or was made of nil, points to nothing. The pool may hold
  // a buffer more than once, if somebody puts it there more than once.
  datatype State = State(
    handles: map<nat, Option<nat>>,
    data: map<nat, Data>,
    buffers: map<nat, Bytes>,
    pool: multiset<nat>)

  function Initially(): State {
    State(map[], map[], map[], multiset{})
  }

  // h names a handle, d the shared data and b a buffer that the operation creates;
  // Bytes takes its buffer b from the pool or, if it is not in there, makes it.
  datatype Op =
    | NewPayload(h: nat, d: nat, v: Value)
    | NewPayloadFromBytes(h: nat, d: nat, b: nat, bytes: Bytes)
    | Clone(h: nat, from: nat)
    | GetBytes(h: nat, b: nat)
    | GetValue(h: nat)
    | Close(h: nat)

  predicate Enabled(s: State, op: Op) {
    match op
    case NewPayload(h, d, _) => h !in s.handles && d !in s.data
    case NewPayloadFromBytes(h, d, b, _) => h !in s.handles && d !in s.data && b !in s.buffers
    case Clone(h, from) => h !in s.handles && from in s.handles
    case GetBytes(h, b) => h in s.handles && (b in s.pool || b !in s.buffers)
    case GetValue(h) => h in s.handles
    case Close(h) => h in s.handles
  }

  // The data an open handle points to.
  predicate IsOpen(s: State, h: nat) {
    h in s.handles && s.handles[h].Some? && s.handles[h].value in s.data
  }

  function DataOf(s: State, h: nat): Data
    requires IsOpen(s, h)
  {
    s.data[s.handles[h].value]
  }

  function BytesOf(s: State, buffer: nat): Bytes {
    if buffer in s.buffers then s.buffers[buffer] else []
  }

  function CloneOf(s: State, h: nat, from: nat): State
    requires from in s.handles
  {
    if !IsOpen(s, from) then s.(handles := s.handles[h := None])
    else
      var d := s.handles[from].value;
      s.(handles := s.handles[h := Some(d)], data := s.data[d := s.data[d].(refCount := s.data[d].refCount + 1)])
  }

  // Appends the encoding to b unless there is a buffer already. The value is present then; a
  // missing one would be encoded as nil, which is not part of this model.
  function BytesAfter(c: Codec, s: State, h: nat, b: nat): State {
    if !IsOpen(s, h) || DataOf(s, h).buffer.Some? || DataOf(s, h).value.None? then s
    else
      var d := s.handles[h].value;
      s.(data := s.data[d := s.data[d].(buffer := Some(b))],
      buffers := s.buffers[b := BytesOf(s, b) + c.encode(s.data[d].value.value)],
      pool := s.pool - multiset{b})
  }

  // Decodes unless there is a value already; a panic changes nothing.
  function ValueAfter(c: Codec, s: State, h: nat): State {
    if !IsOpen(s, h) || DataOf(s, h).value.Some? || DataOf(s, h).buffer.None? then s
    else
      var d := s.handles[h].value;
      s.(data := s.data[d := s.data[d].(value := c.decode(BytesOf(s, s.data[d].buffer.value)))])
  }

  // The pool empties a buffer when it takes it back.
  function CloseOf(s: State, h: nat): State {
    if !IsOpen(s, h) then s
    else
      var d := s.handles[h].value;
      var left := Dec(s.data[d].refCount);
      var frees := left == 0 && s.data[d].buffer.Some?;
      s.(handles := s.handles[h := None],
      buffers := if frees then s.buffers[s.data[d].buffer.value := []] else s.buffers,
      data := s.data[d := s.data[d].(refCount := left, puts := s.data[d].puts + if frees then 1 else 0)],
      pool := if frees then s.pool + multiset{s.data[d].buffer.value} else s.pool)
  }

  function Do(c: Codec, s: State, op: Op): State
    requires Enabled(s, op)
  {
    match op
    case NewPayload(h, d, v) =>
      s.(handles := s.handles[h := Some(d)], data := s.data[d := Data(FromValue(v), None, Some(v), 1, 0)])
    case NewPayloadFromBytes(h, d, b, bytes) =>
      if bytes == [] then s.(handles := s.handles[h := None])
      else
        s.(handles := s.handles[h := Some(d)],
        data := s.data[d := Data(FromBytes(bytes), Some(b), None, 1, 0)],
        buffers := s.buffers[b := bytes])
    case Clone(h, from) => CloneOf(s, h, from)
    case GetBytes(h, b) => BytesAfter(c, s, h, b)
    case GetValue(h) => ValueAfter(c, s, h)
    case Close(h) => CloseOf(s, h)
  }

  // What Bytes returns; None is the nil slice.
  function BytesResult(c: Codec, s: State, h: nat, b: nat): Option<Bytes> {
    var s' := BytesAfter(c, s, h, b);
    if IsOpen(s', h) && DataOf(s', h).buffer.Some? then Some(BytesOf(s', DataOf(s', h).buffer.value)) else None
  }

  // What Value returns on an open handle; None is a panic.
  function ValueResult(c: Codec, s: State, h: nat): Option<Value>
    requires IsOpen(s, h)
  {
    if IsOpen(ValueAfter(c, s, h), h) then DataOf(ValueAfter(c, s, h), h).value else None
  }

  ghost function After(c: Codec, ops: seq<Op>): Option<State> {
    if |ops| == 0 then Some(Initially())
    else
      match After(c, ops[..|ops| - 1])
      case None => None
      case Some(s) => if Enabled(s, ops[|ops| - 1]) then Some(Do(c, s, ops[|ops| - 1])) else None
  }

  // ---- The invariant ----

  function OpenHandles(handles: map<nat, Option<nat>>, d: nat): set<nat> {
    set h | h in handles && handles[h] == Some(d)
  }

  // One payload with n open handles: they are counted, its value or its encoding is at
  // hand, and both are those it was made from. Its buffer goes back to the pool with
  // the last handle, once.
  ghost predicate DataValid(c: Codec, p: Data, n: nat, buffers: map<nat, Bytes>, pool: multiset<nat>) {
    && p.refCount == n
    && (if p.origin.FromValue? then p.value.Some? else p.buffer.Some?)
    && (p.value.Some? ==> p.value == Meaning(c, p.origin))
    && p.puts == (if n == 0 && p.buffer.Some? then 1 else 0)
    && (n > 0 && p.buffer.Some? ==>
          p.buffer.value in buffers && p.buffer.value !in pool && buffers[p.buffer.value] == Encoding(c, p.origin))
  }

  ghost predicate ValidAt(c: Codec, s: State, d: nat)
    requires d in s.data
  {
    DataValid(c, s.data[d], |OpenHandles(s.handles, d)|, s.buffers, s.pool)
  }

  // No two payloads in use share a buffer.
  ghost predicate Unshared(s: State) {
    forall d, e | d in s.data && e in s.data && d != e && s.data[d].refCount > 0 && s.data[e].refCount > 0 ::
      s.data[d].buffer.Some? ==> s.data[d].buffer != s.data[e].buffer
  }

  ghost predicate Valid(c: Codec, s: State) {
    && (forall h | h in s.handles && s.handles[h].Some? :: s.handles[h].value in s.data)
    && (forall d | d in s.data :: ValidAt(c, s, d))
    && Unshared(s)
    && PoolValid(s.pool, s.buffers)
  }

  ghost predicate PoolValid(pool: multiset<nat>, buffers: map<nat, Bytes>) {
    forall b | b in pool :: b in buffers && buffers[b] == [] && pool[b] == 1
  }

  lemma OpenAfter(handles: map<nat, Option<nat>>, h: nat, to: Option<nat>, d: nat)
    ensures |OpenHandles(handles[h := to], d)| == |OpenHandles(handles, d)|
                                                  + (if to == Some(d) && h !in OpenHandles(handles, d) then 1 else 0)
                                                  - (if to != Some(d) && h in OpenHandles(handles, d) then 1 else 0)
  {
    assert OpenHandles(handles[h := to], d) ==
           if to == Some(d) then OpenHandles(handles, d) + {h} else OpenHandles(handles, d) - {h};
  }

  // A new handle on new data.
  lemma JoinKeepsValid(c: Codec, s: State, h: nat, d: nat, p: Data)
    requires Valid(c, s) && h !in s.handles && d !in s.data
    requires DataValid(c, p, 1, s.buffers, s.pool)
    requires p.buffer.Some? ==> forall e | e in s.data && s.data[e].refCount > 0 :: s.data[e].buffer != p.buffer
    ensures Valid(c, s.(handles := s.handles[h := Some(d)], data := s.data[d := p]))
  {
    var s' := s.(handles := s.handles[h := Some(d)], data := s.data[d := p]);
    forall e | e in s'.data ensures ValidAt(c, s', e) {
      JoinKeepsData(c, s, h, d, p, e);
    }
  }

  lemma JoinKeepsData(c: Codec, s: State, h: nat, d: nat, p: Data, e: nat)
    requires Valid(c, s) && h !in s.handles && d !in s.data && (e == d || e in s.data)
    requires DataValid(c, p, 1, s.buffers, s.pool)
    ensures ValidAt(c, s.(handles := s.handles[h := Some(d)], data := s.data[d := p]), e)
  {
    OpenAfter(s.handles, h, Some(d), e);
    if e == d {
      assert OpenHandles(s.handles, d) == {};
    } else {
      assert ValidAt(c, s, e);
    }
  }

  // A new buffer that nobody uses yet.
  lemma BufferKeepsValid(c: Codec, s: State, b: nat, bytes: Bytes)
    requires Valid(c, s) && b !in s.buffers
    ensures Valid(c, s.(buffers := s.buffers[b := bytes]))
  {
    var s' := s.(buffers := s.buffers[b := bytes]);
    forall e | e in s'.data ensures ValidAt(c, s', e) {
      assert ValidAt(c, s, e);
    }
  }

  lemma NewFromBytesKeepsValid(c: Codec, s: State, h: nat, d: nat, b: nat, bytes: Bytes)
    requires Valid(c, s) && Enabled(s, NewPayloadFromBytes(h, d, b, bytes))
    ensures Valid(c, Do(c, s, NewPayloadFromBytes(h, d, b, bytes)))
  {
    if bytes == [] {
      var s' := s.(handles := s.handles[h := None]);
      forall e | e in s'.data ensures ValidAt(c, s', e) {
        assert ValidAt(c, s, e);
        OpenAfter(s.handles, h, None, e);
      }
    } else {
      forall e | e in s.data && s.data[e].refCount > 0 ensures s.data[e].buffer != Some(b) {
        assert ValidAt(c, s, e);
      }
      BufferKeepsValid(c, s, b, bytes);
      JoinKeepsValid(c, s.(buffers := s.buffers[b := bytes]), h, d, Data(FromBytes(bytes), Some(b), None, 1, 0));
    }
  }

  lemma CloneKeepsValid(c: Codec, s: State, h: nat, from: nat)
    requires Valid(c, s) && Enabled(s, Op.Clone(h, from))
    ensures Valid(c, CloneOf(s, h, from))
  {
    OpenIsReferenced(c, s, from);
    var s' := CloneOf(s, h, from);
    forall d | d in s'.data ensures ValidAt(c, s', d) {
      assert ValidAt(c, s, d);
      OpenAfter(s.handles, h, s'.handles[h], d);
    }
  }

  lemma OpenIsReferenced(c: Codec, s: State, h: nat)
    requires Valid(c, s)
    ensures IsOpen(s, h) ==> DataOf(s, h).refCount > 0
  {
    if IsOpen(s, h) {
      assert ValidAt(c, s, s.handles[h].value);
      assert h in OpenHandles(s.handles, s.handles[h].value);
    }
  }

  // Giving a payload its encoding, in a buffer that nobody uses.
  lemma BytesKeepsValid(c: Codec, s: State, h: nat, b: nat)
    requires Valid(c, s) && (b in s.pool || b !in s.buffers)
    ensures Valid(c, BytesAfter(c, s, h, b))
  {
    OpenIsReferenced(c, s, h);
    var s' := BytesAfter(c, s, h, b);
    if s' != s {
      forall e | e in s'.data ensures ValidAt(c, s', e) {
        EncodeKeepsData(c, s, s.handles[h].value, b, e);
      }
      EncodeKeepsRest(c, s, h, b);
    }
  }

  lemma EncodeKeepsRest(c: Codec, s: State, h: nat, b: nat)
    requires Valid(c, s) && (b in s.pool || b !in s.buffers)
    ensures Unshared(BytesAfter(c, s, h, b))
    ensures PoolValid(BytesAfter(c, s, h, b).pool, BytesAfter(c, s, h, b).buffers)
  {
    forall e | e in s.data && s.data[e].refCount > 0 ensures s.data[e].buffer != Some(b) {
      assert ValidAt(c, s, e);
    }
  }

  lemma EncodeKeepsData(c: Codec, s: State, d: nat, b: nat, e: nat)
    requires Valid(c, s) && (b in s.pool || b !in s.buffers) && d in s.data && e in s.data
    requires s.data[d].value.Some? && s.data[d].buffer.None? && s.data[d].refCount > 0
    ensures DataValid(c, if e == d then s.data[d].(buffer := Some(b)) else s.data[e], |OpenHandles(s.handles, e)|,
                      s.buffers[b := BytesOf(s, b) + c.encode(s.data[d].value.value)], s.pool - multiset{b})
  {
    assert ValidAt(c, s, d) && ValidAt(c, s, e);
    assert BytesOf(s, b) == [];
  }

  lemma ValueKeepsValid(c: Codec, s: State, h: nat)
    requires Valid(c, s)
    ensures Valid(c, ValueAfter(c, s, h))
  {
    OpenIsReferenced(c, s, h);
    var s' := ValueAfter(c, s, h);
    if s' != s {
      var d := s.handles[h].value;
      assert ValidAt(c, s, d);
      forall e | e in s'.data ensures ValidAt(c, s', e) {
        assert ValidAt(c, s, e);
      }
    }
  }

  lemma CloseKeepsData(c: Codec, s: State, h: nat, e: nat)
    requires Valid(c, s) && IsOpen(s, h) && DataOf(s, h).refCount > 0 && e in s.data
    ensures ValidAt(c, CloseOf(s, h), e)
  {
    assert ValidAt(c, s, s.handles[h].value) && ValidAt(c, s, e);
    OpenAfter(s.handles, h, None, e);
  }

  lemma CloseKeepsRest(c: Codec, s: State, h: nat)
    requires IsOpen(s, h) && ValidAt(c, s, s.handles[h].value) && DataOf(s, h).refCount > 0
    requires Unshared(s) && PoolValid(s.pool, s.buffers)
    ensures Unshared(CloseOf(s, h)) && PoolValid(CloseOf(s, h).pool, CloseOf(s, h).buffers)
  {
    var d := s.handles[h].value;
    assert s.data[d].buffer.Some? ==> s.data[d].buffer.value !in s.pool;
    forall e | e in s.data ensures CloseOf(s, h).data[e].refCount > 0 ==> s.data[e].refCount > 0 {
    }
  }

  lemma CloseKeepsValid(c: Codec, s: State, h: nat)
    requires Valid(c, s)
    ensures Valid(c, CloseOf(s, h))
  {
    OpenIsReferenced(c, s, h);
    if IsOpen(s, h) {
      assert ValidAt(c, s, s.handles[h].value);
      var s' := CloseOf(s, h);
      forall e | e in s'.data ensures ValidAt(c, s', e) {
        CloseKeepsData(c, s, h, e);
      }
      CloseKeepsRest(c, s, h);
    }
  }

  lemma {:induction false} AlwaysValid(c: Codec, ops: seq<Op>)
    requires After(c, ops).Some?
    ensures Valid(c, After(c, ops).value)
  {
    if |ops| > 0 {
      AlwaysValid(c, ops[..|ops| - 1]);
      var s := After(c, ops[..|ops| - 1]).value;
      match ops[|ops| - 1]
      case NewPayload(h, d, v) => JoinKeepsValid(c, s, h, d, Data(FromValue(v), None, Some(v), 1, 0));
      case NewPayloadFromBytes(h, d, b, bytes) => NewFromBytesKeepsValid(c, s, h, d, b, bytes);
      case Clone(h, from) => CloneKeepsValid(c, s, h, from);
      case GetBytes(h, b) => BytesKeepsValid(c, s, h, b);
      case GetValue(h) => ValueKeepsValid(c, s, h);
      case Close(h) => CloseKeepsValid(c, s, h);
    }
  }

  // ---- What every run keeps ----

  // The count of references is the number of open handles, so that the decrement
  // never wraps; a buffer has been given back exactly once if no handle is open, and
  // not at all before.
  lemma FreedOnce(c: Codec, ops: seq<Op>, d: nat)
    requires After(c, ops).Some? && d in After(c, ops).value.data
    ensures var s := After(c, ops).value;
            && s.data[d].refCount == |OpenHandles(s.handles, d)|
            && s.data[d].puts <= 1
            && (s.data[d].puts == 1 <==> s.data[d].buffer.Some? && OpenHandles(s.handles, d) == {})
  {
    AlwaysValid(c, ops);
    assert ValidAt(c, After(c, ops).value, d);
  }

  // A buffer in the pool is in there once, and no payload with an open handle uses it;
  // nor do two payloads with open handles use the same one.
  lemma BuffersUnshared(c: Codec, ops: seq<Op>, g: nat, h: nat)
    requires After(c, ops).Some? && IsOpen(After(c, ops).value, g) && IsOpen(After(c, ops).value, h)
    requires DataOf(After(c, ops).value, g).buffer.Some?
    ensures var s := After(c, ops).value;
            && DataOf(s, g).buffer.value !in s.pool
            && (DataOf(s, g).buffer == DataOf(s, h).buffer ==> s.handles[g] == s.handles[h])
            && (forall b | b in s.pool :: s.pool[b] == 1)
  {
    AlwaysValid(c, ops);
    var s := After(c, ops).value;
    assert ValidAt(c, s, s.handles[g].value);
    OpenIsReferenced(c, s, g);
    OpenIsReferenced(c, s, h);
  }

  lemma BytesIsEncoding(c: Codec, s: State, h: nat, b: nat)
    requires IsOpen(s, h) && ValidAt(c, s, s.handles[h].value) && DataOf(s, h).refCount > 0
    requires BytesOf(s, b) == []
    ensures BytesResult(c, s, h, b) == Some(Encoding(c, DataOf(s, h).origin))
  {
    if DataOf(s, h).buffer.None? {
      var written := c.encode(DataOf(s, h).value.value);
      assert [] + written == written;
      assert BytesOf(BytesAfter(c, s, h, b), b) == written;
    }
  }

  lemma ValueIsMeaning(c: Codec, s: State, h: nat)
    requires IsOpen(s, h) && ValidAt(c, s, s.handles[h].value) && DataOf(s, h).refCount > 0
    ensures ValueResult(c, s, h) == Meaning(c, DataOf(s, h).origin)
  {
  }

  // On every run Bytes and Value return the encoding and the value of what the payload
  // was made from, however often it has been cloned, encoded, decoded and closed
  // elsewhere, and whichever buffers have been reused.
  lemma {:induction false} ReadsAreOrigin(c: Codec, ops: seq<Op>, h: nat, b: nat)
    requires After(c, ops).Some? && Enabled(After(c, ops).value, Op.GetBytes(h, b)) && IsOpen(After(c, ops).value, h)
    ensures BytesResult(c, After(c, ops).value, h, b) == Some(Encoding(c, DataOf(After(c, ops).value, h).origin))
    ensures ValueResult(c, After(c, ops).value, h) == Meaning(c, DataOf(After(c, ops).value, h).origin)
  {
    var s := After(c, ops).value;
    AlwaysValid(c, ops);
    OpenIsReferenced(c, s, h);
    BytesIsEncoding(c, s, h, b);
    ValueIsMeaning(c, s, h);
  }

  // Given that decoding undoes encoding, what Bytes returns decodes to what Value
  // returns.
  lemma {:induction false} BytesAndValueAgree(c: Codec, ops: seq<Op>, h: nat, b: nat)
    requires IsRoundTrip(c)
    requires After(c, ops).Some? && Enabled(After(c, ops).value, Op.GetBytes(h, b)) && IsOpen(After(c, ops).value, h)
    ensures BytesResult(c, After(c, ops).value, h, b).Some?
    ensures c.decode(BytesResult(c, After(c, ops).value, h, b).value) == ValueResult(c, After(c, ops).value, h)
  {
    ReadsAreOrigin(c, ops, h, b);
  }

  // Nothing but a handle's own Close changes what it points to, or what that was made
  // from.
  lemma OriginIsFixed(c: Codec, s: State, op: Op, h: nat)
    requires Enabled(s, op) && IsOpen(s, h) && op != Close(h)
    ensures IsOpen(Do(c, s, op), h)
    ensures Do(c, s, op).handles[h] == s.handles[h]
    ensures DataOf(Do(c, s, op), h).origin == DataOf(s, h).origin
  {
    match op
    case NewPayload(_, _, _) =>
    case NewPayloadFromBytes(_, _, _, _) =>
    case Clone(_, _) =>
    case GetBytes(_, _) =>
    case GetValue(_) =>
    case Close(_) =>
  }

  // What a new handle stands for. No bytes at all are nil, and so is the clone of a handle
  // that is closed; any other clone stands for the same payload.
  lemma NewHandles(c: Codec, s: State, h: nat, d: nat, b: nat, v: Value, bytes: Bytes, from: nat)
    ensures Enabled(s, NewPayload(h, d, v)) ==>
              var s' := Do(c, s, NewPayload(h, d, v));
              IsOpen(s', h) && DataOf(s', h).origin == FromValue(v)
    ensures Enabled(s, NewPayloadFromBytes(h, d, b, bytes)) ==>
              var s' := Do(c, s, NewPayloadFromBytes(h, d, b, bytes));
              if bytes == [] then !IsOpen(s', h) else IsOpen(s', h) && DataOf(s', h).origin == FromBytes(bytes)
    ensures Enabled(s, Op.Clone(h, from)) ==>
              var s' := Do(c, s, Op.Clone(h, from));
              if IsOpen(s, from) then IsOpen(s', h) && s'.handles[h] == s.handles[from] else !IsOpen(s', h)
  {
  }

  // A closed handle reads as nil.
  lemma ClosedIsNil(c: Codec, ops: seq<Op>, h: nat, b: nat)
    requires After(c, ops).Some? && Enabled(After(c, ops).value, Op.Close(h))
    ensures !IsOpen(CloseOf(After(c, ops).value, h), h)
    ensures BytesResult(c, CloseOf(After(c, ops).value, h), h, b) == None
    ensures CloseOf(CloseOf(After(c, ops).value, h), h) == CloseOf(After(c, ops).value, h)
  {
    AlwaysValid(c, ops);
  }
}
