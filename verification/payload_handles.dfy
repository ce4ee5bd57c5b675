/**
  Payloads as the objects they are: aliased handles on one shared record, and a pool
  of buffers.
 */
module PayloadHandles {
  import opened Attributes
  import opened Counters
  import opened Payloads

  class Buffer {
    var bytes: Bytes

    constructor (bytes: Bytes)
      ensures this.bytes == bytes
    {
      this.bytes := bytes;
    }

    method Reset()
      modifies this
      ensures bytes == []
    {
      bytes := [];
    }

    method Write(more: Bytes)
      modifies this
      ensures bytes == old(bytes) + more
    {
      bytes := bytes + more;
    }
  }

  class Pool {
    var free: seq<Buffer>

    // What Get hands out is empty, and nothing is handed out twice.
    ghost predicate Valid()
      reads this, free
    {
      && (forall b | b in free :: b.bytes == [])
      && (forall i, j | 0 <= i < j < |free| :: free[i] != free[j])
    }

    // The pool may forget any of its buffers, here all but the last.
    method Get() returns (b: Buffer)
      requires Valid()
      modifies this
      ensures Valid() && b.bytes == [] && b !in free
      ensures if old(free) == [] then fresh(b) && free == [] else old(free) == free + [b]
    {
      if free == [] {
        b := new Buffer([]);
      } else {
        b := free[|free| - 1];
        free := free[..|free| - 1];
      }
    }

    method Put(b: Buffer)
      requires Valid() && b !in free
      modifies this, b
      ensures Valid() && free == old(free) + [b]
    {
      b.Reset();
      free := free + [b];
    }
  }

  // What Value returns: nil, a value, or not at all, on malformed bytes.
  datatype Reading = Nil | Is(v: Value) | Panics

  class PayloadData {
    var buffer: Buffer?
    var value: Option<Value>
    var refCount: nat
    ghost const origin: Origin
    // The handles that point here.
    ghost var handles: set<Payload>

    constructor FromValue(v: Value)
      ensures buffer == null && value == Some(v) && refCount == 1 && origin == Origin.FromValue(v)
    {
      buffer, value, refCount := null, Some(v), 1;
      origin, handles := Origin.FromValue(v), {};
    }

    constructor FromBytes(bytes: Bytes)
      ensures fresh(buffer) && buffer.bytes == bytes && value == None && refCount == 1 && origin == Origin.FromBytes(bytes)
    {
      buffer := new Buffer(bytes);
      value, refCount := None, 1;
      origin, handles := Origin.FromBytes(bytes), {};
    }

    ghost predicate Valid(c: Codec, pool: Pool)
      reads this, handles, buffer, pool
    {
      && refCount == |handles|
      && (forall h | h in handles :: h.data == this)
      && (if origin.FromValue? then value.Some? else buffer != null)
      && (value.Some? ==> value == Meaning(c, origin))
      && (handles != {} && buffer != null ==> buffer.bytes == Encoding(c, origin) && buffer !in pool.free)
    }
  }

  class Payload {
    var data: PayloadData?

    constructor (data: PayloadData?)
      ensures this.data == data
    {
      this.data := data;
    }

    ghost predicate Valid(c: Codec, pool: Pool)
      reads this, data, if data == null then {} else data.handles, if data == null then null else data.buffer, pool
    {
      data != null ==> this in data.handles && data.Valid(c, pool)
    }

    // Making a payload of a value other than nil.
    static method New(c: Codec, pool: Pool, v: Value) returns (p: Payload)
      ensures fresh(p) && fresh(p.data) && p.data.origin == Origin.FromValue(v)
      ensures p.Valid(c, pool) && p.data.handles == {p}
    {
      var data := new PayloadData.FromValue(v);
      p := new Payload(data);
      data.handles := {p};
    }

    static method NewFromBytes(c: Codec, pool: Pool, bytes: Bytes) returns (p: Payload?)
      ensures p == null <==> bytes == []
      ensures p != null ==> fresh(p) && fresh(p.data) && p.data.origin == Origin.FromBytes(bytes)
                            && p.Valid(c, pool) && p.data.handles == {p}
    {
      if |bytes| == 0 {
        return null;
      }
      var data := new PayloadData.FromBytes(bytes);
      var q := new Payload(data);
      data.handles := {q};
      p := q;
    }

    method Clone(c: Codec, pool: Pool) returns (p: Payload?)
      requires Valid(c, pool)
      modifies data
      ensures data == old(data) && Valid(c, pool)
      ensures p == null <==> data == null
      ensures p != null ==> fresh(p) && p.data == data && p.Valid(c, pool) && data.handles == old(data.handles) + {p}
    {
      if data == null {
        return null;
      }
      data.refCount := data.refCount + 1;
      var q := new Payload(data);
      data.handles := data.handles + {q};
      p := q;
    }

    // The encoding; None is the nil slice. The other handles of the payload keep
    // theirs. The pool loses a buffer only to a payload that had none.
    method GetBytes(c: Codec, pool: Pool) returns (r: Option<Bytes>)
      requires Valid(c, pool) && pool.Valid()
      modifies data, pool, pool.free
      ensures Valid(c, pool) && pool.Valid() && data == old(data)
      ensures data != null ==> r == Some(Encoding(c, data.origin)) && data.handles == old(data.handles)
      ensures data == null ==> r == None
      ensures pool.free == if data != null && old(data.buffer) == null && old(pool.free) != []
                           then old(pool.free)[..|old(pool.free)| - 1] else old(pool.free)
    {
      if data == null {
        return None;
      }
      if data.buffer != null {
        return Some(data.buffer.bytes);
      }
      var buffer := pool.Get();
      assert old(pool.free) != [] ==> buffer == old(pool.free)[|old(pool.free)| - 1];
      assert buffer.bytes + c.encode(data.value.value) == c.encode(data.value.value);
      buffer.Write(c.encode(data.value.value));
      data.buffer := buffer;
      return Some(buffer.bytes);
    }

    // A closed handle reads as nil.
    method GetValue(c: Codec, pool: Pool) returns (r: Reading)
      requires Valid(c, pool)
      modifies data
      ensures Valid(c, pool) && data == old(data)
      ensures data == null ==> r == Nil
      ensures data != null ==>
                && data.handles == old(data.handles)
                && r == match Meaning(c, data.origin)
                        case Some(v) => Is(v)
                        case None => Panics
    {
      if data == null {
        return Nil;
      }
      if data.value.None? {
        data.value := c.decode(data.buffer.bytes);
      }
      return if data.value.Some? then Is(data.value.value) else Panics;
    }

    // The buffer goes back to the pool if this is the last handle, and only then.
    method Close(c: Codec, pool: Pool)
      requires Valid(c, pool) && pool.Valid()
      modifies this, data, pool, if data == null then null else data.buffer
      ensures data == null && pool.Valid()
      ensures old(data) != null ==>
                var d := old(data);
                && d.handles == old(d.handles) - {this} && d.Valid(c, pool)
                && d.refCount == old(d.refCount) - 1
                && d.buffer == old(d.buffer)
                && pool.free == old(pool.free) + if d.handles == {} && d.buffer != null then [d.buffer] else []
      ensures old(data) == null ==> pool.free == old(pool.free)
    {
      if data == null {
        return;
      }
      var d := data;
      data := null;
      d.handles := d.handles - {this};
      d.refCount := Dec(d.refCount);
      if d.refCount == 0 && d.buffer != null {
        pool.Put(d.buffer);
      }
    }
  }
}
