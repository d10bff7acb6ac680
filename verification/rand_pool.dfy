/**
 The refillable random-byte pool of `rand_pool.c`: a fixed 255-byte buffer,
 the number of bytes in use and a read position. The randomness callback
 is not modelled as code; each call is represented by the bytes it writes.
 */
module RandPool {
  import opened Bytes

  /** `MAX_RAND_POOL_SIZE`: the buffer is never larger, so one callback asks for at most 255 bytes. */
  const MaxRandPoolSize: nat := 255

  /** `struct ecdaa_rand_pool`: the buffer, the size in use and `pool_ptr` as an index. */
  datatype Pool = Pool(buffer: seq<byte>, size: nat, ptr: nat)

  function Min(a: nat, b: nat): nat
  {
    if a < b then a else b
  }

  /**
   The states the pool can be in: the read position never passes the end
   of the used part, except in a pool of size `0`, where it sits one past.
   */
  predicate Valid(p: Pool)
  {
    |p.buffer| == MaxRandPoolSize && p.size <= MaxRandPoolSize &&
    (p.ptr <= p.size || (p.size == 0 && p.ptr == 1))
  }

  /**
   `ecdaa_rand_pool_init`: the size is the request capped at 255, one
   callback fills that many leading bytes (`fill`), and reading starts at
   the first byte. The bytes past the size keep their earlier contents.
   */
  function Init(buffer: seq<byte>, requested: nat, fill: seq<byte>): (p: Pool)
    requires |buffer| == MaxRandPoolSize
    requires |fill| == Min(requested, MaxRandPoolSize)
    ensures Valid(p)
    ensures p.size == Min(requested, MaxRandPoolSize) && p.size <= requested
    ensures p.ptr == 0
    ensures p.buffer[..p.size] == fill && p.buffer[p.size..] == buffer[p.size..]
  {
    var size := if requested > MaxRandPoolSize then MaxRandPoolSize else requested;
    Pool(fill + buffer[size..], size, 0)
  }

  /** One call of `get_random_byte`: the byte, the pool after it, and whether the callback ran. */
  datatype Draw = Draw(value: byte, pool: Pool, refilled: bool)

  /**
   `get_random_byte`: when the read position has reached the end of the
   used part, one callback (`fill`) refills it and reading restarts at the
   first byte; then the byte at the read position is returned and the
   position advances by one.
   */
  function GetRandomByte(p: Pool, fill: seq<byte>): (d: Draw)
    requires Valid(p)
    requires |fill| == p.size
    ensures Valid(d.pool)
    ensures d.pool.size == p.size
    ensures d.refilled <==> p.ptr >= p.size
    ensures !d.refilled ==> d.value == p.buffer[p.ptr] && d.pool == Pool(p.buffer, p.size, p.ptr + 1)
    ensures d.refilled ==> d.pool.ptr == 1 && d.pool.buffer[..p.size] == fill &&
                           d.pool.buffer[p.size..] == p.buffer[p.size..]
    ensures d.refilled && p.size > 0 ==> d.value == fill[0]
    ensures 1 <= d.pool.ptr <= MaxRandPoolSize && d.value == d.pool.buffer[d.pool.ptr - 1]
    ensures p.size > 0 ==> d.pool.ptr - 1 < p.size
  {
    var refill := p.ptr >= p.size;
    var q := if refill then Pool(fill + p.buffer[p.size..], p.size, 0) else p;
    Draw(q.buffer[q.ptr], Pool(q.buffer, q.size, q.ptr + 1), refill)
  }

  /**
   A pool initialised with a requested size of `0` never fills anything,
   yet every draw returns the first buffer byte and leaves the read
   position past the end of the (empty) used part.
   */
  lemma ZeroSizeServesStaleByte(buffer: seq<byte>)
    requires |buffer| == MaxRandPoolSize
    ensures var d := GetRandomByte(Init(buffer, 0, []), []);
            d.refilled && d.value == buffer[0] && d.pool.ptr == 1 > d.pool.size == 0
    ensures var d := GetRandomByte(Init(buffer, 0, []), []);
            GetRandomByte(d.pool, []) == d
  {
  }

  /**
   `n` successive draws that stay within the used part never run the
   callback and return the buffer bytes in order.
   */
  method DrawBytes(p: Pool, n: nat, fill: seq<byte>) returns (out: seq<byte>, q: Pool)
    requires Valid(p)
    requires |fill| == p.size
    requires p.ptr + n <= p.size
    ensures out == p.buffer[p.ptr..p.ptr + n]
    ensures q == Pool(p.buffer, p.size, p.ptr + n)
  {
    out := [];
    q := p;
    var i := 0;
    while i < n
      invariant 0 <= i <= n
      invariant q == Pool(p.buffer, p.size, p.ptr + i)
      invariant out == p.buffer[p.ptr..p.ptr + i]
    {
      var d := GetRandomByte(q, fill);
      out := out + [d.value];
      q := d.pool;
      i := i + 1;
    }
  }

  /**
   A freshly initialised pool of size `s > 0` hands out its `s` filled
   bytes in order; the draw after them runs the callback again.
   */
  lemma FreshPoolDrainsThenRefills(buffer: seq<byte>, requested: nat, fill: seq<byte>, next: seq<byte>)
    requires |buffer| == MaxRandPoolSize
    requires |fill| == Min(requested, MaxRandPoolSize) > 0
    requires |next| == |fill|
    ensures var p := Init(buffer, requested, fill);
            var drained := Pool(p.buffer, p.size, p.size);
            GetRandomByte(drained, next).refilled && GetRandomByte(drained, next).value == next[0]
    ensures forall i :: 0 <= i < |fill| ==>
              GetRandomByte(Pool(Init(buffer, requested, fill).buffer, |fill|, i), next).value == fill[i]
  {
    var p := Init(buffer, requested, fill);
    forall i | 0 <= i < |fill|
      ensures GetRandomByte(Pool(p.buffer, |fill|, i), next).value == fill[i]
    {
      assert p.buffer[..p.size][i] == fill[i];
    }
  }
}
