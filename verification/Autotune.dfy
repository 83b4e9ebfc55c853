/** Sizes that the operator derives from a memory limit when the configuration does not set them. */
module Autotune {
  import opened Options
  import opened GoStrings

  const CHUNK_SIZE_MIN := 1048576       // 1 MiB
  const CHUNK_SIZE_DEFAULT := 134217728 // 128 MiB
  const GIB := 1073741824
  const CONNECTION := 12582880          // bytes per connection

  datatype Result = NotEnoughMemory | Params(text: string)

  function Line(key: string, value: nat): string {
    "\n" + key + " = " + Decimal(value)
  }

  /** Three quarters of the limit leave at least 10^9 bytes free. */
  predicate RoomFor75(limit: nat) {
    limit - limit / 100 * 75 >= 1000000000
  }

  /** The share of the limit meant for the pool. */
  function Share(limit: nat): nat {
    if RoomFor75(limit) then limit / 100 * 75 else limit / 100 * 50
  }

  ghost predicate RoundedUp(share: nat, rounded: int) {
    rounded % CHUNK_SIZE_DEFAULT == 0 && share <= rounded < share + CHUNK_SIZE_DEFAULT
  }

  lemma EightChunks(rounded: nat)
    requires rounded % CHUNK_SIZE_DEFAULT == 0
    ensures rounded / 8 * 8 == rounded && (rounded / 8) % CHUNK_SIZE_MIN == 0
  {
    var n := rounded / CHUNK_SIZE_DEFAULT;
    assert rounded == CHUNK_SIZE_DEFAULT * n && rounded / 8 == 16 * n * CHUNK_SIZE_MIN;
  }

  /** Up to 1 GiB the pool is the rounded share; beyond, 8 MiB more still fit. */
  lemma RoundedFits(limit: nat, rounded: nat)
    requires RoundedUp(Share(limit), rounded)
    ensures rounded <= GIB ==> (rounded <= limit <==> limit < 100 || limit >= CHUNK_SIZE_DEFAULT)
    ensures rounded > GIB ==> rounded + 8 * CHUNK_SIZE_MIN <= limit && limit >= CHUNK_SIZE_DEFAULT
    ensures RoomFor75(limit) ==> limit - rounded - 8 * CHUNK_SIZE_MIN > 850000000
  {
    if Share(limit) == 0 {
      assert rounded == 0;
    }
  }

  /** What is promised of a pool size, and of the chunk size printed with it, for a limit. The first
      two lines leave one size: the share rounded up to 128 MiB, and 8 MiB more in eight chunks. */
  ghost predicate PoolFits(limit: nat, pool: nat, chunk: Option<nat>) {
    var rounded := if chunk.None? then pool else pool - 8 * CHUNK_SIZE_MIN;
    && RoundedUp(Share(limit), rounded)
    && (chunk.None? <==> rounded <= GIB)
    && (chunk.Some? ==> pool == 8 * chunk.value && chunk.value % CHUNK_SIZE_MIN == 0)
    && (pool <= limit <==> limit < 100 || limit >= CHUNK_SIZE_DEFAULT)
    && (RoomFor75(limit) ==> limit - pool > 850000000)
  }

  method RoundUp(share: nat) returns (rounded: nat)
    ensures RoundedUp(share, rounded)
  {
    rounded := share;
    if share % CHUNK_SIZE_DEFAULT != 0 {
      rounded := share + CHUNK_SIZE_DEFAULT - share % CHUNK_SIZE_DEFAULT;
    }
  }

  /** The buffer pool part. Every intermediate value stays within 64 bits. */
  method TunePool(limit: nat) returns (pool: nat, chunk: Option<nat>)
    requires limit <= MAX_INT64
    ensures PoolFits(limit, pool, chunk) && pool <= MAX_INT64
  {
    pool, chunk := limit / 100 * 75, None;
    if limit - pool < 1000000000 {
      pool := limit / 100 * 50;
    }
    pool := RoundUp(pool);
    RoundedFits(limit, pool);
    if pool > GIB {
      EightChunks(pool);
      var size := pool / 8;
      size := size + CHUNK_SIZE_MIN - size % CHUNK_SIZE_MIN;
      pool, chunk := size * 8, Some(size);
    }
  }

  /** The pool's lines after what was printed before. */
  function PoolLines(text: string, pool: nat, chunk: Option<nat>): string {
    var longer := if chunk.Some? then text + Line("innodb_buffer_pool_chunk_size", chunk.value) else text;
    longer + Line("innodb_buffer_pool_size", pool)
  }

  /** As many connections as the limit has room for, and at least one. */
  ghost predicate ConnectionsFit(limit: nat, connections: nat) {
    0 < connections && connections * CONNECTION <= limit < (connections + 1) * CONNECTION
  }

  method TuneConnections(limit: nat) returns (connections: nat)
    requires limit >= CONNECTION
    ensures ConnectionsFit(limit, connections)
  {
    connections := limit / CONNECTION;
  }

  /** What the text says, for whatever is not configured. */
  function Rendered(pool: Option<(nat, Option<nat>)>, connections: Option<nat>): string {
    var text := if pool.Some? then PoolLines("", pool.value.0, pool.value.1) else "";
    if connections.Some? then text + Line("max_connections", connections.value) else text
  }

  /** getAutoTuneParams: the lines for whatever is not configured. */
  method GetAutoTuneParams(limit: nat, bufferConfigured: bool, maxConnConfigured: bool)
    returns (r: Result, ghost pool: Option<(nat, Option<nat>)>, ghost connections: Option<nat>)
    requires limit <= MAX_INT64
    ensures r.NotEnoughMemory? <==> !maxConnConfigured && limit < CONNECTION
    ensures r.Params? ==> r.text == Rendered(pool, connections)
    ensures pool.Some? <==> !bufferConfigured
    ensures r.Params? ==> (connections.Some? <==> !maxConnConfigured)
    ensures pool.Some? ==> PoolFits(limit, pool.value.0, pool.value.1)
    ensures connections.Some? ==> ConnectionsFit(limit, connections.value)
  {
    pool, connections := None, None;
    var text := "";
    if !bufferConfigured {
      var poolSize, chunkSize := TunePool(limit);
      pool := Some((poolSize, chunkSize));
      if chunkSize.Some? {
        text := text + Line("innodb_buffer_pool_chunk_size", chunkSize.value);
      }
      text := text + Line("innodb_buffer_pool_size", poolSize);
    }
    if !maxConnConfigured {
      if limit < CONNECTION {
        return NotEnoughMemory, pool, connections;
      }
      var maxConn := TuneConnections(limit);
      connections := Some(maxConn);
      text := text + Line("max_connections", maxConn);
    }
    r := Params(text);
  }
}
