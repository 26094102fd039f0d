/** Reading a prefix of a request body for inspection, and splicing the stream back together. */
module BodyCapture {
  import opened Basics

  type Byte = int

  const MAX_INT64 := 0x7fff_ffff_ffff_ffff
  const CHUNK := 32 * 1024

  /** How a source answers one read: up to `n` bytes, perhaps with the end announced, perhaps failing. */
  datatype Answer = Give(n: nat, eof: bool) | Fail(n: nat)

  datatype Status = Ok | Eof | Err

  /**
   * A request body: the original source, a reader that has come to `off` in an array of captured bytes, or such a
   * reader in front of another body.
   */
  datatype Body =
    | Source(rest: seq<Byte>, plan: seq<Answer>)
    | Memory(arr: array<Byte>, off: nat)
    | Joined(arr: array<Byte>, off: nat, tail: Body)

  /** The body is in order, and the arrays it reads from are among `own`. */
  ghost predicate Sound(b: Body, own: set<array<Byte>>) {
    match b
    case Source(_, _) => true
    case Memory(arr, off) => arr in own && off <= arr.Length
    case Joined(arr, off, tail) => arr in own && off <= arr.Length && Sound(tail, own)
  }

  /** The bytes a body will still deliver, as things stand in its arrays. */
  ghost function Content(b: Body, own: set<array<Byte>>): seq<Byte>
    requires Sound(b, own)
    reads own
  {
    match b
    case Source(rest, _) => rest
    case Memory(arr, off) => arr[off..]
    case Joined(arr, off, tail) => arr[off..] + Content(tail, own)
  }

  /** It does not matter what else is among `own`. */
  lemma {:induction false} OwnMore(b: Body, own: set<array<Byte>>, more: set<array<Byte>>)
    requires Sound(b, own) && own <= more
    ensures Sound(b, more) && Content(b, more) == Content(b, own)
  {
    if b.Joined? {
      OwnMore(b.tail, own, more);
    }
  }

  /** Some read of the source is going to fail. */
  ghost predicate Fails(b: Body) {
    match b
    case Source(_, plan) => exists i :: 0 <= i < |plan| && plan[i].Fail?
    case Memory(_, _) => false
    case Joined(_, _, tail) => Fails(tail)
  }

  /** Bounds the reads left before the end is announced. */
  ghost function Measure(b: Body): nat {
    match b
    case Source(rest, plan) => |rest| + |plan|
    case Memory(arr, off) => Left(arr, off)
    case Joined(arr, off, tail) => Left(arr, off) + Measure(tail)
  }

  ghost function Left(arr: array<Byte>, off: nat): nat {
    if off <= arr.Length then arr.Length - off else 0
  }

  /** One `Read` into `n` bytes of space. */
  method Read(b: Body, n: nat, ghost own: set<array<Byte>>) returns (chunk: seq<Byte>, status: Status, b': Body)
    requires n > 0 && Sound(b, own)
    ensures Sound(b', own) && |chunk| <= n && chunk + Content(b', own) == Content(b, own)
    ensures status == Eof ==> Content(b', own) == []
    ensures status == Ok ==> Measure(b') < Measure(b)
    ensures (status == Err ==> Fails(b)) && (Fails(b') ==> Fails(b))
    decreases b
  {
    match b
    case Source(rest, plan) =>
      chunk, status, b' := ReadSource(rest, plan, n);
    case Memory(arr, off) =>
      if off == arr.Length { return [], Eof, b; }
      var to := off + Min(n, arr.Length - off);
      assert arr[off..to] + arr[to..] == arr[off..];
      return arr[off..to], Ok, Memory(arr, to);
    case Joined(arr, off, tail) =>
      if off < arr.Length {
        var to := off + Min(n, arr.Length - off);
        assert arr[off..to] + (arr[to..] + Content(tail, own)) == arr[off..] + Content(tail, own);
        return arr[off..to], Ok, Joined(arr, to, tail);
      }
      var tail';
      chunk, status, tail' := Read(tail, n, own);
      b' := Joined(arr, off, tail');
  }

  /** The original source delivers what it likes, in whatever pieces it likes. */
  method ReadSource(rest: seq<Byte>, plan: seq<Answer>, n: nat) returns (chunk: seq<Byte>, status: Status, b': Body)
    requires n > 0
    ensures b'.Source? && |chunk| <= n && chunk + b'.rest == rest
    ensures status == Eof ==> b'.rest == []
    ensures status == Ok ==> |b'.rest| + |b'.plan| < |rest| + |plan|
    ensures (status == Err ==> Fails(Source(rest, plan))) && (Fails(b') ==> Fails(Source(rest, plan)))
  {
    if plan == [] {
      if rest == [] { return [], Eof, Source(rest, plan); }
      var m := Min(n, |rest|);
      assert rest[..m] + rest[m..] == rest;
      return rest[..m], Ok, Source(rest[m..], plan);
    }
    var m := Min(Min(plan[0].n, n), |rest|);
    assert rest[..m] + rest[m..] == rest;
    chunk, b' := rest[..m], Source(rest[m..], plan[1..]);
    status := if plan[0].Fail? then Err else if plan[0].eof && rest[m..] == [] then Eof else Ok;
  }

  class BufPool {
    var bufs: set<array<Byte>>

    constructor ()
      ensures bufs == {}
    {
      bufs := {};
    }
  }

  /** A Go slice of captured bytes: the first `len` elements of an array. */
  datatype Slice = Slice(arr: array<Byte>, len: nat)

  datatype Captured = Nothing | Bytes(slice: Slice) | Failed

  class Request {
    var body: Option<Body>
    var contentLength: int
    var replay: Option<array<Byte>>   // what GetBody would read from
    ghost var own: set<array<Byte>>   // the arrays its body may read from

    constructor (b: Option<Body>)
      requires b.Some? ==> b.value.Source?
      ensures body == b && own == {}
    {
      body, contentLength, replay, own := b, -1, None, {};
    }
  }

  /** More room in a new array, same bytes. */
  method Grow(buf: array<Byte>, len: nat) returns (buf': array<Byte>)
    requires len <= buf.Length
    ensures fresh(buf') && buf'.Length >= len + CHUNK && buf'[..len] == buf[..len]
  {
    var cap :| cap >= len + CHUNK;
    buf' := new Byte[cap](_ => 0);
    for i := 0 to len
      invariant buf'[..i] == buf[..i]
    {
      buf'[i] := buf[i];
    }
  }

  method Store(buf: array<Byte>, len: nat, chunk: seq<Byte>)
    requires len + |chunk| <= buf.Length
    modifies buf
    ensures buf[..len + |chunk|] == old(buf[..len]) + chunk
  {
    for i := 0 to |chunk|
      invariant buf[..len + i] == old(buf[..len]) + chunk[..i]
    {
      buf[len + i] := chunk[i];
    }
    assert chunk[..|chunk|] == chunk;
  }

  /** One read of `readAllAppend`, appended to the buffer. */
  method ReadChunk(buf: array<Byte>, len: nat, body: Body, space: nat, ghost own: set<array<Byte>>)
    returns (len': nat, status: Status, body': Body)
    requires space > 0 && len + space <= buf.Length && Sound(body, own) && buf !in own
    modifies buf
    ensures Sound(body', own) && len <= len' <= len + space
    ensures buf[..len'] + Content(body', own) == old(buf[..len]) + old(Content(body, own))
    ensures status == Eof ==> Content(body', own) == []
    ensures status == Ok ==> Measure(body') < Measure(body)
    ensures (status == Err ==> Fails(body)) && (Fails(body') ==> Fails(body))
  {
    var chunk;
    chunk, status, body' := Read(body, space, own);
    Store(buf, len, chunk);
    len' := len + |chunk|;
    assert old(buf[..len]) + chunk + Content(body', own) == old(buf[..len]) + (chunk + Content(body', own));
  }

  /** `readAllAppend` on a reader limited to `limit` bytes: what was read and what is left make up the stream. */
  method ReadAll(start: array<Byte>, body: Body, limit: int, ghost own: set<array<Byte>>)
    returns (buf: array<Byte>, len: nat, status: Status, body': Body)
    requires Sound(body, own) && start !in own
    modifies start
    ensures buf == start || fresh(buf)
    ensures Sound(body', own) && len <= buf.Length && status != Ok && (len > 0 ==> len <= limit)
    ensures buf[..len] + Content(body', own) == old(Content(body, own))
    ensures (status == Err ==> Fails(body)) && (Fails(body') ==> Fails(body))
    ensures status == Eof ==> len == Min(if limit < 0 then 0 else limit, |old(Content(body, own))|)
  {
    buf, len, body' := start, 0, body;
    ghost var content := Content(body, own);
    while true
      invariant buf == start || fresh(buf)
      invariant Sound(body', own) && buf !in own
      invariant len <= buf.Length && buf[..len] + Content(body', own) == content
      invariant (len > 0 ==> len <= limit) && (Fails(body') ==> Fails(body))
      decreases Measure(body')
    {
      if buf.Length - len < CHUNK {
        buf := Grow(buf, len);
      }
      assert |content| == len + |Content(body', own)|;
      if limit - len <= 0 {
        status := Eof;
        return;
      }
      len, status, body' := ReadChunk(buf, len, body', Min(buf.Length - len, limit - len), own);
      if status != Ok {
        assert |content| == len + |Content(body', own)|;
        return;
      }
    }
  }

  /** 64-bit addition of one. */
  function Successor(n: int): int {
    if n == MAX_INT64 then -MAX_INT64 - 1 else n + 1
  }

  method Copy(buf: array<Byte>, len: nat) returns (out: array<Byte>)
    requires len <= buf.Length
    ensures fresh(out) && out[..] == buf[..len]
  {
    out := new Byte[len](i requires 0 <= i < len reads buf => buf[i]);
  }

  /** `bufPool.Get`: any pooled buffer, or a new one. */
  method GetBuffer(pool: BufPool) returns (buf: array<Byte>)
    modifies pool
    ensures buf in old(pool.bufs) || fresh(buf)
    ensures pool.bufs == old(pool.bufs) - {buf}
  {
    if
    case true =>
      buf := new Byte[4096](_ => 0);
    case pool.bufs != {} =>
      buf :| buf in pool.bufs;
      pool.bufs := pool.bufs - {buf};
  }

  /** The bytes a slice shows. */
  ghost function Shown(s: Slice): seq<Byte>
    requires s.len <= s.arr.Length
    reads s.arr
  {
    s.arr[..s.len]
  }

  /** `t` is what is left of `s`. */
  ghost predicate IsRest(t: seq<Byte>, s: seq<Byte>) {
    |t| <= |s| && t == s[|s| - |t|..]
  }

  /** The body of the request is in order, and no pooled buffer is among the arrays it reads from. */
  ghost predicate Usable(r: Request, pool: BufPool)
    reads r, pool
  {
    (r.body.Some? ==> Sound(r.body.value, r.own)) && r.own !! pool.bufs
  }

  /** What the request will still deliver. */
  ghost function Stream(r: Request): seq<Byte>
    requires r.body.Some? && Sound(r.body.value, r.own)
    reads r, r.own
  {
    Content(r.body.value, r.own)
  }

  /** Read up to one byte more than the cap through a pooled buffer, and keep a copy of what came. */
  method Fill(r: Request, pool: BufPool, maxBytes: int) returns (out: array<Byte>, status: Status, rest: Body)
    requires r.body.Some? && Usable(r, pool)
    modifies pool, pool.bufs
    ensures fresh(out) && out !in pool.bufs && fresh(pool.bufs - old(pool.bufs)) && Usable(r, pool)
    ensures status != Ok && Sound(rest, r.own) && (out.Length > 0 ==> out.Length <= Successor(maxBytes))
    ensures Stream(r) == old(Stream(r)) && out[..] + Content(rest, r.own) == Stream(r)
    ensures (status == Err ==> Fails(r.body.value)) && (Fails(rest) ==> Fails(r.body.value))
    ensures status == Eof ==> out.Length == Min(if Successor(maxBytes) < 0 then 0 else Successor(maxBytes), |Stream(r)|)
  {
    var start := GetBuffer(pool);
    var buf, len;
    buf, len, status, rest := ReadAll(start, r.body.value, Successor(maxBytes), r.own);
    out := Copy(buf, len);
    pool.bufs := pool.bufs + {buf};
  }

  /**
   * `Capture`. With a cap below the largest 64-bit integer a successful call returns exactly the first
   * `min(cap, length)` bytes, in an array of its own that is in no pool, and leaves the stream whole; a failing one
   * loses what it has read, which is at most one byte more than the cap.
   */
  method Capture(r: Request, pool: BufPool, maxBytes: int) returns (c: Captured)
    requires -MAX_INT64 - 1 <= maxBytes <= MAX_INT64 && Usable(r, pool)
    modifies r, pool, pool.bufs
    ensures fresh(pool.bufs - old(pool.bufs)) && fresh(r.own - old(r.own)) && Usable(r, pool)
    ensures r.body.Some? == old(r.body.Some?)
    ensures old(r.body).Some? ==> (c.Failed? || Fails(r.body.value) ==> Fails(old(r.body).value))
    ensures c.Nothing? <==> old(r.body).None? || maxBytes <= 0
    ensures c.Nothing? ==> unchanged(r) && unchanged(pool) && (r.body.Some? ==> Stream(r) == old(Stream(r)))
    ensures c.Bytes? ==> c.slice.len <= c.slice.arr.Length && fresh(c.slice.arr) && c.slice.arr !in pool.bufs
    ensures c.Bytes? && maxBytes < MAX_INT64 ==>
      Stream(r) == old(Stream(r)) && Shown(c.slice) == Stream(r)[..Min(maxBytes, |Stream(r)|)]
    ensures c.Bytes? && maxBytes < MAX_INT64 && |Stream(r)| <= maxBytes ==>
      r.contentLength == c.slice.len && r.replay == Some(c.slice.arr) && r.body.value.Memory?
    ensures c.Bytes? && maxBytes == MAX_INT64 ==> Stream(r) == [] && c.slice.len == 0
    ensures c.Failed? ==> IsRest(Stream(r), old(Stream(r))) && |old(Stream(r))| - |Stream(r)| <= maxBytes + 1
  {
    if r.body.None? { return Nothing; }
    if maxBytes <= 0 { return Nothing; }
    var out, status, rest := Fill(r, pool, maxBytes);
    c := Settle(r, out, status, rest, maxBytes);
  }

  /** What the request and the caller get, once `out` has been read and `rest` has not. */
  method Settle(r: Request, out: array<Byte>, status: Status, rest: Body, maxBytes: int) returns (c: Captured)
    requires r.body.Some? && Sound(rest, r.own) && 0 < maxBytes <= MAX_INT64 && status != Ok
    requires out.Length > 0 ==> out.Length <= Successor(maxBytes)
    requires status == Eof ==>
      out.Length == Min(if Successor(maxBytes) < 0 then 0 else Successor(maxBytes), |out[..] + Content(rest, r.own)|)
    modifies r
    ensures r.own == old(r.own) + (if c.Bytes? then {out} else {}) && r.body.Some? && Sound(r.body.value, r.own)
    ensures Fails(r.body.value) ==> Fails(rest)
    ensures !c.Nothing? && (c.Failed? <==> status == Err)
    ensures c.Bytes? ==> c.slice.arr == out && c.slice.len <= out.Length
    ensures var content := out[..] + old(Content(rest, r.own));
      && (c.Bytes? && maxBytes < MAX_INT64 ==>
            Stream(r) == content && Shown(c.slice) == content[..Min(maxBytes, |content|)])
      && (c.Bytes? && maxBytes < MAX_INT64 && |content| <= maxBytes ==>
            r.contentLength == c.slice.len && r.replay == Some(out) && r.body.value.Memory?)
      && (c.Bytes? && maxBytes == MAX_INT64 ==> Stream(r) == [] && c.slice.len == 0)
      && (c.Failed? ==> IsRest(Stream(r), content) && |content| - |Stream(r)| <= maxBytes + 1)
  {
    if status == Err {
      r.body := Some(rest);
      assert Stream(r) == (out[..] + Content(rest, r.own))[out.Length..];
      return Failed;
    }
    if out.Length <= maxBytes {
      Replay(r, out);
      return Bytes(Slice(out, out.Length));
    }
    Rejoin(r, out, rest);
    return Bytes(Slice(out, maxBytes));
  }

  /** The whole body was captured: it becomes a reader over the captured bytes. */
  method Replay(r: Request, out: array<Byte>)
    modifies r
    ensures r.own == old(r.own) + {out} && r.body == Some(Memory(out, 0)) && Sound(r.body.value, r.own)
    ensures Stream(r) == out[..] && r.contentLength == out.Length && r.replay == Some(out)
  {
    r.own := r.own + {out};
    r.body := Some(Memory(out, 0));
    r.contentLength := out.Length;
    r.replay := Some(out);
    assert out[0..] == out[..];
  }

  /** There is more: the captured bytes are put back in front of it. */
  method Rejoin(r: Request, head: array<Byte>, rest: Body)
    requires Sound(rest, r.own)
    modifies r
    ensures r.own == old(r.own) + {head} && r.body == Some(Joined(head, 0, rest)) && Sound(r.body.value, r.own)
    ensures Stream(r) == head[..] + old(Content(rest, r.own))
  {
    OwnMore(rest, r.own, r.own + {head});
    r.own := r.own + {head};
    r.body := Some(Joined(head, 0, rest));
    r.replay := None;
    assert head[0..] == head[..];
  }

  /** What a successful call with cap `cap` returns for a stream: nothing, or exactly its first bytes. */
  ghost predicate Prefix(c: Captured, cap: int, content: seq<Byte>)
    reads if c.Bytes? then {c.slice.arr} else {}
  {
    if cap <= 0 then c.Nothing?
    else c.Bytes? && c.slice.len <= c.slice.arr.Length && Shown(c.slice) == content[..Min(cap, |content|)]
  }

  /**
   * Any sequence of captures with any caps: as long as none fails, the stream stays whole, and at the end
   * every earlier result still shows what it showed, although the pooled buffers have been reused since.
   */
  method CaptureInTurn(r: Request, pool: BufPool, caps: seq<int>) returns (cs: seq<Captured>, ok: bool)
    requires r.body.Some? && Usable(r, pool)
    requires forall i :: 0 <= i < |caps| ==> -MAX_INT64 - 1 <= caps[i] < MAX_INT64
    modifies r, pool, pool.bufs
    ensures r.body.Some? && Usable(r, pool)
    ensures ok ==> Stream(r) == old(Stream(r)) && |cs| == |caps|
    ensures !ok ==> Fails(old(r.body).value) && IsRest(Stream(r), old(Stream(r)))
    ensures |cs| <= |caps| && forall i :: 0 <= i < |cs| ==> Prefix(cs[i], caps[i], old(Stream(r)))
  {
    cs := [];
    ghost var content := Stream(r);
    for k := 0 to |caps|
      invariant |cs| == k && r.body.Some? && Usable(r, pool) && Stream(r) == content
      invariant fresh(pool.bufs - old(pool.bufs)) && (Fails(r.body.value) ==> Fails(old(r.body).value))
      invariant forall i :: 0 <= i < k && cs[i].Bytes? ==> fresh(cs[i].slice.arr) && cs[i].slice.arr !in pool.bufs
      invariant forall i :: 0 <= i < k ==> Prefix(cs[i], caps[i], content)
    {
      var c := Capture(r, pool, caps[k]);
      if c.Failed? { return cs, false; }
      cs := cs + [c];
    }
    ok := true;
  }
}
