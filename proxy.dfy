/**
 * The reliable-transfer layer of the attestation proxy
 * (svsm-attest/src/proxy.rs).
 *
 * The source defines two capability traits: `SvsmProxyRead`, whose only
 * primitive is `proxy_read`, and `SvsmProxyWrite`, with the primitives
 * `write` and `flush`. On top of them it provides `read_exact` and
 * `write_all` once, for every channel. Here a channel is a class that
 * replays a script of primitive outcomes: the peer's behaviour becomes
 * data, and the two default methods are verified against any script.
 */
module Proxy {
  import opened Errors

  newtype byte = b: int | 0 <= b < 256

  /** How a primitive stream ends: the peer closed it (a 0 result) or the primitive failed. */
  datatype Stop = Eof | Failed(err: Error)

  // ---------------------------------------------------------------------
  // Reading
  // ---------------------------------------------------------------------

  /**
   * One scripted answer of `proxy_read`. `Chunk(bytes)` is `Ok(|bytes|)`
   * with those bytes; the empty chunk is `Ok(0)`, the end of the stream.
   */
  datatype ReadStep = Chunk(bytes: seq<byte>) | ReadFault(err: Error)

  /** The bytes a read script delivers before it stops. */
  function Stream(script: seq<ReadStep>): seq<byte>
  {
    if script == [] then []
    else match script[0]
      case Chunk(b) => if b == [] then [] else b + Stream(script[1..])
      case ReadFault(_) => []
  }

  /** Why a read script stops. A script that runs out answers `Ok(0)`. */
  function End(script: seq<ReadStep>): Stop
  {
    if script == [] then Eof
    else match script[0]
      case Chunk(b) => if b == [] then Eof else End(script[1..])
      case ReadFault(e) => Failed(e)
  }

  /** What is left of a read script once its stop has been answered. */
  function After(script: seq<ReadStep>): seq<ReadStep>
  {
    if script == [] then []
    else match script[0]
      case Chunk(b) => if b == [] then script[1..] else After(script[1..])
      case ReadFault(_) => script[1..]
  }

  /** Handing out only part of the first chunk leaves the rest of the stream in place. */
  lemma SplitChunk(b: seq<byte>, n: nat, tail: seq<ReadStep>)
    requires 0 < n < |b|
    ensures Stream([Chunk(b[n..])] + tail) == Stream([Chunk(b)] + tail)[n..]
    ensures End([Chunk(b[n..])] + tail) == End([Chunk(b)] + tail)
    ensures After([Chunk(b[n..])] + tail) == After([Chunk(b)] + tail)
  {
  }

  /** `data` as a peer may deliver it: cut into pieces of the given sizes, the last taking the rest. */
  function Fragment(data: seq<byte>, sizes: seq<nat>): seq<ReadStep>
    decreases |sizes|
  {
    if data == [] then []
    else if sizes == [] || sizes[0] >= |data| then [Chunk(data)]
    else if sizes[0] == 0 then Fragment(data, sizes[1..])
    else [Chunk(data[..sizes[0]])] + Fragment(data[sizes[0]..], sizes[1..])
  }

  /**
   * However a peer fragments its bytes, the chunks join up contiguously
   * and in order, and the stream still ends where the peer stopped.
   */
  lemma {:induction false} FragmentStream(data: seq<byte>, sizes: seq<nat>, tail: seq<ReadStep>)
    ensures Stream(Fragment(data, sizes) + tail) == data + Stream(tail)
    ensures End(Fragment(data, sizes) + tail) == End(tail)
    ensures After(Fragment(data, sizes) + tail) == After(tail)
    decreases |sizes|
  {
    if data == [] {
      assert Fragment(data, sizes) + tail == tail;
    } else if sizes == [] || sizes[0] >= |data| {
      assert Fragment(data, sizes) == [Chunk(data)];
      LeadingChunk(data, tail);
    } else if sizes[0] == 0 {
      assert Fragment(data, sizes) == Fragment(data, sizes[1..]);
      FragmentStream(data, sizes[1..], tail);
    } else {
      var k := sizes[0];
      var pieces := Fragment(data[k..], sizes[1..]);
      assert Fragment(data, sizes) == [Chunk(data[..k])] + pieces;
      assert Fragment(data, sizes) + tail == [Chunk(data[..k])] + (pieces + tail);
      FragmentStream(data[k..], sizes[1..], tail);
      LeadingChunk(data[..k], pieces + tail);
      assert data == data[..k] + data[k..];
    }
  }

  /** A non-empty chunk in front of a script is delivered before it. */
  lemma LeadingChunk(b: seq<byte>, tail: seq<ReadStep>)
    requires b != []
    ensures Stream([Chunk(b)] + tail) == b + Stream(tail)
    ensures End([Chunk(b)] + tail) == End(tail)
    ensures After([Chunk(b)] + tail) == After(tail)
  {
  }

  /**
   * A channel that can be read: the scripted peer of `SvsmProxyRead`.
   * `calls` counts the invocations of the primitive.
   */
  class Reader {
    var script: seq<ReadStep>
    ghost var calls: nat

    constructor (script: seq<ReadStep>)
      ensures this.script == script && calls == 0
    {
      this.script := script;
      calls := 0;
    }

    /**
     * `proxy_read`: read into `buf[from..]` and report how many bytes
     * arrived. It never reports more than the free space, which is what
     * lets `read_exact` re-slice its buffer after every call.
     */
    method ProxyRead(buf: array<byte>, from: nat) returns (r: Result<nat>)
      requires from <= buf.Length
      modifies this, buf
      ensures calls == old(calls) + 1
      ensures from == buf.Length ==> r == Ok(0) && script == old(script) && buf[..] == old(buf[..])
      ensures r.Ok? ==> from + r.value <= buf.Length && r.value <= |Stream(old(script))|
      ensures r.Ok? ==> buf[from..from + r.value] == Stream(old(script))[..r.value]
      ensures r.Ok? ==> buf[..from] == old(buf[..from]) && buf[from + r.value..] == old(buf[from + r.value..])
      ensures r.Ok? && r.value > 0 ==>
        Stream(script) == Stream(old(script))[r.value..] &&
        End(script) == End(old(script)) && After(script) == After(old(script))
      ensures r.Ok? && r.value == 0 && from < buf.Length ==>
        Stream(old(script)) == [] && End(old(script)) == Eof && script == After(old(script))
      ensures r.Err? ==>
        Stream(old(script)) == [] && End(old(script)) == Failed(r.error) &&
        script == After(old(script)) && buf[..] == old(buf[..])
    {
      calls := calls + 1;
      if from == buf.Length || script == [] {
        return Ok(0);
      }
      match script[0]
      case ReadFault(e) =>
        script := script[1..];
        r := Err(e);
      case Chunk(b) =>
        var n := if |b| <= buf.Length - from then |b| else buf.Length - from;
        forall i | 0 <= i < n {
          buf[from + i] := b[i];
        }
        if n < |b| {
          SplitChunk(b, n, script[1..]);
          assert [Chunk(b)] + script[1..] == script;
          script := [Chunk(b[n..])] + script[1..];
        } else {
          script := script[1..];
        }
        r := Ok(n);
    }

    /**
     * `read_exact`: call the primitive on the unfilled tail of `buf`
     * until it is full or the primitive answers 0.
     *
     * Success exactly when the stream holds at least `buf.Length` bytes;
     * the bytes land in order, and an empty buffer never calls the
     * primitive. On failure every byte the stream had is in `buf`, the
     * rest of `buf` is untouched, nothing after the stop was requested,
     * and the error says why: `ProxyRead(e)` for a primitive error `e`,
     * `ProxyNoDataRead` if the peer closed without sending anything,
     * `ProxyFillBuffer` if it closed part-way.
     */
    method ReadExact(buf: array<byte>) returns (r: Result<()>)
      modifies this, buf
      ensures var s := Stream(old(script)); r.Ok? <==> buf.Length <= |s|
      ensures r.Ok? ==>
        buf[..] == Stream(old(script))[..buf.Length] &&
        Stream(script) == Stream(old(script))[buf.Length..] &&
        End(script) == End(old(script)) && After(script) == After(old(script))
      ensures r.Err? ==>
        var s := Stream(old(script));
        |s| < buf.Length && buf[..|s|] == s && buf[|s|..] == old(buf[|s|..]) &&
        script == After(old(script))
      ensures r.Err? ==>
        match End(old(script))
        case Failed(e) => r.error == Error.ProxyRead(e)
        case Eof => r.error == (if Stream(old(script)) == [] then ProxyNoDataRead else ProxyFillBuffer)
      ensures buf.Length == 0 ==> calls == old(calls) && script == old(script)
    {
      ghost var s, stop, rest := Stream(script), End(script), After(script);
      var read: nat := 0;
      // `read` is both the byte count and the start of the unfilled tail `buf[read..]`.
      while read < buf.Length
        invariant read <= buf.Length && read <= |s|
        invariant buf[..read] == s[..read]
        invariant buf[read..] == old(buf[read..])
        invariant Stream(script) == s[read..] && End(script) == stop && After(script) == rest
        invariant read == 0 ==> script == old(script) && calls == old(calls)
        decreases buf.Length - read
      {
        var res := ProxyRead(buf, read);
        match res
        case Err(e) =>
          return Err(Error.ProxyRead(e));
        case Ok(n) =>
          if n == 0 {
            break;
          }
          assert buf[..read + n] == buf[..read] + buf[read..read + n];
          assert s[..read + n] == s[..read] + s[read..][..n];
          read := read + n;
      }
      if read < buf.Length {
        if read == 0 {
          return Err(ProxyNoDataRead);
        } else {
          return Err(ProxyFillBuffer);
        }
      }
      r := Ok(());
    }
  }

  // ---------------------------------------------------------------------
  // Writing
  // ---------------------------------------------------------------------

  /**
   * One scripted answer of `write`. `Accept(room)` takes up to `room`
   * bytes; `Accept(0)` is `Ok(0)`, a peer that no longer accepts data.
   */
  datatype WriteStep = Accept(room: nat) | WriteFault(err: Error)

  /** How many bytes a write script accepts before it stops. */
  function Room(script: seq<WriteStep>): nat
  {
    if script == [] then 0
    else match script[0]
      case Accept(k) => if k == 0 then 0 else k + Room(script[1..])
      case WriteFault(_) => 0
  }

  /** Why a write script stops. A script that runs out answers `Ok(0)`. */
  function Halt(script: seq<WriteStep>): Stop
  {
    if script == [] then Eof
    else match script[0]
      case Accept(k) => if k == 0 then Eof else Halt(script[1..])
      case WriteFault(e) => Failed(e)
  }

  /** What is left of a write script once its stop has been answered. */
  function AfterWrite(script: seq<WriteStep>): seq<WriteStep>
  {
    if script == [] then []
    else match script[0]
      case Accept(k) => if k == 0 then script[1..] else AfterWrite(script[1..])
      case WriteFault(_) => script[1..]
  }

  /** Using only part of the first step's room leaves the rest of it in place. */
  lemma SplitAccept(k: nat, n: nat, tail: seq<WriteStep>)
    requires 0 < n < k
    ensures Room([Accept(k - n)] + tail) == Room([Accept(k)] + tail) - n
    ensures Halt([Accept(k - n)] + tail) == Halt([Accept(k)] + tail)
    ensures AfterWrite([Accept(k - n)] + tail) == AfterWrite([Accept(k)] + tail)
  {
  }

  /** The sum of `sizes`. */
  function Total(sizes: seq<nat>): nat
  {
    if sizes == [] then 0 else sizes[0] + Total(sizes[1..])
  }

  /** A peer that accepts writes in pieces of the given sizes; a zero size is skipped, not a stop. */
  function Accepts(sizes: seq<nat>): seq<WriteStep>
  {
    if sizes == [] then []
    else if sizes[0] == 0 then Accepts(sizes[1..])
    else [Accept(sizes[0])] + Accepts(sizes[1..])
  }

  /**
   * However a peer splits its capacity into partial writes, it accepts
   * their total, and it still stops where it would have stopped.
   */
  lemma {:induction false} AcceptsRoom(sizes: seq<nat>, tail: seq<WriteStep>)
    ensures Room(Accepts(sizes) + tail) == Total(sizes) + Room(tail)
    ensures Halt(Accepts(sizes) + tail) == Halt(tail)
    ensures AfterWrite(Accepts(sizes) + tail) == AfterWrite(tail)
  {
    if sizes == [] {
      assert Accepts(sizes) + tail == tail;
    } else if sizes[0] == 0 {
      assert Accepts(sizes) == Accepts(sizes[1..]);
      AcceptsRoom(sizes[1..], tail);
    } else {
      var pieces := Accepts(sizes[1..]);
      assert Accepts(sizes) + tail == [Accept(sizes[0])] + (pieces + tail);
      assert ([Accept(sizes[0])] + (pieces + tail))[1..] == pieces + tail;
      AcceptsRoom(sizes[1..], tail);
    }
  }

  /**
   * A channel that can be written: the scripted peer of `SvsmProxyWrite`.
   * `sent` holds the bytes `write` has accepted, `delivered` the bytes a
   * successful `flush` has pushed to their destination; `calls` and
   * `flushes` count the invocations of the two primitives.
   */
  class Writer {
    var script: seq<WriteStep>
    var flushResult: Result<()>
    var sent: seq<byte>
    var delivered: seq<byte>
    ghost var calls: nat
    ghost var flushes: nat

    constructor (script: seq<WriteStep>, flushResult: Result<()>)
      ensures this.script == script && this.flushResult == flushResult
      ensures sent == [] && delivered == [] && calls == 0 && flushes == 0
    {
      this.script := script;
      this.flushResult := flushResult;
      sent, delivered := [], [];
      calls, flushes := 0, 0;
    }

    /** `write`: offer `buf` and report how many of its leading bytes were taken. */
    method Write(buf: seq<byte>) returns (r: Result<nat>)
      modifies this
      ensures calls == old(calls) + 1 && flushes == old(flushes)
      ensures delivered == old(delivered) && flushResult == old(flushResult)
      ensures buf == [] ==> r == Ok(0) && script == old(script)
      ensures r.Ok? ==> r.value <= |buf| && sent == old(sent) + buf[..r.value]
      ensures r.Ok? && r.value > 0 ==>
        Room(script) == Room(old(script)) - r.value &&
        Halt(script) == Halt(old(script)) && AfterWrite(script) == AfterWrite(old(script))
      ensures r.Ok? && r.value == 0 && buf != [] ==>
        Room(old(script)) == 0 && Halt(old(script)) == Eof && script == AfterWrite(old(script))
      ensures r.Err? ==>
        Room(old(script)) == 0 && Halt(old(script)) == Failed(r.error) &&
        script == AfterWrite(old(script)) && sent == old(sent)
    {
      calls := calls + 1;
      if buf == [] || script == [] {
        return Ok(0);
      }
      match script[0]
      case WriteFault(e) =>
        script := script[1..];
        r := Err(e);
      case Accept(k) =>
        var n := if k <= |buf| then k else |buf|;
        sent := sent + buf[..n];
        if n < k {
          SplitAccept(k, n, script[1..]);
          assert [Accept(k)] + script[1..] == script;
          script := [Accept(k - n)] + script[1..];
        } else {
          script := script[1..];
        }
        r := Ok(n);
    }

    /** `flush`: push the accepted bytes to their destination, or fail. */
    method Flush() returns (r: Result<()>)
      modifies this
      ensures r == flushResult && flushes == old(flushes) + 1
      ensures delivered == if r.Ok? then sent else old(delivered)
      ensures script == old(script) && sent == old(sent)
      ensures calls == old(calls) && flushResult == old(flushResult)
    {
      flushes := flushes + 1;
      r := flushResult;
      if r.Ok? {
        delivered := sent;
      }
    }

    /**
     * `write_all`: offer the unsent tail of `buf` until nothing remains.
     *
     * Success exactly when the peer accepts all of `buf`; the accepted
     * bytes are exactly `buf`, in order, and an empty buffer never calls
     * the primitive. On failure the peer has taken as much as it would,
     * nothing after the stop was offered, and the error is the
     * primitive's own, unwrapped, or `WriteZero` for a peer that accepted
     * nothing. `flush` is never called, so nothing new is delivered.
     */
    method WriteAll(buf: seq<byte>) returns (r: Result<()>)
      modifies this
      ensures r.Ok? <==> |buf| <= Room(old(script))
      ensures r.Ok? ==>
        sent == old(sent) + buf && Room(script) == Room(old(script)) - |buf| &&
        Halt(script) == Halt(old(script)) && AfterWrite(script) == AfterWrite(old(script))
      ensures r.Err? ==>
        Room(old(script)) < |buf| && sent == old(sent) + buf[..Room(old(script))] &&
        script == AfterWrite(old(script))
      ensures r.Err? ==>
        match Halt(old(script))
        case Failed(e) => r.error == e
        case Eof => r.error == WriteZero
      ensures flushes == old(flushes) && delivered == old(delivered) && flushResult == old(flushResult)
      ensures buf == [] ==> calls == old(calls) && script == old(script)
    {
      ghost var room, stop, rest := Room(script), Halt(script), AfterWrite(script);
      var tail := buf;
      while tail != []
        invariant |tail| <= |buf| && |buf| - |tail| <= room
        invariant tail == buf[|buf| - |tail|..]
        invariant sent == old(sent) + buf[..|buf| - |tail|]
        invariant Room(script) == room - (|buf| - |tail|)
        invariant Halt(script) == stop && AfterWrite(script) == rest
        invariant flushes == old(flushes) && delivered == old(delivered) && flushResult == old(flushResult)
        invariant tail == buf ==> script == old(script) && calls == old(calls)
        decreases |tail|
      {
        var res := Write(tail);
        match res
        case Err(e) =>
          return Err(e);
        case Ok(n) =>
          if n == 0 {
            return Err(WriteZero);
          }
          assert buf[..|buf| - |tail| + n] == buf[..|buf| - |tail|] + tail[..n];
          tail := tail[n..];
      }
      r := Ok(());
    }
  }
}
