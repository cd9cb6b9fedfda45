/**
 * Clients of the transfer layer: concrete peers whose outcomes follow
 * from the contracts of `ReadExact` and `WriteAll` alone.
 */
module Scenarios {
  import opened Errors
  import opened Proxy

  /** A peer that closes at once: the failure is "no data", not "incomplete". */
  method SilentPeer()
  {
    var peer := new Reader([Chunk([])]);
    var buf := new byte[4];
    var r := peer.ReadExact(buf);
    assert r == Err(ProxyNoDataRead);
  }

  /** A 4-byte buffer filled from two chunks is read in full; the surplus byte stays queued. */
  method TwoChunkFill()
  {
    var peer := new Reader([Chunk([0, 0]), Chunk([0, 7, 42])]);
    var buf := new byte[4];
    var r := peer.ReadExact(buf);
    assert Stream(peer.script) == [42] by {
      assert Stream([Chunk([0, 0]), Chunk([0, 7, 42])]) == [0, 0, 0, 7, 42];
    }
    assert r.Ok? && buf[..] == [0, 0, 0, 7];
  }

  /**
   * Fragmentation is invisible: a peer that sends `data` in any pieces and
   * then closes fills a buffer of `n` bytes exactly when `n <= |data|`.
   */
  method AnyFragmentation(data: seq<byte>, sizes: seq<nat>, n: nat)
  {
    FragmentStream(data, sizes, [Chunk([])]);
    var peer := new Reader(Fragment(data, sizes) + [Chunk([])]);
    var buf := new byte[n];
    var r := peer.ReadExact(buf);
    assert Stream([Chunk([])]) == [];
    assert r.Ok? <==> n <= |data|;
    assert r.Ok? ==> buf[..] == data[..n];
    assert r.Err? ==> r.error == (if data == [] then ProxyNoDataRead else ProxyFillBuffer);
  }

  /** A peer that stops part-way leaves its bytes in place and reports an incomplete fill. */
  method TruncatedPeer()
  {
    var peer := new Reader([Chunk([1, 2]), Chunk([3]), Chunk([]), Chunk([9])]);
    var buf := new byte[5];
    var r := peer.ReadExact(buf);
    assert Stream([Chunk([1, 2]), Chunk([3]), Chunk([]), Chunk([9])]) == [1, 2, 3];
    assert r == Err(ProxyFillBuffer);
    assert buf[..3] == [1, 2, 3];
    assert peer.script == [Chunk([9])];
  }

  /** A socket error is wrapped once and stops the transfer: the later chunk is never requested. */
  method FailingSocket()
  {
    var cause := UnixSocketRead(IoError("connection reset"));
    var peer := new Reader([Chunk([1]), ReadFault(cause), Chunk([2, 3])]);
    var buf := new byte[3];
    var r := peer.ReadExact(buf);
    assert Stream([Chunk([1]), ReadFault(cause), Chunk([2, 3])]) == [1];
    assert End([Chunk([1]), ReadFault(cause), Chunk([2, 3])]) == Failed(cause);
    assert r == Err(Error.ProxyRead(cause));
    assert peer.script == [Chunk([2, 3])];
  }

  /** A sink that stalls yields `WriteZero` after taking what it could, and nothing is flushed. */
  method StalledSink()
  {
    var sink := new Writer([Accept(2), Accept(0)], Ok(()));
    var r := sink.WriteAll([5, 6, 7]);
    assert r == Err(WriteZero);
    assert sink.sent == [5, 6] && sink.delivered == [] && sink.flushes == 0;
  }

  /**
   * Partial writes are invisible: a peer that accepts pieces of the given
   * sizes and then stalls takes all of `buf` exactly when their total
   * suffices, and otherwise fails with `WriteZero` having taken that total.
   */
  method AnyPartialWrites(buf: seq<byte>, sizes: seq<nat>)
  {
    AcceptsRoom(sizes, [Accept(0)]);
    var sink := new Writer(Accepts(sizes) + [Accept(0)], Ok(()));
    var r := sink.WriteAll(buf);
    assert r.Ok? <==> |buf| <= Total(sizes);
    assert r.Ok? ==> sink.sent == buf;
    assert r.Err? ==> r.error == WriteZero && sink.sent == buf[..Total(sizes)];
  }

  /** Partial writes followed by a flush deliver exactly the message. */
  method WriteThenFlush()
  {
    var sink := new Writer([Accept(1), Accept(10)], Ok(()));
    var r := sink.WriteAll([5, 6, 7]);
    assert r.Ok? && sink.sent == [5, 6, 7];
    var f := sink.Flush();
    assert sink.delivered == [5, 6, 7];
  }
}
