/** What a connection receives: the receiver's runs over whole streams, seen by the code that calls it. */
module Reception {
  import opened ByteNumbers
  import opened Scan
  import opened Endings
  import opened MemStreams
  import opened Receivers

  ghost predicate Apart(client: SocketClientPacket, stream: MemStream)
    reads stream
  {
    client !in stream.Repr && client.buff !in stream.Repr && client.lenghtBuff !in stream.Repr
  }

  /** Any stream: whether the call comes back is decided by the candidates it meets. */
  method Receive(client: SocketClientPacket, stream: MemStream) returns (exit: Exit)
    requires client.Ready() && stream.Valid() && Apart(client, stream)
    modifies client, client.buff, client.lenghtBuff
    ensures client.log == old(client.log) + ChunkScan(stream.Contents(), client.maxBuffLen, 0).events
    ensures var candidates := Candidates(stream.Contents(), client.maxBuffLen, 0);
            && (exit == LoopsForever <==> SomeJams(stream.Contents(), client.maxBuffLen, candidates))
            && (exit == PastPacket <==> SomeOversized(stream.Contents(), candidates))
  {
    hide ChunkScan, Candidates, SomeJams, SomeOversized, MemStream.Valid, MemStream.Contents;
    EndingIff(stream.Contents(), client.maxBuffLen, 0);
    exit := client.OnRecv(stream);
  }

  /** The frames of any payloads: they are delivered in order, nothing else is called, and the client is as before. */
  method ReceiveFrames(client: SocketClientPacket, stream: MemStream, ghost ps: seq<seq<byte>>)
    requires client.Ready() && stream.Valid() && Apart(client, stream)
    requires Payloads(ps) && stream.Contents() == Stream(ps)
    modifies client, client.buff, client.lenghtBuff
    ensures client.Ready() && client.log == old(client.log) + Deliveries(ps)
    ensures stream.Valid() && stream.Contents() == Stream(ps)
  {
    hide ChunkScan, MemStream.Valid, MemStream.Contents;
    CleanRun(ps, client.maxBuffLen);
    var _ := client.OnRecv(stream);
  }

  /** Any stream of at most one chunk: it is scanned greedily, and each byte is delivered, given up or pending. */
  method ReceiveChunk(client: SocketClientPacket, stream: MemStream)
    requires client.Ready() && stream.Valid() && Apart(client, stream)
    requires |stream.Contents()| <= client.maxBuffLen
    modifies client, client.buff, client.lenghtBuff
    ensures client.log == old(client.log) + Greedy(stream.Contents(), 0).events
    ensures TotalCost(Greedy(stream.Contents(), 0).events) + client.posPacket == |stream.Contents()|
  {
    hide ChunkScan, Greedy, TotalCost, MemStream.Valid, MemStream.Contents;
    OneChunkRun(stream.Contents(), client.maxBuffLen);
    var _ := client.OnRecv(stream);
  }

  /** What a series of streams delivers. */
  function DeliveriesOf(pss: seq<seq<seq<byte>>>): seq<Event>
    requires forall k | 0 <= k < |pss| :: Payloads(pss[k])
  {
    if |pss| == 0 then [] else DeliveriesOf(pss[..|pss| - 1]) + Deliveries(pss[|pss| - 1])
  }

  /** One call after the other, each on the frames that came in meanwhile: every payload sent is delivered, in order. */
  method ReceiveSeries(client: SocketClientPacket, streams: seq<MemStream>, ghost pss: seq<seq<seq<byte>>>)
    requires client.Ready() && |streams| == |pss|
    requires forall k | 0 <= k < |pss| :: Payloads(pss[k])
    requires forall k | 0 <= k < |streams| ::
               streams[k].Valid() && Apart(client, streams[k]) && streams[k].Contents() == Stream(pss[k])
    modifies client, client.buff, client.lenghtBuff
    ensures client.Ready() && client.log == old(client.log) + DeliveriesOf(pss)
  {
    hide MemStream.Valid, MemStream.Contents, SocketClientPacket.Ready, Stream, Deliveries, DeliveriesOf, Payloads;
    NoDeliveries();
    ghost var before := client.log;
    assert pss[..0] == [] && before + [] == before;
    for i := 0 to |streams|
      invariant client.Ready() && client.log == before + DeliveriesOf(pss[..i])
      invariant forall k | i <= k < |streams| ::
                  streams[k].Valid() && Apart(client, streams[k]) && streams[k].Contents() == Stream(pss[k])
    {
      OneMoreSeries(pss, i);
      assert (before + DeliveriesOf(pss[..i])) + Deliveries(pss[i]) == before + (DeliveriesOf(pss[..i]) + Deliveries(pss[i]));
      ReceiveFrames(client, streams[i], pss[i]);
    }
    assert pss[..|streams|] == pss;
  }

  lemma NoDeliveries()
    ensures DeliveriesOf([]) == []
  {
  }

  lemma OneMoreSeries(pss: seq<seq<seq<byte>>>, i: nat)
    requires i < |pss| && forall k | 0 <= k < |pss| :: Payloads(pss[k])
    ensures DeliveriesOf(pss[..i + 1]) == DeliveriesOf(pss[..i]) + Deliveries(pss[i])
  {
    hide Payloads;
    assert pss[..i + 1][..i] == pss[..i];
  }
}
