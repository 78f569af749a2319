/** A datagram is built up in the transmit ring by writes behind the committed
    TX_WR and goes out with one SEND command. */
module UdpSend {
  import opened Words
  import opened UdpChip
  import Ring

  /** The chunks written between `beginPacket` and `endPacket`. */
  function PutAll(tx: Tx, offset: u16, chunks: seq<Payload>): Tx
    decreases |chunks|
  {
    if chunks == [] then tx
    else PutAll(tx.Put(offset, chunks[0]), Wrap16(offset + |chunks[0]|), chunks[1..])
  }

  function Concat(chunks: seq<Payload>): seq<byte> {
    if chunks == [] then [] else chunks[0] + Concat(chunks[1..])
  }

  /** The transmit side after `done` has been stored from the committed pointer on. */
  function Stored(tx: Tx, done: seq<byte>): Tx {
    tx.(mem := Ring.Write(tx.mem, tx.wr, done), written := Wrap16(tx.wr + |done|))
  }

  lemma StoredPut(tx: Tx, done: seq<byte>, data: Payload)
    ensures Stored(tx, done).Put(Wrap16(|done|), data) == Stored(tx, done + data)
  {
    WrapOfSum(tx.wr, |done|);
    WrapOfSum(tx.wr + |done|, |data|);
    Ring.WriteWraps(Stored(tx, done).mem, tx.wr + |done|, data);
    Ring.WriteConcat(tx.mem, tx.wr, done, data);
  }

  lemma {:induction false} PutAllFrom(tx: Tx, done: seq<byte>, chunks: seq<Payload>)
    ensures PutAll(Stored(tx, done), Wrap16(|done|), chunks) == Stored(tx, done + Concat(chunks))
    decreases |chunks|
  {
    if chunks == [] {
      assert done + [] == done;
    } else {
      var data := chunks[0];
      StoredPut(tx, done, data);
      WrapOfSum(|done|, |data|);
      PutAllFrom(tx, done + data, chunks[1..]);
      assert done + data + Concat(chunks[1..]) == done + Concat(chunks);
    }
  }

  lemma {:induction false} ConcatAppend(chunks: seq<Payload>, data: Payload)
    ensures Concat(chunks + [data]) == Concat(chunks) + data
  {
    if chunks == [] {
      assert chunks + [data] == [data];
    } else {
      assert (chunks + [data])[1..] == chunks[1..] + [data];
      ConcatAppend(chunks[1..], data);
    }
  }

  lemma {:induction false} ConcatHolds(chunks: seq<Payload>, i: nat)
    requires i < |chunks|
    ensures |chunks[i]| <= |Concat(chunks)|
    decreases i
  {
    if i > 0 { ConcatHolds(chunks[1..], i - 1); }
  }

  lemma PutAllOne(tx: Tx, offset: u16, data: Payload)
    ensures PutAll(tx, offset, [data]) == tx.Put(offset, data)
  {
    assert [data][1..] == [];
  }

  lemma PutAllFirst(tx: Tx, offset: u16, chunks: seq<Payload>, data: Payload)
    requires chunks != []
    ensures PutAll(tx, offset, chunks + [data]) ==
      PutAll(tx.Put(offset, chunks[0]), Wrap16(offset + |chunks[0]|), chunks[1..] + [data])
  {
    assert (chunks + [data])[1..] == chunks[1..] + [data];
  }

  /** Where the chunks end. */
  function End(offset: u16, chunks: seq<Payload>): u16 { Wrap16(offset + |Concat(chunks)|) }

  lemma EndStep(offset: u16, chunks: seq<Payload>)
    requires chunks != []
    ensures End(offset, chunks) == End(Wrap16(offset + |chunks[0]|), chunks[1..])
  {
    ThreeSum(offset, |chunks[0]|, |Concat(chunks[1..])|);
  }

  lemma {:induction false} PutAllAppend(tx: Tx, offset: u16, chunks: seq<Payload>, data: Payload, end: u16)
    requires end == End(offset, chunks)
    ensures PutAll(tx, offset, chunks + [data]) == PutAll(tx, offset, chunks).Put(end, data)
    decreases |chunks|
  {
    if chunks == [] {
      assert [] + [data] == [data];
      PutAllOne(tx, offset, data);
    } else {
      PutAllFirst(tx, offset, chunks, data);
      EndStep(offset, chunks);
      PutAllAppend(tx.Put(offset, chunks[0]), Wrap16(offset + |chunks[0]|), chunks[1..], data, end);
    }
  }

  lemma ThreeSum(a: int, b: int, c: int)
    ensures Wrap16(Wrap16(a + b) + c) == Wrap16(a + (b + c))
  {
  }

  /** The packet under construction: `chunks` stored since `beginPacket` found `base`. */
  ghost predicate BuiltFrom(base: Tx, chunks: seq<Payload>, offset: u16, tx: Tx) {
    && offset == Wrap16(|Concat(chunks)|)
    && tx == PutAll(base, 0, chunks).(free := tx.free)
  }

  lemma NothingBuilt(tx: Tx)
    ensures BuiltFrom(tx, [], 0, tx)
  {
  }

  /** One more write while a packet is being built. */
  lemma BuildingStep(base: Tx, chunks: seq<Payload>, offset: u16, tx: Tx, data: Payload,
                     chunks': seq<Payload>, offset': u16, tx': Tx)
    requires BuiltFrom(base, chunks, offset, tx)
    requires chunks' == chunks + [data] && offset' == Wrap16(offset + |data|)
    requires tx' == tx.Put(offset, data).(free := tx'.free)
    ensures BuiltFrom(base, chunks', offset', tx')
  {
    ConcatAppend(chunks, data);
    PutAllAppend(base, 0, chunks, data, offset);
    ThreeSum(0, |Concat(chunks)|, |data|);
    PutKeepsFree(PutAll(base, 0, chunks), tx.free, offset, data);
  }

  lemma PutKeepsFree(tx: Tx, free: Size, offset: u16, data: seq<byte>)
    ensures tx.(free := free).Put(offset, data) == tx.Put(offset, data).(free := free)
  {
  }

  lemma {:induction false} PutAllKeepsDestination(tx: Tx, offset: u16, chunks: seq<Payload>)
    ensures var tx' := PutAll(tx, offset, chunks);
      tx'.ip == tx.ip && tx'.port == tx.port && tx'.sent == tx.sent && tx'.free == tx.free && tx'.wr == tx.wr
    decreases |chunks|
  {
    if chunks != [] {
      PutAllKeepsDestination(tx.Put(offset, chunks[0]), Wrap16(offset + |chunks[0]|), chunks[1..]);
    }
  }

  lemma SendIgnoresFree(tx: Tx, free: Size)
    ensures tx.(free := free).Send().sent == tx.Send().sent
  {
  }

  lemma FirstPut(tx: Tx, data: Payload)
    ensures tx.Put(0, data) == Stored(tx, data)
  {
    Ring.WriteWraps(tx.mem, tx.wr, data);
  }

  /** Any number of writes, from any committed pointer and whatever an abandoned
      packet left in TX_WR, amount to one store of their concatenation. */
  lemma WritesAreOneStore(tx: Tx, chunks: seq<Payload>)
    requires chunks != []
    ensures PutAll(tx, 0, chunks) == Stored(tx, Concat(chunks))
  {
    FirstPut(tx, chunks[0]);
    PutAllFrom(tx, chunks[0], chunks[1..]);
    assert Wrap16(0 + |chunks[0]|) == Wrap16(|chunks[0]|);
  }

  /** What SEND transmits, for every sequence of writes below 64 KB. */
  lemma TransmittedPayload(tx: Tx, chunks: seq<Payload>)
    requires chunks != [] && |Concat(chunks)| < 0x1_0000
    ensures PutAll(tx, 0, chunks).Send().sent ==
      tx.sent + [Datagram(tx.ip, tx.port, Ring.Overlaid(Concat(chunks)))]
  {
    WritesAreOneStore(tx, chunks);
    Ring.ReadBack(tx.mem, tx.wr, Concat(chunks));
    WrapOfDistance(tx.wr, |Concat(chunks)|);
  }

  /** A packet goes out as written exactly when it fits the ring or merely repeats
      itself where it does not; `bufferData` checks neither. */
  lemma SentAsWrittenIff(tx: Tx, chunks: seq<Payload>)
    requires chunks != [] && |Concat(chunks)| < 0x1_0000
    ensures var data := Concat(chunks);
      PutAll(tx, 0, chunks).Send().sent == tx.sent + [Datagram(tx.ip, tx.port, data)] <==>
      forall i :: 0 <= i && i + 2048 < |data| ==> data[i] == data[i + 2048]
  {
    var data := Concat(chunks);
    TransmittedPayload(tx, chunks);
    Ring.IntactIff(data);
    var sent := PutAll(tx, 0, chunks).Send().sent;
    if sent == tx.sent + [Datagram(tx.ip, tx.port, data)] {
      assert sent[|tx.sent|] == Datagram(tx.ip, tx.port, data);
      assert sent[|tx.sent|] == Datagram(tx.ip, tx.port, Ring.Overlaid(data));
    }
  }

  /** Chunks that together fit the free size leave as one datagram, and the bytes
      the chip is still transmitting are not touched. */
  lemma SendRefinement(tx: Tx, chunks: seq<Payload>)
    requires chunks != [] && |Concat(chunks)| <= tx.free
    ensures PutAll(tx, 0, chunks).Send().sent == tx.sent + [Datagram(tx.ip, tx.port, Concat(chunks))]
    ensures PutAll(tx, 0, chunks).InFlight() == tx.InFlight()
  {
    SentAsWrittenIff(tx, chunks);
    WritesAreOneStore(tx, chunks);
    StoreKeepsInFlight(tx, Concat(chunks));
  }

  lemma StoreKeepsInFlight(tx: Tx, data: seq<byte>)
    requires |data| <= tx.free
    ensures Stored(tx, data).InFlight() == tx.InFlight()
  {
    InFlightSurvivesIff(tx, data);
  }

  /** A store of any length spares the bytes in flight exactly if what lies beyond the
      free space repeats them. */
  lemma InFlightSurvivesIff(tx: Tx, data: seq<byte>)
    ensures Stored(tx, data).InFlight() == tx.InFlight() <==> Repeats(tx.InFlight(), data)
  {
    var was, now := tx.InFlight(), Stored(tx, data).InFlight();
    forall j | 0 <= j < |was| ensures now[j] == Landed(was, data, j) {
      InFlightByte(tx, data, j);
    }
    LandedIff(was, now, data);
  }

  /** The byte of a store that ends up in place `j` of `was`, the bytes in flight, which
      end where the store begins; or that byte itself. */
  function Landed(was: seq<byte>, data: seq<byte>, j: nat): byte
    requires j < |was| <= 2048
  {
    var k := 2048 - |was| + j;
    if k < |data| then data[Ring.LastHit(|data|, k)] else was[j]
  }

  ghost predicate Repeats(was: seq<byte>, data: seq<byte>)
    requires |was| <= 2048
  {
    forall j :: 0 <= j < |was| && 2048 - |was| + j < |data| ==>
      data[Ring.LastHit(|data|, 2048 - |was| + j)] == was[j]
  }

  lemma LandedIff(was: seq<byte>, now: seq<byte>, data: seq<byte>)
    requires |now| == |was| <= 2048
    requires forall j :: 0 <= j < |was| ==> now[j] == Landed(was, data, j)
    ensures now == was <==> Repeats(was, data)
  {
    if now == was {
      forall j | 0 <= j < |was| && 2048 - |was| + j < |data|
        ensures data[Ring.LastHit(|data|, 2048 - |was| + j)] == was[j]
      {
        assert now[j] == Landed(was, data, j);
      }
    }
  }

  lemma BehindInFlight(wr: u16, free: Size, j: nat)
    requires j < 2048 - free
    ensures Ring.Ahead(wr, Ring.Slot(wr + 0x1_0000 - (2048 - free), j)) == free + j
  {
  }

  lemma InFlightByte(tx: Tx, data: seq<byte>, j: nat)
    requires j < 2048 - tx.free
    ensures Stored(tx, data).InFlight()[j] == Landed(tx.InFlight(), data, j)
  {
    BehindInFlight(tx.wr, tx.free, j);
    Ring.WriteSeenFrom(tx.mem, tx.wr, data, tx.wr + 0x1_0000 - (2048 - tx.free), 2048 - tx.free, j, tx.free + j);
  }

  /** Without a write in between, an abandoned packet is what the next SEND
      transmits: `beginPacket` resets only the offset. */
  lemma AbandonedIsSentByEmptyPacket(tx: Tx, abandoned: Payload)
    requires |abandoned| <= 2048
    ensures PutAll(tx, 0, [abandoned]).Send().sent == tx.sent + [Datagram(tx.ip, tx.port, abandoned)]
    ensures PutAll(PutAll(tx, 0, [abandoned]), 0, []).Send() == PutAll(tx, 0, [abandoned]).Send()
  {
    assert Concat([abandoned]) == abandoned;
    SentAsWrittenIff(tx, [abandoned]);
  }
}
