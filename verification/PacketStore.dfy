/** The keyed store of streams: one memory stream per source name. */
module PacketStore {
  import opened ByteNumbers
  import opened Memory
  import opened Blocks
  import opened MemStreams

  /** `g_defBufferSize` */
  const DEF_BUFFER_SIZE: nat := 0x4_0000

  /** The calls answer -1 for a source the store does not hold. */
  datatype Option<T> = None | Some(value: T)

  /** What a store holds, as a value. */
  type Store = map<string, seq<byte>>

  function Held(store: Store, source: string): seq<byte> {
    if source in store then store[source] else []
  }

  /** Footprints lie within `all`, away from their owner and from each other. */
  ghost predicate Apart(reprs: map<string, set<object>>, all: set<object>, owner: object) {
    && (forall k | k in reprs :: reprs[k] <= all && owner !in reprs[k])
    && (forall k, l | k in reprs && l in reprs && k != l :: reprs[k] !! reprs[l])
  }

  /** A footprint that is new, or grows by objects that are new, stays apart from the others. */
  lemma ApartGrows(reprs: map<string, set<object>>, all: set<object>, owner: object, source: string, repr: set<object>)
    requires Apart(reprs, all, owner) && owner in all
    requires var was := if source in reprs then reprs[source] else {}; repr - was !! all
    ensures Apart(reprs[source := repr], all + repr, owner)
  {
    var was := if source in reprs then reprs[source] else {};
    forall k | k in reprs && k != source
      ensures reprs[k] !! repr
    {
      assert reprs[k] !! was && reprs[k] <= all;
    }
  }

  class MemStreamPacketMap {
    var sourceMap: map<string, MemStream>
    ghost var Repr: set<object>

    /** Every stream is owned by the store, and by one source only. */
    ghost predicate Valid()
      reads this, Repr
      ensures Valid() ==> this in Repr
    {
      && this in Repr
      && (forall k | k in sourceMap :: Owns(sourceMap[k]))
      && (forall k, l | k in sourceMap && l in sourceMap && k != l :: sourceMap[k].Repr !! sourceMap[l].Repr)
    }

    ghost predicate Owns(stream: MemStream)
      reads this, Repr
    {
      stream in Repr && stream.Repr <= Repr && this !in stream.Repr && stream.Valid()
    }

    ghost function Contents(): Store
      reads this, Repr
      requires Valid()
    {
      map k | k in sourceMap :: sourceMap[k].Contents()
    }

    // The state of the streams as values, from which the store's own state can be rebuilt after one has changed.

    ghost predicate Holding(stream: MemStream, repr: set<object>, bytes: seq<byte>)
      reads stream, stream.Repr
    {
      stream.Valid() && stream.Repr == repr && stream in repr && stream.Contents() == bytes
    }

    lemma Snapshot() returns (reprs: map<string, set<object>>)
      requires Valid()
      ensures reprs.Keys == sourceMap.Keys == Contents().Keys
      ensures forall k | k in sourceMap :: Holding(sourceMap[k], reprs[k], Contents()[k])
      ensures Apart(reprs, Repr, this)
    {
      hide MemStream.Valid, MemStream.Contents;
      reprs := map k | k in sourceMap :: sourceMap[k].Repr;
      forall k | k in sourceMap
        ensures Holding(sourceMap[k], reprs[k], Contents()[k])
      {
        assert Owns(sourceMap[k]);
        StreamHoldsItself(sourceMap[k]);
      }
    }

    lemma StreamHoldsItself(stream: MemStream)
      requires stream.Valid()
      ensures stream in stream.Repr
    {
    }

    lemma StreamHolds(stream: MemStream)
      requires stream.Valid()
      ensures Holding(stream, stream.Repr, stream.Contents())
    {
      hide MemStream.Contents;
    }

    lemma Rebuild(reprs: map<string, set<object>>, held: Store)
      requires this in Repr && reprs.Keys == sourceMap.Keys == held.Keys
      requires forall k | k in sourceMap :: Holding(sourceMap[k], reprs[k], held[k])
      requires Apart(reprs, Repr, this)
      ensures Valid() && Contents() == held
    {
      hide MemStream.Valid, MemStream.Contents;
      forall k | k in sourceMap
        ensures Owns(sourceMap[k]) && sourceMap[k].Repr == reprs[k] && sourceMap[k].Contents() == held[k]
      {
        assert Holding(sourceMap[k], reprs[k], held[k]);
      }
    }

    constructor ()
      ensures Valid() && fresh(Repr) && Contents() == map[]
    {
      sourceMap := map[];
      Repr := {this};
    }

    /** `operator[]` of the map: a new stream for a source it does not know. */
    method StreamOf(source: string) returns (stream: MemStream)
      requires Valid()
      modifies this
      ensures Valid() && fresh(Repr - old(Repr))
      ensures source in sourceMap && stream == sourceMap[source] && source in Contents()
      ensures Contents() == old(Contents())[source := Held(old(Contents()), source)]
    {
      hide Valid, Owns, Contents, MemStream.Valid, MemStream.Contents;
      if source !in sourceMap {
        NotHeld(source);
        AddSource(source);
      } else {
        IsHeld(source);
      }
      IsHeld(source);
      stream := sourceMap[source];
    }

    lemma NotHeld(source: string)
      requires Valid() && source !in sourceMap
      ensures source !in Contents()
    {
    }

    lemma IsHeld(source: string)
      requires Valid() && source in sourceMap
      ensures source in Contents()
    {
    }

    method AddSource(source: string)
      requires Valid() && source !in sourceMap
      modifies this
      ensures Valid() && fresh(Repr - old(Repr))
      ensures source in sourceMap && sourceMap[source].blockSize == 262144
      ensures Contents() == old(Contents())[source := []]
    {
      hide Valid, Contents, Apart, MemStream.Valid, MemStream.Contents;
      ghost var held, all := Contents(), Repr;
      ghost var reprs := Snapshot();
      var stream := new MemStream(DEF_BUFFER_SIZE);
      StreamHolds(stream);
      Footprints(reprs);
      ApartGrows(reprs, all, this, source, stream.Repr);
      sourceMap := sourceMap[source := stream];
      Repr := Repr + stream.Repr;
      Rebuild(reprs[source := stream.Repr], held[source := []]);
    }

    /** Writing to an unknown source makes it known, even when nothing is written. */
    method Write(source: string, buf: seq<byte>)
      requires Valid()
      modifies Repr
      ensures Valid() && fresh(Repr - old(Repr))
      ensures Contents() == old(Contents())[source := Held(old(Contents()), source) + buf]
    {
      hide Valid, Owns, Contents, MemStream.Valid, MemStream.Contents;
      var stream := StreamOf(source);
      ghost var before := Contents();
      Append(source, stream, buf);
      assert before[source := before[source] + buf] == old(Contents())[source := Held(old(Contents()), source) + buf];
    }

    method Append(source: string, stream: MemStream, buf: seq<byte>)
      requires Valid() && source in sourceMap && stream == sourceMap[source] && source in Contents()
      modifies Repr
      ensures Valid() && fresh(Repr - old(Repr))
      ensures Contents() == old(Contents())[source := old(Contents())[source] + buf]
    {
      hide Valid, Contents, Apart, MemStream.Valid, MemStream.Contents;
      ghost var held, all := Contents(), Repr;
      ghost var reprs := Snapshot();
      Footprints(reprs);
      WriteOne(source, stream, buf, reprs, held);
      ApartGrows(reprs, all, this, source, stream.Repr);
      Repr := Repr + stream.Repr;
      Rebuild(reprs[source := stream.Repr], held[source := held[source] + buf]);
    }

    lemma Footprints(reprs: map<string, set<object>>)
      requires Apart(reprs, Repr, this)
      ensures forall k | k in reprs :: reprs[k] <= Repr && this !in reprs[k]
    {
    }

    /** A write to one stream leaves the others holding what they held. */
    method WriteOne(source: string, stream: MemStream, buf: seq<byte>, ghost reprs: map<string, set<object>>, ghost held: Store)
      requires source in sourceMap && stream == sourceMap[source] && reprs.Keys == sourceMap.Keys == held.Keys
      requires forall k | k in sourceMap :: Holding(sourceMap[k], reprs[k], held[k])
      requires Apart(reprs, Repr, this)
      modifies reprs[source]
      ensures sourceMap == old(sourceMap) && Repr == old(Repr)
      ensures Holding(stream, stream.Repr, held[source] + buf) && fresh(stream.Repr - reprs[source])
      ensures forall k | k in sourceMap && k != source :: Holding(sourceMap[k], reprs[k], held[k])
    {
      hide MemStream.Valid, MemStream.Contents;
      assert Holding(stream, reprs[source], held[source]);
      stream.Write(buf);
      StreamHoldsItself(stream);
    }

    method Read(source: string, buf: array<byte>, length: nat, offset: nat) returns (readed: Option<nat>)
      requires Valid() && buf !in Repr
      requires length <= buf.Length
      modifies buf
      ensures readed.None? <==> source !in Contents()
      ensures readed.None? ==> buf[..] == old(buf[..])
      ensures readed.Some? ==>
                && readed.value == |Cut(Contents()[source], offset, length)|
                && buf[..] == Overwrite(old(buf[..]), 0, Cut(Contents()[source], offset, length))
                && buf[..readed.value] == Cut(Contents()[source], offset, length)
    {
      if source !in sourceMap {
        return None;
      }
      assert Owns(sourceMap[source]);
      var n := sourceMap[source].Read(buf, length, offset);
      readed := Some(n);
    }

    method Delete(source: string) returns (erased: Option<nat>)
      requires Valid()
      modifies this
      ensures Valid() && Repr == old(Repr)
      ensures erased == if source in old(Contents()) then Some(1) else None
      ensures Contents() == old(Contents()) - {source}
    {
      hide MemStream.Valid, MemStream.Contents;
      if source !in sourceMap {
        return None;
      }
      forall k | k in sourceMap && k != source
        ensures sourceMap[k].Valid()
      {
        assert Owns(sourceMap[k]);
      }
      sourceMap := sourceMap - {source};
      erased := Some(1);
    }

    method Len(source: string) returns (len: Option<nat>)
      requires Valid()
      ensures len == if source in Contents() then Some(|Contents()[source]|) else None
    {
      if source !in sourceMap {
        return None;
      }
      assert Owns(sourceMap[source]);
      var n := sourceMap[source].Len();
      len := Some(n);
    }
  }
}
