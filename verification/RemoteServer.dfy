/** The server's side of a connection: it carries out the commands of each packet on a store shared by all connections. */
module RemoteServer {
  import opened ByteNumbers
  import opened Blocks
  import opened PacketStore
  import opened RemoteCommands
  import Base64
  import Base64Streams

  class OrcRemoteServerClient {
    var pstore: MemStreamPacketMap?
    var sent: seq<Response>
    var parseErrors: nat

    ghost predicate Valid()
      reads this, pstore, if pstore != null then pstore.Repr else {}
    {
      pstore != null ==> pstore.Valid() && this !in pstore.Repr
    }

    ghost function Footprint(): set<object>
      reads this, pstore
    {
      if pstore != null then pstore.Repr else {}
    }

    constructor ()
      ensures Valid() && pstore == null && sent == [] && parseErrors == 0
    {
      pstore, sent, parseErrors := null, [], 0;
    }

    method SetStore(store: MemStreamPacketMap)
      requires store.Valid() && this !in store.Repr
      modifies this`pstore
      ensures Valid() && pstore == store
    {
      pstore := store;
    }

    method SendPacket(response: Response)
      modifies this`sent
      ensures sent == old(sent) + [response]
    {
      sent := sent + [response];
    }

    method OnRecvCmdWrite(cmd: Cmd)
      requires Valid() && cmd.id == CMD_WRITE
      modifies this`sent, Footprint()
      ensures Valid() && pstore == old(pstore)
      ensures pstore == null ==> sent == old(sent) + [Respond(cmd, CST_ERROR, "Server Not Ready")]
      ensures pstore != null ==>
                && fresh(pstore.Repr - old(Footprint()))
                && sent == old(sent) + [Answer(old(pstore.Contents()), cmd)]
                && pstore.Contents() == After(old(pstore.Contents()), cmd)
    {
      hide MemStreamPacketMap.Valid, MemStreamPacketMap.Contents, Base64.Decode;
      if pstore == null {
        SendPacket(Respond(cmd, CST_ERROR, "Server Not Ready"));
      } else {
        var buff := new byte[|cmd.content|];
        RoomForPayload(cmd);
        ghost var was := buff[..];
        var buffLen, _ := Base64Streams.DecodeWhole(cmd.content, buff);
        Base64Streams.WrittenInFront(was, buff[..], Payload(cmd));
        assert buff[..buffLen] == buff[..][..buffLen];
        pstore.Write(cmd.source, buff[..buffLen]);
        SendPacket(Respond(cmd, CST_SUCCESS, "Write Suceeded"));
      }
    }

    lemma RoomForPayload(cmd: Cmd)
      ensures |Payload(cmd)| <= |cmd.content|
    {
      Base64.DecodeLoopLength(Base64.DEC_START, cmd.content);
    }

    method OnRecvCmdRead(cmd: Cmd)
      requires Valid() && cmd.id == CMD_READ
      modifies this`sent
      ensures Valid() && pstore == old(pstore)
      ensures pstore == null ==> sent == old(sent) + [Respond(cmd, CST_ERROR, "Server Not Ready")]
      ensures pstore != null ==>
                && sent == old(sent) + [Answer(old(pstore.Contents()), cmd)]
                && pstore.Contents() == After(old(pstore.Contents()), cmd)
    {
      hide MemStreamPacketMap.Valid, MemStreamPacketMap.Contents, Cut;
      if pstore == null {
        SendPacket(Respond(cmd, CST_ERROR, "Server Not Ready"));
      } else {
        var buff := new byte[cmd.length];
        var lenrd := pstore.Read(cmd.source, buff, cmd.length, cmd.offset);
        if lenrd.None? {
          SendPacket(Respond(cmd, CST_ERROR, "Source Not Found"));
        } else {
          SendPacket(Respond(cmd, CST_SUCCESS, "Reading Suceeded").(length := lenrd.value, data := buff[..lenrd.value]));
        }
      }
    }

    method OnRecvCmdDelete(cmd: Cmd)
      requires Valid() && cmd.id == CMD_DELETE
      modifies this`sent, pstore
      ensures Valid() && pstore == old(pstore)
      ensures pstore == null ==> sent == old(sent) + [Respond(cmd, CST_ERROR, "Server Not Ready")]
      ensures pstore != null ==>
                && pstore.Repr == old(Footprint())
                && sent == old(sent) + [Answer(old(pstore.Contents()), cmd)]
                && pstore.Contents() == After(old(pstore.Contents()), cmd)
    {
      hide MemStreamPacketMap.Valid, MemStreamPacketMap.Contents;
      if pstore == null {
        SendPacket(Respond(cmd, CST_ERROR, "Server Not Ready"));
      } else {
        ghost var before := pstore.Contents();
        var erased := pstore.Delete(cmd.source);
        if erased.None? {
          assert before - {cmd.source} == before;
          SendPacket(Respond(cmd, CST_ERROR, "Source Not Found"));
        } else {
          SendPacket(Respond(cmd, CST_SUCCESS, "Deletion Suceeded"));
        }
      }
    }

    method OnRecvCmdLength(cmd: Cmd)
      requires Valid() && cmd.id == CMD_LENGTH
      modifies this`sent
      ensures Valid() && pstore == old(pstore)
      ensures pstore == null ==> sent == old(sent) + [Respond(cmd, CST_ERROR, "Server Not Ready")]
      ensures pstore != null ==>
                && sent == old(sent) + [Answer(old(pstore.Contents()), cmd)]
                && pstore.Contents() == After(old(pstore.Contents()), cmd)
    {
      hide MemStreamPacketMap.Valid, MemStreamPacketMap.Contents;
      if pstore == null {
        SendPacket(Respond(cmd, CST_ERROR, "Server Not Ready"));
      } else {
        var len := pstore.Len(cmd.source);
        if len.None? {
          SendPacket(Respond(cmd, CST_ERROR, "Source Not Found"));
        } else {
          SendPacket(Respond(cmd, CST_SUCCESS, "Length got successfully").(length := len.value));
        }
      }
    }

    /** Parsing is refused without a store. */
    method DecodePacket(parsed: Option<seq<Cmd>>) returns (cmds: Option<seq<Cmd>>)
      ensures cmds == if pstore == null then None else parsed
    {
      cmds := None;
      if pstore != null {
        cmds := parsed;
      }
    }

    /** The switch over the command: what is not recognised is dropped without a response. */
    method Dispatch(cmd: Cmd)
      requires Valid() && pstore != null
      modifies this`sent, Footprint()
      ensures Valid() && pstore == old(pstore) && pstore != null
      ensures fresh(pstore.Repr - old(pstore.Repr))
      ensures sent == old(sent) + if Recognised(cmd) then [Answer(old(pstore.Contents()), cmd)] else []
      ensures pstore.Contents() == After(old(pstore.Contents()), cmd)
    {
      hide MemStreamPacketMap.Valid, MemStreamPacketMap.Contents, Answer;
      assert sent + [] == sent;
      match cmd.id
      case CMD_WRITE => OnRecvCmdWrite(cmd);
      case CMD_READ => OnRecvCmdRead(cmd);
      case CMD_DELETE => OnRecvCmdDelete(cmd);
      case CMD_LENGTH => OnRecvCmdLength(cmd);
      case CMD_NA =>
    }

    /** A packet's commands are carried out in order; one that does not parse is an error and nothing else. */
    method OnRecvPacket(parsed: Option<seq<Cmd>>)
      requires Valid()
      modifies this`sent, this`parseErrors, Footprint()
      ensures Valid() && pstore == old(pstore)
      ensures pstore == null || parsed.None? ==>
                sent == old(sent) && parseErrors == old(parseErrors) + 1
      ensures pstore != null && parsed.None? ==> pstore.Contents() == old(pstore.Contents())
      ensures pstore != null && parsed.Some? ==>
                && parseErrors == old(parseErrors)
                && fresh(pstore.Repr - old(pstore.Repr))
                && sent == old(sent) + Answers(old(pstore.Contents()), parsed.value)
                && pstore.Contents() == Replay(old(pstore.Contents()), parsed.value)
    {
      hide MemStreamPacketMap.Valid, MemStreamPacketMap.Contents, Answer, After, Answers, Replay;
      var decoded := DecodePacket(parsed);
      if decoded.None? {
        parseErrors := parseErrors + 1;
      } else {
        var cmds := decoded.value;
        ghost var store, was := pstore.Contents(), sent;
        NothingReplayed(store, cmds, was);
        for k := 0 to |cmds|
          invariant Valid() && pstore == old(pstore) && pstore != null && parseErrors == old(parseErrors)
          invariant fresh(pstore.Repr - old(pstore.Repr))
          invariant pstore.Contents() == Replay(store, cmds[..k])
          invariant sent == was + Answers(store, cmds[..k])
        {
          ReplayOneMore(store, cmds, k);
          ghost var step := if Recognised(cmds[k]) then [Answer(Replay(store, cmds[..k]), cmds[k])] else [];
          assert (was + Answers(store, cmds[..k])) + step == was + (Answers(store, cmds[..k]) + step);
          Dispatch(cmds[k]);
        }
        assert cmds[..|cmds|] == cmds;
      }
    }

    lemma NothingReplayed(store: Store, cmds: seq<Cmd>, was: seq<Response>)
      ensures Replay(store, cmds[..0]) == store && was + Answers(store, cmds[..0]) == was
    {
    }
  }
}
