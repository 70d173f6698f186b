/**
 Remote commands, the answer each gets from a store, and what a history of commands leaves in it.
 A command and its response are the records that travel as JSON.
 */
module RemoteCommands {
  import opened ByteNumbers
  import opened Blocks
  import opened PacketStore
  import Base64

  datatype CmdID = CMD_NA | CMD_LENGTH | CMD_WRITE | CMD_READ | CMD_DELETE

  datatype CmdStatus = CST_SUCCESS | CST_ERROR

  /** `content` is the text of the buffer, base64; `length` and `offset` are its number fields. */
  datatype Cmd = Cmd(id: CmdID, source: string, refID: string, content: seq<byte>, length: nat, offset: nat)

  datatype Response = Response(id: CmdID, source: string, refID: string, status: CmdStatus, message: string,
                               length: nat, data: seq<byte>)

  function Payload(cmd: Cmd): seq<byte> {
    Base64.DecodedBytes(cmd.content)
  }

  function Respond(cmd: Cmd, status: CmdStatus, message: string): Response {
    Response(cmd.id, cmd.source, cmd.refID, status, message, 0, [])
  }

  /** Commands that are dispatched to a handler; the others are dropped. */
  predicate Recognised(cmd: Cmd) {
    cmd.id != CMD_NA
  }

  /** The response to a command from a server that holds `store`. */
  function Answer(store: Store, cmd: Cmd): Response
    requires Recognised(cmd)
  {
    match cmd.id
    case CMD_WRITE => Respond(cmd, CST_SUCCESS, "Write Suceeded")
    case CMD_READ =>
      if cmd.source !in store then Respond(cmd, CST_ERROR, "Source Not Found")
      else
        var data := Cut(store[cmd.source], cmd.offset, cmd.length);
        Respond(cmd, CST_SUCCESS, "Reading Suceeded").(length := |data|, data := data)
    case CMD_DELETE =>
      if cmd.source !in store then Respond(cmd, CST_ERROR, "Source Not Found")
      else Respond(cmd, CST_SUCCESS, "Deletion Suceeded")
    case CMD_LENGTH =>
      if cmd.source !in store then Respond(cmd, CST_ERROR, "Source Not Found")
      else Respond(cmd, CST_SUCCESS, "Length got successfully").(length := |store[cmd.source]|)
  }

  /** What the command leaves of the store. */
  function After(store: Store, cmd: Cmd): Store {
    match cmd.id
    case CMD_WRITE => store[cmd.source := Held(store, cmd.source) + Payload(cmd)]
    case CMD_DELETE => store - {cmd.source}
    case _ => store
  }

  /** A run of commands, the last one last. */
  function Replay(store: Store, cmds: seq<Cmd>): Store {
    if |cmds| == 0 then store else After(Replay(store, cmds[..|cmds| - 1]), cmds[|cmds| - 1])
  }

  function Answers(store: Store, cmds: seq<Cmd>): seq<Response> {
    if |cmds| == 0 then []
    else
      var front, last := cmds[..|cmds| - 1], cmds[|cmds| - 1];
      Answers(store, front) + if Recognised(last) then [Answer(Replay(store, front), last)] else []
  }

  // ----- the room for a response's data -----

  /** The text buffer for the data of a response: the integer part of 4.0 * length / 3.0 + 2. */
  function ResponseRoom(length: nat): nat {
    4 * length / 3 + 2
  }

  /** The text of the data fits it unless one byte is left over from the groups of three; then it is one too long. */
  lemma ResponseFitsIff(data: seq<byte>)
    ensures |Base64.Rfc(data)| <= ResponseRoom(|data|) <==> |data| % 3 != 1
    ensures |data| % 3 == 1 ==> |Base64.Rfc(data)| == ResponseRoom(|data|) + 1
  {
    hide Base64.Rfc;
    Base64.RfcLength(data);
    var q, r := |data| / 3, |data| % 3;
    assert |data| == 3 * q + r;
    assert (|data| + 2) / 3 == q + if r == 0 then 0 else 1;
    assert 4 * |data| / 3 == 4 * q + if r == 2 then 2 else r;
  }

  /** A READ that yields a single byte is the smallest that does not fit. */
  lemma OneByteDoesNotFit(b: byte)
    ensures |Base64.Rfc([b])| == 4 && ResponseRoom(1) == 3
  {
    hide Base64.Rfc;
    ResponseFitsIff([b]);
  }

  // ----- runs -----

  lemma {:induction false} ReplayConcatenates(store: Store, a: seq<Cmd>, b: seq<Cmd>)
    ensures Replay(store, a + b) == Replay(Replay(store, a), b)
    ensures Answers(store, a + b) == Answers(store, a) + Answers(Replay(store, a), b)
  {
    hide After, Answer;
    if |b| == 0 {
      assert a + b == a;
    } else {
      var front := b[..|b| - 1];
      assert (a + b)[..|a + b| - 1] == a + front;
      ReplayConcatenates(store, a, front);
    }
  }

  lemma ReplayOneMore(store: Store, cmds: seq<Cmd>, k: nat)
    requires k < |cmds|
    ensures Replay(store, cmds[..k + 1]) == After(Replay(store, cmds[..k]), cmds[k])
    ensures Answers(store, cmds[..k + 1])
         == Answers(store, cmds[..k]) + if Recognised(cmds[k]) then [Answer(Replay(store, cmds[..k]), cmds[k])] else []
  {
    hide After, Answer;
    assert cmds[..k + 1][..k] == cmds[..k];
  }

  function Dispatched(cmds: seq<Cmd>): seq<Cmd> {
    if |cmds| == 0 then []
    else
      var front, last := cmds[..|cmds| - 1], cmds[|cmds| - 1];
      Dispatched(front) + if Recognised(last) then [last] else []
  }

  /** Every dispatched command gets exactly one response, in order, under its own reference. */
  lemma {:induction false} OneResponseEach(store: Store, cmds: seq<Cmd>)
    ensures |Answers(store, cmds)| == |Dispatched(cmds)|
    ensures forall i | 0 <= i < |Dispatched(cmds)| ::
              && Answers(store, cmds)[i].refID == Dispatched(cmds)[i].refID
              && Answers(store, cmds)[i].id == Dispatched(cmds)[i].id
              && Answers(store, cmds)[i].source == Dispatched(cmds)[i].source
  {
    hide Payload, After, Held, Cut;
    if |cmds| > 0 {
      OneResponseEach(store, cmds[..|cmds| - 1]);
    }
  }

  // ----- the history of a source -----

  predicate Deletes(cmd: Cmd, source: string) {
    cmd.id == CMD_DELETE && cmd.source == source
  }

  predicate Writes(cmd: Cmd, source: string) {
    cmd.id == CMD_WRITE && cmd.source == source
  }

  /** Where the history of a source starts over: behind the last command that deletes it. */
  function Restart(hist: seq<Cmd>, source: string): (r: nat)
    ensures r <= |hist|
    ensures r > 0 ==> Deletes(hist[r - 1], source)
    ensures forall i | r <= i < |hist| :: !Deletes(hist[i], source)
  {
    if |hist| == 0 then 0
    else if Deletes(hist[|hist| - 1], source) then |hist|
    else Restart(hist[..|hist| - 1], source)
  }

  /** The payloads written to a source by a stretch of commands, one behind the other. */
  function PayloadsOf(cmds: seq<Cmd>, source: string): seq<byte> {
    if |cmds| == 0 then []
    else (if Writes(cmds[0], source) then Payload(cmds[0]) else []) + PayloadsOf(cmds[1..], source)
  }

  ghost predicate WrittenSince(hist: seq<Cmd>, source: string, from: nat) {
    exists i :: from <= i < |hist| && Writes(hist[i], source)
  }

  lemma {:induction false} PayloadsConcatenate(a: seq<Cmd>, b: seq<Cmd>, source: string)
    ensures PayloadsOf(a + b, source) == PayloadsOf(a, source) + PayloadsOf(b, source)
  {
    hide Payload, Writes;
    if |a| == 0 {
      assert a + b == b;
    } else {
      assert (a + b)[1..] == a[1..] + b;
      PayloadsConcatenate(a[1..], b, source);
    }
  }

  lemma PayloadsOfOne(cmd: Cmd, source: string)
    ensures PayloadsOf([cmd], source) == if Writes(cmd, source) then Payload(cmd) else []
  {
    hide Payload, Writes;
    assert [cmd][1..] == [];
  }

  /** One command as one source sees it. */
  lemma AfterForSource(store: Store, cmd: Cmd, source: string)
    ensures var after := After(store, cmd);
            && (source in after <==> Writes(cmd, source) || (source in store && !Deletes(cmd, source)))
            && Held(after, source) == if Deletes(cmd, source) then [] else
                                      if Writes(cmd, source) then Held(store, source) + Payload(cmd) else Held(store, source)
  {
    hide Payload;
  }

  lemma WrittenOneMore(hist: seq<Cmd>, source: string, from: nat)
    requires from < |hist|
    ensures WrittenSince(hist, source, from)
       <==> WrittenSince(hist[..|hist| - 1], source, from) || Writes(hist[|hist| - 1], source)
  {
    hide Writes;
    var front := hist[..|hist| - 1];
    if WrittenSince(hist, source, from) && !Writes(hist[|hist| - 1], source) {
      var i :| from <= i < |hist| && Writes(hist[i], source);
      assert front[i] == hist[i];
    }
    if WrittenSince(front, source, from) {
      var i :| from <= i < |front| && Writes(front[i], source);
      assert front[i] == hist[i];
    }
  }

  /**
   * A store that has seen any history holds, for each source, the payloads written to it since it was last deleted;
   * and it holds the source exactly when there was such a write.
   */
  lemma {:induction false} StoreIsHistory(hist: seq<Cmd>, source: string)
    ensures var store, from := Replay(map[], hist), Restart(hist, source);
            && (source in store <==> WrittenSince(hist, source, from))
            && Held(store, source) == PayloadsOf(hist[from..], source)
  {
    hide Payload, Writes, Deletes, After, WrittenSince, PayloadsOf, Held;
    var from := Restart(hist, source);
    if |hist| == 0 {
      NothingWritten(hist, source);
      NothingHeld(source);
    } else {
      var front, last := hist[..|hist| - 1], hist[|hist| - 1];
      StoreIsHistory(front, source);
      AfterForSource(Replay(map[], front), last, source);
      if Deletes(last, source) {
        NothingWritten(hist, source);
        DeletesOnly(last, source);
      } else {
        WrittenOneMore(hist, source, from);
        assert hist[from..] == front[from..] + [last];
        PayloadsConcatenate(front[from..], [last], source);
        PayloadsOfOne(last, source);
      }
    }
  }

  lemma NothingHeld(source: string)
    ensures Held(map[], source) == []
  {
  }

  lemma NothingWritten(hist: seq<Cmd>, source: string)
    ensures !WrittenSince(hist, source, |hist|) && PayloadsOf(hist[|hist|..], source) == []
  {
  }

  lemma DeletesOnly(cmd: Cmd, source: string)
    requires Deletes(cmd, source)
    ensures !Writes(cmd, source)
  {
  }

  /** What that means for the next command: how it is answered depends on the writes since the last deletion only. */
  lemma AnswersFollowHistory(hist: seq<Cmd>, cmd: Cmd)
    requires cmd.id != CMD_NA
    ensures var from := Restart(hist, cmd.source);
            var written, known := PayloadsOf(hist[from..], cmd.source), WrittenSince(hist, cmd.source, from);
            var data := Cut(written, cmd.offset, cmd.length);
            Answer(Replay(map[], hist), cmd) ==
              if cmd.id == CMD_WRITE then
                Response(CMD_WRITE, cmd.source, cmd.refID, CST_SUCCESS, "Write Suceeded", 0, [])
              else if !known then
                Response(cmd.id, cmd.source, cmd.refID, CST_ERROR, "Source Not Found", 0, [])
              else if cmd.id == CMD_READ then
                Response(CMD_READ, cmd.source, cmd.refID, CST_SUCCESS, "Reading Suceeded", |data|, data)
              else if cmd.id == CMD_DELETE then
                Response(CMD_DELETE, cmd.source, cmd.refID, CST_SUCCESS, "Deletion Suceeded", 0, [])
              else
                Response(CMD_LENGTH, cmd.source, cmd.refID, CST_SUCCESS, "Length got successfully", |written|, [])
  {
    hide Replay, PayloadsOf, WrittenSince, Cut, Restart;
    StoreIsHistory(hist, cmd.source);
  }

  // ----- commands as a client makes them -----

  /** What is written encoded is read back: the bytes of one WRITE, whatever the source held before. */
  lemma WrittenIsRead(store: Store, source: string, data: seq<byte>, write: Cmd, read: Cmd)
    requires write.id == CMD_WRITE && write.source == source && write.content == Base64.Rfc(data)
    requires read.id == CMD_READ && read.source == source && read.length == |data|
    requires read.offset == if source in store then |store[source]| else 0
    ensures Replay(store, [write, read])
         == store[source := (if source in store then store[source] else []) + data]
    ensures Answers(store, [write, read])
         == [Response(CMD_WRITE, source, write.refID, CST_SUCCESS, "Write Suceeded", 0, []),
             Response(CMD_READ, source, read.refID, CST_SUCCESS, "Reading Suceeded", |data|, data)]
  {
    hide Base64.Rfc, Base64.Decode, Cut, After, Answer, Replay, Answers;
    var held := if source in store then store[source] else [];
    Base64.DecodedBytesOfRfc(data);
    AfterWrite(store, write);
    TailIsRead(held, data);
    AnswerRead(After(store, write), read);
    TwoCommands(store, write, read);
  }

  /** A WRITE of any text: what it decodes to is appended, although the decoder may have refused the text. */
  lemma AfterWrite(store: Store, cmd: Cmd)
    requires cmd.id == CMD_WRITE
    ensures var held := if cmd.source in store then store[cmd.source] else [];
            After(store, cmd) == store[cmd.source := held + Base64.DecodedBytes(cmd.content)]
    ensures Answer(store, cmd) == Response(CMD_WRITE, cmd.source, cmd.refID, CST_SUCCESS, "Write Suceeded", 0, [])
  {
    hide Base64.DecodedBytes;
  }

  lemma AnswerRead(store: Store, cmd: Cmd)
    requires cmd.id == CMD_READ && cmd.source in store
    ensures After(store, cmd) == store
    ensures var data := Cut(store[cmd.source], cmd.offset, cmd.length);
            Answer(store, cmd) == Response(CMD_READ, cmd.source, cmd.refID, CST_SUCCESS, "Reading Suceeded", |data|, data)
  {
    hide Cut;
  }

  lemma TailIsRead(held: seq<byte>, data: seq<byte>)
    ensures Cut(held + data, |held|, |data|) == data
  {
  }

  lemma TwoCommands(store: Store, a: Cmd, b: Cmd)
    requires Recognised(a) && Recognised(b)
    ensures Replay(store, [a, b]) == After(After(store, a), b)
    ensures Answers(store, [a, b]) == [Answer(store, a), Answer(After(store, a), b)]
  {
    hide After, Answer;
    assert [a, b][..1] == [a];
    assert [a][..0] == [];
    assert Replay(store, [a]) == After(store, a);
    assert Answers(store, [a]) == [Answer(store, a)];
  }

  /** The bytes a client sends to a source: `data[i]` is what it encodes into its command i. */
  function Sent(cmds: seq<Cmd>, data: seq<seq<byte>>, source: string): seq<byte>
    requires |cmds| == |data|
  {
    if |cmds| == 0 then []
    else (if cmds[0].id == CMD_WRITE && cmds[0].source == source then data[0] else []) + Sent(cmds[1..], data[1..], source)
  }

  predicate Encodes(cmds: seq<Cmd>, data: seq<seq<byte>>) {
    && |cmds| == |data|
    && forall i | 0 <= i < |cmds| :: cmds[i].id == CMD_WRITE ==> cmds[i].content == Base64.Rfc(data[i])
  }

  lemma {:induction false} SentArrives(cmds: seq<Cmd>, data: seq<seq<byte>>, source: string)
    requires Encodes(cmds, data)
    ensures PayloadsOf(cmds, source) == Sent(cmds, data, source)
  {
    hide Base64.Rfc, Base64.Decode;
    if |cmds| > 0 {
      SentArrives(cmds[1..], data[1..], source);
      Base64.DecodedBytesOfRfc(data[0]);
    }
  }

  /**
   After any history whose WRITEs carry encoded bytes, a source is known exactly when it was written to since it was
   last deleted, and holds just the bytes encoded in those commands.
   */
  lemma StoreIsWhatWasSent(hist: seq<Cmd>, data: seq<seq<byte>>, source: string)
    requires Encodes(hist, data)
    ensures var store, from := Replay(map[], hist), Restart(hist, source);
            && (source in store <==>
                  exists i :: from <= i < |hist| && hist[i].id == CMD_WRITE && hist[i].source == source)
            && (source in store ==> store[source] == Sent(hist[from..], data[from..], source))
  {
    hide Base64.Rfc, Payload, PayloadsOf, Sent, Replay, Restart;
    var from := Restart(hist, source);
    StoreIsHistory(hist, source);
    SentArrives(hist[from..], data[from..], source);
  }
}
