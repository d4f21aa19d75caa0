/**
 The client's side of the windowed map download of protocol 0.7: reliable chunks ("vitals") are
 accepted one by one in sequence, map bytes are collected, and one request is made per window.
 */
module Download {
  import opened Wire
  import opened ChunkCodec
  import opened Scanners

  const SPLIT: Split := 6
  const MSG_MAP_DATA := 3
  const MSG_REQUEST_MAP_DATA := 23

  /** What the download changes: the session's two counters, the collected bytes and the requests sent. */
  datatype Client = Client(
    ack: int, sequence: int, data: seq<byte>, chunkCount: nat, curReq: seq<byte>, sent: seq<seq<byte>>)

  /** The announced number of chunks per request (at least one) and the announced map size. */
  datatype Plan = Plan(perReq: nat, size: int)

  function RequestBytes(seqNo: int): seq<byte> {
    Wrap(Msg(true, false, seqNo, PackMsg(MSG_REQUEST_MAP_DATA, true, [])), SPLIT)
  }

  function NextSeq(sequence: int): int {
    (sequence + 1) % MAX_SEQUENCE
  }

  function SendRequest(c: Client): Client {
    c.(sent := c.sent + [c.curReq])
  }

  /** A new window is a new vital with a fresh number. */
  function NewRequest(c: Client): Client {
    SendRequest(c.(sequence := NextSeq(c.sequence), curReq := RequestBytes(NextSeq(c.sequence))))
  }

  predicate IsMapData(payload: seq<byte>) {
    payload != [] && Matches(FirstByteId(payload[0]), MSG_MAP_DATA, true)
  }

  lemma MapDataNotEmpty(payload: seq<byte>)
    ensures IsMapData(payload) ==> payload != []
  {
  }

  predicate Expected(c: Client, ch: Chunk) {
    ch.header.vital && ch.header.seqNo == (c.ack + 1) % MAX_SEQUENCE
  }

  /** What an accepted payload does. */
  function Take(c: Client, payload: seq<byte>, plan: Plan): Client
    requires plan.perReq > 0
  {
    if !IsMapData(payload) then c
    else
      var c' := c.(data := c.data + payload[1..], chunkCount := c.chunkCount + 1);
      if c'.chunkCount % plan.perReq == 0 && |c'.data| < plan.size then NewRequest(c') else c'
  }

  function HandleChunk(c: Client, ch: Chunk, plan: Plan): Client
    requires plan.perReq > 0
  {
    if Expected(c, ch) then Take(c.(ack := ch.header.seqNo), ch.data, plan) else c
  }

  function HandleChunks(c: Client, cs: seq<Chunk>, plan: Plan): Client
    requires plan.perReq > 0
    decreases |cs|
  {
    if cs == [] then c else HandleChunks(HandleChunk(c, cs[0], plan), cs[1..], plan)
  }

  /** Some vital was not the next expected one when its turn came. */
  predicate Mismatch(c: Client, cs: seq<Chunk>, plan: Plan)
    requires plan.perReq > 0
    decreases |cs|
  {
    cs != [] &&
    ((cs[0].header.vital && !Expected(c, cs[0])) || Mismatch(HandleChunk(c, cs[0], plan), cs[1..], plan))
  }

  /** The k-th chunk is no vital, or the next expected one after those before it. */
  predicate InTurn(c: Client, cs: seq<Chunk>, k: nat, plan: Plan)
    requires plan.perReq > 0 && k < |cs|
  {
    cs[k].header.vital ==> Expected(HandleChunks(c, cs[..k], plan), cs[k])
  }

  /** A packet is without mismatch exactly when all its vitals come in turn. */
  lemma {:induction false} MismatchIff(c: Client, cs: seq<Chunk>, plan: Plan)
    requires plan.perReq > 0
    ensures !Mismatch(c, cs, plan) <==> forall k :: 0 <= k < |cs| ==> InTurn(c, cs, k, plan)
    decreases |cs|
  {
    hide HandleChunk, Expected;
    if cs != [] {
      var c' := HandleChunk(c, cs[0], plan);
      MismatchIff(c', cs[1..], plan);
      assert cs[..0] == [];
      assert InTurn(c, cs, 0, plan) <==> (cs[0].header.vital ==> Expected(c, cs[0]));
      forall k | 0 < k < |cs| ensures InTurn(c, cs, k, plan) <==> InTurn(c', cs[1..], k - 1, plan) {
        assert cs[..k][1..] == cs[1..][..k - 1] && cs[..k][0] == cs[0];
      }
      if forall k :: 0 <= k < |cs| ==> InTurn(c, cs, k, plan) {
        forall j | 0 <= j < |cs[1..]| ensures InTurn(c', cs[1..], j, plan) {
          assert InTurn(c, cs, j + 1, plan);
        }
      }
    }
  }

  /** One turn of the download loop: perhaps the request again, then perhaps a packet. */
  datatype Turn = Turn(resend: bool, packet: Option<seq<byte>>)

  function HandleTurn(c: Client, t: Turn, plan: Plan): Client
    requires plan.perReq > 0
  {
    var c' := if t.resend then SendRequest(c) else c;
    match t.packet
    case None => c'
    case Some(payload) => HandleChunks(c', SplitChunks(payload, SPLIT), plan)
  }

  function HandleTurns(c: Client, ts: seq<Turn>, plan: Plan): Client
    requires plan.perReq > 0
  {
    if ts == [] then c else HandleTurn(HandleTurns(c, ts[..|ts| - 1], plan), ts[|ts| - 1], plan)
  }

  /** The session fields the download works on. */
  class Session {
    var ack: int
    var sequence: int
    var data: seq<byte>
    var chunkCount: nat
    var curReq: seq<byte>
    var sent: seq<seq<byte>>

    ghost function Abs(): Client
      reads this
    {
      Client(ack, sequence, data, chunkCount, curReq, sent)
    }

    constructor (ack: int, sequence: int)
      ensures Abs() == Client(ack, sequence, [], 0, [], [])
    {
      this.ack, this.sequence, data, chunkCount, curReq, sent := ack, sequence, [], 0, [], [];
    }

    method SendReq()
      modifies this
      ensures Abs() == SendRequest(old(Abs()))
    {
      sent := sent + [curReq];
    }

    method NewReq()
      modifies this
      ensures Abs() == NewRequest(old(Abs()))
    {
      sequence := (sequence + 1) % MAX_SEQUENCE;
      curReq := RequestBytes(sequence);
      SendReq();
    }

    /** The body of the loop for one received packet. Reports whether a vital came out of order. */
    method HandlePacket(payload: seq<byte>, plan: Plan) returns (sawMismatch: bool)
      requires plan.perReq > 0
      modifies this
      ensures Abs() == HandleChunks(old(Abs()), SplitChunks(payload, SPLIT), plan)
      ensures sawMismatch == Mismatch(old(Abs()), SplitChunks(payload, SPLIT), plan)
    {
      hide HandleChunk, Expected;
      sawMismatch := false;
      var chunks := UnpackChunks(payload, SPLIT);
      ghost var start := Abs();
      assert chunks[0..] == chunks;
      for i := 0 to |chunks|
        invariant HandleChunks(start, chunks, plan) == HandleChunks(Abs(), chunks[i..], plan)
        invariant Mismatch(start, chunks, plan) == (sawMismatch || Mismatch(Abs(), chunks[i..], plan))
      {
        var ch := chunks[i];
        assert chunks[i..][0] == ch && chunks[i..][1..] == chunks[i + 1..];
        var mismatch := HandleOne(ch, plan);
        sawMismatch := sawMismatch || mismatch;
      }
    }

    method HandleOne(ch: Chunk, plan: Plan) returns (mismatch: bool)
      requires plan.perReq > 0
      modifies this
      ensures Abs() == HandleChunk(old(Abs()), ch, plan)
      ensures mismatch == (ch.header.vital && !Expected(old(Abs()), ch))
    {
      hide IsMapData, NewRequest;
      mismatch := false;
      if !ch.header.vital {
        return;
      }
      if ch.header.seqNo != (ack + 1) % MAX_SEQUENCE {
        return true;
      }
      ack := ch.header.seqNo;
      if !IsMapData(ch.data) {
        return;
      }
      assert ch.data != [] by {
        MapDataNotEmpty(ch.data);
      }
      data := data + ch.data[1..];
      chunkCount := chunkCount + 1;
      if chunkCount % plan.perReq == 0 && |data| < plan.size {
        NewReq();
      }
    }

    /**
     The download loop over the turns that time and the network bring. It stops when enough bytes
     have come, when the turns are used up (the connection is given up), or at the backstop.
     */
    method Drain(turns: seq<Turn>, plan: Plan) returns (used: nat)
      requires plan.perReq > 0 && data == [] && chunkCount == 0
      modifies this
      ensures used <= |turns| && Abs() == HandleTurns(NewRequest(old(Abs())), turns[..used], plan)
      ensures |data| >= plan.size || used == |turns| || used >= 2 * plan.size + 4096
    {
      NewReq();
      ghost var start := Abs();
      var safety := 2 * plan.size + 4096;
      used := 0;
      while |data| < plan.size && safety > 0 && used < |turns|
        invariant used <= |turns| && safety == 2 * plan.size + 4096 - used
        invariant Abs() == HandleTurns(start, turns[..used], plan)
        decreases safety
      {
        hide HandleChunks, NewRequest;
        safety := safety - 1;
        var turn := turns[used];
        assert turns[..used + 1][..used] == turns[..used];
        if turn.resend {
          SendReq();
        }
        used := used + 1;
        if turn.packet.Some? {
          var _ := HandlePacket(turn.packet.value, plan);
        }
      }
    }
  }
}
