/**
 The download as a distributed protocol. A server queues vitals and answers requests in order; the
 network may lose, duplicate, reorder and repack whatever was ever sent; the client handles packets
 as `Download` says and repeats its request when time passes.
 */
module DownloadProtocol {
  import opened Wire
  import opened ChunkCodec
  import opened Scanners
  import opened Download

  /**
   The client, and what an observer knows: how many vitals the client has accepted since the connection
   began (`base` of them before the download), every vital the server has queued, how many requests
   the client has made since the number `seq0`, how many of them the server has handled, the map bytes it has
   answered with, and how many other vitals it has queued that the client takes for map data.
   */
  datatype World = World(
    client: Client, accepted: nat, base: nat, vitals: seq<seq<byte>>, minted: nat, seq0: int, handled: nat,
    answered: seq<byte>, strays: nat)

  // ---------- what the server sent, as map bytes

  function MapPart(payload: seq<byte>): seq<byte> {
    if IsMapData(payload) then payload[1..] else []
  }

  /**
   A map message is taken for what it is and gives its body. Messages whose id agrees with that of map data
   modulo 32 are taken for it, too, and more than their body is.
   */
  lemma MapPartIs(id: nat, system: bool, body: seq<byte>)
    requires 2 * id + 1 <= MAX_INT32
    ensures IsMapData(PackMsg(id, system, body)) <==> system && id % 32 == MSG_MAP_DATA
    ensures MapPart(PackMsg(MSG_MAP_DATA, true, body)) == body
    ensures MapPart(PackMsg(35, true, body)) == [1] + body
  {
    hide FirstByteId, Matches;
    OneByteIds(id, system, body, MSG_MAP_DATA, true);
    OneByteIds(MSG_MAP_DATA, true, body, MSG_MAP_DATA, true);
    OneByteIds(35, true, body, MSG_MAP_DATA, true);
    assert Varint.PackInt(7) == [7] && Varint.PackInt(71) == [0x87, 1];
  }

  function MapBytes(ps: seq<seq<byte>>): seq<byte> {
    if ps == [] then [] else MapBytes(ps[..|ps| - 1]) + MapPart(ps[|ps| - 1])
  }

  function MapCount(ps: seq<seq<byte>>): nat {
    if ps == [] then 0 else MapCount(ps[..|ps| - 1]) + if IsMapData(ps[|ps| - 1]) then 1 else 0
  }

  /** How many map chunks came before the collected bytes were enough, the one that made them enough not counted. */
  function ShortCount(ps: seq<seq<byte>>, size: int): nat {
    if ps == [] then 0
    else
      ShortCount(ps[..|ps| - 1], size)
      + if IsMapData(ps[|ps| - 1]) && |MapBytes(ps)| < size then 1 else 0
  }

  /** As long as the bytes are not enough, that is all of them. */
  lemma {:induction false} ShortIsAll(ps: seq<seq<byte>>, size: int)
    ensures ShortCount(ps, size) <= MapCount(ps)
    ensures |MapBytes(ps)| < size ==> ShortCount(ps, size) == MapCount(ps)
  {
    hide IsMapData, MapPart;
    if ps != [] {
      ShortIsAll(ps[..|ps| - 1], size);
    }
  }

  lemma {:induction false} MapJoin(a: seq<seq<byte>>, b: seq<seq<byte>>)
    ensures MapBytes(a + b) == MapBytes(a) + MapBytes(b) && MapCount(a + b) == MapCount(a) + MapCount(b)
  {
    hide IsMapData, MapPart;
    if b == [] {
      assert a + b == a;
    } else {
      MapJoin(a, b[..|b| - 1]);
      assert (a + b)[..|a + b| - 1] == a + b[..|b| - 1];
    }
  }

  // ---------- what the network may deliver

  /** The i-th vital (counting from the start of the connection), or a chunk without sequence number. */
  datatype Piece = Vital(i: nat, resend: bool) | Plain(data: seq<byte>)

  predicate Fitting(payload: seq<byte>) {
    1 <= |payload| < SizeLimit(SPLIT)
  }

  predicate Deliverable(pieces: seq<Piece>, vitals: seq<seq<byte>>) {
    forall k :: 0 <= k < |pieces| ==>
      match pieces[k]
      case Vital(i, _) => i < |vitals| && Fitting(vitals[i])
      case Plain(data) => Fitting(data)
  }

  function MsgOf(p: Piece, vitals: seq<seq<byte>>): Msg
    requires p.Vital? ==> p.i < |vitals|
  {
    match p
    case Vital(i, resend) => Msg(true, resend, (i + 1) % MAX_SEQUENCE, vitals[i])
    case Plain(data) => Msg(false, false, 0, data)
  }

  function MsgsOf(pieces: seq<Piece>, vitals: seq<seq<byte>>): seq<Msg>
    requires Deliverable(pieces, vitals)
  {
    seq(|pieces|, k requires 0 <= k < |pieces| => MsgOf(pieces[k], vitals))
  }

  function AcceptedAfter(pieces: seq<Piece>, accepted: nat): nat {
    if pieces == [] then accepted
    else AcceptedAfter(pieces[1..], if pieces[0].Vital? && pieces[0].i == accepted then accepted + 1 else accepted)
  }

  /** No vital arrives whose number agrees modulo 1024 with the next expected one without being it. */
  predicate NoAlias(pieces: seq<Piece>, accepted: nat) {
    pieces != [] ==>
      && (pieces[0].Vital? && pieces[0].i % MAX_SEQUENCE == accepted % MAX_SEQUENCE ==> pieces[0].i == accepted)
      && NoAlias(pieces[1..], if pieces[0].Vital? && pieces[0].i == accepted then accepted + 1 else accepted)
  }

  /** Each vital is less than 1024 positions away from the one that is expected at its moment. */
  predicate Near(pieces: seq<Piece>, accepted: nat) {
    pieces != [] ==>
      && (pieces[0].Vital? ==> accepted < pieces[0].i + MAX_SEQUENCE && pieces[0].i < accepted + MAX_SEQUENCE)
      && Near(pieces[1..], if pieces[0].Vital? && pieces[0].i == accepted then accepted + 1 else accepted)
  }

  /** That is enough, and the bound is sharp: at a distance of 1024 the numbers agree. */
  lemma {:induction false} WindowHasNoAlias(pieces: seq<Piece>, accepted: nat)
    ensures Near(pieces, accepted) ==> NoAlias(pieces, accepted)
    ensures !NoAlias([Vital(accepted + MAX_SEQUENCE, false)], accepted)
    decreases |pieces|
  {
    assert [Vital(accepted + MAX_SEQUENCE, false)][0].i % MAX_SEQUENCE == accepted % MAX_SEQUENCE;
    if pieces != [] {
      if pieces[0].Vital? && Near(pieces, accepted) {
        SameResidue(pieces[0].i, accepted);
      }
      WindowHasNoAlias(pieces[1..], if pieces[0].Vital? && pieces[0].i == accepted then accepted + 1 else accepted);
    }
  }

  lemma SameResidue(i: nat, j: nat)
    requires i < j + MAX_SEQUENCE && j < i + MAX_SEQUENCE
    ensures i % MAX_SEQUENCE == j % MAX_SEQUENCE <==> i == j
  {
  }

  // ---------- steps

  datatype Step =
    | Queue(payload: seq<byte>)          // the server queues some other vital
    | Answer(bodies: seq<seq<byte>>)     // the server handles the next request
    | Deliver(pieces: seq<Piece>)        // a packet reaches the client
    | Repeat                             // the client sends its current request again

  function MapMessages(bodies: seq<seq<byte>>): seq<seq<byte>> {
    seq(|bodies|, k requires 0 <= k < |bodies| => PackMsg(MSG_MAP_DATA, true, bodies[k]))
  }

  function Concat(bodies: seq<seq<byte>>): seq<byte> {
    if bodies == [] then [] else Concat(bodies[..|bodies| - 1]) + bodies[|bodies| - 1]
  }

  /** What the client takes from the messages of an answer is their bodies. */
  lemma {:induction false} AnswerIsBodies(bodies: seq<seq<byte>>)
    ensures MapBytes(MapMessages(bodies)) == Concat(bodies)
  {
    hide MapPart, PackMsg;
    if bodies != [] {
      var n := |bodies| - 1;
      AnswerIsBodies(bodies[..n]);
      assert MapMessages(bodies)[..n] == MapMessages(bodies[..n]);
      MapPartIs(MSG_MAP_DATA, true, bodies[n]);
    }
  }

  predicate Enabled(w: World, s: Step, plan: Plan) {
    match s
    case Queue(payload) => Fitting(payload)
    case Answer(bodies) =>
      && w.handled < w.minted && |bodies| <= plan.perReq
      && forall k :: 0 <= k < |bodies| ==> Fitting(MapMessages(bodies)[k])
    case Deliver(pieces) => Deliverable(pieces, w.vitals) && NoAlias(pieces, w.accepted)
    case Repeat => true
  }

  /** The packet is handled as bytes; the observer's counts follow. */
  function DeliverTo(w: World, pieces: seq<Piece>, plan: Plan): World
    requires plan.perReq > 0 && Deliverable(pieces, w.vitals)
  {
    var payload := WrapAll(MsgsOf(pieces, w.vitals), SPLIT);
    var client := HandleTurn(w.client, Turn(false, Some(payload)), plan);
    w.(client := client, accepted := AcceptedAfter(pieces, w.accepted),
       minted := w.minted + NewRequests(w.client, SplitChunks(payload, SPLIT), plan))
  }

  /** How many fresh requests handling the chunks makes. */
  function NewRequests(c: Client, cs: seq<Chunk>, plan: Plan): nat
    requires plan.perReq > 0
    decreases |cs|
  {
    if cs == [] then 0
    else
      var c' := HandleChunk(c, cs[0], plan);
      |c'.sent| - |c.sent| + NewRequests(c', cs[1..], plan)
  }

  function Perform(w: World, s: Step, plan: Plan): World
    requires plan.perReq > 0 && Enabled(w, s, plan)
  {
    match s
    case Queue(payload) => w.(vitals := w.vitals + [payload], strays := w.strays + MapCount([payload]))
    case Answer(bodies) =>
      w.(vitals := w.vitals + MapMessages(bodies), handled := w.handled + 1, answered := w.answered + Concat(bodies))
    case Deliver(pieces) => DeliverTo(w, pieces, plan)
    case Repeat => w.(client := HandleTurn(w.client, Turn(true, None), plan))
  }

  /** The download begins after `base` accepted vitals, with the first request made. */
  predicate Begins(w: World) {
    && w.accepted == w.base == |w.vitals| && w.minted == 1 && w.handled == 0 && w.answered == [] && w.strays == 0
    && 0 <= w.seq0 < MAX_SEQUENCE
    && (forall i :: 0 <= i < |w.vitals| ==> Fitting(w.vitals[i]))
    && w.client == NewRequest(Client(w.base % MAX_SEQUENCE, w.seq0, [], 0, [], []))
  }

  /** A run: every step was enabled where it was taken. */
  ghost predicate IsRun(ws: seq<World>, ss: seq<Step>, plan: Plan)
    requires plan.perReq > 0
  {
    && |ws| == |ss| + 1 && Begins(ws[0])
    && forall k :: 0 <= k < |ss| ==> Enabled(ws[k], ss[k], plan) && ws[k + 1] == Perform(ws[k], ss[k], plan)
  }

  // ---------- the invariant

  /** The n-th request counted from seq0, as it goes over the wire. */
  function Request(seq0: int, n: nat): seq<byte> {
    RequestBytes((seq0 + n) % MAX_SEQUENCE)
  }

  /** What was sent is request 1, perhaps repeated, then request 2, and so on up to request n, without a gap. */
  predicate Contiguous(sent: seq<seq<byte>>, seq0: int, n: nat)
    decreases |sent|
  {
    && sent != [] && n > 0 && sent[|sent| - 1] == Request(seq0, n)
    && if |sent| == 1 then n == 1
       else Contiguous(sent[..|sent| - 1], seq0, n) || Contiguous(sent[..|sent| - 1], seq0, n - 1)
  }

  predicate ClientInv(c: Client, accepted: nat, base: nat, vitals: seq<seq<byte>>, minted: nat, seq0: int, plan: Plan)
    requires plan.perReq > 0
  {
    && base <= accepted <= |vitals|
    && c.ack == accepted % MAX_SEQUENCE
    && c.data == MapBytes(vitals[base..accepted]) && c.chunkCount == MapCount(vitals[base..accepted])
    && c.sequence == (seq0 + minted) % MAX_SEQUENCE && c.curReq == Request(seq0, minted)
    && Contiguous(c.sent, seq0, minted)
    && minted == 1 + ShortCount(vitals[base..accepted], plan.size) / plan.perReq
  }

  /** What the server has sent are answers to requests, and strays. */
  predicate Tallies(sent: seq<seq<byte>>, perReq: nat, handled: nat, answered: seq<byte>, strays: nat) {
    && MapCount(sent) <= perReq * handled + strays
    && (strays == 0 ==> MapBytes(sent) == answered)
  }

  predicate Inv(w: World, plan: Plan)
    requires plan.perReq > 0
  {
    && ClientInv(w.client, w.accepted, w.base, w.vitals, w.minted, w.seq0, plan)
    && w.handled <= w.minted
    && Tallies(w.vitals[w.base..], plan.perReq, w.handled, w.answered, w.strays)
    && forall i :: 0 <= i < |w.vitals| ==> Fitting(w.vitals[i])
  }

  lemma MintMore(c: Client, seq0: int, minted: nat)
    requires c.sequence == (seq0 + minted) % MAX_SEQUENCE && Contiguous(c.sent, seq0, minted)
    ensures var c' := NewRequest(c);
      c'.sequence == (seq0 + minted + 1) % MAX_SEQUENCE && c'.curReq == Request(seq0, minted + 1)
      && Contiguous(c'.sent, seq0, minted + 1)
  {
    hide RequestBytes;
    var c' := NewRequest(c);
    assert c'.sent[..|c'.sent| - 1] == c.sent;
  }

  lemma NextMultiple(n: nat, k: nat)
    requires k > 0
    ensures (n + 1) / k == n / k + if (n + 1) % k == 0 then 1 else 0
  {
    var q, r := (n + 1) / k, (n + 1) % k;
    assert n + 1 == k * q + r;
    if r == 0 {
      assert n == k * (q - 1) + (k - 1);
      Quotient(n, k, q - 1, k - 1);
    } else {
      Quotient(n, k, q, r - 1);
    }
  }

  lemma Quotient(n: int, k: int, q: int, r: int)
    requires k > 0 && 0 <= r < k && n == k * q + r
    ensures n / k == q
  {
    var d, e := n / k, n % k;
    assert n == k * d + e && 0 <= e < k;
    assert k * (d - q) == r - e;
    if d - q >= 1 {
      Positive(k, d - q);
    } else if d - q <= -1 {
      Positive(k, q - d);
    }
  }

  lemma Positive(k: int, m: int)
    requires k > 0 && m >= 1
    ensures k * m >= k
  {
  }

  lemma {:induction false} QuotientGrows(n: nat, m: nat, k: nat)
    requires k > 0 && n <= m
    ensures n / k <= m / k
    decreases m
  {
    if n < m {
      QuotientGrows(n, m - 1, k);
      NextMultiple(m - 1, k);
    }
  }

  // ---------- one accepted vital

  lemma TakeOne(vitals: seq<seq<byte>>, base: nat, accepted: nat, size: int)
    requires base <= accepted < |vitals|
    ensures MapBytes(vitals[base..accepted + 1]) == MapBytes(vitals[base..accepted]) + MapPart(vitals[accepted])
    ensures MapCount(vitals[base..accepted + 1])
      == MapCount(vitals[base..accepted]) + if IsMapData(vitals[accepted]) then 1 else 0
    ensures ShortCount(vitals[base..accepted + 1], size) == ShortCount(vitals[base..accepted], size)
      + if IsMapData(vitals[accepted]) && |MapBytes(vitals[base..accepted + 1])| < size then 1 else 0
  {
    var ps := vitals[base..accepted + 1];
    assert ps[..|ps| - 1] == vitals[base..accepted] && ps[|ps| - 1] == vitals[accepted];
  }

  lemma TakeKeeps(c: Client, accepted: nat, base: nat, vitals: seq<seq<byte>>, minted: nat, seq0: int, plan: Plan)
    requires plan.perReq > 0 && accepted < |vitals| && ClientInv(c, accepted, base, vitals, minted, seq0, plan)
    ensures var c' := Take(c.(ack := (accepted + 1) % MAX_SEQUENCE), vitals[accepted], plan);
      |c'.sent| >= |c.sent| && ClientInv(c', accepted + 1, base, vitals, minted + |c'.sent| - |c.sent|, seq0, plan)
  {
    hide RequestBytes, IsMapData, Contiguous, MapBytes, MapCount, ShortCount;
    TakeOne(vitals, base, accepted, plan.size);
    ShortIsAll(vitals[base..accepted], plan.size);
    NextMultiple(c.chunkCount, plan.perReq);
    MintMore(c, seq0, minted);
    var payload := vitals[accepted];
    MapDataNotEmpty(payload);
    if IsMapData(payload) {
      var c1 := c.(ack := (accepted + 1) % MAX_SEQUENCE, data := c.data + payload[1..], chunkCount := c.chunkCount + 1);
      MintMore(c1, seq0, minted);
    } else {
      assert c.data + [] == c.data;
    }
  }

  lemma NextAck(i: nat, accepted: nat)
    ensures (i + 1) % MAX_SEQUENCE == (accepted % MAX_SEQUENCE + 1) % MAX_SEQUENCE
      <==> i % MAX_SEQUENCE == accepted % MAX_SEQUENCE
  {
    NextResidue(i);
    NextResidue(accepted);
  }

  lemma NextResidue(i: nat)
    ensures (i + 1) % MAX_SEQUENCE == (i % MAX_SEQUENCE + 1) % MAX_SEQUENCE
    ensures (i + 1) % MAX_SEQUENCE == if i % MAX_SEQUENCE == MAX_SEQUENCE - 1 then 0 else i % MAX_SEQUENCE + 1
  {
  }

  /**
   The exact acceptance rule: a vital is taken for the next expected one exactly when their positions
   agree modulo 1024, so the download is right exactly as long as no other such vital arrives.
   */
  lemma ExpectedIffResidue(c: Client, accepted: nat, i: nat, resend: bool, vitals: seq<seq<byte>>)
    requires c.ack == accepted % MAX_SEQUENCE && i < |vitals|
    ensures Expected(c, AsChunk(MsgOf(Vital(i, resend), vitals))) <==> i % MAX_SEQUENCE == accepted % MAX_SEQUENCE
  {
    NextAck(i, accepted);
  }

  lemma FirstMapMessage()
    ensures PackMsg(MSG_MAP_DATA, true, [7]) == [7, 7]
  {
    assert Varint.PackInt(7) == [7];
  }

  /**
   A download that begins after 1024 accepted vitals takes the first of them, delivered once more, for the next
   one: the client holds a byte although nothing that it should hold has been sent.
   */
  lemma AliasExample(plan: Plan)
    requires plan.perReq > 1
    ensures var first := PackMsg(MSG_MAP_DATA, true, [7]);
      var w := World(NewRequest(Client(0, 0, [], 0, [], [])), 1024, 1024, seq(1024, _ => first), 1, 0, 0, [], 0);
      var pieces := [Vital(0, false)];
      && Begins(w) && Deliverable(pieces, w.vitals)
      && DeliverTo(w, pieces, plan).client.data == [7] && MapBytes(w.vitals[w.base..]) == []
  {
    hide WrapAll, SplitChunks, RequestBytes, PackMsg;
    var first := PackMsg(MSG_MAP_DATA, true, [7]);
    FirstMapMessage();
    var vitals, pieces := seq(1024, _ => first), [Vital(0, false)];
    var c := NewRequest(Client(0, 0, [], 0, [], []));
    var w := World(c, 1024, 1024, vitals, 1, 0, 0, [], 0);
    assert w.vitals[w.base..] == [];
    var ms := MsgsOf(pieces, vitals);
    SplitRoundTrip(ms, SPLIT);
    assert AllSound(ms, SPLIT);
    var cs := AsChunks(ms);
    ExpectedIffResidue(c, 1024, 0, false, vitals);
    assert cs == [AsChunk(MsgOf(Vital(0, false), vitals))] && cs[1..] == [];
    assert HandleChunks(c, cs, plan) == HandleChunk(c, cs[0], plan);
    assert first[1..] == [7] && [] + [7] == [7];
  }

  /** After the first k pieces the client's number is the count of accepted vitals modulo 1024. */
  predicate AcksAt(c: Client, pieces: seq<Piece>, k: nat, accepted: nat, vitals: seq<seq<byte>>, plan: Plan)
    requires plan.perReq > 0 && k <= |pieces| && Deliverable(pieces, vitals)
  {
    HandleChunks(c, AsChunks(MsgsOf(pieces[..k], vitals)), plan).ack == AcceptedAfter(pieces[..k], accepted) % MAX_SEQUENCE
  }

  lemma AcksLater(c: Client, pieces: seq<Piece>, k: nat, accepted: nat, vitals: seq<seq<byte>>, plan: Plan)
    requires plan.perReq > 0 && pieces != [] && k < |pieces| && Deliverable(pieces, vitals)
    ensures var p := pieces[0];
      AcksAt(c, pieces, k + 1, accepted, vitals, plan)
      <==> AcksAt(HandleChunk(c, AsChunk(MsgOf(p, vitals)), plan), pieces[1..], k, AcceptedAfter([p], accepted), vitals, plan)
  {
    hide HandleChunk;
    var front, p := pieces[..k + 1], pieces[0];
    assert front[0] == p && front[1..] == pieces[1..][..k] && [p][1..] == [];
    var cs := AsChunks(MsgsOf(front, vitals));
    assert cs[0] == AsChunk(MsgOf(p, vitals)) && cs[1..] == AsChunks(MsgsOf(front[1..], vitals));
    assert AcceptedAfter([p], accepted) == if p.Vital? && p.i == accepted then accepted + 1 else accepted;
  }

  lemma PieceAcks(c: Client, p: Piece, accepted: nat, vitals: seq<seq<byte>>, plan: Plan)
    requires plan.perReq > 0 && (p.Vital? ==> p.i < |vitals|) && c.ack == accepted % MAX_SEQUENCE
    ensures HandleChunk(c, AsChunk(MsgOf(p, vitals)), plan).ack == AcceptedAfter([p], accepted) % MAX_SEQUENCE
      <==> NoAlias([p], accepted)
  {
    hide IsMapData;
    assert [p][0] == p && [p][1..] == [];
    NextResidue(accepted);
    if p.Vital? {
      ExpectedIffResidue(c, accepted, p.i, p.resend, vitals);
      NextResidue(p.i);
    }
  }

  /**
   Over a whole packet: the client's number follows the count of accepted vitals, after every piece, if and
   only if no piece is taken for the expected vital without being it.
   */
  lemma {:induction false} AcksIffNoAlias(c: Client, pieces: seq<Piece>, accepted: nat, vitals: seq<seq<byte>>,
                                          plan: Plan)
    requires plan.perReq > 0 && Deliverable(pieces, vitals) && c.ack == accepted % MAX_SEQUENCE
    ensures (forall k :: 0 <= k <= |pieces| ==> AcksAt(c, pieces, k, accepted, vitals, plan)) <==> NoAlias(pieces, accepted)
    decreases |pieces|
  {
    hide HandleChunk, AcksAt;
    assert AcksAt(c, pieces, 0, accepted, vitals, plan) by {
      NoPieces(c, pieces, accepted, vitals, plan);
    }
    if pieces != [] {
      var p := pieces[0];
      var c', accepted' := HandleChunk(c, AsChunk(MsgOf(p, vitals)), plan), AcceptedAfter([p], accepted);
      assert [p][0] == p && [p][1..] == [];
      PieceAcks(c, p, accepted, vitals, plan);
      forall k | 0 <= k < |pieces|
        ensures AcksAt(c, pieces, k + 1, accepted, vitals, plan) <==> AcksAt(c', pieces[1..], k, accepted', vitals, plan)
      {
        AcksLater(c, pieces, k, accepted, vitals, plan);
      }
      NoPieces(c', pieces[1..], accepted', vitals, plan);
      if NoAlias([p], accepted) {
        AcksIffNoAlias(c', pieces[1..], accepted', vitals, plan);
        AllButFirst(c, c', pieces, accepted, accepted', vitals, plan);
      } else {
        assert !AcksAt(c, pieces, 0 + 1, accepted, vitals, plan);
      }
    }
  }

  lemma NoPieces(c: Client, pieces: seq<Piece>, accepted: nat, vitals: seq<seq<byte>>, plan: Plan)
    requires plan.perReq > 0 && Deliverable(pieces, vitals)
    ensures AcksAt(c, pieces, 0, accepted, vitals, plan) <==> c.ack == accepted % MAX_SEQUENCE
  {
    assert pieces[..0] == [];
  }

  lemma AllButFirst(c: Client, c': Client, pieces: seq<Piece>, accepted: nat, accepted': nat,
                    vitals: seq<seq<byte>>, plan: Plan)
    requires plan.perReq > 0 && pieces != [] && Deliverable(pieces, vitals) && AcksAt(c, pieces, 0, accepted, vitals, plan)
    requires forall k :: 0 <= k < |pieces| ==>
      (AcksAt(c, pieces, k + 1, accepted, vitals, plan) <==> AcksAt(c', pieces[1..], k, accepted', vitals, plan))
    ensures (forall k :: 0 <= k <= |pieces| ==> AcksAt(c, pieces, k, accepted, vitals, plan))
      <==> forall k :: 0 <= k <= |pieces[1..]| ==> AcksAt(c', pieces[1..], k, accepted', vitals, plan)
  {
    hide AcksAt;
    if forall k :: 0 <= k <= |pieces| ==> AcksAt(c, pieces, k, accepted, vitals, plan) {
      forall k | 0 <= k < |pieces| ensures AcksAt(c', pieces[1..], k, accepted', vitals, plan) {
        assert AcksAt(c, pieces, k + 1, accepted, vitals, plan);
      }
    }
    if forall k :: 0 <= k <= |pieces[1..]| ==> AcksAt(c', pieces[1..], k, accepted', vitals, plan) {
      forall k | 0 < k <= |pieces| ensures AcksAt(c, pieces, k, accepted, vitals, plan) {
        assert AcksAt(c', pieces[1..], k - 1, accepted', vitals, plan);
        assert AcksAt(c, pieces, (k - 1) + 1, accepted, vitals, plan);
      }
    }
  }

  lemma PieceKeeps(c: Client, p: Piece, accepted: nat, base: nat, vitals: seq<seq<byte>>, minted: nat,
                   seq0: int, plan: Plan)
    requires plan.perReq > 0 && Deliverable([p], vitals) && NoAlias([p], accepted)
    requires ClientInv(c, accepted, base, vitals, minted, seq0, plan)
    ensures var c' := HandleChunk(c, AsChunk(MsgOf(p, vitals)), plan);
      |c'.sent| >= |c.sent|
      && ClientInv(c', AcceptedAfter([p], accepted), base, vitals, minted + |c'.sent| - |c.sent|, seq0, plan)
  {
    hide Take, RequestBytes, Contiguous;
    assert [p][0] == p && [p][1..] == [];
    if p.Vital? {
      ExpectedIffResidue(c, accepted, p.i, p.resend, vitals);
      if p.i == accepted {
        NextResidue(accepted);
        TakeKeeps(c, accepted, base, vitals, minted, seq0, plan);
      }
    }
  }

  lemma {:induction false} PiecesKeep(c: Client, pieces: seq<Piece>, accepted: nat, base: nat,
                        vitals: seq<seq<byte>>, minted: nat, seq0: int, plan: Plan)
    requires plan.perReq > 0 && Deliverable(pieces, vitals) && NoAlias(pieces, accepted)
    requires ClientInv(c, accepted, base, vitals, minted, seq0, plan)
    ensures var cs := AsChunks(MsgsOf(pieces, vitals));
      ClientInv(HandleChunks(c, cs, plan), AcceptedAfter(pieces, accepted), base, vitals,
                minted + NewRequests(c, cs, plan), seq0, plan)
    decreases |pieces|
  {
    hide HandleChunk, ClientInv;
    if pieces != [] {
      var p := pieces[0];
      var cs := AsChunks(MsgsOf(pieces, vitals));
      assert Deliverable([p], vitals) && NoAlias([p], accepted) by {
        assert [p][0] == p && [p][1..] == [];
      }
      PieceKeeps(c, p, accepted, base, vitals, minted, seq0, plan);
      var c' := HandleChunk(c, AsChunk(MsgOf(p, vitals)), plan);
      assert cs[0] == AsChunk(MsgOf(p, vitals)) && cs[1..] == AsChunks(MsgsOf(pieces[1..], vitals));
      assert AcceptedAfter([p], accepted) == if p.Vital? && p.i == accepted then accepted + 1 else accepted by {
        assert [p][0] == p && [p][1..] == [];
      }
      PiecesKeep(c', pieces[1..], AcceptedAfter([p], accepted), base, vitals, minted + |c'.sent| - |c.sent|, seq0, plan);
    }
  }

  // ---------- runs

  lemma DeliverKeeps(w: World, pieces: seq<Piece>, plan: Plan)
    requires plan.perReq > 0 && Inv(w, plan) && Enabled(w, Deliver(pieces), plan)
    ensures Inv(DeliverTo(w, pieces, plan), plan)
  {
    hide ClientInv, NoAlias, SplitChunks, WrapAll;
    var ms := MsgsOf(pieces, w.vitals);
    SplitRoundTrip(ms, SPLIT);
    assert AllSound(ms, SPLIT);
    PiecesKeep(w.client, pieces, w.accepted, w.base, w.vitals, w.minted, w.seq0, plan);
  }

  lemma ClientInvMore(c: Client, accepted: nat, base: nat, vitals: seq<seq<byte>>, more: seq<seq<byte>>, minted: nat,
                      seq0: int, plan: Plan)
    requires plan.perReq > 0 && ClientInv(c, accepted, base, vitals, minted, seq0, plan)
    ensures ClientInv(c, accepted, base, vitals + more, minted, seq0, plan) && base <= |vitals|
  {
    hide MapCount, MapBytes, Contiguous, Request;
    assert (vitals + more)[base..accepted] == vitals[base..accepted];
  }

  lemma QueueKeeps(w: World, more: seq<seq<byte>>, handled: nat, answered: seq<byte>, strays: nat, plan: Plan)
    requires plan.perReq > 0 && Inv(w, plan) && handled <= w.minted
    requires forall i :: 0 <= i < |more| ==> Fitting(more[i])
    requires w.base <= |w.vitals| && Tallies(w.vitals[w.base..] + more, plan.perReq, handled, answered, strays)
    ensures Inv(w.(vitals := w.vitals + more, handled := handled, answered := answered, strays := strays), plan)
  {
    hide ClientInv, Tallies, Fitting;
    ClientInvMore(w.client, w.accepted, w.base, w.vitals, more, w.minted, w.seq0, plan);
    assert (w.vitals + more)[w.base..] == w.vitals[w.base..] + more;
    FittingJoin(w.vitals, more);
  }

  lemma StrayTallies(sent: seq<seq<byte>>, payload: seq<byte>, perReq: nat, handled: nat, answered: seq<byte>,
                     strays: nat)
    requires Tallies(sent, perReq, handled, answered, strays)
    ensures Tallies(sent + [payload], perReq, handled, answered, strays + MapCount([payload]))
  {
    hide IsMapData;
    MapJoin(sent, [payload]);
    assert [payload][..0] == [];
    assert MapBytes(sent) + [] == MapBytes(sent);
    assert [] + MapPart(payload) == MapPart(payload);
  }

  lemma AnswerTallies(sent: seq<seq<byte>>, bodies: seq<seq<byte>>, perReq: nat, handled: nat,
                      answered: seq<byte>, strays: nat)
    requires Tallies(sent, perReq, handled, answered, strays) && |bodies| <= perReq
    ensures Tallies(sent + MapMessages(bodies), perReq, handled + 1, answered + Concat(bodies), strays)
  {
    hide MapCount, MapBytes, Concat;
    MapJoin(sent, MapMessages(bodies));
    CountAtMost(MapMessages(bodies));
    AnswerIsBodies(bodies);
    assert perReq * (handled + 1) == perReq * handled + perReq;
  }

  lemma FittingJoin(a: seq<seq<byte>>, b: seq<seq<byte>>)
    requires (forall i :: 0 <= i < |a| ==> Fitting(a[i])) && forall i :: 0 <= i < |b| ==> Fitting(b[i])
    ensures forall i :: 0 <= i < |a + b| ==> Fitting((a + b)[i])
  {
  }

  lemma {:induction false} CountAtMost(ps: seq<seq<byte>>)
    ensures MapCount(ps) <= |ps|
  {
    if ps != [] {
      CountAtMost(ps[..|ps| - 1]);
    }
  }

  lemma RepeatKeeps(w: World, plan: Plan)
    requires plan.perReq > 0 && Inv(w, plan)
    ensures Inv(Perform(w, Repeat, plan), plan)
  {
    hide RequestBytes, MapCount, MapBytes;
    var c' := SendRequest(w.client);
    assert c'.sent[..|c'.sent| - 1] == w.client.sent;
  }

  lemma BaseIsSent(w: World, plan: Plan)
    requires plan.perReq > 0 && Inv(w, plan)
    ensures w.base <= |w.vitals|
  {
  }

  /** Every step keeps the invariant. */
  lemma StepKeepsInv(w: World, s: Step, plan: Plan)
    requires plan.perReq > 0 && Inv(w, plan) && Enabled(w, s, plan)
    ensures Inv(Perform(w, s, plan), plan)
  {
    hide ClientInv, IsMapData, DeliverTo, HandleTurn, Tallies, MapCount, Concat;
    match s {
      case Queue(payload) =>
        BaseIsSent(w, plan);
        StrayTallies(w.vitals[w.base..], payload, plan.perReq, w.handled, w.answered, w.strays);
        QueueKeeps(w, [payload], w.handled, w.answered, w.strays + MapCount([payload]), plan);
      case Answer(bodies) =>
        BaseIsSent(w, plan);
        AnswerTallies(w.vitals[w.base..], bodies, plan.perReq, w.handled, w.answered, w.strays);
        QueueKeeps(w, MapMessages(bodies), w.handled + 1, w.answered + Concat(bodies), w.strays, plan);
      case Deliver(pieces) => DeliverKeeps(w, pieces, plan);
      case Repeat => RepeatKeeps(w, plan);
    }
  }

  lemma BeginsWithInv(w: World, plan: Plan)
    requires plan.perReq > 0 && Begins(w)
    ensures Inv(w, plan)
  {
    hide RequestBytes;
    assert w.vitals[w.base..] == [] && w.vitals[w.base..w.accepted] == [];
    assert w.client.sent == [Request(w.seq0, 1)];
  }

  lemma {:induction false} RunKeepsInv(ws: seq<World>, ss: seq<Step>, plan: Plan, k: nat)
    requires plan.perReq > 0 && IsRun(ws, ss, plan) && k < |ws|
    ensures Inv(ws[k], plan)
  {
    hide Inv, Perform, Begins;
    if k == 0 {
      BeginsWithInv(ws[0], plan);
    } else {
      RunKeepsInv(ws, ss, plan, k - 1);
      StepKeepsInv(ws[k - 1], ss[k - 1], plan);
    }
  }

  /**
   In every run, at every moment: the collected bytes are those of the accepted vitals, in order, none
   skipped and none taken twice, hence a prefix of what the server sent, and of the map bytes it answered with
   unless it has queued something else that is taken for them; and the acknowledged number is the count of
   accepted vitals modulo 1024.
   */
  lemma InOrderDownload(ws: seq<World>, ss: seq<Step>, plan: Plan, k: nat)
    requires plan.perReq > 0 && IsRun(ws, ss, plan) && k < |ws|
    ensures var w := ws[k];
      && w.base <= w.accepted <= |w.vitals|
      && w.client.data == MapBytes(w.vitals[w.base..w.accepted]) <= MapBytes(w.vitals[w.base..])
      && (w.strays == 0 ==> w.client.data <= w.answered)
      && w.client.ack == w.accepted % MAX_SEQUENCE
  {
    hide IsRun, MapBytes, MapCount;
    RunKeepsInv(ws, ss, plan, k);
    var w := ws[k];
    MapJoin(w.vitals[w.base..w.accepted], w.vitals[w.accepted..]);
    assert w.vitals[w.base..w.accepted] + w.vitals[w.accepted..] == w.vitals[w.base..];
  }

  /**
   In every run the requests on the wire are numbered without a gap, however often they were repeated,
   and at most one window of map chunks is on its way: what the server has queued exceeds what the client
   has taken by no more than the part of the current window that is still missing, not counting other vitals
   that the client takes for map chunks.
   */
  lemma OneWindowOutstanding(ws: seq<World>, ss: seq<Step>, plan: Plan, k: nat)
    requires plan.perReq > 0 && IsRun(ws, ss, plan) && k < |ws|
    ensures var w := ws[k];
      && Contiguous(w.client.sent, w.seq0, w.minted) && w.base <= |w.vitals|
      && MapCount(w.vitals[w.base..]) - w.client.chunkCount
        <= plan.perReq - w.client.chunkCount % plan.perReq + w.strays
  {
    hide IsRun, Contiguous, MapCount, MapBytes;
    RunKeepsInv(ws, ss, plan, k);
    var w := ws[k];
    ShortIsAll(w.vitals[w.base..w.accepted], plan.size);
    QuotientGrows(ShortCount(w.vitals[w.base..w.accepted], plan.size), w.client.chunkCount, plan.perReq);
    Window(plan.perReq, w.handled, w.minted, w.client.chunkCount);
  }

  /** The first request and one for each completed window. */
  function Requests(count: nat, perReq: nat): nat
    requires perReq > 0
  {
    1 + count / perReq
  }

  /**
   In every run the requests that have been made, repetitions aside, are the first one and one for every
   window completed while bytes were missing: as long as they are, one for every completed window, and none
   after that.
   */
  lemma OneRequestPerWindow(ws: seq<World>, ss: seq<Step>, plan: Plan, k: nat)
    requires plan.perReq > 0 && IsRun(ws, ss, plan) && k < |ws|
    ensures var w := ws[k];
      && w.base <= w.accepted <= |w.vitals|
      && Contiguous(w.client.sent, w.seq0, Requests(ShortCount(w.vitals[w.base..w.accepted], plan.size), plan.perReq))
      && (|w.client.data| < plan.size ==> Contiguous(w.client.sent, w.seq0, Requests(w.client.chunkCount, plan.perReq)))
  {
    hide IsRun, Contiguous, MapCount, MapBytes, ShortCount;
    RunKeepsInv(ws, ss, plan, k);
    ShortIsAll(ws[k].vitals[ws[k].base..ws[k].accepted], plan.size);
  }

  lemma Window(perReq: nat, handled: nat, minted: nat, count: nat)
    requires perReq > 0 && handled <= minted <= 1 + count / perReq
    ensures perReq * handled <= count + perReq - count % perReq
  {
    var d := 1 + count / perReq;
    assert perReq * d == perReq + (count - count % perReq);
    Monotone(perReq, handled, d);
  }

  lemma Monotone(k: nat, a: nat, b: nat)
    requires a <= b
    ensures k * a <= k * b
  {
  }

  /** Delivering the next expected vital always makes progress. */
  lemma NextVitalMakesProgress(w: World, resend: bool, plan: Plan)
    requires plan.perReq > 0 && Inv(w, plan) && w.accepted < |w.vitals|
    ensures Enabled(w, Deliver([Vital(w.accepted, resend)]), plan)
    ensures Perform(w, Deliver([Vital(w.accepted, resend)]), plan).accepted == w.accepted + 1
  {
    hide HandleTurn, WrapAll, ClientInv;
    var pieces := [Vital(w.accepted, resend)];
    assert pieces[1..] == [];
    assert Deliverable(pieces, w.vitals);
    assert NoAlias(pieces, w.accepted);
    assert AcceptedAfter(pieces, w.accepted) == w.accepted + 1;
  }
}
