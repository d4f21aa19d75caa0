/**
 The teehistorian file: what its bytes mean, as a printer and a parser over whole byte strings.
 `TeehistorianFile` and `TeehistorianStream` hold the code that prints and parses step by step.
 */
module Teehistorian {
  import opened Wire
  import opened Cursor
  import Varint

  type UUID = u: seq<byte> | |u| == 16 witness seq(16, _ => 0)

  /** The ten fields of a player input, in protocol order. */
  type Input = i: seq<int> | |i| == 10 witness seq(10, _ => 0)

  datatype Record =
    | TickSkip(dt: int)
    | PlayerNew(cid: int, x: int, y: int)
    | PlayerOld(cid: int)
    | PlayerDiff(cid: int, dx: int, dy: int)
    | InputNew(cid: int, input: Input)
    | InputDiff(cid: int, diff: Input)
    | Message(cid: int, msg: seq<byte>)
    | Join(cid: int)
    | Drop(cid: int, reason: seq<byte>)
    | ConsoleCommand(cid: int, flagMask: int, cmd: seq<byte>, args: seq<seq<byte>>)
    | Ex(uuid: UUID, data: seq<byte>)
    | Finish

  const FINISH := 1
  const TICK_SKIP := 2
  const PLAYER_NEW := 3
  const PLAYER_OLD := 4
  const INPUT_DIFF := 5
  const INPUT_NEW := 6
  const MESSAGE := 7
  const JOIN := 8
  const DROP := 9
  const CONSOLE_COMMAND := 10
  const EX := 11

  // ---------- printing

  /** The integers that open a record: its negated marker (a client id for a position diff) and what follows. */
  function Head(rec: Record): (h: seq<int>)
    ensures h != []
  {
    match rec
    case PlayerDiff(cid, dx, dy) => [cid, dx, dy]
    case TickSkip(dt) => [-TICK_SKIP, dt]
    case PlayerNew(cid, x, y) => [-PLAYER_NEW, cid, x, y]
    case PlayerOld(cid) => [-PLAYER_OLD, cid]
    case InputNew(cid, input) => [-INPUT_NEW, cid] + input
    case InputDiff(cid, diff) => [-INPUT_DIFF, cid] + diff
    case Message(cid, msg) => [-MESSAGE, cid, |msg|]
    case Join(cid) => [-JOIN, cid]
    case Drop(cid, _) => [-DROP, cid]
    case ConsoleCommand(cid, flagMask, _, _) => [-CONSOLE_COMMAND, cid, flagMask]
    case Ex(_, _) => [-EX]
    case Finish => [-FINISH]
  }

  function Payload(rec: Record): seq<byte> {
    match rec
    case Message(_, msg) => msg
    case Drop(_, reason) => AppendStr(reason)
    case ConsoleCommand(_, _, cmd, args) => AppendStr(cmd) + (AppendInts([|args|]) + AppendStrs(args))
    case Ex(uuid, data) => uuid + (AppendInts([|data|]) + data)
    case _ => []
  }

  function Print(rec: Record): seq<byte> {
    AppendInts(Head(rec)) + Payload(rec)
  }

  function PrintAll(recs: seq<Record>): seq<byte> {
    if recs == [] then [] else Print(recs[0]) + PrintAll(recs[1..])
  }

  // ---------- parsing

  /** Reads the rest of the record whose leading integer is n. */
  function ReadBody(n: int, s: seq<byte>): Parsed<Record> {
    if n >= 0 then
      var (v, rest) :- ReadInts(s, 2);
      Ok(PlayerDiff(n, v[0], v[1]), rest)
    else if -n == FINISH then
      Ok(Finish, s)
    else if -n == TICK_SKIP then
      var (v, rest) :- ReadInts(s, 1);
      Ok(TickSkip(v[0]), rest)
    else if -n == PLAYER_NEW then
      var (v, rest) :- ReadInts(s, 3);
      Ok(PlayerNew(v[0], v[1], v[2]), rest)
    else if -n == PLAYER_OLD then
      var (v, rest) :- ReadInts(s, 1);
      Ok(PlayerOld(v[0]), rest)
    else if -n == INPUT_DIFF || -n == INPUT_NEW then
      var (v, rest) :- ReadInts(s, 11);
      Ok(if -n == INPUT_NEW then InputNew(v[0], v[1..]) else InputDiff(v[0], v[1..]), rest)
    else if -n == MESSAGE then
      var (v, s1) :- ReadInts(s, 2);
      var (msg, rest) :- ReadRaw(s1, v[1]);
      Ok(Message(v[0], msg), rest)
    else if -n == JOIN then
      var (v, rest) :- ReadInts(s, 1);
      Ok(Join(v[0]), rest)
    else if -n == DROP then
      var (v, s1) :- ReadInts(s, 1);
      var (reason, rest) :- ReadString(s1);
      Ok(Drop(v[0], reason), rest)
    else if -n == CONSOLE_COMMAND then
      ReadConsoleCommand(s)
    else if -n == EX then
      ReadEx(s)
    else
      Bad(UnknownMarker)
  }

  /** A negative argument count makes `make([]string, num)` panic. */
  function ReadConsoleCommand(s: seq<byte>): Parsed<Record> {
    var (v, s1) :- ReadInts(s, 2);
    var (cmd, s2) :- ReadString(s1);
    var (num, s3) :- ReadInts(s2, 1);
    if num[0] < 0 then Bad(Panic)
    else
      var (args, rest) :- ReadStrings(s3, num[0]);
      Ok(ConsoleCommand(v[0], v[1], cmd, args), rest)
  }

  function ReadEx(s: seq<byte>): Parsed<Record> {
    var (uuid, s1) :- ReadRaw(s, 16);
    var (size, s2) :- ReadInts(s1, 1);
    var (data, rest) :- ReadRaw(s2, size[0]);
    Ok(Ex(uuid, data), rest)
  }

  function ReadRecord(s: seq<byte>): (r: Parsed<Record>) {
    var (n, s') :- Varint.Decode(s);
    ReadBody(n, s')
  }

  lemma ReadBodyShrinks(n: int, s: seq<byte>)
    ensures ReadBody(n, s).Ok? ==> |ReadBody(n, s).rest| <= |s|
  {
  }

  /** The body: records until the bytes run out or a Finish record has been read. */
  function ParseBody(s: seq<byte>): Result<seq<Record>>
    decreases |s|
  {
    if s == [] then Success([])
    else
      match ReadRecord(s)
      case Bad(e) => Failure(e)
      case Ok(rec, rest) =>
        if rec.Finish? then Success([rec])
        else
          ReadBodyShrinks(Varint.Decode(s).value, Varint.Decode(s).rest);
          var recs :- ParseBody(rest);
          Success([rec] + recs)
  }

  // ---------- which records survive a round trip

  predicate AllInt32(vs: seq<int>) {
    forall i :: 0 <= i < |vs| ==> IsInt32(vs[i])
  }

  predicate WellFormed(rec: Record) {
    && AllInt32(Head(rec))
    && match rec
       case PlayerDiff(cid, _, _) => cid >= 0
       case Drop(_, reason) => 0 !in reason
       case ConsoleCommand(_, _, cmd, args) =>
         0 !in cmd && |args| <= MAX_INT32 && forall i :: 0 <= i < |args| ==> 0 !in args[i]
       case Ex(_, data) => |data| <= MAX_INT32
       case _ => true
  }

  /** Every record is well formed and none but the last is a Finish. */
  predicate WellFormedBody(recs: seq<Record>) {
    forall i :: 0 <= i < |recs| ==> WellFormed(recs[i]) && (recs[i].Finish? ==> i == |recs| - 1)
  }

  lemma ReadHead(h: seq<int>, payload: seq<byte>)
    requires h != [] && AllInt32(h)
    ensures Varint.Decode(AppendInts(h) + payload) == Ok(h[0], AppendInts(h[1..]) + payload)
    ensures ReadInts(AppendInts(h[1..]) + payload, |h| - 1) == Ok(h[1..], payload)
  {
    hide Varint.PackInt, Varint.Decode;
    AppendIntsCons(h, payload);
    Varint.DecodeOfPack(h[0], AppendInts(h[1..]) + payload);
    ReadIntsOfAppend(h[1..], payload);
  }

  lemma ReadConsoleCommandOfPrint(rec: Record, rest: seq<byte>)
    requires rec.ConsoleCommand? && WellFormed(rec)
    ensures ReadConsoleCommand(AppendInts(Head(rec)[1..]) + (Payload(rec) + rest)) == Ok(rec, rest)
  {
    hide Varint.PackInt, Varint.Decode, AppendInts, ReadInts, AppendStrs, ReadStrings, ReadString;
    var tail := AppendStrs(rec.args) + rest;
    var counted := AppendInts([|rec.args|]) + tail;
    ReadIntsOfAppend(Head(rec)[1..], Payload(rec) + rest);
    assert Payload(rec) + rest == AppendStr(rec.cmd) + counted;
    ReadStringOfAppend(rec.cmd, counted);
    ReadIntsOfAppend([|rec.args|], tail);
    ReadStringsOfAppend(rec.args, rest);
  }

  lemma ReadExOfPrint(rec: Record, rest: seq<byte>)
    requires rec.Ex? && WellFormed(rec)
    ensures ReadEx(Payload(rec) + rest) == Ok(rec, rest)
  {
    hide Varint.PackInt, Varint.Decode, AppendInts, ReadInts;
    var counted := AppendInts([|rec.data|]) + (rec.data + rest);
    assert Payload(rec) + rest == rec.uuid + counted;
    ReadRawOfAppend(rec.uuid, counted);
    ReadIntsOfAppend([|rec.data|], rec.data + rest);
    ReadRawOfAppend(rec.data, rest);
  }

  lemma ReadBodyOfPrint(rec: Record, rest: seq<byte>)
    requires WellFormed(rec)
    ensures ReadBody(Head(rec)[0], AppendInts(Head(rec)[1..]) + (Payload(rec) + rest)) == Ok(rec, rest)
  {
    hide Varint.PackInt, Varint.Decode, ReadInts, ReadConsoleCommand, ReadEx, ReadString;
    var h := Head(rec);
    ReadHead(h, Payload(rec) + rest);
    match rec {
      case Message(_, msg) => ReadRawOfAppend(msg, rest);
      case Drop(_, reason) => ReadStringOfAppend(reason, rest);
      case ConsoleCommand(_, _, _, _) => ReadConsoleCommandOfPrint(rec, rest);
      case Ex(_, _) =>
        assert AppendInts(h[1..]) + (Payload(rec) + rest) == Payload(rec) + rest;
        ReadExOfPrint(rec, rest);
      case Finish => assert AppendInts(h[1..]) + (Payload(rec) + rest) == rest;
      case InputNew(_, input) => assert h[1..][1..] == input;
      case InputDiff(_, diff) => assert h[1..][1..] == diff;
      case _ => assert Payload(rec) + rest == rest;
    }
  }

  lemma ReadRecordOfPrint(rec: Record, rest: seq<byte>)
    requires WellFormed(rec)
    ensures ReadRecord(Print(rec) + rest) == Ok(rec, rest)
  {
    hide Varint.PackInt, Varint.Decode, ReadBody, Payload, AppendInts, ReadInts;
    ReadBodyOfPrint(rec, rest);
    ReadHead(Head(rec), Payload(rec) + rest);
    assert Print(rec) + rest == AppendInts(Head(rec)) + (Payload(rec) + rest);
  }

  /** Whatever bytes a record is read from, it is one that a print would preserve. */
  lemma ReadRecordIsWellFormed(s: seq<byte>)
    requires ReadRecord(s).Ok?
    ensures WellFormed(ReadRecord(s).value)
  {
    hide Varint.Decode, ReadInts, ReadStrings, ReadString;
  }

  lemma {:induction false} ParseIsWellFormed(s: seq<byte>)
    requires ParseBody(s).Success?
    ensures WellFormedBody(ParseBody(s).value)
    decreases |s|
  {
    if s != [] {
      ReadRecordIsWellFormed(s);
      var r := ReadRecord(s);
      if !r.value.Finish? {
        ReadBodyShrinks(Varint.Decode(s).value, Varint.Decode(s).rest);
        ParseIsWellFormed(r.rest);
      }
    }
  }

  lemma {:induction false} ParseOfPrintAll(recs: seq<Record>)
    requires WellFormedBody(recs)
    ensures ParseBody(PrintAll(recs)) == Success(recs)
  {
    hide ReadBody, Print;
    if recs != [] {
      ReadRecordOfPrint(recs[0], PrintAll(recs[1..]));
      if recs[0].Finish? {
        assert recs == [recs[0]];
      } else {
        ParseOfPrintAll(recs[1..]);
        assert recs == [recs[0]] + recs[1..];
      }
    }
  }

  /** A record list survives printing and parsing exactly when it is well formed. */
  lemma BodyRoundTrip(recs: seq<Record>)
    ensures ParseBody(PrintAll(recs)) == Success(recs) <==> WellFormedBody(recs)
  {
    if WellFormedBody(recs) {
      ParseOfPrintAll(recs);
    }
    if ParseBody(PrintAll(recs)) == Success(recs) {
      ParseIsWellFormed(PrintAll(recs));
    }
  }

  // ---------- the whole file

  /** The raw JSON header is opaque here; it ends at the first zero byte. */
  datatype File = File(header: seq<byte>, records: seq<Record>)

  function PrintFile(magic: UUID, f: File): seq<byte> {
    magic + f.header + [0] + PrintAll(f.records)
  }

  function ParseFile(magic: UUID, data: seq<byte>): Result<File> {
    if |data| < 16 || data[..16] != magic then Failure(UnknownMarker)
    else
      match ReadString(data[16..])
      case Bad(e) => Failure(e)
      case Ok(header, body) =>
        var records :- ParseBody(body);
        Success(File(header, records))
  }

  lemma FileRoundTrip(magic: UUID, f: File)
    ensures ParseFile(magic, PrintFile(magic, f)) == Success(f) <==> 0 !in f.header && WellFormedBody(f.records)
  {
    var data := PrintFile(magic, f);
    var body := PrintAll(f.records);
    assert data[..16] == magic && data[16..] == AppendStr(f.header) + body;
    if 0 !in f.header {
      ReadStringOfAppend(f.header, body);
      BodyRoundTrip(f.records);
    }
  }
}
