/** The in-memory parser and writer, advancing an `Unpacker` and growing a byte slice. */
module TeehistorianFile {
  import opened Wire
  import opened Cursor
  import opened Teehistorian
  import Varint

  method WriteRecord(b: seq<byte>, rec: Record) returns (b': seq<byte>)
    ensures b' == b + Print(rec)
  {
    hide Head, Payload, AppendInts;
    b' := AppendHead(b, rec);
    b' := AppendPayload(b', rec);
    assert b' == b + (AppendInts(Head(rec)) + Payload(rec));
  }

  method AppendHead(b: seq<byte>, rec: Record) returns (b': seq<byte>)
    ensures b' == b + AppendInts(Head(rec))
  {
    hide AppendInts;
    match rec {
      case PlayerDiff(cid, dx, dy) => b' := AppendEach(b, [cid, dx, dy]);
      case TickSkip(dt) => b' := AppendEach(b, [-TICK_SKIP, dt]);
      case PlayerNew(cid, x, y) => b' := AppendEach(b, [-PLAYER_NEW, cid, x, y]);
      case PlayerOld(cid) => b' := AppendEach(b, [-PLAYER_OLD, cid]);
      case InputNew(cid, input) => b' := AppendInput(b, -INPUT_NEW, cid, input);
      case InputDiff(cid, diff) => b' := AppendInput(b, -INPUT_DIFF, cid, diff);
      case Message(cid, msg) => b' := AppendEach(b, [-MESSAGE, cid, |msg|]);
      case Join(cid) => b' := AppendEach(b, [-JOIN, cid]);
      case Drop(cid, _) => b' := AppendEach(b, [-DROP, cid]);
      case ConsoleCommand(cid, flagMask, _, _) => b' := AppendEach(b, [-CONSOLE_COMMAND, cid, flagMask]);
      case Ex(_, _) => b' := AppendInt(b, -EX);
      case Finish => b' := AppendInt(b, -FINISH);
    }
  }

  method AppendInput(b: seq<byte>, marker: int, cid: int, input: Input) returns (b': seq<byte>)
    ensures b' == b + AppendInts([marker, cid] + input)
  {
    hide AppendInts;
    AppendIntsJoin([marker, cid], input);
    b' := AppendEach(b, [marker, cid]);
    b' := AppendEach(b', input);
  }

  method AppendPayload(b: seq<byte>, rec: Record) returns (b': seq<byte>)
    ensures b' == b + Payload(rec)
  {
    hide AppendInts, AppendStrs;
    match rec {
      case Message(_, msg) =>
        b' := b + msg;
      case Drop(_, reason) =>
        b' := b + AppendStr(reason);
      case ConsoleCommand(_, _, cmd, args) =>
        b' := b + AppendStr(cmd);
        b' := AppendInt(b', |args|);
        b' := AppendArgs(b', args);
        assert b' == b + (AppendStr(cmd) + (AppendInts([|args|]) + AppendStrs(args)));
      case Ex(uuid, data) =>
        b' := b + uuid;
        b' := AppendInt(b', |data|);
        b' := b' + data;
        assert b' == b + (uuid + (AppendInts([|data|]) + data));
      case _ =>
        b' := b;
    }
  }

  method AppendArgs(b: seq<byte>, args: seq<seq<byte>>) returns (b': seq<byte>)
    ensures b' == b + AppendStrs(args)
  {
    b' := b;
    for i := 0 to |args|
      invariant b' + AppendStrs(args[i..]) == b + AppendStrs(args)
    {
      assert b' + AppendStrs(args[i..]) == b' + AppendStr(args[i]) + AppendStrs(args[i + 1..]);
      b' := b' + AppendStr(args[i]);
    }
  }

  method ReadOneInt(u: Unpacker) returns (r: Result<int>)
    requires u.Valid()
    modifies u
    ensures u.Valid()
    ensures match ReadInts(old(u.Rest()), 1)
      case Ok(v, rest) => r == Success(v[0]) && u.Rest() == rest
      case Bad(e) => r == Failure(e)
  {
    var v := u.NextInts(1);
    r := if v.Success? then Success(v.value[0]) else Failure(v.error);
  }

  /** Reads the record that starts with the integer n. */
  method ReadRecordAfter(u: Unpacker, n: int) returns (r: Result<Record>)
    requires u.Valid()
    modifies u
    ensures u.Valid()
    ensures var spec := ReadBody(n, old(u.Rest()));
      r == spec.ToResult() && (spec.Ok? ==> u.Rest() == spec.rest)
  {
    hide Varint.Decode, Varint.PackInt;
    if n >= 0 {
      var v :- u.NextInts(2);
      return Success(PlayerDiff(n, v[0], v[1]));
    }
    if -n == FINISH {
      return Success(Finish);
    } else if -n == TICK_SKIP {
      var dt :- ReadOneInt(u);
      return Success(TickSkip(dt));
    } else if -n == PLAYER_NEW {
      var v :- u.NextInts(3);
      return Success(PlayerNew(v[0], v[1], v[2]));
    } else if -n == PLAYER_OLD {
      var cid :- ReadOneInt(u);
      return Success(PlayerOld(cid));
    } else if -n == INPUT_DIFF || -n == INPUT_NEW {
      SplitInts(u.Rest(), 10);
      var cid :- u.NextInt();
      var input :- u.NextInts(10);
      return Success(if -n == INPUT_NEW then InputNew(cid, input) else InputDiff(cid, input));
    } else if -n == MESSAGE {
      var head :- u.NextInts(2);
      var msg :- u.NextRaw(head[1]);
      return Success(Message(head[0], msg));
    } else if -n == JOIN {
      var cid :- ReadOneInt(u);
      return Success(Join(cid));
    } else if -n == DROP {
      var cid :- ReadOneInt(u);
      var reason :- u.NextStringSanitized(PLAIN);
      return Success(Drop(cid, reason));
    } else if -n == CONSOLE_COMMAND {
      var head :- u.NextInts(2);
      var cmd :- u.NextStringSanitized(PLAIN);
      var num :- ReadOneInt(u);
      if num < 0 {
        return Failure(Panic);
      }
      var args :- ReadArgs(u, num);
      return Success(ConsoleCommand(head[0], head[1], cmd, args));
    } else if -n == EX {
      var uuid :- u.NextRaw(16);
      var size :- ReadOneInt(u);
      var data :- u.NextRaw(size);
      return Success(Ex(uuid, data));
    }
    r := Failure(UnknownMarker);
  }

  /** Reading n + 1 integers is reading one and then n. */
  lemma SplitInts(s: seq<byte>, n: nat)
    ensures match ReadInts(s, n + 1)
      case Ok(v, rest) =>
        var d := Varint.Decode(s);
        d.Ok? && ReadInts(d.rest, n) == Ok(v[1..], rest) && d.value == v[0]
      case Bad(e) =>
        var d := Varint.Decode(s);
        d == Bad(e) || (d.Ok? && ReadInts(d.rest, n) == Bad(e))
  {
    hide Varint.Decode;
    var d := Varint.Decode(s);
    if d.Ok? && ReadInts(d.rest, n).Ok? {
      assert ([d.value] + ReadInts(d.rest, n).value)[1..] == ReadInts(d.rest, n).value;
    }
  }

  method ReadArgs(u: Unpacker, num: nat) returns (r: Result<seq<seq<byte>>>)
    requires u.Valid()
    modifies u
    ensures u.Valid()
    ensures var spec := ReadStrings(old(u.Rest()), num);
      r == spec.ToResult() && (spec.Ok? ==> u.Rest() == spec.rest)
  {
    hide Sanitized, ReadString;
    ghost var all := ReadStrings(u.Rest(), num);
    assert all.Ok? ==> [] + all.value == all.value;
    var args: seq<seq<byte>> := [];
    for i := 0 to num
      invariant u.Valid() && |args| == i
      invariant Collects(all, ReadStrings(u.Rest(), num - i), args)
    {
      ghost var before := u.Rest();
      var a := u.NextStringSanitized(PLAIN);
      if a.Failure? {
        return Failure(a.error);
      }
      CollectString(all, before, num - i, args);
      args := args + [a.value];
    }
    assert args + [] == args;
    r := Success(args);
  }

  /** File with its records field, which a parse fills. */
  class Parser {
    var records: seq<Record>

    constructor ()
      ensures records == []
    {
      records := [];
    }

    method ParseBody(body: seq<byte>) returns (r: Result<()>)
      requires records == []
      modifies this
      ensures match Teehistorian.ParseBody(body)
        case Success(recs) => r == Success(()) && records == recs
        case Failure(e) => r == Failure(e)
    {
      hide Varint.Decode, ReadBody, ReadRecord, Teehistorian.ParseBody;
      var u := new Unpacker(body);
      ghost var all := Teehistorian.ParseBody(body);
      ContinuesStart(all);
      var remaining := u.RemainingSize();
      while remaining > 0
        invariant fresh(u) && u.Valid() && remaining == |u.Rest()|
        invariant Continues(all, Teehistorian.ParseBody(u.Rest()), records)
        decreases remaining
      {
        ghost var before := u.Rest();
        BodyStep(before);
        var n := u.NextInt();
        if n.Failure? {
          return Failure(n.error);
        }
        ReadBodyShrinks(n.value, u.Rest());
        var rec := ReadRecordAfter(u, n.value);
        if rec.Failure? {
          return Failure(rec.error);
        }
        if rec.value.Finish? {
          ContinuesStep(all, Teehistorian.ParseBody(before), records, [rec.value], Success([]));
          ContinuesEnd(all, records + [rec.value]);
          records := records + [rec.value];
          return Success(());
        }
        ContinuesStep(all, Teehistorian.ParseBody(before), records, [rec.value], Teehistorian.ParseBody(u.Rest()));
        records := records + [rec.value];
        remaining := u.RemainingSize();
      }
      BodyStep(u.Rest());
      ContinuesEnd(all, records);
      r := Success(());
    }
  }

  /** Parsing a body is reading its first record and, unless that is a Finish, parsing the rest. */
  lemma BodyStep(s: seq<byte>)
    ensures s == [] ==> Teehistorian.ParseBody(s) == Success([])
    ensures s != [] ==>
      var n := Varint.Decode(s);
      match n
      case Bad(e) => Teehistorian.ParseBody(s) == Failure(e)
      case Ok(_, s') =>
        match ReadBody(n.value, s')
        case Bad(e) => Teehistorian.ParseBody(s) == Failure(e)
        case Ok(rec, rest) =>
          Continues(Teehistorian.ParseBody(s), if rec.Finish? then Success([]) else Teehistorian.ParseBody(rest), [rec])
  {
    hide Varint.Decode, ReadBody;
    if s != [] && ReadRecord(s).Ok? {
      assert [ReadRecord(s).value] + [] == [ReadRecord(s).value];
    }
  }

  /** WriteTo: magic, raw header, terminator, then every record in order. */
  method WriteTo(magic: UUID, f: File) returns (b: seq<byte>)
    ensures b == PrintFile(magic, f)
  {
    hide Print;
    b := magic + f.header + [0];
    for i := 0 to |f.records|
      invariant b + PrintAll(f.records[i..]) == PrintFile(magic, f)
    {
      assert PrintAll(f.records[i..]) == Print(f.records[i]) + PrintAll(f.records[i + 1..]);
      assert b + (Print(f.records[i]) + PrintAll(f.records[i + 1..]))
          == b + Print(f.records[i]) + PrintAll(f.records[i + 1..]);
      b := WriteRecord(b, f.records[i]);
    }
    assert b + [] == b;
  }
}
