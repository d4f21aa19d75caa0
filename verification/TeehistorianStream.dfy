/**
 The streaming decoder and encoder. The decoder pulls each record's bytes off a stream when it is
 asked for the record; the encoder writes each record as it comes.
 */
module TeehistorianStream {
  import opened Wire
  import opened Cursor
  import opened Teehistorian
  import Varint
  import TeehistorianFile

  /** What one call of Next hands out. */
  datatype Item = Rec(rec: Record) | End | Failed(error: Error)

  /** A decoder's state: the bytes not yet pulled, and whether the end has been reported. */
  datatype State = State(rest: seq<byte>, done: bool)

  function NextItem(s: State): Item {
    if s.done || s.rest == [] then End
    else
      match ReadRecord(s.rest)
      case Bad(e) => Failed(e)
      case Ok(rec, _) => Rec(rec)
  }

  function NextState(s: State): State {
    if s.done || s.rest == [] then s.(done := true)
    else
      match ReadRecord(s.rest)
      case Bad(_) => s
      case Ok(rec, rest) => State(rest, rec.Finish?)
  }

  /** What a caller collects by asking for the next record until the end or an error. */
  function Drain(s: State): Result<seq<Record>>
    decreases |s.rest|, !s.done
  {
    match NextItem(s)
    case End => Success([])
    case Failed(e) => Failure(e)
    case Rec(rec) =>
      ReadBodyShrinks(Varint.Decode(s.rest).value, Varint.Decode(s.rest).rest);
      var recs :- Drain(NextState(s));
      Success([rec] + recs)
  }

  /** On every byte string the streaming decoder delivers exactly what the in-memory parser returns. */
  lemma {:induction false} DrainIsParse(s: seq<byte>)
    ensures Drain(State(s, false)) == ParseBody(s)
    decreases |s|
  {
    hide Varint.Decode, ReadBody;
    if s != [] && ReadRecord(s).Ok? {
      ReadBodyShrinks(Varint.Decode(s).value, Varint.Decode(s).rest);
      var r := ReadRecord(s);
      if r.value.Finish? {
        assert [r.value] + [] == [r.value];
      } else {
        DrainIsParse(r.rest);
      }
    }
  }

  class Decoder {
    const r: Reader
    var done: bool

    ghost function Abs(): State
      reads this, r
    {
      State(r.rest, done)
    }

    constructor (r: Reader)
      ensures this.r == r && !done
    {
      this.r, done := r, false;
    }

    /** Decodes exactly one record. After a failure the stream is not usable any more. */
    method Next() returns (item: Item)
      modifies this, r
      ensures item == NextItem(old(Abs()))
      ensures !item.Failed? ==> Abs() == NextState(old(Abs()))
    {
      hide ReadBody, Varint.Decode;
      if done {
        return End;
      }
      if r.rest == [] {
        done := true;
        return End;
      }
      var n := r.ReadVarint();
      if n.Failure? {
        return Failed(n.error);
      }
      var rec := DecodeRecord(n.value);
      if rec.Failure? {
        return Failed(rec.error);
      }
      if rec.value.Finish? {
        done := true;
      }
      item := Rec(rec.value);
    }

    method ReadInt2() returns (res: Result<(int, int)>)
      modifies r
      ensures match ReadInts(old(r.rest), 2)
        case Ok(v, rest) => res == Success((v[0], v[1])) && r.rest == rest
        case Bad(e) => res == Failure(e)
    {
      hide Varint.Decode;
      TeehistorianFile.SplitInts(r.rest, 1);
      var a :- r.ReadVarint();
      var b :- r.ReadVarint();
      res := Success((a, b));
    }

    method ReadInt() returns (res: Result<int>)
      modifies r
      ensures match ReadInts(old(r.rest), 1)
        case Ok(v, rest) => res == Success(v[0]) && r.rest == rest
        case Bad(e) => res == Failure(e)
    {
      hide Varint.Decode;
      res := r.ReadVarint();
    }

    method ReadFields(n: nat) returns (res: Result<seq<int>>)
      modifies r
      ensures var spec := ReadInts(old(r.rest), n);
        res == spec.ToResult() && (spec.Ok? ==> r.rest == spec.rest)
    {
      hide Varint.Decode;
      ghost var all := ReadInts(r.rest, n);
      assert all.Ok? ==> [] + all.value == all.value;
      var arr: seq<int> := [];
      for i := 0 to n
        invariant |arr| == i
        invariant Collects(all, ReadInts(r.rest, n - i), arr)
      {
        ghost var before := r.rest;
        var v := r.ReadVarint();
        if v.Failure? {
          return Failure(v.error);
        }
        CollectInt(all, before, n - i, arr);
        arr := arr + [v.value];
      }
      assert arr + [] == arr;
      res := Success(arr);
    }

    method ReadBytes(size: int) returns (res: Result<seq<byte>>)
      modifies r
      ensures var spec := ReadRaw(old(r.rest), size);
        res == spec.ToResult() && (spec.Ok? ==> r.rest == spec.rest)
    {
      if size < 0 {
        return Failure(NegativeSize);
      }
      if size == 0 {
        return Success([]);
      }
      res := r.ReadFull(size);
    }

    method ReadArgs(num: nat) returns (res: Result<seq<seq<byte>>>)
      modifies r
      ensures var spec := ReadStrings(old(r.rest), num);
        res == spec.ToResult() && (spec.Ok? ==> r.rest == spec.rest)
    {
      hide ReadString;
      ghost var all := ReadStrings(r.rest, num);
      assert all.Ok? ==> [] + all.value == all.value;
      var args: seq<seq<byte>> := [];
      for i := 0 to num
        invariant |args| == i
        invariant Collects(all, ReadStrings(r.rest, num - i), args)
      {
        ghost var before := r.rest;
        var a := r.ReadBytesToZero();
        if a.Failure? {
          return Failure(a.error);
        }
        CollectString(all, before, num - i, args);
        args := args + [a.value];
      }
      assert args + [] == args;
      res := Success(args);
    }

    /** decodeRecord: the streaming counterpart of TeehistorianFile.ReadRecordAfter. */
    method DecodeRecord(n: int) returns (res: Result<Record>)
      modifies r
      ensures var spec := ReadBody(n, old(r.rest));
        res == spec.ToResult() && (spec.Ok? ==> r.rest == spec.rest)
    {
      hide Varint.Decode;
      ghost var s := r.rest;
      if n >= 0 {
        var d :- ReadInt2();
        return Success(PlayerDiff(n, d.0, d.1));
      }
      if -n == FINISH {
        return Success(Finish);
      } else if -n == TICK_SKIP {
        var dt :- ReadInt();
        return Success(TickSkip(dt));
      } else if -n == PLAYER_NEW {
        TeehistorianFile.SplitInts(s, 2);
        var cid :- r.ReadVarint();
        var p :- ReadInt2();
        return Success(PlayerNew(cid, p.0, p.1));
      } else if -n == PLAYER_OLD {
        var cid :- ReadInt();
        return Success(PlayerOld(cid));
      } else if -n == INPUT_DIFF || -n == INPUT_NEW {
        TeehistorianFile.SplitInts(s, 10);
        var cid :- r.ReadVarint();
        var input :- ReadFields(10);
        return Success(if -n == INPUT_NEW then InputNew(cid, input) else InputDiff(cid, input));
      } else if -n == MESSAGE {
        var head :- ReadInt2();
        var msg :- ReadBytes(head.1);
        return Success(Message(head.0, msg));
      } else if -n == JOIN {
        var cid :- ReadInt();
        return Success(Join(cid));
      } else if -n == DROP {
        var cid :- ReadInt();
        var reason :- r.ReadBytesToZero();
        return Success(Drop(cid, reason));
      } else if -n == CONSOLE_COMMAND {
        var head :- ReadInt2();
        var cmd :- r.ReadBytesToZero();
        var num :- ReadInt();
        if num < 0 {
          return Failure(Panic);
        }
        var args :- ReadArgs(num);
        return Success(ConsoleCommand(head.0, head.1, cmd, args));
      } else if -n == EX {
        var uuid :- r.ReadFull(16);
        var size :- ReadInt();
        var data :- ReadBytes(size);
        return Success(Ex(uuid, data));
      }
      res := Failure(UnknownMarker);
    }
  }

  /** The encoder, with the bytes its writer has received and, as ghosts, what was given to it. */
  class Encoder {
    var out: seq<byte>
    var buf: seq<byte>
    ghost const magic: UUID
    ghost const header: seq<byte>
    ghost var written: seq<Record>

    /** The writer holds what WriteTo would produce for the records written so far. */
    ghost predicate Valid()
      reads this
    {
      out == PrintFile(magic, File(header, written))
    }

    constructor (magic: UUID, header: seq<byte>)
      ensures Valid() && this.magic == magic && this.header == header && written == []
    {
      this.magic, this.header, written := magic, header, [];
      out, buf := magic + header + [0], [];
    }

    method Write(rec: Record)
      requires Valid()
      modifies this
      ensures Valid() && written == old(written) + [rec]
    {
      hide Print, PrintAll;
      buf := TeehistorianFile.WriteRecord([], rec);
      assert [] + Print(rec) == Print(rec);
      out := out + buf;
      PrintAllJoin(written, [rec]);
      PrintOne(rec);
      written := written + [rec];
    }
  }

  lemma PrintOne(rec: Record)
    ensures PrintAll([rec]) == Print(rec)
  {
    hide Print;
    assert PrintAll([rec][1..]) == [] && Print(rec) + [] == Print(rec);
  }

  lemma {:induction false} PrintAllJoin(a: seq<Record>, b: seq<Record>)
    ensures PrintAll(a + b) == PrintAll(a) + PrintAll(b)
  {
    hide Print;
    if a == [] {
      assert a + b == b;
    } else {
      PrintAllJoin(a[1..], b);
      assert (a + b)[1..] == a[1..] + b && (a + b)[0] == a[0];
      ThreeParts(Print(a[0]), PrintAll(a[1..]), PrintAll(b));
    }
  }
}
