/**
 Cursors over packed bytes. The functions say what each read yields from the bytes still unread;
 `Unpacker` (an index into a buffer) and `Reader` (a stream that hands out bytes on demand) are
 the two implementations, and both are proved to read what the functions say.
 */
module Cursor {
  import opened Wire
  import Varint

  function ReadRaw(s: seq<byte>, size: int): (r: Parsed<seq<byte>>)
    ensures r.Ok? ==> r.value + r.rest == s
  {
    if size < 0 then Bad(NegativeSize)
    else if size > |s| then Bad(Short)
    else Ok(s[..size], s[size..])
  }

  function ReadString(s: seq<byte>): (r: Parsed<seq<byte>>)
    ensures r.Ok? ==> 0 !in r.value && |r.rest| < |s|
  {
    if s == [] then Bad(Short)
    else if s[0] == 0 then Ok([], s[1..])
    else
      var (v, rest) :- ReadString(s[1..]);
      Ok([s[0]] + v, rest)
  }

  function ReadInts(s: seq<byte>, n: nat): (r: Parsed<seq<int>>)
    ensures r.Ok? ==> |r.value| == n && forall i :: 0 <= i < n ==> IsInt32(r.value[i])
    ensures r.Ok? ==> |r.rest| <= |s|
  {
    if n == 0 then Ok([], s)
    else
      var (v, s') :- Varint.Decode(s);
      var (vs, rest) :- ReadInts(s', n - 1);
      Ok([v] + vs, rest)
  }

  function ReadStrings(s: seq<byte>, n: nat): (r: Parsed<seq<seq<byte>>>)
    ensures r.Ok? ==> |r.value| == n && forall i :: 0 <= i < n ==> 0 !in r.value[i]
    ensures r.Ok? ==> |r.rest| <= |s|
    decreases n
  {
    if n == 0 then Ok([], s)
    else
      var (v, s') :- ReadString(s);
      var (vs, rest) :- ReadStrings(s', n - 1);
      Ok([v] + vs, rest)
  }

  // ---------- sanitizing a string

  /** Replace control characters but line ends and tabs; replace all of them; skip blanks at the front. */
  datatype Flags = Flags(basic: bool, controls: bool, skipBlanks: bool)

  const PLAIN := Flags(false, false, false)

  predicate IsLineOrTab(b: byte) {
    b == 13 || b == 10 || b == 9
  }

  predicate IsBlank(b: byte) {
    b == 32 || b == 9 || b == 10
  }

  function Cleaned(b: byte, f: Flags): byte {
    if f.controls then (if b < 32 then 32 else b)
    else if f.basic && b < 32 && !IsLineOrTab(b) then 32
    else b
  }

  function SkipBlanks(s: seq<byte>): (t: seq<byte>)
    ensures t != [] ==> !IsBlank(t[0])
  {
    if s != [] && IsBlank(s[0]) then SkipBlanks(s[1..]) else s
  }

  function Kept(s: seq<byte>, f: Flags): seq<byte> {
    if f.skipBlanks then SkipBlanks(s) else s
  }

  function Sanitized(s: seq<byte>, f: Flags): (t: seq<byte>)
    ensures |t| == |Kept(s, f)| && forall k :: 0 <= k < |t| ==> t[k] == Cleaned(Kept(s, f)[k], f)
  {
    var kept := Kept(s, f);
    seq(|kept|, k requires 0 <= k < |kept| => Cleaned(kept[k], f))
  }

  lemma SanitizedPlain(s: seq<byte>, f: Flags)
    ensures (!f.skipBlanks && forall k :: 0 <= k < |s| ==> Cleaned(s[k], f) == s[k]) ==> Sanitized(s, f) == s
    ensures f == PLAIN ==> Sanitized(s, f) == s
  {
    if !f.skipBlanks && forall k :: 0 <= k < |s| ==> Cleaned(s[k], f) == s[k] {
      assert Sanitized(s, f) == s;
    }
  }

  /** The first byte that is kept is a control character that is replaced by a space. */
  predicate BlankAgain(s: seq<byte>, f: Flags) {
    f.skipBlanks && Kept(s, f) != [] && Cleaned(Kept(s, f)[0], f) == 32
  }

  /**
   What is left is clean, and sanitizing it again changes nothing, unless blanks are skipped and the string
   went on with a control character: that one becomes a blank at the front, which a second pass skips.
   */
  lemma SanitizedOnce(s: seq<byte>, f: Flags)
    ensures var t := Sanitized(s, f);
      && (forall k :: 0 <= k < |t| ==> (f.controls ==> t[k] >= 32) && (f.basic ==> t[k] >= 32 || IsLineOrTab(t[k])))
      && (Sanitized(t, f) == t <==> !BlankAgain(s, f))
  {
    hide SkipBlanks;
    var t := Sanitized(s, f);
    if BlankAgain(s, f) {
      assert t[0] == 32;
      SkipsOne(t);
      assert |Sanitized(t, f)| < |t|;
    } else {
      if f.skipBlanks && t != [] {
        assert !IsBlank(t[0]);
        SkipsNone(t);
      } else if t == [] {
        SkipsNone(t);
      }
      assert Kept(t, f) == t;
      assert forall k :: 0 <= k < |t| ==> Cleaned(t[k], f) == t[k];
    }
  }

  /** Which control characters the flags forbid. */
  predicate Forbidden(b: byte, f: Flags) {
    b < 32 && (f.controls || (f.basic && !IsLineOrTab(b)))
  }

  lemma {:induction false} Skipped(s: seq<byte>) returns (n: nat)
    ensures n <= |s| && SkipBlanks(s) == s[n..] && forall i :: 0 <= i < n ==> IsBlank(s[i])
  {
    if s != [] && IsBlank(s[0]) {
      var rest := Skipped(s[1..]);
      n := rest + 1;
      assert s[n..] == s[1..][rest..];
      assert forall i :: 1 <= i < n ==> s[i] == s[1..][i - 1];
    } else {
      n := 0;
    }
  }

  /** Only blanks at the front are dropped, if asked for; forbidden characters become spaces; all others stay. */
  lemma SanitizingKeeps(s: seq<byte>, f: Flags) returns (n: nat)
    ensures n <= |s| && (forall i :: 0 <= i < n ==> IsBlank(s[i])) && (n > 0 ==> f.skipBlanks)
    ensures f.skipBlanks && n < |s| ==> !IsBlank(s[n])
    ensures var t := Sanitized(s, f);
      |t| == |s| - n && forall k :: 0 <= k < |t| ==> t[k] == if Forbidden(s[n + k], f) then 32 else s[n + k]
  {
    hide SkipBlanks;
    n := 0;
    if f.skipBlanks {
      n := Skipped(s);
    }
    assert Kept(s, f) == s[n..];
  }

  lemma BlankAgainExample()
    ensures var f := Flags(true, false, true);
      Sanitized([32, 1, 65], f) == [32, 65] && Sanitized([32, 65], f) == [65]
  {
    assert [32, 1, 65][1..] == [1, 65] && [32, 65][1..] == [65];
    assert SkipBlanks([1, 65]) == [1, 65] && SkipBlanks([65]) == [65];
  }

  lemma SanitizingExamples()
    ensures Sanitized([9, 10, 13, 31, 65, 200], Flags(true, false, false)) == [9, 10, 13, 32, 65, 200]
    ensures Sanitized([9, 10, 13, 31, 65, 200], Flags(false, true, false)) == [32, 32, 32, 32, 65, 200]
    ensures Sanitized([32, 9, 10, 13, 32, 31], Flags(false, false, true)) == [13, 32, 31]
  {
    var s := [32, 9, 10, 13, 32, 31];
    assert s[1..][1..][1..] == [13, 32, 31];
    SkipsNone([13, 32, 31]);
    assert SkipBlanks(s) == SkipBlanks(s[1..]) == SkipBlanks(s[1..][1..]) == SkipBlanks(s[1..][1..][1..]);
  }

  lemma SkipsOne(s: seq<byte>)
    requires s != [] && IsBlank(s[0])
    ensures |SkipBlanks(s)| < |s|
  {
    assert SkipBlanks(s) == SkipBlanks(s[1..]);
    SkipsSome(s[1..]);
  }

  lemma {:induction false} SkipsSome(s: seq<byte>)
    ensures |SkipBlanks(s)| <= |s|
  {
    if s != [] {
      SkipsSome(s[1..]);
    }
  }

  lemma SkipsNone(s: seq<byte>)
    requires s != [] ==> !IsBlank(s[0])
    ensures SkipBlanks(s) == s
  {
  }

  /** The copying loop of the sanitizer. */
  method CleanCopy(raw: seq<byte>, f: Flags) returns (buf: seq<byte>)
    ensures buf == Sanitized(raw, f)
  {
    buf := [];
    var skipping := f.skipBlanks;
    for i := 0 to |raw|
      invariant skipping ==> buf == [] && f.skipBlanks && SkipBlanks(raw) == SkipBlanks(raw[i..])
      invariant !skipping ==> |buf| <= i && Kept(raw, f) == raw[i - |buf|..]
      invariant !skipping ==> forall k :: 0 <= k < |buf| ==> buf[k] == Cleaned(raw[i - |buf| + k], f)
    {
      var b := raw[i];
      if skipping {
        assert raw[i..][1..] == raw[i + 1..];
        if IsBlank(b) {
          continue;
        }
        skipping := false;
      }
      buf := buf + [Cleaned(b, f)];
    }
    assert skipping ==> raw[|raw|..] == [];
  }

  function AppendInts(vs: seq<int>): seq<byte> {
    if vs == [] then [] else Varint.PackInt(vs[0]) + AppendInts(vs[1..])
  }

  function AppendStr(s: seq<byte>): seq<byte> {
    s + [0]
  }

  function AppendStrs(ss: seq<seq<byte>>): seq<byte> {
    if ss == [] then [] else AppendStr(ss[0]) + AppendStrs(ss[1..])
  }

  lemma ThreeParts(a: seq<byte>, b: seq<byte>, c: seq<byte>)
    ensures a + (b + c) == a + b + c
  {
  }

  lemma {:induction false} ReadStringOfAppend(s: seq<byte>, rest: seq<byte>)
    requires 0 !in s
    ensures ReadString(AppendStr(s) + rest) == Ok(s, rest)
  {
    if s == [] {
      assert (AppendStr(s) + rest)[1..] == rest;
    } else {
      ReadStringOfAppend(s[1..], rest);
      var all := AppendStr(s) + rest;
      assert all[0] == s[0] && all[1..] == AppendStr(s[1..]) + rest;
      assert [s[0]] + s[1..] == s;
    }
  }

  lemma {:induction false} ReadStringsOfAppend(ss: seq<seq<byte>>, rest: seq<byte>)
    requires forall i :: 0 <= i < |ss| ==> 0 !in ss[i]
    ensures ReadStrings(AppendStrs(ss) + rest, |ss|) == Ok(ss, rest)
  {
    hide ReadString, AppendStr;
    if ss == [] {
      assert AppendStrs(ss) + rest == rest;
    } else {
      var tail := AppendStrs(ss[1..]) + rest;
      ReadStringsOfAppend(ss[1..], rest);
      ReadStringOfAppend(ss[0], tail);
      ThreeParts(AppendStr(ss[0]), AppendStrs(ss[1..]), rest);
      assert [ss[0]] + ss[1..] == ss;
    }
  }

  lemma AppendIntsCons(vs: seq<int>, rest: seq<byte>)
    requires vs != []
    ensures AppendInts(vs) + rest == Varint.PackInt(vs[0]) + (AppendInts(vs[1..]) + rest)
  {
    hide Varint.PackInt;
    var head, tail := Varint.PackInt(vs[0]), AppendInts(vs[1..]);
    assert head + tail + rest == head + (tail + rest);
  }

  /** Appending integers one by one is appending them all. */
  lemma {:induction false} AppendIntsJoin(a: seq<int>, b: seq<int>)
    ensures AppendInts(a + b) == AppendInts(a) + AppendInts(b)
  {
    hide Varint.PackInt;
    if a == [] {
      assert a + b == b;
    } else {
      AppendIntsJoin(a[1..], b);
      assert (a + b)[0] == a[0] && (a + b)[1..] == a[1..] + b;
      ThreeParts(Varint.PackInt(a[0]), AppendInts(a[1..]), AppendInts(b));
    }
  }

  lemma {:induction false} ReadIntsOfAppend(vs: seq<int>, rest: seq<byte>)
    requires forall i :: 0 <= i < |vs| ==> IsInt32(vs[i])
    ensures ReadInts(AppendInts(vs) + rest, |vs|) == Ok(vs, rest)
  {
    hide Varint.PackInt, Varint.Decode;
    if vs == [] {
      assert AppendInts(vs) + rest == rest;
    } else {
      ReadIntsOfAppend(vs[1..], rest);
      AppendIntsCons(vs, rest);
      Varint.DecodeOfPack(vs[0], AppendInts(vs[1..]) + rest);
      assert [vs[0]] + vs[1..] == vs;
    }
  }

  lemma ReadRawOfAppend(v: seq<byte>, rest: seq<byte>)
    ensures ReadRaw(v + rest, |v|) == Ok(v, rest)
  {
  }

  /** packer.AppendInt */
  method AppendInt(b: seq<byte>, v: int) returns (b': seq<byte>)
    ensures b' == b + AppendInts([v])
  {
    hide Varint.PackInt;
    b' := b + Varint.PackInt(v);
    assert AppendInts([v]) == Varint.PackInt(v) + AppendInts([]);
  }

  method AppendEach(b: seq<byte>, vs: seq<int>) returns (b': seq<byte>)
    ensures b' == b + AppendInts(vs)
  {
    hide Varint.PackInt;
    b' := b;
    for i := 0 to |vs|
      invariant b' == b + AppendInts(vs[..i])
    {
      AppendIntsJoin(vs[..i], [vs[i]]);
      assert vs[..i] + [vs[i]] == vs[..i + 1];
      b' := AppendInt(b', vs[i]);
      assert b' == b + (AppendInts(vs[..i]) + AppendInts([vs[i]]));
    }
    assert vs[..|vs|] == vs;
  }

  /** packer.Unpacker. */
  class Unpacker {
    var data: seq<byte>
    var idx: nat

    ghost predicate Valid()
      reads this
    {
      idx <= |data|
    }

    ghost function Rest(): seq<byte>
      requires Valid()
      reads this
    {
      data[idx..]
    }

    constructor (data: seq<byte>)
      ensures Valid() && Rest() == data
    {
      this.data, idx := data, 0;
    }

    method Reset(data: seq<byte>)
      modifies this
      ensures Valid() && Rest() == data
    {
      this.data, idx := data, 0;
    }

    method RemainingSize() returns (n: nat)
      requires Valid()
      ensures n == |Rest()|
    {
      n := |data| - idx;
    }

    /** Consumes and returns everything that is left. */
    method TakeRest() returns (rest: seq<byte>)
      requires Valid()
      modifies this
      ensures Valid() && rest == old(Rest()) && Rest() == []
    {
      rest := data[idx..];
      idx := |data|;
    }

    method NextByte() returns (r: Result<byte>)
      requires Valid()
      modifies this
      ensures Valid()
      ensures r == if old(Rest()) == [] then Failure(Short) else Success(old(Rest())[0])
      ensures Rest() == if r.Success? then old(Rest())[1..] else old(Rest())
    {
      if |data| - idx < 1 {
        return Failure(Short);
      }
      r := Success(data[idx]);
      idx := idx + 1;
    }

    method NextRaw(size: int) returns (r: Result<seq<byte>>)
      requires Valid()
      modifies this
      ensures Valid()
      ensures var spec := ReadRaw(old(Rest()), size);
        r == spec.ToResult() && Rest() == if spec.Ok? then spec.rest else old(Rest())
    {
      if size < 0 {
        return Failure(NegativeSize);
      }
      if idx + size > |data| {
        return Failure(Short);
      }
      r := Success(data[idx..idx + size]);
      assert data[idx..][..size] == data[idx..idx + size] && data[idx..][size..] == data[idx + size..];
      idx := idx + size;
    }

    /** The varint library decodes from the slice; a failed decode leaves the cursor in place. */
    method NextInt() returns (r: Result<int>)
      requires Valid()
      modifies this
      ensures Valid()
      ensures var spec := Varint.Decode(old(Rest()));
        r == spec.ToResult() && Rest() == if spec.Ok? then spec.rest else old(Rest())
    {
      var decoded := Varint.Decode(data[idx..]);
      match decoded {
        case Bad(e) =>
          return Failure(e);
        case Ok(v, rest) =>
          ghost var c := Varint.EncodeOfDecode(data[idx..]);
          r := Success(v);
          idx := |data| - |rest|;
          assert data[idx..] == data[old(idx)..][|c|..];
      }
    }

    /** The scan for the terminator: the bytes before it, and the cursor behind it. */
    method NextUntilZero() returns (r: Result<seq<byte>>)
      requires Valid()
      modifies this
      ensures Valid()
      ensures var spec := ReadString(old(Rest()));
        r == spec.ToResult() && Rest() == if spec.Ok? then spec.rest else old(Rest())
    {
      hide ReadString;
      ghost var spec := ReadString(Rest());
      var nul := idx;
      while nul < |data| && data[nul] != 0
        invariant idx == old(idx) && data == old(data) && idx <= nul <= |data|
        invariant 0 !in data[idx..nul]
      {
        nul := nul + 1;
      }
      if nul == |data| {
        ReadStringFails(data[idx..]);
        return Failure(Short);
      }
      r := Success(data[idx..nul]);
      assert data[idx..] == AppendStr(data[idx..nul]) + data[nul + 1..];
      ReadStringOfAppend(data[idx..nul], data[nul + 1..]);
      idx := nul + 1;
    }

    /** The string, sanitized; one that needs no work is returned as it lies there. */
    method NextStringSanitized(f: Flags) returns (r: Result<seq<byte>>)
      requires Valid()
      modifies this
      ensures Valid()
      ensures match ReadString(old(Rest()))
        case Bad(e) => r == Failure(e) && Rest() == old(Rest())
        case Ok(raw, rest) => r == Success(Sanitized(raw, f)) && Rest() == rest && (f == PLAIN ==> r.value == raw)
    {
      hide ReadString, SkipBlanks;
      var raw :- NextUntilZero();
      SanitizedPlain(raw, f);
      var needsWork := f.skipBlanks;
      var k := 0;
      while k < |raw| && !needsWork
        invariant k <= |raw|
        invariant !needsWork ==> !f.skipBlanks && forall j :: 0 <= j < k ==> Cleaned(raw[j], f) == raw[j]
      {
        needsWork := raw[k] < 32 && (f.controls || (f.basic && !IsLineOrTab(raw[k])));
        k := k + 1;
      }
      if !needsWork {
        return Success(raw);
      }
      var clean := CleanCopy(raw, f);
      r := Success(clean);
    }

    method NextInts(n: nat) returns (r: Result<seq<int>>)
      requires Valid()
      modifies this
      ensures Valid()
      ensures var spec := ReadInts(old(Rest()), n);
        r == spec.ToResult() && (spec.Ok? ==> Rest() == spec.rest)
    {
      hide Varint.Decode;
      ghost var all := ReadInts(Rest(), n);
      var dst: seq<int> := [];
      assert all.Ok? ==> [] + all.value == all.value;
      for i := 0 to n
        invariant Valid() && |dst| == i
        invariant Collects(all, ReadInts(Rest(), n - i), dst)
      {
        ghost var before := Rest();
        var v := NextInt();
        if v.Failure? {
          return Failure(v.error);
        }
        CollectInt(all, before, n - i, dst);
        dst := dst + [v.value];
      }
      assert dst + [] == dst;
      r := Success(dst);
    }
  }

  /** The whole read yields what was read so far followed by what is still to be read. */
  ghost predicate Collects<T>(all: Parsed<seq<T>>, now: Parsed<seq<T>>, dst: seq<T>) {
    match now
    case Bad(e) => all == Bad(e)
    case Ok(vs, rest) => all == Ok(dst + vs, rest)
  }

  lemma CollectInt(all: Parsed<seq<int>>, s: seq<byte>, n: nat, dst: seq<int>)
    requires n > 0 && Varint.Decode(s).Ok?
    requires Collects(all, ReadInts(s, n), dst)
    ensures Collects(all, ReadInts(Varint.Decode(s).rest, n - 1), dst + [Varint.Decode(s).value])
  {
    var d := Varint.Decode(s);
    var now := ReadInts(d.rest, n - 1);
    if now.Ok? {
      assert dst + ([d.value] + now.value) == dst + [d.value] + now.value;
    }
  }

  lemma CollectString(all: Parsed<seq<seq<byte>>>, s: seq<byte>, n: nat, dst: seq<seq<byte>>)
    requires n > 0 && ReadString(s).Ok?
    requires Collects(all, ReadStrings(s, n), dst)
    ensures Collects(all, ReadStrings(ReadString(s).rest, n - 1), dst + [ReadString(s).value])
  {
    var d := ReadString(s);
    var now := ReadStrings(d.rest, n - 1);
    if now.Ok? {
      assert dst + ([d.value] + now.value) == dst + [d.value] + now.value;
    }
  }

  lemma ReadStringFails(s: seq<byte>)
    requires 0 !in s
    ensures ReadString(s) == Bad(Short)
  {
    if s != [] {
      ReadStringFails(s[1..]);
    }
  }

  /** A buffered stream: bytes are pulled off the front and are gone. */
  class Reader {
    var rest: seq<byte>

    constructor (data: seq<byte>)
      ensures rest == data
    {
      rest := data;
    }

    method ReadByte() returns (r: Result<byte>)
      modifies this
      ensures r == if old(rest) == [] then Failure(Short) else Success(old(rest)[0])
      ensures rest == if r.Success? then old(rest)[1..] else old(rest)
    {
      if rest == [] {
        return Failure(Short);
      }
      r := Success(rest[0]);
      rest := rest[1..];
    }

    /** io.ReadFull into a buffer of n bytes. A short stream is drained. */
    method ReadFull(n: nat) returns (r: Result<seq<byte>>)
      modifies this
      ensures var spec := ReadRaw(old(rest), n);
        r == spec.ToResult() && rest == if spec.Ok? then spec.rest else []
    {
      if n > |rest| {
        rest := [];
        return Failure(Short);
      }
      r := Success(rest[..n]);
      rest := rest[n..];
    }

    /** ReadBytes(0) without the terminator. */
    method ReadBytesToZero() returns (r: Result<seq<byte>>)
      modifies this
      ensures var spec := ReadString(old(rest));
        r == spec.ToResult() && (spec.Ok? ==> rest == spec.rest)
    {
      hide ReadString;
      var raw: seq<byte> := [];
      while rest != [] && rest[0] != 0
        invariant 0 !in raw && old(rest) == raw + rest
        decreases |rest|
      {
        raw, rest := raw + [rest[0]], rest[1..];
      }
      if rest == [] {
        ReadStringFails(old(rest));
        return Failure(Short);
      }
      ReadStringOfAppend(raw, rest[1..]);
      assert old(rest) == AppendStr(raw) + rest[1..];
      rest := rest[1..];
      r := Success(raw);
    }

    /** readVarint of the streaming decoder: the value is collected byte by byte, low bits first. */
    method ReadVarint() returns (r: Result<int>)
      modifies this
      ensures var spec := Varint.Decode(old(rest));
        r == spec.ToResult() && (spec.Ok? ==> rest == spec.rest)
    {
      hide Varint.DecodeTail, Varint.Signed;
      var head := ReadByte();
      if head.Failure? {
        return head;
      }
      var first: byte := head.value;
      var value: nat := first % 0x40;
      if first >= 0x80 {
        value :- ReadTail(value);
      }
      r := Success(Varint.Signed(first, value));
    }

    /** The continuation bytes, on top of the six bits of the first one. */
    method ReadTail(low: nat) returns (r: Result<nat>)
      modifies this
      ensures match Varint.DecodeTail(old(rest), 0)
        case Bad(e) => r == Failure(e)
        case Ok(v, after) => r == Success(low + 0x40 * v) && rest == after
    {
      hide Varint.DecodeTail, ContinuesTail;
      ghost var tail := Varint.DecodeTail(rest, 0);
      StartTail(tail, low);
      var value: nat := low;
      var i := 0;
      while i < 4
        invariant 0 <= i <= 3
        invariant ContinuesTail(tail, Varint.DecodeTail(rest, i), low, value, i)
        decreases 4 - i
      {
        ghost var before := rest;
        EndTail(tail, before, i, low, value);
        var next := ReadByte();
        if next.Failure? {
          return Failure(Short);
        }
        if i == 3 && next.value > 0x0F {
          return Failure(BadVarint);
        }
        var bits: byte := next.value % 0x80;
        value := value + ShiftLeft(bits, i);  // these bits are all above the collected ones
        if next.value < 0x80 {
          FinishTail(tail, before, i, low, value - ShiftLeft(bits, i));
          break;
        }
        ContinueTail(tail, before, i, low, value - ShiftLeft(bits, i));
        i := i + 1;
      }
      r := Success(value);
    }
  }

  /** v << (6 + 7*i) */
  function ShiftLeft(v: nat, i: nat): nat {
    if i == 0 then 0x40 * v else if i == 1 then 0x2000 * v else if i == 2 then 0x10_0000 * v else 0x800_0000 * v
  }

  /** The whole tail decodes to what the bits collected so far and the tail still to come make. */
  ghost predicate ContinuesTail(tail: Parsed<nat>, now: Parsed<nat>, low: nat, value: nat, i: nat) {
    match now
    case Bad(e) => tail == Bad(e)
    case Ok(v, rest) => tail.Ok? && tail.rest == rest && low + 0x40 * tail.value == value + ShiftLeft(v, i)
  }

  lemma StartTail(tail: Parsed<nat>, low: nat)
    ensures ContinuesTail(tail, tail, low, low, 0)
  {
  }

  lemma EndTail(tail: Parsed<nat>, s: seq<byte>, i: nat, low: nat, value: nat)
    requires i <= 3 && ContinuesTail(tail, Varint.DecodeTail(s, i), low, value, i)
    ensures s == [] ==> tail == Bad(Short)
    ensures s != [] && i == 3 && s[0] > 0x0F ==> tail == Bad(BadVarint)
  {
  }

  lemma ShiftParts(low: nat, high: nat, i: nat)
    requires i <= 2
    ensures ShiftLeft(low + 0x80 * high, i) == ShiftLeft(low, i) + ShiftLeft(high, i + 1)
  {
  }

  lemma FinishTail(tail: Parsed<nat>, s: seq<byte>, i: nat, low: nat, value: nat)
    requires i <= 3 && s != [] && (i == 3 ==> s[0] <= 0x0F) && s[0] < 0x80
    requires ContinuesTail(tail, Varint.DecodeTail(s, i), low, value, i)
    ensures tail.Ok? && tail.rest == s[1..] && low + 0x40 * tail.value == value + ShiftLeft(s[0], i)
  {
    hide ShiftLeft;
  }

  lemma ContinueTail(tail: Parsed<nat>, s: seq<byte>, i: nat, low: nat, value: nat)
    requires i <= 2 && s != [] && s[0] >= 0x80
    requires ContinuesTail(tail, Varint.DecodeTail(s, i), low, value, i)
    ensures ContinuesTail(tail, Varint.DecodeTail(s[1..], i + 1), low, value + ShiftLeft(s[0] % 0x80, i), i + 1)
  {
    hide ShiftLeft;
    assert s[0] - 0x80 == s[0] % 0x80;
    var now := Varint.DecodeTail(s[1..], i + 1);
    if now.Ok? {
      ShiftParts(s[0] - 0x80, now.value, i);
    }
  }
}
