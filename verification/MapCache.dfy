/**
 The download-once cache of maps, shared by any number of goroutines. Each stretch of code under the lock
 is one step; what a goroutine does before and after it (wait for a channel, close a channel) are steps of
 their own, so every interleaving is a run.
 */
module MapCache {
  import opened Wire

  type Hash = s: seq<byte> | |s| == 32 witness seq(32, _ => 0)

  function HexDigit(n: int): char
    requires 0 <= n < 16
  {
    "0123456789abcdef"[n]
  }

  function Hex(s: seq<byte>): (h: string)
    ensures |h| == 2 * |s|
  {
    if s == [] then "" else [HexDigit(s[0] / 16), HexDigit(s[0] % 16)] + Hex(s[1..])
  }

  /** Name and checksum as one string. */
  function CacheKey(name: string, sha256: Hash): string {
    name + ":" + Hex(sha256)
  }

  lemma {:induction false} HexIsInjective(a: seq<byte>, b: seq<byte>)
    requires Hex(a) == Hex(b)
    ensures a == b
  {
    assert |a| == |b|;
    if a != [] {
      var x, y := Hex(a), Hex(b);
      assert x[0] == y[0] && x[1] == y[1] && x[2..] == Hex(a[1..]) && y[2..] == Hex(b[1..]);
      DigitIsInjective(a[0] / 16, b[0] / 16);
      DigitIsInjective(a[0] % 16, b[0] % 16);
      HexIsInjective(a[1..], b[1..]);
      assert a == [a[0]] + a[1..] && b == [b[0]] + b[1..];
    }
  }

  lemma DigitIsInjective(m: int, n: int)
    requires 0 <= m < 16 && 0 <= n < 16 && HexDigit(m) == HexDigit(n)
    ensures m == n
  {
  }

  /** Different maps have different keys, also when a name contains a colon. */
  lemma CacheKeyIsInjective(name: string, sha256: Hash, name': string, sha256': Hash)
    ensures CacheKey(name, sha256) == CacheKey(name', sha256') <==> name == name' && sha256 == sha256'
  {
    var k, k' := CacheKey(name, sha256), CacheKey(name', sha256');
    if k == k' {
      var n, n' := |name|, |name'|;
      assert |k| == n + 65 && |k'| == n' + 65;
      assert k[n + 1..] == Hex(sha256) && k'[n' + 1..] == Hex(sha256');
      assert k[..n] == name && k'[..n'] == name';
      HexIsInjective(sha256, sha256');
    }
  }

  type Key = string

  /** A parsed map. Put may also be given nil. */
  type Map = Option<int>

  /** The fields of the cache. Channels are numbered as they are made. */
  datatype Cache = Cache(maps: map<Key, Map>, pending: map<Key, nat>, made: nat)

  datatype Outcome = Cached(m: Map) | WaitFor(ch: nat) | Registered

  function AskOutcome(c: Cache, key: Key): Outcome {
    if key in c.maps then Cached(c.maps[key]) else if key in c.pending then WaitFor(c.pending[key]) else Registered
  }

  /** GetOrWait up to where it waits or returns. */
  function Ask(c: Cache, key: Key): Cache {
    if AskOutcome(c, key).Registered? then c.(pending := c.pending[key := c.made], made := c.made + 1) else c
  }

  /** What GetOrWait returns after waiting. */
  function Reread(c: Cache, key: Key): (Map, bool) {
    var m := if key in c.maps then c.maps[key] else None;
    (m, m.Some?)
  }

  /** The channel that Put or PutFailed has to close after the lock is released. */
  function Retired(c: Cache, key: Key): Option<nat> {
    if key in c.pending then Some(c.pending[key]) else None
  }

  function Store(c: Cache, key: Key, m: Map): Cache {
    c.(maps := c.maps[key := m], pending := c.pending - {key})
  }

  function GiveUp(c: Cache, key: Key): Cache {
    c.(pending := c.pending - {key})
  }

  /** The cache itself: one method for each stretch of code under the lock. */
  class Shared {
    var maps: map<Key, Map>
    var pending: map<Key, nat>
    var made: nat

    constructor ()
      ensures Abs() == Cache(map[], map[], 0)
    {
      maps, pending, made := map[], map[], 0;
    }

    function Abs(): Cache
      reads this
    {
      Cache(maps, pending, made)
    }

    method AskLocked(key: Key) returns (r: Outcome)
      modifies this
      ensures r == AskOutcome(old(Abs()), key) && Abs() == Ask(old(Abs()), key)
    {
      if key in maps {
        return Cached(maps[key]);
      }
      if key in pending {
        return WaitFor(pending[key]);
      }
      var ch := made;
      made := made + 1;
      pending := pending[key := ch];
      r := Registered;
    }

    method RereadLocked(key: Key) returns (m: Map, ok: bool)
      ensures (m, ok) == Reread(Abs(), key)
    {
      m := if key in maps then maps[key] else None;
      ok := m != None;
    }

    method PutLocked(key: Key, m: Map) returns (ch: Option<nat>)
      modifies this
      ensures ch == Retired(old(Abs()), key) && Abs() == Store(old(Abs()), key, m)
    {
      maps := maps[key := m];
      ch := if key in pending then Some(pending[key]) else None;
      pending := pending - {key};
    }

    method PutFailedLocked(key: Key) returns (ch: Option<nat>)
      modifies this
      ensures ch == Retired(old(Abs()), key) && Abs() == GiveUp(old(Abs()), key)
    {
      ch := if key in pending then Some(pending[key]) else None;
      pending := pending - {key};
    }
  }

  // ---------- goroutines

  type Goroutine = nat

  datatype Phase =
    | Idle
    | Waiting(key: Key, ch: nat)   // in GetOrWait, at the channel
    | Woken(key: Key, ch: nat)     // past the channel, not yet at the lock
    | Closing(ch: nat)             // in Put or PutFailed, past the lock

  /** What a call of GetOrWait returned, and the channel it waited for, if it did. */
  datatype Return = Return(key: Key, m: Map, ok: bool, waited: Option<nat>)

  /** Why a channel was taken out of `pending`. */
  datatype Reason = ByPut(m: Map) | ByFailure

  /**
   The cache, the goroutines, the closed channels, whether a channel was ever closed twice; and what an
   observer notes: each channel's key, why it was retired, and every map that was ever put for a key.
   */
  datatype World = World(
    cache: Cache, phases: map<Goroutine, Phase>, closed: set<nat>, panicked: bool,
    keyOf: map<nat, Key>, reasons: map<nat, Reason>, puts: set<(Key, Map)>)

  datatype Step =
    | GetOrWait(g: Goroutine, key: Key)
    | Wake(g: Goroutine)
    | Resume(g: Goroutine)
    | Put(g: Goroutine, key: Key, m: Map)
    | PutFailed(g: Goroutine, key: Key)
    | Close(g: Goroutine)

  function PhaseOf(w: World, g: Goroutine): Phase {
    if g in w.phases then w.phases[g] else Idle
  }

  predicate Enabled(w: World, s: Step) {
    match s
    case GetOrWait(g, _) => PhaseOf(w, g).Idle?
    case Wake(g) => PhaseOf(w, g).Waiting? && PhaseOf(w, g).ch in w.closed
    case Resume(g) => PhaseOf(w, g).Woken?
    case Put(g, _, _) => PhaseOf(w, g).Idle?
    case PutFailed(g, _) => PhaseOf(w, g).Idle?
    case Close(g) => PhaseOf(w, g).Closing?
  }

  function Retire(w: World, g: Goroutine, key: Key, reason: Reason): World {
    match Retired(w.cache, key)
    case None => w
    case Some(ch) => w.(phases := w.phases[g := Closing(ch)], reasons := w.reasons[ch := reason])
  }

  function Perform(w: World, s: Step): World
    requires Enabled(w, s)
  {
    match s
    case GetOrWait(g, key) =>
      var w' := w.(cache := Ask(w.cache, key));
      (match AskOutcome(w.cache, key)
       case Cached(_) => w'
       case WaitFor(ch) => w'.(phases := w.phases[g := Waiting(key, ch)])
       case Registered => w'.(keyOf := w.keyOf[w.cache.made := key]))
    case Wake(g) => w.(phases := w.phases[g := Woken(w.phases[g].key, w.phases[g].ch)])
    case Resume(g) => w.(phases := w.phases[g := Idle])
    case Put(g, key, m) =>
      Retire(w, g, key, ByPut(m)).(cache := Store(w.cache, key, m), puts := w.puts + {(key, m)})
    case PutFailed(g, key) => Retire(w, g, key, ByFailure).(cache := GiveUp(w.cache, key))
    case Close(g) =>
      var ch := w.phases[g].ch;
      w.(phases := w.phases[g := Idle], closed := w.closed + {ch}, panicked := w.panicked || ch in w.closed)
  }

  /** What the step returns to the caller of GetOrWait. */
  function Returned(w: World, s: Step): Option<Return>
    requires Enabled(w, s)
  {
    match s
    case GetOrWait(_, key) =>
      (match AskOutcome(w.cache, key)
       case Cached(m) => Some(Return(key, m, true, None))
       case WaitFor(_) => None
       case Registered => Some(Return(key, None, false, None)))
    case Resume(g) =>
      var key := w.phases[g].key;
      Some(Return(key, Reread(w.cache, key).0, Reread(w.cache, key).1, Some(w.phases[g].ch)))
    case _ => None
  }

  predicate Begins(w: World) {
    w == World(Cache(map[], map[], 0), map[], {}, false, map[], map[], {})
  }

  ghost predicate IsRun(ws: seq<World>, ss: seq<Step>) {
    && |ws| == |ss| + 1 && Begins(ws[0])
    && forall k :: 0 <= k < |ss| ==> Enabled(ws[k], ss[k]) && ws[k + 1] == Perform(ws[k], ss[k])
  }

  // ---------- the invariant

  /** Every channel is pending for its key, or retired for one reason and then closed once. */
  predicate ChannelInv(w: World) {
    && !w.panicked
    && (forall k :: k in w.cache.pending ==> Pending(w, k))
    && (forall ch :: ch in w.keyOf ==> ch < w.cache.made)
    && (forall ch :: ch in w.reasons ==> RetiredFor(w, ch))
    && (forall ch :: ch in w.closed ==> ch in w.reasons)
  }

  predicate Pending(w: World, k: Key)
    requires k in w.cache.pending
  {
    var ch := w.cache.pending[k];
    ch in w.keyOf && w.keyOf[ch] == k && ch !in w.reasons
  }

  /** A channel that was retired by a Put has its key cached, with a map that was put for it. */
  predicate RetiredFor(w: World, ch: nat)
    requires ch in w.reasons
  {
    ch in w.keyOf && (w.reasons[ch].ByPut? ==> w.keyOf[ch] in w.cache.maps)
  }

  predicate IsCloser(w: World, g: Goroutine, ch: nat) {
    g in w.phases && w.phases[g] == Closing(ch)
  }

  /** A retired channel that is not closed yet has one closer. */
  ghost predicate CloserInv(w: World) {
    && (forall g, ch :: IsCloser(w, g, ch) ==> ch in w.reasons && ch !in w.closed)
    && (forall g, h, ch :: IsCloser(w, g, ch) && IsCloser(w, h, ch) ==> g == h)
    && forall ch :: ch in w.reasons && ch !in w.closed ==> exists g :: IsCloser(w, g, ch)
  }

  predicate WaiterOk(w: World, phase: Phase) {
    match phase
    case Waiting(key, ch) => ch in w.keyOf && w.keyOf[ch] == key && (ch in w.reasons || Retired(w.cache, key) == Some(ch))
    case Woken(key, ch) => ch in w.keyOf && w.keyOf[ch] == key && ch in w.closed
    case _ => true
  }

  predicate WaiterInv(w: World) {
    forall g :: g in w.phases ==> WaiterOk(w, w.phases[g])
  }

  predicate MapInv(w: World) {
    forall k :: k in w.cache.maps ==> (k, w.cache.maps[k]) in w.puts
  }

  ghost predicate Inv(w: World) {
    ChannelInv(w) && CloserInv(w) && WaiterInv(w) && MapInv(w)
  }

  /** The closers stay the same when nobody starts or ends closing and no channel is retired or closed. */
  lemma SameClosers(w: World, w': World)
    requires CloserInv(w) && w'.reasons == w.reasons && w'.closed == w.closed
    requires forall g, ch :: IsCloser(w, g, ch) <==> IsCloser(w', g, ch)
    ensures CloserInv(w')
  {
  }

  lemma RegisterKeepsChannels(w: World, key: Key)
    requires ChannelInv(w) && key !in w.cache.maps && key !in w.cache.pending
    ensures ChannelInv(w.(cache := Ask(w.cache, key), keyOf := w.keyOf[w.cache.made := key]))
  {
    var w' := w.(cache := Ask(w.cache, key), keyOf := w.keyOf[w.cache.made := key]);
    assert w.cache.made !in w.keyOf;
    forall k | k in w'.cache.pending ensures Pending(w', k) {
      assert k != key ==> Pending(w, k);
      assert w.cache.made in w.reasons ==> RetiredFor(w, w.cache.made);
    }
    forall ch | ch in w'.reasons ensures RetiredFor(w', ch) {
      assert RetiredFor(w, ch);
    }
  }

  lemma GetOrWaitKeeps(w: World, g: Goroutine, key: Key)
    requires Inv(w) && Enabled(w, GetOrWait(g, key))
    ensures Inv(Perform(w, GetOrWait(g, key)))
  {
    hide CloserInv;
    var w' := Perform(w, GetOrWait(g, key));
    SameClosers(w, w');
    match AskOutcome(w.cache, key) {
      case Cached(_) =>
      case WaitFor(ch) =>
        SamePhasesKeepChannels(w, w');
        assert Pending(w, key);
        forall h | h in w'.phases ensures WaiterOk(w', w'.phases[h]) {
          assert h != g ==> WaiterOk(w, w.phases[h]);
        }
      case Registered =>
        RegisterKeepsChannels(w, key);
        forall h | h in w'.phases ensures WaiterOk(w', w'.phases[h]) {
          assert WaiterOk(w, w.phases[h]);
        }
    }
  }

  lemma SamePhasesKeepChannels(w: World, w': World)
    requires ChannelInv(w) && w' == w.(phases := w'.phases)
    ensures ChannelInv(w')
  {
    assert forall k :: k in w.cache.pending ==> Pending(w, k);
    assert forall ch :: ch in w.reasons ==> RetiredFor(w, ch);
  }

  lemma RetireKeepsChannels(w: World, s: Step)
    requires Inv(w) && Enabled(w, s) && (s.Put? || s.PutFailed?)
    ensures ChannelInv(Perform(w, s))
  {
    hide CloserInv, WaiterInv, MapInv;
    var w' := Perform(w, s);
    forall k | k in w'.cache.pending ensures Pending(w', k) {
      assert Pending(w, k);
      assert s.key in w.cache.pending ==> Pending(w, s.key);
    }
    forall ch | ch in w'.reasons ensures RetiredFor(w', ch) {
      assert ch in w.reasons ==> RetiredFor(w, ch);
      assert s.key in w.cache.pending ==> Pending(w, s.key);
    }
  }

  lemma RetireKeepsWaiters(w: World, s: Step)
    requires Inv(w) && Enabled(w, s) && (s.Put? || s.PutFailed?)
    ensures WaiterInv(Perform(w, s))
  {
    hide CloserInv, MapInv;
    var w' := Perform(w, s);
    assert forall ch :: ch in w.reasons ==> ch in w'.reasons;
    forall h | h in w'.phases ensures WaiterOk(w', w'.phases[h]) {
      assert h in w.phases ==> WaiterOk(w, w.phases[h]);
    }
  }

  lemma RetireKeepsClosers(w: World, s: Step)
    requires Inv(w) && Enabled(w, s) && (s.Put? || s.PutFailed?)
    ensures CloserInv(Perform(w, s))
  {
    hide WaiterInv, MapInv;
    var w' := Perform(w, s);
    match Retired(w.cache, s.key) {
      case None => SameClosers(w, w');
      case Some(c) =>
        assert Pending(w, s.key) && c !in w.reasons;
        forall g, ch ensures IsCloser(w', g, ch) <==> (if g == s.g then ch == c else IsCloser(w, g, ch)) {
        }
        forall ch | ch in w'.reasons && ch !in w'.closed ensures exists g :: IsCloser(w', g, ch) {
          if ch == c {
            assert IsCloser(w', s.g, c);
          } else {
            var g :| IsCloser(w, g, ch);
            assert IsCloser(w', g, ch);
          }
        }
    }
  }

  lemma RetireKeeps(w: World, s: Step)
    requires Inv(w) && Enabled(w, s) && (s.Put? || s.PutFailed?)
    ensures Inv(Perform(w, s))
  {
    RetireKeepsChannels(w, s);
    RetireKeepsClosers(w, s);
    RetireKeepsWaiters(w, s);
    hide ChannelInv, CloserInv, WaiterInv;
    assert MapInv(Perform(w, s));
  }

  lemma CloseKeeps(w: World, g: Goroutine)
    requires Inv(w) && Enabled(w, Close(g))
    ensures Inv(Perform(w, Close(g)))
  {
    var w', c := Perform(w, Close(g)), w.phases[g].ch;
    assert IsCloser(w, g, c);
    assert ChannelInv(w') by {
      assert forall k :: k in w.cache.pending ==> Pending(w, k);
      assert forall ch :: ch in w.reasons ==> RetiredFor(w, ch);
    }
    assert forall h, ch :: IsCloser(w', h, ch) <==> h != g && IsCloser(w, h, ch);
    forall ch | ch in w'.reasons && ch !in w'.closed ensures exists h :: IsCloser(w', h, ch) {
      var h :| IsCloser(w, h, ch);
      assert IsCloser(w', h, ch);
    }
    forall h | h in w'.phases ensures WaiterOk(w', w'.phases[h]) {
      assert WaiterOk(w, w.phases[h]);
    }
  }

  lemma WakeKeeps(w: World, s: Step)
    requires Inv(w) && Enabled(w, s) && (s.Wake? || s.Resume?)
    ensures Inv(Perform(w, s))
  {
    hide CloserInv;
    var w' := Perform(w, s);
    SamePhasesKeepChannels(w, w');
    SameClosers(w, w');
    forall h | h in w'.phases ensures WaiterOk(w', w'.phases[h]) {
      assert WaiterOk(w, w.phases[h]);
    }
  }

  lemma StepKeepsInv(w: World, s: Step)
    requires Inv(w) && Enabled(w, s)
    ensures Inv(Perform(w, s))
  {
    hide Inv, Perform;
    match s {
      case GetOrWait(g, key) => GetOrWaitKeeps(w, g, key);
      case Put(_, _, _) => RetireKeeps(w, s);
      case PutFailed(_, _) => RetireKeeps(w, s);
      case Close(g) => CloseKeeps(w, g);
      case _ => WakeKeeps(w, s);
    }
  }

  // ---------- runs

  lemma {:induction false} RunKeepsInv(ws: seq<World>, ss: seq<Step>, k: nat)
    requires IsRun(ws, ss) && k < |ws|
    ensures Inv(ws[k])
  {
    hide Inv, Perform, Begins;
    if k == 0 {
      BeginsWithInv(ws[0]);
    } else {
      RunKeepsInv(ws, ss, k - 1);
      StepKeepsInv(ws[k - 1], ss[k - 1]);
    }
  }

  lemma BeginsWithInv(w: World)
    requires Begins(w)
    ensures Inv(w)
  {
  }

  /** Over all interleavings no channel is closed twice, so Put and PutFailed never panic. */
  lemma ClosedAtMostOnce(ws: seq<World>, ss: seq<Step>, k: nat)
    requires IsRun(ws, ss) && k < |ws|
    ensures !ws[k].panicked
    ensures k < |ss| && ss[k].Close? ==> ws[k].phases[ss[k].g].ch !in ws[k].closed
  {
    assert k < |ss| ==> Enabled(ws[k], ss[k]);
    hide IsRun;
    RunKeepsInv(ws, ss, k);
    if k < |ss| && ss[k].Close? {
      assert IsCloser(ws[k], ss[k].g, ws[k].phases[ss[k].g].ch);
    }
  }

  /** Nobody is forgotten: a waiter's channel is pending for its key, about to be closed, or closed. */
  lemma WaitersAreWoken(ws: seq<World>, ss: seq<Step>, k: nat, g: Goroutine)
    requires IsRun(ws, ss) && k < |ws| && PhaseOf(ws[k], g).Waiting?
    ensures var w, key, ch := ws[k], ws[k].phases[g].key, ws[k].phases[g].ch;
      || Retired(w.cache, key) == Some(ch)
      || (exists h :: IsCloser(w, h, ch))
      || Enabled(w, Wake(g))
  {
    hide IsRun;
    RunKeepsInv(ws, ss, k);
    assert WaiterOk(ws[k], ws[k].phases[g]);
  }

  /** A cached map is never removed. */
  lemma {:induction false} CachedStays(ws: seq<World>, ss: seq<Step>, j: nat, k: nat)
    requires IsRun(ws, ss) && j <= k < |ws|
    ensures ws[j].cache.maps.Keys <= ws[k].cache.maps.Keys && ws[j].puts <= ws[k].puts
  {
    hide Begins, Perform, Enabled;
    if j < k {
      CachedStays(ws, ss, j, k - 1);
      StepKeepsCached(ws[k - 1], ss[k - 1]);
    }
  }

  lemma StepKeepsCached(w: World, s: Step)
    requires Enabled(w, s)
    ensures w.cache.maps.Keys <= Perform(w, s).cache.maps.Keys && w.puts <= Perform(w, s).puts
  {
  }

  ghost predicate NeverNil(w: World, key: Key) {
    forall m :: (key, m) in w.puts ==> m.Some?
  }

  /**
   What a waiter gets after it was woken: a map that was put for its key, with true; or nothing, with
   false. As long as nobody puts nil, whoever was woken by a Put gets a map.
   */
  lemma WokenWaiterReturns(ws: seq<World>, ss: seq<Step>, k: nat)
    requires IsRun(ws, ss) && k < |ss| && ss[k].Resume?
    ensures Returned(ws[k], ss[k]).Some? && Returned(ws[k], ss[k]).value.waited.Some?
    ensures var r, w := Returned(ws[k], ss[k]).value, ws[k];
      && (r.ok <==> r.m.Some?) && (r.ok ==> (r.key, r.m) in w.puts)
      && r.waited.value in w.reasons
      && (w.reasons[r.waited.value].ByPut? && NeverNil(w, r.key) ==> r.ok)
  {
    RunKeepsInv(ws, ss, k);
    var w, g := ws[k], ss[k].g;
    assert WaiterOk(w, w.phases[g]);
    assert RetiredFor(w, w.phases[g].ch);
  }

  /**
   A call that returns false asks its caller to download. It is registered as the downloader exactly when
   it did not wait, and nobody else was; a waiter that comes back empty-handed is not registered.
   */
  lemma RegisteredIffNotWaited(w: World, s: Step)
    requires Inv(w) && Enabled(w, s) && Returned(w, s).Some? && !Returned(w, s).value.ok
    ensures var r, w' := Returned(w, s).value, Perform(w, s);
      && (r.waited.None? <==> w'.cache.pending != w.cache.pending)
      && (r.waited.None? ==> r.key !in w.cache.pending && w'.cache.pending == w.cache.pending[r.key := w.cache.made])
  {
    if s.GetOrWait? && AskOutcome(w.cache, s.key).Registered? {
      assert s.key in Ask(w.cache, s.key).pending;
    }
  }

  // ---------- what a key's callers see from one event of it to the next

  predicate Ends(s: Step, key: Key) {
    (s.Put? || s.PutFailed?) && s.key == key
  }

  /** From step i up to step k nobody puts or gives up the key. */
  predicate Undecided(ss: seq<Step>, key: Key, i: nat, k: nat)
    requires k <= |ss|
  {
    forall j :: i <= j < k ==> !Ends(ss[j], key)
  }

  lemma {:induction false} StaysPending(ws: seq<World>, ss: seq<Step>, i: nat, k: nat, key: Key)
    requires IsRun(ws, ss) && i <= k < |ws| && Undecided(ss, key, i, k)
    requires key in ws[i].cache.pending && key !in ws[i].cache.maps
    ensures key in ws[k].cache.pending && ws[k].cache.pending[key] == ws[i].cache.pending[key]
    ensures key !in ws[k].cache.maps
  {
    hide Perform, Enabled, Begins;
    if i < k {
      StaysPending(ws, ss, i, k - 1, key);
      StepKeepsPending(ws[k - 1], ss[k - 1], key);
    }
  }

  /** What a step does to the cache proper. */
  lemma CacheAfter(w: World, s: Step)
    requires Enabled(w, s)
    ensures Perform(w, s).cache == match s
                                   case GetOrWait(_, key) => Ask(w.cache, key)
                                   case Put(_, key, m) => Store(w.cache, key, m)
                                   case PutFailed(_, key) => GiveUp(w.cache, key)
                                   case _ => w.cache
  {
    hide Ask, Store, GiveUp;
  }

  lemma StepKeepsPending(w: World, s: Step, key: Key)
    requires Enabled(w, s) && !Ends(s, key) && key in w.cache.pending && key !in w.cache.maps
    ensures var c := Perform(w, s).cache;
      key in c.pending && c.pending[key] == w.cache.pending[key] && key !in c.maps
  {
    hide Perform;
    CacheAfter(w, s);
  }

  /**
   Download once: from the moment a caller is registered until somebody puts or gives up the map, every other
   caller for the same key waits, and waits for the channel that was made then.
   */
  lemma OnlyOneDownloads(ws: seq<World>, ss: seq<Step>, i: nat, k: nat)
    requires IsRun(ws, ss) && i < k < |ss| && ss[i].GetOrWait? && ss[k].GetOrWait? && ss[i].key == ss[k].key
    requires AskOutcome(ws[i].cache, ss[i].key).Registered? && Undecided(ss, ss[i].key, i + 1, k)
    ensures Returned(ws[k], ss[k]).None?
    ensures PhaseOf(ws[k + 1], ss[k].g) == Waiting(ss[k].key, ws[i].cache.made)
  {
    var key := ss[i].key;
    assert ws[i + 1] == Perform(ws[i], ss[i]) && ws[k + 1] == Perform(ws[k], ss[k]);
    StaysPending(ws, ss, i + 1, k, key);
  }

  lemma {:induction false} StaysCached(ws: seq<World>, ss: seq<Step>, i: nat, k: nat, key: Key)
    requires IsRun(ws, ss) && i <= k < |ws| && key in ws[i].cache.maps
    requires forall j :: i <= j < k ==> !(ss[j].Put? && ss[j].key == key)
    ensures key in ws[k].cache.maps && ws[k].cache.maps[key] == ws[i].cache.maps[key]
  {
    hide Perform, Enabled, Begins;
    if i < k {
      StaysCached(ws, ss, i, k - 1, key);
      StepKeepsMap(ws[k - 1], ss[k - 1], key);
    }
  }

  lemma StepKeepsMap(w: World, s: Step, key: Key)
    requires Enabled(w, s) && !(s.Put? && s.key == key) && key in w.cache.maps
    ensures key in Perform(w, s).cache.maps && Perform(w, s).cache.maps[key] == w.cache.maps[key]
  {
    hide Perform;
    CacheAfter(w, s);
  }

  /** What was put last for a key is what every later caller gets at once. */
  lemma LastPutIsReturned(ws: seq<World>, ss: seq<Step>, i: nat, k: nat)
    requires IsRun(ws, ss) && i < k < |ss| && ss[i].Put? && ss[k].GetOrWait? && ss[i].key == ss[k].key
    requires forall j :: i < j < k ==> !(ss[j].Put? && ss[j].key == ss[i].key)
    ensures Returned(ws[k], ss[k]) == Some(Return(ss[i].key, ss[i].m, true, None))
  {
    assert ws[i + 1] == Perform(ws[i], ss[i]);
    StaysCached(ws, ss, i + 1, k, ss[i].key);
  }

  lemma {:induction false} StaysFree(ws: seq<World>, ss: seq<Step>, i: nat, k: nat, key: Key)
    requires IsRun(ws, ss) && i <= k < |ws| && key !in ws[i].cache.maps && key !in ws[i].cache.pending
    requires forall j :: i <= j < k ==> !((ss[j].GetOrWait? || ss[j].Put?) && ss[j].key == key)
    ensures key !in ws[k].cache.maps && key !in ws[k].cache.pending
  {
    hide Perform, Enabled, Begins;
    if i < k {
      StaysFree(ws, ss, i, k - 1, key);
      StepKeepsFree(ws[k - 1], ss[k - 1], key);
    }
  }

  lemma StepKeepsFree(w: World, s: Step, key: Key)
    requires Enabled(w, s) && !((s.GetOrWait? || s.Put?) && s.key == key)
    requires key !in w.cache.maps && key !in w.cache.pending
    ensures key !in Perform(w, s).cache.maps && key !in Perform(w, s).cache.pending
  {
    hide Perform;
    CacheAfter(w, s);
  }

  /** After a failure the next caller is told to download, and is registered for it. */
  lemma FailureLetsRetry(ws: seq<World>, ss: seq<Step>, i: nat, k: nat)
    requires IsRun(ws, ss) && i < k < |ss| && ss[i].PutFailed? && ss[k].GetOrWait? && ss[i].key == ss[k].key
    requires ss[i].key !in ws[i].cache.maps
    requires forall j :: i < j < k ==> !((ss[j].GetOrWait? || ss[j].Put?) && ss[j].key == ss[i].key)
    ensures Returned(ws[k], ss[k]) == Some(Return(ss[i].key, None, false, None))
    ensures Retired(ws[k + 1].cache, ss[i].key) == Some(ws[k].cache.made)
  {
    assert ws[i + 1] == Perform(ws[i], ss[i]) && ws[k + 1] == Perform(ws[k], ss[k]);
    StaysFree(ws, ss, i + 1, k, ss[i].key);
  }

  // ---------- a run with two downloads

  function FailureStep(key: Key, i: nat): Step {
    match i
    case 0 => GetOrWait(0, key)
    case 1 => GetOrWait(1, key)
    case 2 => PutFailed(0, key)
    case 3 => Close(0)
    case 4 => Wake(1)
    case 5 => Resume(1)
    case _ => GetOrWait(2, key)
  }

  function FailureWorld(key: Key, i: nat): World {
    var free, taken := Cache(map[], map[], 1), Cache(map[], map[key := 0], 1);
    var failed: map<nat, Reason> := map[0 := ByFailure];
    match i
    case 0 => World(Cache(map[], map[], 0), map[], {}, false, map[], map[], {})
    case 1 => World(taken, map[], {}, false, map[0 := key], map[], {})
    case 2 => World(taken, map[1 := Waiting(key, 0)], {}, false, map[0 := key], map[], {})
    case 3 => World(free, map[1 := Waiting(key, 0), 0 := Closing(0)], {}, false, map[0 := key], failed, {})
    case 4 => World(free, map[1 := Waiting(key, 0), 0 := Idle], {0}, false, map[0 := key], failed, {})
    case 5 => World(free, map[1 := Woken(key, 0), 0 := Idle], {0}, false, map[0 := key], failed, {})
    case 6 => World(free, map[1 := Idle, 0 := Idle], {0}, false, map[0 := key], failed, {})
    case _ => World(Cache(map[], map[key := 1], 2), map[1 := Idle, 0 := Idle], {0}, false, map[0 := key, 1 := key], failed, {})
  }

  lemma FailureStepLeads(key: Key, i: nat)
    requires i < 7
    ensures Enabled(FailureWorld(key, i), FailureStep(key, i))
    ensures Perform(FailureWorld(key, i), FailureStep(key, i)) == FailureWorld(key, i + 1)
  {
    if i == 2 {
      assert map[key := 0] - {key} == map[];
    }
  }

  ghost function FailureRun(key: Key): (seq<World>, seq<Step>) {
    (seq(8, i requires 0 <= i < 8 => FailureWorld(key, i)), seq(7, i requires 0 <= i < 7 => FailureStep(key, i)))
  }

  /**
   So one download at a time is not what the cache guarantees after a failure: here goroutine 1 waits,
   goroutine 0 fails, and then both 1 (which waited) and 2 (which registers) are told to download.
   */
  lemma TwoDownloadersAfterFailure(key: Key)
    ensures var (ws, ss) := FailureRun(key);
      && IsRun(ws, ss)
      && ss[5] == Resume(1) && Returned(ws[5], ss[5]) == Some(Return(key, None, false, Some(0)))
      && ss[6] == GetOrWait(2, key) && Returned(ws[6], ss[6]) == Some(Return(key, None, false, None))
  {
    hide Perform, FailureWorld, FailureStep;
    var (ws, ss) := FailureRun(key);
    forall k | 0 <= k < 7 ensures Enabled(ws[k], ss[k]) && ws[k + 1] == Perform(ws[k], ss[k]) {
      FailureStepLeads(key, k);
    }
    FailureReturns(key);
  }

  lemma FailureReturns(key: Key)
    ensures Begins(FailureWorld(key, 0))
    ensures FailureStep(key, 5) == Resume(1) && FailureStep(key, 6) == GetOrWait(2, key)
    ensures Enabled(FailureWorld(key, 5), Resume(1)) && Enabled(FailureWorld(key, 6), GetOrWait(2, key))
    ensures Returned(FailureWorld(key, 5), Resume(1)) == Some(Return(key, None, false, Some(0)))
    ensures Returned(FailureWorld(key, 6), GetOrWait(2, key)) == Some(Return(key, None, false, None))
  {
  }
}
