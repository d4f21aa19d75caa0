/** Bytes, 32-bit integers and the outcome types that every format of the client shares. */
module Wire {

  type byte = b: int | 0 <= b < 0x100

  const MIN_INT32 := -0x8000_0000
  const MAX_INT32 := 0x7FFF_FFFF

  predicate IsInt32(v: int) {
    MIN_INT32 <= v <= MAX_INT32
  }

  /** Go's conversion int32(v): keep the low 32 bits, read them as a signed number. */
  function ToInt32(v: int): (r: int)
    ensures IsInt32(r) && (r - v) % 0x1_0000_0000 == 0
  {
    var low := v % 0x1_0000_0000;
    if low > MAX_INT32 then low - 0x1_0000_0000 else low
  }

  lemma ToInt32Identity(v: int)
    requires IsInt32(v)
    ensures ToInt32(v) == v
  {
  }

  /** The ways in which decoding can go wrong. `Panic` is a Go run-time panic. */
  datatype Error =
    | Short            // fewer bytes than the format asks for
    | BadVarint        // a fifth varint byte with more than four data bits
    | NegativeSize
    | UnknownMarker
    | BadChunk         // a recording chunk whose header or field count is invalid
    | Panic

  datatype Result<+T> = Success(value: T) | Failure(error: Error) {
    predicate IsFailure() { Failure? }

    function PropagateFailure<U>(): Result<U>
      requires Failure?
    {
      Failure(error)
    }

    function Extract(): T
      requires Success?
    {
      value
    }
  }

  /**
   A loop that collects results in `acc`: the whole outcome is `acc` followed by the outcome of what
   is still to be done, and the first failure is the failure of the whole.
   */
  ghost predicate Continues<T>(all: Result<seq<T>>, now: Result<seq<T>>, acc: seq<T>) {
    match now
    case Failure(e) => all == Failure(e)
    case Success(rest) => all == Success(acc + rest)
  }

  lemma ContinuesStart<T>(all: Result<seq<T>>)
    ensures Continues(all, all, [])
  {
    if all.Success? {
      assert [] + all.value == all.value;
    }
  }

  lemma ContinuesStep<T>(all: Result<seq<T>>, now: Result<seq<T>>, acc: seq<T>, part: seq<T>, next: Result<seq<T>>)
    requires Continues(all, now, acc) && Continues(now, next, part)
    ensures Continues(all, next, acc + part)
  {
    if next.Success? {
      assert acc + (part + next.value) == acc + part + next.value;
    }
  }

  lemma ContinuesEnd<T>(all: Result<seq<T>>, acc: seq<T>)
    requires Continues(all, Success([]), acc)
    ensures all == Success(acc)
  {
    assert acc + [] == acc;
  }

  /** What reading a value off the front of a byte string gives: the value and what follows it. */
  datatype Parsed<+T> = Ok(value: T, rest: seq<byte>) | Bad(error: Error) {
    predicate IsFailure() { Bad? }

    function PropagateFailure<U>(): Parsed<U>
      requires Bad?
    {
      Bad(error)
    }

    function Extract(): (T, seq<byte>)
      requires Ok?
    {
      (value, rest)
    }

    function ToResult(): Result<T> {
      match this
      case Ok(v, _) => Success(v)
      case Bad(e) => Failure(e)
    }
  }

  datatype Option<+T> = None | Some(value: T)

  lemma SomeMember(s: set<int>)
    requires s != {}
    ensures exists n :: n in s
  {
    if forall n :: n !in s {
      assert false;
    }
  }
}
