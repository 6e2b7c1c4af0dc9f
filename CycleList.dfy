/** A model of the `useCycleList` composable: a cursor `activeIndex` that walks a
    list, wrapping around at both ends, and can jump to a given index.

    The step functions below (NextIndex, PrevIndex, GoIndex) give the cursor's new
    value as the composable computes it, for ANY current index and list length,
    including the cases the composable does not guard (an empty list, a negative
    jump target, an index at or past the end). The class CycleList holds the
    mutable cursor and its methods are tied to these functions. */
module UseCycleList {

  /** How the list was handed to the composable. Only the `state` view depends on it. */
  datatype SourceKind = PlainArray | RefToArray | GetterOfArray

  /** The single error `go` throws: the requested index is not below the list's length.
      Its message reports the index only. */
  datatype GoError = IndexPastEnd(index: int)

  datatype Option<T> = None | Some(value: T)

  datatype Result<T> = Success(value: T) | Failure(error: GoError)

  /** The cursor is a JavaScript number: every integer of magnitude up to 2^53 is
      exact, but from 2^53 on `++` (and from -2^53 on `--`) no longer moves the
      cursor by one, because the result is not a double and rounds back. */
  const ExactBound: int := 0x20000000000000

  /** The cursor lies on an element of a list of length n. */
  predicate InRange(i: int, n: nat) {
    0 <= i < n
  }

  // ---------------------------------------------------------------------------
  // Step functions: the new cursor value, as written in the composable
  // ---------------------------------------------------------------------------

  /** `next`: wraps to 0 only when the cursor is exactly on the last index. */
  function NextIndex(i: int, n: nat): (r: int)
    ensures InRange(i, n) ==> InRange(r, n)
    ensures InRange(i, n) ==> r == (i + 1) % n
  {
    if i == n - 1 then 0 else i + 1
  }

  /** `prev`: wraps to the last index only when the cursor is exactly on 0. */
  function PrevIndex(i: int, n: nat): (r: int)
    ensures InRange(i, n) ==> InRange(r, n)
    ensures InRange(i, n) ==> r == (i - 1) % n
  {
    if i == 0 then n - 1 else i - 1
  }

  /** `go(index)`: refuses an index at or past the end; accepts every other index,
      negative ones included. */
  function GoIndex(index: int, n: nat): (r: Result<int>)
    ensures r.Failure? <==> index >= n
    ensures r.Failure? ==> r.error == IndexPastEnd(index)
    ensures r.Success? ==> r.value == index && (index >= 0 ==> InRange(r.value, n))
  {
    if index >= n then Failure(IndexPastEnd(index)) else Success(index)
  }

  // ---------------------------------------------------------------------------
  // Round trips on a non-empty list
  // ---------------------------------------------------------------------------

  /** `prev` undoes `next`. */
  lemma PrevUndoesNext(i: int, n: nat)
    requires InRange(i, n)
    ensures PrevIndex(NextIndex(i, n), n) == i
  {
  }

  /** `next` undoes `prev`. */
  lemma NextUndoesPrev(i: int, n: nat)
    requires InRange(i, n)
    ensures NextIndex(PrevIndex(i, n), n) == i
  {
  }

  /** The cursor after k calls to `next`. */
  function NextN(i: int, n: nat, k: nat): (r: int)
    decreases k
  {
    if k == 0 then i else NextIndex(NextN(i, n, k - 1), n)
  }

  /** The cursor after k calls to `prev`. */
  function PrevN(i: int, n: nat, k: nat): (r: int)
    decreases k
  {
    if k == 0 then i else PrevIndex(PrevN(i, n, k - 1), n)
  }

  /** Below the last index, k calls to `next` move the cursor k places forward. */
  lemma {:induction false} NextNWalksUp(i: int, n: nat, k: nat)
    requires 0 <= i && i + k < n
    ensures NextN(i, n, k) == i + k
  {
    if k > 0 {
      NextNWalksUp(i, n, k - 1);
    }
  }

  /** Above index 0, k calls to `prev` move the cursor k places back. */
  lemma {:induction false} PrevNWalksDown(i: int, n: nat, k: nat)
    requires k <= i < n
    ensures PrevN(i, n, k) == i - k
  {
    if k > 0 {
      PrevNWalksDown(i, n, k - 1);
    }
  }

  /** a + b calls to `next` are a calls followed by b calls. */
  lemma {:induction false} NextNSplit(i: int, n: nat, a: nat, b: nat)
    ensures NextN(i, n, a + b) == NextN(NextN(i, n, a), n, b)
    decreases b
  {
    if b > 0 {
      NextNSplit(i, n, a, b - 1);
    }
  }

  /** a + b calls to `prev` are a calls followed by b calls. */
  lemma {:induction false} PrevNSplit(i: int, n: nat, a: nat, b: nat)
    ensures PrevN(i, n, a + b) == PrevN(PrevN(i, n, a), n, b)
    decreases b
  {
    if b > 0 {
      PrevNSplit(i, n, a, b - 1);
    }
  }

  /** `length` consecutive calls to `next` bring the cursor back to where it started:
      it walks up to the last index, wraps to 0, and walks up again. */
  lemma FullCycleOfNext(i: int, n: nat)
    requires InRange(i, n)
    ensures NextN(i, n, n) == i
  {
    NextNWalksUp(i, n, n - 1 - i);
    NextNSplit(i, n, n - 1 - i, i + 1);
    NextNSplit(n - 1, n, 1, i);
    NextNWalksUp(0, n, i);
  }

  /** `length` consecutive calls to `prev` bring the cursor back to where it started:
      it walks down to 0, wraps to the last index, and walks down again. */
  lemma FullCycleOfPrev(i: int, n: nat)
    requires InRange(i, n)
    ensures PrevN(i, n, n) == i
  {
    PrevNWalksDown(i, n, i);
    PrevNSplit(i, n, i, n - i);
    PrevNSplit(0, n, 1, n - 1 - i);
    PrevNWalksDown(n - 1, n, n - 1 - i);
  }

  // ---------------------------------------------------------------------------
  // Behaviour outside the range, as written
  // ---------------------------------------------------------------------------

  /** On an empty list `next` moves the cursor from 0 to 1 and `prev` moves it to -1. */
  lemma EmptyListLeavesRange()
    ensures NextIndex(0, 0) == 1 && PrevIndex(0, 0) == -1
    ensures !InRange(NextIndex(0, 0), 0) && !InRange(PrevIndex(0, 0), 0)
  {
  }

  /** The wrap test in `next` is an equality: once the cursor is at or past the end
      (the list was shorter than the cursor), further calls never wrap. The cursor
      stays an exact integer while it does not pass 2^53. */
  lemma {:induction false} NextNeverWrapsPastEnd(i: int, n: nat, k: nat)
    requires i >= n
    requires i + k <= ExactBound
    ensures NextN(i, n, k) == i + k
  {
    if k > 0 {
      NextNeverWrapsPastEnd(i, n, k - 1);
    }
  }

  /** `go` accepts a negative index; from there `prev` never returns the cursor
      to the list. The cursor stays an exact integer while it does not pass -2^53. */
  lemma {:induction false} PrevNeverWrapsBelowZero(i: int, n: nat, k: nat)
    requires i < 0
    requires i - k >= -ExactBound
    ensures PrevN(i, n, k) == i - k
  {
    if k > 0 {
      PrevNeverWrapsBelowZero(i, n, k - 1);
    }
  }

  // ---------------------------------------------------------------------------
  // Any sequence of calls
  // ---------------------------------------------------------------------------

  datatype Call = Next | Prev | Go(index: int)

  /** The cursor after one call; a rejected `go` leaves it where it was. */
  function Step(i: int, n: nat, c: Call): (r: int) {
    match c
    case Next => NextIndex(i, n)
    case Prev => PrevIndex(i, n)
    case Go(index) =>
      match GoIndex(index, n)
      case Success(j) => j
      case Failure(_) => i
  }

  /** The cursor after a sequence of calls, in order. */
  function Run(i: int, n: nat, calls: seq<Call>): (r: int)
    decreases |calls|
  {
    if calls == [] then i else Run(Step(i, n, calls[0]), n, calls[1..])
  }

  predicate NoNegativeGo(calls: seq<Call>) {
    forall k :: 0 <= k < |calls| && calls[k].Go? ==> calls[k].index >= 0
  }

  /** On a non-empty list, every sequence of `next`, `prev` and non-negative `go`
      calls keeps the cursor on an element. */
  lemma {:induction false} RunStaysInRange(i: int, n: nat, calls: seq<Call>)
    requires InRange(i, n)
    requires NoNegativeGo(calls)
    ensures InRange(Run(i, n, calls), n)
    decreases |calls|
  {
    if calls != [] {
      var j := Step(i, n, calls[0]);
      assert InRange(j, n);
      assert NoNegativeGo(calls[1..]) by {
        forall k | 0 <= k < |calls[1..]| && calls[1..][k].Go?
          ensures calls[1..][k].index >= 0
        {
          assert calls[1..][k] == calls[k + 1];
        }
      }
      RunStaysInRange(j, n, calls[1..]);
    }
  }

  /** A single negative `go` takes the cursor off the list, whatever its length. */
  lemma NegativeGoLeavesRange(i: int, n: nat, index: int)
    requires index < 0
    ensures Step(i, n, Go(index)) == index && !InRange(Step(i, n, Go(index)), n)
  {
  }

  // ---------------------------------------------------------------------------
  // The `state` view
  // ---------------------------------------------------------------------------

  /** The element a JavaScript index into the list yields: undefined (None) off the list. */
  function ElementAt<T>(items: seq<T>, i: int): (r: Option<T>) {
    if InRange(i, |items|) then Some(items[i]) else None
  }

  /** `state` indexes the argument as it was given, not the array behind it: a ref
      object or a getter function has no numeric keys, so only a plain array yields
      an element. */
  function StateView<T>(kind: SourceKind, items: seq<T>, i: int): (r: Option<T>) {
    match kind
    case PlainArray => ElementAt(items, i)
    case RefToArray => None
    case GetterOfArray => None
  }

  /** With the cursor on the list, `state` is the element under the cursor exactly
      when the list was passed as a plain array; for a ref or a getter it is
      undefined although the element exists. */
  lemma StateIsElementOnlyForPlainArray<T>(kind: SourceKind, items: seq<T>, i: int)
    requires InRange(i, |items|)
    ensures StateView(kind, items, i) == Some(items[i]) <==> kind == PlainArray
    ensures kind != PlainArray ==> StateView(kind, items, i) == None && ElementAt(items, i).Some?
  {
  }

  /** On a non-empty plain array, after any sequence of `next`, `prev` and
      non-negative `go` calls from the start, `state` is the element under the cursor. */
  lemma {:induction false} StateAfterRunIsElement<T>(items: seq<T>, calls: seq<Call>)
    requires |items| > 0
    requires NoNegativeGo(calls)
    ensures InRange(Run(0, |items|, calls), |items|)
    ensures StateView(PlainArray, items, Run(0, |items|, calls)) == Some(items[Run(0, |items|, calls)])
  {
    RunStaysInRange(0, |items|, calls);
  }

  /** With the cursor off the list (an empty list, a negative `go`), `state` is undefined. */
  lemma StateOffListIsUndefined<T>(kind: SourceKind, items: seq<T>, i: int)
    requires !InRange(i, |items|)
    ensures StateView(kind, items, i) == None
  {
  }

  // ---------------------------------------------------------------------------
  // The composable's instance
  // ---------------------------------------------------------------------------

  /** One `useCycleList` instance: the list it was given and its cursor. */
  class CycleList<T> {
    const kind: SourceKind
    const items: seq<T>
    var activeIndex: int

    /** The cursor starts at 0. */
    constructor (kind: SourceKind, items: seq<T>)
      ensures this.kind == kind && this.items == items
      ensures activeIndex == 0
      ensures Valid() <==> |items| > 0
    {
      this.kind := kind;
      this.items := items;
      activeIndex := 0;
    }

    /** The cursor lies on an element. */
    predicate Valid()
      reads this
    {
      InRange(activeIndex, |items|)
    }

    /** The `state` view of this instance. */
    function State(): (r: Option<T>)
      reads this
    {
      StateView(kind, items, activeIndex)
    }

    method Next()
      modifies this
      ensures activeIndex == NextIndex(old(activeIndex), |items|)
      ensures old(activeIndex) == |items| - 1 ==> activeIndex == 0
      ensures old(activeIndex) != |items| - 1 ==> activeIndex == old(activeIndex) + 1
      ensures old(Valid()) ==> Valid()
    {
      if activeIndex == |items| - 1 {
        activeIndex := 0;
      } else {
        activeIndex := activeIndex + 1;
      }
    }

    method Prev()
      modifies this
      ensures activeIndex == PrevIndex(old(activeIndex), |items|)
      ensures old(activeIndex) == 0 ==> activeIndex == |items| - 1
      ensures old(activeIndex) != 0 ==> activeIndex == old(activeIndex) - 1
      ensures old(Valid()) ==> Valid()
    {
      if activeIndex == 0 {
        activeIndex := |items| - 1;
      } else {
        activeIndex := activeIndex - 1;
      }
    }

    /** `go(index)`; the thrown error becomes a Failure and the cursor stays put. */
    method Go(index: int) returns (r: Result<()>)
      modifies this
      ensures r.Failure? <==> index >= |items|
      ensures r.Failure? ==> r.error == IndexPastEnd(index) && activeIndex == old(activeIndex)
      ensures r.Success? ==> activeIndex == index
      ensures activeIndex == Step(old(activeIndex), |items|, Call.Go(index))
      ensures old(Valid()) && index >= 0 ==> Valid()
    {
      if index >= |items| {
        r := Failure(IndexPastEnd(index));
      } else {
        activeIndex := index;
        r := Success(());
      }
    }
  }

  /** A client: on a non-empty list, `next` then `prev` (and the reverse) leave the
      cursor where it was, and a rejected `go` changes nothing. */
  method RoundTripClient<T>(c: CycleList<T>)
    requires c.Valid()
    modifies c
    ensures c.activeIndex == old(c.activeIndex)
  {
    c.Next();
    c.Prev();
    c.Prev();
    c.Next();
    var r := c.Go(|c.items|);
    assert r.Failure?;
  }

  /** A client: on a plain array, after a successful `go(j)`, `state` is the j-th element. */
  method StateAfterGo<T>(c: CycleList<T>, j: int)
    requires c.kind == PlainArray && InRange(j, |c.items|)
    modifies c
    ensures c.State() == Some(c.items[j])
  {
    var r := c.Go(j);
  }
}
