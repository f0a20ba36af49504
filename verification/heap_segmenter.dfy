/**
 * drawHeapContents of src/viz/components/HeapAllocation.tsx: a heap block
 * [address, address + size) is cut into runs of bytes without an effective
 * type, each drawn as uninitialised bytes, and objects, each drawn as a
 * runtime object of the type the effective-type table records at its first
 * byte.
 *
 * The table is a map from address to entry; an address it lacks is
 * `undefined` in the source, which falls into the typed branch and throws on
 * `tc.size`: MissingEntry. An entry of size 0 never moves the cursor and the
 * source loops forever: NoProgress.
 */
module HeapSegmenter {
  import opened Wrappers
  import opened CTypes

  /** An effective-type table entry: the no-type marker, or the type of an object starting at that address. */
  datatype Entry = NoEffectiveType | Effective(ty: CType)

  type Table = map<int, Entry>

  /** One line of the block's contents. */
  datatype Segment =
    | Gap(start: int, length: nat)                       // drawUninitBytes(start, length), labelled with start
    | Object(ty: CType, address: int, initialized: bool) // a RuntimeObject of type ty at address
  {
    function Begin(): int
    {
      if Gap? then start else address
    }

    function End(): int
    {
      if Gap? then start + length else address + ty.size
    }
  }

  datatype HeapError =
    | MissingEntry(address: int) // t[curr] is undefined and reading its size throws
    | NoProgress(address: int)   // a zero-sized entry: the cursor stays put and the loop never ends

  predicate Untyped(table: Table, x: int)
  {
    x in table && table[x] == NoEffectiveType
  }

  /** The number of consecutive untyped addresses from a, stopping at end. */
  function RunLength(table: Table, a: int, end: int): (n: nat)
    ensures a < end && Untyped(table, a) ==> n >= 1
    ensures a + n <= end || n == 0
    decreases if a < end then end - a else 0
  {
    if a < end && Untyped(table, a) then 1 + RunLength(table, a + 1, end) else 0
  }

  /**
   * The block's contents from a on, as maximal untyped runs and typed
   * objects: the reference the loop is proved against.
   */
  function Scan(table: Table, a: int, end: int): Result<seq<Segment>, HeapError>
    decreases if a < end then end - a else 0
  {
    if a >= end then Success([])
    else if a !in table then Failure(MissingEntry(a))
    else match table[a]
      case NoEffectiveType =>
        var n := RunLength(table, a, end);
        Prepend([Gap(a, n)], Scan(table, a + n, end))
      case Effective(ty) =>
        if ty.size == 0 then Failure(NoProgress(a))
        else Prepend([Object(ty, a, true)], Scan(table, a + ty.size, end))
  }

  /**
   * The segments still to come when cnt untyped bytes ending at start + cnt
   * are pending: the pending run joins a run that continues it, or becomes a
   * gap of its own.
   */
  function WithPending(start: int, cnt: nat, rest: Result<seq<Segment>, HeapError>): Result<seq<Segment>, HeapError>
  {
    if cnt == 0 then rest
    else match rest
      case Failure(err) => Failure(err)
      case Success(segs) =>
        if |segs| > 0 && segs[0].Gap? && segs[0].start == start + cnt then Success([Gap(start, cnt + segs[0].length)] + segs[1..])
        else Success([Gap(start, cnt)] + segs)
  }

  // ---------------------------------------------------------------------------
  // The loop
  // ---------------------------------------------------------------------------

  /** Where the table has no untyped byte at b, the contents from b do not start with a gap. */
  lemma ScanHeadNotGap(table: Table, b: int, end: int)
    requires !(b < end && Untyped(table, b))
    ensures Scan(table, b, end).Success? && |Scan(table, b, end).value| > 0 ==> !Scan(table, b, end).value[0].Gap?
  {
  }

  /** Taking one more untyped byte into the pending run leaves the outcome unchanged. */
  lemma UntypedStep(table: Table, start: int, cnt: nat, curr: int, end: int)
    requires curr < end && Untyped(table, curr) && start + cnt == curr
    ensures WithPending(start, cnt, Scan(table, curr, end)) == WithPending(start, cnt + 1, Scan(table, curr + 1, end))
  {
    var m := RunLength(table, curr + 1, end);
    assert RunLength(table, curr, end) == 1 + m;
    if m == 0 {
      ScanHeadNotGap(table, curr + 1, end);
    } else {
      assert Scan(table, curr + 1, end) == Prepend([Gap(curr + 1, m)], Scan(table, curr + 1 + m, end));
    }
  }

  /** A typed byte flushes the pending run as a gap, then the object follows and the scan resumes after it. */
  lemma TypedStep(table: Table, done: seq<Segment>, start: int, cnt: nat, curr: int, end: int)
    requires curr < end && curr in table && table[curr].Effective? && table[curr].ty.size > 0 && start + cnt == curr
    ensures Prepend(done, WithPending(start, cnt, Scan(table, curr, end)))
         == Prepend((if cnt > 0 then done + [Gap(start, cnt)] else done) + [Object(table[curr].ty, curr, true)],
                    WithPending(curr + table[curr].ty.size, 0, Scan(table, curr + table[curr].ty.size, end)))
  {
    var ty := table[curr].ty;
    var rest := Scan(table, curr + ty.size, end);
    assert Scan(table, curr, end) == Prepend([Object(ty, curr, true)], rest);
    if rest.Success? {
      var segs := [Object(ty, curr, true)] + rest.value;
      if cnt > 0 {
        assert WithPending(start, cnt, Scan(table, curr, end)) == Success([Gap(start, cnt)] + segs);
        assert done + ([Gap(start, cnt)] + segs) == done + [Gap(start, cnt)] + [Object(ty, curr, true)] + rest.value;
      } else {
        assert done + segs == done + [Object(ty, curr, true)] + rest.value;
      }
    }
  }

  /** A failure ahead ends the whole drawing with that failure. */
  lemma FailureAhead(done: seq<Segment>, start: int, cnt: nat, err: HeapError)
    ensures Prepend(done, WithPending(start, cnt, Failure(err))) == Failure(err)
  {
  }

  /** The scan stops at an address missing from the table, or at a typed entry of size 0. */
  lemma FailureHere(table: Table, done: seq<Segment>, start: int, cnt: nat, curr: int, end: int)
    requires curr < end && (curr !in table || (table[curr].Effective? && table[curr].ty.size == 0))
    ensures Prepend(done, WithPending(start, cnt, Scan(table, curr, end)))
         == Failure(if curr !in table then MissingEntry(curr) else NoProgress(curr))
  {
    FailureAhead(done, start, cnt, if curr !in table then MissingEntry(curr) else NoProgress(curr));
  }

  /**
   * `drawHeapContents` as written: a cursor walks the block; an untyped byte
   * extends the pending run by one; a typed byte first flushes the pending
   * run as a gap starting at curr - cnt, then emits an object there and jumps
   * by its size; the run still pending at the end is flushed. The result is
   * the reference scan of the block.
   */
  method DrawHeapContents(table: Table, address: int, size: int) returns (r: Result<seq<Segment>, HeapError>)
    ensures r == Scan(table, address, address + size)
  {
    var end := address + size;
    var curr := address;
    var cnt: nat := 0;
    var res: seq<Segment> := [];
    PrependNothing(Scan(table, address, end));
    while curr < end
      invariant Prepend(res, WithPending(curr - cnt, cnt, Scan(table, curr, end))) == Scan(table, address, end)
      decreases end - curr
    {
      if curr !in table {
        FailureHere(table, res, curr - cnt, cnt, curr, end);
        return Failure(MissingEntry(curr));
      }
      var tc := table[curr];
      if tc == NoEffectiveType {
        UntypedStep(table, curr - cnt, cnt, curr, end);
        cnt := cnt + 1;
        curr := curr + 1;
      } else {
        if tc.ty.size == 0 {
          FailureHere(table, res, curr - cnt, cnt, curr, end);
          return Failure(NoProgress(curr));
        }
        TypedStep(table, res, curr - cnt, cnt, curr, end);
        if cnt > 0 {
          res := res + [Gap(curr - cnt, cnt)];
          cnt := 0;
        }
        res := res + [Object(tc.ty, curr, true)];
        curr := curr + tc.ty.size;
      }
    }
    assert Scan(table, curr, end) == Success([]);
    if cnt > 0 {
      assert [Gap(curr - cnt, cnt)] + [] == [Gap(curr - cnt, cnt)];
      res := res + [Gap(curr - cnt, cnt)];
    } else {
      assert res + [] == res;
    }
    r := Success(res);
  }

  // ---------------------------------------------------------------------------
  // Properties of the scan
  // ---------------------------------------------------------------------------

  /** Every address of a run is untyped. */
  lemma {:induction false} RunUntyped(table: Table, a: int, end: int, x: int)
    requires a <= x < a + RunLength(table, a, end)
    ensures Untyped(table, x)
    decreases if a < end then end - a else 0
  {
    if x > a {
      RunUntyped(table, a + 1, end, x);
    }
  }

  /** A run is maximal: the address after it is the block's end or not untyped. */
  lemma {:induction false} RunStops(table: Table, a: int, end: int)
    ensures var n := RunLength(table, a, end); !(a + n < end && Untyped(table, a + n))
    decreases if a < end then end - a else 0
  {
    if a < end && Untyped(table, a) {
      RunStops(table, a + 1, end);
    }
  }

  /** Contents that succeed with the first segment split off. */
  lemma ScanUnfold(table: Table, a: int, end: int)
    requires Scan(table, a, end).Success? && a < end
    ensures a in table
    ensures var segs := Scan(table, a, end).value;
            var n := if table[a] == NoEffectiveType then RunLength(table, a, end) else table[a].ty.size;
            && n > 0
            && Scan(table, a + n, end).Success?
            && segs == [if table[a] == NoEffectiveType then Gap(a, n) else Object(table[a].ty, a, true)]
                       + Scan(table, a + n, end).value
  {
  }

  /**
   * The segments lie in the block: there are none exactly when the block is
   * empty, the first starts at the block's start, each is at least one byte
   * long and starts inside the block, and a gap never overruns it.
   */
  lemma {:induction false} ScanBounds(table: Table, a: int, end: int)
    requires Scan(table, a, end).Success?
    ensures var segs := Scan(table, a, end).value;
            && (|segs| == 0 <==> a >= end)
            && (|segs| > 0 ==> segs[0].Begin() == a)
            && (forall i :: 0 <= i < |segs| ==> a <= segs[i].Begin() < segs[i].End() && segs[i].Begin() < end)
            && (forall i :: 0 <= i < |segs| && segs[i].Gap? ==> segs[i].End() <= end)
    decreases if a < end then end - a else 0
  {
    if a < end {
      ScanUnfold(table, a, end);
      var segs := Scan(table, a, end).value;
      var n := segs[0].End() - a;
      ScanBounds(table, a + n, end);
      assert segs[1..] == Scan(table, a + n, end).value;
    }
  }

  /**
   * Each segment starts where the previous one ended, and the last ends at
   * the block's end, or past it when the last object overruns the block.
   */
  lemma {:induction false} ScanContiguous(table: Table, a: int, end: int)
    requires Scan(table, a, end).Success?
    ensures var segs := Scan(table, a, end).value;
            && (forall i :: 0 <= i < |segs| - 1 ==> segs[i + 1].Begin() == segs[i].End())
            && (|segs| > 0 ==> segs[|segs| - 1].End() >= end)
            && (|segs| > 0 && segs[|segs| - 1].Gap? ==> segs[|segs| - 1].End() == end)
    decreases if a < end then end - a else 0
  {
    if a < end {
      ScanUnfold(table, a, end);
      var segs := Scan(table, a, end).value;
      var n := segs[0].End() - a;
      ScanContiguous(table, a + n, end);
      ScanBounds(table, a + n, end);
      assert segs[1..] == Scan(table, a + n, end).value;
    }
  }

  /** Segments never overlap: each ends no later than any later one begins. */
  lemma {:induction false} ScanOrdered(table: Table, a: int, end: int)
    requires Scan(table, a, end).Success?
    ensures var segs := Scan(table, a, end).value;
            forall i, j :: 0 <= i < j < |segs| ==> segs[i].End() <= segs[j].Begin()
    decreases if a < end then end - a else 0
  {
    if a < end {
      ScanUnfold(table, a, end);
      var segs := Scan(table, a, end).value;
      var n := segs[0].End() - a;
      ScanOrdered(table, a + n, end);
      ScanBounds(table, a + n, end);
      assert segs[1..] == Scan(table, a + n, end).value;
    }
  }

  /** Every address of the block lies in a segment, which by ScanOrdered is the only one holding it. */
  lemma {:induction false} ScanCovers(table: Table, a: int, end: int, x: int)
    requires Scan(table, a, end).Success? && a <= x < end
    ensures var segs := Scan(table, a, end).value;
            exists i :: 0 <= i < |segs| && segs[i].Begin() <= x < segs[i].End()
    decreases if a < end then end - a else 0
  {
    ScanUnfold(table, a, end);
    var segs := Scan(table, a, end).value;
    var n := segs[0].End() - a;
    if x >= a + n {
      ScanCovers(table, a + n, end, x);
      var rest := Scan(table, a + n, end).value;
      assert segs[1..] == rest;
      var i :| 0 <= i < |rest| && rest[i].Begin() <= x < rest[i].End();
      assert segs[i + 1] == rest[i];
    } else {
      assert segs[0].Begin() <= x < segs[0].End();
    }
  }

  /**
   * Gaps hold only untyped bytes and two gaps are never neighbours; an
   * object is drawn initialised, with the type the table records at its
   * address, which is positive in size.
   */
  lemma {:induction false} ScanContents(table: Table, a: int, end: int)
    requires Scan(table, a, end).Success?
    ensures var segs := Scan(table, a, end).value;
            && (forall i, x :: 0 <= i < |segs| && segs[i].Gap? && segs[i].start <= x < segs[i].End() ==> Untyped(table, x))
            && (forall i :: 0 <= i < |segs| - 1 ==> !(segs[i].Gap? && segs[i + 1].Gap?))
            && (forall i :: 0 <= i < |segs| && segs[i].Object? ==>
                  && segs[i].address in table && table[segs[i].address] == Effective(segs[i].ty)
                  && segs[i].ty.size > 0 && segs[i].initialized)
    decreases if a < end then end - a else 0
  {
    if a < end {
      ScanUnfold(table, a, end);
      var segs := Scan(table, a, end).value;
      var n := segs[0].End() - a;
      var rest := Scan(table, a + n, end).value;
      ScanContents(table, a + n, end);
      assert segs[1..] == rest;
      if segs[0].Gap? {
        forall x | a <= x < a + n
          ensures Untyped(table, x)
        {
          RunUntyped(table, a, end, x);
        }
        RunStops(table, a, end);
        ScanHeadNotGap(table, a + n, end);
      }
    }
  }

  /**
   * The drawing fails only for a reason inside the block: an address the
   * table lacks, or an entry of size 0 that would keep the loop in place.
   */
  lemma {:induction false} ScanFailure(table: Table, a: int, end: int)
    requires Scan(table, a, end).Failure?
    ensures var x := Scan(table, a, end).error.address;
            && a <= x < end
            && (Scan(table, a, end).error.MissingEntry? ==> x !in table)
            && (Scan(table, a, end).error.NoProgress? ==> x in table && table[x].Effective? && table[x].ty.size == 0)
    decreases if a < end then end - a else 0
  {
    if a in table {
      var n := if table[a] == NoEffectiveType then RunLength(table, a, end) else table[a].ty.size;
      if n > 0 {
        ScanFailure(table, a + n, end);
      }
    }
  }

  /** When every address of the block is in the table and every typed entry has a positive size, the loop ends. */
  lemma ScanSucceeds(table: Table, a: int, end: int)
    requires forall x :: a <= x < end ==> x in table && (table[x].Effective? ==> table[x].ty.size > 0)
    ensures Scan(table, a, end).Success?
  {
    if Scan(table, a, end).Failure? {
      ScanFailure(table, a, end);
    }
  }

  /** A run does not depend on entries before it or past its stopping address. */
  lemma {:induction false} RunFrame(table: Table, a: int, end: int, x: int, e: Entry)
    requires x < a || x > a + RunLength(table, a, end)
    ensures RunLength(table[x := e], a, end) == RunLength(table, a, end)
    decreases if a < end then end - a else 0
  {
    if a < end && Untyped(table, a) {
      RunFrame(table, a + 1, end, x, e);
    }
  }

  /** The contents from b do not depend on entries before b. */
  lemma {:induction false} ScanFrame(table: Table, b: int, end: int, x: int, e: Entry)
    requires x < b
    ensures Scan(table[x := e], b, end) == Scan(table, b, end)
    decreases if b < end then end - b else 0
  {
    if b < end && b in table {
      if table[b] == NoEffectiveType {
        RunFrame(table, b, end, x, e);
        ScanFrame(table, b + RunLength(table, b, end), end, x, e);
      } else if table[b].ty.size > 0 {
        ScanFrame(table, b + table[b].ty.size, end, x, e);
      }
    }
  }

  /** One step of the scan reads only the entry at its address and, for a gap, the run's entries. */
  lemma ScanStepFrame(table: Table, a: int, end: int, n: nat, x: int, e: Entry)
    requires a < end && a in table && x != a
    requires n == if table[a] == NoEffectiveType then RunLength(table, a, end) else table[a].ty.size
    requires n > 0 && (table[a] == NoEffectiveType ==> x > a + n)
    requires Scan(table[x := e], a + n, end) == Scan(table, a + n, end)
    ensures Scan(table[x := e], a, end) == Scan(table, a, end)
  {
    assert table[x := e][a] == table[a];
    if table[a] == NoEffectiveType {
      RunFrame(table, a, end, x, e);
    }
  }

  /**
   * The loop jumps over an object: whatever the table says about an address
   * strictly inside a drawn object, the drawing is the same.
   */
  lemma {:induction false} InteriorUnexamined(table: Table, a: int, end: int, i: nat, x: int, e: Entry)
    requires Scan(table, a, end).Success? && i < |Scan(table, a, end).value|
    requires Scan(table, a, end).value[i].Object?
    requires Scan(table, a, end).value[i].address < x < Scan(table, a, end).value[i].End()
    ensures Scan(table[x := e], a, end) == Scan(table, a, end)
    decreases i
  {
    ScanUnfold(table, a, end);
    var segs := Scan(table, a, end).value;
    var n := segs[0].End() - a;
    if i == 0 {
      ScanFrame(table, a + n, end, x, e);
    } else {
      var rest := Scan(table, a + n, end).value;
      assert rest[i - 1] == segs[i];
      InteriorUnexamined(table, a + n, end, i - 1, x, e);
      ScanBounds(table, a + n, end);
      assert x > a + n;
    }
    ScanStepFrame(table, a, end, n, x, e);
  }
}
