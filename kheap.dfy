/**
 * The kernel heap of src/kernel/memory/kheap.c: a free list, in insertion order,
 * of `[from, end)` intervals, merged on insert, carved from the end on
 * allocation, and compacted by a two-pass defragmentation; `kmalloc` and
 * `kfree` put an 8-byte header tagged with a magic number in front of each
 * block.
 *
 * The linked list is the sequence `intervals`, head first; a pointer is its
 * 32-bit address. `struct Interval` holds three pointers (12 bytes) and the
 * used-block header a magic word and a size (8 bytes); neither struct is
 * declared in the headers, so these sizes follow from their fields.
 */
module KHeap {
  import opened Common

  const INTERVAL_SIZE: int := 12
  const HEADER_SIZE: int := 8
  const KMALLOC_MAGIC: int := 0xa1b2c3d4
  const KFREE_DEFRAGMENT_CALLS: int := 10

  datatype Interval = Interval(from: u32, end: u32)

  /** Every interval runs forward. */
  predicate WellFormed(l: seq<Interval>)
  {
    forall k :: 0 <= k < |l| ==> l[k].from <= l[k].end
  }

  function Size(iv: Interval): int
  {
    iv.end - iv.from
  }

  /** Total free bytes: the sum of `end - from`. */
  function Free(l: seq<Interval>): int
  {
    if |l| == 0 then 0 else Free(l[..|l| - 1]) + Size(l[|l| - 1])
  }

  lemma {:induction false} FreeNonNegative(l: seq<Interval>)
    requires WellFormed(l)
    ensures Free(l) >= 0
  {
    if |l| > 0 {
      FreeNonNegative(l[..|l| - 1]);
    }
  }

  /** Replacing one interval changes the total by the difference in size. */
  lemma {:induction false} FreeUpdate(l: seq<Interval>, j: nat, x: Interval)
    requires j < |l|
    ensures Free(l[j := x]) == Free(l) - Size(l[j]) + Size(x)
  {
    var n := |l| - 1;
    if j < n {
      assert l[j := x][..n] == l[..n][j := x];
      FreeUpdate(l[..n], j, x);
    } else {
      assert l[j := x][..n] == l[..n];
    }
  }

  lemma {:induction false} FreeAppend(a: seq<Interval>, b: seq<Interval>)
    ensures Free(a + b) == Free(a) + Free(b)
  {
    if |b| > 0 {
      var n := |b| - 1;
      assert (a + b)[..|a + b| - 1] == a + b[..n];
      FreeAppend(a, b[..n]);
    } else {
      assert a + b == a;
    }
  }

  /** Removing one interval takes its size off the total. */
  lemma {:induction false} FreeRemove(l: seq<Interval>, j: nat)
    requires j < |l|
    ensures Free(l[..j] + l[j + 1..]) == Free(l) - Size(l[j])
  {
    var n := |l| - 1;
    var r := l[..j] + l[j + 1..];
    if j == n {
      assert r == l[..n];
    } else {
      var m := l[..n];
      assert r[..|r| - 1] == m[..j] + m[j + 1..];
      assert r[|r| - 1] == l[n];
      FreeRemove(m, j);
    }
  }

  // ---------------------------------------------------------------------
  // interval_insert

  /** The node interval_insert merges into: it ends where the new one starts, or the reverse. */
  predicate Adjacent(iv: Interval, from: u32, end: u32)
  {
    end == iv.from || iv.end == from
  }

  /** The first node, from index `i` on, that the new interval touches. */
  function MergeIndex(l: seq<Interval>, from: u32, end: u32, i: nat): (r: Option<nat>)
    requires i <= |l|
    ensures r.Some? ==> i <= r.value < |l| && Adjacent(l[r.value], from, end)
    ensures r.Some? ==> forall k :: i <= k < r.value ==> !Adjacent(l[k], from, end)
    ensures r.None? ==> forall k :: i <= k < |l| ==> !Adjacent(l[k], from, end)
    decreases |l| - i
  {
    if i == |l| then None
    else if Adjacent(l[i], from, end) then Some(i)
    else MergeIndex(l, from, end, i + 1)
  }

  /**
   * interval_insert as a function of the list: the first node whose start is
   * the new end grows down, or else whose end is the new start grows up, or a
   * new node is put at the head.
   */
  function Insert(l: seq<Interval>, from: u32, end: u32): seq<Interval>
  {
    match MergeIndex(l, from, end, 0)
    case None => [Interval(from, end)] + l
    case Some(j) =>
      if end == l[j].from then l[j := l[j].(from := from)]
      else l[j := l[j].(end := end)]
  }

  /** Inserting a forward interval adds exactly its bytes to the free total. */
  lemma InsertFree(l: seq<Interval>, from: u32, end: u32)
    requires WellFormed(l) && from <= end
    ensures WellFormed(Insert(l, from, end))
    ensures Free(Insert(l, from, end)) == Free(l) + (end - from)
  {
    match MergeIndex(l, from, end, 0)
    case None =>
      FreeAppend([Interval(from, end)], l);
      assert [Interval(from, end)][..0] == [];
    case Some(j) =>
      if end == l[j].from {
        FreeUpdate(l, j, l[j].(from := from));
      } else {
        FreeUpdate(l, j, l[j].(end := end));
      }
  }

  // ---------------------------------------------------------------------
  // interval_alloc

  /** `(int) (interval->end - interval->from)`, compared as an unsigned `size_t`. */
  function Available(iv: Interval): u32
  {
    Wrap32(iv.end - iv.from)
  }

  /**
   * The carve test of line 63. As written, `available - sizeof(struct
   * Interval)` is unsigned and wraps for intervals under 12 bytes; the
   * intended test is the signed one.
   */
  predicate Carves(iv: Interval, requested: u32, asWritten: bool)
  {
    if asWritten then Wrap32(Available(iv) - INTERVAL_SIZE) > requested
    else Available(iv) - INTERVAL_SIZE > requested
  }

  predicate Fits(iv: Interval, requested: u32, asWritten: bool)
  {
    Carves(iv, requested, asWritten) || Available(iv) >= requested
  }

  /** The first interval, from index `i` on, that can serve the request. */
  function FitIndex(l: seq<Interval>, requested: u32, asWritten: bool, i: nat): (r: Option<nat>)
    requires i <= |l|
    ensures r.Some? ==> i <= r.value < |l| && Fits(l[r.value], requested, asWritten)
    ensures r.Some? ==> forall k :: i <= k < r.value ==> !Fits(l[k], requested, asWritten)
    ensures r.None? ==> forall k :: i <= k < |l| ==> !Fits(l[k], requested, asWritten)
    decreases |l| - i
  {
    if i == |l| then None
    else if Fits(l[i], requested, asWritten) then Some(i)
    else FitIndex(l, requested, asWritten, i + 1)
  }

  /** What an allocation hands out and the list it leaves. */
  datatype AllocResult = AllocResult(block: Option<u32>, list: seq<Interval>)

  /**
   * One scan of interval_alloc's loop: the first fitting interval either
   * loses `requested` bytes at its end, whose new end is returned, or is
   * unlinked whole and its start returned.
   */
  function Scan(l: seq<Interval>, requested: u32, asWritten: bool): AllocResult
  {
    match FitIndex(l, requested, asWritten, 0)
    case None => AllocResult(None, l)
    case Some(j) =>
      if Carves(l[j], requested, asWritten) then
        var e := Wrap32(l[j].end - requested);
        AllocResult(Some(e), l[j := l[j].(end := e)])
      else AllocResult(Some(l[j].from), l[..j] + l[j + 1..])
  }

  /** Some interval of `l` contains the block `[b, b + requested)`. */
  ghost predicate Inside(l: seq<Interval>, b: u32, requested: u32)
  {
    exists j :: 0 <= j < |l| && l[j].from <= b && b + requested <= l[j].end
  }

  /**
   * With the signed carve test, a successful scan takes at least `requested`
   * bytes out of one interval, hands out a block lying inside it, and leaves
   * every interval running forward; a failed scan changes nothing.
   */
  lemma ScanTakes(l: seq<Interval>, requested: u32)
    requires WellFormed(l)
    ensures var r := Scan(l, requested, false);
      && WellFormed(r.list)
      && (r.block.None? ==> r.list == l)
      && (r.block.Some? ==> Inside(l, r.block.value, requested) && r.block.value + requested < U32_LIMIT)
      && (r.block.Some? ==> Free(l) - requested - INTERVAL_SIZE <= Free(r.list) <= Free(l) - requested)
  {
    match FitIndex(l, requested, false, 0)
    case None =>
    case Some(j) =>
      if Carves(l[j], requested, false) {
        CarveTakes(l, j, requested);
      } else {
        UnlinkTakes(l, j, requested);
      }
  }

  lemma CarveTakes(l: seq<Interval>, j: nat, requested: u32)
    requires WellFormed(l) && j < |l| && Carves(l[j], requested, false)
    ensures var e := Wrap32(l[j].end - requested);
      && e == l[j].end - requested
      && WellFormed(l[j := l[j].(end := e)])
      && Inside(l, e, requested)
      && Free(l[j := l[j].(end := e)]) == Free(l) - requested
  {
    var e := l[j].end - requested;
    FreeUpdate(l, j, l[j].(end := e));
  }

  lemma UnlinkTakes(l: seq<Interval>, j: nat, requested: u32)
    requires WellFormed(l) && j < |l| && !Carves(l[j], requested, false) && Available(l[j]) >= requested
    ensures WellFormed(l[..j] + l[j + 1..])
    ensures Inside(l, l[j].from, requested)
    ensures Free(l) - requested - INTERVAL_SIZE <= Free(l[..j] + l[j + 1..]) <= Free(l) - requested
  {
    FreeRemove(l, j);
    RemoveWellFormed(l, j);
    AvailableIsSize(l[j]);
    assert 0 <= j < |l| && l[j].from <= l[j].from && l[j].from + requested <= l[j].end;
  }

  /** For a forward interval the wrapped difference is the plain size. */
  lemma AvailableIsSize(iv: Interval)
    requires iv.from <= iv.end
    ensures Available(iv) == Size(iv)
  {
  }

  lemma RemoveWellFormed(l: seq<Interval>, j: nat)
    requires WellFormed(l) && j < |l|
    ensures WellFormed(l[..j] + l[j + 1..])
  {
    var l' := l[..j] + l[j + 1..];
    forall k | 0 <= k < |l'|
      ensures l'[k].from <= l'[k].end
    {
      if k < j { assert l'[k] == l[k]; } else { assert l'[k] == l[k + 1]; }
    }
  }

  /**
   * Finding: an 8-byte free interval (what `kfree` leaves behind for a
   * `kmalloc(0)` block) passes the unsigned carve test for any request, and
   * carving 108 bytes from it moves its end 100 bytes below its start, handing
   * out memory that was never free.
   */
  lemma CarveWrapsBelowStart()
    ensures Scan([Interval(1000, 1008)], 108, true) == AllocResult(Some(900), [Interval(1000, 900)])
    ensures !WellFormed(Scan([Interval(1000, 1008)], 108, true).list)
    ensures Scan([Interval(1000, 1008)], 108, false) == AllocResult(None, [Interval(1000, 1008)])
  {
    var l := [Interval(1000, 1008)];
    assert Carves(l[0], 108, true);
    assert FitIndex(l, 108, true, 0) == Some(0);
    assert !Fits(l[0], 108, false);
    assert FitIndex(l, 108, false, 1) == None;
    assert FitIndex(l, 108, false, 0) == None;
    var r := Scan(l, 108, true);
    assert r.list[0].from > r.list[0].end;
  }

  /**
   * The free total interval_alloc accumulates. As written it doubles a
   * running total that starts at 0, so it stays 0 and the retry after
   * defragmenting happens only for a zero-byte request; the intended total
   * is the list's free bytes.
   */
  function RetryTotal(l: seq<Interval>, asWritten: bool): int
  {
    if asWritten then 0 else Free(l)
  }

  /**
   * interval_alloc: a scan; when nothing fits and `tryDefragment` holds and
   * the free total covers the request, defragment and scan once more.
   */
  function Alloc(l: seq<Interval>, requested: u32, tryDefragment: bool, asWritten: bool): AllocResult
  {
    var r := Scan(l, requested, asWritten);
    if r.block.Some? then r
    else if tryDefragment && RetryTotal(l, asWritten) >= requested then
      Scan(Defragment(l, asWritten), requested, asWritten)
    else AllocResult(None, l)
  }

  /**
   * The corrected interval_alloc keeps every interval forward, and hands out
   * a block of at least `requested` bytes whenever it returns one; when it
   * fails the free total is unchanged.
   */
  lemma AllocTakes(l: seq<Interval>, requested: u32, tryDefragment: bool)
    requires WellFormed(l)
    ensures var r := Alloc(l, requested, tryDefragment, false);
      && WellFormed(r.list)
      && (r.block.None? ==> Free(r.list) == Free(l))
      && (r.block.Some? ==> Free(l) - requested - INTERVAL_SIZE <= Free(r.list) <= Free(l) - requested)
      && (r.block.Some? ==> r.block.value + requested < U32_LIMIT)
  {
    ScanTakes(l, requested);
    var r := Scan(l, requested, false);
    if r.block.None? && tryDefragment && Free(l) >= requested {
      DefragmentFree(l);
      var d := Defragment(l, false);
      ScanTakes(d, requested);
    }
  }

  /**
   * Finding: two adjacent intervals that together hold 300 bytes cannot
   * serve a 250-byte request as written, since the free total is 0 and no
   * defragmentation is tried; with the real total, defragmenting merges them
   * and the request is carved from the end.
   */
  lemma RetryNeverFires()
    ensures Alloc([Interval(0, 200), Interval(200, 300)], 250, true, true).block == None
    ensures Alloc([Interval(0, 200), Interval(200, 300)], 250, true, false).block == Some(50)
  {
    var l := [Interval(0, 200), Interval(200, 300)];
    assert FitIndex(l, 250, true, 2) == None;
    assert FitIndex(l, 250, true, 0) == None;
    assert FitIndex(l, 250, false, 2) == None;
    assert FitIndex(l, 250, false, 0) == None;
    assert Free(l) == 300 by {
      assert l[..1] == [Interval(0, 200)];
      assert l[..1][..0] == [];
    }
    var m := [Interval(0, 300), Interval(300, 300)];
    assert MergeStep(l, 0, 0) == l;
    assert MergeStep(l, 0, 1) == m;
    assert InnerPass(l, 0, 0) == m;
    assert MergeStep(m, 1, 0) == m;
    assert MergeStep(m, 1, 1) == m;
    assert InnerPass(m, 1, 0) == m;
    assert OuterPass(l, 0) == m;
    assert NonEmpty(m) == [Interval(0, 300)];
    var d := [Interval(0, 300)];
    assert Defragment(l, false) == d;
    assert Carves(d[0], 250, false);
    assert FitIndex(d, 250, false, 0) == Some(0);
  }

  // ---------------------------------------------------------------------
  // interval_defragment

  /**
   * One comparison of the first pass: if interval `a` starts where `b`
   * ends, `b` absorbs it and `a` is emptied; else if `a` ends where `b`
   * starts, `a` absorbs `b` and `b` is emptied.
   */
  function MergeStep(l: seq<Interval>, a: nat, b: nat): (r: seq<Interval>)
    requires a < |l| && b < |l|
    ensures |r| == |l|
  {
    if l[a].from == l[b].end then Absorb(l, a, b)
    else if l[a].end == l[b].from then Absorb(l, b, a)
    else l
  }

  /** Interval `b` takes over the end of `a`, which is then emptied by moving its start to its end. */
  function Absorb(l: seq<Interval>, a: nat, b: nat): (r: seq<Interval>)
    requires a < |l| && b < |l|
    ensures |r| == |l|
  {
    var l1 := l[b := l[b].(end := l[a].end)];
    l1[a := l1[a].(from := l1[a].end)]
  }

  /** The inner loop of the first pass, from `interval2` at index `b` on. */
  function InnerPass(l: seq<Interval>, a: nat, b: nat): (r: seq<Interval>)
    requires a < |l| && b <= |l|
    ensures |r| == |l|
    decreases |l| - b
  {
    if b == |l| then l else InnerPass(MergeStep(l, a, b), a, b + 1)
  }

  /** The outer loop of the first pass, from `interval` at index `a` on. */
  function OuterPass(l: seq<Interval>, a: nat): (r: seq<Interval>)
    requires a <= |l|
    ensures |r| == |l|
    decreases |l| - a
  {
    if a == |l| then l else OuterPass(InnerPass(l, a, 0), a + 1)
  }

  lemma MergeStepFree(l: seq<Interval>, a: nat, b: nat)
    requires a < |l| && b < |l| && WellFormed(l)
    ensures WellFormed(MergeStep(l, a, b)) && Free(MergeStep(l, a, b)) == Free(l)
  {
    if l[a].from == l[b].end {
      AbsorbFree(l, a, b);
    } else if l[a].end == l[b].from {
      AbsorbFree(l, b, a);
    }
  }

  /** When `a` starts where `b` ends, absorbing it keeps the free total. */
  lemma AbsorbFree(l: seq<Interval>, a: nat, b: nat)
    requires a < |l| && b < |l| && WellFormed(l) && l[a].from == l[b].end
    ensures WellFormed(Absorb(l, a, b)) && Free(Absorb(l, a, b)) == Free(l)
  {
    var l1 := l[b := l[b].(end := l[a].end)];
    FreeUpdate(l, b, l[b].(end := l[a].end));
    FreeUpdate(l1, a, l1[a].(from := l1[a].end));
  }

  lemma {:induction false} InnerPassFree(l: seq<Interval>, a: nat, b: nat)
    requires a < |l| && b <= |l| && WellFormed(l)
    ensures WellFormed(InnerPass(l, a, b)) && Free(InnerPass(l, a, b)) == Free(l)
    decreases |l| - b
  {
    if b < |l| {
      MergeStepFree(l, a, b);
      InnerPassFree(MergeStep(l, a, b), a, b + 1);
    }
  }

  lemma {:induction false} OuterPassFree(l: seq<Interval>, a: nat)
    requires a <= |l| && WellFormed(l)
    ensures WellFormed(OuterPass(l, a)) && Free(OuterPass(l, a)) == Free(l)
    decreases |l| - a
  {
    if a < |l| {
      InnerPassFree(l, a, 0);
      OuterPassFree(InnerPass(l, a, 0), a + 1);
    }
  }

  /** The intended second pass: every emptied interval (`from == end`) is unlinked. */
  function NonEmpty(l: seq<Interval>): (r: seq<Interval>)
    ensures forall k :: 0 <= k < |r| ==> r[k].from != r[k].end
  {
    if |l| == 0 then []
    else if l[|l| - 1].from == l[|l| - 1].end then NonEmpty(l[..|l| - 1])
    else NonEmpty(l[..|l| - 1]) + [l[|l| - 1]]
  }

  lemma {:induction false} NonEmptyFree(l: seq<Interval>)
    requires WellFormed(l)
    ensures WellFormed(NonEmpty(l)) && Free(NonEmpty(l)) == Free(l)
    ensures forall x :: x in l && x.from != x.end ==> x in NonEmpty(l)
    ensures forall x :: x in NonEmpty(l) ==> x in l
  {
    if |l| > 0 {
      var n := |l| - 1;
      NonEmptyFree(l[..n]);
      assert l == l[..n] + [l[n]];
      if l[n].from != l[n].end {
        FreeAppend(NonEmpty(l[..n]), [l[n]]);
        assert [l[n]][..0] == [];
      }
    }
  }

  /**
   * The second pass as written. `previous` advances even past a node it has
   * just unlinked; the next empty node is then unlinked from that dead node
   * and stays in the list. `kept` is the list built so far and `prevDropped`
   * says whether `previous` is a node already unlinked. A node is unlinked
   * at the head exactly while nothing has been kept.
   */
  function SweepAsWritten(l: seq<Interval>, kept: seq<Interval>, prevDropped: bool): seq<Interval>
    decreases |l|
  {
    if |l| == 0 then kept
    else if l[0].from == l[0].end && (|kept| == 0 || !prevDropped) then
      SweepAsWritten(l[1..], kept, true)
    else SweepAsWritten(l[1..], kept + [l[0]], false)
  }

  /** interval_defragment: the merging pass, then the unlinking pass. */
  function Defragment(l: seq<Interval>, asWritten: bool): seq<Interval>
  {
    if asWritten then SweepAsWritten(OuterPass(l, 0), [], false) else NonEmpty(OuterPass(l, 0))
  }

  /**
   * Finding: after a live interval, of two emptied intervals in a row only
   * the first is unlinked as written; the intended pass drops both.
   */
  lemma SweepKeepsSecondEmpty()
    ensures SweepAsWritten([Interval(0, 8), Interval(8, 8), Interval(8, 8)], [], false)
         == [Interval(0, 8), Interval(8, 8)]
    ensures NonEmpty([Interval(0, 8), Interval(8, 8), Interval(8, 8)]) == [Interval(0, 8)]
  {
    var l := [Interval(0, 8), Interval(8, 8), Interval(8, 8)];
    assert l[1..] == [Interval(8, 8), Interval(8, 8)];
    assert l[1..][1..] == [Interval(8, 8)];
    assert l[..2] == [Interval(0, 8), Interval(8, 8)];
    assert l[..2][..1] == [Interval(0, 8)];
    assert l[..2][..1][..0] == [];
    assert NonEmpty(l[..2][..1]) == [Interval(0, 8)];
    assert NonEmpty(l[..2]) == [Interval(0, 8)];
  }

  /** The corrected defragmentation keeps the free total and leaves no empty interval. */
  lemma DefragmentFree(l: seq<Interval>)
    requires WellFormed(l)
    ensures WellFormed(Defragment(l, false)) && Free(Defragment(l, false)) == Free(l)
    ensures forall k :: 0 <= k < |Defragment(l, false)| ==> Defragment(l, false)[k].from != Defragment(l, false)[k].end
  {
    OuterPassFree(l, 0);
    NonEmptyFree(OuterPass(l, 0));
  }

  // ---------------------------------------------------------------------
  // Where the free-list nodes live

  /**
   * A free-list node: the address `at` of its `struct Interval`, which sits
   * inside the free memory it describes, and that memory `iv`.
   */
  datatype Node = Node(at: u32, iv: Interval)

  /** The intervals of a node list, in order. */
  function Intervals(ns: seq<Node>): (r: seq<Interval>)
    ensures |r| == |ns| && forall k :: 0 <= k < |ns| ==> r[k] == ns[k].iv
  {
    seq(|ns|, k requires 0 <= k < |ns| => ns[k].iv)
  }

  /**
   * interval_insert on nodes: a new node is written at `from`. As written,
   * growing a node down moves its `from` and leaves its struct where it was;
   * the intended insert moves the struct to the new start, where
   * interval_defragment expects every node to sit.
   */
  function InsertNode(ns: seq<Node>, from: u32, end: u32, asWritten: bool): seq<Node>
  {
    match MergeIndex(Intervals(ns), from, end, 0)
    case None => [Node(from, Interval(from, end))] + ns
    case Some(j) =>
      if end == ns[j].iv.from then ns[j := Node(if asWritten then ns[j].at else from, ns[j].iv.(from := from))]
      else ns[j := ns[j].(iv := ns[j].iv.(end := end))]
  }

  /** Either way the intervals are those of `Insert`: only where the struct sits differs. */
  lemma InsertNodeIntervals(ns: seq<Node>, from: u32, end: u32, asWritten: bool)
    ensures Intervals(InsertNode(ns, from, end, asWritten)) == Insert(Intervals(ns), from, end)
  {
    var l := Intervals(ns);
    match MergeIndex(l, from, end, 0)
    case None =>
      assert Intervals([Node(from, Interval(from, end))] + ns) == [Interval(from, end)] + l;
    case Some(j) =>
      if end == ns[j].iv.from {
        assert Intervals(InsertNode(ns, from, end, asWritten)) == l[j := l[j].(from := from)];
      } else {
        assert Intervals(InsertNode(ns, from, end, asWritten)) == l[j := l[j].(end := end)];
      }
  }

  /**
   * One scan of interval_alloc on nodes, with the signed carve test: a carved
   * node keeps its struct and loses its end; an unlinked node is dropped.
   */
  function ScanNodes(ns: seq<Node>, requested: u32): (seq<Node>, Option<u32>)
  {
    match FitIndex(Intervals(ns), requested, false, 0)
    case None => (ns, None)
    case Some(j) =>
      if Carves(ns[j].iv, requested, false) then
        var e := Wrap32(ns[j].iv.end - requested);
        (ns[j := ns[j].(iv := ns[j].iv.(end := e))], Some(e))
      else (ns[..j] + ns[j + 1..], Some(ns[j].iv.from))
  }

  /** The node scan hands out the block of `Scan` and leaves its intervals. */
  lemma ScanNodesIntervals(ns: seq<Node>, requested: u32)
    ensures var r := ScanNodes(ns, requested);
      AllocResult(r.1, Intervals(r.0)) == Scan(Intervals(ns), requested, false)
  {
    var l := Intervals(ns);
    match FitIndex(l, requested, false, 0)
    case None =>
    case Some(j) =>
      if Carves(ns[j].iv, requested, false) {
        var e := Wrap32(ns[j].iv.end - requested);
        assert Intervals(ns[j := ns[j].(iv := ns[j].iv.(end := e))]) == l[j := l[j].(end := e)];
      } else {
        assert Intervals(ns[..j] + ns[j + 1..]) == l[..j] + l[j + 1..];
      }
  }

  /** Every node's struct sits at the start of its interval. */
  predicate NodesAtStart(ns: seq<Node>)
  {
    forall k :: 0 <= k < |ns| ==> ns[k].at == ns[k].iv.from
  }

  /** Some of the 12 bytes of node `n`'s struct lie in the block `[block, block + size)`. */
  predicate StructInBlock(n: Node, block: int, size: int)
  {
    block < n.at + INTERVAL_SIZE && n.at < block + size
  }

  /** The intended insert keeps every struct at the start of its interval. */
  lemma InsertKeepsNodesAtStart(ns: seq<Node>, from: u32, end: u32)
    requires NodesAtStart(ns)
    ensures NodesAtStart(InsertNode(ns, from, end, false))
  {
    var r := InsertNode(ns, from, end, false);
    match MergeIndex(Intervals(ns), from, end, 0)
    case None =>
      assert forall k :: 1 <= k < |r| ==> r[k] == ns[k - 1];
    case Some(j) =>
  }

  /**
   * With every struct at the start of its interval, the scan keeps them
   * there, and a block carved off the end of the first node that fits
   * never covers that node's struct, which stays linked.
   */
  lemma CarveClearsNode(ns: seq<Node>, requested: u32)
    requires NodesAtStart(ns) && WellFormed(Intervals(ns))
    ensures var r := ScanNodes(ns, requested);
      var j := FitIndex(Intervals(ns), requested, false, 0);
      && NodesAtStart(r.0)
      && (j.Some? && Carves(ns[j.value].iv, requested, false) ==>
            r.1 == Some(r.0[j.value].iv.end) && !StructInBlock(r.0[j.value], r.1.value, requested))
  {
    var l := Intervals(ns);
    var r := ScanNodes(ns, requested);
    match FitIndex(l, requested, false, 0)
    case None =>
    case Some(j) =>
      if Carves(ns[j].iv, requested, false) {
        CarveTakes(l, j, requested);
        AvailableIsSize(ns[j].iv);
      } else {
        assert forall k :: 0 <= k < |r.0| ==> r.0[k] == (if k < j then ns[k] else ns[k + 1]);
      }
  }

  /**
   * Finding: after kmalloc_init(H, 1000), kmalloc(100) and kmalloc(200)
   * carve `[H+892, H+1000)` and `[H+684, H+892)`; kfree of the first writes a
   * node at H+892, and kfree of the second grows that node down to
   * `[H+684, H+1000)` with its struct still at H+892. kmalloc(150) then
   * carves `[H+842, H+1000)`, which holds the struct of the node it stays
   * linked through. Moving the struct to H+684 keeps it clear of the block.
   */
  lemma NodeHandedOut()
    ensures var h: u32 := 0x10_0000;
      && InsertNode([], h, h + 1000, true) == [Node(h, Interval(h, h + 1000))]
      && ScanNodes([Node(h, Interval(h, h + 1000))], 108) == ([Node(h, Interval(h, h + 892))], Option<u32>.Some(h + 892))
      && ScanNodes([Node(h, Interval(h, h + 892))], 208) == ([Node(h, Interval(h, h + 684))], Option<u32>.Some(h + 684))
      && InsertNode([Node(h, Interval(h, h + 684))], h + 892, h + 1000, true)
         == [Node(h + 892, Interval(h + 892, h + 1000)), Node(h, Interval(h, h + 684))]
      && InsertNode([Node(h + 892, Interval(h + 892, h + 1000)), Node(h, Interval(h, h + 684))], h + 684, h + 892, true)
         == [Node(h + 892, Interval(h + 684, h + 1000)), Node(h, Interval(h, h + 684))]
      && ScanNodes([Node(h + 892, Interval(h + 684, h + 1000)), Node(h, Interval(h, h + 684))], 158)
         == ([Node(h + 892, Interval(h + 684, h + 842)), Node(h, Interval(h, h + 684))], Option<u32>.Some(h + 842))
      && StructInBlock(Node(h + 892, Interval(h + 684, h + 842)), h + 842, 158)
    ensures var h: u32 := 0x10_0000;
      && InsertNode([Node(h + 892, Interval(h + 892, h + 1000)), Node(h, Interval(h, h + 684))], h + 684, h + 892, false)
         == [Node(h + 684, Interval(h + 684, h + 1000)), Node(h, Interval(h, h + 684))]
      && ScanNodes([Node(h + 684, Interval(h + 684, h + 1000)), Node(h, Interval(h, h + 684))], 158)
         == ([Node(h + 684, Interval(h + 684, h + 842)), Node(h, Interval(h, h + 684))], Option<u32>.Some(h + 842))
      && !StructInBlock(Node(h + 684, Interval(h + 684, h + 842)), h + 842, 158)
  {
    var h: u32 := 0x10_0000;
    assert MergeIndex(Intervals([]), h, h + 1000, 0) == None;
    var n0 := [Node(h, Interval(h, h + 1000))];
    assert Carves(n0[0].iv, 108, false);
    assert FitIndex(Intervals(n0), 108, false, 0) == Some(0);
    var n1 := [Node(h, Interval(h, h + 892))];
    assert Wrap32(h + 1000 - 108) == h + 892;
    assert n0[0 := n0[0].(iv := n0[0].iv.(end := h + 892))] == n1;
    assert Carves(n1[0].iv, 208, false);
    assert FitIndex(Intervals(n1), 208, false, 0) == Some(0);
    var n2 := [Node(h, Interval(h, h + 684))];
    assert Wrap32(h + 892 - 208) == h + 684;
    assert n1[0 := n1[0].(iv := n1[0].iv.(end := h + 684))] == n2;
    assert MergeIndex(Intervals(n2), h + 892, h + 1000, 1) == None;
    assert MergeIndex(Intervals(n2), h + 892, h + 1000, 0) == None;
    var n3 := [Node(h + 892, Interval(h + 892, h + 1000)), Node(h, Interval(h, h + 684))];
    assert MergeIndex(Intervals(n3), h + 684, h + 892, 0) == Some(0);
    var n4 := [Node(h + 892, Interval(h + 684, h + 1000)), Node(h, Interval(h, h + 684))];
    assert Carves(n4[0].iv, 158, false);
    assert FitIndex(Intervals(n4), 158, false, 0) == Some(0);
    assert Wrap32(h + 1000 - 158) == h + 842;
    assert n4[0 := n4[0].(iv := n4[0].iv.(end := h + 842))] == [Node(h + 892, Interval(h + 684, h + 842)), Node(h, Interval(h, h + 684))];
    var m4 := [Node(h + 684, Interval(h + 684, h + 1000)), Node(h, Interval(h, h + 684))];
    assert Carves(m4[0].iv, 158, false);
    assert FitIndex(Intervals(m4), 158, false, 0) == Some(0);
    assert m4[0 := m4[0].(iv := m4[0].iv.(end := h + 842))] == [Node(h + 684, Interval(h + 684, h + 842)), Node(h, Interval(h, h + 684))];
  }

  /** Stepping past a header and back returns to it; a small request plus the header does not wrap. */
  lemma HeaderArith(header: u32, requested: u32)
    ensures Wrap32(Wrap32(header + HEADER_SIZE) - HEADER_SIZE) == header
    ensures requested + HEADER_SIZE < U32_LIMIT ==> Wrap32(requested + HEADER_SIZE) == requested + HEADER_SIZE
  {
    if header + HEADER_SIZE >= U32_LIMIT {
      assert Wrap32(header + HEADER_SIZE) == header + HEADER_SIZE - U32_LIMIT;
    }
  }

  /** The allocation kmalloc asks of interval_alloc: the request plus its header, defragmenting if need be. */
  function KmallocAlloc(l: seq<Interval>, requested: u32): AllocResult
  {
    Alloc(l, Wrap32(requested + HEADER_SIZE), true, false)
  }

  /** kmalloc hands out a block: interval_alloc found one, and it is not at address 0 (NULL). */
  predicate Granted(a: AllocResult)
  {
    a.block.Some? && a.block.value != 0
  }

  /**
   * The list kfree leaves: `[from, end)` inserted, then the corrected
   * defragmentation when `calls` was kfree's tenth call since the last one.
   */
  function Freed(l: seq<Interval>, calls: int, from: u32, end: u32): seq<Interval>
  {
    var inserted := Insert(l, from, end);
    if calls + 1 > KFREE_DEFRAGMENT_CALLS then Defragment(inserted, false) else inserted
  }

  // ---------------------------------------------------------------------
  // The heap state and its operations

  /** `struct UsedMemoryHeader`, written in front of every `kmalloc` block. */
  datatype UsedHeader = UsedHeader(magic: u32, size: u32)

  /**
   * The headers as they read after interval_insert of `[from, end)`. When no
   * node merges, the new head node is written at `from`, and its first two
   * words, `from` and `end`, lie where a header's magic and size are read;
   * a merge writes only into the node it extends.
   */
  function NodeWritten(headers: map<u32, UsedHeader>, l: seq<Interval>, from: u32, end: u32): (r: map<u32, UsedHeader>)
    ensures MergeIndex(l, from, end, 0).None? ==> from in r && r[from] == UsedHeader(from, end)
    ensures forall a :: a != from ==> (a in r <==> a in headers) && (a in r ==> r[a] == headers[a])
    ensures MergeIndex(l, from, end, 0).Some? ==> r == headers
  {
    if MergeIndex(l, from, end, 0).None? then headers[from := UsedHeader(from, end)] else headers
  }

  /**
   * A second kfree of a block whose first kfree pushed a new node panics:
   * after kmalloc_init(H, 1000), p = kmalloc(16) and kmalloc(16), kfree(p)
   * touches no node, writes one over p's header, and the magic kfree checks
   * is gone.
   */
  lemma DoubleFreePanics()
    ensures var h: u32 := 0x10_0000;
      var l0 := Insert([], h, h + 1000);
      var h0 := NodeWritten(map[], [], h, h + 1000);
      var a1 := KmallocAlloc(l0, 16);
      var a2 := KmallocAlloc(a1.list, 16);
      var hs := h0[h + 976 := UsedHeader(KMALLOC_MAGIC, 16)][h + 952 := UsedHeader(KMALLOC_MAGIC, 16)];
      && a1 == AllocResult(Some(h + 976), [Interval(h, h + 976)])
      && a2 == AllocResult(Some(h + 952), [Interval(h, h + 952)])
      && hs[h + 976].magic == KMALLOC_MAGIC
      && Insert(a2.list, h + 976, h + 1000) == [Interval(h + 976, h + 1000), Interval(h, h + 952)]
      && NodeWritten(hs, a2.list, h + 976, h + 1000)[h + 976].magic != KMALLOC_MAGIC
  {
    var h: u32 := 0x10_0000;
    assert MergeIndex([], h, h + 1000, 0) == None;
    var l0 := [Interval(h, h + 1000)];
    assert Carves(l0[0], 24, false);
    assert FitIndex(l0, 24, false, 0) == Some(0);
    var l1 := [Interval(h, h + 976)];
    assert Carves(l1[0], 24, false);
    assert FitIndex(l1, 24, false, 0) == Some(0);
    var l2 := [Interval(h, h + 952)];
    assert MergeIndex(l2, h + 976, h + 1000, 1) == None;
    assert MergeIndex(l2, h + 976, h + 1000, 0) == None;
  }

  class KernelHeap {
    /** `interval_list`, head first. */
    var intervals: seq<Interval>
    /**
     * What reads as a `struct UsedMemoryHeader` at each address where
     * `kmalloc` stamped a header or `interval_insert` wrote a new node.
     */
    var headers: map<u32, UsedHeader>
    /** `kfree`'s static call counter. */
    var calls: int

    ghost predicate Valid()
      reads this
    {
      WellFormed(intervals) && 0 <= calls <= KFREE_DEFRAGMENT_CALLS
    }

    /** The heap before `kmalloc_init`: no free interval, no call to `kfree` yet. */
    constructor ()
      ensures Valid() && intervals == [] && headers == map[] && calls == 0
    {
      intervals := [];
      headers := map[];
      calls := 0;
    }

    /** kmalloc_init: the whole region `[freespace, freespace + size)` becomes free. */
    method KmallocInit(freespace: u32, size: u32)
      requires Valid() && freespace + size < U32_LIMIT
      modifies this
      ensures Valid() && calls == old(calls)
      ensures headers == NodeWritten(old(headers), old(intervals), freespace, freespace + size)
      ensures intervals == Insert(old(intervals), freespace, freespace + size)
      ensures Free(intervals) == Free(old(intervals)) + size
    {
      IntervalInsert(freespace, freespace + size);
    }

    /** interval_insert: walks the list for a node to merge with, else pushes a new head. */
    method IntervalInsert(from: u32, end: u32)
      requires Valid() && from <= end
      modifies this
      ensures Valid() && calls == old(calls)
      ensures headers == NodeWritten(old(headers), old(intervals), from, end)
      ensures intervals == Insert(old(intervals), from, end)
      ensures Free(intervals) == Free(old(intervals)) + (end - from)
    {
      InsertFree(intervals, from, end);
      var i := 0;
      while i < |intervals|
        invariant 0 <= i <= |intervals| && intervals == old(intervals)
        invariant MergeIndex(intervals, from, end, i) == MergeIndex(intervals, from, end, 0)
      {
        if end == intervals[i].from {
          intervals := intervals[i := intervals[i].(from := from)];
          return;
        }
        if intervals[i].end == from {
          intervals := intervals[i := intervals[i].(end := end)];
          return;
        }
        i := i + 1;
      }
      intervals := [Interval(from, end)] + intervals;
      headers := headers[from := UsedHeader(from, end)];
    }

    /**
     * interval_alloc, with the signed carve test and the running free total:
     * its outcome is the corrected `Alloc`, whose cost to the free total
     * `AllocTakes` bounds.
     */
    method IntervalAlloc(requested: u32, tryDefragment: bool) returns (block: Option<u32>)
      requires WellFormed(intervals)
      modifies this
      decreases if tryDefragment then 1 else 0
      ensures headers == old(headers) && calls == old(calls)
      ensures AllocResult(block, intervals) == Alloc(old(intervals), requested, tryDefragment, false)
    {
      var i := 0;
      var total := 0;
      while i < |intervals|
        invariant 0 <= i <= |intervals| && intervals == old(intervals)
        invariant FitIndex(intervals, requested, false, i) == FitIndex(intervals, requested, false, 0)
        invariant total == Free(intervals[..i])
      {
        var iv := intervals[i];
        assert intervals[..i + 1][..i] == intervals[..i];
        total := total + Available(iv);
        if Fits(iv, requested, false) {
          block := TakeFrom(i, requested);
          return;
        }
        i := i + 1;
      }
      assert intervals[..i] == intervals;
      if tryDefragment && total >= requested {
        IntervalDefragment();
        block := IntervalAlloc(requested, false);
      } else {
        block := None;
      }
    }

    /**
     * The body of interval_alloc's loop at the first node that fits, with the
     * corrected (signed) carve test: carve the block off its end, or unlink
     * the node whole.
     */
    method TakeFrom(i: nat, requested: u32) returns (block: Option<u32>)
      requires i < |intervals| && FitIndex(intervals, requested, false, 0) == Some(i)
      modifies this
      ensures headers == old(headers) && calls == old(calls) && block.Some?
      ensures AllocResult(block, intervals) == Scan(old(intervals), requested, false)
    {
      var iv := intervals[i];
      if Carves(iv, requested, false) {
        var e := Wrap32(iv.end - requested);
        intervals := intervals[i := iv.(end := e)];
        block := Some(e);
      } else {
        intervals := intervals[..i] + intervals[i + 1..];
        block := Some(iv.from);
      }
    }

    /**
     * interval_defragment, corrected: the merging pass over every pair of
     * nodes, then a pass that unlinks every emptied node (as written, that
     * pass can leave one linked, see `SweepKeepsSecondEmpty`). The free total
     * is kept and no empty interval is left.
     */
    method IntervalDefragment()
      requires WellFormed(intervals)
      modifies this
      ensures WellFormed(intervals) && headers == old(headers) && calls == old(calls)
      ensures intervals == Defragment(old(intervals), false)
      ensures Free(intervals) == Free(old(intervals))
      ensures forall k :: 0 <= k < |intervals| ==> intervals[k].from != intervals[k].end
    {
      DefragmentFree(intervals);
      MergePass();
      var merged := intervals;
      var kept := [];
      var i := 0;
      while i < |merged|
        invariant 0 <= i <= |merged|
        invariant kept == NonEmpty(merged[..i])
      {
        assert merged[..i + 1][..i] == merged[..i];
        if merged[i].from != merged[i].end {
          kept := kept + [merged[i]];
        }
        i := i + 1;
      }
      assert merged[..i] == merged;
      intervals := kept;
    }

    /** The first pass of interval_defragment. */
    method MergePass()
      modifies this
      ensures headers == old(headers) && calls == old(calls)
      ensures intervals == OuterPass(old(intervals), 0)
    {
      var a := 0;
      while a < |intervals|
        invariant 0 <= a <= |intervals| && |intervals| == |old(intervals)|
        invariant OuterPass(intervals, a) == OuterPass(old(intervals), 0)
        invariant headers == old(headers) && calls == old(calls)
      {
        var b := 0;
        ghost var start := intervals;
        while b < |intervals|
          invariant 0 <= b <= |intervals| && |intervals| == |start|
          invariant InnerPass(intervals, a, b) == InnerPass(start, a, 0)
          invariant headers == old(headers) && calls == old(calls)
        {
          intervals := MergeStep(intervals, a, b);
          b := b + 1;
        }
        a := a + 1;
      }
    }

    /**
     * kmalloc, over the corrected interval_alloc: allocates `requested` bytes
     * plus the header (a `size_t` sum that wraps), stamps the header with the
     * magic number and the size, and returns the address just past it. The
     * header sits at the block of `KmallocAlloc`, and NULL comes back exactly
     * when that allocation finds no block or finds one at address 0.
     */
    method Kmalloc(requested: u32) returns (ptr: Option<u32>)
      requires Valid()
      modifies this
      ensures Valid() && calls == old(calls)
      ensures var a := KmallocAlloc(old(intervals), requested);
        && intervals == a.list
        && (ptr.Some? <==> Granted(a))
        && (ptr.Some? ==> Wrap32(ptr.value - HEADER_SIZE) == a.block.value)
      ensures ptr.None? ==> headers == old(headers) && Free(intervals) <= Free(old(intervals))
      ensures ptr.Some? ==>
        var header := Wrap32(ptr.value - HEADER_SIZE);
        && headers == old(headers)[header := UsedHeader(KMALLOC_MAGIC, requested)]
        && Free(intervals) <= Free(old(intervals)) - Wrap32(requested + HEADER_SIZE)
        && Free(intervals) >= Free(old(intervals)) - Wrap32(requested + HEADER_SIZE) - INTERVAL_SIZE
        && (requested + HEADER_SIZE < U32_LIMIT ==> header + requested + HEADER_SIZE < U32_LIMIT)
    {
      var needed := Wrap32(requested + HEADER_SIZE);
      ghost var before := intervals;
      var block := IntervalAlloc(needed, true);
      AllocTakes(before, needed, true);
      if block.None? || block.value == 0 {
        return None;
      }
      var header := block.value;
      HeaderArith(header, requested);
      headers := headers[header := UsedHeader(KMALLOC_MAGIC, requested)];
      ptr := Some(Wrap32(header + HEADER_SIZE));
    }

    /**
     * kfree: the header in front of `allocated` must carry the magic number;
     * the block and its header go back to the free list, and every eleventh
     * call runs the corrected defragmentation.
     */
    method Kfree(p: u32)
      requires Valid()
      requires Wrap32(p - HEADER_SIZE) in headers
      requires headers[Wrap32(p - HEADER_SIZE)].magic == KMALLOC_MAGIC
      requires Wrap32(p - HEADER_SIZE) + headers[Wrap32(p - HEADER_SIZE)].size + HEADER_SIZE < U32_LIMIT
      modifies this
      ensures Valid()
      ensures var header := Wrap32(p - HEADER_SIZE);
        var end := header + old(headers)[header].size + HEADER_SIZE;
        && intervals == Freed(old(intervals), old(calls), header, end)
        && headers == NodeWritten(old(headers), old(intervals), header, end)
      ensures calls == if old(calls) + 1 > KFREE_DEFRAGMENT_CALLS then 0 else old(calls) + 1
      ensures Free(intervals) == Free(old(intervals)) + old(headers)[Wrap32(p - HEADER_SIZE)].size + HEADER_SIZE
    {
      var header := Wrap32(p - HEADER_SIZE);
      var size := headers[header].size;
      IntervalInsert(header, header + size + HEADER_SIZE);
      calls := calls + 1;
      if calls > KFREE_DEFRAGMENT_CALLS {
        IntervalDefragment();
        calls := 0;
      }
    }
  }
}
