/**
 The structural findings of forensic/src/lib.rs: prepended and trailing data, spanning markers, and
 members whose data ranges overlap, found by comparing neighbours after a sort.
 */
module Audit {
  import opened Wrappers
  import opened Bytes
  import opened Archive
  import opened Container
  import Format
  import Names

  datatype Field = NameField | MethodField | ChecksumField | CompressedField | UncompressedField

  /** What can be suspicious about a name. */
  datatype NameFault = Traversal | Absolute | Bidi | Control

  datatype Anomaly =
    | PrependedData(length: nat)
    | TrailingData(length: nat)
    | SpanningAnomaly(diskNumber: nat, cdStartDisk: nat)
    | Overlap(indexA: nat, indexB: nat, at: nat)
    | SuspiciousName(index: nat, fault: NameFault)
    | CdLfhMismatch(index: nat, field: Field)

  /** A member's data range; `index` is its place in the layout. */
  datatype Span = Span(index: nat, start: nat, end: nat)

  const U64_MAX: nat := 0xFFFF_FFFF_FFFF_FFFF

  function SaturatingAdd(a: nat, b: nat): nat {
    if a + b <= U64_MAX then a + b else U64_MAX
  }

  predicate FitsU64(layout: seq<EntryLayout>) {
    forall i :: 0 <= i < |layout| ==> layout[i].dataStart <= U64_MAX
  }

  function SpanOf(e: EntryLayout): Span {
    Span(e.index, e.dataStart, SaturatingAdd(e.dataStart, e.central.compressedSize))
  }

  function SpansOf(layout: seq<EntryLayout>): (r: seq<Span>)
    ensures |r| == |layout| && forall i :: 0 <= i < |r| ==> r[i] == SpanOf(layout[i])
  {
    seq(|layout|, i requires 0 <= i < |layout| => SpanOf(layout[i]))
  }

  predicate Proper(spans: seq<Span>) {
    forall i :: 0 <= i < |spans| ==> spans[i].start <= spans[i].end
  }

  // ----- the stable sort by start ---------------------------------------------------------------

  /** Span `i` comes before span `j`: it starts earlier, or at the same offset and is listed earlier. */
  predicate Precedes(spans: seq<Span>, i: nat, j: nat) {
    && i < |spans| && j < |spans|
    && (spans[i].start < spans[j].start || (spans[i].start == spans[j].start && i < j))
  }

  /** `order` lists the first `n` positions as a stable sort by start does. */
  predicate StableOrder(spans: seq<Span>, order: seq<nat>, n: nat) {
    && |order| == n <= |spans|
    && (forall a :: 0 <= a < n ==> order[a] < n)
    && (forall i :: 0 <= i < n ==> i in order)
    && (forall a, b :: 0 <= a < b < n ==> Precedes(spans, order[a], order[b]))
  }

  predicate Below(order: seq<nat>, n: nat) {
    forall a :: 0 <= a < |order| ==> order[a] < n
  }

  /** Position `p` behind all that start no later. */
  function Inserted(spans: seq<Span>, order: seq<nat>, p: nat): (r: seq<nat>)
    requires p < |spans| && Below(order, |spans|)
    ensures |r| == |order| + 1 && p in r && (forall i :: i in order ==> i in r)
    ensures forall a :: 0 <= a < |r| ==> r[a] == p || r[a] in order
    decreases |order|
  {
    var n := |order|;
    if n == 0 || spans[order[n - 1]].start <= spans[p].start then order + [p]
    else
      assert order == order[..n - 1] + [order[n - 1]];
      Inserted(spans, order[..n - 1], p) + [order[n - 1]]
  }

  function Order(spans: seq<Span>, n: nat): (order: seq<nat>)
    requires n <= |spans|
    ensures |order| == n && Below(order, n) && forall i :: 0 <= i < n ==> i in order
  {
    if n == 0 then [] else Inserted(spans, Order(spans, n - 1), n - 1)
  }

  predicate InOrder(spans: seq<Span>, order: seq<nat>) {
    forall a, b :: 0 <= a < b < |order| ==> Precedes(spans, order[a], order[b])
  }

  lemma {:induction false} InsertedInOrder(spans: seq<Span>, order: seq<nat>, p: nat)
    requires p < |spans| && InOrder(spans, order) && Below(order, p)
    ensures InOrder(spans, Inserted(spans, order, p))
    decreases |order|
  {
    var n := |order|;
    if n > 0 && spans[order[n - 1]].start > spans[p].start {
      var front := order[..n - 1];
      InsertedInOrder(spans, front, p);
      var r := Inserted(spans, front, p);
      forall a | 0 <= a < |r|
        ensures Precedes(spans, r[a], order[n - 1])
      {
        assert r[a] in r;
        assert r[a] == p || r[a] in front;
      }
    } else {
      forall a | 0 <= a < n
        ensures Precedes(spans, order[a], p)
      {
        assert a < n - 1 ==> Precedes(spans, order[a], order[n - 1]);
      }
    }
  }

  lemma {:induction false} OrderIsStable(spans: seq<Span>, n: nat)
    requires n <= |spans|
    ensures StableOrder(spans, Order(spans, n), n)
    decreases n
  {
    hide Precedes, Inserted;
    if n > 0 {
      OrderIsStable(spans, n - 1);
      InsertedInOrder(spans, Order(spans, n - 1), n - 1);
    }
  }

  /** There is only one way to sort stably, so it does not matter how the sort works. */
  lemma {:induction false} OrderIsUnique(spans: seq<Span>, order: seq<nat>, n: nat)
    requires StableOrder(spans, order, n)
    ensures order == Order(spans, n)
  {
    OrderIsStable(spans, n);
    OrdersAgree(spans, order, Order(spans, n), n, n);
  }

  lemma {:induction false} OrdersAgree(spans: seq<Span>, a: seq<nat>, b: seq<nat>, n: nat, k: nat)
    requires StableOrder(spans, a, n) && StableOrder(spans, b, n) && k <= n
    ensures a[..k] == b[..k]
    decreases k
  {
    if k > 0 {
      OrdersAgree(spans, a, b, n, k - 1);
      forall i | 0 <= i < k - 1
        ensures a[i] == b[i]
      {
        assert a[..k - 1][i] == b[..k - 1][i];
      }
      NotBefore(spans, a, b, n, k - 1);
      NotBefore(spans, b, a, n, k - 1);
      assert a[k - 1] == b[k - 1];
    }
  }

  lemma {:induction false} AllDifferent(spans: seq<Span>, order: seq<nat>, n: nat)
    requires StableOrder(spans, order, n)
    ensures forall a, b :: 0 <= a < b < n ==> order[a] != order[b]
  {
  }

  /** In a stable order places and precedence agree. */
  lemma {:induction false} Rank(spans: seq<Span>, order: seq<nat>, a: nat, b: nat)
    requires StableOrder(spans, order, |spans|) && a < |spans| && b < |spans|
    ensures Precedes(spans, order[a], order[b]) <==> a < b
  {
    if b < a {
      assert Precedes(spans, order[b], order[a]);
    }
  }

  /** With the same elements before them, the next of `b` is the next of `a` or comes before it. */
  lemma {:induction false} NotBefore(spans: seq<Span>, a: seq<nat>, b: seq<nat>, n: nat, k: nat)
    requires StableOrder(spans, a, n) && StableOrder(spans, b, n) && k < n
    requires forall i :: 0 <= i < k ==> a[i] == b[i]
    ensures a[k] == b[k] || Precedes(spans, b[k], a[k])
  {
    assert a[k] in b;
    var j :| 0 <= j < n && b[j] == a[k];
    AllDifferent(spans, a, n);
    assert j >= k;
  }

  // ----- the sweep ------------------------------------------------------------------------------

  function Sorted(spans: seq<Span>): (r: seq<Span>)
    ensures |r| == |spans|
  {
    seq(|spans|, k requires 0 <= k < |spans| => spans[Order(spans, |spans|)[k]])
  }

  /** The findings among the first `n` sorted spans. */
  function Findings(sorted: seq<Span>, n: nat): seq<Anomaly>
    requires n <= |sorted|
  {
    if n < 2 then []
    else
      Findings(sorted, n - 1)
      + if sorted[n - 1].start < sorted[n - 2].end
        then [Overlap(sorted[n - 2].index, sorted[n - 1].index, sorted[n - 1].start)]
        else []
  }

  function Overlaps(layout: seq<EntryLayout>): seq<Anomaly> {
    Findings(Sorted(SpansOf(layout)), |layout|)
  }

  method AuditOverlaps(layout: seq<EntryLayout>) returns (out: seq<Anomaly>)
    ensures out == Overlaps(layout)
  {
    var sorted := Sorted(SpansOf(layout));
    out := [];
    var k := 1;
    while k < |sorted|
      invariant 1 <= k && (|sorted| == 0 || k <= |sorted|)
      invariant out == Findings(sorted, if k <= |sorted| then k else 0)
    {
      if sorted[k].start < sorted[k - 1].end {
        out := out + [Overlap(sorted[k - 1].index, sorted[k].index, sorted[k].start)];
      } else {
        assert out + [] == out;
      }
      k := k + 1;
    }
  }

  /** In start order, every earlier span ends at or before every later start: a check of all pairs. */
  predicate AllApart(spans: seq<Span>) {
    forall i: nat, j: nat :: i < |spans| && j < |spans| && Precedes(spans, i, j) ==> spans[i].end <= spans[j].start
  }

  /** No span stands between `i` and `j` in start order. */
  predicate Neighbours(spans: seq<Span>, i: nat, j: nat) {
    Precedes(spans, i, j) && forall k: nat :: k < |spans| ==> !(Precedes(spans, i, k) && Precedes(spans, k, j))
  }

  /** Neighbours `i` and `j` overlap, and `f` says where. */
  predicate Reports(spans: seq<Span>, f: Anomaly, i: nat, j: nat) {
    && Neighbours(spans, i, j) && spans[j].start < spans[i].end
    && f == Overlap(spans[i].index, spans[j].index, spans[j].start)
  }

  /** Neighbours in start order are exactly the adjacent elements of the sort. */
  lemma {:induction false} NeighboursAreAdjacent(spans: seq<Span>, order: seq<nat>, a: nat, b: nat)
    requires StableOrder(spans, order, |spans|) && a < |order| && b < |order|
    ensures Neighbours(spans, order[a], order[b]) <==> b == a + 1
  {
    if b == a + 1 {
      forall k: nat | k < |spans|
        ensures !(Precedes(spans, order[a], k) && Precedes(spans, k, order[b]))
      {
        assert k in order;
        var c :| 0 <= c < |order| && order[c] == k;
        assert c < a ==> Precedes(spans, order[c], order[a]);
        assert b < c ==> Precedes(spans, order[b], order[c]);
      }
    } else if b > a {
      assert Precedes(spans, order[a], order[a + 1]) && Precedes(spans, order[a + 1], order[b]);
    } else if b < a {
      assert Precedes(spans, order[b], order[a]);
    }
  }

  lemma {:induction false} SortedAt(spans: seq<Span>, k: nat)
    requires k < |spans|
    ensures var order := Order(spans, |spans|); order[k] < |spans| && Sorted(spans)[k] == spans[order[k]]
  {
  }

  /** A finding stems from two adjacent spans of the sort. */
  predicate From(sorted: seq<Span>, f: Anomaly, k: nat) {
    && k + 1 < |sorted| && sorted[k + 1].start < sorted[k].end
    && f == Overlap(sorted[k].index, sorted[k + 1].index, sorted[k + 1].start)
  }

  lemma {:induction false} FindingsAre(sorted: seq<Span>, n: nat, f: Anomaly)
    requires n <= |sorted|
    ensures f in Findings(sorted, n) <==> exists k: nat :: k + 1 < n && From(sorted, f, k)
    decreases n
  {
    if n >= 2 {
      FindingsAre(sorted, n - 1, f);
      if From(sorted, f, n - 2) {
        assert f in Findings(sorted, n);
      }
    }
  }

  lemma {:induction false} FromReports(spans: seq<Span>, f: Anomaly, k: nat)
    requires k + 1 < |spans|
    ensures var order := Order(spans, |spans|); From(Sorted(spans), f, k) <==> Reports(spans, f, order[k], order[k + 1])
  {
    hide Order, Sorted, Neighbours, StableOrder;
    SortedAt(spans, k);
    SortedAt(spans, k + 1);
    OrderIsStable(spans, |spans|);
    NeighboursAreAdjacent(spans, Order(spans, |spans|), k, k + 1);
  }

  ghost predicate Reported(spans: seq<Span>, f: Anomaly) {
    exists i: nat, j: nat :: i < |spans| && j < |spans| && Reports(spans, f, i, j)
  }

  /** The findings are exactly those of overlapping neighbours. */
  lemma {:induction false} SweepReports(spans: seq<Span>, f: Anomaly)
    ensures f in Findings(Sorted(spans), |spans|) <==> Reported(spans, f)
  {
    hide Order, Sorted, Neighbours, Reports, From, Findings;
    var n, order := |spans|, Order(spans, |spans|);
    FindingsAre(Sorted(spans), n, f);
    if f in Findings(Sorted(spans), n) {
      var k: nat :| k + 1 < n && From(Sorted(spans), f, k);
      FromReports(spans, f, k);
      assert order[k] in order && order[k + 1] in order;
    }
    if Reported(spans, f) {
      var i: nat, j: nat :| i < n && j < n && Reports(spans, f, i, j);
      assert i in order && j in order;
      var a :| 0 <= a < n && order[a] == i;
      var b :| 0 <= b < n && order[b] == j;
      ReportsAdjacent(spans, f, a, b);
      FromReports(spans, f, a);
    }
  }

  lemma {:induction false} ReportsAdjacent(spans: seq<Span>, f: Anomaly, a: nat, b: nat)
    requires a < |spans| && b < |spans| && Reports(spans, f, Order(spans, |spans|)[a], Order(spans, |spans|)[b])
    ensures b == a + 1
  {
    hide Order, Neighbours, StableOrder;
    OrderIsStable(spans, |spans|);
    NeighboursAreAdjacent(spans, Order(spans, |spans|), a, b);
  }

  /** Checking neighbours stands in for checking all pairs. */
  lemma {:induction false} SweepIsAllPairs(spans: seq<Span>)
    requires Proper(spans)
    ensures Findings(Sorted(spans), |spans|) == [] <==> AllApart(spans)
  {
    hide Order, Sorted, StableOrder;
    var sorted, order, n := Sorted(spans), Order(spans, |spans|), |spans|;
    OrderIsStable(spans, n);
    if AllApart(spans) {
      hide Findings;
      if Findings(sorted, n) != [] {
        var f := Findings(sorted, n)[0];
        assert f in Findings(sorted, n);
        SweepReports(spans, f);
      }
    } else {
      var i: nat, j: nat :| i < n && j < n && Precedes(spans, i, j) && spans[i].end > spans[j].start;
      NonEmptySweep(spans, i, j);
    }
  }

  /** An overlapping pair, adjacent or not, yields a finding. */
  lemma {:induction false} NonEmptySweep(spans: seq<Span>, i: nat, j: nat)
    requires i < |spans| && j < |spans| && Precedes(spans, i, j) && spans[j].start < spans[i].end
    ensures Findings(Sorted(spans), |spans|) != []
  {
    hide Sorted, Findings, StableOrder, Neighbours, Order;
    var order := Order(spans, |spans|);
    OrderIsStable(spans, |spans|);
    assert i in order && j in order;
    var a :| 0 <= a < |order| && order[a] == i;
    var b :| 0 <= b < |order| && order[b] == j;
    Rank(spans, order, a, b);
    NeighboursAreAdjacent(spans, order, a, a + 1);
    NextStarts(spans, order, a, b);
    var next := order[a + 1];
    var f := Overlap(spans[i].index, spans[next].index, spans[next].start);
    assert Reports(spans, f, i, next);
    SweepReports(spans, f);
  }

  lemma {:induction false} NextStarts(spans: seq<Span>, order: seq<nat>, a: nat, b: nat)
    requires StableOrder(spans, order, |spans|) && a < b < |order|
    ensures spans[order[a + 1]].start <= spans[order[b]].start
  {
    if a + 1 < b {
      Rank(spans, order, a + 1, b);
    }
  }

  /** The byte at `at` belongs to the member's data; offsets end at 2^64 - 1. */
  predicate Covers(e: EntryLayout, at: nat) {
    e.dataStart <= at < e.dataStart + e.central.compressedSize && at < 0xFFFF_FFFF_FFFF_FFFF
  }

  /** Two different members hold the byte `at`. */
  predicate SharedByte(layout: seq<EntryLayout>, i: nat, j: nat, at: nat) {
    i < |layout| && j < |layout| && i != j && Covers(layout[i], at) && Covers(layout[j], at)
  }

  predicate NonEmpty(e: EntryLayout) {
    Covers(e, e.dataStart)
  }

  /** The finding names two members and an offset in the first; in the second too, if that is not empty. */
  predicate Located(layout: seq<EntryLayout>, f: Anomaly, i: nat, j: nat) {
    && i < |layout| && j < |layout| && f.Overlap? && f.indexA == layout[i].index && f.indexB == layout[j].index
    && Covers(layout[i], f.at) && (NonEmpty(layout[j]) ==> Covers(layout[j], f.at))
  }

  lemma {:induction false} SpanCovers(layout: seq<EntryLayout>, i: nat)
    requires FitsU64(layout) && i < |layout|
    ensures var span := SpansOf(layout)[i]; forall at: nat :: Covers(layout[i], at) <==> span.start <= at < span.end
  {
  }

  /**
   What the overlap audit is for. Two members sharing a byte always yield a finding; the offset of a
   finding lies in the earlier member, and in the later one too if that is not empty. So among members
   that are not empty there is a finding exactly when two share a byte.
   */
  lemma {:induction false} OverlapsMeanSharedBytes(layout: seq<EntryLayout>)
    requires FitsU64(layout)
    ensures forall i, j, at :: SharedByte(layout, i, j, at) ==> Overlaps(layout) != []
    ensures forall f :: f in Overlaps(layout) ==> exists i: nat, j: nat :: i != j && Located(layout, f, i, j)
    ensures (forall i :: 0 <= i < |layout| ==> NonEmpty(layout[i])) && Overlaps(layout) != [] ==>
      exists i, j, at :: SharedByte(layout, i, j, at)
  {
    hide Covers, Findings, Sorted;
    forall i, j, at | SharedByte(layout, i, j, at)
      ensures Overlaps(layout) != []
    {
      SpanCovers(layout, i);
      SpanCovers(layout, j);
      SharedIsFound(SpansOf(layout), i, j, at);
    }
    forall f | f in Overlaps(layout)
      ensures exists i: nat, j: nat :: i != j && Located(layout, f, i, j)
    {
      ReportLocated(layout, f);
    }
    if Overlaps(layout) != [] {
      var f := Overlaps(layout)[0];
      assert f in Overlaps(layout);
      var i: nat, j: nat :| i != j && Located(layout, f, i, j);
      assert NonEmpty(layout[j]) ==> SharedByte(layout, i, j, f.at);
    }
  }

  lemma {:induction false} SharedIsFound(spans: seq<Span>, i: nat, j: nat, at: nat)
    requires i < |spans| && j < |spans| && i != j
    requires spans[i].start <= at < spans[i].end && spans[j].start <= at < spans[j].end
    ensures Findings(Sorted(spans), |spans|) != []
  {
    hide Sorted, Findings;
    if Precedes(spans, i, j) {
      NonEmptySweep(spans, i, j);
    } else {
      NonEmptySweep(spans, j, i);
    }
  }

  lemma {:induction false} ReportLocated(layout: seq<EntryLayout>, f: Anomaly)
    requires FitsU64(layout) && f in Overlaps(layout)
    ensures exists i: nat, j: nat :: i != j && Located(layout, f, i, j)
  {
    hide Sorted, Findings, Covers;
    var spans := SpansOf(layout);
    SweepReports(spans, f);
    var i: nat, j: nat :| i < |spans| && j < |spans| && Reports(spans, f, i, j);
    SpanCovers(layout, i);
    SpanCovers(layout, j);
    assert Located(layout, f, i, j);
  }

  /** Member `i` starts before member `j`, or where it starts, and is listed earlier. */
  predicate StartsBefore(layout: seq<EntryLayout>, i: nat, j: nat) {
    && i < |layout| && j < |layout|
    && (layout[i].dataStart < layout[j].dataStart || (layout[i].dataStart == layout[j].dataStart && i < j))
  }

  /** Member `j` is the next to start after member `i`, before that ends. */
  predicate Overlapping(layout: seq<EntryLayout>, i: nat, j: nat) {
    && StartsBefore(layout, i, j) && Covers(layout[i], layout[j].dataStart)
    && forall k: nat :: k < |layout| ==> !(StartsBefore(layout, i, k) && StartsBefore(layout, k, j))
  }

  /** The findings of the sweep, on the members themselves. */
  lemma {:induction false} OverlapsReported(layout: seq<EntryLayout>, f: Anomaly)
    requires FitsU64(layout)
    ensures f in Overlaps(layout) <==>
      exists i: nat, j: nat ::
        && i < |layout| && j < |layout| && Overlapping(layout, i, j)
        && f == Overlap(layout[i].index, layout[j].index, layout[j].dataStart)
  {
    hide Sorted, Findings;
    var spans := SpansOf(layout);
    SweepReports(spans, f);
    forall i: nat, j: nat | i < |layout| && j < |layout|
      ensures Reports(spans, f, i, j) <==>
        Overlapping(layout, i, j) && f == Overlap(layout[i].index, layout[j].index, layout[j].dataStart)
    {
      OverlappingSpans(layout, i, j);
    }
  }

  lemma {:induction false} OverlappingSpans(layout: seq<EntryLayout>, i: nat, j: nat)
    requires FitsU64(layout) && i < |layout| && j < |layout|
    ensures
      var spans := SpansOf(layout);
      Overlapping(layout, i, j) <==> Neighbours(spans, i, j) && spans[j].start < spans[i].end
  {
    hide Covers;
    var spans := SpansOf(layout);
    SpanCovers(layout, i);
    forall k: nat, l: nat
      ensures StartsBefore(layout, k, l) <==> Precedes(spans, k, l)
    {
    }
  }

  // ----- the audit of a structural view -----------------------------------------------------------

  /** The smallest local header offset. */
  function MinLfh(layout: seq<EntryLayout>): (r: Option<nat>)
    ensures r.None? <==> layout == []
    ensures r.Some? ==> exists i :: 0 <= i < |layout| && layout[i].lfhOffset == r.value
    ensures r.Some? ==> forall i :: 0 <= i < |layout| ==> r.value <= layout[i].lfhOffset
  {
    if layout == [] then None
    else
      var rest, last := MinLfh(layout[..|layout| - 1]), layout[|layout| - 1];
      if rest.None? || last.lfhOffset as nat < rest.value then Some(last.lfhOffset as nat) else rest
  }

  function Prepended(layout: seq<EntryLayout>): seq<Anomaly> {
    match MinLfh(layout)
    case Some(first) => if first > 0 then [PrependedData(first)] else []
    case None => []
  }

  // ----- single entries -------------------------------------------------------------------------

  /** The checks on a name that are about Unicode characters, which are not part of this model. */
  datatype UnicodeChecks = UnicodeChecks(bidi: seq<byte> -> bool, control: seq<byte> -> bool)

  function NameMark(e: EntryLayout, fault: NameFault, found: bool): seq<Anomaly> {
    if found then [SuspiciousName(e.index, fault)] else []
  }

  /** The findings in an entry's name. */
  function NameFindings(e: EntryLayout, u: UnicodeChecks): seq<Anomaly> {
    var name := e.central.name;
    NameMark(e, Traversal, Names.HasTraversal(name)) + NameMark(e, Absolute, Names.IsAbsolute(name))
    + NameMark(e, Bidi, u.bidi(name)) + NameMark(e, Control, u.control(name))
  }

  /**
   A name has a safe path exactly when it is flagged neither as a traversal nor as absolute, holds no
   NUL, and names anything at all.
   */
  lemma {:induction false} SafeIsUnflagged(e: EntryLayout, u: UnicodeChecks)
    ensures
      var name := e.central.name;
      Names.Enclosed(name).Some? <==>
        && SuspiciousName(e.index, Traversal) !in NameFindings(e, u)
        && SuspiciousName(e.index, Absolute) !in NameFindings(e, u)
        && 0 !in name && Names.Tree.Components(name) != []
  {
    hide Names.HasTraversal, Names.IsAbsolute, Names.Rooted, Names.Climbs, Names.Tree.Components;
    Names.AbsoluteIsRooted(e.central.name);
    Names.TraversalClimbs(e.central.name);
  }

  function Mismatch(e: EntryLayout, field: Field, differs: bool): seq<Anomaly> {
    if differs then [CdLfhMismatch(e.index, field)] else []
  }

  /** The local copy of a size is a sentinel, or differs. */
  predicate SizeDiffers(central: uint64, local: uint64) {
    local != U32_SENTINEL && central != local
  }

  /** The findings in the name and what it shares with the method. */
  function HeadFindings(e: EntryLayout, u: UnicodeChecks): seq<Anomaly> {
    NameFindings(e, u) + Mismatch(e, NameField, e.central.name != e.local.name)
    + Mismatch(e, MethodField, e.central.method_ != e.local.method_)
  }

  /** The findings inside an entry; with a data descriptor the local checksum and sizes say nothing. */
  function EntryFindings(e: EntryLayout, u: UnicodeChecks): seq<Anomaly> {
    if Bit(e.local.flags, DESCRIPTOR_FLAG) then HeadFindings(e, u)
    else
      HeadFindings(e, u) + Mismatch(e, ChecksumField, e.central.crc32 != e.local.crc32)
      + Mismatch(e, CompressedField, SizeDiffers(e.central.compressedSize, e.local.compressedSize))
      + Mismatch(e, UncompressedField, SizeDiffers(e.central.uncompressedSize, e.local.uncompressedSize))
  }

  /** A size of the local copy that is neither the central one nor refers to a Zip64 record. */
  predicate SizeContradicts(central: uint64, local: uint64) {
    local != 0xFFFF_FFFF && local != central
  }

  /** The local header copy says nothing other than the central one. */
  predicate CopiesAgree(e: EntryLayout) {
    && e.central.name == e.local.name && e.central.method_ == e.local.method_
    && (Format.DescriptorFollows(e.local.flags)
        || (e.central.crc32 == e.local.crc32
            && !SizeContradicts(e.central.compressedSize, e.local.compressedSize)
            && !SizeContradicts(e.central.uncompressedSize, e.local.uncompressedSize)))
  }

  lemma {:induction false} DescriptorBit(flags: uint16)
    ensures Bit(flags as nat, DESCRIPTOR_FLAG) <==> Format.DescriptorFollows(flags)
  {
  }

  /** An entry has no findings but those of its name exactly when its header copies agree. */
  lemma {:induction false} AgreeingCopies(e: EntryLayout, u: UnicodeChecks)
    ensures EntryFindings(e, u) == NameFindings(e, u) <==> CopiesAgree(e)
  {
    hide Bit, NameFindings;
    DescriptorBit(e.local.flags);
    var head := NameFindings(e, u);
    if CopiesAgree(e) {
      assert head + [] == head;
    } else {
      assert |EntryFindings(e, u)| > |head|;
    }
  }

  /** What a finding inside the entry says of it. */
  predicate True(e: EntryLayout, u: UnicodeChecks, f: Anomaly) {
    var name, covered := e.central.name, Format.DescriptorFollows(e.local.flags);
    match f
    case SuspiciousName(i, fault) =>
      i == e.index
      && (match fault
          case Traversal => Names.Climbs(name)
          case Absolute => Names.Rooted(name)
          case Bidi => u.bidi(name)
          case Control => u.control(name))
    case CdLfhMismatch(i, field) =>
      i == e.index
      && (match field
          case NameField => name != e.local.name
          case MethodField => e.central.method_ != e.local.method_
          case ChecksumField => !covered && e.central.crc32 != e.local.crc32
          case CompressedField => !covered && SizeContradicts(e.central.compressedSize, e.local.compressedSize)
          case UncompressedField => !covered && SizeContradicts(e.central.uncompressedSize, e.local.uncompressedSize))
    case _ => false
  }

  lemma {:induction false} Marked(e: EntryLayout, f: Anomaly)
    ensures forall fault, found :: f in NameMark(e, fault, found) <==> found && f == SuspiciousName(e.index, fault)
    ensures forall field, differs :: f in Mismatch(e, field, differs) <==> differs && f == CdLfhMismatch(e.index, field)
  {
  }

  lemma {:induction false} NameReports(e: EntryLayout, u: UnicodeChecks, f: Anomaly)
    ensures f in NameFindings(e, u) <==> f.SuspiciousName? && True(e, u, f)
  {
    hide Names.HasTraversal, Names.IsAbsolute, Names.Rooted, Names.Climbs, Format.DescriptorFollows, NameMark;
    Marked(e, f);
    Names.AbsoluteIsRooted(e.central.name);
    Names.TraversalClimbs(e.central.name);
  }

  /** The findings inside an entry are all that hold of it, and no others. */
  lemma {:induction false} EntryReports(e: EntryLayout, u: UnicodeChecks, f: Anomaly)
    ensures f in EntryFindings(e, u) <==> True(e, u, f)
  {
    hide Bit, NameFindings, Names.Rooted, Names.Climbs, Format.DescriptorFollows, Mismatch;
    DescriptorBit(e.local.flags);
    NameReports(e, u, f);
    Marked(e, f);
  }

  /** `mismatch`, pushed where the copies differ. */
  method Push(out: seq<Anomaly>, e: EntryLayout, field: Field, differs: bool) returns (r: seq<Anomaly>)
    ensures r == out + Mismatch(e, field, differs)
  {
    r := if differs then out + [CdLfhMismatch(e.index, field)] else out;
  }

  /** The checks on the name, in order. */
  method AuditName(e: EntryLayout, u: UnicodeChecks) returns (out: seq<Anomaly>)
    ensures out == NameFindings(e, u)
  {
    hide Names.HasTraversal, Names.IsAbsolute;
    var name := e.central.name;
    out := [];
    if Names.HasTraversal(name) {
      out := out + [SuspiciousName(e.index, Traversal)];
    }
    if Names.IsAbsolute(name) {
      out := out + [SuspiciousName(e.index, Absolute)];
    }
    if u.bidi(name) {
      out := out + [SuspiciousName(e.index, Bidi)];
    }
    if u.control(name) {
      out := out + [SuspiciousName(e.index, Control)];
    }
  }

  /** `audit_entry`. */
  method AuditEntry(e: EntryLayout, u: UnicodeChecks) returns (out: seq<Anomaly>)
    ensures out == EntryFindings(e, u)
  {
    hide Bit, NameFindings, Mismatch, SizeDiffers;
    out := AuditName(e, u);
    out := Push(out, e, NameField, e.central.name != e.local.name);
    out := Push(out, e, MethodField, e.central.method_ != e.local.method_);
    if !Bit(e.local.flags, DESCRIPTOR_FLAG) {
      out := Push(out, e, ChecksumField, e.central.crc32 != e.local.crc32);
      out := Push(out, e, CompressedField, SizeDiffers(e.central.compressedSize, e.local.compressedSize));
      out := Push(out, e, UncompressedField, SizeDiffers(e.central.uncompressedSize, e.local.uncompressedSize));
    }
  }

  /** The findings inside the entries, one entry after another. */
  function InsideEntries(layout: seq<EntryLayout>, u: UnicodeChecks): seq<Anomaly> {
    if layout == [] then [] else InsideEntries(layout[..|layout| - 1], u) + EntryFindings(layout[|layout| - 1], u)
  }

  /** `audit_layout`. */
  function LayoutFindings(layout: seq<EntryLayout>, u: UnicodeChecks): seq<Anomaly> {
    Prepended(layout) + InsideEntries(layout, u) + Overlaps(layout)
  }

  method FirstOffset(layout: seq<EntryLayout>) returns (first: Option<nat>)
    ensures first == MinLfh(layout)
  {
    first := None;
    for i := 0 to |layout|
      invariant first == MinLfh(layout[..i])
    {
      assert layout[..i + 1][..i] == layout[..i];
      if first.None? || layout[i].lfhOffset as nat < first.value {
        first := Some(layout[i].lfhOffset as nat);
      }
    }
    assert layout[..|layout|] == layout;
  }

  method AuditEntries(layout: seq<EntryLayout>, u: UnicodeChecks) returns (out: seq<Anomaly>)
    ensures out == InsideEntries(layout, u)
  {
    hide EntryFindings;
    out := [];
    for i := 0 to |layout|
      invariant out == InsideEntries(layout[..i], u)
    {
      assert layout[..i + 1][..i] == layout[..i];
      var found := AuditEntry(layout[i], u);
      out := out + found;
    }
    assert layout[..|layout|] == layout;
  }

  method AuditLayout(layout: seq<EntryLayout>, u: UnicodeChecks) returns (out: seq<Anomaly>)
    ensures out == LayoutFindings(layout, u)
  {
    hide Overlaps, InsideEntries, MinLfh;
    var first := FirstOffset(layout);
    out := [];
    if first.Some? && first.value > 0 {
      out := [PrependedData(first.value)];
    }
    var inside := AuditEntries(layout, u);
    var overlaps := AuditOverlaps(layout);
    out := out + inside + overlaps;
  }

  predicate Spanning(disk: nat) {
    disk != 0 && disk != 0xFFFF_FFFF
  }

  function Trailing(s: Summary): seq<Anomaly> {
    if s.fileLen > s.eocdEndOffset then [TrailingData(s.fileLen - s.eocdEndOffset)] else []
  }

  function SpanningMarks(s: Summary): seq<Anomaly> {
    if Spanning(s.diskNumber) || Spanning(s.cdStartDisk) then [SpanningAnomaly(s.diskNumber, s.cdStartDisk)] else []
  }

  /** `audit_container`. */
  function ContainerFindings(s: Summary): seq<Anomaly> {
    Trailing(s) + SpanningMarks(s)
  }

  /** The container's findings: bytes behind the end record, and a disk number that is neither 0 nor left to Zip64. */
  lemma {:induction false} ContainerReports(s: Summary, f: Anomaly)
    ensures f in ContainerFindings(s) <==>
      match f
      case TrailingData(n) => n > 0 && s.fileLen == s.eocdEndOffset + n
      case SpanningAnomaly(disk, start) =>
        && disk == s.diskNumber && start == s.cdStartDisk
        && !(disk in {0, 0xFFFF_FFFF} && start in {0, 0xFFFF_FFFF})
      case _ => false
  {
  }

  /** The smallest offset of a local header is `n`. */
  predicate StartsAt(layout: seq<EntryLayout>, n: nat) {
    && (exists i :: 0 <= i < |layout| && layout[i].lfhOffset == n)
    && forall i :: 0 <= i < |layout| ==> n <= layout[i].lfhOffset
  }

  lemma {:induction false} InsideReports(layout: seq<EntryLayout>, u: UnicodeChecks, f: Anomaly)
    ensures f in InsideEntries(layout, u) <==> exists k :: 0 <= k < |layout| && f in EntryFindings(layout[k], u)
    decreases |layout|
  {
    hide EntryFindings;
    if layout != [] {
      InsideReports(layout[..|layout| - 1], u, f);
    }
  }

  /**
   The audit of a layout in full: a finding is reported exactly when it says how many bytes stand before
   the first member, or holds inside some entry, or is an overlap of neighbours in start order.
   */
  lemma {:induction false} LayoutReports(layout: seq<EntryLayout>, u: UnicodeChecks, f: Anomaly)
    requires FitsU64(layout)
    ensures f in LayoutFindings(layout, u) <==>
      || (f.PrependedData? && f.length > 0 && StartsAt(layout, f.length))
      || (exists k :: 0 <= k < |layout| && True(layout[k], u, f))
      || exists i: nat, j: nat ::
           && i < |layout| && j < |layout| && Overlapping(layout, i, j)
           && f == Overlap(layout[i].index, layout[j].index, layout[j].dataStart)
  {
    hide EntryFindings, True, Overlapping, Overlaps, InsideEntries;
    InsideReports(layout, u, f);
    OverlapsReported(layout, f);
    forall k | 0 <= k < |layout|
      ensures f in EntryFindings(layout[k], u) <==> True(layout[k], u, f)
    {
      EntryReports(layout[k], u, f);
    }
    PrependedReports(layout, f);
  }

  lemma {:induction false} PrependedReports(layout: seq<EntryLayout>, f: Anomaly)
    ensures f in Prepended(layout) <==> f.PrependedData? && f.length > 0 && StartsAt(layout, f.length)
  {
    var first := MinLfh(layout);
    hide MinLfh;
    if first.Some? {
      assert StartsAt(layout, first.value);
    }
  }
}
