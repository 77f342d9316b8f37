/** What the audit says of archives as printed, with bytes put before them, and with bytes put behind them. */
module AuditEdits {
  import opened Wrappers
  import opened Bytes
  import opened Archive
  import opened Container
  import opened Printer
  import opened PrintParse
  import opened Edits
  import opened Audit

  // ----- printed archives -----------------------------------------------------------------------

  /** Local records follow one another without gaps. */
  lemma {:induction false} RecordsFollow(ms: seq<Member>, base: nat, i: nat, j: nat)
    requires ValidMembers(ms, base) && i < j < |ms|
    ensures
      var es := Entries(ms, base);
      es[0].lfhOffset == base && DataStart(ms[i], es[i].lfhOffset) + |ms[i].data| <= es[j].lfhOffset
    decreases i
  {
    hide ValidMember, ExtraBytes;
    var next := base + |LocalRecord(ms[0])|;
    var es, tail := Entries(ms, base), Entries(ms[1..], next);
    assert es[j] == tail[j - 1];
    if i == 0 {
      OffsetsFrom(ms[1..], next, j - 1);
    } else {
      RecordsFollow(ms[1..], next, i - 1, j - 1);
      assert es[i] == tail[i - 1];
    }
  }

  lemma {:induction false} OffsetsFrom(ms: seq<Member>, base: nat, i: nat)
    requires ValidMembers(ms, base) && i < |ms|
    ensures base <= Entries(ms, base)[i].lfhOffset && Entries(ms, base)[0].lfhOffset == base
    decreases i
  {
    hide ValidMember, LocalRecord, ExtraBytes;
    if i > 0 {
      OffsetsFrom(ms[1..], base + |LocalRecord(ms[0])|, i - 1);
    }
  }

  /** The view lists the members where the printer put them. */
  predicate Lists(view: seq<EntryLayout>, a: Contents)
    requires a.Valid()
  {
    && |view| == |a.members|
    && forall i :: 0 <= i < |view| ==> Placement(view[i], a.members[i], Entries(a.members, 0)[i].lfhOffset)
  }

  predicate Placement(e: EntryLayout, m: Member, offset: nat) {
    e.lfhOffset as nat == offset && e.dataStart == DataStart(m, offset) && e.central.compressedSize as nat == |m.data|
  }

  /** The view of a printed archive, member by member. */
  lemma {:induction false} ViewIs(a: Contents)
    requires a.Valid() && |a.Print()| < MAX_FILE && a.Opens()
    ensures Open(a.Print()) == Ok(a.Parsed())
    ensures StructuralView(a.Print()).Ok? && Lists(StructuralView(a.Print()).value, a)
  {
    hide Open, LocalAt, HasAt, Contents.Print, Locals, Contents.Opens;
    RoundTrip(a);
    Placed(a);
    var es := Entries(a.members, 0);
    forall i | 0 <= i < |es|
      ensures |a.members[i].data| < MAX_FILE && CentralFields(es[i]) == FieldsOf(a.members[i])
      ensures LocalAt(a.Print(), es[i].lfhOffset) ==
        Ok((LocalFieldsOf(a.members[i]), DataStart(a.members[i], es[i].lfhOffset)))
    {
      LocalsPrinted(a.Print(), 0, a.members, i);
    }
    LayoutsAre(a.Print(), es);
  }

  lemma {:induction false} EarlierEndsFirst(a: Contents, view: seq<EntryLayout>, i: nat, j: nat)
    requires a.Valid() && Lists(view, a) && FitsU64(view) && i < j < |view|
    ensures SpanOf(view[i]).end <= SpanOf(view[j]).start && SpanOf(view[i]).start < SpanOf(view[j]).start
  {
    hide Entries, ValidMembers;
    assert Placement(view[i], a.members[i], Entries(a.members, 0)[i].lfhOffset);
    assert Placement(view[j], a.members[j], Entries(a.members, 0)[j].lfhOffset);
    RecordsFollow(a.members, 0, i, j);
  }

  lemma {:induction false} ListedApart(a: Contents, view: seq<EntryLayout>)
    requires a.Valid() && Lists(view, a) && FitsU64(view)
    ensures Overlaps(view) == []
  {
    hide Contents.Valid, Findings, Sorted, SpanOf, Lists;
    var spans := SpansOf(view);
    forall i: nat, j: nat | i < |spans| && j < |spans| && Precedes(spans, i, j)
      ensures spans[i].end <= spans[j].start
    {
      if i < j {
        EarlierEndsFirst(a, view, i, j);
      } else {
        EarlierEndsFirst(a, view, j, i);
      }
    }
    ProperSpans(view);
    SweepIsAllPairs(spans);
  }

  lemma {:induction false} StartsAtZero(a: Contents, view: seq<EntryLayout>)
    requires a.Valid() && Lists(view, a)
    ensures Prepended(view) == []
  {
    hide Entries, ValidMembers, ValidMember, MinLfh;
    if view != [] {
      OffsetsFrom(a.members, 0, 0);
      assert view[0].lfhOffset == 0;
    }
  }

  /** Both copies of a printed header agree where the local one counts. */
  lemma {:induction false} NoMismatch(e: EntryLayout, m: Member)
    requires |m.data| < MAX_FILE && e.central == FieldsOf(m) && e.local == LocalFieldsOf(m)
    ensures CopiesAgree(e)
  {
    hide Bit;
  }

  /** The names' faults, entry by entry. */
  function NamesOnly(layout: seq<EntryLayout>, u: UnicodeChecks): seq<Anomaly> {
    if layout == [] then []
    else NamesOnly(layout[..|layout| - 1], u) + NameFindings(layout[|layout| - 1], u)
  }

  lemma {:induction false} OnlyNames(layout: seq<EntryLayout>, u: UnicodeChecks)
    requires forall i :: 0 <= i < |layout| ==> CopiesAgree(layout[i])
    ensures InsideEntries(layout, u) == NamesOnly(layout, u)
    decreases |layout|
  {
    hide CopiesAgree, NameFindings, EntryFindings;
    if layout != [] {
      OnlyNames(layout[..|layout| - 1], u);
      AgreeingCopies(layout[|layout| - 1], u);
    }
  }

  lemma {:induction false} PrintedInside(a: Contents, u: UnicodeChecks)
    requires a.Valid() && |a.Print()| < MAX_FILE && a.Opens()
    ensures StructuralView(a.Print()).Ok?
    ensures var view := StructuralView(a.Print()).value; InsideEntries(view, u) == NamesOnly(view, u)
  {
    hide Open, LayoutsFrom, Contents.Print, Contents.Opens, Contents.Valid, HasAt, LocalFieldsOf, FieldsOf,
      CopiesAgree, InsideEntries, NamesOnly;
    ViewRoundTrip(a);
    var view := StructuralView(a.Print()).value;
    forall i | 0 <= i < |view|
      ensures CopiesAgree(view[i])
    {
      NoMismatch(view[i], a.members[i]);
    }
    OnlyNames(view, u);
  }

  lemma {:induction false} ProperSpans(view: seq<EntryLayout>)
    requires FitsU64(view)
    ensures Proper(SpansOf(view))
  {
  }

  lemma {:induction false} PrintedContainer(a: Contents)
    requires a.Valid()
    ensures
      var found := ContainerFindings(a.Parsed().summary);
      found == if a.disk != 0 || a.startDisk != 0 then [SpanningAnomaly(a.disk, a.startDisk)] else []
  {
    hide Contents.Print, Contents.CdSize, Contents.CdOffset, Entries, ValidMembers;
  }

  /** An archive laid out by the format description has no findings but faults of names and spanning marks. */
  lemma {:induction false} PrintedIsClean(a: Contents, u: UnicodeChecks)
    requires a.Valid() && |a.Print()| < MAX_FILE && a.Opens()
    ensures StructuralView(a.Print()).Ok? && Open(a.Print()).Ok?
    ensures var view := StructuralView(a.Print()).value; LayoutFindings(view, u) == NamesOnly(view, u)
    ensures
      var found := ContainerFindings(Open(a.Print()).value.summary);
      found == if a.disk != 0 || a.startDisk != 0 then [SpanningAnomaly(a.disk, a.startDisk)] else []
  {
    ViewIs(a);
    LayoutsFit(a.Print(), 0);
    PrintedInside(a, u);
    PrintedContainer(a);
    hide ContainerFindings, StructuralView, Contents.Parsed, Open, Contents.Print, Contents.Opens, Contents.Valid,
      LayoutsFrom, Lists, LayoutFindings, InsideEntries, NamesOnly, FitsU64, StartsFit;
    ListedIsClean(a, StructuralView(a.Print()).value, u);
  }

  lemma {:induction false} ListedIsClean(a: Contents, view: seq<EntryLayout>, u: UnicodeChecks)
    requires a.Valid() && Lists(view, a) && FitsU64(view) && InsideEntries(view, u) == NamesOnly(view, u)
    ensures LayoutFindings(view, u) == NamesOnly(view, u)
  {
    hide Contents.Valid, Lists, Prepended, Overlaps, InsideEntries, NamesOnly, FitsU64;
    StartsAtZero(a, view);
    ListedApart(a, view);
    assert [] + NamesOnly(view, u) + [] == NamesOnly(view, u);
  }

  /** Data starts stay far below the 64-bit limit. */
  predicate StartsFit(layout: seq<EntryLayout>, n: nat) {
    forall i :: 0 <= i < |layout| ==> layout[i].dataStart + n < U64_MAX
  }

  lemma {:induction false} LayoutsFit(f: File, n: nat)
    requires StructuralView(f).Ok? && n + |f| < MAX_FILE
    ensures StartsFit(StructuralView(f).value, n) && FitsU64(StructuralView(f).value)
  {
    hide Open, LocalAt;
    var es := Open(f).value.entries;
    LayoutsAre(f, es);
    hide LayoutsFrom;
    forall i | 0 <= i < |es|
      ensures LocalAt(f, es[i].lfhOffset).value.1 + n < U64_MAX
    {
      LocalFits(f, es[i].lfhOffset);
    }
  }

  // ----- bytes before ---------------------------------------------------------------------------

  lemma {:induction false} LocalBehind(p: seq<byte>, f: seq<byte>, at: nat)
    requires LocalAt(f, at).Ok?
    ensures LocalAt(p + f, |p| + at) == Ok((LocalAt(f, at).value.0, |p| + LocalAt(f, at).value.1))
  {
    FieldBehind(p, f, at, 4);
    FieldBehind(p, f, at + 6, 2);
    FieldBehind(p, f, at + 8, 2);
    FieldBehind(p, f, at + 14, 4);
    FieldBehind(p, f, at + 18, 4);
    FieldBehind(p, f, at + 22, 4);
    FieldBehind(p, f, at + 26, 2);
    FieldBehind(p, f, at + 28, 2);
    hide FieldAt;
    var h := LocalFixedAt(f, at);
    assert LocalFixedAt(p + f, |p| + at) == h;
    var lo := at + LFH_FIXED;
    assert (p + f)[|p| + lo..|p| + lo + h.nameLen] == f[lo..lo + h.nameLen];
  }

  function MovedLayout(e: EntryLayout, n: nat): EntryLayout
    requires e.lfhOffset as nat + n <= U64_MAX
  {
    e.(lfhOffset := e.lfhOffset + n, dataStart := e.dataStart + n)
  }

  predicate MovedBy(before: seq<EntryLayout>, after: seq<EntryLayout>, n: nat) {
    && |after| == |before|
    && forall i :: 0 <= i < |before| ==>
      before[i].lfhOffset as nat + n <= U64_MAX && after[i] == MovedLayout(before[i], n)
  }

  /** Prepended bytes move the whole structural view. */
  lemma {:induction false} ViewBehind(p: seq<byte>, f: File)
    requires |p| + |f| < MAX_FILE && StructuralView(f).Ok? && Open(p + f) == Ok(Moved(Open(f).value, |p|))
    ensures StructuralView(p + f).Ok? && MovedBy(StructuralView(f).value, StructuralView(p + f).value, |p|)
  {
    hide Open, LocalAt, Shifted;
    assert Moved(Open(f).value, |p|).entries == Shifted(Open(f).value.entries, |p|);
    LayoutsBehind(p, f, Open(f).value.entries);
  }

  lemma {:induction false} LayoutsBehind(p: seq<byte>, f: File, es: seq<CentralEntry>)
    requires |p| + |f| < MAX_FILE && LayoutsFrom(f, es, 0).Ok?
    ensures LayoutsFrom(p + f, Shifted(es, |p|), 0).Ok?
    ensures MovedBy(LayoutsFrom(f, es, 0).value, LayoutsFrom(p + f, Shifted(es, |p|), 0).value, |p|)
  {
    hide LocalAt, LayoutsFrom, Shifted;
    var moved := Shifted(es, |p|);
    LayoutsAre(f, es);
    LayoutsAre(p + f, moved);
    forall i | 0 <= i < |es|
      ensures LocalAt(f, es[i].lfhOffset).Ok? && es[i].lfhOffset as nat + |p| <= U64_MAX
      ensures moved[i] == es[i].(lfhOffset := es[i].lfhOffset + |p|)
      ensures LocalAt(p + f, moved[i].lfhOffset) ==
        Ok((LocalAt(f, es[i].lfhOffset).value.0, |p| + LocalAt(f, es[i].lfhOffset).value.1))
    {
      LocalFits(f, es[i].lfhOffset);
      LocalBehind(p, f, es[i].lfhOffset);
      MovedEntry(es, |p|, i);
    }
  }

  lemma {:induction false} MovedEntry(es: seq<CentralEntry>, n: uint64, i: nat)
    requires i < |es| && es[i].lfhOffset as nat + n <= U64_MAX
    ensures |Shifted(es, n)| == |es| && Shifted(es, n)[i] == es[i].(lfhOffset := es[i].lfhOffset + n)
  {
  }

  function MovedFinding(f: Anomaly, n: nat): Anomaly {
    if f.Overlap? then f.(at := f.at + n) else f
  }

  function MovedFindings(found: seq<Anomaly>, n: nat): seq<Anomaly> {
    seq(|found|, i requires 0 <= i < |found| => MovedFinding(found[i], n))
  }

  lemma {:induction false} OneMore(found: seq<Anomaly>, f: Anomaly, n: nat)
    ensures MovedFindings(found + [f], n) == MovedFindings(found, n) + [MovedFinding(f, n)]
  {
  }

  predicate MovedSpan(s: Span, t: Span, n: nat) {
    t.index == s.index && t.start == s.start + n
  }

  /** A span reaches into another. */
  predicate Reaches(s: Span, t: Span) {
    t.start < s.end
  }

  /** Starts move by `n`, and the same spans reach into one another; their ends may saturate. */
  predicate MovedSpans(a: seq<Span>, b: seq<Span>, n: nat) {
    && |a| == |b|
    && (forall i :: 0 <= i < |a| ==> MovedSpan(a[i], b[i], n))
    && (forall i, j :: 0 <= i < |a| && 0 <= j < |a| ==> (Reaches(a[i], a[j]) <==> Reaches(b[i], b[j])))
  }

  lemma {:induction false} SpansMoved(before: seq<EntryLayout>, after: seq<EntryLayout>, n: nat)
    requires MovedBy(before, after, n) && StartsFit(before, n)
    ensures MovedSpans(SpansOf(before), SpansOf(after), n)
  {
  }

  lemma {:induction false} InsertedMoved(a: seq<Span>, b: seq<Span>, n: nat, order: seq<nat>, p: nat)
    requires MovedSpans(a, b, n) && p < |a| && Below(order, |a|)
    ensures Inserted(a, order, p) == Inserted(b, order, p)
    decreases |order|
  {
    if order != [] {
      var last := order[|order| - 1];
      assert MovedSpan(a[last], b[last], n) && MovedSpan(a[p], b[p], n);
      InsertedMoved(a, b, n, order[..|order| - 1], p);
    }
  }

  lemma {:induction false} OrderMoved(a: seq<Span>, b: seq<Span>, n: nat, k: nat)
    requires MovedSpans(a, b, n) && k <= |a|
    ensures Order(a, k) == Order(b, k)
    decreases k
  {
    hide Inserted;
    if k > 0 {
      OrderMoved(a, b, n, k - 1);
      InsertedMoved(a, b, n, Order(a, k - 1), k - 1);
    }
  }

  lemma {:induction false} SortedMoved(a: seq<Span>, b: seq<Span>, n: nat)
    requires MovedSpans(a, b, n)
    ensures MovedSpans(Sorted(a), Sorted(b), n)
  {
    hide Sorted, Order, MovedSpan, Reaches;
    OrderMoved(a, b, n, |a|);
    var order := Order(a, |a|);
    forall k | 0 <= k < |a|
      ensures order[k] < |a| && Sorted(a)[k] == a[order[k]] && Sorted(b)[k] == b[order[k]]
    {
      SortedAt(a, k);
      SortedAt(b, k);
    }
  }

  lemma {:induction false} FindingsMoved(a: seq<Span>, b: seq<Span>, n: nat, k: nat)
    requires MovedSpans(a, b, n) && k <= |a|
    ensures Findings(b, k) == MovedFindings(Findings(a, k), n)
    decreases k
  {
    if k >= 2 {
      FindingsMoved(a, b, n, k - 1);
      assert MovedSpan(a[k - 1], b[k - 1], n) && MovedSpan(a[k - 2], b[k - 2], n);
      assert Reaches(a[k - 2], a[k - 1]) <==> Reaches(b[k - 2], b[k - 1]);
      OneMore(Findings(a, k - 1), Overlap(a[k - 2].index, a[k - 1].index, a[k - 1].start), n);
      hide MovedFindings;
    }
  }

  lemma {:induction false} OverlapsMoved(before: seq<EntryLayout>, after: seq<EntryLayout>, n: nat)
    requires MovedBy(before, after, n) && StartsFit(before, n)
    ensures Overlaps(after) == MovedFindings(Overlaps(before), n)
  {
    hide Sorted, Findings, MovedSpans;
    SpansMoved(before, after, n);
    SortedMoved(SpansOf(before), SpansOf(after), n);
    FindingsMoved(Sorted(SpansOf(before)), Sorted(SpansOf(after)), n, |before|);
  }

  lemma {:induction false} MinMoved(before: seq<EntryLayout>, after: seq<EntryLayout>, n: nat)
    requires MovedBy(before, after, n) && before != []
    ensures MinLfh(after) == Some(MinLfh(before).value + n)
  {
    hide MinLfh;
    var i :| 0 <= i < |before| && before[i].lfhOffset == MinLfh(before).value;
    assert after[i].lfhOffset == MinLfh(before).value + n;
    var j :| 0 <= j < |after| && after[j].lfhOffset == MinLfh(after).value;
    assert before[j].lfhOffset as nat + n == MinLfh(after).value;
  }

  lemma {:induction false} InsideMoved(before: seq<EntryLayout>, after: seq<EntryLayout>, n: nat, u: UnicodeChecks,
                                       k: nat)
    requires MovedBy(before, after, n) && k <= |before|
    ensures InsideEntries(after[..k], u) == InsideEntries(before[..k], u)
    decreases k
  {
    hide EntryFindings, MovedLayout;
    if k > 0 {
      InsideMoved(before, after, n, u, k - 1);
      assert before[..k][..k - 1] == before[..k - 1] && after[..k][..k - 1] == after[..k - 1];
      SameInside(before[k - 1], after[k - 1], n, u);
    }
  }

  lemma {:induction false} SameInside(e: EntryLayout, moved: EntryLayout, n: nat, u: UnicodeChecks)
    requires e.lfhOffset as nat + n <= U64_MAX && moved == MovedLayout(e, n)
    ensures EntryFindings(moved, u) == EntryFindings(e, u)
  {
    hide Bit;
  }

  /**
   Bytes put before an archive, where the parser detects them, are reported with their length added to
   what stood before the first member already; every overlap moves with them, and the findings inside
   the entries stay.
   */
  lemma {:induction false} PrependingIsReported(p: seq<byte>, f: File, u: UnicodeChecks)
    requires p != [] && |p| + |f| < MAX_FILE
    requires StructuralView(f).Ok? && Open(f).value.entries != [] && Open(p + f) == Ok(Moved(Open(f).value, |p|))
    ensures StructuralView(p + f).Ok? && StructuralView(f).value != []
    ensures
      var before := StructuralView(f).value;
      LayoutFindings(StructuralView(p + f).value, u) ==
        [PrependedData(MinLfh(before).value + |p|)] + InsideEntries(before, u) + MovedFindings(Overlaps(before), |p|)
  {
    hide Open, LayoutsFrom, MinLfh, Overlaps, InsideEntries;
    ViewBehind(p, f);
    LayoutsFit(f, |p|);
    var before, after := StructuralView(f).value, StructuralView(p + f).value;
    OverlapsMoved(before, after, |p|);
    MinMoved(before, after, |p|);
    InsideMoved(before, after, |p|, u, |before|);
    assert before[..|before|] == before && after[..|before|] == after;
  }

  // ----- bytes behind ---------------------------------------------------------------------------

  lemma {:induction false} LocalBefore(f: seq<byte>, s: seq<byte>, at: nat)
    requires LocalAt(f, at).Ok?
    ensures LocalAt(f + s, at) == LocalAt(f, at)
  {
    FieldBefore(f, s, at, 4);
    FieldBefore(f, s, at + 6, 2);
    FieldBefore(f, s, at + 8, 2);
    FieldBefore(f, s, at + 14, 4);
    FieldBefore(f, s, at + 18, 4);
    FieldBefore(f, s, at + 22, 4);
    FieldBefore(f, s, at + 26, 2);
    FieldBefore(f, s, at + 28, 2);
    hide FieldAt;
    var lo, h := at + LFH_FIXED, LocalFixedAt(f, at);
    assert (f + s)[lo..lo + h.nameLen] == f[lo..lo + h.nameLen];
  }

  /** Bytes put behind an archive are reported with those that were behind it already, and change no other finding. */
  lemma {:induction false} AppendingIsReported(f: File, s: seq<byte>)
    requires s != [] && |f| + |s| < MAX_FILE && StructuralView(f).Ok?
    requires EocdPos(f).Some? && EocdPos(f).value + EOCD_MIN <= |f| && KeepsEnd(f, s, EocdPos(f).value)
    requires
      var m := Open(f).value.summary;
      m.centralDirOffset + m.centralDirSize <= |f| && KeepsSignature(f, s, Open(f).value)
    ensures Open(f + s).Ok? && StructuralView(f + s) == StructuralView(f)
    ensures
      var m := Open(f).value.summary;
      m.eocdEndOffset <= |f| ==>
        ContainerFindings(Open(f + s).value.summary) == [TrailingData(|f| - m.eocdEndOffset + |s|)] + SpanningMarks(m)
  {
    hide Open, EocdPos, KeepsEnd, KeepsSignature, LocalAt;
    Appending(f, s);
    var es := Open(f).value.entries;
    LayoutsAre(f, es);
    LayoutsAre(f + s, es);
    hide LayoutsFrom;
    forall i | 0 <= i < |es|
      ensures LocalAt(f, es[i].lfhOffset).Ok? && LocalAt(f + s, es[i].lfhOffset) == LocalAt(f, es[i].lfhOffset)
    {
      LocalBefore(f, s, es[i].lfhOffset);
    }
    var was, now := LayoutsFrom(f, es, 0).value, LayoutsFrom(f + s, es, 0).value;
    forall i | 0 <= i < |es|
      ensures now[i] == was[i]
    {
      assert now[i] == LayoutOf(i, es[i], LocalAt(f + s, es[i].lfhOffset).value);
    }
    assert now == was;
  }
}
