/** What the container parser refuses, and why: each error exactly when the bytes are at fault in its way. */
module Refusals {
  import opened Wrappers
  import opened Bytes
  import opened Archive
  import opened Container
  import opened Printer
  import Format

  /** A signature stands at `at`. */
  predicate Signed(s: seq<byte>, at: nat, signature: uint32) {
    HasAt(s, at, Le(signature, 4))
  }

  lemma {:induction false} SignedIs(s: seq<byte>, at: nat, signature: uint32)
    requires at + 4 <= |s|
    ensures Signed(s, at, signature) <==> U32At(s, at) == signature
  {
    hide Le, FromLe;
    Ranges();
    LeRoundTrip(signature, 4);
    FromLeRoundTrip(s[at..at + 4]);
  }

  /** A 32-bit end record refers to the Zip64 one. */
  predicate RefersToZip64(e: Eocd) {
    e.offset == 0xFFFF_FFFF || e.size == 0xFFFF_FFFF || e.total == 0xFFFF
  }

  /** No archive is found exactly when no end record stands in the last 65557 bytes. */
  lemma {:induction false} NothingFound(file: File)
    ensures
      Open(file) == Err(NoEocd)
      <==> forall i: nat :: i + 22 <= |file| && |file| <= i + 65557 ==> !Signed(file, i, Format.END_RECORD)
  {
    hide Locate, EntriesFrom, PrefixLen, SignatureLen, Shifted, EocdFields, Signed;
    EocdPosInside(file);
    if EocdPos(file).Some? {
      NotNoEocd(file, EocdPos(file).value);
    }
    EocdPosIsLast(file, 0);
    forall i: nat | i + 22 <= |file|
      ensures EocdAt(file, i) <==> Signed(file, i, Format.END_RECORD)
    {
      SignedIs(file, i, Format.END_RECORD);
    }
  }

  lemma {:induction false} NotNoEocd(file: File, pos: nat)
    requires ScanStart(|file|) <= pos && pos + EOCD_MIN <= |file|
    ensures OpenAt(file, pos) != Err(NoEocd)
  {
    hide PrefixLen, SignatureLen, Shifted, EocdFields, U32At, U64At;
    var d := Locate(file, pos);
    if d.Ok? {
      var start := d.value.offset + PrefixLen(file, pos, d.value);
      if start + d.value.size <= |file| {
        EntriesErrors(file[start..start + d.value.size], 0, d.value.total);
      }
    }
  }

  lemma {:induction false} EntriesErrors(cd: seq<byte>, at: nat, count: nat)
    requires at <= |cd|
    ensures
      var r := EntriesFrom(cd, at, count);
      r.Err? ==> r.error in {Truncated, Zip64Inconsistent} || (r.error.BadSignature? && r.error.what == CentralHeader)
    decreases count
  {
    hide ResolvedSizes, FixedAt, U32At, AesOf;
    if count > 0 {
      var first := EntryAt(cd, at);
      HeaderRefused(cd, at);
      if first.Ok? {
        EntriesErrors(cd, first.value.1, count - 1);
      }
    }
  }

  /** Why the directory cannot be located. */
  lemma {:induction false} LocationRefused(file: seq<byte>, pos: nat)
    requires ScanStart(|file|) <= pos && pos + EOCD_MIN <= |file|
    ensures
      var wide := RefersToZip64(EocdFields(file, pos));
      var located := pos >= ScanStart(|file|) + 20 && Signed(file, pos - 20, Format.ZIP64_END_LOCATOR);
      && (Locate(file, pos) == Err(Zip64Unsupported) <==> wide && !located)
      && (Locate(file, pos) == Err(Io) <==> wide && located && U64At(file, pos - 12) + 56 > |file|)
      && (forall at: nat :: Locate(file, pos) == Err(BadSignature(Zip64End, at)) <==>
            && wide && located && at == U64At(file, pos - 12) && at + 56 <= |file|
            && !Signed(file, at, Format.ZIP64_END_RECORD))
      && (Locate(file, pos).Ok? <==>
            wide ==> located && Signed(file, U64At(file, pos - 12), Format.ZIP64_END_RECORD)
                     && U64At(file, pos - 12) + 56 <= |file|)
  {
    hide U32At, U64At, Zip64Record, EocdFields, Signed;
    if pos >= 20 {
      SignedIs(file, pos - 20, Format.ZIP64_END_LOCATOR);
      var at := U64At(file, pos - 12);
      if at + 56 <= |file| {
        SignedIs(file, at, Format.ZIP64_END_RECORD);
      }
    }
  }

  /** Why a located directory is not read: it is not inside the file, has too many entries, or a bad header. */
  lemma {:induction false} DirectoryRefused(file: File, pos: nat)
    requires ScanStart(|file|) <= pos && pos + EOCD_MIN <= |file|
    ensures
      match Locate(file, pos)
      case Err(e) => OpenAt(file, pos) == Err(e)
      case Ok(d) =>
        var start := d.offset + PrefixLen(file, pos, d);
        if start + d.size > |file| then OpenAt(file, pos) == Err(CentralDirOutOfRange(d.offset, d.size))
        else if d.total > 16_000_000 then OpenAt(file, pos) == Err(TooManyEntries(d.total))
        else
          match EntriesFrom(file[start..start + d.size], 0, d.total)
          case Err(e) => OpenAt(file, pos) == Err(e)
          case Ok(_) => OpenAt(file, pos).Ok?
  {
    hide Locate, EntriesFrom, PrefixLen, SignatureLen, Shifted, EocdFields;
  }

  /** Why a central header is refused. */
  lemma {:induction false} HeaderRefused(cd: seq<byte>, at: nat)
    requires at <= |cd|
    ensures |cd| < at + 46 ==> EntryAt(cd, at) == Err(Truncated)
    ensures |cd| >= at + 46 ==>
      (EntryAt(cd, at) == Err(BadSignature(CentralHeader, at + 4)) <==> !Signed(cd, at, Format.CENTRAL_HEADER))
    ensures |cd| >= at + 46 && Signed(cd, at, Format.CENTRAL_HEADER) ==>
      var nameEnd := at + 46 + U16At(cd, at + 28);
      var extraEnd := nameEnd + U16At(cd, at + 30);
      if extraEnd + U16At(cd, at + 32) > |cd| then EntryAt(cd, at) == Err(Truncated)
      else
        match ResolvedSizes(cd[nameEnd..extraEnd], Sizes(U32At(cd, at + 24), U32At(cd, at + 20), U32At(cd, at + 42)))
        case Err(e) => EntryAt(cd, at) == Err(e)
        case Ok(_) => EntryAt(cd, at).Ok?
    ensures EntryAt(cd, at).Err? ==>
      var e := EntryAt(cd, at).error;
      e in {Truncated, Zip64Inconsistent} || (e.BadSignature? && e.what == CentralHeader)
  {
    hide Signed, U32At, U16At, ResolvedSizes, AesOf;
    if |cd| >= at + 46 {
      SignedIs(cd, at, Format.CENTRAL_HEADER);
      var f := FixedAt(cd, at);
      var nameEnd := at + 46 + f.nameLen;
      if nameEnd + f.extraLen + f.commentLen <= |cd| {
        SizesRefused(cd[nameEnd..nameEnd + f.extraLen], Sizes(f.uncompressed, f.compressed, f.offset));
      }
    }
  }

  /** Why a local header is refused. */
  lemma {:induction false} LocalRefused(file: seq<byte>, at: nat)
    ensures
      && (LocalAt(file, at) == Err(Io) <==>
            || at + 30 > |file|
            || (Signed(file, at, Format.LOCAL_HEADER) && at + 30 + U16At(file, at + 26) > |file|))
      && (LocalAt(file, at) == Err(BadSignature(LocalHeader, at)) <==>
            at + 30 <= |file| && !Signed(file, at, Format.LOCAL_HEADER))
      && (LocalAt(file, at).Ok? <==>
            && at + 30 <= |file| && Signed(file, at, Format.LOCAL_HEADER)
            && at + 30 + U16At(file, at + 26) <= |file|)
  {
    hide Signed, U32At, U16At;
    if at + 30 <= |file| {
      SignedIs(file, at, Format.LOCAL_HEADER);
    }
  }

  // ----- runs of headers ------------------------------------------------------------------------

  /** The header at `at` parses, and ends at `next`. */
  predicate Follows(cd: seq<byte>, at: nat, next: nat) {
    at <= |cd| && EntryAt(cd, at).Ok? && EntryAt(cd, at).value.1 == next
  }

  /** Places inside the directory, at each but the last a header that ends at the next. */
  predicate Consecutive(cd: seq<byte>, ats: seq<nat>)
    decreases |ats|
  {
    && ats != [] && ats[0] <= |cd|
    && (|ats| > 1 ==> Follows(cd, ats[0], ats[1]) && Consecutive(cd, ats[1..]))
  }

  /** The entries are those of the headers at consecutive places. */
  predicate ReadFrom(cd: seq<byte>, ats: seq<nat>, es: seq<CentralEntry>): (b: bool)
    ensures b ==> |ats| == |es| + 1
    decreases |ats|
  {
    && |ats| == |es| + 1 && Consecutive(cd, ats)
    && (es != [] ==> es[0] == EntryAt(cd, ats[0]).value.0 && ReadFrom(cd, ats[1..], es[1..]))
  }

  /** A header that does not parse stands behind fewer than `count` that do. */
  predicate FailsAt(cd: seq<byte>, ats: seq<nat>, count: nat, e: Error): (b: bool)
    ensures b ==> ats != []
    decreases |ats|
  {
    && Consecutive(cd, ats) && |ats| <= count
    && if |ats| == 1 then EntryAt(cd, ats[0]) == Err(e) else FailsAt(cd, ats[1..], count - 1, e)
  }

  /**
   The directory is read header by header: either as many consecutive headers as were asked for parse, and
   their entries are the result, or the first that does not gives the error.
   */
  lemma {:induction false} HeadersInTurn(cd: seq<byte>, at: nat, count: nat)
    requires at <= |cd|
    ensures
      match EntriesFrom(cd, at, count)
      case Ok((es, end)) => |es| == count && exists ats :: ReadFrom(cd, ats, es) && ats[0] == at && ats[count] == end
      case Err(e) => exists ats :: FailsAt(cd, ats, count, e) && ats[0] == at
    decreases count
  {
    hide EntryAt, ReadFrom, FailsAt, Consecutive;
    Alone(cd, at, count);
    if count == 0 {
      assert ReadFrom(cd, [at], []) && [at][0] == at;
    } else {
      var first := EntryAt(cd, at);
      EntryEnds(cd, at);
      if first.Err? {
        assert FailsAt(cd, [at], count, first.error) && [at][0] == at;
      } else {
        var next := first.value.1;
        HeadersInTurn(cd, next, count - 1);
        OneEarlier(cd, at, next, count);
        match EntriesFrom(cd, next, count - 1)
        case Ok((es, end)) =>
          var ats :| ReadFrom(cd, ats, es) && ats[0] == next && ats[count - 1] == end;
          var all := [at] + ats;
          assert ReadFrom(cd, all, [first.value.0] + es) && all[0] == at && all[count] == end;
        case Err(e) =>
          var ats :| FailsAt(cd, ats, count - 1, e) && ats[0] == next;
          var all := [at] + ats;
          assert FailsAt(cd, all, count, e) && all[0] == at;
      }
    }
  }

  lemma {:induction false} Alone(cd: seq<byte>, at: nat, count: nat)
    requires at <= |cd|
    ensures ReadFrom(cd, [at], [])
    ensures count > 0 && EntryAt(cd, at).Err? ==> FailsAt(cd, [at], count, EntryAt(cd, at).error)
  {
    hide EntryAt;
  }

  lemma {:induction false} EntryEnds(cd: seq<byte>, at: nat)
    requires at <= |cd|
    ensures EntryAt(cd, at).Ok? ==> EntryAt(cd, at).value.1 <= |cd|
  {
  }

  /** One header before the others. */
  lemma {:induction false} OneEarlier(cd: seq<byte>, at: nat, next: nat, count: nat)
    requires Follows(cd, at, next) && count > 0
    ensures forall ats, es :: ReadFrom(cd, ats, es) && ats[0] == next ==>
      ReadFrom(cd, [at] + ats, [EntryAt(cd, at).value.0] + es)
    ensures forall ats, e :: FailsAt(cd, ats, count - 1, e) && ats[0] == next ==> FailsAt(cd, [at] + ats, count, e)
  {
    hide EntryAt;
    forall ats: seq<nat>, es: seq<CentralEntry> | ReadFrom(cd, ats, es) && ats[0] == next
      ensures ReadFrom(cd, [at] + ats, [EntryAt(cd, at).value.0] + es)
    {
      assert ([at] + ats)[1..] == ats && ([EntryAt(cd, at).value.0] + es)[1..] == es;
    }
    forall ats: seq<nat>, e | FailsAt(cd, ats, count - 1, e) && ats[0] == next
      ensures FailsAt(cd, [at] + ats, count, e)
    {
      assert ([at] + ats)[1..] == ats;
    }
  }

  /** The structural view fails with the archive's error, or with that of the first local header that does not read. */
  lemma {:induction false} ViewRefused(file: File, i: nat, e: Error)
    ensures Open(file).Err? ==> StructuralView(file) == Err(Open(file).error)
    ensures Open(file).Ok? ==>
      var es := Open(file).value.entries;
      i < |es| && LocalAt(file, es[i].lfhOffset) == Err(e)
      && (forall k :: 0 <= k < i ==> LocalAt(file, es[k].lfhOffset).Ok?)
      ==> StructuralView(file) == Err(e)
  {
    hide Open, LocalAt;
    if Open(file).Ok? {
      var es := Open(file).value.entries;
      if i < |es| && LocalAt(file, es[i].lfhOffset) == Err(e)
         && forall k :: 0 <= k < i ==> LocalAt(file, es[k].lfhOffset).Ok? {
        LayoutsFail(file, es, 0, i, e);
      }
    }
  }

  lemma {:induction false} LayoutsFail(file: seq<byte>, es: seq<CentralEntry>, from: nat, i: nat, e: Error)
    requires from <= i < |es| && LocalAt(file, es[i].lfhOffset) == Err(e)
    requires forall k :: from <= k < i ==> LocalAt(file, es[k].lfhOffset).Ok?
    ensures LayoutsFrom(file, es, from) == Err(e)
    decreases i - from
  {
    hide LocalAt;
    if from < i {
      LayoutsFail(file, es, from + 1, i, e);
    }
  }
}
