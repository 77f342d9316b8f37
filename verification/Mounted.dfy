/** Mounting an archive (core/src/vfs.rs): from the printed archive through the tree to the bytes read. */
module Mounted {
  import opened Wrappers
  import opened Bytes
  import opened Archive
  import opened Container
  import opened Printer
  import opened PrintParse
  import Extract
  import Tree
  import TreeFacts
  import ContentCache

  /** What `build_tree` takes from the structural view. */
  function Listed(view: seq<EntryLayout>): (es: seq<Tree.Entry>)
    ensures |es| == |view|
    ensures
      forall i :: 0 <= i < |es| ==> es[i] == Tree.Entry(view[i].central.name, view[i].central.uncompressedSize as nat)
  {
    seq(|view|, i requires 0 <= i < |view| => Tree.Entry(view[i].central.name, view[i].central.uncompressedSize as nat))
  }

  /** The same from the members printed. */
  function FromMembers(ms: seq<Member>): (es: seq<Tree.Entry>)
    ensures |es| == |ms| && forall i :: 0 <= i < |es| ==> es[i] == Tree.Entry(ms[i].name, ms[i].uncompressedSize as nat)
  {
    seq(|ms|, i requires 0 <= i < |ms| => Tree.Entry(ms[i].name, ms[i].uncompressedSize as nat))
  }

  /** `by_index` and `read_to_end`, as `content` calls them. */
  function DecodeOf(c: Extract.Crates, file: seq<byte>, a: Archive): ContentCache.Decode {
    (i: nat) => if i < |a.entries| then Extract.ReadOpen(c, file, a, a.entries[i]) else Err(IndexOutOfBounds(i))
  }

  /** `ZipVfs::open`. */
  function MountOf(c: Extract.Crates, file: seq<byte>, a: Archive, nodes: seq<Tree.Node>): ContentCache.Mount {
    ContentCache.Mount(nodes, DecodeOf(c, file, a))
  }

  /** Every read of the node is a slice of `plain`. */
  ghost predicate ReadsAs(m: ContentCache.Mount, id: nat, plain: seq<byte>) {
    forall offset: uint64, room: nat ::
      ContentCache.Direct(m, ContentCache.Request(id, offset, room)) == Ok(Window(plain, offset as nat, room))
  }

  /** Entry `k` is a file, is the first entry at or under its path, and no file stands above it. */
  ghost predicate Reachable(es: seq<Tree.Entry>, k: nat)
    requires k < |es|
  {
    var p := Tree.Components(es[k].name);
    && p != [] && !Tree.NamesDirectory(es[k].name)
    && TreeFacts.FirstUnder(es, p) == Some(k) && !TreeFacts.FileAbove(es, p)
  }

  /** The path of entry `k` resolves to the node `id`, a file backed by that entry and of its size. */
  ghost predicate Backed(nodes: seq<Tree.Node>, es: seq<Tree.Entry>, k: nat, id: nat)
    requires k < |es|
  {
    && TreeFacts.ResolvesTo(nodes, es, Tree.Components(es[k].name), id)
    && nodes[id].kind == Tree.File && nodes[id].entry == Some(k) && nodes[id].size == es[k].size
  }

  /** A reachable entry's path resolves to a file node that is backed by that very entry. */
  lemma {:induction false} ResolvesToItself(es: seq<Tree.Entry>, nodes: seq<Tree.Node>, k: nat)
    requires TreeFacts.TreeOf(nodes, Tree.AllMentions(es)) && k < |es| && Reachable(es, k)
    ensures exists id: nat :: Backed(nodes, es, k, id)
  {
    hide Tree.Components, TreeFacts.TreeOf, TreeFacts.FileAbove, TreeFacts.FirstUnder, TreeFacts.FirstNamed,
      TreeFacts.Resolve, Tree.AllMentions, Tree.PathsOf, Tree.NamesDirectory;
    var p := Tree.Components(es[k].name);
    TreeFacts.EntryResolves(es, nodes, k);
    var id: nat :| TreeFacts.ResolvesTo(nodes, es, p, id);
    TreeFacts.RootPath(Tree.AllMentions(es));
    TreeFacts.NodeMeaning(es, nodes, id);
    NamedFirst(es, k);
    assert Backed(nodes, es, k, id);
  }

  lemma {:induction false} NamedFirst(es: seq<Tree.Entry>, k: nat)
    requires k < |es| && TreeFacts.FirstUnder(es, Tree.Components(es[k].name)) == Some(k)
    ensures TreeFacts.FirstNamed(es, Tree.Components(es[k].name)) == Some(k)
    ensures TreeFacts.Named(es[k], Tree.Components(es[k].name))
  {
    hide Tree.Components;
    var p := Tree.Components(es[k].name);
    TreeFacts.FirstNamedIsLowest(es, p);
    assert TreeFacts.Named(es[k], p);
    var r := TreeFacts.FirstNamed(es, p);
    assert r.Some? && r.value <= k;
    assert TreeFacts.Under(es[r.value], p);
  }

  /** An unprotected member reads as its data. */
  lemma {:induction false} MemberDecodes(c: Extract.Crates, a: Contents, k: nat, plain: seq<byte>)
    requires c.Lawful() && a.Valid() && |a.Print()| < MAX_FILE && a.Opens() && a.disk == 0 && a.startDisk == 0
    requires k < |a.members|
    requires
      var offset := Entries(a.members, 0)[k].lfhOffset as nat;
      ValidMember(a.members[k], offset) && Extract.Holds(c, a.members[k], offset, Extract.Unprotected, [], plain)
    requires Extract.ChecksumIs(plain, a.members[k].crc32)
    ensures DecodeOf(c, a.Print(), a.Parsed())(k) == Ok(plain)
  {
    hide Open, LocalAt, HasAt, Contents.Print, Locals, Contents.Opens, ValidMember, LocalFieldsOf, EntryOf,
      Extract.ChecksumIs, Extract.Holds, Extract.ReadOpen, Extract.Checked, Extract.Plainly;
    Placed(a);
    LocalsPrinted(a.Print(), 0, a.members, k);
    Extract.EntryIs(a.members, 0, k);
    var m := a.members[k];
    var offset := Entries(a.members, 0)[k].lfhOffset as nat;
    Extract.HeldOpenly(c, a.Print(), a.Parsed(), m, offset, DataStart(m, offset), plain);
    Extract.SummedIsOk(plain, m.crc32);
  }

  /**
   From path to bytes: in the mount of a printed archive the path of a reachable, unprotected member
   resolves to a file node, and every read of that node is a slice of the member's data.
   */
  lemma {:induction false} PathToBytes(c: Extract.Crates, a: Contents, nodes: seq<Tree.Node>, k: nat, plain: seq<byte>)
    requires c.Lawful() && a.Valid() && |a.Print()| < MAX_FILE && a.Opens() && a.disk == 0 && a.startDisk == 0
    requires k < |a.members|
    requires
      var offset := Entries(a.members, 0)[k].lfhOffset as nat;
      ValidMember(a.members[k], offset) && Extract.Holds(c, a.members[k], offset, Extract.Unprotected, [], plain)
    requires Extract.ChecksumIs(plain, a.members[k].crc32)
    requires var es := FromMembers(a.members); TreeFacts.TreeOf(nodes, Tree.AllMentions(es)) && Reachable(es, k)
    ensures Open(a.Print()) == Ok(a.Parsed())
    ensures StructuralView(a.Print()).Ok? && Listed(StructuralView(a.Print()).value) == FromMembers(a.members)
    ensures exists id: nat ::
      && TreeFacts.ResolvesTo(nodes, FromMembers(a.members), Tree.Components(a.members[k].name), id)
      && ReadsAs(MountOf(c, a.Print(), a.Parsed(), nodes), id, plain)
  {
    hide Open, LayoutsFrom, Contents.Print, Contents.Opens, ValidMember, Extract.Holds, Extract.ChecksumIs, Reachable,
      Tree.Components, TreeFacts.TreeOf, Tree.AllMentions, DecodeOf, MountOf, ReadsAs, Backed, Contents.Parsed;
    RoundTrip(a);
    ViewedAs(a);
    var es := FromMembers(a.members);
    MemberDecodes(c, a, k, plain);
    ResolvesToItself(es, nodes, k);
    var id: nat :| Backed(nodes, es, k, id);
    BackedReads(c, a, nodes, es, k, id, plain);
  }

  lemma {:induction false} BackedReads(c: Extract.Crates, a: Contents, nodes: seq<Tree.Node>, es: seq<Tree.Entry>,
                                       k: nat, id: nat, plain: seq<byte>)
    requires a.Valid() && k < |es| && Backed(nodes, es, k, id) && DecodeOf(c, a.Print(), a.Parsed())(k) == Ok(plain)
    ensures ReadsAs(MountOf(c, a.Print(), a.Parsed(), nodes), id, plain)
    ensures TreeFacts.ResolvesTo(nodes, es, Tree.Components(es[k].name), id)
  {
    hide DecodeOf, Tree.Components, Tree.AllMentions, Tree.PathsOf, TreeFacts.Resolve, Window, Contents.Print,
      Contents.Parsed, Contents.Valid;
  }

  /** The tree is built from the members' own names and sizes. */
  lemma {:induction false} ViewedAs(a: Contents)
    requires a.Valid() && |a.Print()| < MAX_FILE && a.Opens()
    ensures StructuralView(a.Print()).Ok? && Listed(StructuralView(a.Print()).value) == FromMembers(a.members)
  {
    hide Open, LayoutsFrom, Contents.Print, Contents.Opens, HasAt, LocalFieldsOf;
    ViewRoundTrip(a);
  }
}
