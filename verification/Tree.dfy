/**
 The directory tree that core/src/vfs.rs derives from a flat list of entry names. Building it is
 described as a run of mentions: each entry mentions every prefix of its path, and last, as a leaf,
 the path itself. What every node holds is a function of the mentions alone.
 */
module Tree {
  import opened Wrappers
  import opened Bytes

  const SLASH: byte := 0x2F
  const BACKSLASH: byte := 0x5C
  const DOT: byte := 0x2E

  type Component = seq<byte>
  type Path = seq<Component>

  // ----- names --------------------------------------------------------------------------------

  predicate Separator(b: byte) {
    b == SLASH || b == BACKSLASH
  }

  /** `split` at every separator. */
  function Split(s: seq<byte>): (r: seq<seq<byte>>)
    ensures r != []
    decreases |s|
  {
    if s == [] then [[]]
    else
      var rest := Split(s[1..]);
      if Separator(s[0]) then [[]] + rest else [[s[0]] + rest[0]] + rest[1..]
  }

  predicate Keeps(c: Component) {
    c != [] && c != [DOT]
  }

  function Filter(cs: seq<Component>): seq<Component> {
    if cs == [] then [] else (if Keeps(cs[0]) then [cs[0]] else []) + Filter(cs[1..])
  }

  lemma {:induction false} FilterKeeps(cs: seq<Component>)
    ensures forall c :: c in Filter(cs) <==> c in cs && Keeps(c)
    decreases |cs|
  {
    hide Keeps;
    if cs != [] {
      FilterKeeps(cs[1..]);
      assert cs == [cs[0]] + cs[1..];
    }
  }

  /** The components of an entry name. */
  function Components(name: seq<byte>): Path {
    Filter(Split(name))
  }

  predicate EndsInSeparator(name: seq<byte>) {
    name != [] && Separator(name[|name| - 1])
  }

  predicate SeparatorFree(c: seq<byte>) {
    forall i :: 0 <= i < |c| ==> !Separator(c[i])
  }

  predicate ValidPath(p: Path) {
    forall i :: 0 <= i < |p| ==> Keeps(p[i]) && SeparatorFree(p[i])
  }

  /** The '/'-join, as the program accumulates it. */
  function Join(p: Path): seq<byte>
    decreases |p|
  {
    if p == [] then [] else Extend(Join(p[..|p| - 1]), p[|p| - 1])
  }

  function Extend(acc: seq<byte>, c: Component): seq<byte> {
    (if acc == [] then [] else acc + [SLASH]) + c
  }

  lemma {:induction false} SplitIsFree(s: seq<byte>)
    ensures forall i :: 0 <= i < |Split(s)| ==> SeparatorFree(Split(s)[i])
    decreases |s|
  {
    if s != [] {
      SplitIsFree(s[1..]);
    }
  }

  lemma {:induction false} SplitFree(c: seq<byte>)
    requires SeparatorFree(c)
    ensures Split(c) == [c]
    decreases |c|
  {
    if c != [] {
      SplitFree(c[1..]);
      assert [c[0]] + c[1..] == c;
    }
  }

  /** Both separators split. */
  lemma {:induction false} SplitAt(a: seq<byte>, sep: byte, b: seq<byte>)
    requires sep == 0x2F || sep == 0x5C
    ensures Split(a + [sep] + b) == Split(a) + Split(b)
    decreases |a|
  {
    assert Separator(sep);
    hide Separator;
    var x := a + [sep] + b;
    if a == [] {
      assert x[1..] == b && x[0] == sep;
    } else {
      SplitAt(a[1..], sep, b);
      assert x[1..] == a[1..] + [sep] + b && x[0] == a[0];
      Regroup(a[0], Split(a[1..]), Split(b));
    }
  }

  lemma {:induction false} Regroup(c: byte, front: seq<seq<byte>>, back: seq<seq<byte>>)
    requires front != []
    ensures [[]] + (front + back) == ([[]] + front) + back
    ensures [[c] + (front + back)[0]] + (front + back)[1..] == ([[c] + front[0]] + front[1..]) + back
  {
    assert (front + back)[1..] == front[1..] + back;
  }

  lemma {:induction false} FilterConcat(a: seq<Component>, b: seq<Component>)
    ensures Filter(a + b) == Filter(a) + Filter(b)
    decreases |a|
  {
    hide Keeps;
    if a == [] {
      assert a + b == b;
    } else {
      FilterConcat(a[1..], b);
      assert (a + b)[0] == a[0] && (a + b)[1..] == a[1..] + b;
      var head := if Keeps(a[0]) then [a[0]] else [];
      assert head + (Filter(a[1..]) + Filter(b)) == (head + Filter(a[1..])) + Filter(b);
    }
  }

  /** Splitting undoes joining, so the join of valid paths is injective. */
  lemma {:induction false} ComponentsOfJoin(p: Path)
    requires ValidPath(p)
    ensures Components(Join(p)) == p && (Join(p) == [] <==> p == [])
    decreases |p|
  {
    if p == [] {
    } else {
      var init, last := p[..|p| - 1], p[|p| - 1];
      ComponentsOfJoin(init);
      SplitFree(last);
      FilterOne(last);
      if init != [] {
        SplitAt(Join(init), SLASH, last);
        FilterConcat(Split(Join(init)), [last]);
      }
      assert [] + last == last;
      assert p == init + [last];
    }
  }

  /** A separator, of either kind, only separates. */
  lemma {:induction false} ComponentsAtSeparator(a: seq<byte>, sep: byte, b: seq<byte>)
    requires sep == 0x2F || sep == 0x5C
    ensures Components(a + [sep] + b) == Components(a) + Components(b)
  {
    hide Split, Filter;
    SplitAt(a, sep, b);
    FilterConcat(Split(a), Split(b));
  }

  /** A part without separators is a component, unless it is empty or a dot: with the above, what components are. */
  lemma {:induction false} ComponentsOfPart(c: seq<byte>)
    requires forall i :: 0 <= i < |c| ==> c[i] != 0x2F && c[i] != 0x5C
    ensures Components(c) == if c == [] || c == [0x2E] then [] else [c]
  {
    assert SeparatorFree(c);
    hide Split, SeparatorFree;
    SplitFree(c);
    assert [c][1..] == [];
    assert Filter([c]) == (if Keeps(c) then [c] else []) + Filter([]);
  }

  /** A name stands for a directory when its last part is empty. */
  predicate NamesDirectory(name: seq<byte>) {
    name != [] && Split(name)[|Split(name)| - 1] == []
  }

  lemma {:induction false} DirectoryNames(name: seq<byte>)
    ensures EndsInSeparator(name) <==> NamesDirectory(name)
    decreases |name|
  {
    hide Separator;
    if |name| == 1 {
      assert name[1..] == [] && Split([]) == [[]];
    } else if name != [] {
      DirectoryNames(name[1..]);
    }
  }

  lemma {:induction false} FilterOne(c: Component)
    requires Keeps(c)
    ensures Filter([c]) == [c]
  {
  }

  lemma {:induction false} ComponentsValid(name: seq<byte>)
    ensures ValidPath(Components(name))
  {
    SplitIsFree(name);
    FilterKeeps(Split(name));
    var r := Components(name);
    forall i | 0 <= i < |r|
      ensures Keeps(r[i]) && SeparatorFree(r[i])
    {
      assert r[i] in r;
    }
  }

  // ----- mentions -----------------------------------------------------------------------------

  datatype Entry = Entry(name: seq<byte>, size: nat)

  datatype Leaf = Leaf(index: nat, isDir: bool, size: nat)

  datatype Mention = Mention(path: Path, leaf: Option<Leaf>)

  /** The mention an entry makes of the first `k + 1` components of its path. */
  function MentionAt(e: Entry, index: nat, k: nat): Mention
    requires k < |Components(e.name)|
  {
    var path := Components(e.name);
    if k + 1 < |path| then Mention(path[..k + 1], None)
    else Mention(path, Some(Leaf(index, EndsInSeparator(e.name), e.size)))
  }

  function MentionsOf(e: Entry, index: nat): (ms: seq<Mention>)
    ensures |ms| == |Components(e.name)|
  {
    seq(|Components(e.name)|, k requires 0 <= k < |Components(e.name)| => MentionAt(e, index, k))
  }

  function AllMentions(es: seq<Entry>): seq<Mention> {
    if es == [] then [] else AllMentions(es[..|es| - 1]) + MentionsOf(es[|es| - 1], |es| - 1)
  }

  // ----- the nodes as a function of the mentions ------------------------------------------------

  datatype Kind = Dir | File

  datatype Node = Node(entry: Option<nat>, name: Component, kind: Kind, size: nat, children: seq<nat>)

  /** Paths in the order of their first mention, the root before all. */
  function PathsOf(ms: seq<Mention>): (ps: seq<Path>)
    ensures ps != [] && ps[0] == []
    ensures forall p :: p in ps ==> p == [] || exists i :: 0 <= i < |ms| && ms[i].path == p
    ensures forall i :: 0 <= i < |ms| ==> ms[i].path in ps
    ensures forall i, j :: 0 <= i < j < |ps| ==> ps[i] != ps[j]
  {
    if ms == [] then [[]]
    else
      var before := PathsOf(ms[..|ms| - 1]);
      if ms[|ms| - 1].path in before then before else before + [ms[|ms| - 1].path]
  }

  function FirstMention(ms: seq<Mention>, p: Path): Option<Mention> {
    if ms == [] then None
    else
      var before := FirstMention(ms[..|ms| - 1], p);
      if before.None? && ms[|ms| - 1].path == p then Some(ms[|ms| - 1]) else before
  }

  function FirstLeaf(ms: seq<Mention>, p: Path): Option<Leaf> {
    if ms == [] then None
    else
      var before := FirstLeaf(ms[..|ms| - 1], p);
      if before.None? && ms[|ms| - 1].path == p then ms[|ms| - 1].leaf else before
  }

  function Parent(p: Path): Path
    requires p != []
  {
    p[..|p| - 1]
  }

  /** The nodes created under the path `p`, in order. */
  function ChildrenOf(ps: seq<Path>, p: Path): seq<nat> {
    if ps == [] then []
    else
      var last := ps[|ps| - 1];
      ChildrenOf(ps[..|ps| - 1], p) + if last != [] && Parent(last) == p then [|ps| - 1] else []
  }

  /** A node is a file exactly when the first mention of its path was as a leaf that is no directory. */
  function KindOf(ms: seq<Mention>, p: Path): Kind {
    match FirstMention(ms, p)
    case Some(Mention(_, Some(leaf))) => if leaf.isDir then Dir else File
    case _ => Dir
  }

  function SizeOf(ms: seq<Mention>, p: Path): nat {
    if KindOf(ms, p).File? then FirstMention(ms, p).value.leaf.value.size else 0
  }

  function NodeOf(ms: seq<Mention>, ps: seq<Path>, p: Path): Node {
    var leaf := FirstLeaf(ms, p);
    Node(if leaf.Some? then Some(leaf.value.index) else None, if p == [] then [] else p[|p| - 1],
         KindOf(ms, p), SizeOf(ms, p), ChildrenOf(ps, p))
  }

  /** The node table and path map after the mentions `ms`. */
  ghost predicate Built(nodes: seq<Node>, ms: seq<Mention>) {
    var ps := PathsOf(ms);
    |nodes| == |ps| && forall i :: 0 <= i < |ps| ==> nodes[i] == NodeOf(ms, ps, ps[i])
  }

  ghost predicate Mapped(byPath: map<seq<byte>, nat>, ps: seq<Path>) {
    && (forall i :: 0 <= i < |ps| ==> Join(ps[i]) in byPath && byPath[Join(ps[i])] == i)
    && (forall k :: k in byPath ==> byPath[k] < |ps| && k == Join(ps[byPath[k]]))
  }

  // ----- one mention more ---------------------------------------------------------------------

  lemma {:induction false} JoinInjective(p: Path, q: Path)
    requires ValidPath(p) && ValidPath(q) && Join(p) == Join(q)
    ensures p == q
  {
    ComponentsOfJoin(p);
    ComponentsOfJoin(q);
  }

  ghost predicate ValidMentions(ms: seq<Mention>) {
    forall i :: 0 <= i < |ms| ==> ms[i].path != [] && ValidPath(ms[i].path)
  }

  lemma {:induction false} PathsValid(ms: seq<Mention>)
    requires ValidMentions(ms)
    ensures forall i :: 0 <= i < |PathsOf(ms)| ==> ValidPath(PathsOf(ms)[i])
    ensures forall i :: 0 < i < |PathsOf(ms)| ==> PathsOf(ms)[i] != []
  {
    var ps := PathsOf(ms);
    forall i | 0 <= i < |ps|
      ensures ValidPath(ps[i]) && (i > 0 ==> ps[i] != [])
    {
      assert ps[i] in ps;
    }
  }

  /** The map finds a path exactly when it has been mentioned. */
  lemma {:induction false} Found(byPath: map<seq<byte>, nat>, ms: seq<Mention>, p: Path)
    requires ValidMentions(ms) && Mapped(byPath, PathsOf(ms)) && ValidPath(p)
    ensures Join(p) in byPath <==> p in PathsOf(ms)
    ensures Join(p) in byPath ==> PathsOf(ms)[byPath[Join(p)]] == p
  {
    hide Join;
    PathsValid(ms);
    if Join(p) in byPath {
      JoinInjective(p, PathsOf(ms)[byPath[Join(p)]]);
    }
  }

  /** The attributes of a path other than the one mentioned stay; the mentioned one gains its leaf. */
  lemma {:induction false} FirstsSnoc(ms: seq<Mention>, m: Mention, p: Path)
    ensures
      FirstMention(ms + [m], p) == if FirstMention(ms, p).None? && m.path == p then Some(m) else FirstMention(ms, p)
    ensures FirstLeaf(ms + [m], p) == if FirstLeaf(ms, p).None? && m.path == p then m.leaf else FirstLeaf(ms, p)
    ensures PathsOf(ms + [m]) == if m.path in PathsOf(ms) then PathsOf(ms) else PathsOf(ms) + [m.path]
  {
    assert (ms + [m])[..|ms|] == ms;
  }

  lemma {:induction false} NeverMentioned(ms: seq<Mention>, p: Path)
    ensures p !in PathsOf(ms) || (p == [] && ValidMentions(ms)) ==> FirstMention(ms, p).None? && FirstLeaf(ms, p).None?
    ensures p in PathsOf(ms) && p != [] ==> FirstMention(ms, p).Some?
    decreases |ms|
  {
    if ms != [] {
      NeverMentioned(ms[..|ms| - 1], p);
    }
  }

  lemma {:induction false} ChildrenSnoc(ps: seq<Path>, q: Path, p: Path)
    requires q != []
    ensures ChildrenOf(ps + [q], p) == ChildrenOf(ps, p) + if Parent(q) == p then [|ps|] else []
  {
    assert (ps + [q])[..|ps|] == ps;
  }

  /** Every path but the root comes after its parent's. */
  ghost predicate ParentsFirst(ps: seq<Path>) {
    forall j :: 0 < j < |ps| ==> ps[j] != [] && Parent(ps[j]) in ps[..j]
  }

  lemma {:induction false} ParentsFirstSnoc(ps: seq<Path>, q: Path)
    requires ParentsFirst(ps) && q != [] && Parent(q) in ps
    ensures ParentsFirst(ps + [q])
  {
    var all := ps + [q];
    forall j | 0 < j < |all|
      ensures all[j] != [] && Parent(all[j]) in all[..j]
    {
      if j < |ps| {
        assert all[j] == ps[j] && all[..j] == ps[..j];
      } else {
        assert all[..j] == ps;
      }
    }
  }

  lemma {:induction false} NoChildren(ps: seq<Path>, p: Path)
    requires ParentsFirst(ps) && p !in ps && ps != [] && ps[0] == []
    ensures ChildrenOf(ps, p) == []
    decreases |ps|
  {
    var init := ps[..|ps| - 1];
    if init == [] {
      assert ChildrenOf(init, p) == [];
    } else {
      assert Parent(ps[|ps| - 1]) in ps[..|ps| - 1];
      forall j | 0 < j < |init|
        ensures init[j] != [] && Parent(init[j]) in init[..j]
      {
        assert init[j] == ps[j] && init[..j] == ps[..j];
      }
      NoChildren(init, p);
    }
  }

  function NewNode(m: Mention): Node
    requires m.path != []
  {
    match m.leaf
    case None => Node(None, m.path[|m.path| - 1], Dir, 0, [])
    case Some(leaf) =>
      Node(Some(leaf.index), m.path[|m.path| - 1], if leaf.isDir then Dir else File,
           if leaf.isDir then 0 else leaf.size, [])
  }

  /** A new path adds itself to its parent's children, and to no other node. */
  lemma {:induction false} OldNode(ms: seq<Mention>, ps: seq<Path>, m: Mention, p: Path)
    requires ps == PathsOf(ms) && m.path != [] && m.path !in ps && p in ps
    ensures
      var was := NodeOf(ms, ps, p);
      NodeOf(ms + [m], ps + [m.path], p) == was.(children := was.children + if Parent(m.path) == p then [|ps|] else [])
  {
    hide ChildrenOf, FirstMention, FirstLeaf, PathsOf;
    FirstsSnoc(ms, m, p);
    ChildrenSnoc(ps, m.path, p);
  }

  lemma {:induction false} FreshNode(ms: seq<Mention>, ps: seq<Path>, m: Mention)
    requires ps == PathsOf(ms) && ValidMentions(ms) && ParentsFirst(ps) && m.path != [] && m.path !in ps
    ensures NodeOf(ms + [m], ps + [m.path], m.path) == NewNode(m)
  {
    hide ChildrenOf, FirstMention, FirstLeaf, ValidMentions, ParentsFirst;
    FirstsSnoc(ms, m, m.path);
    NeverMentioned(ms, m.path);
    ChildrenSnoc(ps, m.path, m.path);
    NoChildren(ps, m.path);
    hide PathsOf;
  }

  /** A path mentioned for the first time becomes a node, and a child of its parent's. */
  lemma {:induction false} Creates(nodes: seq<Node>, ms: seq<Mention>, m: Mention, parent: nat)
    requires Built(nodes, ms) && ValidMentions(ms) && m.path != [] && m.path !in PathsOf(ms)
    requires parent < |nodes| && PathsOf(ms)[parent] == Parent(m.path) && ParentsFirst(PathsOf(ms))
    ensures ParentsFirst(PathsOf(ms + [m]))
    ensures
      var grown := nodes + [NewNode(m)];
      Built(grown[parent := grown[parent].(children := grown[parent].children + [|nodes|])], ms + [m])
  {
    hide NodeOf, NewNode, FirstMention, FirstLeaf, PathsOf, ValidMentions, Parent, ParentsFirst;
    var ps := PathsOf(ms);
    var grown := nodes + [NewNode(m)];
    var after := grown[parent := grown[parent].(children := grown[parent].children + [|nodes|])];
    FirstsSnoc(ms, m, m.path);
    ParentsFirstSnoc(ps, m.path);
    FreshNode(ms, ps, m);
    forall i | 0 <= i < |ps|
      ensures after[i] == NodeOf(ms + [m], ps + [m.path], ps[i])
    {
      OldNode(ms, ps, m, ps[i]);
      assert nodes[i].children + [] == nodes[i].children;
    }
  }

  /** The new path in the map. */
  lemma {:induction false} Maps(byPath: map<seq<byte>, nat>, ps: seq<Path>, q: Path)
    requires Mapped(byPath, ps) && Join(q) !in byPath
    ensures Mapped(byPath[Join(q) := |ps|], ps + [q])
  {
    hide Join;
    var after, all := byPath[Join(q) := |ps|], ps + [q];
    forall i | 0 <= i < |all|
      ensures Join(all[i]) in after && after[Join(all[i])] == i
    {
      if i < |ps| {
        assert all[i] == ps[i];
      }
    }
  }

  /** A path mentioned again: only a leaf can matter, and only where the node has no entry yet. */
  lemma {:induction false} Revisits(nodes: seq<Node>, ms: seq<Mention>, m: Mention, at: nat)
    requires Built(nodes, ms) && ValidMentions(ms) && m.path != []
    requires at < |nodes| && PathsOf(ms)[at] == m.path
    ensures PathsOf(ms + [m]) == PathsOf(ms)
    ensures
      var entry := if nodes[at].entry.None? && m.leaf.Some? then Some(m.leaf.value.index) else nodes[at].entry;
      Built(nodes[at := nodes[at].(entry := entry)], ms + [m])
  {
    hide ChildrenOf, FirstMention, FirstLeaf, PathsOf, ValidMentions;
    var ps := PathsOf(ms);
    var entry := if nodes[at].entry.None? && m.leaf.Some? then Some(m.leaf.value.index) else nodes[at].entry;
    var after := nodes[at := nodes[at].(entry := entry)];
    FirstsSnoc(ms, m, m.path);
    NeverMentioned(ms, m.path);
    forall i | 0 <= i < |ps|
      ensures after[i] == NodeOf(ms + [m], ps, ps[i])
    {
      FirstsSnoc(ms, m, ps[i]);
    }
  }

  // ----- the program --------------------------------------------------------------------------

  /** `push_child`. */
  function PushChild(nodes: seq<Node>, parent: nat, child: nat): seq<Node> {
    if parent < |nodes| then nodes[parent := nodes[parent].(children := nodes[parent].children + [child])] else nodes
  }

  class Builder {
    var nodes: seq<Node>
    var byPath: map<seq<byte>, nat>

    ghost predicate Holds(ms: seq<Mention>)
      reads this
    {
      ValidMentions(ms) && Built(nodes, ms) && Mapped(byPath, PathsOf(ms)) && ParentsFirst(PathsOf(ms))
    }

    /** The synthetic root. */
    constructor ()
      ensures Holds([])
    {
      nodes := [Node(None, [], Dir, 0, [])];
      byPath := map[[] := 0];
    }

    /** One turn of the inner loop: component `k` of an entry, under the node `parent`. */
    method Visit(ghost ms: seq<Mention>, m: Mention, key: seq<byte>, parent: nat) returns (id: nat)
      requires Holds(ms) && m.path != [] && ValidPath(m.path) && key == Join(m.path)
      requires parent < |nodes| && PathsOf(ms)[parent] == Parent(m.path)
      modifies this
      ensures Holds(ms + [m])
      ensures id < |nodes| == |PathsOf(ms + [m])| && PathsOf(ms + [m])[id] == m.path
    {
      hide Join, ValidPath, Built, ValidMentions, ParentsFirst, PathsOf;
      Found(byPath, ms, m.path);
      Sizes(nodes, ms);
      MoreValid(ms, m);
      if key in byPath {
        id := byPath[key];
        Revisits(nodes, ms, m, id);
        if m.leaf.Some? && nodes[id].entry.None? {
          nodes := nodes[id := nodes[id].(entry := Some(m.leaf.value.index))];
        } else {
          assert nodes[id := nodes[id].(entry := nodes[id].entry)] == nodes;
        }
      } else {
        id := |nodes|;
        Creates(nodes, ms, m, parent);
        FirstsSnoc(ms, m, m.path);
        Maps(byPath, PathsOf(ms), m.path);
        nodes := nodes + [NewNode(m)];
        byPath := byPath[key := id];
        nodes := PushChild(nodes, parent, id);
      }
      Sizes(nodes, ms + [m]);
    }

    lemma {:induction false} Sizes(ns: seq<Node>, ms: seq<Mention>)
      requires Built(ns, ms)
      ensures |ns| == |PathsOf(ms)| && |ns| > 0
    {
    }

    lemma {:induction false} MoreValid(ms: seq<Mention>, m: Mention)
      requires ValidMentions(ms) && m.path != [] && ValidPath(m.path)
      ensures ValidMentions(ms + [m])
    {
    }

    /** One turn of the outer loop: every prefix of the entry's path, then the path itself. */
    method Insert(ghost ms: seq<Mention>, e: Entry, index: nat)
      requires Holds(ms)
      modifies this
      ensures Holds(ms + MentionsOf(e, index))
    {
      hide Join, Built, Mapped, ValidMentions, ParentsFirst, PathsOf, Components;
      var comps := Components(e.name);
      ComponentsValid(e.name);
      RootFirst(nodes, ms);
      var parent: nat := 0;
      var acc: seq<byte> := [];
      NoPath();
      assert MentionsOf(e, index)[..0] == [] && ms + [] == ms;
      for k := 0 to |comps|
        invariant Holds(ms + MentionsOf(e, index)[..k])
        invariant acc == Join(comps[..k])
        invariant parent < |nodes| == |PathsOf(ms + MentionsOf(e, index)[..k])|
        invariant PathsOf(ms + MentionsOf(e, index)[..k])[parent] == comps[..k]
      {
        ghost var seen := ms + MentionsOf(e, index)[..k];
        acc := Extend(acc, comps[k]);
        JoinSnoc(comps, k);
        var m := MentionAt(e, index, k);
        MentionPath(e, index, k);
        parent := Visit(seen, m, acc, parent);
        assert seen + [m] == ms + MentionsOf(e, index)[..k + 1];
      }
      assert MentionsOf(e, index)[..|comps|] == MentionsOf(e, index);
    }

    lemma {:induction false} RootFirst(ns: seq<Node>, ms: seq<Mention>)
      requires Built(ns, ms)
      ensures |ns| > 0 && |ns| == |PathsOf(ms)| && PathsOf(ms)[0] == []
    {
    }
  }

  lemma {:induction false} NoPath()
    ensures Join([]) == []
  {
  }

  lemma {:induction false} JoinSnoc(p: Path, k: nat)
    requires k < |p|
    ensures Join(p[..k + 1]) == Extend(Join(p[..k]), p[k])
  {
    assert p[..k + 1][..k] == p[..k];
  }

  lemma {:induction false} MentionPath(e: Entry, index: nat, k: nat)
    requires k < |Components(e.name)|
    ensures
      var m := MentionAt(e, index, k);
      m.path == Components(e.name)[..k + 1] && ValidPath(m.path) && Parent(m.path) == Components(e.name)[..k]
  {
    ComponentsValid(e.name);
    var p := Components(e.name);
    if k + 1 == |p| {
      assert p[..k + 1] == p;
    }
    assert p[..k + 1][..k] == p[..k];
  }

  /** `build_tree`. */
  method BuildTree(es: seq<Entry>) returns (nodes: seq<Node>)
    ensures ValidMentions(AllMentions(es)) && Built(nodes, AllMentions(es)) && ParentsFirst(PathsOf(AllMentions(es)))
  {
    hide Built, Mapped, ValidMentions, ParentsFirst, PathsOf, MentionsOf;
    var b := new Builder();
    for index := 0 to |es|
      invariant b.Holds(AllMentions(es[..index])) && fresh(b)
    {
      b.Insert(AllMentions(es[..index]), es[index], index);
      assert es[..index + 1][..index] == es[..index];
    }
    assert es[..|es|] == es;
    nodes := b.nodes;
  }
}
