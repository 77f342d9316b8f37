/** What the derived tree is: its shape, what each node stands for, and what lookups reach. */
module TreeFacts {
  import opened Wrappers
  import opened Bytes
  import opened Tree

  // ----- shape --------------------------------------------------------------------------------

  /** The children of a path: the later nodes whose parent path it is, in ascending order. */
  lemma {:induction false} ChildrenAre(ps: seq<Path>, p: Path)
    ensures forall c :: c in ChildrenOf(ps, p) <==> 0 <= c < |ps| && ps[c] != [] && Parent(ps[c]) == p
    ensures forall a, b :: 0 <= a < b < |ChildrenOf(ps, p)| ==> ChildrenOf(ps, p)[a] < ChildrenOf(ps, p)[b]
    decreases |ps|
  {
    if ps != [] {
      var init, last := ps[..|ps| - 1], ps[|ps| - 1];
      ChildrenAre(init, p);
      var before := ChildrenOf(init, p);
      var cs := ChildrenOf(ps, p);
      forall a, b | 0 <= a < b < |cs|
        ensures cs[a] < cs[b]
      {
        if b == |before| {
          assert cs[a] == before[a] && before[a] in before;
        }
      }
      forall c
        ensures c in cs <==> 0 <= c < |ps| && ps[c] != [] && Parent(ps[c]) == p
      {
        assert c in cs <==> c in before || (c == |ps| - 1 && last != [] && Parent(last) == p);
        if 0 <= c < |init| {
          assert init[c] == ps[c];
        }
      }
    }
  }

  ghost predicate TreeOf(nodes: seq<Node>, ms: seq<Mention>) {
    ValidMentions(ms) && Built(nodes, ms) && ParentsFirst(PathsOf(ms))
  }

  lemma {:induction false} Children(nodes: seq<Node>, ms: seq<Mention>, i: nat)
    requires TreeOf(nodes, ms) && i < |nodes|
    ensures |PathsOf(ms)| == |nodes|
    ensures forall c :: c in nodes[i].children ==> i < c < |nodes| && PathsOf(ms)[c] == PathsOf(ms)[i] + [nodes[c].name]
    ensures forall c :: 0 < c < |nodes| && PathsOf(ms)[c] != [] && Parent(PathsOf(ms)[c]) == PathsOf(ms)[i] ==>
      c in nodes[i].children
    ensures forall a, b :: 0 <= a < b < |nodes[i].children| ==> nodes[i].children[a] < nodes[i].children[b]
  {
    hide ChildrenOf, PathsOf, FirstLeaf, KindOf, SizeOf, ValidMentions;
    var ps := PathsOf(ms);
    assert nodes[i] == NodeOf(ms, ps, ps[i]);
    ChildrenAre(ps, ps[i]);
    forall c | c in nodes[i].children
      ensures i < c < |nodes| && ps[c] == ps[i] + [nodes[c].name]
    {
      assert nodes[c] == NodeOf(ms, ps, ps[c]);
      assert ps[c] == Parent(ps[c]) + [ps[c][|ps[c]| - 1]];
      assert c > 0;
      assert ps[i] in ps[..c];
      var j :| 0 <= j < c && ps[j] == ps[i];
      assert j == i;
    }
  }

  predicate IsChild(nodes: seq<Node>, i: nat, c: nat) {
    i < |nodes| && c in nodes[i].children
  }

  /** Ids in a child list ascend, so none is listed twice. */
  predicate Ascending(cs: seq<nat>) {
    forall a, b :: 0 <= a < b < |cs| ==> cs[a] < cs[b]
  }

  lemma {:induction false} ChildEdge(nodes: seq<Node>, ms: seq<Mention>, i: nat, c: nat)
    requires TreeOf(nodes, ms) && IsChild(nodes, i, c)
    ensures i < c < |nodes| == |PathsOf(ms)| && PathsOf(ms)[c] == PathsOf(ms)[i] + [nodes[c].name]
  {
    hide TreeOf, PathsOf;
    Children(nodes, ms, i);
  }

  lemma {:induction false} OneParent(nodes: seq<Node>, ms: seq<Mention>, c: nat)
    requires TreeOf(nodes, ms) && 0 < c < |nodes|
    ensures HasEarlierParent(nodes, c) && ParentIsUnique(nodes, c)
  {
    hide ChildrenOf, PathsOf, FirstLeaf, FirstMention, KindOf, SizeOf, ValidMentions;
    var ps := PathsOf(ms);
    assert Parent(ps[c]) in ps[..c];
    var i: nat :| i < c && ps[i] == Parent(ps[c]);
    Children(nodes, ms, i);
    assert IsChild(nodes, i, c);
    forall j: nat, k: nat | IsChild(nodes, j, c) && IsChild(nodes, k, c)
      ensures j == k
    {
      ChildEdge(nodes, ms, j, c);
      ChildEdge(nodes, ms, k, c);
      assert ps[j] == Parent(ps[c]) && ps[k] == Parent(ps[c]);
    }
  }

  lemma {:induction false} SiblingNames(nodes: seq<Node>, ms: seq<Mention>, i: nat, c: nat, d: nat)
    requires TreeOf(nodes, ms) && IsChild(nodes, i, c) && IsChild(nodes, i, d) && c != d
    ensures c < |nodes| && d < |nodes| && nodes[c].name != nodes[d].name
  {
    hide PathsOf;
    ChildEdge(nodes, ms, i, c);
    ChildEdge(nodes, ms, i, d);
  }

  lemma {:induction false} FileHasEntry(nodes: seq<Node>, ms: seq<Mention>, i: nat)
    requires TreeOf(nodes, ms) && i < |nodes|
    ensures nodes[i].kind == File ==> nodes[i].entry.Some?
    ensures i == 0 ==> nodes[i].kind == Dir && nodes[i].entry == None
  {
    RootHasNone(ms);
    RootPath(ms);
    hide ChildrenOf, PathsOf, FirstLeaf, FirstMention, KindOf, ValidMentions;
    var ps := PathsOf(ms);
    assert nodes[i] == NodeOf(ms, ps, ps[i]);
    FilesHaveEntries(ms, ps[i]);
  }

  ghost predicate HasEarlierParent(nodes: seq<Node>, c: nat) {
    exists i: nat :: i < c && IsChild(nodes, i, c)
  }

  ghost predicate ParentIsUnique(nodes: seq<Node>, c: nat) {
    forall i: nat, j: nat :: IsChild(nodes, i, c) && IsChild(nodes, j, c) ==> i == j
  }

  /** The child lists hold later nodes only, each once, with different names. */
  ghost predicate ChildListsProper(nodes: seq<Node>) {
    && (forall i: nat, c: nat :: IsChild(nodes, i, c) ==> i < c < |nodes|)
    && (forall i :: 0 <= i < |nodes| ==> Ascending(nodes[i].children))
    && (forall i: nat, c: nat, d: nat :: IsChild(nodes, i, c) && IsChild(nodes, i, d) && c != d ==>
          c < |nodes| && d < |nodes| && nodes[c].name != nodes[d].name)
  }

  /**
   The node table is a tree: children come after their parents; every node but the root is a child of
   exactly one node, once; siblings have different names; and a file always has an entry behind it.
   */
  lemma {:induction false} Shape(nodes: seq<Node>, ms: seq<Mention>)
    requires TreeOf(nodes, ms)
    ensures nodes != [] && nodes[0].kind == Dir && nodes[0].entry == None
    ensures ChildListsProper(nodes)
    ensures forall c :: 0 < c < |nodes| ==> HasEarlierParent(nodes, c) && ParentIsUnique(nodes, c)
    ensures forall i :: 0 <= i < |nodes| && nodes[i].kind == File ==> nodes[i].entry.Some?
  {
    NotEmpty(nodes, ms);
    ProperLists(nodes, ms);
    hide TreeOf, IsChild, ChildListsProper, HasEarlierParent, ParentIsUnique;
    forall c | 0 < c < |nodes|
      ensures HasEarlierParent(nodes, c) && ParentIsUnique(nodes, c)
    {
      OneParent(nodes, ms, c);
    }
    forall i | 0 <= i < |nodes|
      ensures nodes[i].kind == File ==> nodes[i].entry.Some?
    {
      FileHasEntry(nodes, ms, i);
    }
    FileHasEntry(nodes, ms, 0);
  }

  lemma {:induction false} ProperLists(nodes: seq<Node>, ms: seq<Mention>)
    requires TreeOf(nodes, ms)
    ensures ChildListsProper(nodes)
  {
    hide TreeOf, IsChild, Ascending;
    forall i: nat, c: nat | IsChild(nodes, i, c)
      ensures i < c < |nodes|
    {
      ChildEdge(nodes, ms, i, c);
    }
    forall i | 0 <= i < |nodes|
      ensures Ascending(nodes[i].children)
    {
      AscendingChildren(nodes, ms, i);
    }
    forall i: nat, c: nat, d: nat | IsChild(nodes, i, c) && IsChild(nodes, i, d) && c != d
      ensures c < |nodes| && d < |nodes| && nodes[c].name != nodes[d].name
    {
      SiblingNames(nodes, ms, i, c, d);
    }
  }

  lemma {:induction false} NotEmpty(nodes: seq<Node>, ms: seq<Mention>)
    requires TreeOf(nodes, ms)
    ensures nodes != []
  {
  }

  lemma {:induction false} AscendingChildren(nodes: seq<Node>, ms: seq<Mention>, i: nat)
    requires TreeOf(nodes, ms) && i < |nodes|
    ensures Ascending(nodes[i].children)
  {
    hide TreeOf;
    Children(nodes, ms, i);
  }

  lemma {:induction false} RootHasNone(ms: seq<Mention>)
    requires ValidMentions(ms)
    ensures KindOf(ms, []) == Dir && FirstLeaf(ms, []) == None
  {
    NeverMentioned(ms, []);
  }

  /** A path first mentioned as a leaf has that leaf. */
  lemma {:induction false} FilesHaveEntries(ms: seq<Mention>, p: Path)
    ensures KindOf(ms, p) == File ==> FirstLeaf(ms, p).Some? && FirstLeaf(ms, p) == FirstMention(ms, p).value.leaf
    ensures FirstMention(ms, p).Some? && FirstMention(ms, p).value.leaf.Some? ==>
      FirstLeaf(ms, p) == FirstMention(ms, p).value.leaf
    ensures FirstMention(ms, p).None? ==> FirstLeaf(ms, p).None?
    decreases |ms|
  {
    if ms != [] {
      FilesHaveEntries(ms[..|ms| - 1], p);
    }
  }

  // ----- what a node stands for ---------------------------------------------------------------

  predicate Under(e: Entry, p: Path) {
    p <= Components(e.name)
  }

  /** The first entry whose path starts with `p`. */
  function FirstUnder(es: seq<Entry>, p: Path): (r: Option<nat>)
    ensures r.Some? ==> r.value < |es| && Under(es[r.value], p) && forall k :: 0 <= k < r.value ==> !Under(es[k], p)
    ensures r.None? ==> forall k :: 0 <= k < |es| ==> !Under(es[k], p)
  {
    if es == [] then None
    else
      var before := FirstUnder(es[..|es| - 1], p);
      if before.None? && Under(es[|es| - 1], p) then Some(|es| - 1) else before
  }

  predicate Named(e: Entry, p: Path) {
    Components(e.name) == p
  }

  /** The first entry whose path is `p`. */
  function FirstNamed(es: seq<Entry>, p: Path): (r: Option<nat>)
    ensures r.Some? ==> r.value < |es|
  {
    if es == [] then None
    else
      var before := FirstNamed(es[..|es| - 1], p);
      if before.None? && Named(es[|es| - 1], p) then Some(|es| - 1) else before
  }

  lemma {:induction false} FirstNamedIsLowest(es: seq<Entry>, p: Path)
    ensures
      match FirstNamed(es, p)
      case Some(n) => Named(es[n], p) && forall k :: 0 <= k < n ==> !Named(es[k], p)
      case None => forall k :: 0 <= k < |es| ==> !Named(es[k], p)
    decreases |es|
  {
    hide Named;
    if es != [] {
      FirstNamedIsLowest(es[..|es| - 1], p);
    }
  }

  lemma {:induction false} FirstsConcat(a: seq<Mention>, b: seq<Mention>, p: Path)
    ensures FirstMention(a + b, p) == if FirstMention(a, p).Some? then FirstMention(a, p) else FirstMention(b, p)
    ensures FirstLeaf(a + b, p) == if FirstLeaf(a, p).Some? then FirstLeaf(a, p) else FirstLeaf(b, p)
    decreases |b|
  {
    if b == [] {
      assert a + b == a;
    } else {
      assert (a + b)[..|a + b| - 1] == a + b[..|b| - 1];
      FirstsConcat(a, b[..|b| - 1], p);
    }
  }

  /** Among the mentions of one entry, only one is of a given path. */
  lemma {:induction false} FirstsInEntry(e: Entry, index: nat, p: Path, n: nat)
    requires n <= |Components(e.name)| && p != []
    ensures
      var ms := MentionsOf(e, index)[..n];
      var hit := p <= Components(e.name) && |p| <= n;
      && FirstMention(ms, p) == (if hit then Some(MentionAt(e, index, |p| - 1)) else None)
      && FirstLeaf(ms, p) == (if hit then MentionAt(e, index, |p| - 1).leaf else None)
    decreases n
  {
    hide Components;
    var ms := MentionsOf(e, index)[..n];
    if n > 0 {
      FirstsInEntry(e, index, p, n - 1);
      assert ms[..n - 1] == MentionsOf(e, index)[..n - 1];
      MentionPath(e, index, n - 1);
      assert ms[n - 1] == MentionAt(e, index, n - 1);
    }
  }

  /** The first mention of a path is made by the first entry under it; its first leaf by the first entry so named. */
  lemma {:induction false} FirstsOfEntries(es: seq<Entry>, p: Path)
    requires p != []
    ensures FirstMention(AllMentions(es), p) ==
      if FirstUnder(es, p).None? then None
        else Some(MentionAt(es[FirstUnder(es, p).value], FirstUnder(es, p).value, |p| - 1))
    ensures FirstLeaf(AllMentions(es), p) ==
      if FirstNamed(es, p).None? then None
      else Some(Leaf(FirstNamed(es, p).value, EndsInSeparator(es[FirstNamed(es, p).value].name),
        es[FirstNamed(es, p).value].size))
    decreases |es|
  {
    hide Components, MentionsOf, EndsInSeparator;
    if es != [] {
      var n := |es| - 1;
      FirstsOfEntries(es[..n], p);
      FirstsConcat(AllMentions(es[..n]), MentionsOf(es[n], n), p);
      FirstsInEntry(es[n], n, p, |Components(es[n].name)|);
      assert MentionsOf(es[n], n)[..|Components(es[n].name)|] == MentionsOf(es[n], n);
    }
  }

  lemma {:induction false} DirectoriesNamed()
    ensures forall name :: EndsInSeparator(name) <==> NamesDirectory(name)
  {
    hide EndsInSeparator, NamesDirectory;
    forall name
      ensures EndsInSeparator(name) <==> NamesDirectory(name)
    {
      DirectoryNames(name);
    }
  }

  /**
   What the node of a path stands for: the lowest-index entry of exactly that path, if any; and it is
   a file, of that entry's size, exactly when the first entry under the path is that one and no directory.
   */
  lemma {:induction false} NodeMeaning(es: seq<Entry>, nodes: seq<Node>, i: nat)
    requires TreeOf(nodes, AllMentions(es)) && 0 < i < |nodes|
    ensures i < |PathsOf(AllMentions(es))|
    ensures
      var p := PathsOf(AllMentions(es))[i];
      && p != [] && FirstUnder(es, p).Some? && nodes[i].name == p[|p| - 1] && nodes[i].entry == FirstNamed(es, p)
      && var first := FirstUnder(es, p).value;
         var isFile := Named(es[first], p) && !NamesDirectory(es[first].name);
         nodes[i].kind == (if isFile then File else Dir) && nodes[i].size == if isFile then es[first].size else 0
  {
    hide Components, MentionsOf, EndsInSeparator, NamesDirectory, ChildrenOf, PathsOf, FirstMention, FirstLeaf,
      AllMentions;
    var ms := AllMentions(es);
    var ps := PathsOf(ms);
    DirectoriesNamed();
    assert nodes[i] == NodeOf(ms, ps, ps[i]);
    PathsValid(ms);
    assert ps[i] in ps;
    NeverMentioned(ms, ps[i]);
    FirstsOfEntries(es, ps[i]);
  }

  /** The paths of the tree are the root and the non-empty prefixes of the entries' paths. */
  lemma {:induction false} PathsAre(es: seq<Entry>, p: Path)
    requires ValidMentions(AllMentions(es)) && p != []
    ensures p in PathsOf(AllMentions(es)) <==> FirstUnder(es, p).Some?
  {
    hide Components, MentionsOf, AllMentions, FirstUnder;
    NeverMentioned(AllMentions(es), p);
    FirstsOfEntries(es, p);
  }

  // ----- lookups ------------------------------------------------------------------------------

  function ChildNamed(nodes: seq<Node>, cs: seq<nat>, name: Component): Option<nat> {
    if cs == [] then None
    else if cs[0] < |nodes| && nodes[cs[0]].name == name then Some(cs[0])
    else ChildNamed(nodes, cs[1..], name)
  }

  /** `lookup` as a function of the node table. */
  function LookupIn(nodes: seq<Node>, parent: nat, name: Component): Result<Option<nat>> {
    if parent >= |nodes| then Err(NoSuchNode(parent))
    else if nodes[parent].kind != Dir then Err(NotADirectory(parent))
    else Ok(ChildNamed(nodes, nodes[parent].children, name))
  }

  method Lookup(nodes: seq<Node>, parent: nat, name: Component) returns (r: Result<Option<nat>>)
    ensures r == LookupIn(nodes, parent, name)
  {
    if parent >= |nodes| {
      return Err(NoSuchNode(parent));
    }
    var node := nodes[parent];
    if node.kind != Dir {
      return Err(NotADirectory(parent));
    }
    for i := 0 to |node.children|
      invariant ChildNamed(nodes, node.children, name) == ChildNamed(nodes, node.children[i..], name)
    {
      var child := node.children[i];
      assert node.children[i..][1..] == node.children[i + 1..];
      if child < |nodes| && nodes[child].name == name {
        return Ok(Some(child));
      }
    }
    r := Ok(None);
  }

  /** A lookup fails exactly outside the table and in files. */
  lemma {:induction false} LookupRefuses(nodes: seq<Node>, parent: nat, name: Component)
    ensures LookupIn(nodes, parent, name) == Err(NoSuchNode(parent)) <==> parent >= |nodes|
    ensures LookupIn(nodes, parent, name) == Err(NotADirectory(parent)) <==>
      parent < |nodes| && nodes[parent].kind == File
    ensures LookupIn(nodes, parent, name).Ok? <==> parent < |nodes| && nodes[parent].kind == Dir
  {
  }

  /** Looking up one component after another. */
  function Resolve(nodes: seq<Node>, from: nat, comps: Path): Result<Option<nat>>
    decreases |comps|
  {
    if comps == [] then Ok(Some(from))
    else
      var step :- LookupIn(nodes, from, comps[0]);
      if step.None? then Ok(None) else Resolve(nodes, step.value, comps[1..])
  }

  lemma {:induction false} ChildNamedAmong(nodes: seq<Node>, cs: seq<nat>, name: Component)
    requires forall c :: c in cs ==> c < |nodes|
    ensures
      match ChildNamed(nodes, cs, name)
      case Some(c) => c in cs && nodes[c].name == name
      case None => forall c :: c in cs ==> nodes[c].name != name
    decreases |cs|
  {
    if cs != [] {
      forall c | c in cs[1..]
        ensures c < |nodes|
      {
        assert c in cs;
      }
      ChildNamedAmong(nodes, cs[1..], name);
      assert cs == [cs[0]] + cs[1..];
    }
  }

  /** A lookup in a directory finds the node of the extended path, if there is one. */
  lemma {:induction false} LookupFinds(nodes: seq<Node>, ms: seq<Mention>, i: nat, name: Component)
    requires TreeOf(nodes, ms) && i < |nodes| && nodes[i].kind == Dir
    ensures |PathsOf(ms)| == |nodes|
    ensures
      match LookupIn(nodes, i, name)
      case Ok(Some(c)) => c < |nodes| && PathsOf(ms)[c] == PathsOf(ms)[i] + [name]
      case Ok(None) => PathsOf(ms)[i] + [name] !in PathsOf(ms)
      case Err(_) => false
  {
    hide PathsOf, TreeOf;
    Children(nodes, ms, i);
    ChildNamedAmong(nodes, nodes[i].children, name);
    var ps := PathsOf(ms);
    var q := ps[i] + [name];
    if q in ps {
      var c :| 0 <= c < |ps| && ps[c] == q;
      assert Parent(q) == ps[i];
      RootPath(ms);
      assert c in nodes[i].children;
      assert nodes[c].name == name;
    }
  }

  lemma {:induction false} RootPath(ms: seq<Mention>)
    ensures PathsOf(ms) != [] && PathsOf(ms)[0] == []
  {
  }

  /** No prefix of `p` from length `n` on, but `p` itself, is a file. */
  predicate Open(ms: seq<Mention>, p: Path, n: nat) {
    forall k :: n <= k < |p| ==> KindOf(ms, p[..k]) == Dir
  }

  lemma {:induction false} OpenStep(ms: seq<Mention>, p: Path, n: nat)
    requires n <= |p|
    ensures Open(ms, p, |p|)
    ensures n < |p| ==> (Open(ms, p, n) <==> KindOf(ms, p[..n]) == Dir && Open(ms, p, n + 1))
  {
    hide KindOf;
    if n < |p| && KindOf(ms, p[..n]) == Dir && Open(ms, p, n + 1) {
      forall k | n <= k < |p|
        ensures KindOf(ms, p[..k]) == Dir
      {
        assert k == n || n + 1 <= k;
      }
    }
  }

  /** What resolving `comps` from node `i` should give: the node of the path, if it is there and no file is above it. */
  ghost predicate Reaches(nodes: seq<Node>, ms: seq<Mention>, i: nat, comps: Path)
    requires |PathsOf(ms)| == |nodes| && i < |nodes|
  {
    var ps := PathsOf(ms);
    var p := ps[i] + comps;
    match Resolve(nodes, i, comps)
    case Ok(Some(c)) => c < |nodes| && ps[c] == p && Open(ms, p, |ps[i]|)
    case _ => p !in ps || !Open(ms, p, |ps[i]|)
  }

  /** Resolving reaches the node of the path, exactly when the tree has the path and no node above it is a file. */
  lemma {:induction false} ResolveFrom(nodes: seq<Node>, ms: seq<Mention>, i: nat, comps: Path)
    requires TreeOf(nodes, ms) && i < |nodes|
    ensures |PathsOf(ms)| == |nodes| && Reaches(nodes, ms, i, comps)
    decreases |comps|
  {
    hide TreeOf, PathsOf, KindOf, LookupIn, Open, Parent;
    TreeSize(nodes, ms, i);
    var ps := PathsOf(ms);
    var p := ps[i] + comps;
    OpenStep(ms, p, |ps[i]|);
    if comps == [] {
      assert p == ps[i];
    } else {
      var q := ps[i] + [comps[0]];
      assert p[..|ps[i]|] == ps[i];
      assert p == q + comps[1..] && p[..|q|] == q && |q| == |ps[i]| + 1;
      if nodes[i].kind == Dir {
        LookupFinds(nodes, ms, i, comps[0]);
        var step := LookupIn(nodes, i, comps[0]);
        if step.value.Some? {
          ResolveFrom(nodes, ms, step.value.value, comps[1..]);
        } else if p in ps {
          PrefixListed(nodes, ms, p, |q|);
        }
      } else {
        NoLookup(nodes, i, comps[0]);
      }
    }
  }

  lemma {:induction false} TreeSize(nodes: seq<Node>, ms: seq<Mention>, i: nat)
    requires TreeOf(nodes, ms) && i < |nodes|
    ensures |PathsOf(ms)| == |nodes| && nodes[i].kind == KindOf(ms, PathsOf(ms)[i])
  {
    hide PathsOf, KindOf, ChildrenOf, SizeOf, FirstLeaf;
  }

  lemma {:induction false} NoLookup(nodes: seq<Node>, i: nat, name: Component)
    requires i < |nodes| && nodes[i].kind != Dir
    ensures LookupIn(nodes, i, name).Err?
  {
  }

  lemma {:induction false} ParentListed(nodes: seq<Node>, ms: seq<Mention>, p: Path)
    requires TreeOf(nodes, ms) && p in PathsOf(ms) && p != []
    ensures Parent(p) in PathsOf(ms)
  {
    hide PathsOf, ValidMentions, Built, Parent;
    RootPath(ms);
    var ps := PathsOf(ms);
    var j :| 0 <= j < |ps| && ps[j] == p;
    assert Parent(ps[j]) in ps[..j];
  }

  /** With a path the tree has all its prefixes. */
  lemma {:induction false} PrefixListed(nodes: seq<Node>, ms: seq<Mention>, p: Path, n: nat)
    requires TreeOf(nodes, ms) && p in PathsOf(ms) && n <= |p|
    ensures p[..n] in PathsOf(ms)
    decreases |p|
  {
    hide PathsOf, TreeOf;
    if n == |p| {
      assert p[..n] == p;
    } else {
      ParentListed(nodes, ms, p);
      PrefixListed(nodes, ms, Parent(p), n);
      assert Parent(p)[..n] == p[..n];
    }
  }

  /** The first entry under `q` is a file of exactly that path. */
  predicate FileAt(es: seq<Entry>, q: Path) {
    match FirstUnder(es, q)
    case None => false
    case Some(k) => Named(es[k], q) && !NamesDirectory(es[k].name)
  }

  /** A proper, non-empty prefix of `p` is the path of a file. */
  ghost predicate FileAbove(es: seq<Entry>, p: Path) {
    exists n :: 0 < n < |p| && FileAt(es, p[..n])
  }

  lemma {:induction false} OpenIsNoFileAbove(es: seq<Entry>, p: Path)
    requires ValidMentions(AllMentions(es))
    ensures Open(AllMentions(es), p, 0) <==> !FileAbove(es, p)
  {
    hide KindOf, FileAt, AllMentions, ValidMentions;
    var ms := AllMentions(es);
    RootHasNone(ms);
    forall n | 0 < n < |p|
      ensures KindOf(ms, p[..n]) == Dir <==> !FileAt(es, p[..n])
    {
      KindOfEntries(es, p[..n]);
    }
    if |p| > 0 {
      assert p[..0] == [];
    }
  }

  /** The node `c` is reached from the root and is the node of the path `p`. */
  ghost predicate ResolvesTo(nodes: seq<Node>, es: seq<Entry>, p: Path, c: nat) {
    var ps := PathsOf(AllMentions(es));
    c < |nodes| && c < |ps| && ps[c] == p && Resolve(nodes, 0, p) == Ok(Some(c))
  }

  /**
   Resolving an entry's components from the root reaches the node of its path, exactly when no proper
   prefix of the path was first listed as a file.
   */
  lemma {:induction false} EntryResolves(es: seq<Entry>, nodes: seq<Node>, k: nat)
    requires TreeOf(nodes, AllMentions(es)) && k < |es| && Components(es[k].name) != []
    ensures
      (exists c: nat :: ResolvesTo(nodes, es, Components(es[k].name), c)) <==> !FileAbove(es, Components(es[k].name))
  {
    var ms := AllMentions(es);
    NotEmpty(nodes, ms);
    RootPath(ms);
    AnyIsValid(nodes, ms);
    hide PathsOf, Components, AllMentions, FirstUnder, Resolve, TreeOf, FileAbove, Open, ValidMentions;
    var p := Components(es[k].name);
    ResolveFrom(nodes, ms, 0, p);
    assert [] + p == p;
    OpenIsNoFileAbove(es, p);
    UnderItself(es, k);
    PathsAre(es, p);
    if !FileAbove(es, p) {
      var c := Resolve(nodes, 0, p).value.value;
      assert ResolvesTo(nodes, es, p, c);
    }
  }

  /** Whatever else is listed, only entries named as directories stand above others. */
  predicate DirectoriesAbove(es: seq<Entry>) {
    forall j, k :: 0 <= j < |es| && 0 <= k < |es| && Components(es[j].name) < Components(es[k].name) ==>
      Components(es[j].name) == [] || NamesDirectory(es[j].name)
  }

  /** As archivers list directories, every entry that has a path can be reached. */
  lemma {:induction false} AllResolve(es: seq<Entry>, nodes: seq<Node>, k: nat)
    requires TreeOf(nodes, AllMentions(es)) && DirectoriesAbove(es) && k < |es| && Components(es[k].name) != []
    ensures exists c: nat :: ResolvesTo(nodes, es, Components(es[k].name), c)
  {
    hide TreeOf, ResolvesTo, Components, NamesDirectory, AllMentions;
    var p := Components(es[k].name);
    EntryResolves(es, nodes, k);
    forall n | 0 < n < |p|
      ensures !FileAt(es, p[..n])
    {
      var first := FirstUnder(es, p[..n]);
      assert first.Some? && Named(es[first.value], p[..n]) ==> Components(es[first.value].name) < p;
    }
  }

  lemma {:induction false} AnyIsValid(nodes: seq<Node>, ms: seq<Mention>)
    requires TreeOf(nodes, ms)
    ensures ValidMentions(ms)
  {
  }

  lemma {:induction false} UnderItself(es: seq<Entry>, k: nat)
    requires k < |es|
    ensures FirstUnder(es, Components(es[k].name)).Some?
  {
    hide Components;
    assert Under(es[k], Components(es[k].name));
  }

  lemma {:induction false} KindOfEntries(es: seq<Entry>, q: Path)
    requires q != []
    ensures KindOf(AllMentions(es), q) == if FileAt(es, q) then File else Dir
  {
    hide Components, AllMentions, FirstMention, FirstUnder, EndsInSeparator, NamesDirectory;
    DirectoriesNamed();
    FirstsOfEntries(es, q);
  }

  lemma {:induction false} ReachedIs(nodes: seq<Node>, ms: seq<Mention>, p: Path, c: nat)
    requires TreeOf(nodes, ms) && nodes != [] && Resolve(nodes, 0, p) == Ok(Some(c))
    ensures c < |nodes| == |PathsOf(ms)| && PathsOf(ms)[c] == p
  {
    hide TreeOf, PathsOf, Resolve, Open;
    RootPath(ms);
    ResolveFrom(nodes, ms, 0, p);
    assert [] + p == p;
  }

  lemma {:induction false} OnePlace(ms: seq<Mention>, a: nat, b: nat)
    requires a < |PathsOf(ms)| && b < |PathsOf(ms)| && PathsOf(ms)[a] == PathsOf(ms)[b]
    ensures a == b
  {
  }

  lemma {:induction false} PrefixesDiffer(p: Path, q: Path, n: nat, k: nat)
    requires p != [] && q != [] && p[0] != q[0] && n <= |p| && k <= |q|
    ensures p[..n] == q[..k] ==> p[..n] == []
  {
    assert n > 0 ==> p[..n][0] == p[0];
    assert k > 0 ==> q[..k][0] == q[0];
  }

  /**
   Names that differ in their first component share no node but the root: whatever part of each is
   resolved, both lead to the same node only if that is the root.
   */
  lemma {:induction false} NothingShared(nodes: seq<Node>, ms: seq<Mention>, p: Path, q: Path, n: nat, k: nat, c: nat)
    requires TreeOf(nodes, ms) && nodes != [] && p != [] && q != [] && p[0] != q[0] && n <= |p| && k <= |q|
    requires Resolve(nodes, 0, p[..n]) == Ok(Some(c)) && Resolve(nodes, 0, q[..k]) == Ok(Some(c))
    ensures c == 0
  {
    hide TreeOf, PathsOf, Resolve;
    PrefixesDiffer(p, q, n, k);
    ReachedIs(nodes, ms, p[..n], c);
    ReachedIs(nodes, ms, q[..k], c);
    RootPath(ms);
    OnePlace(ms, c, 0);
  }
}
