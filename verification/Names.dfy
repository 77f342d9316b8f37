/** What makes an entry name unsafe to extract: the reader's safe view of it, and what the audit flags. */
module Names {
  import opened Wrappers
  import opened Bytes
  import opened Tree

  const COLON: byte := 0x3A
  const NUL: byte := 0
  const UP: Component := [DOT, DOT]

  predicate Alphabetic(b: byte) {
    (0x41 <= b <= 0x5A) || (0x61 <= b <= 0x7A)
  }

  /** `has_traversal`. */
  predicate HasTraversal(name: seq<byte>) {
    UP in Split(name)
  }

  /** `is_absolute`: a leading separator, or a drive letter. */
  predicate IsAbsolute(name: seq<byte>) {
    (name != [] && Separator(name[0])) || (|name| >= 2 && name[1] == COLON && Alphabetic(name[0]))
  }

  // ----- what these mean --------------------------------------------------------------------------

  /** A slash or a backslash. */
  predicate Divides(b: byte) {
    b == 0x2F || b == 0x5C
  }

  /** The name starts with two dots and nothing else up to a separator or its end. */
  predicate StartsUp(s: seq<byte>) {
    |s| >= 2 && s[0] == 0x2E && s[1] == 0x2E && (|s| == 2 || Divides(s[2]))
  }

  /** One of the name's parts is two dots. */
  predicate Climbs(name: seq<byte>) {
    StartsUp(name) || exists i :: 0 < i <= |name| && UpAt(name, i)
  }

  predicate UpAt(name: seq<byte>, i: nat)
    requires 0 < i <= |name|
  {
    Divides(name[i - 1]) && StartsUp(name[i..])
  }

  /** The name starts with a separator, or with an ASCII letter and a colon. */
  predicate Rooted(name: seq<byte>) {
    || (|name| >= 1 && Divides(name[0]))
    || (|name| >= 2 && (0x41 <= name[0] <= 0x5A || 0x61 <= name[0] <= 0x7A) && name[1] == 0x3A)
  }

  lemma {:induction false} AbsoluteIsRooted(name: seq<byte>)
    ensures IsAbsolute(name) <==> Rooted(name)
  {
  }

  lemma {:induction false} FirstPart(s: seq<byte>)
    ensures Split(s)[0] == UP <==> StartsUp(s)
  {
    HeadPart(s);
    if s != [] && !Separator(s[0]) {
      var t := s[1..];
      HeadPart(t);
      if t != [] && !Separator(t[0]) {
        var v := t[1..];
        HeadPart(v);
        assert v == s[2..];
        assert Split(s)[0] == [s[0], s[1]] + Split(v)[0];
        assert Split(v)[0] == [] ==> Split(s)[0] == [s[0], s[1]];
        assert |UP| == 2 && UP[0] == 0x2E && UP[1] == 0x2E;
        assert v != [] ==> v[0] == s[2];
      } else {
        assert |Split(s)[0]| == 1;
      }
    }
  }

  lemma {:induction false} HeadPart(s: seq<byte>)
    ensures s == [] || Separator(s[0]) ==> Split(s)[0] == []
    ensures s != [] && !Separator(s[0]) ==> Split(s)[0] == [s[0]] + Split(s[1..])[0]
  {
  }

  lemma {:induction false} LaterParts(s: seq<byte>)
    ensures UP in Split(s)[1..] <==> exists i :: 0 < i <= |s| && UpAt(s, i)
    decreases |s|
  {
    hide StartsUp;
    if s != [] {
      var t := s[1..];
      LaterParts(t);
      FirstPart(t);
      forall i | 1 < i <= |s|
        ensures UpAt(s, i) <==> UpAt(t, i - 1)
      {
        assert s[i..] == t[i - 1..] && s[i - 1] == t[i - 2];
      }
      assert UpAt(s, 1) <==> Divides(s[0]) && StartsUp(t);
      LaterStep(s);
    }
  }

  /** Where `..` can stand behind the first part, from one byte on. */
  lemma {:induction false} LaterStep(s: seq<byte>)
    requires s != [] && forall i :: 1 < i <= |s| ==> (UpAt(s, i) <==> UpAt(s[1..], i - 1))
    ensures
      (exists i :: 0 < i <= |s| && UpAt(s, i))
      <==> UpAt(s, 1) || exists i :: 0 < i <= |s[1..]| && UpAt(s[1..], i)
  {
    hide UpAt;
    if i :| 0 < i <= |s| && UpAt(s, i) && i != 1 {
      assert UpAt(s[1..], i - 1);
    }
    if i :| 0 < i <= |s[1..]| && UpAt(s[1..], i) {
      assert UpAt(s, i + 1);
    }
  }

  lemma {:induction false} TraversalClimbs(name: seq<byte>)
    ensures HasTraversal(name) <==> Climbs(name)
  {
    hide StartsUp, UpAt;
    FirstPart(name);
    LaterParts(name);
    assert Split(name) == [Split(name)[0]] + Split(name)[1..];
  }

  /** The path a name can safely be extracted to, if there is one. */
  function Enclosed(name: seq<byte>): Option<Path> {
    if 0 in name || Rooted(name) || Climbs(name) || Components(name) == [] then None
    else Some(Components(name))
  }

  /** `enclosed_name`. */
  method EnclosedName(name: seq<byte>) returns (r: Option<Path>)
    ensures r == Enclosed(name)
  {
    hide Separator, Keeps, Alphabetic, Rooted, Climbs;
    AbsoluteIsRooted(name);
    TraversalClimbs(name);
    if name == [] || NUL in name {
      NoComponents();
      return None;
    }
    if Separator(name[0]) {
      return None;
    }
    if |name| >= 2 && name[1] == COLON && Alphabetic(name[0]) {
      return None;
    }
    var parts := Split(name);
    var out: Path := [];
    for i := 0 to |parts|
      invariant out == Filter(parts[..i]) && UP !in parts[..i]
    {
      OnePartMore(parts, i);
      if parts[i] == UP {
        return None;
      }
      if parts[i] != [] && parts[i] != [DOT] {
        out := out + [parts[i]];
      }
    }
    assert parts[..|parts|] == parts;
    r := if out == [] then None else Some(out);
  }

  lemma {:induction false} NoComponents()
    ensures Components([]) == []
  {
    SplitFree([]);
  }

  lemma {:induction false} OnePartMore(parts: seq<Component>, i: nat)
    requires i < |parts|
    ensures
      Filter(parts[..i + 1]) == Filter(parts[..i]) + if parts[i] != [] && parts[i] != [DOT] then [parts[i]] else []
    ensures UP in parts[..i + 1] <==> UP in parts[..i] || parts[i] == UP
  {
    assert parts[..i + 1] == parts[..i] + [parts[i]];
    FilterConcat(parts[..i], [parts[i]]);
    assert [parts[i]][1..] == [];
  }

  // ----- where a name leads -----------------------------------------------------------------------

  /** One step of a file system from the directory `at`. */
  function Enter(at: Path, part: Component): Path {
    if part == [] || part == [0x2E] then at
    else if part == [0x2E, 0x2E] then (if at == [] then [] else at[..|at| - 1])
    else at + [part]
  }

  /** Where a file system goes from `at` along the parts of a name. */
  function Destination(at: Path, parts: seq<Component>): Path
    decreases |parts|
  {
    if parts == [] then at else Destination(Enter(at, parts[0]), parts[1..])
  }

  lemma {:induction false} StaysBelow(at: Path, parts: seq<Component>)
    requires UP !in parts
    ensures Destination(at, parts) == at + Filter(parts)
    decreases |parts|
  {
    if parts == [] {
      assert at + [] == at;
    } else {
      assert parts[0] in parts && forall x :: x in parts[1..] ==> x in parts;
      StaysBelow(Enter(at, parts[0]), parts[1..]);
      var head := if Keeps(parts[0]) then [parts[0]] else [];
      assert Enter(at, parts[0]) == at + head;
      assert (at + head) + Filter(parts[1..]) == at + (head + Filter(parts[1..]));
    }
  }

  /** A safe name leads from any directory to the directory's own path with the safe path behind it. */
  lemma {:induction false} SafeNamesStayBelow(name: seq<byte>, at: Path)
    requires Enclosed(name).Some?
    ensures Destination(at, Split(name)) == at + Enclosed(name).value && at < Destination(at, Split(name))
  {
    hide Separator, Rooted, Climbs;
    TraversalClimbs(name);
    StaysBelow(at, Split(name));
  }
}
