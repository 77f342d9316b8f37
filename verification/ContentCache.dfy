/**
 The locked content cache of core/src/vfs.rs. `read_at` takes the decoded content of a node under the
 lock and copies from it after the lock is gone, so concurrent calls interleave between those halves.
 */
module ContentCache {
  import opened Wrappers
  import opened Bytes
  import opened Tree

  /** `by_index` and `read_to_end` of an entry: an immutable file gives the same bytes each time. */
  type Decode = nat -> Result<seq<byte>>

  /** The mounted archive as far as reading goes: the node table, and what its entries decode to. */
  datatype Mount = Mount(nodes: seq<Node>, decode: Decode)

  predicate Decodable(m: Mount, id: nat) {
    id < |m.nodes| && m.nodes[id].kind == File && m.nodes[id].entry.Some?
  }

  // ----- what a read is for ---------------------------------------------------------------------

  datatype Request = Request(id: nat, offset: uint64, room: nat)

  /** The reply to a request by decoding the node's entry afresh: no cache is involved. */
  function Direct(m: Mount, q: Request): Result<seq<byte>> {
    if q.id >= |m.nodes| then Err(NoSuchNode(q.id))
    else if !Decodable(m, q.id) then Ok([])
    else
      var data :- m.decode(m.nodes[q.id].entry.value);
      Ok(Window(data, q.offset, q.room))
  }

  /** The bytes `got` of the content from `offset` on: as many as there are and fit. */
  predicate PartOf(got: seq<byte>, data: seq<byte>, offset: nat, room: nat) {
    && (if offset + room <= |data| then |got| == room
        else if offset <= |data| then offset + |got| == |data|
        else got == [])
    && forall i :: 0 <= i < |got| ==> offset + i < |data| && got[i] == data[offset + i]
  }

  /**
   What a reply says: only nodes that do not exist, or whose entry fails to decode, are refused; a directory
   reads as nothing, and a file as the part of its entry's content that was asked for.
   */
  lemma {:induction false} ReplyIs(m: Mount, q: Request)
    ensures q.id >= |m.nodes| ==> Direct(m, q) == Err(NoSuchNode(q.id))
    ensures q.id < |m.nodes| && m.nodes[q.id].kind == Dir ==> Direct(m, q) == Ok([])
    ensures q.id < |m.nodes| && m.nodes[q.id].kind == File && m.nodes[q.id].entry.Some? ==>
      match m.decode(m.nodes[q.id].entry.value)
      case Err(e) => Direct(m, q) == Err(e)
      case Ok(data) => Direct(m, q).Ok? && PartOf(Direct(m, q).value, data, q.offset, q.room)
  {
  }

  // ----- the object -----------------------------------------------------------------------------

  type Cache = map<nat, seq<byte>>

  /** Every cached value is the direct decode of its node's entry; in particular no failure is cached. */
  ghost predicate Coherent(m: Mount, cache: Cache) {
    forall id :: id in cache ==> Decodable(m, id) && m.decode(m.nodes[id].entry.value) == Ok(cache[id])
  }

  /** The half of a call under the lock: the cache after it, and the content or why there is none. */
  function Fetch(m: Mount, cache: Cache, id: nat): (Cache, Result<seq<byte>>)
    requires Decodable(m, id)
  {
    if id in cache then (cache, Ok(cache[id]))
    else
      match m.decode(m.nodes[id].entry.value)
      case Ok(data) => (cache[id := data], Ok(data))
      case Err(e) => (cache, Err(e))
  }

  class ZipVfs {
    const m: Mount
    var cache: Cache

    ghost predicate Valid()
      reads this
    {
      Coherent(m, cache)
    }

    constructor (m: Mount)
      ensures Valid() && this.m == m && cache == map[]
    {
      this.m := m;
      cache := map[];
    }

    /** The half under the lock: decodes at most once a node. */
    method Content(id: nat, entry: nat) returns (r: Result<seq<byte>>)
      requires Valid() && Decodable(m, id) && m.nodes[id].entry.value == entry
      modifies this`cache
      ensures Valid()
      ensures (cache, r) == Fetch(m, old(cache), id)
      ensures r == m.decode(entry)
      ensures cache == if r.Ok? then old(cache)[id := r.value] else old(cache)
    {
      if id in cache {
        assert cache[id := cache[id]] == cache;
        return Ok(cache[id]);
      }
      var decoded := m.decode(entry);
      if decoded.Err? {
        return decoded;
      }
      cache := cache[id := decoded.value];
      r := decoded;
    }

    method ReadAt(id: nat, offset: uint64, buf: array<byte>) returns (r: Result<nat>)
      requires Valid()
      modifies this`cache, buf
      ensures Valid()
      ensures
        match Direct(m, Request(id, offset, buf.Length))
        case Err(e) => r == Err(e)
        case Ok(data) => r == Ok(|data|) && buf[..|data|] == data
      ensures forall k :: (if r.Ok? then r.value else 0) <= k < buf.Length ==> buf[k] == old(buf[k])
    {
      if id >= |m.nodes| {
        return Err(NoSuchNode(id));
      }
      var node := m.nodes[id];
      if node.kind != File || node.entry.None? {
        return Ok(0);
      }
      var data :- Content(id, node.entry.value);
      if offset as nat >= |data| {
        return Ok(0);
      }
      var start := offset as nat;
      var n := if |data| - start <= buf.Length then |data| - start else buf.Length;
      forall k | 0 <= k < n {
        buf[k] := data[start + k];
      }
      r := Ok(n);
    }
  }

  // ----- concurrent calls -----------------------------------------------------------------------

  /** A call that has left the lock with its share of the content, and has not copied yet. */
  datatype Holding = Holding(q: Request, data: seq<byte>)

  datatype Reply = Reply(q: Request, answer: Result<seq<byte>>)

  /** `decoded` lists the nodes whose entries were successfully decoded, in order. */
  datatype System = System(cache: Cache, waiting: map<nat, Holding>, decoded: seq<nat>, replies: seq<Reply>)

  const START := System(map[], map[], [], [])

  datatype Move = Call(thread: nat, q: Request) | Copy(thread: nat)

  /** One atomic move of one thread: the half of a call up to the lock's release, or the rest of it. */
  function Step(m: Mount, s: System, move: Move): System {
    match move
    case Call(t, q) =>
      if t in s.waiting then s
      else if q.id >= |m.nodes| then s.(replies := s.replies + [Reply(q, Err(NoSuchNode(q.id)))])
      else if !Decodable(m, q.id) then s.(replies := s.replies + [Reply(q, Ok([]))])
      else (
        var (cache, content) := Fetch(m, s.cache, q.id);
        match content
        case Err(e) => s.(cache := cache, replies := s.replies + [Reply(q, Err(e))])
        case Ok(data) =>
          s.(cache := cache, decoded := if q.id in s.cache then s.decoded else s.decoded + [q.id],
             waiting := s.waiting[t := Holding(q, data)]))
    case Copy(t) =>
      if t !in s.waiting then s
      else
        var h := s.waiting[t];
        s.(waiting := s.waiting - {t}, replies := s.replies + [Reply(h.q, Ok(Window(h.data, h.q.offset, h.q.room)))])
  }

  function Run(m: Mount, moves: seq<Move>): System {
    if moves == [] then START else Step(m, Run(m, moves[..|moves| - 1]), moves[|moves| - 1])
  }

  /** What a thread holds is the direct decode of the node it asked for. */
  ghost predicate Holds(m: Mount, h: Holding) {
    Decodable(m, h.q.id) && m.decode(m.nodes[h.q.id].entry.value) == Ok(h.data)
  }

  ghost predicate Faithful(m: Mount, s: System) {
    && Coherent(m, s.cache)
    && (forall t :: t in s.waiting ==> Holds(m, s.waiting[t]))
    && (forall i :: 0 <= i < |s.replies| ==> s.replies[i].answer == Direct(m, s.replies[i].q))
  }

  /** The cached nodes are those decoded, each decoded once. */
  ghost predicate DecodedOnce(s: System) {
    && (forall id :: id in s.decoded <==> id in s.cache)
    && (forall i, j :: 0 <= i < j < |s.decoded| ==> s.decoded[i] != s.decoded[j])
  }

  lemma {:induction false} StepFaithful(m: Mount, s: System, move: Move)
    requires Faithful(m, s)
    ensures Faithful(m, Step(m, s, move))
  {
    hide Window;
  }

  lemma {:induction false} StepDecodesOnce(m: Mount, s: System, move: Move)
    requires DecodedOnce(s)
    ensures DecodedOnce(Step(m, s, move))
  {
  }

  /**
   However calls interleave: every reply is that of a direct decode, every cached value too, and no
   entry is decoded successfully twice.
   */
  lemma {:induction false} EveryInterleaving(m: Mount, moves: seq<Move>)
    ensures Faithful(m, Run(m, moves)) && DecodedOnce(Run(m, moves))
    decreases |moves|
  {
    hide Step, Faithful, DecodedOnce;
    if moves == [] {
      Started(m);
    } else {
      EveryInterleaving(m, moves[..|moves| - 1]);
      StepFaithful(m, Run(m, moves[..|moves| - 1]), moves[|moves| - 1]);
      StepDecodesOnce(m, Run(m, moves[..|moves| - 1]), moves[|moves| - 1]);
    }
  }

  lemma {:induction false} Started(m: Mount)
    ensures Faithful(m, START) && DecodedOnce(START)
  {
  }

  // ----- reading a node piece by piece ----------------------------------------------------------

  function Concat(pieces: seq<seq<byte>>): seq<byte> {
    if pieces == [] then [] else pieces[0] + Concat(pieces[1..])
  }

  /** The replies to one read after another, each at the offset the ones before it reached. */
  function Pieces(data: seq<byte>, offset: nat, rooms: seq<nat>): (r: seq<seq<byte>>)
    ensures |r| == |rooms|
    decreases |rooms|
  {
    if rooms == [] then []
    else
      var piece := Window(data, offset, rooms[0]);
      [piece] + Pieces(data, offset + |piece|, rooms[1..])
  }

  function Sum(rooms: seq<nat>): nat {
    if rooms == [] then 0 else rooms[0] + Sum(rooms[1..])
  }

  /** Whatever the buffer sizes, the pieces join to the content from the first offset on. */
  lemma {:induction false} PiecesJoin(data: seq<byte>, offset: nat, rooms: seq<nat>)
    requires offset <= |data|
    ensures Concat(Pieces(data, offset, rooms)) == Window(data, offset, Sum(rooms))
    decreases |rooms|
  {
    if rooms != [] {
      var piece := Window(data, offset, rooms[0]);
      PiecesJoin(data, offset + |piece|, rooms[1..]);
      assert Pieces(data, offset, rooms)[1..] == Pieces(data, offset + |piece|, rooms[1..]);
      assert offset + |piece| < |data| ==> |piece| == rooms[0];
    }
  }

  lemma {:induction false} NonEmptyRooms(rooms: seq<nat>)
    requires forall i :: 0 <= i < |rooms| ==> rooms[i] > 0
    ensures Sum(rooms) >= |rooms|
    decreases |rooms|
  {
    if rooms != [] {
      NonEmptyRooms(rooms[1..]);
    }
  }

  /**
   With non-empty buffers a read comes back empty exactly when everything has been read, so the loop
   "read until nothing comes" ends, with the whole content.
   */
  lemma {:induction false} Reassembles(data: seq<byte>, rooms: seq<nat>, last: nat)
    requires (forall i :: 0 <= i < |rooms| ==> rooms[i] > 0) && last > 0
    ensures
      var got := Concat(Pieces(data, 0, rooms));
      got <= data && (Window(data, |got|, last) == [] <==> got == data)
    ensures |rooms| >= |data| ==> Concat(Pieces(data, 0, rooms)) == data
  {
    hide Pieces, Concat;
    PiecesJoin(data, 0, rooms);
    NonEmptyRooms(rooms);
    var got := Concat(Pieces(data, 0, rooms));
    if |got| == |data| {
      assert got == data;
    }
  }
}
