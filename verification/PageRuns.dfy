/** Runs of the memory-mapping page cache, seen by a client that knows its own calls and their results only. */
module PageRuns {
  import opened Links
  import opened Options
  import opened PageCache

  datatype Call =
    | InsertCall(k: Key, frame: nat)
    | LookupCall(k: Key)
    | HoldCall(k: Key)
    | DirtyCall(k: Key)
    | RemoveCall(k: Key)
    | EvictCall(n: nat)
    | ShrinkCall(n: nat)
    | InvalidateCall(inode: nat)

  /**
   What the client can say of a page: not cached; cached with this frame or not at
   all; cached with it, perhaps marked dirty; cached with it and referenced.
   */
  datatype Past = Absent | Perhaps(frame: nat) | Present(frame: nat, dirty: bool) | Held(frame: nat)

  /** The result of a call is the frame of the entry it met, if any. */
  function Learn(past: Past, call: Call, out: Option<nat>, k: Key): Past {
    match call
    case InsertCall(j, _) => if j == k then Seen(past, out) else Reclaimed(past, false)
    case LookupCall(j) => if j == k then Seen(past, out) else past
    case HoldCall(j) => if j != k then past else if out.Some? then Held(out.value) else Absent
    case DirtyCall(j) => if j == k then Marked(past, out) else past
    case RemoveCall(j) => if j == k then Absent else past
    case EvictCall(_) => Reclaimed(past, false)
    case ShrinkCall(_) => Reclaimed(past, true)
    case InvalidateCall(inode) => if k.inode == inode then Absent else past
  }

  function Seen(past: Past, out: Option<nat>): Past {
    if past.Held? || past.Present? then past else if out.Some? then Present(out.value, false) else Absent
  }

  function Marked(past: Past, out: Option<nat>): Past {
    if past.Held? then past else if out.Some? then Present(out.value, true) else Absent
  }

  /** Evictions may take any page that is not referenced, a shrink only clean ones. */
  function Reclaimed(past: Past, shrink: bool): Past {
    if past.Present? && !(shrink && past.dirty) then Perhaps(past.frame) else past
  }

  function History(calls: seq<Call>, outs: seq<Option<nat>>, k: Key): Past
    requires |calls| == |outs|
  {
    if calls == [] then Absent
    else
      var n := |calls| - 1;
      Learn(History(calls[..n], outs[..n], k), calls[n], outs[n], k)
  }

  /** What a call may return after such a past. */
  predicate Found(past: Past, out: Option<nat>) {
    match past
    case Absent => out == None
    case Perhaps(frame) => out == None || out == Some(frame)
    case Present(frame, _) => out == Some(frame)
    case Held(frame) => out == Some(frame)
  }

  /** An insertion may also have put its own frame in, where the page was not cached. */
  predicate Inserted(past: Past, frame: nat, out: Option<nat>) {
    Found(past, out) || ((past.Absent? || past.Perhaps?) && (out == Some(frame) || out == None))
  }

  predicate Allowed(calls: seq<Call>, outs: seq<Option<nat>>, i: nat)
    requires |calls| == |outs| && i < |calls|
  {
    match calls[i]
    case InsertCall(k, frame) => Inserted(History(calls[..i], outs[..i], k), frame, outs[i])
    case LookupCall(k) => Found(History(calls[..i], outs[..i], k), outs[i])
    case HoldCall(k) => Found(History(calls[..i], outs[..i], k), outs[i])
    case DirtyCall(k) => Found(History(calls[..i], outs[..i], k), outs[i])
    case RemoveCall(k) => Found(History(calls[..i], outs[..i], k), outs[i])
    case _ => outs[i] == None
  }

  // ---- the cache keeps what the client knows ----------------------------------------------------------

  predicate Holds(v: View, p: Pool, k: Key, frame: nat)
    requires k in v.index
  {
    v.index[k] < |p.phys| && v.index[k] < |p.refCount| && p.phys[v.index[k]] == frame && p.refCount[v.index[k]] >= 1
  }

  predicate IsDirty(p: Pool, e: nat) {
    e < |p.dirty| && p.dirty[e]
  }

  predicate Agrees(v: View, p: Pool, k: Key, past: Past) {
    match past
    case Absent => k !in v.index
    case Perhaps(frame) => k in v.index ==> Holds(v, p, k, frame)
    case Present(frame, dirty) => k in v.index && Holds(v, p, k, frame) && (dirty ==> IsDirty(p, v.index[k]))
    case Held(frame) => k in v.index && Holds(v, p, k, frame) && p.refCount[v.index[k]] > 1
  }

  ghost predicate Knows(v: View, p: Pool, calls: seq<Call>, outs: seq<Option<nat>>)
    requires |calls| == |outs|
  {
    forall k: Key :: Agrees(v, p, k, History(calls, outs, k))
  }

  /** Every page is known after the step as it was before, as far as the call says. */
  ghost predicate Follows(v: View, p: Pool, v': View, p': Pool, call: Call, out: Option<nat>) {
    forall k: Key, past: Past {:trigger Agrees(v, p, k, past)} | Agrees(v, p, k, past) ::
      Agrees(v', p', k, Learn(past, call, out, k))
  }

  lemma KnowsMore(v: View, p: Pool, v': View, p': Pool, calls: seq<Call>, outs: seq<Option<nat>>, call: Call,
                  out: Option<nat>)
    requires |calls| == |outs| && Knows(v, p, calls, outs) && Follows(v, p, v', p', call, out)
    ensures Knows(v', p', calls + [call], outs + [out])
  {
    hide Agrees, Learn;
    forall k: Key
      ensures Agrees(v', p', k, History(calls + [call], outs + [out], k))
    {
      assert (calls + [call])[..|calls|] == calls && (outs + [out])[..|outs|] == outs;
      assert Agrees(v, p, k, History(calls, outs, k));
    }
  }

  /** The frame a lookup of `k` finds. */
  function FrameOf(v: View, p: Pool, k: Key): Option<nat> {
    if k in v.index && v.index[k] < |p.phys| then Some(p.phys[v.index[k]]) else None
  }

  lemma LookupFollows(v: View, p: Pool, v': View, p': Pool, k: Key)
    requires v'.index == v.index && p'.phys == p.phys && p'.refCount == p.refCount && p'.dirty == p.dirty
    ensures Follows(v, p, v', p', LookupCall(k), FrameOf(v, p, k))
    ensures forall past | Agrees(v, p, k, past) :: Found(past, FrameOf(v, p, k))
  {
  }

  lemma HoldFollows(v: View, p: Pool, v': View, p': Pool, k: Key)
    requires v'.index == v.index && p'.phys == p.phys && |p.refCount| == |p'.refCount| && p'.dirty == p.dirty
    requires k in v.index ==> v.index[k] < |p.phys| == |p.refCount|
    requires forall e | 0 <= e < |p.refCount| ::
               p'.refCount[e] == p.refCount[e] + if k in v.index && v.index[k] == e then 1 else 0
    ensures Follows(v, p, v', p', HoldCall(k), FrameOf(v, p, k))
    ensures forall past | Agrees(v, p, k, past) :: Found(past, FrameOf(v, p, k))
  {
  }

  lemma DirtyFollows(v: View, p: Pool, v': View, p': Pool, k: Key)
    requires v'.index == v.index && p'.phys == p.phys && p'.refCount == p.refCount && |p'.dirty| == |p.dirty|
    requires k in v.index ==> v.index[k] < |p.phys| == |p.dirty|
    requires forall e | 0 <= e < |p.dirty| :: p'.dirty[e] == (p.dirty[e] || (k in v.index && v.index[k] == e))
    ensures Follows(v, p, v', p', DirtyCall(k), FrameOf(v, p, k))
    ensures forall past | Agrees(v, p, k, past) :: Found(past, FrameOf(v, p, k))
  {
  }

  lemma RemoveFollows(v: View, p: Pool, v': View, p': Pool, k: Key)
    requires v'.index == v.index - {k} && p'.phys == p.phys && p'.refCount == p.refCount && p'.dirty == p.dirty
    ensures Follows(v, p, v', p', RemoveCall(k), FrameOf(v, p, k))
    ensures forall past | Agrees(v, p, k, past) :: Found(past, FrameOf(v, p, k))
  {
  }

  /** Referenced pages survive evictions, and dirty ones a shrink. */
  lemma EvictFollows(v: View, p: Pool, v': View, n: nat, skipDirty: bool, j: Key, past: Past)
    requires Sized(p) && Indexed(v.index, p.keys, v.order) && Indexed(v'.index, p.keys, v'.order)
    requires v'.order == EvictedOrder(v.order, n, p, skipDirty) && Agrees(v, p, j, past)
    ensures Survivors(v.index, v'.index, v'.order) && Agrees(v', p, j, Reclaimed(past, skipDirty))
  {
    hide EvictedOrder;
    EvictKeeps(v.order, n, p, skipDirty);
    FewerSurvivors(p.keys, v.order, v.index, v'.order, v'.index);
  }

  /** An insertion touches no other page but by eviction. */
  lemma InsertFollows(v: View, p: Pool, v': View, p': Pool, k: Key, frame: nat, e: nat, j: Key, past: Past)
    requires Indexed(v.index, p.keys, v.order) && Indexed(v'.index, p'.keys, v'.order) && Agrees(v, p, j, past)
    requires k !in v.index && k in v'.index && v'.index[k] == e && Entered(p, p', k, frame, e)
    requires v'.order == [e] + (if Full(v.order) then EvictedOrder(v.order, 4, p, false) else v.order)
    requires Survivors(v.index, v'.index - {k}, v'.order[1..])
    ensures Agrees(v', p', j, Learn(past, InsertCall(k, frame), Some(frame), j))
    ensures j == k ==> Inserted(past, frame, Some(frame))
  {
    hide EvictedOrder, Full, Indexed;
    if j != k {
      hide Entered, Agrees, Survivors;
      if past.Held? { HeldStays(v, p, v'.order[1..], j, past.frame); }
      OtherEntry(v, p, v', p', k, frame, e, j);
      OtherAgrees(v, p, v', p', k, frame, e, j, past);
    }
  }

  lemma HeldStays(v: View, p: Pool, order: seq<nat>, j: Key, frame: nat)
    requires Sized(p) && Indexed(v.index, p.keys, v.order) && Agrees(v, p, j, Held(frame))
    requires order == if Full(v.order) then EvictedOrder(v.order, 4, p, false) else v.order
    ensures v.index[j] in order
  {
    hide EvictedOrder, Full;
    EvictKeeps(v.order, 4, p, false);
  }

  lemma OtherEntry(v: View, p: Pool, v': View, p': Pool, k: Key, frame: nat, e: nat, j: Key)
    requires Indexed(v'.index, p'.keys, v'.order) && Entered(p, p', k, frame, e) && j != k
    requires v'.order != [] && Survivors(v.index, v'.index - {k}, v'.order[1..])
    ensures j in v'.index ==> j in v.index && v'.index[j] == v.index[j] != e
    ensures j in v.index && v.index[j] in v'.order[1..] ==> j in v'.index
  {
    assert j in v'.index <==> j in v'.index - {k};
  }

  lemma OtherAgrees(v: View, p: Pool, v': View, p': Pool, k: Key, frame: nat, e: nat, j: Key, past: Past)
    requires Agrees(v, p, j, past) && Entered(p, p', k, frame, e)
    requires j in v'.index ==> j in v.index && v'.index[j] == v.index[j] != e
    requires past.Held? ==> j in v'.index
    ensures Agrees(v', p', j, Reclaimed(past, false))
  {
  }

  lemma {:induction false} KeepMember(order: seq<nat>, keys: seq<Key>, inode: nat, d: nat)
    requires d in order && d < |keys| && keys[d].inode != inode
    ensures d in Keep(order, keys, inode)
  {
    if order[0] != d { KeepMember(order[1..], keys, inode, d); }
  }

  lemma {:induction false} KeepSubset(order: seq<nat>, keys: seq<Key>, inode: nat)
    ensures forall d | d in Keep(order, keys, inode) :: d in order
  {
    if order != [] { KeepSubset(order[1..], keys, inode); }
  }

  lemma InvalidateFollows(v: View, p: Pool, v': View, inode: nat, j: Key, past: Past)
    requires Indexed(v.index, p.keys, v.order) && Indexed(v'.index, p.keys, v'.order) && Agrees(v, p, j, past)
    requires v'.order == Keep(v.order, p.keys, inode) && NoInode(v'.order, p.keys, inode)
    ensures Agrees(v', p, j, Learn(past, InvalidateCall(inode), None, j))
  {
    hide Keep;
    KeepSubset(v.order, p.keys, inode);
    FewerSurvivors(p.keys, v.order, v.index, v'.order, v'.index);
    if j in v.index && j.inode != inode {
      KeepMember(v.order, p.keys, inode, v.index[j]);
    }
  }

  // ---- the calls ----------------------------------------------------------------------------------------

  lemma Facts(p: Pool, clock: nat, v: View)
    requires PoolValid(p, clock, v)
    ensures Sized(p) && Indexed(v.index, p.keys, v.order)
    ensures forall k | k in v.index :: v.index[k] < POOL && p.keys[v.index[k]] == k
  {
    hide Members, Aged, Balanced;
  }

  method Insert(c: Cache, k: Key, frame: nat) returns (out: Option<nat>)
    requires c.Valid()
    modifies c
    ensures c.Valid() && Follows(old(c.v), old(c.pool), c.v, c.pool, InsertCall(k, frame), out)
    ensures forall past | Agrees(old(c.v), old(c.pool), k, past) :: Inserted(past, frame, out)
  {
    hide LruValid, TableValid, PoolValid, Agrees, Indexed, Survivors, Entered, EvictedOrder, Full, VictimOf;
    ghost var v, p := c.v, c.pool;
    Facts(p, c.clock, v);
    var e := c.Insert(k, frame);
    Facts(c.pool, c.clock, c.v);
    if e == NULL {
      out := None;
      InsertNothing(v, p, c.v, k, frame);
    } else {
      out := Some(c.pool.phys[e]);
      if k in v.index {
        InsertFound(v, p, c.v, c.pool, k, frame);
      } else {
        EnteredFrame(p, c.pool, k, frame, e);
        forall j: Key, past: Past | Agrees(v, p, j, past)
          ensures Agrees(c.v, c.pool, j, Learn(past, InsertCall(k, frame), Some(frame), j))
          ensures j == k ==> Inserted(past, frame, Some(frame))
        {
          InsertFollows(v, p, c.v, c.pool, k, frame, e, j, past);
        }
      }
    }
  }

  lemma EnteredFrame(p: Pool, p': Pool, k: Key, frame: nat, e: nat)
    requires Entered(p, p', k, frame, e)
    ensures p'.phys[e] == frame
  {
  }

  lemma InsertNothing(v: View, p: Pool, v': View, k: Key, frame: nat)
    requires k !in v.index && v'.index == v.index
    ensures Follows(v, p, v', p, InsertCall(k, frame), None)
    ensures forall past | Agrees(v, p, k, past) :: Inserted(past, frame, None)
  {
  }

  lemma InsertFound(v: View, p: Pool, v': View, p': Pool, k: Key, frame: nat)
    requires k in v.index && v.index[k] < |p.phys| && v'.index == v.index && p'.phys == p.phys
    requires p'.refCount == p.refCount && p'.dirty == p.dirty
    ensures Follows(v, p, v', p', InsertCall(k, frame), Some(p.phys[v.index[k]]))
    ensures forall past | Agrees(v, p, k, past) :: Inserted(past, frame, Some(p.phys[v.index[k]]))
  {
  }

  method Lookup(c: Cache, k: Key) returns (out: Option<nat>)
    requires c.Valid()
    modifies c
    ensures c.Valid() && Follows(old(c.v), old(c.pool), c.v, c.pool, LookupCall(k), out)
    ensures forall past | Agrees(old(c.v), old(c.pool), k, past) :: Found(past, out)
  {
    hide LruValid, TableValid, PoolValid, Agrees, Indexed;
    Facts(c.pool, c.clock, c.v);
    var e := c.Lookup(k);
    LookupFollows(old(c.v), old(c.pool), c.v, c.pool, k);
    out := if e == NULL then None else Some(c.pool.phys[e]);
  }

  /** A lookup that takes a reference, as a fault on a mapped page does. */
  method Hold(c: Cache, k: Key) returns (out: Option<nat>)
    requires c.Valid()
    modifies c
    ensures c.Valid() && Follows(old(c.v), old(c.pool), c.v, c.pool, HoldCall(k), out)
    ensures forall past | Agrees(old(c.v), old(c.pool), k, past) :: Found(past, out)
  {
    hide LruValid, TableValid, PoolValid, Agrees, Indexed;
    Facts(c.pool, c.clock, c.v);
    var e := c.Lookup(k);
    if e == NULL {
      out := None;
    } else {
      out := Some(c.pool.phys[e]);
      assert c.v.order[0] == e;
      c.AddRef(e, 0);
    }
    HoldFollows(old(c.v), old(c.pool), c.v, c.pool, k);
  }

  /** A lookup that marks the page, as a write to a mapped page does. */
  method MarkDirty(c: Cache, k: Key) returns (out: Option<nat>)
    requires c.Valid()
    modifies c
    ensures c.Valid() && Follows(old(c.v), old(c.pool), c.v, c.pool, DirtyCall(k), out)
    ensures forall past | Agrees(old(c.v), old(c.pool), k, past) :: Found(past, out)
  {
    hide LruValid, TableValid, PoolValid, Agrees, Indexed;
    Facts(c.pool, c.clock, c.v);
    var e := c.Lookup(k);
    if e == NULL {
      out := None;
    } else {
      out := Some(c.pool.phys[e]);
      assert c.v.order[0] == e;
      c.MarkDirty(e, 0);
    }
    DirtyFollows(old(c.v), old(c.pool), c.v, c.pool, k);
  }

  method Remove(c: Cache, k: Key) returns (out: Option<nat>)
    requires c.Valid()
    modifies c
    ensures c.Valid() && Follows(old(c.v), old(c.pool), c.v, c.pool, RemoveCall(k), out)
    ensures forall past | Agrees(old(c.v), old(c.pool), k, past) :: Found(past, out)
  {
    hide LruValid, TableValid, PoolValid, Agrees, Indexed;
    Facts(c.pool, c.clock, c.v);
    var e := c.Lookup(k);
    if e == NULL {
      out := None;
    } else {
      out := Some(c.pool.phys[e]);
      assert c.v.order[0] == e;
      Facts(c.pool, c.clock, c.v);
      c.Remove(e, 0);
    }
    RemoveFollows(old(c.v), old(c.pool), c.v, c.pool, k);
  }

  method Reclaim(c: Cache, n: nat, shrink: bool) returns (ghost call: Call)
    requires c.Valid()
    modifies c
    ensures c.Valid() && call == (if shrink then ShrinkCall(n) else EvictCall(n))
    ensures Follows(old(c.v), old(c.pool), c.v, c.pool, call, None)
  {
    hide LruValid, TableValid, PoolValid, Agrees, Indexed, Survivors, EvictedOrder, VictimOf;
    ghost var v, p := c.v, c.pool;
    Facts(p, c.clock, v);
    call := if shrink then ShrinkCall(n) else EvictCall(n);
    if shrink {
      var freed := c.Shrink(n);
    } else {
      var evicted := c.Evict(n);
    }
    Facts(c.pool, c.clock, c.v);
    forall j: Key, past: Past | Agrees(v, p, j, past)
      ensures Agrees(c.v, c.pool, j, Reclaimed(past, shrink))
    {
      EvictFollows(v, p, c.v, n, shrink, j, past);
    }
  }

  method Invalidate(c: Cache, inode: nat)
    requires c.Valid()
    modifies c
    ensures c.Valid() && Follows(old(c.v), old(c.pool), c.v, c.pool, InvalidateCall(inode), None)
  {
    hide LruValid, TableValid, PoolValid, Agrees, Indexed, Keep, NoInode;
    ghost var v, p := c.v, c.pool;
    Facts(p, c.clock, v);
    c.InvalidateInode(inode);
    Facts(c.pool, c.clock, c.v);
    forall j: Key, past: Past | Agrees(v, p, j, past)
      ensures Agrees(c.v, c.pool, j, Learn(past, InvalidateCall(inode), None, j))
    {
      InvalidateFollows(v, p, c.v, inode, j, past);
    }
  }

  /** Any run of calls: what each returns is what the client's own history allows. */
  method Run(calls: seq<Call>) returns (c: Cache, outs: seq<Option<nat>>)
    ensures fresh(c) && c.Valid() && |outs| == |calls| && Knows(c.v, c.pool, calls, outs)
    ensures forall i: nat | i < |calls| :: Allowed(calls, outs, i)
  {
    hide LruValid, TableValid, PoolValid, Agrees, Follows, Learn, History, Knows, Allowed;
    c := new Cache();
    outs := [];
    KnowsNothing(c.v, c.pool);
    for i := 0 to |calls|
      invariant fresh(c) && c.Valid() && |outs| == i && Knows(c.v, c.pool, calls[..i], outs)
      invariant forall j: nat | j < i :: Allowed(calls[..i], outs, j)
    {
      var out := Perform(c, calls[i], calls[..i], outs);
      assert calls[..i + 1] == calls[..i] + [calls[i]];
      AllowedMore(calls[..i], outs, calls[i], out);
      outs := outs + [out];
    }
    assert calls[..|calls|] == calls;
  }

  lemma KnowsNothing(v: View, p: Pool)
    requires v.index == map[]
    ensures Knows(v, p, [], [])
  {
  }

  lemma AllowedMore(calls: seq<Call>, outs: seq<Option<nat>>, call: Call, out: Option<nat>)
    requires |calls| == |outs| && forall j: nat | j < |calls| :: Allowed(calls, outs, j)
    requires Allowed(calls + [call], outs + [out], |calls|)
    ensures forall j: nat | j <= |calls| :: Allowed(calls + [call], outs + [out], j)
  {
    hide Found, Inserted, History;
    forall j: nat | j < |calls|
      ensures Allowed(calls + [call], outs + [out], j)
    {
      assert (calls + [call])[..j] == calls[..j] && (outs + [out])[..j] == outs[..j];
      assert Allowed(calls, outs, j);
    }
  }

  method Perform(c: Cache, call: Call, ghost calls: seq<Call>, ghost outs: seq<Option<nat>>) returns (out: Option<nat>)
    requires c.Valid() && |calls| == |outs| && Knows(c.v, c.pool, calls, outs)
    modifies c
    ensures c.Valid() && Knows(c.v, c.pool, calls + [call], outs + [out])
    ensures Allowed(calls + [call], outs + [out], |calls|)
  {
    hide LruValid, TableValid, PoolValid, Agrees, Follows, Learn, History, Found, Inserted;
    ghost var v, p := c.v, c.pool;
    out := None;
    match call {
      case InsertCall(k, frame) => out := Insert(c, k, frame);
      case LookupCall(k) => out := Lookup(c, k);
      case HoldCall(k) => out := Hold(c, k);
      case DirtyCall(k) => out := MarkDirty(c, k);
      case RemoveCall(k) => out := Remove(c, k);
      case EvictCall(n) => ghost var done := Reclaim(c, n, false);
      case ShrinkCall(n) => ghost var done := Reclaim(c, n, true);
      case InvalidateCall(inode) => Invalidate(c, inode);
    }
    KnowsMore(v, p, c.v, c.pool, calls, outs, call, out);
    assert (calls + [call])[..|calls|] == calls && (outs + [out])[..|outs|] == outs;
  }
}
