/**
 The page cache of kernel/fs_cache.c seen from outside: a map from page to
 contents with a recency order, and what it guarantees over any run.
 */
module CacheSpec {
  import opened Bytes
  import opened Links
  import opened Options

  const CAPACITY: nat := 1024

  datatype Key = Key(file: nat, page: nat)

  datatype Page = Page(bytes: seq<byte>, dirty: bool, locked: bool)

  /** The cached pages and their keys, most recently used first. */
  datatype State = State(pages: map<Key, Page>, order: seq<Key>)

  const EMPTY: State := State(map[], [])

  // ---- operations ---------------------------------------------------------------------

  /** A lookup makes the page the most recently used one. */
  function Find(s: State, k: Key): State {
    if k in s.pages then s.(order := [k] + Without(s.order, k)) else s
  }

  function Drop(s: State, k: Key): State {
    State(s.pages - {k}, Without(s.order, k))
  }

  predicate Evictable(pages: map<Key, Page>, k: Key) {
    k in pages && !pages[k].dirty && !pages[k].locked
  }

  /** The least recently used page that is clean and not locked. */
  function Victim(pages: map<Key, Page>, order: seq<Key>): Option<Key> {
    if order == [] then None
    else if Evictable(pages, order[|order| - 1]) then Some(order[|order| - 1])
    else Victim(pages, order[..|order| - 1])
  }

  function Insert(s: State, k: Key, bytes: seq<byte>): State {
    State(s.pages[k := Page(bytes, true, false)], [k] + s.order)
  }

  /** The state after room has been made for one page, if it can be. */
  function MakeRoom(s: State): Option<State> {
    if |s.order| < CAPACITY then Some(s)
    else match Victim(s.pages, s.order)
      case None => None
      case Some(v) => Some(Drop(s, v))
  }

  /** `allocOk` says whether kmalloc has a page; the result is whether the write took place. */
  function Write(s: State, k: Key, bytes: seq<byte>, allocOk: bool): (State, bool) {
    if k in s.pages then
      var f := Find(s, k);
      (f.(pages := f.pages[k := f.pages[k].(bytes := bytes, dirty := true)]), true)
    else match MakeRoom(s)
      case None => (s, false)
      case Some(t) => if allocOk then (Insert(t, k, bytes), true) else (t, false)
  }

  function Read(s: State, k: Key): (State, Option<seq<byte>>) {
    (Find(s, k), if k in s.pages then Some(s.pages[k].bytes) else None)
  }

  function Flush(s: State, k: Key): State {
    var f := Find(s, k);
    if k in s.pages && s.pages[k].dirty
    then f.(pages := f.pages[k := f.pages[k].(dirty := false, locked := false)])
    else f
  }

  function Invalidate(s: State, k: Key): State {
    if k in s.pages then Drop(s, k) else s
  }

  // ---- runs ------------------------------------------------------------------------------

  datatype Op =
    | OpWrite(k: Key, bytes: seq<byte>, allocOk: bool)
    | OpRead(k: Key)
    | OpFlush(k: Key)
    | OpInvalidate(k: Key)

  function Step(s: State, op: Op): State {
    match op
    case OpWrite(k, bytes, allocOk) => Write(s, k, bytes, allocOk).0
    case OpRead(k) => Read(s, k).0
    case OpFlush(k) => Flush(s, k)
    case OpInvalidate(k) => Invalidate(s, k)
  }

  function Run(ops: seq<Op>): State {
    if ops == [] then EMPTY else Step(Run(ops[..|ops| - 1]), ops[|ops| - 1])
  }

  /** Every page of a full cache holds unwritten data, so none can be given up. */
  predicate AllDirty(s: State) {
    |s.order| == CAPACITY && forall k | k in s.pages :: s.pages[k].dirty
  }

  /**
   When a write takes place: the page is cached, or kmalloc has a page and there is room or a
   clean page to give up.
   */
  predicate Takes(s: State, k: Key, allocOk: bool) {
    k in s.pages || (allocOk && !AllDirty(s))
  }

  /** What a client knows of a page from its own calls and their results. */
  datatype Past = Absent | Clean(bytes: seq<byte>) | Dirty(bytes: seq<byte>)

  function Learn(s: State, op: Op, k: Key, past: Past): Past {
    if op.k != k then past
    else match op
      case OpWrite(_, bytes, allocOk) => if Takes(s, k, allocOk) then Dirty(bytes) else past
      case OpRead(_) => past
      case OpFlush(_) => if past.Dirty? then Clean(past.bytes) else past
      case OpInvalidate(_) => Absent
  }

  function History(ops: seq<Op>, k: Key): Past {
    if ops == [] then Absent
    else Learn(Run(ops[..|ops| - 1]), ops[|ops| - 1], k, History(ops[..|ops| - 1], k))
  }

  /** The number of the last call that used page `k`; 0 if none did. */
  function LastUse(ops: seq<Op>, k: Key): nat {
    if ops == [] then 0
    else if ops[|ops| - 1].k == k && k in Run(ops).pages then |ops|
    else LastUse(ops[..|ops| - 1], k)
  }

  // ---- what every state satisfies -----------------------------------------------------------

  ghost predicate WellFormed(s: State) {
    && Distinct(s.order)
    && (forall k :: k in s.order <==> k in s.pages)
    && |s.order| <= CAPACITY
    && (forall k | k in s.pages :: !s.pages[k].locked)
  }

  lemma {:induction false} WithoutMembers(order: seq<Key>, k: Key)
    requires Distinct(order)
    ensures Distinct(Without(order, k))
    ensures forall j :: j in Without(order, k) <==> j in order && j != k
    ensures |Without(order, k)| == |order| - if k in order then 1 else 0
  {
    if order != [] {
      var r := order[1..];
      assert order == [order[0]] + r && order[0] !in r;
      WithoutMembers(r, k);
      if order[0] == k { WithoutAbsent(r, k); }
    }
  }

  lemma {:induction false} WithoutAbsent(order: seq<Key>, k: Key)
    requires k !in order
    ensures Without(order, k) == order
  {
    if order != [] {
      assert order == [order[0]] + order[1..];
      WithoutAbsent(order[1..], k);
    }
  }

  /** The victim is clean and unlocked, and every less recently used page is dirty or locked. */
  lemma {:induction false} VictimIsLru(pages: map<Key, Page>, order: seq<Key>) returns (i: nat)
    ensures Victim(pages, order).None? ==> i == 0 && forall j | 0 <= j < |order| :: !Evictable(pages, order[j])
    ensures Victim(pages, order).Some? ==>
              && i < |order| && order[i] == Victim(pages, order).value && Evictable(pages, order[i])
              && forall j | i < j < |order| :: !Evictable(pages, order[j])
  {
    if order == [] {
      i := 0;
    } else if Evictable(pages, order[|order| - 1]) {
      i := |order| - 1;
    } else {
      i := VictimIsLru(pages, order[..|order| - 1]);
    }
  }

  lemma FindKeeps(s: State, k: Key)
    requires WellFormed(s)
    ensures WellFormed(Find(s, k))
  {
    WithoutMembers(s.order, k);
  }

  lemma DropKeeps(s: State, k: Key)
    requires WellFormed(s)
    ensures WellFormed(Drop(s, k)) && (k in s.pages ==> |Drop(s, k).order| < CAPACITY)
  {
    WithoutMembers(s.order, k);
  }

  lemma MakeRoomKeeps(s: State)
    requires WellFormed(s)
    ensures MakeRoom(s).None? <==> AllDirty(s)
    ensures MakeRoom(s).Some? ==>
              var t := MakeRoom(s).value;
              && WellFormed(t) && |t.order| < CAPACITY
              && t.pages.Keys <= s.pages.Keys
              && (forall k | k in t.pages :: t.pages[k] == s.pages[k])
              && (forall k | k in s.pages && k !in t.pages :: !s.pages[k].dirty)
  {
    hide Drop;
    var i := VictimIsLru(s.pages, s.order);
    if Victim(s.pages, s.order).Some? {
      DropKeeps(s, s.order[i]);
      DropOnly(s, s.order[i]);
    }
  }

  lemma DropOnly(s: State, k: Key)
    ensures Drop(s, k).pages == s.pages - {k}
  {
  }

  /** A write says whether it took place, exactly then; the page then reads back, and no dirty page is lost for it. */
  lemma WriteExact(s: State, k: Key, bytes: seq<byte>, allocOk: bool)
    requires WellFormed(s)
    ensures Write(s, k, bytes, allocOk).1 <==> Takes(s, k, allocOk)
    ensures var t := Write(s, k, bytes, allocOk).0;
            && (Takes(s, k, allocOk) ==> Read(t, k).1 == Some(bytes) && t.pages[k].dirty)
            && (!Takes(s, k, allocOk) ==> k !in t.pages)
            && (forall j | j in t.pages && j != k :: j in s.pages && t.pages[j] == s.pages[j])
            && (forall j | j in s.pages && s.pages[j].dirty :: j in t.pages)
  {
    hide Find, MakeRoom, Distinct;
    FindPages(s, k);
    MakeRoomKeeps(s);
  }

  /** Page `j` is the least recently used one that is clean. */
  predicate OldestClean(s: State, j: Key) {
    exists i | 0 <= i < |s.order| :: s.order[i] == j && Oldest(s, i)
  }

  predicate Oldest(s: State, i: nat)
    requires i < |s.order|
  {
    Evictable(s.pages, s.order[i]) && forall l | i < l < |s.order| :: !Evictable(s.pages, s.order[l])
  }

  /**
   A page leaves the cache in two ways only: it is invalidated, or it is the least
   recently used clean page when a new page is written to a full cache. No other page changes.
   */
  lemma StepSpares(s: State, op: Op, j: Key)
    requires WellFormed(s) && j in s.pages
    ensures var t := Step(s, op);
            && (j !in t.pages <==>
                (op.OpInvalidate? && op.k == j)
                || (op.OpWrite? && op.k !in s.pages && |s.order| == CAPACITY && OldestClean(s, j)))
            && (j in t.pages && j != op.k ==> t.pages[j] == s.pages[j])
            && (j in t.pages && !op.OpWrite? ==> t.pages[j].bytes == s.pages[j].bytes)
  {
    hide Find, Distinct, Drop, Oldest;
    FindPages(s, op.k);
    DropOnly(s, op.k);
    if op.OpWrite? && op.k !in s.pages && |s.order| == CAPACITY {
      var i := VictimIsLru(s.pages, s.order);
      if Victim(s.pages, s.order).Some? {
        DropOnly(s, s.order[i]);
        OldestIs(s, i, j);
      } else {
        NoneOldest(s, j);
      }
    }
  }

  lemma OldestIs(s: State, i: nat, j: Key)
    requires i < |s.order| && Distinct(s.order) && Oldest(s, i)
    ensures OldestClean(s, j) <==> s.order[i] == j
  {
  }

  lemma NoneOldest(s: State, j: Key)
    requires forall i | 0 <= i < |s.order| :: !Evictable(s.pages, s.order[i])
    ensures !OldestClean(s, j)
  {
  }

  lemma StepKeeps(s: State, op: Op)
    requires WellFormed(s)
    ensures WellFormed(Step(s, op))
  {
    hide Find, MakeRoom;
    FindKeeps(s, op.k);
    FindPages(s, op.k);
    DropKeeps(s, op.k);
    if op.OpWrite? { MakeRoomKeeps(s); }
  }

  lemma FindPages(s: State, k: Key)
    ensures Find(s, k).pages == s.pages
  {
  }

  /** The cache agrees with what the client knows about page `k`. */
  ghost predicate Agrees(s: State, k: Key, past: Past) {
    match past
    case Absent => k !in s.pages
    case Clean(bytes) => k in s.pages ==> s.pages[k].bytes == bytes && !s.pages[k].dirty
    case Dirty(bytes) => k in s.pages && s.pages[k].bytes == bytes && s.pages[k].dirty
  }

  /**
   Safety over every run of page operations: a page written and not since flushed or invalidated
   is cached, dirty, with the bytes last written; a clean page is cached with
   those bytes or not at all; an invalidated page is not cached.
   */
  lemma {:induction false} PageRunSafe(ops: seq<Op>, k: Key)
    ensures WellFormed(Run(ops)) && Agrees(Run(ops), k, History(ops, k))
  {
    if ops != [] {
      var before, op := ops[..|ops| - 1], ops[|ops| - 1];
      PageRunSafe(before, k);
      StepKeeps(Run(before), op);
      StepAgrees(Run(before), op, k, History(before, k));
    }
  }

  lemma StepAgrees(s: State, op: Op, k: Key, past: Past)
    requires WellFormed(s) && Agrees(s, k, past)
    ensures Agrees(Step(s, op), k, Learn(s, op, k, past))
  {
    hide Find, MakeRoom, Distinct;
    FindPages(s, op.k);
    DropOnly(s, op.k);
    if op.OpWrite? { MakeRoomKeeps(s); }
  }

  // ---- runs with operations on whole files ---------------------------------------------------------

  /** A call: an operation on one page, a flush of a file, or a drop of a file. */
  datatype Call = PageCall(op: Op) | FlushCall(file: nat) | DropCall(file: nat)

  predicate OnlyFlushes(ops: seq<Op>, file: nat) {
    forall i | 0 <= i < |ops| :: ops[i].OpFlush? && ops[i].k.file == file
  }

  predicate OnlyInvalidates(ops: seq<Op>, file: nat) {
    forall i | 0 <= i < |ops| :: ops[i].OpInvalidate? && ops[i].k.file == file
  }

  /** The page operations a call comes down to after `before`: none of the file stays dirty, none stays cached. */
  ghost predicate Expands(before: seq<Op>, call: Call, ops: seq<Op>) {
    match call
    case PageCall(op) => ops == [op]
    case FlushCall(file) =>
      OnlyFlushes(ops, file) && forall k | k in Run(before + ops).pages && k.file == file ::
        !Run(before + ops).pages[k].dirty
    case DropCall(file) =>
      OnlyInvalidates(ops, file) && forall k | k in Run(before + ops).pages :: k.file != file
  }

  function Flatten(trace: seq<seq<Op>>): seq<Op> {
    if trace == [] then [] else Flatten(trace[..|trace| - 1]) + trace[|trace| - 1]
  }

  ghost predicate IsTrace(calls: seq<Call>, trace: seq<seq<Op>>) {
    |trace| == |calls| && forall i: nat | i < |calls| :: Expands(Flatten(trace[..i]), calls[i], trace[i])
  }

  /** What a client knows of a page from its own calls. */
  ghost function CallHistory(calls: seq<Call>, trace: seq<seq<Op>>, k: Key): Past
    requires |trace| == |calls|
  {
    if calls == [] then Absent
    else
      var n := |calls| - 1;
      var past := CallHistory(calls[..n], trace[..n], k);
      match calls[n]
      case PageCall(op) => Learn(Run(Flatten(trace[..n])), op, k, past)
      case FlushCall(file) => if k.file == file && past.Dirty? then Clean(past.bytes) else past
      case DropCall(file) => if k.file == file then Absent else past
  }

  lemma RunMore(ops: seq<Op>, op: Op)
    ensures Run(ops + [op]) == Step(Run(ops), op)
  {
    assert (ops + [op])[..|ops|] == ops;
  }

  /** Flushes keep every page and its bytes, and touch no flag of another file. */
  lemma {:induction false} FlushesKeep(before: seq<Op>, ops: seq<Op>, file: nat)
    requires OnlyFlushes(ops, file)
    ensures Run(before + ops).pages.Keys == Run(before).pages.Keys
    ensures forall k | k in Run(before).pages ::
              var p, q := Run(before).pages[k], Run(before + ops).pages[k];
              q.bytes == p.bytes && (q.dirty ==> p.dirty) && (k.file != file ==> q.dirty == p.dirty)
  {
    hide Run;
    if ops == [] {
      assert before + ops == before;
    } else {
      var front, op := ops[..|ops| - 1], ops[|ops| - 1];
      FlushesKeep(before, front, file);
      assert before + ops == before + front + [op];
      RunMore(before + front, op);
      FindPages(Run(before + front), op.k);
    }
  }

  /** Invalidations of a file touch no page of another. */
  lemma {:induction false} InvalidatesKeep(before: seq<Op>, ops: seq<Op>, file: nat)
    requires OnlyInvalidates(ops, file)
    ensures forall k: Key | k.file != file :: k in Run(before + ops).pages <==> k in Run(before).pages
    ensures forall k | k in Run(before).pages && k.file != file :: Run(before + ops).pages[k] == Run(before).pages[k]
  {
    hide Run, Drop;
    if ops == [] {
      assert before + ops == before;
    } else {
      var front, op := ops[..|ops| - 1], ops[|ops| - 1];
      InvalidatesKeep(before, front, file);
      assert before + ops == before + front + [op];
      RunMore(before + front, op);
      DropOnly(Run(before + front), op.k);
    }
  }

  /**
   Safety over every run of calls: a page written and not since flushed,
   invalidated or dropped, alone or with its file, is cached with the bytes last
   written; a flushed one is cached with them or not at all; a dropped one is not.
   */
  lemma {:induction false} RunSafe(calls: seq<Call>, trace: seq<seq<Op>>, k: Key)
    requires IsTrace(calls, trace)
    ensures WellFormed(Run(Flatten(trace))) && Agrees(Run(Flatten(trace)), k, CallHistory(calls, trace, k))
  {
    hide Run, WellFormed, Agrees, Learn, Step, Expands;
    PageRunSafe(Flatten(trace), k);
    if calls == [] {
      NothingYet(k);
    } else {
      var n := |calls| - 1;
      var before := Flatten(trace[..n]);
      TracePrefix(calls, trace);
      RunSafe(calls[..n], trace[..n], k);
      assert Expands(Flatten(trace[..n]), calls[n], trace[n]);
      CallAgrees(before, calls[n], trace[n], k, CallHistory(calls[..n], trace[..n], k));
    }
  }

  lemma NothingYet(k: Key)
    ensures Agrees(Run([]), k, Absent)
  {
  }

  lemma TracePrefix(calls: seq<Call>, trace: seq<seq<Op>>)
    requires IsTrace(calls, trace) && calls != []
    ensures IsTrace(calls[..|calls| - 1], trace[..|calls| - 1])
  {
    hide Expands, Flatten;
    var n := |calls| - 1;
    forall i: nat | i < n
      ensures Expands(Flatten(trace[..n][..i]), calls[..n][i], trace[..n][i])
    {
      assert trace[..n][..i] == trace[..i];
      assert Expands(Flatten(trace[..i]), calls[i], trace[i]);
    }
  }

  lemma CallAgrees(before: seq<Op>, call: Call, ops: seq<Op>, k: Key, past: Past)
    requires Expands(before, call, ops) && Agrees(Run(before), k, past) && WellFormed(Run(before))
    ensures Agrees(Run(before + ops), k,
                   match call
                   case PageCall(op) => Learn(Run(before), op, k, past)
                   case FlushCall(file) => if k.file == file && past.Dirty? then Clean(past.bytes) else past
                   case DropCall(file) => if k.file == file then Absent else past)
  {
    hide Run, Step, Learn, WellFormed;
    match call
    case PageCall(op) =>
      RunMore(before, op);
      StepAgrees(Run(before), op, k, past);
    case FlushCall(file) => FlushesKeep(before, ops, file);
    case DropCall(file) => InvalidatesKeep(before, ops, file);
  }

  /** What a read returns after any run of calls, in terms of the client's own history. */
  lemma ReadReturns(calls: seq<Call>, trace: seq<seq<Op>>, k: Key)
    requires IsTrace(calls, trace)
    ensures var r, past := Read(Run(Flatten(trace)), k).1, CallHistory(calls, trace, k);
            match past
            case Absent => r == None
            case Clean(bytes) => r == None || r == Some(bytes)
            case Dirty(bytes) => r == Some(bytes)
  {
    hide Run, CallHistory, Flatten, IsTrace;
    RunSafe(calls, trace, k);
  }

  // ---- the order is the order of use -----------------------------------------------------------

  /** Keys in strictly decreasing order of last use. */
  ghost predicate ByUse(order: seq<Key>, ops: seq<Op>) {
    order == [] || ((forall k | k in order[1..] :: LastUse(ops, k) < LastUse(ops, order[0])) && ByUse(order[1..], ops))
  }

  lemma {:induction false} WithoutByUse(order: seq<Key>, k: Key, ops: seq<Op>)
    requires ByUse(order, ops)
    ensures ByUse(Without(order, k), ops)
    ensures forall j | j in Without(order, k) :: j in order
  {
    if order != [] {
      assert order == [order[0]] + order[1..];
      WithoutByUse(order[1..], k, ops);
      if order[0] != k { assert Without(order, k)[1..] == Without(order[1..], k); }
    }
  }

  lemma {:induction false} SameUse(order: seq<Key>, ops: seq<Op>, ops': seq<Op>)
    requires ByUse(order, ops) && forall k | k in order :: LastUse(ops', k) == LastUse(ops, k)
    ensures ByUse(order, ops')
  {
    if order != [] {
      assert order == [order[0]] + order[1..];
      SameUse(order[1..], ops, ops');
    }
  }

  lemma {:induction false} UseBound(ops: seq<Op>, k: Key)
    ensures LastUse(ops, k) <= |ops|
  {
    if ops != [] { UseBound(ops[..|ops| - 1], k); }
  }

  lemma FrontByUse(rest: seq<Key>, before: seq<Op>, op: Op)
    requires ByUse(rest, before) && op.k !in rest && op.k in Run(before + [op]).pages
    ensures ByUse([op.k] + rest, before + [op])
  {
    var ops := before + [op];
    assert ops[..|ops| - 1] == before;
    forall k | k in rest ensures LastUse(ops, k) == LastUse(before, k) < |ops| { UseBound(before, k); }
    SameUse(rest, before, ops);
    assert ([op.k] + rest)[1..] == rest;
  }

  lemma BackByUse(rest: seq<Key>, before: seq<Op>, op: Op)
    requires ByUse(rest, before) && op.k !in rest
    ensures ByUse(rest, before + [op])
  {
    var ops := before + [op];
    assert ops[..|ops| - 1] == before;
    SameUse(rest, before, ops);
  }

  /** After any run, calls on whole files seen as their page operations, the recency order is the order of last use. */
  lemma {:induction false} RecencyOrder(ops: seq<Op>)
    ensures ByUse(Run(ops).order, ops)
  {
    if ops != [] {
      var before, op := ops[..|ops| - 1], ops[|ops| - 1];
      assert ops == before + [op];
      RecencyOrder(before);
      PageRunSafe(before, op.k);
      PageRunSafe(ops, op.k);
      StepOrder(before, op);
    }
  }

  lemma StepOrder(before: seq<Op>, op: Op)
    requires WellFormed(Run(before)) && ByUse(Run(before).order, before)
    ensures ByUse(Run(before + [op]).order, before + [op])
  {
    hide ByUse, LastUse;
    var ops, s, k := before + [op], Run(before), op.k;
    assert ops[..|ops| - 1] == before && Run(ops) == Step(s, op);
    WithoutByUse(s.order, k, before);
    WithoutMembers(s.order, k);
    if k in s.pages {
      if op.OpInvalidate? {
        BackByUse(Without(s.order, k), before, op);
      } else {
        FrontByUse(Without(s.order, k), before, op);
      }
    } else if op.OpWrite? {
      MakeRoomKeeps(s);
      MakeRoomOrder(s, before);
      if MakeRoom(s).Some? && op.allocOk {
        FrontByUse(MakeRoom(s).value.order, before, op);
      } else if MakeRoom(s).Some? {
        BackByUse(MakeRoom(s).value.order, before, op);
      } else {
        BackByUse(s.order, before, op);
      }
    } else {
      BackByUse(s.order, before, op);
    }
  }

  lemma MakeRoomOrder(s: State, ops: seq<Op>)
    requires ByUse(s.order, ops)
    ensures MakeRoom(s).Some? ==> ByUse(MakeRoom(s).value.order, ops)
  {
    var v := Victim(s.pages, s.order);
    if v.Some? { WithoutByUse(s.order, v.value, ops); }
  }
}
