/**
 Doubly linked lists threaded through a static pool of nodes.

 The kernel links entries of static arrays with `next` and `prev` pointers. A
 pointer into the pool is the entry's index, `NULL` is -1. `IsList` ties the
 links to the sequence they spell; the lemmas say what the pointer updates of
 the usual list operations do to that sequence.
 */
module Links {

  const NULL: int := -1

  predicate Distinct<T(==)>(s: seq<T>) {
    forall i, j | 0 <= i < j < |s| :: s[i] != s[j]
  }

  function First(s: seq<nat>): int {
    if s == [] then NULL else s[0]
  }

  function Last(s: seq<nat>): int {
    if s == [] then NULL else s[|s| - 1]
  }

  function DropAt<T>(s: seq<T>, i: nat): (r: seq<T>)
    requires i < |s|
    ensures |r| == |s| - 1
    ensures forall j | 0 <= j < |r| :: r[j] == if j < i then s[j] else s[j + 1]
  {
    s[..i] + s[i + 1..]
  }

  /** `s` without the first occurrence of `x`. */
  function Without<T(==)>(s: seq<T>, x: T): seq<T> {
    if s == [] then [] else if s[0] == x then s[1..] else [s[0]] + Without(s[1..], x)
  }

  lemma {:induction false} WithoutIsDrop<T>(s: seq<T>, i: nat)
    requires Distinct(s) && i < |s|
    ensures Without(s, s[i]) == DropAt(s, i)
  {
    if i > 0 {
      assert s[1..][i - 1] == s[i];
      WithoutIsDrop(s[1..], i - 1);
      assert DropAt(s, i) == [s[0]] + DropAt(s[1..], i - 1);
    }
  }

  function Fill<T>(n: nat, x: T): (r: seq<T>)
    ensures |r| == n && forall i | 0 <= i < n :: r[i] == x
  {
    seq(n, _ => x)
  }

  /** `s` lists the nodes from the head, and the links of each node point at its neighbours. */
  ghost predicate IsList(next: seq<int>, prev: seq<int>, s: seq<nat>) {
    && |next| == |prev|
    && (forall i | 0 <= i < |s| :: s[i] < |next|)
    && Distinct(s)
    && (forall i {:trigger next[s[i]]} | 0 <= i < |s| :: next[s[i]] == if i + 1 < |s| then s[i + 1] else NULL)
    && (forall i {:trigger prev[s[i]]} | 0 <= i < |s| :: prev[s[i]] == if 0 < i then s[i - 1] else NULL)
  }

  /** A list depends on the links of its own nodes only. */
  lemma SameList(next: seq<int>, prev: seq<int>, next': seq<int>, prev': seq<int>, s: seq<nat>)
    requires IsList(next, prev, s) && |next'| == |prev'| == |next|
    requires forall i | 0 <= i < |s| :: next'[s[i]] == next[s[i]] && prev'[s[i]] == prev[s[i]]
    ensures IsList(next', prev', s)
  {
  }

  lemma DropAtDistinct<T>(s: seq<T>, i: nat)
    requires Distinct(s) && i < |s|
    ensures Distinct(DropAt(s, i)) && s[i] !in DropAt(s, i)
    ensures forall x :: x in DropAt(s, i) <==> x in s && x != s[i]
  {
    var r := DropAt(s, i);
    forall x | x in s && x != s[i]
      ensures x in r
    {
      var j :| 0 <= j < |s| && s[j] == x;
      assert r[if j < i then j else j - 1] == x;
    }
  }

  /** The links after a node's neighbours are joined and the node's own links are cleared. */
  function UnlinkNext(next: seq<int>, prev: seq<int>, p: nat): seq<int>
    requires p < |next| == |prev| && NULL <= prev[p] < |next|
  {
    (if prev[p] != NULL then next[prev[p] := next[p]] else next)[p := NULL]
  }

  function UnlinkPrev(next: seq<int>, prev: seq<int>, p: nat): seq<int>
    requires p < |next| == |prev| && NULL <= next[p] < |next|
  {
    (if next[p] != NULL then prev[next[p] := prev[p]] else prev)[p := NULL]
  }

  lemma UnlinkEnds(next: seq<int>, prev: seq<int>, s: seq<nat>, i: nat)
    requires IsList(next, prev, s) && i < |s|
    ensures var p := s[i]; NULL <= next[p] < |next| && NULL <= prev[p] < |next| && next[p] != p && prev[p] != p
    ensures next[s[i]] == (if i + 1 < |s| then s[i + 1] else NULL) && prev[s[i]] == (if 0 < i then s[i - 1] else NULL)
  {
    assert next[s[i]] == if i + 1 < |s| then s[i + 1] else NULL;
    assert prev[s[i]] == if 0 < i then s[i - 1] else NULL;
  }

  lemma UnlinkNextAt(next: seq<int>, prev: seq<int>, s: seq<nat>, i: nat, j: nat)
    requires IsList(next, prev, s) && i < |s| && j < |s| - 1
    requires var p := s[i]; NULL <= next[p] < |next| && NULL <= prev[p] < |next|
    ensures var r := DropAt(s, i);
            r[j] < |next| && UnlinkNext(next, prev, s[i])[r[j]] == (if j + 1 < |r| then r[j + 1] else NULL)
  {
    UnlinkEnds(next, prev, s, i);
    var k := if j < i then j else j + 1;
    assert DropAt(s, i)[j] == s[k] && s[k] != s[i];
    assert next[s[k]] == (if k + 1 < |s| then s[k + 1] else NULL);
    assert 0 < i && k != i - 1 ==> s[k] != s[i - 1];
  }

  lemma UnlinkPrevAt(next: seq<int>, prev: seq<int>, s: seq<nat>, i: nat, j: nat)
    requires IsList(next, prev, s) && i < |s| && j < |s| - 1
    requires var p := s[i]; NULL <= next[p] < |next| && NULL <= prev[p] < |next|
    ensures var r := DropAt(s, i);
            r[j] < |next| && UnlinkPrev(next, prev, s[i])[r[j]] == (if 0 < j then r[j - 1] else NULL)
  {
    UnlinkEnds(next, prev, s, i);
    var k := if j < i then j else j + 1;
    assert DropAt(s, i)[j] == s[k] && s[k] != s[i];
    assert prev[s[k]] == (if 0 < k then s[k - 1] else NULL);
    assert i + 1 < |s| && k != i + 1 ==> s[k] != s[i + 1];
  }

  /** Unlinking node number `i` removes exactly it, and the ends move as the code moves them. */
  lemma UnlinkKeeps(next: seq<int>, prev: seq<int>, s: seq<nat>, i: nat)
    requires IsList(next, prev, s) && i < |s|
    ensures var p := s[i];
            && NULL <= next[p] < |next| && NULL <= prev[p] < |next| && next[p] != p && prev[p] != p
            && IsList(UnlinkNext(next, prev, p), UnlinkPrev(next, prev, p), DropAt(s, i))
            && First(DropAt(s, i)) == (if prev[p] == NULL then next[p] else First(s))
            && Last(DropAt(s, i)) == (if next[p] == NULL then prev[p] else Last(s))
            && (forall q: nat | q < |next| && q !in s ::
                  UnlinkNext(next, prev, p)[q] == next[q] && UnlinkPrev(next, prev, p)[q] == prev[q])
  {
    var p, r := s[i], DropAt(s, i);
    UnlinkEnds(next, prev, s, i);
    DropAtDistinct(s, i);
    UnlinkElsewhere(next, prev, s, i);
    assert IsList(UnlinkNext(next, prev, p), UnlinkPrev(next, prev, p), r) by {
      var n, m := UnlinkNext(next, prev, p), UnlinkPrev(next, prev, p);
      forall j | 0 <= j < |r|
        ensures r[j] < |n|
      {
        UnlinkNextAt(next, prev, s, i, j);
      }
      forall j {:trigger n[r[j]]} | 0 <= j < |r|
        ensures n[r[j]] == if j + 1 < |r| then r[j + 1] else NULL
      {
        UnlinkNextAt(next, prev, s, i, j);
      }
      forall j {:trigger m[r[j]]} | 0 <= j < |r|
        ensures m[r[j]] == if 0 < j then r[j - 1] else NULL
      {
        UnlinkPrevAt(next, prev, s, i, j);
      }
    }
  }

  lemma UnlinkElsewhere(next: seq<int>, prev: seq<int>, s: seq<nat>, i: nat)
    requires IsList(next, prev, s) && i < |s|
    requires var p := s[i]; NULL <= next[p] < |next| && NULL <= prev[p] < |next|
    ensures |UnlinkNext(next, prev, s[i])| == |UnlinkPrev(next, prev, s[i])| == |next|
    ensures forall q: nat | q < |next| && q !in s ::
              UnlinkNext(next, prev, s[i])[q] == next[q] && UnlinkPrev(next, prev, s[i])[q] == prev[q]
  {
    UnlinkEnds(next, prev, s, i);
    assert 0 < i ==> s[i - 1] in s;
    assert i + 1 < |s| ==> s[i + 1] in s;
  }

  /** Linking a new node in front of the head. */
  function PushNext(next: seq<int>, s: seq<nat>, p: nat): seq<int>
    requires p < |next|
  {
    next[p := First(s)]
  }

  function PushPrev(prev: seq<int>, s: seq<nat>, p: nat): seq<int>
    requires p < |prev| && First(s) < |prev|
  {
    var q := prev[p := NULL];
    if First(s) != NULL then q[First(s) := p] else q
  }

  lemma PushKeeps(next: seq<int>, prev: seq<int>, s: seq<nat>, p: nat)
    requires IsList(next, prev, s) && p < |next| && p !in s
    ensures First(s) < |next|
    ensures IsList(PushNext(next, s, p), PushPrev(prev, s, p), [p] + s)
    ensures forall q: nat | q < |next| && q !in s && q != p ::
              PushNext(next, s, p)[q] == next[q] && PushPrev(prev, s, p)[q] == prev[q]
  {
    var r := [p] + s;
    assert forall i | 0 < i < |r| :: r[i] == s[i - 1];
  }

  /** The list with `p` put in before node number `k`. */
  function PutAt<T>(s: seq<T>, k: nat, p: T): (r: seq<T>)
    requires k <= |s|
    ensures |r| == |s| + 1 && r[k] == p
    ensures forall i | 0 <= i < k :: r[i] == s[i]
    ensures forall i | k < i <= |s| :: r[i] == s[i - 1]
  {
    s[..k] + [p] + s[k..]
  }

  function LinkNext(next: seq<int>, s: seq<nat>, k: nat, p: nat): seq<int>
    requires p < |next| && k <= |s| && forall i | 0 <= i < |s| :: s[i] < |next|
  {
    var n := next[p := if k < |s| then s[k] else NULL];
    if k > 0 then n[s[k - 1] := p] else n
  }

  function LinkPrev(prev: seq<int>, s: seq<nat>, k: nat, p: nat): seq<int>
    requires p < |prev| && k <= |s| && forall i | 0 <= i < |s| :: s[i] < |prev|
  {
    var n := prev[p := if k > 0 then s[k - 1] else NULL];
    if k < |s| then n[s[k] := p] else n
  }

  lemma PutDistinct<T>(s: seq<T>, k: nat, p: T)
    requires Distinct(s) && k <= |s| && p !in s
    ensures Distinct(PutAt(s, k, p))
  {
    var r := PutAt(s, k, p);
    forall i, j | 0 <= i < j < |r|
      ensures r[i] != r[j]
    {
      assert i != k ==> r[i] == s[if i < k then i else i - 1];
      assert j != k ==> r[j] == s[if j < k then j else j - 1];
    }
  }

  lemma LinkNextAt(next: seq<int>, prev: seq<int>, s: seq<nat>, k: nat, p: nat, i: nat)
    requires IsList(next, prev, s) && p < |next| && p !in s && k <= |s| && i <= |s|
    ensures var r := PutAt(s, k, p);
            r[i] < |next| && LinkNext(next, s, k, p)[r[i]] == if i < |s| then r[i + 1] else NULL
  {
    hide PutAt;
    if i != k {
      var j := if i < k then i else i - 1;
      assert s[j] in s && next[s[j]] == if j + 1 < |s| then s[j + 1] else NULL;
      assert k > 0 && i != k - 1 ==> s[j] != s[k - 1];
    }
  }

  lemma LinkPrevAt(next: seq<int>, prev: seq<int>, s: seq<nat>, k: nat, p: nat, i: nat)
    requires IsList(next, prev, s) && p < |next| && p !in s && k <= |s| && i <= |s|
    ensures var r := PutAt(s, k, p); r[i] < |next| && LinkPrev(prev, s, k, p)[r[i]] == if i > 0 then r[i - 1] else NULL
  {
    hide PutAt;
    if i != k {
      var j := if i < k then i else i - 1;
      assert s[j] in s && prev[s[j]] == if j > 0 then s[j - 1] else NULL;
      assert k < |s| && i != k + 1 ==> s[j] != s[k];
    }
  }

  lemma LinkElsewhere(next: seq<int>, prev: seq<int>, s: seq<nat>, k: nat, p: nat)
    requires IsList(next, prev, s) && p < |next| && k <= |s|
    ensures |LinkNext(next, s, k, p)| == |LinkPrev(prev, s, k, p)| == |next|
    ensures forall q: nat | q < |next| && q !in s && q != p ::
              LinkNext(next, s, k, p)[q] == next[q] && LinkPrev(prev, s, k, p)[q] == prev[q]
  {
  }

  /** Linking a new node in the middle. */
  lemma LinkKeeps(next: seq<int>, prev: seq<int>, s: seq<nat>, k: nat, p: nat)
    requires IsList(next, prev, s) && p < |next| && p !in s && k <= |s|
    ensures IsList(LinkNext(next, s, k, p), LinkPrev(prev, s, k, p), PutAt(s, k, p))
    ensures First(PutAt(s, k, p)) == if k > 0 then First(s) else p
  {
    hide PutAt, Distinct, LinkNext, LinkPrev;
    var r := PutAt(s, k, p);
    PutDistinct(s, k, p);
    LinkElsewhere(next, prev, s, k, p);
    var n, m := LinkNext(next, s, k, p), LinkPrev(prev, s, k, p);
    assert |r| == |s| + 1;
    forall i | 0 <= i < |r|
      ensures r[i] < |n|
    {
      LinkNextAt(next, prev, s, k, p, i);
    }
    forall i {:trigger n[r[i]]} | 0 <= i < |r|
      ensures n[r[i]] == if i + 1 < |r| then r[i + 1] else NULL
    {
      LinkNextAt(next, prev, s, k, p, i);
    }
    forall i {:trigger m[r[i]]} | 0 <= i < |r|
      ensures m[r[i]] == if 0 < i then r[i - 1] else NULL
    {
      LinkPrevAt(next, prev, s, k, p, i);
    }
  }

  // ---- singly linked chains and tables of them ---------------------------------------------

  /** `s` is the singly linked list that starts at `head`. */
  ghost predicate IsChain(next: seq<int>, head: int, s: seq<nat>) {
    && head == First(s)
    && Distinct(s)
    && (forall i | 0 <= i < |s| :: s[i] < |next|)
    && (forall i {:trigger next[s[i]]} | 0 <= i < |s| :: next[s[i]] == if i + 1 < |s| then s[i + 1] else NULL)
  }

  lemma SameChain(next: seq<int>, next': seq<int>, head: int, s: seq<nat>)
    requires IsChain(next, head, s) && |next'| == |next|
    requires forall i | 0 <= i < |s| :: next'[s[i]] == next[s[i]]
    ensures IsChain(next', head, s)
  {
  }

  /** The links after node number `i` is bypassed. */
  function BypassNext(next: seq<int>, s: seq<nat>, i: nat): seq<int>
    requires i < |s| && s[i] < |next| && (0 < i ==> s[i - 1] < |next|)
  {
    if i == 0 then next else next[s[i - 1] := next[s[i]]]
  }

  function BypassHead(next: seq<int>, head: int, s: seq<nat>, i: nat): int
    requires i < |s| && s[i] < |next|
  {
    if i == 0 then next[s[0]] else head
  }

  lemma BypassKeeps(next: seq<int>, head: int, s: seq<nat>, i: nat)
    requires IsChain(next, head, s) && i < |s|
    ensures IsChain(BypassNext(next, s, i), BypassHead(next, head, s, i), DropAt(s, i))
    ensures forall q: nat | q < |next| && q !in s :: BypassNext(next, s, i)[q] == next[q]
  {
    DropAtDistinct(s, i);
    var r := DropAt(s, i);
    assert 0 < i ==> s[i - 1] in s;
  }

  lemma ChainPush(next: seq<int>, head: int, s: seq<nat>, e: nat)
    requires IsChain(next, head, s) && e < |next| && e !in s
    ensures IsChain(next[e := head], e, [e] + s)
  {
    var r := [e] + s;
    assert forall i | 0 < i < |r| :: r[i] == s[i - 1];
  }

  lemma ChainPop(next: seq<int>, head: int, s: seq<nat>, x: int)
    requires IsChain(next, head, s) && s != []
    ensures head == s[0] < |next| && s[0] !in s[1..] && s == [s[0]] + s[1..]
    ensures IsChain(next[s[0] := x], next[s[0]], s[1..])
  {
    var t := s[1..];
    assert forall i | 0 <= i < |t| :: t[i] == s[i + 1];
    assert next[s[0]] == if 1 < |s| then s[1] else NULL;
  }

  /** A hash table: one chain per bucket, no node in two of them. */
  ghost predicate IsTable(next: seq<int>, table: seq<int>, chains: seq<seq<nat>>) {
    && |table| == |chains|
    && (forall h | 0 <= h < |table| :: IsChain(next, table[h], chains[h]))
    && (forall g, h, e | 0 <= g < |table| && 0 <= h < |table| && e in chains[g] && e in chains[h] :: g == h)
  }

  lemma TableRemove(next: seq<int>, table: seq<int>, chains: seq<seq<nat>>, h: nat, i: nat)
    requires IsTable(next, table, chains) && h < |table| && i < |chains[h]|
    ensures chains[h][i] < |next| && (0 < i ==> chains[h][i - 1] < |next|)
    ensures IsTable(BypassNext(next, chains[h], i), table[h := BypassHead(next, table[h], chains[h], i)],
                    chains[h := DropAt(chains[h], i)])
  {
    var s := chains[h];
    assert IsChain(next, table[h], s);
    BypassKeeps(next, table[h], s, i);
    DropAtDistinct(s, i);
    forall g | 0 <= g < |table| && g != h
      ensures IsChain(BypassNext(next, s, i), table[g], chains[g])
    {
      assert IsChain(next, table[g], chains[g]);
      forall j | 0 <= j < |chains[g]| ensures BypassNext(next, s, i)[chains[g][j]] == next[chains[g][j]] {
        assert chains[g][j] in chains[g];
      }
      SameChain(next, BypassNext(next, s, i), table[g], chains[g]);
    }
  }

  lemma TablePush(next: seq<int>, table: seq<int>, chains: seq<seq<nat>>, h: nat, e: nat)
    requires IsTable(next, table, chains) && h < |table| && e < |next|
    requires forall g | 0 <= g < |table| :: e !in chains[g]
    ensures IsTable(next[e := table[h]], table[h := e], chains[h := [e] + chains[h]])
  {
    assert IsChain(next, table[h], chains[h]);
    ChainPush(next, table[h], chains[h], e);
    forall g | 0 <= g < |table| && g != h
      ensures IsChain(next[e := table[h]], table[g], chains[g])
    {
      assert IsChain(next, table[g], chains[g]);
      assert e !in chains[g];
      SameChain(next, next[e := table[h]], table[g], chains[g]);
    }
  }

  lemma TableChain(next: seq<int>, table: seq<int>, chains: seq<seq<nat>>, h: nat)
    requires IsTable(next, table, chains) && h < |table|
    ensures table[h] == First(chains[h]) && Distinct(chains[h])
    ensures forall i | 0 <= i < |chains[h]| :: chains[h][i] < |next|
    ensures forall i {:trigger next[chains[h][i]]} | 0 <= i < |chains[h]| ::
              next[chains[h][i]] == if i + 1 < |chains[h]| then chains[h][i + 1] else NULL
  {
    assert IsChain(next, table[h], chains[h]);
  }

  /** A link outside the table can be rewritten freely. */
  lemma TableElsewhere(next: seq<int>, table: seq<int>, chains: seq<seq<nat>>, e: nat, x: int)
    requires IsTable(next, table, chains) && e < |next| && forall g | 0 <= g < |table| :: e !in chains[g]
    ensures IsTable(next[e := x], table, chains)
  {
    forall g | 0 <= g < |table|
      ensures IsChain(next[e := x], table[g], chains[g])
    {
      assert IsChain(next, table[g], chains[g]);
      assert e !in chains[g];
      SameChain(next, next[e := x], table[g], chains[g]);
    }
  }

  /** A node that heads a list is its first element. */
  lemma HeadIsFirst(s: seq<nat>, i: nat)
    requires Distinct(s) && i < |s| && s[i] == First(s)
    ensures i == 0 && [s[0]] + DropAt(s, 0) == s
  {
  }

  lemma ListFacts(next: seq<int>, prev: seq<int>, s: seq<nat>)
    requires IsList(next, prev, s)
    ensures Distinct(s) && |next| == |prev| && forall i | 0 <= i < |s| :: s[i] < |next|
    ensures forall i {:trigger prev[s[i]]} | 0 <= i < |s| :: prev[s[i]] == if 0 < i then s[i - 1] else NULL
  {
  }
}
