/**
 A file as a list of 4 KiB blocks, some of them absent, read as one flat array
 of bytes: the meaning of the block lists of kernel/fs/tmpfs.c.
 */
module Sparse {
  import opened Bytes
  import opened Options

  const BLOCK: nat := 4096

  type Data = Option<seq<byte>>

  ghost predicate Whole(vals: seq<Data>) {
    forall i | 0 <= i < |vals| && vals[i].Some? :: |vals[i].value| == BLOCK
  }

  /** The byte at position `pos`; absent blocks and positions past the list are zero. */
  function At(vals: seq<Data>, pos: nat): byte {
    if pos / BLOCK < |vals| && vals[pos / BLOCK].Some? && pos % BLOCK < |vals[pos / BLOCK].value|
    then vals[pos / BLOCK].value[pos % BLOCK] else 0
  }

  /** The bytes `lo` up to `lo + n`. */
  function Slice(vals: seq<Data>, lo: nat, n: nat): (r: seq<byte>)
    ensures |r| == n && forall i | 0 <= i < n :: r[i] == At(vals, lo + i)
  {
    if n == 0 then [] else Slice(vals, lo, n - 1) + [At(vals, lo + n - 1)]
  }

  /** `vals` with `bytes` written into block `i` at offset `off`; an absent block starts as zeros. */
  function WriteBlock(vals: seq<Data>, i: nat, off: nat, bytes: seq<byte>): seq<Data>
    requires i < |vals| && off + |bytes| <= BLOCK && (vals[i].Some? ==> |vals[i].value| == BLOCK)
  {
    vals[i := Some(Store(OrZeros(vals[i]), off, bytes))]
  }

  function OrZeros(d: Data): seq<byte> {
    if d.Some? then d.value else Zeros(BLOCK)
  }

  /** A block write changes the positions it names and no others. */
  lemma WriteBlockAt(vals: seq<Data>, i: nat, off: nat, bytes: seq<byte>, pos: nat)
    requires Whole(vals) && i < |vals| && off + |bytes| <= BLOCK
    ensures Whole(WriteBlock(vals, i, off, bytes))
    ensures At(WriteBlock(vals, i, off, bytes), pos)
         == if i * BLOCK + off <= pos < i * BLOCK + off + |bytes| then bytes[pos - (i * BLOCK + off)] else At(vals, pos)
  {
  }

  lemma AppendAt(vals: seq<Data>, pos: nat)
    ensures At(vals + [None], pos) == At(vals, pos)
  {
  }

  /** `after` is `before` with `bytes` written from position `lo`. */
  ghost predicate Written(before: seq<Data>, after: seq<Data>, lo: nat, bytes: seq<byte>) {
    forall pos: nat :: At(after, pos) == if lo <= pos < lo + |bytes| then bytes[pos - lo] else At(before, pos)
  }

  lemma WrittenNothing(before: seq<Data>, after: seq<Data>, lo: nat)
    requires forall pos: nat :: At(after, pos) == At(before, pos)
    ensures Written(before, after, lo, [])
  {
  }

  /** Writing one more chunk right after `bytes`. */
  lemma WrittenMore(before: seq<Data>, mid: seq<Data>, lo: nat, bytes: seq<byte>, i: nat, off: nat, chunk: seq<byte>)
    requires Written(before, mid, lo, bytes) && Whole(mid) && i < |mid| && off + |chunk| <= BLOCK
    requires i * BLOCK + off == lo + |bytes|
    ensures Whole(WriteBlock(mid, i, off, chunk))
    ensures Written(before, WriteBlock(mid, i, off, chunk), lo, bytes + chunk)
  {
    hide At, WriteBlock;
    var after := WriteBlock(mid, i, off, chunk);
    WriteBlockAt(mid, i, off, chunk, 0);
    forall pos: nat
      ensures At(after, pos) == if lo <= pos < lo + |bytes + chunk| then (bytes + chunk)[pos - lo] else At(before, pos)
    {
      WriteBlockAt(mid, i, off, chunk, pos);
    }
  }

  lemma WrittenAppend(before: seq<Data>, mid: seq<Data>, lo: nat, bytes: seq<byte>)
    requires Written(before, mid, lo, bytes)
    ensures Written(before, mid + [None], lo, bytes)
  {
    hide At;
    forall pos: nat
      ensures At(mid + [None], pos) == At(mid, pos)
    {
      AppendAt(mid, pos);
    }
  }

  lemma SliceAppend(vals: seq<Data>, lo: nat, n: nat, m: nat)
    ensures Slice(vals, lo, n) + Slice(vals, lo + n, m) == Slice(vals, lo, n + m)
  {
    hide At, Slice;
    var l, r := Slice(vals, lo, n) + Slice(vals, lo + n, m), Slice(vals, lo, n + m);
    forall i | 0 <= i < n + m
      ensures l[i] == r[i]
    {
      if i >= n { assert lo + n + (i - n) == lo + i; }
    }
  }

  /** A chunk inside one block. */
  lemma SliceBlock(vals: seq<Data>, i: nat, off: nat, n: nat)
    requires Whole(vals) && i < |vals| && off + n <= BLOCK
    ensures Slice(vals, i * BLOCK + off, n) == OrZeros(vals[i])[off..off + n]
  {
    var r := Slice(vals, i * BLOCK + off, n);
    forall j | 0 <= j < n
      ensures r[j] == OrZeros(vals[i])[off + j]
    {
      InBlock(i, off + j);
    }
  }

  lemma InBlock(i: nat, o: nat)
    requires o < BLOCK
    ensures (i * BLOCK + o) / BLOCK == i && (i * BLOCK + o) % BLOCK == o
  {
  }
}
