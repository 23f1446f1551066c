/**
  A sequence of blocks laid end to end, and where each block lands. The
  scanned lines of all changed files are the lines of each file laid end
  to end; these lemmas locate a line of a file among all scanned lines and
  back.
*/
module Flatten {

  /** The blocks laid end to end. */
  ghost function Concat<T>(blocks: seq<seq<T>>): seq<T>
    decreases |blocks|
  {
    if blocks == [] then [] else blocks[0] + Concat(blocks[1..])
  }

  /** Where block `j` begins in `Concat(blocks)`: the total length of the
      blocks before it. */
  ghost function Start<T>(blocks: seq<seq<T>>, j: nat): nat
    requires j <= |blocks|
    decreases j
  {
    if j == 0 then 0 else |blocks[0]| + Start(blocks[1..], j - 1)
  }

  /** The blocks before `j` fit in the whole, and all of them fill it. */
  lemma {:induction false} StartBounded<T>(blocks: seq<seq<T>>, j: nat)
    requires j <= |blocks|
    ensures Start(blocks, j) <= |Concat(blocks)|
    ensures j == |blocks| ==> Start(blocks, j) == |Concat(blocks)|
    decreases j
  {
    if blocks != [] {
      assert Concat(blocks) == blocks[0] + Concat(blocks[1..]);
      if j > 0 {
        StartBounded(blocks[1..], j - 1);
      }
    }
  }

  /** Block `j + 1` begins where block `j` ends. */
  lemma {:induction false} StartStep<T>(blocks: seq<seq<T>>, j: nat)
    requires j < |blocks|
    ensures Start(blocks, j + 1) == Start(blocks, j) + |blocks[j]|
    decreases j
  {
    if j > 0 {
      StartStep(blocks[1..], j - 1);
      assert blocks[1..][j - 1] == blocks[j];
    }
  }

  /** A later block begins after an earlier one ends. */
  lemma {:induction false} StartMonotone<T>(blocks: seq<seq<T>>, j1: nat, j2: nat)
    requires j1 < j2 <= |blocks|
    ensures Start(blocks, j1) + |blocks[j1]| <= Start(blocks, j2)
    decreases j2
  {
    StartStep(blocks, j2 - 1);
    if j1 < j2 - 1 {
      StartMonotone(blocks, j1, j2 - 1);
    }
  }

  /** When no block is longer than `m`, the first `j` blocks hold at most
      `j * m` elements. */
  lemma {:induction false} StartAtMost<T>(blocks: seq<seq<T>>, j: nat, m: nat)
    requires j <= |blocks|
    requires forall b <- blocks :: |b| <= m
    ensures Start(blocks, j) <= j * m
    decreases j
  {
    if j > 0 {
      assert blocks[0] in blocks;
      StartAtMost(blocks[1..], j - 1, m);
      assert (j - 1) * m + m == j * m;
    }
  }

  /** Element `i` of block `j` sits at `Start(blocks, j) + i`. */
  lemma {:induction false} ConcatAt<T>(blocks: seq<seq<T>>, j: nat, i: nat)
    requires j < |blocks| && i < |blocks[j]|
    ensures Start(blocks, j) + i < |Concat(blocks)|
    ensures Concat(blocks)[Start(blocks, j) + i] == blocks[j][i]
    decreases j
  {
    var head, rest := blocks[0], Concat(blocks[1..]);
    assert Concat(blocks) == head + rest;
    if j == 0 {
      assert (head + rest)[i] == head[i];
    } else {
      ConcatAt(blocks[1..], j - 1, i);
      assert blocks[1..][j - 1] == blocks[j];
      var p := Start(blocks[1..], j - 1) + i;
      assert Start(blocks, j) + i == |head| + p;
      assert (head + rest)[|head| + p] == rest[p];
    }
  }

  /** Every position of `Concat(blocks)` is element `i` of some block `j`. */
  lemma {:induction false} ConcatOrigin<T>(blocks: seq<seq<T>>, p: nat) returns (j: nat, i: nat)
    requires p < |Concat(blocks)|
    ensures j < |blocks| && i < |blocks[j]| && Start(blocks, j) + i == p
    decreases |blocks|
  {
    var head, rest := blocks[0], Concat(blocks[1..]);
    assert Concat(blocks) == head + rest;
    if p < |head| {
      j, i := 0, p;
    } else {
      var j', i' := ConcatOrigin(blocks[1..], p - |head|);
      assert blocks[1..][j'] == blocks[j' + 1];
      j, i := j' + 1, i';
      assert Start(blocks, j) == |head| + Start(blocks[1..], j');
    }
  }

  /** The prefix of the whole that ends with block `j` is the prefix that
      ends before it, followed by the block. */
  lemma PrefixStep<T>(blocks: seq<seq<T>>, j: nat)
    requires j < |blocks|
    ensures Start(blocks, j) <= Start(blocks, j + 1) <= |Concat(blocks)|
    ensures Concat(blocks)[..Start(blocks, j + 1)] == Concat(blocks)[..Start(blocks, j)] + blocks[j]
  {
    var all, start, block := Concat(blocks), Start(blocks, j), blocks[j];
    StartStep(blocks, j);
    StartBounded(blocks, j + 1);
    forall i | 0 <= i < |block| ensures all[start + i] == block[i] {
      ConcatAt(blocks, j, i);
    }
    PrefixConcat(all, start, block);
  }

  lemma PrefixConcat<T>(all: seq<T>, start: nat, block: seq<T>)
    requires start + |block| <= |all|
    requires forall i :: 0 <= i < |block| ==> all[start + i] == block[i]
    ensures all[..start + |block|] == all[..start] + block
  {
    var lhs, rhs := all[..start + |block|], all[..start] + block;
    forall p | 0 <= p < start + |block| ensures lhs[p] == rhs[p] {
      if p >= start {
        assert rhs[p] == block[p - start];
      }
    }
  }
}
