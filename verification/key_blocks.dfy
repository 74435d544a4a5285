// Key IDs drawn uniformly from the union of a host key's blocks.
module KeyBlocks {
  import opened Bits
  import opened Prelude
  import opened Entropy
  import Sorting

  // Both ends belong to the block.
  datatype KeyBlock = KeyBlock(start: U32, end: U32) {
    // end - start + 1, saturating in 32 bits
    function KeyCount(): U32 {
      var width: nat := if end < start then 0 else end - start;
      if width == U32_MAX then U32_MAX else width + 1
    }

    predicate Contains(keyId: nat) {
      start <= keyId <= end
    }
  }

  // ---- what the build reads and checks

  ghost predicate Sorted(blocks: seq<KeyBlock>) {
    forall i, j :: 0 <= i < j < |blocks| ==> blocks[i].start <= blocks[j].start
  }

  ghost predicate Forward(blocks: seq<KeyBlock>) {
    forall i :: 0 <= i < |blocks| ==> blocks[i].start <= blocks[i].end
  }

  ghost predicate Disjoint(blocks: seq<KeyBlock>) {
    forall i, j :: 0 <= i < j < |blocks| ==>
      forall keyId: nat :: !(blocks[i].Contains(keyId) && blocks[j].Contains(keyId))
  }

  // Each block ends before the next one starts
  ghost predicate Apart(blocks: seq<KeyBlock>) {
    forall i :: 0 < i < |blocks| ==> blocks[i - 1].end < blocks[i].start
  }

  // Blocks as pairs are ordered: by start, then by end.
  function Ordinal(block: KeyBlock): int {
    block.start * WORDS + block.end
  }

  lemma OrdinalOrder(a: KeyBlock, b: KeyBlock)
    ensures Ordinal(a) == Ordinal(b) ==> a == b
    ensures Ordinal(a) < Ordinal(b) ==> a.start <= b.start
  {}

  method ReadKeyBlocks(read: seq<KeyBlock>) returns (blocks: Option<seq<KeyBlock>>)
    ensures blocks == if Forward(read) then Some(Sorting.SortedOnce(read, Ordinal)) else None
  {
    var sorted := Sorting.SortedOnce(read, Ordinal);
    SortedOnceIsSorted(read);
    for i := 0 to |sorted|
      invariant forall k :: 0 <= k < i ==> sorted[k].start <= sorted[k].end
    {
      if sorted[i].start > sorted[i].end {
        return None;
      }
    }
    blocks := Some(sorted);
  }

  // Reading loses no block and keeps none twice, so it keeps the union.
  lemma SortedOnceIsSorted(read: seq<KeyBlock>)
    ensures var blocks := Sorting.SortedOnce(read, Ordinal);
      Sorted(blocks) && (Forward(blocks) <==> Forward(read)) && (read != [] ==> blocks != [])
      && (forall block :: block in blocks <==> block in read)
      && forall i, j :: 0 <= i < j < |blocks| ==> blocks[i] != blocks[j]
  {
    var blocks := Sorting.SortedOnce(read, Ordinal);
    forall x, y ensures Ordinal(x) == Ordinal(y) ==> x == y {
      OrdinalOrder(x, y);
    }
    Sorting.SortedOnceFacts(read, Ordinal);
    forall i, j | 0 <= i < j < |blocks| ensures blocks[i].start <= blocks[j].start {
      OrdinalOrder(blocks[i], blocks[j]);
    }
    forall i, j | 0 <= i < j < |blocks| ensures blocks[i] != blocks[j] {
      assert Ordinal(blocks[i]) < Ordinal(blocks[j]);
    }
    SameForward(blocks, read);
    SameForward(read, blocks);
    if read != [] {
      assert read[0] in blocks;
    }
  }

  lemma SameForward(a: seq<KeyBlock>, b: seq<KeyBlock>)
    requires forall block :: block in a <==> block in b
    ensures Forward(a) ==> Forward(b)
  {
    if Forward(a) {
      forall i | 0 <= i < |b| ensures b[i].start <= b[i].end {
        assert b[i] in a;
      }
    }
  }

  method BlocksOverlap(blocks: seq<KeyBlock>) returns (at: Option<U32>)
    requires Sorted(blocks) && Forward(blocks)
    ensures at.None? <==> Disjoint(blocks)
    ensures at.Some? ==> exists i :: 0 < i < |blocks| && blocks[i].start == at.value <= blocks[i - 1].end
  {
    var previousEnd: Option<U32> := None;
    for i := 0 to |blocks|
      invariant previousEnd == if i == 0 then None else Some(blocks[i - 1].end)
      invariant forall k :: 0 < k < i ==> blocks[k - 1].end < blocks[k].start
    {
      if previousEnd.Some? && blocks[i].start <= previousEnd.value {
        assert blocks[i - 1].Contains(blocks[i].start) && blocks[i].Contains(blocks[i].start);
        return Some(blocks[i].start);
      }
      previousEnd := Some(blocks[i].end);
    }
    at := None;
    ApartIsDisjoint(blocks);
  }

  lemma {:induction false} EndsBefore(blocks: seq<KeyBlock>, i: nat, j: nat)
    requires Forward(blocks) && Apart(blocks) && i < j < |blocks|
    ensures blocks[i].end < blocks[j].start
  {
    if i < j - 1 {
      EndsBefore(blocks, i, j - 1);
    }
  }

  lemma ApartIsDisjoint(blocks: seq<KeyBlock>)
    requires Forward(blocks) && Apart(blocks)
    ensures Disjoint(blocks)
  {
    forall i, j, keyId: nat | 0 <= i < j < |blocks|
      ensures !(blocks[i].Contains(keyId) && blocks[j].Contains(keyId))
    {
      EndsBefore(blocks, i, j);
    }
  }

  lemma DisjointIsApart(blocks: seq<KeyBlock>)
    requires Sorted(blocks) && Forward(blocks) && Disjoint(blocks)
    ensures Apart(blocks)
  {
    forall i | 0 < i < |blocks| ensures blocks[i - 1].end < blocks[i].start {
      assert !(blocks[i - 1].Contains(blocks[i].start) && blocks[i].Contains(blocks[i].start));
    }
  }

  // ---- the walk

  function SumOfCounts(blocks: seq<KeyBlock>): nat {
    if blocks == [] then 0 else blocks[0].KeyCount() + SumOfCounts(blocks[1..])
  }

  // The bound of the draw
  function DrawBound(blocks: seq<KeyBlock>): U32 {
    if SumOfCounts(blocks) > U32_MAX then U32_MAX else SumOfCounts(blocks)
  }

  // How many key IDs the blocks hold
  function Size(blocks: seq<KeyBlock>): nat
    requires Forward(blocks)
  {
    if blocks == [] then 0 else blocks[0].end - blocks[0].start + 1 + Size(blocks[1..])
  }

  ghost predicate InUnion(blocks: seq<KeyBlock>, keyId: nat) {
    exists i :: 0 <= i < |blocks| && blocks[i].Contains(keyId)
  }

  // The key ID an offset stands for
  function Walk(blocks: seq<KeyBlock>, offset: nat): Option<nat> {
    if blocks == [] then None
    else if offset < blocks[0].KeyCount() then Some(blocks[0].start + offset)
    else Walk(blocks[1..], offset - blocks[0].KeyCount())
  }

  // How many key IDs of the blocks lie below one of them
  function Rank(blocks: seq<KeyBlock>, keyId: nat): nat
    requires Forward(blocks) && InUnion(blocks, keyId)
  {
    if blocks[0].Contains(keyId) then keyId - blocks[0].start
    else
      assert InUnion(blocks[1..], keyId) by {
        var i :| 0 <= i < |blocks| && blocks[i].Contains(keyId);
        assert blocks[1..][i - 1].Contains(keyId);
      }
      blocks[0].end - blocks[0].start + 1 + Rank(blocks[1..], keyId)
  }

  // No block is the whole of the 32-bit range
  ghost predicate Short(blocks: seq<KeyBlock>) {
    forall i :: 0 <= i < |blocks| ==> blocks[i].end - blocks[i].start < U32_MAX
  }

  lemma {:induction false} CountsAreSizes(blocks: seq<KeyBlock>)
    requires Forward(blocks) && Short(blocks)
    ensures SumOfCounts(blocks) == Size(blocks)
  {
    if blocks != [] {
      CountsAreSizes(blocks[1..]);
    }
  }

  lemma {:induction false} WalkEnds(blocks: seq<KeyBlock>, offset: nat)
    ensures Walk(blocks, offset).Some? <==> offset < SumOfCounts(blocks)
  {
    if blocks != [] && offset >= blocks[0].KeyCount() {
      WalkEnds(blocks[1..], offset - blocks[0].KeyCount());
    }
  }

  lemma {:induction false} WalkOfApart(blocks: seq<KeyBlock>, offset: nat, keyId: nat)
    requires Forward(blocks) && Apart(blocks) && Short(blocks)
    ensures Walk(blocks, offset) == Some(keyId) <==> InUnion(blocks, keyId) && Rank(blocks, keyId) == offset
    ensures Walk(blocks, offset).Some? <==> offset < Size(blocks)
    ensures SumOfCounts(blocks) == Size(blocks)
  {
    CountsAreSizes(blocks);
    WalkEnds(blocks, offset);
    if blocks != [] {
      var first, rest := blocks[0], blocks[1..];
      WalkOfApart(rest, if offset < first.KeyCount() then 0 else offset - first.KeyCount(), keyId);
      if InUnion(rest, keyId) {
        LaterIsAbove(blocks, keyId);
      }
    }
  }

  // Offset and key ID determine each other: the walk is a bijection onto the union.
  lemma WalkIsBijection(blocks: seq<KeyBlock>, offset: nat, keyId: nat)
    requires Sorted(blocks) && Forward(blocks) && Disjoint(blocks) && Short(blocks)
    ensures Walk(blocks, offset) == Some(keyId) <==> InUnion(blocks, keyId) && Rank(blocks, keyId) == offset
    ensures Walk(blocks, offset).Some? <==> offset < Size(blocks)
  {
    DisjointIsApart(blocks);
    WalkOfApart(blocks, offset, keyId);
  }

  lemma LaterIsAbove(blocks: seq<KeyBlock>, keyId: nat)
    requires Forward(blocks) && Apart(blocks) && blocks != [] && InUnion(blocks[1..], keyId)
    ensures InUnion(blocks, keyId) && keyId > blocks[0].end
  {
    var i :| 0 <= i < |blocks[1..]| && blocks[1..][i].Contains(keyId);
    assert blocks[i + 1].Contains(keyId);
    EndsBefore(blocks, 0, i + 1);
  }

  // The last key ID of the last block has every other one below it.
  lemma {:induction false} LastRank(blocks: seq<KeyBlock>)
    requires Forward(blocks) && Apart(blocks) && blocks != []
    ensures var last := blocks[|blocks| - 1].end;
      InUnion(blocks, last) && Rank(blocks, last) == Size(blocks) - 1 && Size(blocks) <= last + 1 - blocks[0].start
  {
    var last := blocks[|blocks| - 1];
    assert last.Contains(last.end);
    if |blocks| > 1 {
      LastRank(blocks[1..]);
      EndsBefore(blocks, 0, |blocks| - 1);
      assert blocks[0].end < blocks[1].start;
    }
  }

  lemma SmallIsShort(blocks: seq<KeyBlock>)
    requires Forward(blocks) && Apart(blocks) && (Size(blocks) <= U32_MAX || |blocks| > 1)
    ensures Short(blocks)
  {
    forall i | 0 <= i < |blocks| ensures blocks[i].end - blocks[i].start < U32_MAX {
      if |blocks| > 1 {
        if i > 0 {
          assert blocks[i - 1].end < blocks[i].start;
        } else {
          assert blocks[0].end < blocks[1].start;
        }
      }
    }
  }

  // ---- the draw

  // The key ID a 32-bit word gives, if the rejection loop takes the word
  ghost predicate Gives(blocks: seq<KeyBlock>, word: nat, keyId: nat)
    requires DrawBound(blocks) > 0
  {
    && word < WORDS && Accepted(word, DrawBound(blocks))
    && Walk(blocks, word % (Mask(DrawBound(blocks)) + 1)) == Some(keyId)
  }

  lemma FirstCounts(blocks: seq<KeyBlock>)
    requires Forward(blocks) && blocks != []
    ensures blocks[0].KeyCount() > 0
  {}

  lemma KeyDrawOfApart(blocks: seq<KeyBlock>, keyId: nat)
    requires Forward(blocks) && Apart(blocks) && blocks != [] && Size(blocks) <= U32_MAX
    ensures 0 < DrawBound(blocks) == Size(blocks) && BitLength(Size(blocks) - 1) <= 32
    ensures |set w: nat | w < WORDS && Gives(blocks, w, keyId)|
         == if InUnion(blocks, keyId) then Pow2(32 - BitLength(Size(blocks) - 1)) else 0
  {
    hide Mask, Pow2, BitLength, Walk, Rank, Accepted, Apart, Forward, Short;
    assert blocks[0].KeyCount() > 0 by { FirstCounts(blocks); }
    SmallIsShort(blocks);
    WalkOfApart(blocks, 0, keyId);
    var bound := DrawBound(blocks);
    var giving := set w: nat | w < WORDS && Gives(blocks, w, keyId);
    forall w: nat | w < WORDS
      ensures Gives(blocks, w, keyId) <==>
        Accepted(w, bound) && InUnion(blocks, keyId) && Rank(blocks, keyId) == w % (Mask(bound) + 1)
    {
      WalkOfApart(blocks, w % (Mask(bound) + 1), keyId);
    }
    if InUnion(blocks, keyId) {
      var rank := Rank(blocks, keyId);
      WalkOfApart(blocks, rank, keyId);
      DrawIsUniform(bound, rank);
      assert giving == set w: nat | w < WORDS && Accepted(w, bound) && w % (Mask(bound) + 1) == rank;
    } else {
      DrawIsUniform(bound, 0);
      assert giving == {};
    }
  }

  lemma EveryKeyIdOfApart(blocks: seq<KeyBlock>)
    requires Forward(blocks) && Apart(blocks) && blocks != []
    ensures DrawBound(blocks) > 0
    ensures (forall keyId: nat :: InUnion(blocks, keyId) ==> exists w: nat :: Gives(blocks, w, keyId))
      <==> Size(blocks) <= U32_MAX
  {
    assert blocks[0].KeyCount() > 0;
    if Size(blocks) <= U32_MAX {
      forall keyId: nat | InUnion(blocks, keyId) ensures exists w: nat :: Gives(blocks, w, keyId) {
        KeyDrawOfApart(blocks, keyId);
        var giving := set w: nat | w < WORDS && Gives(blocks, w, keyId);
        assert giving != {};
        var w :| w in giving;
      }
    } else {
      var last := blocks[|blocks| - 1].end;
      LastRank(blocks);
      forall w: nat ensures !Gives(blocks, w, last) {
        LastNotDrawn(blocks, w);
      }
    }
  }

  lemma LastNotDrawn(blocks: seq<KeyBlock>, w: nat)
    requires Forward(blocks) && Apart(blocks) && blocks != [] && Size(blocks) > U32_MAX && DrawBound(blocks) > 0
    ensures !Gives(blocks, w, blocks[|blocks| - 1].end)
  {
    hide Mask, Rank, Walk;
    LastRank(blocks);
    var last := blocks[|blocks| - 1].end;
    if w < WORDS && Accepted(w, DrawBound(blocks)) {
      var offset := w % (Mask(DrawBound(blocks)) + 1);
      if |blocks| > 1 {
        SmallIsShort(blocks);
        WalkOfApart(blocks, offset, last);
      } else {
        FirstBlockOnly(blocks, offset);
      }
    }
  }

  lemma FirstBlockOnly(blocks: seq<KeyBlock>, offset: nat)
    requires Forward(blocks) && |blocks| == 1 && Size(blocks) > U32_MAX && offset < U32_MAX
    ensures Walk(blocks, offset) == Some(offset) && blocks[0].end == U32_MAX
  {
    assert Size(blocks[1..]) == 0;
    assert blocks[0].start == 0 && blocks[0].end == U32_MAX;
  }

  // On blocks the build accepts the draw is uniform over the union, and gives nothing outside it.
  lemma KeyDrawIsUniform(blocks: seq<KeyBlock>, keyId: nat)
    requires Sorted(blocks) && Forward(blocks) && Disjoint(blocks) && blocks != [] && Size(blocks) <= U32_MAX
    ensures 0 < DrawBound(blocks) == Size(blocks) && BitLength(Size(blocks) - 1) <= 32
    ensures |set w: nat | w < WORDS && Gives(blocks, w, keyId)|
         == if InUnion(blocks, keyId) then Pow2(32 - BitLength(Size(blocks) - 1)) else 0
  {
    DisjointIsApart(blocks);
    KeyDrawOfApart(blocks, keyId);
  }

  // Blocks that cover all 2^32 key IDs lose the last one; no others do.
  lemma EveryKeyIdIsDrawn(blocks: seq<KeyBlock>)
    requires Sorted(blocks) && Forward(blocks) && Disjoint(blocks) && blocks != []
    ensures DrawBound(blocks) > 0
    ensures (forall keyId: nat :: InUnion(blocks, keyId) ==> exists w: nat :: Gives(blocks, w, keyId))
      <==> Size(blocks) <= U32_MAX
  {
    DisjointIsApart(blocks);
    EveryKeyIdOfApart(blocks);
  }

  // It is the sum that is one too many: two blocks, neither of which is, can lose the last key ID too.
  lemma TwoBlocksLoseTheLast(w: nat)
    ensures var blocks := [KeyBlock(0, 0), KeyBlock(1, U32_MAX)];
      && Sorted(blocks) && Forward(blocks) && Disjoint(blocks) && Short(blocks)
      && InUnion(blocks, U32_MAX) && DrawBound(blocks) > 0 && !Gives(blocks, w, U32_MAX)
  {
    var blocks := [KeyBlock(0, 0), KeyBlock(1, U32_MAX)];
    assert blocks[1].Contains(U32_MAX);
    TwoBlockSums(blocks[0], blocks[1]);
    assert Apart(blocks);
    LastNotDrawn(blocks, w);
  }

  lemma TwoBlockSums(a: KeyBlock, b: KeyBlock)
    requires Forward([a, b])
    ensures Size([a, b]) == a.end - a.start + 1 + (b.end - b.start + 1)
    ensures SumOfCounts([a, b]) == a.KeyCount() + b.KeyCount() > 0
  {
    assert [a, b][1..] == [b] && [b][1..] == [];
    assert Size([b]) == b.end - b.start + 1 && SumOfCounts([b]) == b.KeyCount();
  }

  method DrawKeyId(source: Source, blocks: seq<KeyBlock>) returns (r: Result<U32, EntropyUnavailable>)
    requires source.Valid()
    modifies source
    ensures source.Valid()
    ensures blocks == [] ==> r == Err(EntropyUnavailable) && source.position == old(source.position)
    ensures blocks != [] ==> DrawBound(blocks) > 0
    ensures blocks != [] ==> var at := FirstAccepted(source.words, old(source.position), DrawBound(blocks));
      if at < |source.words| then r.Ok? && Gives(blocks, source.words[at], r.value) && source.position == at + 1
      else r == Err(EntropyUnavailable) && source.position == |source.words|
  {
    hide Mask, Accepted;
    var total := 0;
    for i := 0 to |blocks|
      invariant total + SumOfCounts(blocks[i..]) == SumOfCounts(blocks)
    {
      total := total + blocks[i].KeyCount();
    }
    var bound: U32 := if total > U32_MAX then U32_MAX else total;
    if bound == 0 {
      return Err(EntropyUnavailable);
    }
    var drawn := source.UniformBelow(bound);
    if drawn.Err? {
      return drawn;
    }
    var offset: nat := drawn.value;
    r := Ok(blocks[0].start);
    for i := 0 to |blocks|
      invariant Walk(blocks[i..], offset) == Walk(blocks, drawn.value)
    {
      var width := blocks[i].KeyCount();
      if offset < width {
        return Ok(blocks[i].start + offset);
      }
      offset := offset - width;
      assert blocks[i..][1..] == blocks[i + 1..];
    }
    WalkEnds(blocks, drawn.value);
    assert false;
  }
}
