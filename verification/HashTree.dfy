/** dm-verity hash trees: level sizes and offsets, what the tree is, and what its root binds. */
module HashTree {
  import opened Bytes
  import opened ImageHandling

  // ------------------------------------------------------------- sizes

  function CeilDiv(n: nat, d: nat): nat
    requires d > 0
  {
    (n + d - 1) / d
  }

  /** Block and entry sizes for which the size loop of the program terminates. */
  predicate WFSizes(bs: nat, entry: nat) {
    0 < 2 * entry <= bs
  }

  /** Bytes of the level above size bytes: one entry a block, padded to whole blocks. */
  function LevelSize(size: nat, bs: nat, entry: nat): nat
    requires WFSizes(bs, entry)
  {
    RoundToMultiple(CeilDiv(size, bs) * entry, bs)
  }

  lemma CeilDivBounds(n: nat, d: nat)
    requires d > 0
    ensures n <= CeilDiv(n, d) * d < n + d
    ensures n > 0 ==> CeilDiv(n, d) > 0
  {
    if n > 0 {
      DivUnique(n + d - 1, d, (n - 1) / d + 1, (n - 1) % d);
    }
  }

  lemma CeilDivMonotone(a: nat, b: nat, d: nat)
    requires d > 0 && a <= b
    ensures CeilDiv(a, d) <= CeilDiv(b, d)
  {
    CeilDivBounds(a, d);
    CeilDivBounds(b, d);
    if CeilDiv(a, d) > CeilDiv(b, d) {
      MulGrows(CeilDiv(b, d), CeilDiv(a, d), d);
    }
  }

  /** At most half as many blocks, rounded up, as the level below. */
  lemma LevelHalves(size: nat, bs: nat, entry: nat)
    requires WFSizes(bs, entry) && size > 0
    ensures 0 < LevelSize(size, bs, entry) <= ((CeilDiv(size, bs) + 1) / 2) * bs
    ensures LevelSize(size, bs, entry) % bs == 0
  {
    var n := CeilDiv(size, bs);
    var half := (n + 1) / 2;
    CeilDivBounds(size, bs);
    MulGrows(0, n, entry);
    MulGrows(n, 2 * half, entry);
    assert (2 * half) * entry == half * (2 * entry);
    MulGrowsRight(half, 2 * entry, bs);
    MulMod(half, bs);
    RoundToMultipleMonotone(n * entry, half * bs, bs);
  }

  lemma MulGrowsRight(k: nat, a: nat, b: nat)
    requires a <= b
    ensures k * a <= k * b
  {
    MulGrows(a, b, k);
  }

  /** Each level is strictly smaller than what it hashes: the loop terminates. */
  lemma LevelShrinks(size: nat, bs: nat, entry: nat)
    requires WFSizes(bs, entry) && size > bs
    ensures 0 < LevelSize(size, bs, entry) < size
  {
    var n := CeilDiv(size, bs);
    LevelHalves(size, bs, entry);
    CeilDivBounds(size, bs);
    hide CeilDiv, LevelSize;
    if n < 2 {
      MulGrows(n, 1, bs);
    }
    MulGrows((n + 1) / 2, n - 1, bs);
    Distribute(n - 1, 1, bs);
  }

  /** Sizes of the levels, bottom first. */
  function LevelSizes(size: nat, bs: nat, entry: nat): seq<nat>
    requires WFSizes(bs, entry)
    decreases size
  {
    if size <= bs then []
    else
      LevelShrinks(size, bs, entry);
      [LevelSize(size, bs, entry)] + LevelSizes(LevelSize(size, bs, entry), bs, entry)
  }

  function Sum(s: seq<nat>): nat {
    if s == [] then 0 else s[0] + Sum(s[1..])
  }

  function TreeSize(size: nat, bs: nat, entry: nat): nat
    requires WFSizes(bs, entry)
  {
    Sum(LevelSizes(size, bs, entry))
  }

  /** Level n is stored behind all the levels above it. */
  function Offsets(levels: seq<nat>): seq<nat> {
    seq(|levels|, n requires 0 <= n < |levels| => Sum(levels[n + 1..]))
  }

  lemma TreeSizeStep(size: nat, bs: nat, entry: nat)
    requires WFSizes(bs, entry) && size > bs
    ensures var l := LevelSize(size, bs, entry);
            && TreeSize(size, bs, entry) == l + TreeSize(l, bs, entry)
            && LevelSizes(size, bs, entry)[1..] == LevelSizes(l, bs, entry)
  {
    var l := LevelSize(size, bs, entry);
    assert ([l] + LevelSizes(l, bs, entry))[1..] == LevelSizes(l, bs, entry);
  }

  lemma LevelSizesUnfold(size: nat, bs: nat, entry: nat)
    requires WFSizes(bs, entry)
    ensures LevelSizes(size, bs, entry)
            == if size <= bs then []
               else [LevelSize(size, bs, entry)] + LevelSizes(LevelSize(size, bs, entry), bs, entry)
  {
  }

  lemma {:induction false} SumStep(s: seq<nat>, x: nat)
    ensures Sum(s + [x]) == Sum(s) + x
  {
    if s == [] {
      assert [x][1..] == [];
    } else {
      ConsConcat(s, [x]);
      SumStep(s[1..], x);
    }
  }

  /** Every level is a positive number of whole blocks, and the top one is a single block. */
  lemma {:induction false} LevelsWhole(size: nat, bs: nat, entry: nat, n: nat)
    requires WFSizes(bs, entry) && n < |LevelSizes(size, bs, entry)|
    ensures LevelSizes(size, bs, entry)[n] > 0 && LevelSizes(size, bs, entry)[n] % bs == 0
    ensures n + 1 == |LevelSizes(size, bs, entry)| ==> LevelSizes(size, bs, entry)[n] == bs
    decreases n
  {
    var l := LevelSize(size, bs, entry);
    LevelHalves(size, bs, entry);
    LevelSizesUnfold(size, bs, entry);
    LevelSizesUnfold(l, bs, entry);
    hide LevelSizes, LevelSize;
    if n == 0 {
      MultiplesGap(bs, l, bs);
    } else {
      LevelsWhole(l, bs, entry, n - 1);
    }
  }

  /** Levels tile the tree: each ends where the level below it begins, the top one begins at 0. */
  lemma LevelsTile(size: nat, bs: nat, entry: nat, n: nat)
    requires WFSizes(bs, entry) && n < |LevelSizes(size, bs, entry)|
    ensures var ls := LevelSizes(size, bs, entry);
            && |Offsets(ls)| == |ls|
            && Offsets(ls)[n] + ls[n] == (if n == 0 then TreeSize(size, bs, entry) else Offsets(ls)[n - 1])
            && (n + 1 == |ls| ==> Offsets(ls)[n] == 0)
  {
    hide LevelSizes, Sum;
    var ls := LevelSizes(size, bs, entry);
    SumTail(ls, n);
    assert ls[0..] == ls;
    if n + 1 == |ls| {
      SumTail(ls, n + 1);
    }
  }

  lemma SumTail(s: seq<nat>, n: nat)
    requires n <= |s|
    ensures n < |s| ==> Sum(s[n..]) == s[n] + Sum(s[n + 1..])
    ensures n == |s| ==> Sum(s[n..]) == 0
  {
    if n < |s| {
      assert s[n..][0] == s[n] && s[n..][1..] == s[n + 1..];
    }
  }

  function CeilLog2(n: nat): nat {
    if n <= 1 then 0 else 1 + CeilLog2((n + 1) / 2)
  }

  lemma {:induction false} CeilLog2Monotone(a: nat, b: nat)
    requires a <= b
    ensures CeilLog2(a) <= CeilLog2(b)
    decreases b
  {
    if a > 1 {
      CeilLog2Monotone((a + 1) / 2, (b + 1) / 2);
    }
  }

  /** The number of levels is at most the rounded-up binary logarithm of the number of blocks. */
  lemma {:induction false} LevelCount(size: nat, bs: nat, entry: nat)
    requires WFSizes(bs, entry)
    ensures |LevelSizes(size, bs, entry)| <= CeilLog2(CeilDiv(size, bs))
    decreases size
  {
    if size > bs {
      var l, n := LevelSize(size, bs, entry), CeilDiv(size, bs);
      LevelShrinks(size, bs, entry);
      LevelHalves(size, bs, entry);
      CeilDivBounds(size, bs);
      if n <= 1 {
        MulGrows(n, 1, bs);
      }
      LevelCount(l, bs, entry);
      CeilDivMonotone(l, ((n + 1) / 2) * bs, bs);
      DivUnique(((n + 1) / 2) * bs + bs - 1, bs, (n + 1) / 2, bs - 1);
      CeilLog2Monotone(CeilDiv(l, bs), (n + 1) / 2);
    }
  }

  lemma LevelSizeMonotone(a: nat, b: nat, bs: nat, entry: nat)
    requires WFSizes(bs, entry) && a <= b
    ensures LevelSize(a, bs, entry) <= LevelSize(b, bs, entry)
  {
    CeilDivMonotone(a, b, bs);
    MulGrows(CeilDiv(a, bs), CeilDiv(b, bs), entry);
    RoundToMultipleMonotone(CeilDiv(a, bs) * entry, CeilDiv(b, bs) * entry, bs);
  }

  /** A larger image has no smaller tree, so room reserved for the partition's tree is room for the image's. */
  lemma {:induction false} TreeSizeMonotone(a: nat, b: nat, bs: nat, entry: nat)
    requires WFSizes(bs, entry) && a <= b
    ensures TreeSize(a, bs, entry) <= TreeSize(b, bs, entry)
    decreases a
  {
    if a > bs {
      LevelShrinks(a, bs, entry);
      LevelSizeMonotone(a, b, bs, entry);
      TreeSizeMonotone(LevelSize(a, bs, entry), LevelSize(b, bs, entry), bs, entry);
      TreeSizeStep(a, bs, entry);
      TreeSizeStep(b, bs, entry);
    }
  }

  lemma {:induction false} TreeSizeWhole(size: nat, bs: nat, entry: nat)
    requires WFSizes(bs, entry)
    ensures TreeSize(size, bs, entry) % bs == 0
    decreases size
  {
    if size > bs {
      LevelShrinks(size, bs, entry);
      TreeSizeStep(size, bs, entry);
      TreeSizeWhole(LevelSize(size, bs, entry), bs, entry);
      MultiplesClosed(LevelSize(size, bs, entry), TreeSize(LevelSize(size, bs, entry), bs, entry), bs);
    }
  }

  /** The loops of calc_hash_level_offsets. */
  method CalcHashLevelOffsets(imageSize: nat, blockSize: nat, digestSize: nat)
    returns (levelOffsets: seq<nat>, treeSize: nat)
    requires WFSizes(blockSize, digestSize)
    ensures levelOffsets == Offsets(LevelSizes(imageSize, blockSize, digestSize))
    ensures treeSize == TreeSize(imageSize, blockSize, digestSize)
  {
    hide LevelSizes;
    ghost var all := LevelSizes(imageSize, blockSize, digestSize);
    var levelSizes: seq<nat> := [];
    treeSize := 0;
    var numLevels, size: nat := 0, imageSize;
    while size > blockSize
      invariant levelSizes + LevelSizes(size, blockSize, digestSize) == all
      invariant treeSize == Sum(levelSizes) && numLevels == |levelSizes|
      decreases size
    {
      LevelShrinks(size, blockSize, digestSize);
      LevelSizesUnfold(size, blockSize, digestSize);
      var numBlocks := (size + blockSize - 1) / blockSize;
      var levelSize := RoundToMultiple(numBlocks * digestSize, blockSize);
      SumStep(levelSizes, levelSize);
      Assoc(levelSizes, [levelSize], LevelSizes(levelSize, blockSize, digestSize));
      levelSizes := levelSizes + [levelSize];
      treeSize := treeSize + levelSize;
      numLevels := numLevels + 1;
      size := levelSize;
    }
    LevelSizesUnfold(size, blockSize, digestSize);
    assert levelSizes == all;
    levelOffsets := LevelOffsets(levelSizes);
  }

  /** The nested loops at its end: the offset of a level is the size of everything above it. */
  method LevelOffsets(levelSizes: seq<nat>) returns (levelOffsets: seq<nat>)
    ensures levelOffsets == Offsets(levelSizes)
  {
    hide Sum;
    levelOffsets := [];
    for n := 0 to |levelSizes|
      invariant levelOffsets == Offsets(levelSizes)[..n]
    {
      var offset := 0;
      SumNothing();
      assert levelSizes[n + 1..n + 1] == [];
      for m := n + 1 to |levelSizes|
        invariant offset == Sum(levelSizes[n + 1..m])
      {
        SumStep(levelSizes[n + 1..m], levelSizes[m]);
        assert levelSizes[n + 1..m + 1] == levelSizes[n + 1..m] + [levelSizes[m]];
        offset := offset + levelSizes[m];
      }
      assert levelSizes[n + 1..|levelSizes|] == levelSizes[n + 1..];
      levelOffsets := levelOffsets + [offset];
    }
  }

  lemma SumNothing()
    ensures Sum([]) == 0
  {
  }

  // ------------------------------------------------------------- the tree

  /** Hash function (with its digest size), salt, zero padding behind each digest, and block size. */
  datatype Params = Params(hash: bytes -> bytes, digestSize: nat, salt: bytes, padding: nat, bs: nat) {
    function EntrySize(): nat {
      digestSize + padding
    }

    ghost predicate WF() {
      && (forall x :: |hash(x)| == digestSize)
      && WFSizes(bs, EntrySize())
    }
  }

  /** The digest entry of one block, NUL-extended to the block size. */
  function Entry(p: Params, block: bytes): bytes {
    p.hash(Input(p, block)) + Zeros(p.padding)
  }

  /** The entries of all blocks of s, in order. */
  ghost function Entries(p: Params, s: bytes): (r: bytes)
    requires p.WF()
    ensures |r| == CeilDiv(|s|, p.bs) * p.EntrySize()
    decreases |s|
  {
    if s == [] then EntriesSize(0, p.bs); []
    else
      var n := Min(|s|, p.bs);
      EntriesSize(|s|, p.bs);
      Distribute(1, CeilDiv(|s| - n, p.bs), p.EntrySize());
      Entry(p, s[..n]) + Entries(p, s[n..])
  }

  lemma EntriesSize(n: nat, bs: nat)
    requires bs > 0
    ensures n == 0 ==> CeilDiv(n, bs) == 0
    ensures n > 0 ==> CeilDiv(n, bs) == 1 + CeilDiv(n - Min(n, bs), bs)
  {
    DivUnique(bs - 1, bs, 0, bs - 1);
    if n > 0 {
      var q, r := (n - 1) / bs, (n - 1) % bs;
      Distribute(q, 1, bs);
      DivUnique(n + bs - 1, bs, q + 1, r);
      if n <= bs {
        DivUnique(n - 1, bs, 0, n - 1);
      }
    }
  }

  /** The level above s. */
  ghost function Level(p: Params, s: bytes): (r: bytes)
    requires p.WF()
    ensures |r| == LevelSize(|s|, p.bs, p.EntrySize())
  {
    Resize(Entries(p, s), LevelSize(|s|, p.bs, p.EntrySize()))
  }

  /** Levels stored upside down: what is above s, then the level over s. */
  ghost function Tree(p: Params, s: bytes): (r: bytes)
    requires p.WF()
    ensures |r| == TreeSize(|s|, p.bs, p.EntrySize())
    decreases |s|
  {
    if |s| <= p.bs then []
    else
      LevelShrinks(|s|, p.bs, p.EntrySize());
      TreeSizeStep(|s|, p.bs, p.EntrySize());
      Tree(p, Level(p, s)) + Level(p, s)
  }

  /** The root digest: the hash of the single block everything is reduced to. */
  ghost function Root(p: Params, s: bytes): bytes
    requires p.WF()
    decreases |s|
  {
    if |s| <= p.bs then p.hash(p.salt + s)
    else
      LevelShrinks(|s|, p.bs, p.EntrySize());
      Root(p, Level(p, s))
  }

  // ------------------------------------------------------------- what is stored where

  /** Entry j of a level is the digest of salt, block j of src and NULs up to the block size, and its padding. */
  ghost predicate IsEntry(p: Params, src: bytes, level: bytes, j: nat) {
    var e := p.digestSize + p.padding;
    EntryOf(p, Slice(src, j * p.bs, j * p.bs + p.bs), Slice(level, j * e, j * e + e))
  }

  predicate EntryOf(p: Params, block: bytes, entry: bytes) {
    entry == p.hash(p.salt + block + Zeros(Max(0, p.bs - |block|))) + Zeros(p.padding)
  }

  /** A level: an entry for each block of src, then NULs up to whole blocks. */
  ghost predicate IsLevel(p: Params, src: bytes, level: bytes)
    requires p.bs > 0
  {
    var n, e := (|src| + p.bs - 1) / p.bs, p.digestSize + p.padding;
    && |level| % p.bs == 0 && n * e <= |level| < n * e + p.bs
    && (forall j: nat :: j < n ==> IsEntry(p, src, level, j))
    && level[n * e..] == Zeros(|level| - n * e)
  }

  /** Level k of a tree, at its offset, up to the level below it or the end. */
  function StoredLevel(tree: bytes, offsets: seq<nat>, k: nat): bytes
    requires k < |offsets|
  {
    Slice(tree, offsets[k], if k == 0 then |tree| else offsets[k - 1])
  }

  /** Level k is one over more than a block: over data, or over the level behind it. */
  ghost predicate IsStored(p: Params, data: bytes, offsets: seq<nat>, tree: bytes, k: nat)
    requires p.bs > 0 && k < |offsets|
  {
    var src := if k == 0 then data else StoredLevel(tree, offsets, k - 1);
    |src| > p.bs && IsLevel(p, src, StoredLevel(tree, offsets, k))
  }

  /**
    A tree over data as it is stored: the first level is over data, each other over the one behind it, none over just a
    block; the last one is a block at the start, and the root is its digest, or that of data without any level.
   */
  ghost predicate IsTree(p: Params, data: bytes, offsets: seq<nat>, tree: bytes, root: bytes)
    requires p.bs > 0
  {
    && (forall k: nat :: k < |offsets| ==> IsStored(p, data, offsets, tree, k))
    && if offsets == [] then |data| <= p.bs && tree == [] && root == p.hash(p.salt + data)
       else offsets[|offsets| - 1] == 0 && p.bs <= |tree| && |StoredLevel(tree, offsets, |offsets| - 1)| == p.bs
            && root == p.hash(p.salt + tree[..p.bs])
  }

  lemma SliceBehind<T>(s: seq<T>, n: nat, lo: nat, hi: nat)
    requires n <= |s|
    ensures Slice(s[n..], lo, hi) == Slice(s, n + lo, n + hi)
  {
    var t := s[n..];
    if lo <= hi && lo <= |t| {
      var h := if hi <= |t| then hi else |t|;
      assert t == s[n..|s|];
      SubSlice(s, n, |s|, lo, h);
      assert Slice(t, lo, hi) == t[lo..h];
      assert Slice(s, n + lo, n + hi) == s[n + lo..n + h];
    }
  }

  lemma SliceFront<T>(a: seq<T>, b: seq<T>)
    ensures Slice(a + b, 0, |a|) == a
  {
  }

  lemma SliceSecond<T>(a: seq<T>, b: seq<T>, lo: nat, hi: nat)
    ensures Slice(a + b, |a| + lo, |a| + hi) == Slice(b, lo, hi)
  {
    assert (a + b)[|a|..] == b;
    SliceBehind(a + b, |a|, lo, hi);
  }

  /** Entries are in the order of the blocks. */
  lemma {:induction false} EntriesAt(p: Params, s: bytes, j: nat)
    requires p.WF() && j * p.bs < |s|
    ensures IsEntry(p, s, Entries(p, s), j)
    decreases j
  {
    hide IsEntry, Entry, Entries;
    var n := Min(|s|, p.bs);
    EntriesOfSome(p, s);
    if j == 0 {
      EntryFirst(p, s, Entries(p, s[n..]));
    } else {
      MulGrows(1, j, p.bs);
      Distribute(j - 1, 1, p.bs);
      EntriesAt(p, s[n..], j - 1);
      EntryNext(p, s, Entry(p, s[..n]), Entries(p, s[n..]), j);
    }
  }

  lemma EntriesOfSome(p: Params, s: bytes)
    requires p.WF() && s != []
    ensures var n := Min(|s|, p.bs); Entries(p, s) == Entry(p, s[..n]) + Entries(p, s[n..])
    ensures |Entry(p, s[..Min(|s|, p.bs)])| == p.EntrySize()
  {
  }

  lemma EntryFirst(p: Params, s: bytes, rest: bytes)
    requires p.WF()
    ensures IsEntry(p, s, Entry(p, s[..Min(|s|, p.bs)]) + rest, 0)
  {
    FirstBlock(s, p.bs);
    var entry := Entry(p, s[..Min(|s|, p.bs)]);
    SliceFront(entry, rest);
    assert |entry| == p.EntrySize();
    hide Slice;
  }

  lemma EntryNext(p: Params, s: bytes, head: bytes, rest: bytes, j: nat)
    requires p.bs <= |s| && |head| == p.EntrySize() && j > 0 && IsEntry(p, s[p.bs..], rest, j - 1)
    ensures IsEntry(p, s, head + rest, j)
  {
    hide Slice, EntryOf;
    NextPart(head, rest, j, p.EntrySize());
    NextPart(s[..p.bs], s[p.bs..], j, p.bs);
    Rejoin(s, p.bs);
  }

  lemma Rejoin(s: bytes, n: nat)
    requires n <= |s|
    ensures s[..n] + s[n..] == s
  {
  }

  lemma NextPart(head: bytes, rest: bytes, j: nat, n: nat)
    requires |head| == n && j > 0
    ensures Slice(head + rest, j * n, j * n + n) == Slice(rest, (j - 1) * n, (j - 1) * n + n)
  {
    hide Slice;
    Distribute(j - 1, 1, n);
    MulGrows(0, j - 1, n);
    SliceSecond(head, rest, (j - 1) * n, (j - 1) * n + n);
  }

  lemma FirstBlock(s: bytes, bs: nat)
    ensures Slice(s, 0, bs) == s[..Min(|s|, bs)]
  {
  }

  /** What Level makes is a level. */
  lemma LevelIs(p: Params, s: bytes)
    requires p.WF() && s != []
    ensures IsLevel(p, s, Level(p, s))
  {
    hide Entries, Level, IsEntry;
    var n, e := CeilDiv(|s|, p.bs), p.EntrySize();
    var all, level := Entries(p, s), Level(p, s);
    CeilDivBounds(|s|, p.bs);
    LevelPadding(p, s);
    assert level == all + Zeros(|level| - n * e);
    forall j: nat | j < n ensures IsEntry(p, s, level, j) {
      MulGrows(j + 1, n, p.bs);
      Distribute(j, 1, p.bs);
      BlockStarts(j, n, |s|, p.bs);
      EntriesAt(p, s, j);
      MulGrows(j + 1, n, e);
      Distribute(j, 1, e);
      EntryKept(p, s, all, Zeros(|level| - n * e), j);
    }
    assert level[n * e..] == Zeros(|level| - n * e);
  }

  lemma BlockStarts(j: nat, n: nat, size: nat, bs: nat)
    requires j < n && bs > 0 && n * bs < size + bs
    ensures j * bs < size
  {
    MulGrows(j, n - 1, bs);
    Distribute(n - 1, 1, bs);
  }

  lemma EntryKept(p: Params, s: bytes, all: bytes, z: bytes, j: nat)
    requires IsEntry(p, s, all, j) && j * p.EntrySize() + p.EntrySize() <= |all|
    ensures IsEntry(p, s, all + z, j)
  {
    hide EntryOf, Slice;
    SliceKept(all, z, j * p.EntrySize(), j * p.EntrySize() + p.EntrySize());
  }

  lemma SliceKept<T>(a: seq<T>, b: seq<T>, lo: nat, hi: nat)
    requires hi <= |a|
    ensures Slice(a + b, lo, hi) == Slice(a, lo, hi)
  {
  }

  /** Each offset lies in the tree, at or below the one before it. */
  predicate Descending(offsets: seq<nat>, size: nat) {
    forall k :: 0 <= k < |offsets| ==> InOrder(offsets, size, k)
  }

  predicate InOrder(offsets: seq<nat>, size: nat, k: nat)
    requires k < |offsets|
  {
    offsets[k] <= if k == 0 then size else offsets[k - 1]
  }

  lemma OffsetsCons(l: nat, ls: seq<nat>)
    ensures Offsets([l] + ls) == [Sum(ls)] + Offsets(ls)
  {
    hide Sum;
    var all := [l] + ls;
    assert all[1..] == ls;
    forall n | 0 <= n < |ls| ensures Offsets(all)[n + 1] == Offsets(ls)[n] {
      assert all[n + 2..] == ls[n + 1..];
    }
  }

  lemma LevelsKept(x: bytes, l: bytes, offsets: seq<nat>, k: nat)
    requires Descending(offsets, |x|) && k < |offsets|
    ensures StoredLevel(x + l, [|x|] + offsets, k + 1) == StoredLevel(x, offsets, k)
  {
    hide Slice;
    var end, all := if k == 0 then |x| else offsets[k - 1], [|x|] + offsets;
    assert all[k + 1] == offsets[k] && all[k] == end;
    EndsInside(offsets, |x|, k);
    SliceKept(x, l, offsets[k], end);
  }

  lemma {:induction false} EndsInside(offsets: seq<nat>, size: nat, k: nat)
    requires Descending(offsets, size) && k < |offsets|
    ensures offsets[k] <= size && (k > 0 ==> offsets[k - 1] <= size)
  {
    assert InOrder(offsets, size, k);
    if k > 0 {
      EndsInside(offsets, size, k - 1);
    }
  }

  /** One more level behind a tree over it. */
  lemma TreeGrows(p: Params, s: bytes, l: bytes, offsets: seq<nat>, x: bytes, root: bytes)
    requires 0 < p.bs <= |l| && |s| > p.bs && IsLevel(p, s, l)
    requires IsTree(p, l, offsets, x, root) && Descending(offsets, |x|)
    ensures IsTree(p, s, [|x|] + offsets, x + l, root) && Descending([|x|] + offsets, |x + l|)
  {
    hide IsLevel, Slice, EntryOf, IsEntry, InOrder;
    var all, tree := [|x|] + offsets, x + l;
    SliceSecond(x, l, 0, |l|);
    SliceAll(l);
    assert StoredLevel(tree, all, 0) == l;
    forall k: nat | k < |all| ensures IsStored(p, s, all, tree, k) {
      if k > 0 {
        StoredKept(p, s, l, offsets, x, k);
      }
    }
    OrderKept(offsets, |x|, |l|);
    if offsets == [] {
      assert tree == l;
    } else {
      LevelsKept(x, l, offsets, |offsets| - 1);
      assert tree[..p.bs] == x[..p.bs];
    }
  }

  lemma StoredKept(p: Params, s: bytes, l: bytes, offsets: seq<nat>, x: bytes, k: nat)
    requires p.bs > 0 && 0 < k <= |offsets| && Descending(offsets, |x|) && IsStored(p, l, offsets, x, k - 1)
    requires StoredLevel(x + l, [|x|] + offsets, 0) == l
    ensures IsStored(p, s, [|x|] + offsets, x + l, k)
  {
    hide IsLevel, Slice;
    LevelsKept(x, l, offsets, k - 1);
    if k > 1 {
      LevelsKept(x, l, offsets, k - 2);
    }
  }

  lemma OrderKept(offsets: seq<nat>, n: nat, m: nat)
    requires Descending(offsets, n)
    ensures Descending([n] + offsets, n + m)
  {
    var all, size := [n] + offsets, n + m;
    forall k | 0 <= k < |all| ensures InOrder(all, size, k) {
      if k > 0 {
        assert InOrder(offsets, n, k - 1);
      }
    }
  }

  lemma SliceAll<T>(s: seq<T>)
    ensures Slice(s, 0, |s|) == s
  {
  }

  /** What is built is a tree, at the offsets computed in advance. */
  lemma {:induction false} TreeIs(p: Params, s: bytes)
    requires p.WF() && s != []
    ensures var offsets := Offsets(LevelSizes(|s|, p.bs, p.EntrySize()));
            IsTree(p, s, offsets, Tree(p, s), Root(p, s)) && Descending(offsets, |Tree(p, s)|)
    decreases |s|
  {
    hide Level, IsLevel, LevelSizes, Sum, IsTree;
    if |s| <= p.bs {
      NoLevels(p, s);
    } else {
      var l := Level(p, s);
      TreeUnfold(p, s);
      LevelIs(p, s);
      TreeIs(p, l);
      var ls := LevelSizes(|l|, p.bs, p.EntrySize());
      OffsetsCons(|l|, ls);
      TreeGrows(p, s, l, Offsets(ls), Tree(p, l), Root(p, l));
    }
  }

  lemma NoLevels(p: Params, s: bytes)
    requires p.WF() && |s| <= p.bs
    ensures var offsets := Offsets(LevelSizes(|s|, p.bs, p.EntrySize()));
            IsTree(p, s, offsets, Tree(p, s), Root(p, s)) && Descending(offsets, |Tree(p, s)|)
  {
  }

  // ------------------------------------------------------------- binding

  /** What is hashed for one block. */
  function Input(p: Params, block: bytes): bytes {
    p.salt + block + Zeros(Max(0, p.bs - |block|))
  }

  /** What is hashed for the blocks of s. */
  ghost function BlockInputs(p: Params, s: bytes): set<bytes>
    requires p.WF()
    decreases |s|
  {
    if s == [] then {}
    else
      var n := Min(|s|, p.bs);
      {Input(p, s[..n])} + BlockInputs(p, s[n..])
  }

  /** Everything hashed on the way to the root of s. */
  ghost function Inputs(p: Params, s: bytes): set<bytes>
    requires p.WF()
    decreases |s|
  {
    if |s| <= p.bs then {p.salt + s}
    else
      LevelShrinks(|s|, p.bs, p.EntrySize());
      BlockInputs(p, s) + Inputs(p, Level(p, s))
  }

  /** Some input of one computation and a different one of the other have the same digest. */
  ghost predicate Collide(hash: bytes -> bytes, xs: set<bytes>, ys: set<bytes>) {
    exists x, y :: x in xs && y in ys && x != y && hash(x) == hash(y)
  }

  lemma CollideMore(hash: bytes -> bytes, xs: set<bytes>, ys: set<bytes>, xs': set<bytes>, ys': set<bytes>)
    requires Collide(hash, xs, ys) && xs <= xs' && ys <= ys'
    ensures Collide(hash, xs', ys')
  {
    var x, y :| x in xs && y in ys && x != y && hash(x) == hash(y);
    assert x in xs' && y in ys';
  }

  lemma EntryBinds(p: Params, a: bytes, b: bytes)
    requires p.WF() && |a| == |b| <= p.bs && Entry(p, a) == Entry(p, b)
    ensures a == b || (Input(p, a) != Input(p, b) && p.hash(Input(p, a)) == p.hash(Input(p, b)))
  {
    var x, y := Input(p, a), Input(p, b);
    assert Entry(p, a)[..p.digestSize] == p.hash(x) && Entry(p, b)[..p.digestSize] == p.hash(y);
    if x == y {
      assert x[|p.salt|..|p.salt| + |a|] == a && y[|p.salt|..|p.salt| + |a|] == b;
    }
  }

  lemma {:induction false} EntriesBind(p: Params, a: bytes, b: bytes)
    requires p.WF() && |a| == |b| && Entries(p, a) == Entries(p, b)
    ensures a == b || Collide(p.hash, BlockInputs(p, a), BlockInputs(p, b))
    decreases |a|
  {
    hide Entry, Input;
    if a != [] {
      var n := Min(|a|, p.bs);
      assert |Entry(p, a[..n])| == |Entry(p, b[..n])| by { EntrySizes(p, a[..n], b[..n]); }
      SplitSame(Entry(p, a[..n]), Entries(p, a[n..]), Entry(p, b[..n]), Entries(p, b[n..]));
      EntryBinds(p, a[..n], b[..n]);
      EntriesBind(p, a[n..], b[n..]);
      assert a == a[..n] + a[n..] && b == b[..n] + b[n..];
      if a[n..] != b[n..] {
        CollideMore(p.hash, BlockInputs(p, a[n..]), BlockInputs(p, b[n..]), BlockInputs(p, a), BlockInputs(p, b));
      } else if a[..n] != b[..n] {
        assert Input(p, a[..n]) in BlockInputs(p, a) && Input(p, b[..n]) in BlockInputs(p, b);
      }
    }
  }

  lemma EntrySizes(p: Params, a: bytes, b: bytes)
    requires p.WF()
    ensures |Entry(p, a)| == |Entry(p, b)| == p.EntrySize()
  {
  }

  lemma SplitSame<T>(x: seq<T>, u: seq<T>, y: seq<T>, v: seq<T>)
    requires |x| == |y| && x + u == y + v
    ensures x == y && u == v
  {
    assert (x + u)[..|x|] == x && (y + v)[..|y|] == y;
    assert (x + u)[|x|..] == u && (y + v)[|y|..] == v;
  }

  /**
    Two images of one size with the same root digest are equal, unless a hash input met on the way to one root
    collides with one met on the way to the other.
   */
  lemma {:induction false} RootBinds(p: Params, a: bytes, b: bytes)
    requires p.WF() && |a| == |b| && Root(p, a) == Root(p, b)
    ensures a == b || Collide(p.hash, Inputs(p, a), Inputs(p, b))
    decreases |a|
  {
    hide Entries, BlockInputs;
    if |a| <= p.bs {
      assert (p.salt + a)[|p.salt|..] == a && (p.salt + b)[|p.salt|..] == b;
      assert p.salt + a in Inputs(p, a) && p.salt + b in Inputs(p, b);
    } else {
      LevelShrinks(|a|, p.bs, p.EntrySize());
      RootBinds(p, Level(p, a), Level(p, b));
      if Level(p, a) != Level(p, b) {
        CollideMore(p.hash, Inputs(p, Level(p, a)), Inputs(p, Level(p, b)), Inputs(p, a), Inputs(p, b));
      } else {
        SameEntries(p, a, b);
        EntriesBind(p, a, b);
        if a != b {
          CollideMore(p.hash, BlockInputs(p, a), BlockInputs(p, b), Inputs(p, a), Inputs(p, b));
        }
      }
    }
  }

  lemma SameEntries(p: Params, a: bytes, b: bytes)
    requires p.WF() && |a| == |b| > p.bs && Level(p, a) == Level(p, b)
    ensures Entries(p, a) == Entries(p, b)
  {
    hide Entries;
    var n := |Entries(p, a)|;
    assert Level(p, a)[..n] == Entries(p, a) && Level(p, b)[..n] == Entries(p, b);
  }

  // ------------------------------------------------------------- generate_hash_tree

  lemma EntriesUnfold(p: Params, s: bytes, n: nat)
    requires p.WF() && s != [] && n == Min(|s|, p.bs)
    ensures Entries(p, s) == Entry(p, s[..n]) + Entries(p, s[n..])
  {
    hide Entry;
  }

  lemma EntriesStep(p: Params, s: bytes, done: nat, n: nat)
    requires p.WF() && done < |s| && n == Min(|s| - done, p.bs)
    ensures Entries(p, s[done..]) == Entry(p, s[done..done + n]) + Entries(p, s[done + n..])
  {
    hide Entry, Entries;
    DropSplit(s, done, n);
    EntriesUnfold(p, s[done..], n);
  }

  /** One block of the image, through the image's cursor. */
  method ReadBlock(image: ImageHandler, at: nat, n: nat) returns (data: bytes)
    requires image.Valid() && 0 < n && at + n <= |image.Contents()|
    modifies image`filePos
    ensures image.Valid() && data == image.Contents()[at..at + n]
  {
    hide ImageHandler.Anchored, ImageHandler.Valid, ImageHandler.Contents;
    image.BlockSizePositive();
    image.ChunksNonEmpty();
    var sr := image.Seek(at);
    var rr := image.Read(n);
    data := rr.value;
  }

  /** The next block of a level: from the image, or from the finished level below in the buffer. */
  method NextBlock(image: ImageHandler, bs: nat, levelNum: nat, srcAt: nat, srcSize: nat, remaining: nat,
                   hashRet: array<byte>, ghost src: bytes)
    returns (data: bytes)
    requires image.Valid() && 0 < remaining <= srcSize == |src| && bs > 0
    requires levelNum == 0 ==> srcSize <= |image.Contents()| && src == image.Contents()[..srcSize]
    requires levelNum > 0 ==>
               remaining % bs == 0 && srcAt + srcSize <= hashRet.Length && src == hashRet[srcAt..srcAt + srcSize]
    modifies image`filePos
    ensures image.Valid()
    ensures levelNum > 0 ==> (remaining - |data|) % bs == 0
    ensures var done := srcSize - remaining;
            |data| == Min(remaining, bs) && data == src[done..done + |data|]
  {
    hide ImageHandler.Anchored, ImageHandler.Valid, ImageHandler.Contents;
    if levelNum == 0 {
      data := ReadBlock(image, srcSize - remaining, Min(remaining, bs));
    } else {
      WholeBlockLeft(remaining, bs);
      var offset := srcAt + srcSize - remaining;
      SubSlice(hashRet[..], srcAt, srcAt + srcSize, srcSize - remaining, srcSize - remaining + bs);
      assert hashRet[..][srcAt..srcAt + srcSize] == src;
      data := hashRet[offset..offset + bs];
    }
  }

  lemma WholeBlockLeft(remaining: nat, bs: nat)
    requires bs > 0 && remaining > 0 && remaining % bs == 0
    ensures remaining >= bs && (remaining - bs) % bs == 0
  {
    MulMod(1, bs);
    MultiplesGap(bs, remaining, bs);
    MultiplesClosed(remaining, bs, bs);
  }

  /** The inner loop: hashes the blocks of one level. */
  method HashLevel(image: ImageHandler, p: Params, levelNum: nat, srcAt: nat, srcSize: nat, hashRet: array<byte>,
                   ghost src: bytes)
    returns (levelOutput: bytes)
    requires p.WF() && image.Valid() && srcSize == |src|
    requires levelNum == 0 ==> srcSize <= |image.Contents()| && src == image.Contents()[..srcSize]
    requires levelNum > 0 ==>
               && srcSize % p.bs == 0
               && srcAt + srcSize <= hashRet.Length && src == hashRet[srcAt..srcAt + srcSize]
    modifies image`filePos
    ensures image.Valid()
    ensures levelOutput == Level(p, src) && (src != [] ==> IsLevel(p, src, levelOutput))
  {
    hide ImageHandler.Anchored, ImageHandler.Valid, ImageHandler.Contents, Entries, Entry, Level, RoundToMultiple;
    var remaining, out: bytes := srcSize, [];
    while remaining > 0
      invariant 0 <= remaining <= srcSize
      invariant levelNum > 0 ==> remaining % p.bs == 0
      invariant out + Entries(p, src[srcSize - remaining..]) == Entries(p, src)
      invariant image.Valid()
    {
      ghost var done := srcSize - remaining;
      var data := NextBlock(image, p.bs, levelNum, srcAt, srcSize, remaining, hashRet, src);
      EntriesStep(p, src, done, |data|);
      Assoc(out, Entry(p, data), Entries(p, src[done + |data|..]));
      var e := HashEntry(p, data);
      out := out + e;
      remaining := remaining - |data|;
    }
    assert src[srcSize..] == [];
    EntriesOfNothing(p);
    LevelPadding(p, src);
    assert out + [] == out;
    levelOutput := out + Zeros(RoundToMultiple(|out|, p.bs) - |out|);
    if src != [] {
      LevelIs(p, src);
    }
  }

  lemma EntriesOfNothing(p: Params)
    requires p.WF()
    ensures Entries(p, []) == []
  {
  }

  lemma LevelPadding(p: Params, s: bytes)
    requires p.WF()
    ensures var e := Entries(p, s); Level(p, s) == e + Zeros(RoundToMultiple(|e|, p.bs) - |e|)
  {
  }

  /** hasher.update(data), NUL padding up to the block size, then the digest and its padding. */
  method HashEntry(p: Params, data: bytes) returns (e: bytes)
    requires |data| <= p.bs
    ensures e == Entry(p, data)
  {
    var hashed := p.salt + data;
    if |data| < p.bs {
      hashed := hashed + Zeros(p.bs - |data|);
    } else {
      assert hashed + Zeros(0) == hashed;
    }
    e := p.hash(hashed);
    if p.padding > 0 {
      e := e + Zeros(p.padding);
    } else {
      assert e + Zeros(0) == e;
    }
  }

  lemma TreeUnfold(p: Params, s: bytes)
    requires p.WF() && |s| > p.bs
    ensures var l := Level(p, s);
            && Tree(p, s) == Tree(p, l) + l && Root(p, s) == Root(p, l)
            && TreeSize(|s|, p.bs, p.EntrySize()) == |l| + TreeSize(|l|, p.bs, p.EntrySize())
            && LevelSizes(|s|, p.bs, p.EntrySize()) == [|l|] + LevelSizes(|l|, p.bs, p.EntrySize())
            && p.bs <= |l| < |s| && |l| % p.bs == 0
  {
    hide Level;
    LevelShrinks(|s|, p.bs, p.EntrySize());
    LevelHalves(|s|, p.bs, p.EntrySize());
    TreeSizeStep(|s|, p.bs, p.EntrySize());
    MultiplesGap(p.bs, |Level(p, s)|, p.bs);
  }

  /** hash_ret[off:off + len] = level */
  method StoreLevel(hashRet: array<byte>, off: nat, level: bytes)
    requires off + |level| <= hashRet.Length
    modifies hashRet
    ensures hashRet[off..off + |level|] == level
    ensures hashRet[off + |level|..] == old(hashRet[off + |level|..])
  {
    forall k | 0 <= k < |level| {
      hashRet[off + k] := level[k];
    }
  }

  /**
    The level being built lies right in front of the finished ones: the buffer from there on is already
    the tree, and what is missing is the tree of the level.
   */
  ghost predicate Progress(p: Params, data: bytes, cur: bytes, buffer: bytes)
    requires p.WF()
  {
    var at := |Tree(p, cur)|;
    && Root(p, cur) == Root(p, data)
    && at <= |buffer| == |Tree(p, data)|
    && buffer[at..] == Tree(p, data)[at..]
    && Tree(p, data)[..at] == Tree(p, cur)
  }

  lemma ProgressStep(p: Params, data: bytes, cur: bytes, before: bytes, after: bytes)
    requires p.WF() && Progress(p, data, cur, before) && |cur| > p.bs && |after| == |before|
    requires var l := Level(p, cur);
             var at := |Tree(p, l)|;
             at + |l| <= |after| && after[at..at + |l|] == l && after[at + |l|..] == before[at + |l|..]
    ensures Progress(p, data, Level(p, cur), after)
  {
    TreeUnfold(p, cur);
    hide Tree, Root, Level;
    var l := Level(p, cur);
    var at, all := |Tree(p, l)|, Tree(p, data);
    BufferStep(all, Tree(p, l), l, before, after);
  }

  lemma BufferStep(all: bytes, x: bytes, l: bytes, before: bytes, after: bytes)
    requires |x| + |l| <= |all| == |after| == |before|
    requires all[..|x| + |l|] == x + l
    requires after[|x|..|x| + |l|] == l
    requires after[|x| + |l|..] == before[|x| + |l|..] == all[|x| + |l|..]
    ensures all[..|x|] == x && after[|x|..] == all[|x|..]
  {
    var at, k := |x|, |x| + |l|;
    assert all[..k] == all[..at] + all[at..k];
    SplitSame(x, l, all[..at], all[at..k]);
    assert after[at..] == after[at..k] + after[k..];
    assert all[at..] == all[at..k] + all[k..];
  }

  /** The outer loop: the buffer ends up as the tree and the last level output hashes to the root. */
  method GenerateHashTree(image: ImageHandler, imageSize: nat, p: Params, hashLevelOffsets: seq<nat>, treeSize: nat)
    returns (root: bytes, tree: bytes)
    requires p.WF() && image.Valid() && p.bs <= imageSize <= |image.Contents()|
    requires hashLevelOffsets == Offsets(LevelSizes(imageSize, p.bs, p.EntrySize()))
    requires treeSize == TreeSize(imageSize, p.bs, p.EntrySize())
    modifies image`filePos
    ensures image.Valid()
    ensures root == Root(p, image.Contents()[..imageSize])
    ensures tree == Tree(p, image.Contents()[..imageSize])
    ensures IsTree(p, image.Contents()[..imageSize], hashLevelOffsets, tree, root)
  {
    hide ImageHandler.Anchored, ImageHandler.Valid, ImageHandler.Contents, Level, Tree, Root, LevelSizes, TreeSize,
      Progress, Offsets, IsLevel, IsTree, IsEntry;
    TreeIs(p, image.Contents()[..imageSize]);
    OffsetsLength(LevelSizes(imageSize, p.bs, p.EntrySize()));
    ghost var data := image.Contents()[..imageSize];
    ghost var ls := LevelSizes(imageSize, p.bs, p.EntrySize());
    var hashRet := new byte[treeSize](_ => 0);
    if imageSize == p.bs {
      var block := ReadBlock(image, 0, p.bs);
      SmallTree(p, data);
      return p.hash(p.salt + block), hashRet[..];
    }
    var levelNum, hashSrcSize, srcAt: nat := 0, imageSize, 0;
    var levelOutput: bytes := [];
    ghost var cur := data;
    StartProgress(p, data, hashRet[..]);
    assert ls[0..] == ls;
    while hashSrcSize > p.bs
      invariant image.Valid() && hashSrcSize == |cur| >= p.bs && hashRet.Length == treeSize
      invariant fresh(hashRet)
      invariant levelNum <= |ls| && LevelSizes(|cur|, p.bs, p.EntrySize()) == ls[levelNum..]
      invariant Progress(p, data, cur, hashRet[..])
      invariant levelNum == 0 ==> cur == data
      invariant levelNum > 0 ==>
                  && cur == levelOutput && |cur| % p.bs == 0 && srcAt == hashLevelOffsets[levelNum - 1]
                  && srcAt + |cur| <= treeSize && hashRet[srcAt..srcAt + |cur|] == cur
      decreases hashSrcSize
    {
      levelOutput := HashLevel(image, p, levelNum, srcAt, hashSrcSize, hashRet, cur);
      TreeUnfold(p, cur);
      NextLevel(ls, levelNum, LevelSizes(|levelOutput|, p.bs, p.EntrySize()), |levelOutput|);
      OffsetOfLevel(ls, levelNum, |levelOutput|, p);
      var offset := hashLevelOffsets[levelNum];
      ghost var before := hashRet[..];
      OffsetFits(p, data, cur, before);
      StoreLevel(hashRet, offset, levelOutput);
      ProgressStep(p, data, cur, before, hashRet[..]);
      cur := levelOutput;
      hashSrcSize := |levelOutput|;
      srcAt := offset;
      levelNum := levelNum + 1;
    }
    EndProgress(p, data, cur, hashRet[..]);
    return p.hash(p.salt + levelOutput), hashRet[..];
  }

  lemma OffsetsLength(ls: seq<nat>)
    ensures |Offsets(ls)| == |ls|
  {
  }

  lemma SmallTree(p: Params, s: bytes)
    requires p.WF() && |s| <= p.bs
    ensures Tree(p, s) == [] && Root(p, s) == p.hash(p.salt + s) && TreeSize(|s|, p.bs, p.EntrySize()) == 0
  {
  }

  lemma StartProgress(p: Params, data: bytes, buffer: bytes)
    requires p.WF() && |buffer| == |Tree(p, data)|
    ensures Progress(p, data, data, buffer)
  {
    hide Tree, Root;
  }

  lemma EndProgress(p: Params, data: bytes, cur: bytes, buffer: bytes)
    requires p.WF() && |cur| == p.bs && Progress(p, data, cur, buffer)
    ensures buffer == Tree(p, data) && p.hash(p.salt + cur) == Root(p, data)
  {
    SmallTree(p, cur);
    hide Tree, Root;
    assert buffer[0..] == buffer;
  }

  /** The offset computed in advance for a level is where the tree above it ends. */
  lemma OffsetOfLevel(ls: seq<nat>, n: nat, size: nat, p: Params)
    requires p.WF() && n < |ls| && ls[n + 1..] == LevelSizes(size, p.bs, p.EntrySize())
    ensures Offsets(ls)[n] == TreeSize(size, p.bs, p.EntrySize())
  {
  }

  lemma NextLevel(ls: seq<nat>, n: nat, rest: seq<nat>, size: nat)
    requires n <= |ls| && ls[n..] == [size] + rest
    ensures n < |ls| && ls[n] == size && ls[n + 1..] == rest
  {
    assert ls[n..][1..] == ls[n + 1..];
    assert |ls[n..]| > 0;
  }

  lemma OffsetFits(p: Params, data: bytes, cur: bytes, buffer: bytes)
    requires p.WF() && |cur| > p.bs && Progress(p, data, cur, buffer)
    ensures var l := Level(p, cur); TreeSize(|l|, p.bs, p.EntrySize()) + |l| <= |buffer|
    ensures |Tree(p, Level(p, cur))| == TreeSize(|Level(p, cur)|, p.bs, p.EntrySize())
  {
    TreeUnfold(p, cur);
    hide Tree, Root, Level;
  }
}
