/** How many frames vmm_map_range takes (fckrnl/mm/virt.c). */
module PageTableBudget {
  import opened Intervals
  import opened PageTables
  import opened PageTableUpdates
  import opened PageTableRanges

  /** The bound for n contiguous pages: page tables, page directories, directory pointer tables. */
  function Budget(n: nat): nat {
    (n / 0x200 + 2) + (n / 0x4_0000 + 2) + (n / 0x800_0000 + 2)
  }

  /** The tables of one level on the paths of n pages from p on. */
  ghost function LevelTables(p: nat, n: nat, level: nat): set<Node>
    decreases n
  {
    if n == 0 then {} else {PathNode(p, level)} + LevelTables(NextPage(p), n - 1, level)
  }

  ghost function AllTables(p: nat, n: nat): set<Node> {
    LevelTables(p, n, 3) + LevelTables(p, n, 2) + LevelTables(p, n, 1)
  }

  lemma PathTables(keys: set<Node>, v: nat)
    ensures WithPath(keys, v, TOP_LEVEL) == keys + {PathNode(v, 3)} + {PathNode(v, 2)} + {PathNode(v, 1)}
  {
    var k3 := keys + {PathNode(v, 3)};
    var k2 := k3 + {PathNode(v, 2)};
    assert WithPath(keys, v, TOP_LEVEL) == WithPath(k3, v, 3);
    assert WithPath(k3, v, 3) == WithPath(k2, v, 2);
    assert WithPath(k2, v, 2) == WithPath(k2 + {PathNode(v, 1)}, v, 1);
  }

  lemma {:induction false} PathsByLevel(keys: set<Node>, p: nat, n: nat)
    ensures WithPaths(keys, p, n) <= keys + AllTables(p, n)
    decreases n
  {
    if n > 0 {
      PathTables(keys, p);
      PathsByLevel(WithPath(keys, p, TOP_LEVEL), NextPage(p), n - 1);
    }
  }

  /** The tables of a level that n pages from p on can meet. */
  function Blocks(p: nat, n: nat, level: nat): nat {
    if level == 1 then (p % 0x200 + n + 0x1FF) / 0x200
    else if level == 2 then (p % 0x4_0000 + n + 0x3_FFFF) / 0x4_0000
    else (p % 0x800_0000 + n + 0x7FF_FFFF) / 0x800_0000
  }

  /** Going on by a page either stays under the same table or leaves the last page of it. */
  lemma BlocksStep(p: nat, n: nat, level: nat)
    requires p < PAGES && n > 0 && 1 <= level <= 3
    ensures Blocks(p, n, level) >= 1
    ensures n > 1 && PathNode(p, level) == PathNode(NextPage(p), level) ==>
      Blocks(p, n, level) == Blocks(NextPage(p), n - 1, level)
    ensures PathNode(p, level) != PathNode(NextPage(p), level) ==>
      Blocks(p, n, level) == 1 + Blocks(NextPage(p), n - 1, level)
  {
    if level == 1 {
      BlocksStep1(p, n);
    } else if level == 2 {
      BlocksStep2(p, n);
    } else {
      BlocksStep3(p, n);
    }
  }

  lemma BlocksStep1(p: nat, n: nat)
    requires p < PAGES && n > 0
    ensures Blocks(p, n, 1) >= 1
    ensures p / 0x200 == NextPage(p) / 0x200 ==> Blocks(p, n, 1) == Blocks(NextPage(p), n - 1, 1)
    ensures p / 0x200 != NextPage(p) / 0x200 ==> Blocks(p, n, 1) == 1 + Blocks(NextPage(p), n - 1, 1)
  {
  }

  lemma BlocksStep2(p: nat, n: nat)
    requires p < PAGES && n > 0
    ensures Blocks(p, n, 2) >= 1
    ensures p / 0x4_0000 == NextPage(p) / 0x4_0000 ==> Blocks(p, n, 2) == Blocks(NextPage(p), n - 1, 2)
    ensures p / 0x4_0000 != NextPage(p) / 0x4_0000 ==> Blocks(p, n, 2) == 1 + Blocks(NextPage(p), n - 1, 2)
  {
  }

  lemma BlocksStep3(p: nat, n: nat)
    requires p < PAGES && n > 0
    ensures Blocks(p, n, 3) >= 1
    ensures p / 0x800_0000 == NextPage(p) / 0x800_0000 ==> Blocks(p, n, 3) == Blocks(NextPage(p), n - 1, 3)
    ensures p / 0x800_0000 != NextPage(p) / 0x800_0000 ==> Blocks(p, n, 3) == 1 + Blocks(NextPage(p), n - 1, 3)
  {
  }

  lemma {:induction false} LevelCount(p: nat, n: nat, level: nat)
    requires p < PAGES && 1 <= level <= 3
    ensures |LevelTables(p, n, level)| <= Blocks(p, n, level)
    decreases n
  {
    if n > 0 {
      var next := NextPage(p);
      LevelCount(next, n - 1, level);
      BlocksStep(p, n, level);
      if n > 1 && PathNode(p, level) == PathNode(next, level) {
        assert PathNode(next, level) in LevelTables(next, n - 1, level);
        assert LevelTables(p, n, level) == LevelTables(next, n - 1, level);
      }
    }
  }

  lemma BlocksBound(p: nat, n: nat, level: nat)
    ensures level == 1 ==> Blocks(p, n, level) <= n / 0x200 + 2
    ensures level == 2 ==> Blocks(p, n, level) <= n / 0x4_0000 + 2
    ensures level == 3 ==> Blocks(p, n, level) <= n / 0x800_0000 + 2
  {
  }

  /** Mapping n contiguous pages takes at most Budget(n) frames, wherever the range starts and whatever
      tables exist already. */
  lemma PathsWithinBudget(keys: set<Node>, p: nat, n: nat)
    requires p < PAGES
    ensures |WithPaths(keys, p, n)| <= |keys| + Budget(n)
  {
    PathsByLevel(keys, p, n);
    SubsetSize(WithPaths(keys, p, n), keys + AllTables(p, n));
    LevelCount(p, n, 1);
    LevelCount(p, n, 2);
    LevelCount(p, n, 3);
    BlocksBound(p, n, 1);
    BlocksBound(p, n, 2);
    BlocksBound(p, n, 3);
    UnionSizes(keys, LevelTables(p, n, 3), LevelTables(p, n, 2), LevelTables(p, n, 1));
  }

  lemma UnionSizes<T>(a: set<T>, b: set<T>, c: set<T>, d: set<T>)
    ensures |a + (b + c + d)| <= |a| + |b| + |c| + |d|
  {
    DisjointUnionSize(b, c);
    DisjointUnionSize(b + c, d);
    DisjointUnionSize(a, b + c + d);
  }
}
