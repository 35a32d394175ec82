/** How a launch cuts the index space into groups. */
module Tiling {
  import opened Words
  import opened RingCore
  import opened CommandRing
  import opened Vram

  /** A size array argument: a null pointer or at least `work_dim` sizes. */
  datatype Sizes = NoSizes | Sizes(v: seq<u64>)

  /** The block size in a dimension: the local size cut to 32 bits, or the hardware's default. */
  function Block(local: Sizes, d: nat, default: u32): u32
    requires local.Sizes? ==> d < |local.v|
  {
    if local.Sizes? && local.v[d] > 0 then local.v[d] % TWO32 else default
  }

  /** `(uint32_t)((global + block - 1) / block)` in size_t arithmetic. */
  function Grid(global: u64, block: u32): u32
    requires block > 0
  {
    (Add64(global, block - 1) / block) % TWO32
  }

  /** The sizes computed for a launch in `dim` dimensions. */
  datatype Shape = Shape(gridX: u32, gridY: u32, blockX: u32, blockY: u32, total: u32)

  /** No division by zero. */
  predicate Divides(dim: nat, local: Sizes)
    requires 1 <= dim <= 3 && (local.Sizes? ==> |local.v| >= dim)
  {
    Block(local, 0, 2) > 0 && (dim > 1 ==> Block(local, 1, 1) > 0)
  }

  /** The local sizes that are used. */
  predicate NoneVanishes(dim: nat, local: Sizes)
    requires 1 <= dim <= 3 && (local.Sizes? ==> |local.v| >= dim)
  {
    local.Sizes? ==> forall d | 0 <= d < Min(dim, 2) :: local.v[d] > 0 ==> local.v[d] % TWO32 != 0
  }

  /** The grid computation divides by zero exactly when a local size in use is a non-zero multiple of 2^32. */
  lemma DividesIff(dim: nat, local: Sizes)
    requires 1 <= dim <= 3 && (local.Sizes? ==> |local.v| >= dim)
    ensures Divides(dim, local) <==> NoneVanishes(dim, local)
  {
    if local.Sizes? && Divides(dim, local) {
      forall d | 0 <= d < Min(dim, 2)
        ensures local.v[d] > 0 ==> local.v[d] % TWO32 != 0
      {
        assert d == 0 || d == 1;
      }
    }
  }

  /** One such size: the cast makes it zero. */
  lemma BlockVanishes()
    ensures Block(Sizes([TWO32]), 0, 2) == 0 && !Divides(1, Sizes([TWO32]))
  {}

  /** The size of the index space; the source's 64-bit product agrees with it in the 32 bits that are kept. */
  function Items(dim: nat, global: seq<u64>): nat
    requires 1 <= dim <= |global|
  {
    Times(global[0], if dim > 1 then global[1] else 1)
  }

  function Times(a: nat, b: nat): nat {
    a * b
  }

  function ShapeOf(dim: nat, global: seq<u64>, local: Sizes): Shape
    requires 1 <= dim <= 3 && |global| >= dim && (local.Sizes? ==> |local.v| >= dim) && Divides(dim, local)
  {
    var blockX := Block(local, 0, 2);
    var blockY := if dim > 1 then Block(local, 1, 1) else 1;
    Shape(Grid(global[0], blockX), if dim > 1 then Grid(global[1], blockY) else 1, blockX, blockY,
          Items(dim, global) % TWO32)
  }

  /** `n` groups of `block` items cover `global` items, and the last of them is needed. */
  predicate Covers(n: nat, block: nat, global: nat) {
    n * block >= global && (n == 0 || (n - 1) * block < global)
  }

  lemma MulOrder(a: nat, b: nat, c: nat)
    requires a <= b
    ensures a * c <= b * c
  {}

  lemma QuotientCovers(x: nat, b: nat)
    requires b > 0
    ensures (x / b) * b <= x < (x / b) * b + b
  {}

  /** Only one number of groups covers without a spare one. */
  lemma CoversUnique(m: nat, n: nat, b: nat, g: nat)
    requires b > 0 && Covers(m, b, g) && Covers(n, b, g)
    ensures m == n
  {
    if m < n { MulOrder(m, n - 1, b); }
    if n < m { MulOrder(n, m - 1, b); }
  }

  /** Rounding the quotient up covers. */
  lemma CeilingCovers(g: nat, b: nat)
    requires b > 0
    ensures Covers((g + b - 1) / b, b, g)
  {
    var n := (g + b - 1) / b;
    QuotientCovers(g + b - 1, b);
    if n > 0 { assert (n - 1) * b == n * b - b; }
  }

  lemma SmallQuotient(x: nat, b: nat)
    requires x < b
    ensures x / b == 0
  {}

  /** The computed grid covers the items without a spare group exactly when the sum does not wrap and the
      cast does not truncate. */
  lemma GridCoversIff(g: u64, b: u32)
    requires g > 0 && b > 0
    ensures Covers(Grid(g, b), b, g) <==> g + b - 1 < TWO64 && (g + b - 1) / b < TWO32
  {
    var n := (g + b - 1) / b;
    CeilingCovers(g, b);
    if g + b - 1 >= TWO64 {
      SmallQuotient(g + b - 1 - TWO64, b);
      assert Grid(g, b) == 0;
    } else if Covers(Grid(g, b), b, g) {
      CoversUnique(Grid(g, b), n, b, g);
    }
  }

  /** Work item `gid` is number `local` of group `group`. */
  predicate IsItem(gid: nat, group: nat, local: nat, block: nat) {
    gid == group * block + local && local < block
  }

  lemma ItemUnique(gid: nat, k: nat, l: nat, k': nat, l': nat, b: nat)
    requires IsItem(gid, k, l, b) && IsItem(gid, k', l', b)
    ensures k == k' && l == l'
  {
    if k < k' { MulOrder(k + 1, k', b); }
    if k' < k { MulOrder(k' + 1, k, b); }
  }

  /** With a covering grid every work item has exactly one group and one place in it. */
  lemma EveryItemOnce(n: nat, b: nat, g: nat, gid: nat)
    requires Covers(n, b, g) && b > 0 && gid < g
    ensures exists k: nat, l: nat ::
              && k < n && IsItem(gid, k, l, b)
              && forall k': nat, l': nat | IsItem(gid, k', l', b) :: k' == k && l' == l
  {
    var k, l: nat := gid / b, gid - gid / b * b;
    QuotientCovers(gid, b);
    if n <= k { MulOrder(n, k, b); }
    assert IsItem(gid, k, l, b);
    forall k': nat, l': nat | IsItem(gid, k', l', b)
      ensures k' == k && l' == l
    {
      ItemUnique(gid, k, l, k', l', b);
    }
  }

  /** And no group, hence no row or column of groups, is without an item. */
  lemma NoGroupSpare(n: nat, b: nat, g: nat, k: nat)
    requires Covers(n, b, g) && k < n
    ensures k * b < g && (b > 0 ==> IsItem(k * b, k, 0, b))
  {
    MulOrder(k, n - 1, b);
  }

  /** The launch command; the argument page is at device address zero. */
  function LaunchCommand(s: Shape): Command {
    Command(OPCODE_LAUNCH_KERNEL, s.gridX, s.gridY, s.blockX, s.blockY, KERNARG_BASE, 0, s.total)
  }

  /** The launch packet in numbers: the block is the caller's local size (2 columns and 1 row when there is
      none), the grid the rounded quotient, with the driver's defaults for a quotient of zero. */
  lemma LaunchPacketInNumbers(dim: nat, global: seq<u64>, local: Sizes)
    requires 1 <= dim <= 3 && |global| >= dim && (local.Sizes? ==> |local.v| >= dim) && Divides(dim, local)
    ensures var p := PacketFor(LaunchCommand(ShapeOf(dim, global, local)));
            && p.magic == 0x4F43_4C31 && p.opcode == 1 && p.src == 0 && p.dst == 0 && p.taskId == 0
            && p.blockX == (if local.NoSizes? || local.v[0] == 0 then 2 else local.v[0] % 0x1_0000_0000)
            && p.blockY == (if dim == 1 || local.NoSizes? || local.v[1] == 0 then 1 else local.v[1] % 0x1_0000_0000)
            && p.blockX > 0 && p.blockY > 0
            && (var q := (global[0] + p.blockX - 1) % 0x1_0000_0000_0000_0000 / p.blockX % 0x1_0000_0000;
                p.gridX == if q == 0 then 32 else q)
            && (dim == 1 ==> p.gridY == 1 && p.numElements == global[0] % 0x1_0000_0000)
            && (dim > 1 ==>
                  var q := (global[1] + p.blockY - 1) % 0x1_0000_0000_0000_0000 / p.blockY % 0x1_0000_0000;
                  && p.gridY == (if q == 0 then 1 else q)
                  && p.numElements == (global[0] as int) * (global[1] as int) % 0x1_0000_0000)
  {
    WrapsOnce(global[0], Block(local, 0, 2));
    if dim > 1 { WrapsOnce(global[1], Block(local, 1, 1)); }
  }

  lemma WrapsOnce(g: u64, b: u32)
    requires b > 0
    ensures Add64(g, b - 1) == (g + b - 1) % 0x1_0000_0000_0000_0000
  {}

  /** The size is not zero, and neither wraps the sum nor is truncated by the cast. */
  predicate Fits(global: u64, block: u32)
    requires block > 0
  {
    global > 0 && global + block - 1 < TWO64 && (global + block - 1) / block < TWO32
  }

  lemma DimensionIff(g: u64, b: u32)
    requires b > 0
    ensures Fits(g, b) <==> Covers(Grid(g, b), b, g) && Grid(g, b) > 0
  {
    if g > 0 {
      GridCoversIff(g, b);
    } else {
      SmallQuotient(b - 1, b);
    }
  }

  /** Main result: in one or two dimensions the launched grid covers the index space without a spare group,
      and the packet carries these very dimensions with none of the driver's defaults, exactly when all
      sizes fit. */
  lemma LaunchTilesIff(dim: nat, global: seq<u64>, local: Sizes)
    requires 1 <= dim <= 2 && |global| >= dim && (local.Sizes? ==> |local.v| >= dim) && Divides(dim, local)
    ensures var s := ShapeOf(dim, global, local);
            var p := PacketFor(LaunchCommand(s));
            (Fits(global[0], s.blockX) && (dim > 1 ==> Fits(global[1], s.blockY)))
            <==> (Covers(s.gridX, s.blockX, global[0]) && Covers(s.gridY, s.blockY, if dim > 1 then global[1] else 1)
                  && (p.gridX, p.gridY, p.blockX, p.blockY) == (s.gridX, s.gridY, s.blockX, s.blockY))
  {
    var s := ShapeOf(dim, global, local);
    DimensionIff(global[0], s.blockX);
    if dim > 1 { DimensionIff(global[1], s.blockY); }
  }

  /** Work item (x, y) is number (lx, ly) of group (gx, gy). */
  predicate IsItem2(x: nat, y: nat, gx: nat, gy: nat, lx: nat, ly: nat, s: Shape) {
    IsItem(x, gx, lx, s.blockX) && IsItem(y, gy, ly, s.blockY)
  }

  /** Main result for the index space as a whole: when all sizes fit, the grid and block dimensions in the
      packet give every work item exactly one group of the grid and one place in it, and every group of
      the grid has an item. */
  lemma LaunchTilesSpace(dim: nat, global: seq<u64>, local: Sizes, x: nat, y: nat)
    requires 1 <= dim <= 2 && |global| >= dim && (local.Sizes? ==> |local.v| >= dim) && Divides(dim, local)
    requires Fits(global[0], Block(local, 0, 2)) && (dim > 1 ==> Fits(global[1], Block(local, 1, 1)))
    requires x < global[0] && y < if dim > 1 then global[1] else 1
    ensures var s := ShapeOf(dim, global, local);
            var p := PacketFor(LaunchCommand(s));
            && (p.gridX, p.gridY, p.blockX, p.blockY) == (s.gridX, s.gridY, s.blockX, s.blockY)
            && (exists gx: nat, gy: nat, lx: nat, ly: nat ::
                  && gx < p.gridX && gy < p.gridY && IsItem2(x, y, gx, gy, lx, ly, s)
                  && forall gx': nat, gy': nat, lx': nat, ly': nat | IsItem2(x, y, gx', gy', lx', ly', s) ::
                       gx' == gx && gy' == gy && lx' == lx && ly' == ly)
            && (forall gx: nat, gy: nat | gx < p.gridX && gy < p.gridY ::
                  gx * p.blockX < global[0] && gy * p.blockY < if dim > 1 then global[1] else 1)
  {
    LaunchTilesIff(dim, global, local);
    var s := ShapeOf(dim, global, local);
    var height: nat := if dim > 1 then global[1] else 1;
    PlaceInSpace(s, global[0], height, x, y);
    forall gx: nat, gy: nat | gx < s.gridX && gy < s.gridY
      ensures gx * s.blockX < global[0] && gy * s.blockY < height
    {
      NoGroupSpare(s.gridX, s.blockX, global[0], gx);
      NoGroupSpare(s.gridY, s.blockY, height, gy);
    }
  }

  lemma PlaceInSpace(s: Shape, width: nat, height: nat, x: nat, y: nat)
    requires Covers(s.gridX, s.blockX, width) && Covers(s.gridY, s.blockY, height)
    requires s.blockX > 0 && s.blockY > 0 && x < width && y < height
    ensures exists gx: nat, gy: nat, lx: nat, ly: nat ::
              && gx < s.gridX && gy < s.gridY && IsItem2(x, y, gx, gy, lx, ly, s)
              && forall gx': nat, gy': nat, lx': nat, ly': nat | IsItem2(x, y, gx', gy', lx', ly', s) ::
                   gx' == gx && gy' == gy && lx' == lx && ly' == ly
  {
    EveryItemOnce(s.gridX, s.blockX, width, x);
    EveryItemOnce(s.gridY, s.blockY, height, y);
    var gx: nat, lx: nat :| gx < s.gridX && IsItem(x, gx, lx, s.blockX)
                            && forall k: nat, l: nat | IsItem(x, k, l, s.blockX) :: k == gx && l == lx;
    var gy: nat, ly: nat :| gy < s.gridY && IsItem(y, gy, ly, s.blockY)
                            && forall k: nat, l: nat | IsItem(y, k, l, s.blockY) :: k == gy && l == ly;
    assert IsItem2(x, y, gx, gy, lx, ly, s);
  }

  /** A size of zero is one that does not: the driver launches 32 columns of groups for no work at all. */
  lemma EmptyLaunch()
    ensures var s := ShapeOf(1, [0], NoSizes);
            s.gridX == 0 && PacketFor(LaunchCommand(s)).gridX == 32
  {}
}
