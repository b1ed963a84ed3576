/** The first-fit arena of `memstuff.h`. */
module Arena {
  import opened Bytes

  // ---- The allocator as a function on sizes ----

  /** The first block from number `k` on with room for `bz` bytes, or the number of blocks. */
  function Fit(used: seq<nat>, caps: seq<nat>, bz: nat, k: nat): (r: nat)
    requires |used| == |caps| && k <= |caps|
    ensures k <= r <= |caps|
    decreases |caps| - k
  {
    if k == |caps| || caps[k] >= used[k] + bz then k else Fit(used, caps, bz, k + 1)
  }

  /** The size of a block that is appended for a request. */
  function NewCap(sz: nat, bz: nat): (r: nat)
    ensures r >= bz
  {
    if bz < sz then sz else bz * 2
  }

  /** A region: block number, offset, length. */
  datatype Region = Region(block: nat, off: nat, len: nat)

  datatype Fill = Fill(used: seq<nat>, caps: seq<nat>, out: seq<Region>)

  function Place(sz: nat, f: Fill, bz: nat): (r: Fill)
    requires |f.used| == |f.caps|
    ensures |r.used| == |r.caps|
  {
    var k := Fit(f.used, f.caps, bz, 0);
    if k < |f.caps| then
      Fill(f.used[k := f.used[k] + bz], f.caps, f.out + [Region(k, f.used[k], bz)])
    else
      Fill(f.used + [bz], f.caps + [NewCap(sz, bz)], f.out + [Region(k, 0, bz)])
  }

  function Zeros(n: nat): (z: seq<nat>)
    ensures |z| == n && forall i :: 0 <= i < n ==> z[i] == 0
  {
    seq(n, _ => 0)
  }

  /** All requests since the last clear, with the blocks `caps` there were then. */
  function Run(sz: nat, caps: seq<nat>, reqs: seq<nat>): (r: Fill)
    ensures |r.used| == |r.caps| && |r.out| == |reqs|
  {
    if reqs == [] then Fill(Zeros(|caps|), caps, [])
    else Place(sz, Run(sz, caps, reqs[..|reqs| - 1]), reqs[|reqs| - 1])
  }

  lemma RunMore(sz: nat, caps: seq<nat>, reqs: seq<nat>, bz: nat)
    ensures Run(sz, caps, reqs + [bz]) == Place(sz, Run(sz, caps, reqs), bz)
  {
    assert (reqs + [bz])[..|reqs|] == reqs;
  }

  /** Every region lies in its block, below the fill mark, and no two overlap. */
  ghost predicate Tidy(f: Fill)
    requires |f.used| == |f.caps|
  {
    && (forall k :: 0 <= k < |f.caps| ==> f.used[k] <= f.caps[k])
    && (forall i :: 0 <= i < |f.out| ==>
          f.out[i].block < |f.caps| && f.out[i].off + f.out[i].len <= f.used[f.out[i].block])
    && (forall i, j :: 0 <= i < j < |f.out| ==> Apart(f.out[i], f.out[j]))
  }

  predicate Apart(a: Region, b: Region) {
    a.block != b.block || a.off + a.len <= b.off || b.off + b.len <= a.off
  }

  lemma {:induction false} FitFits(used: seq<nat>, caps: seq<nat>, bz: nat, k: nat)
    requires |used| == |caps| && k <= |caps|
    ensures var r := Fit(used, caps, bz, k);
      && (r < |caps| ==> caps[r] >= used[r] + bz)
      && forall j :: k <= j < r ==> caps[j] < used[j] + bz
    decreases |caps| - k
  {
    if k < |caps| && caps[k] < used[k] + bz { FitFits(used, caps, bz, k + 1); }
  }

  /** A request goes to the first block with room, behind what is in it, or to a new one. */
  lemma PlaceFirst(sz: nat, f: Fill, bz: nat)
    requires |f.used| == |f.caps|
    ensures |Place(sz, f, bz).out| == |f.out| + 1
    ensures var r := Place(sz, f, bz).out[|f.out|];
      && r.len == bz && r.block <= |f.caps|
      && (forall j :: 0 <= j < r.block ==> f.caps[j] < f.used[j] + bz)
      && (r.block < |f.caps| ==> f.caps[r.block] >= f.used[r.block] + bz && r.off == f.used[r.block])
      && (r.block == |f.caps| ==> r.off == 0)
  {
    FitFits(f.used, f.caps, bz, 0);
  }

  lemma PlaceTidy(sz: nat, f: Fill, bz: nat)
    requires |f.used| == |f.caps| && Tidy(f)
    ensures Tidy(Place(sz, f, bz)) && f.caps <= Place(sz, f, bz).caps
    ensures |Place(sz, f, bz).out| == |f.out| + 1 && f.out <= Place(sz, f, bz).out
    ensures Place(sz, f, bz).out[|f.out|].len == bz
  {
    FitFits(f.used, f.caps, bz, 0);
    var r := Place(sz, f, bz).out[|f.out|];
    assert forall i :: 0 <= i < |f.out| ==> Apart(f.out[i], r);
  }

  lemma {:induction false} RunTidy(sz: nat, caps: seq<nat>, reqs: seq<nat>)
    ensures Tidy(Run(sz, caps, reqs))
    ensures forall i :: 0 <= i < |reqs| ==> Run(sz, caps, reqs).out[i].len == reqs[i]
    ensures caps <= Run(sz, caps, reqs).caps
  {
    if reqs != [] {
      RunTidy(sz, caps, reqs[..|reqs| - 1]);
      PlaceTidy(sz, Run(sz, caps, reqs[..|reqs| - 1]), reqs[|reqs| - 1]);
    }
  }

  function Sum(s: seq<nat>): nat {
    if s == [] then 0 else Sum(s[..|s| - 1]) + s[|s| - 1]
  }

  lemma {:induction false} SumUpdate(s: seq<nat>, k: nat, d: nat)
    requires k < |s|
    ensures Sum(s[k := s[k] + d]) == Sum(s) + d
  {
    var n := |s| - 1;
    if k < n {
      SumUpdate(s[..n], k, d);
      assert s[k := s[k] + d][..n] == s[..n][k := s[k] + d];
    } else {
      assert s[k := s[k] + d][..n] == s[..n];
    }
  }

  lemma {:induction false} SumZeros(n: nat)
    ensures Sum(Zeros(n)) == 0
  {
    if n > 0 {
      SumZeros(n - 1);
      assert Zeros(n)[..n - 1] == Zeros(n - 1);
    }
  }

  /** The fill marks add up to the bytes asked for. */
  lemma {:induction false} RunConserves(sz: nat, caps: seq<nat>, reqs: seq<nat>)
    ensures Sum(Run(sz, caps, reqs).used) == Sum(reqs)
  {
    if reqs == [] {
      SumZeros(|caps|);
    } else {
      var f, bz := Run(sz, caps, reqs[..|reqs| - 1]), reqs[|reqs| - 1];
      RunConserves(sz, caps, reqs[..|reqs| - 1]);
      var k := Fit(f.used, f.caps, bz, 0);
      if k < |f.caps| {
        SumUpdate(f.used, k, bz);
      } else {
        assert (f.used + [bz])[..|f.used|] == f.used;
      }
    }
  }

  /** f with empty blocks behind its own. */
  function Widened(f: Fill, more: seq<nat>): (g: Fill)
    requires |f.used| == |f.caps| <= |more|
    ensures |g.used| == |g.caps|
  {
    Fill(f.used + Zeros(|more| - |f.caps|), more, f.out)
  }

  lemma PlaceAgain(sz: nat, f: Fill, bz: nat, more: seq<nat>)
    requires |f.used| == |f.caps| && Place(sz, f, bz).caps <= more
    ensures f.caps <= more && Place(sz, Widened(f, more), bz) == Widened(Place(sz, f, bz), more)
  {
    var f', g := Place(sz, f, bz), Widened(f, more);
    assert f.caps <= f'.caps;
    SameFit(f.used, f.caps, g.used, more, bz, 0);
    FitFits(f.used, f.caps, bz, 0);
    var k := Fit(f.used, f.caps, bz, 0);
    if k < |f.caps| {
      assert g.used[k := g.used[k] + bz] == f.used[k := f.used[k] + bz] + Zeros(|more| - |f.caps|);
    } else {
      assert more[k] == f'.caps[k] == NewCap(sz, bz);
      assert Place(sz, g, bz).used == f'.used + Zeros(|more| - |f'.caps|);
    }
  }

  /** Empty blocks behind those of a run make no difference to it, as long as they are the ones it
      would append. */
  lemma {:induction false} RunAgain(sz: nat, caps: seq<nat>, reqs: seq<nat>, more: seq<nat>)
    requires Run(sz, caps, reqs).caps <= more
    ensures Run(sz, more, reqs) == Widened(Run(sz, caps, reqs), more)
  {
    if reqs == [] {
      assert Zeros(|caps|) + Zeros(|more| - |caps|) == Zeros(|more|);
    } else {
      var l := reqs[..|reqs| - 1];
      PlaceAgain(sz, Run(sz, caps, l), reqs[|reqs| - 1], more);
      RunAgain(sz, caps, l, more);
    }
  }

  lemma {:induction false} SameFit(used: seq<nat>, caps: seq<nat>, used': seq<nat>, more: seq<nat>, bz: nat, k: nat)
    requires |used| == |caps| && |used'| == |more| && k <= |caps| && caps <= more && used <= used'
    ensures Fit(used, caps, bz, k) < |caps| ==> Fit(used', more, bz, k) == Fit(used, caps, bz, k)
    ensures Fit(used, caps, bz, k) == |caps| < |more| && more[|caps|] >= used'[|caps|] + bz ==>
      Fit(used', more, bz, k) == |caps|
    decreases |caps| - k
  {
    if k < |caps| && caps[k] < used[k] + bz { SameFit(used, caps, used', more, bz, k + 1); }
  }

  /** After a clear the same requests get the same regions again, and no block is appended. */
  lemma ReplayAfterClear(sz: nat, caps: seq<nat>, reqs: seq<nat>)
    ensures var f := Run(sz, caps, reqs);
      Run(sz, f.caps, reqs) == f
  {
    var f := Run(sz, caps, reqs);
    RunAgain(sz, caps, reqs, f.caps);
    assert f.used + Zeros(0) == f.used;
  }

  // ---- Which blocks there are ----

  /** Everything is in one block of the usual size, one region behind the other. */
  ghost predicate OneBlock(sz: nat, f: Fill, reqs: seq<nat>) {
    && f.caps == [sz] && f.used == [Sum(reqs)] && |f.out| == |reqs|
    && forall i :: 0 <= i < |reqs| ==> f.out[i] == Region(0, Sum(reqs[..i]), reqs[i])
  }

  lemma OneMore(sz: nat, f: Fill, l: seq<nat>, bz: nat)
    requires OneBlock(sz, f, l) && Sum(l) + bz <= sz
    ensures OneBlock(sz, Place(sz, f, bz), l + [bz])
  {
    var reqs := l + [bz];
    assert reqs[..|l|] == l;
    assert Fit(f.used, f.caps, bz, 0) == 0;
    assert f.used[0 := f.used[0] + bz] == [Sum(reqs)];
    forall i | 0 <= i < |l| ensures reqs[..i] == l[..i] {}
  }

  /** Requests that fit a block of the usual size together share one. */
  lemma {:induction false} RunOneBlock(sz: nat, reqs: seq<nat>)
    requires reqs != [] && Sum(reqs) <= sz && forall i :: 0 <= i < |reqs| ==> reqs[i] < sz
    ensures OneBlock(sz, Run(sz, [], reqs), reqs)
  {
    var n := |reqs| - 1;
    var l, bz := reqs[..n], reqs[n];
    assert l + [bz] == reqs;
    if n == 0 {
      assert Run(sz, [], l) == Fill([], [], []);
      assert Run(sz, [], reqs) == Fill([bz], [sz], [Region(0, 0, bz)]);
      assert reqs[..0] == [] && Sum(reqs) == bz;
    } else {
      RunOneBlock(sz, l);
      OneMore(sz, Run(sz, [], l), l, bz);
    }
  }

  /** Request `i` got the start of block `k`, which was made for it: of the usual size if that is
      more than was asked for, of twice what was asked for otherwise. */
  ghost predicate MadeFor(sz: nat, f: Fill, reqs: seq<nat>, k: nat, i: nat)
    requires k < |f.caps| && i < |reqs| == |f.out|
  {
    f.out[i] == Region(k, 0, reqs[i]) && f.caps[k] == if reqs[i] < sz then sz else 2 * reqs[i]
  }

  ghost predicate Made(sz: nat, f: Fill, reqs: seq<nat>, k: nat)
    requires k < |f.caps| && |reqs| == |f.out|
  {
    exists i: nat :: i < |reqs| && MadeFor(sz, f, reqs, k, i)
  }

  lemma MadeBefore(sz: nat, f: Fill, l: seq<nat>, bz: nat, k: nat)
    requires |f.used| == |f.caps| && k < |f.caps| && |l| == |f.out| && Made(sz, f, l, k)
    ensures |Place(sz, f, bz).out| == |l| + 1 && k < |Place(sz, f, bz).caps| && Made(sz, Place(sz, f, bz), l + [bz], k)
  {
    var i: nat :| i < |l| && MadeFor(sz, f, l, k, i);
    assert MadeFor(sz, Place(sz, f, bz), l + [bz], k, i);
  }

  lemma MadeNow(sz: nat, f: Fill, l: seq<nat>, bz: nat)
    requires |f.used| == |f.caps| && |l| == |f.out| && Fit(f.used, f.caps, bz, 0) == |f.caps|
    ensures |Place(sz, f, bz).caps| == |f.caps| + 1 && |Place(sz, f, bz).out| == |l| + 1
    ensures Made(sz, Place(sz, f, bz), l + [bz], |f.caps|)
  {
    assert MadeFor(sz, Place(sz, f, bz), l + [bz], |f.caps|, |l|);
  }

  lemma {:induction false} RunMakes(sz: nat, caps: seq<nat>, reqs: seq<nat>)
    ensures |caps| <= |Run(sz, caps, reqs).caps|
    ensures forall k :: |caps| <= k < |Run(sz, caps, reqs).caps| ==> Made(sz, Run(sz, caps, reqs), reqs, k)
  {
    if reqs != [] {
      var n := |reqs| - 1;
      var l, bz := reqs[..n], reqs[n];
      var f := Run(sz, caps, l);
      RunMakes(sz, caps, l);
      assert l + [bz] == reqs;
      forall k | |caps| <= k < |Run(sz, caps, reqs).caps| ensures Made(sz, Run(sz, caps, reqs), reqs, k) {
        if k < |f.caps| {
          MadeBefore(sz, f, l, bz, k);
        } else {
          MadeNow(sz, f, l, bz);
        }
      }
    }
  }

  // ---- The list of blocks ----

  class Block {
    var size: nat
    const bufsize: nat
    const buf: array<Byte>
    var next: Block?

    constructor (sz: nat)
      ensures size == 0 && bufsize == sz == buf.Length && next == null && fresh(buf)
    {
      size, bufsize, next := 0, sz, null;
      buf := new Byte[sz];
    }
  }

  function BlockAt(s: seq<Block>, i: nat): Block? {
    if i < |s| then s[i] else null
  }

  /** An address returned to the caller. */
  datatype Ptr = Ptr(buf: array<Byte>, off: nat)

  class Arena {
    const SZ: nat
    var data: Block?
    ghost var blocks: seq<Block>
    /** Fill marks and capacities of the blocks, and the regions allocated since the last clear. */
    ghost var fill: Fill
    /** The requests since the last clear, and the blocks there were then. */
    ghost var reqs: seq<nat>
    ghost var caps0: seq<nat>

    ghost predicate BlockOk(i: nat)
      requires i < |blocks| == |fill.used| == |fill.caps|
      reads this, blocks[i]
    {
      && blocks[i].size == fill.used[i] <= fill.caps[i] == blocks[i].bufsize == blocks[i].buf.Length
      && blocks[i].next == BlockAt(blocks, i + 1)
    }

    ghost predicate Linked()
      reads this, blocks
    {
      && |blocks| == |fill.used| == |fill.caps| && data == BlockAt(blocks, 0)
      && (forall i, j :: 0 <= i < j < |blocks| ==> blocks[i] != blocks[j] && blocks[i].buf != blocks[j].buf)
      && forall i {:trigger BlockOk(i)} :: 0 <= i < |blocks| ==> BlockOk(i)
    }

    ghost predicate Valid()
      reads this, blocks
    {
      Linked() && fill == Run(SZ, caps0, reqs)
    }

    constructor (sz: nat)
      ensures Valid() && SZ == sz && reqs == [] && caps0 == []
    {
      SZ, data, blocks, fill, reqs, caps0 := sz, null, [], Run(sz, [], []), [], [];
    }

    /** The address that request number `i` since the last clear was given. */
    ghost function Given(i: nat): Ptr
      requires Valid() && i < |reqs|
      reads this, blocks
    {
      RunTidy(SZ, caps0, reqs);
      Ptr(blocks[fill.out[i].block].buf, fill.out[i].off)
    }

    /** What was given out since the last clear lies inside the blocks, without overlap. */
    lemma GivenApart(i: nat, j: nat)
      requires Valid() && i < j < |reqs|
      ensures Given(i).off + reqs[i] <= Given(i).buf.Length && Given(j).off + reqs[j] <= Given(j).buf.Length
      ensures Given(i).buf != Given(j).buf || Given(i).off + reqs[i] <= Given(j).off || Given(j).off + reqs[j] <= Given(i).off
    {
      RunTidy(SZ, caps0, reqs);
      assert BlockOk(fill.out[i].block) && BlockOk(fill.out[j].block);
      assert Apart(fill.out[i], fill.out[j]);
    }

    /** The blocks account for every byte asked for since the last clear. */
    lemma SizesAddUp()
      requires Valid()
      ensures |fill.used| == |blocks| && forall k :: 0 <= k < |blocks| ==> blocks[k].size == fill.used[k]
      ensures Sum(fill.used) == Sum(reqs)
    {
      RunConserves(SZ, caps0, reqs);
      forall k | 0 <= k < |blocks| ensures blocks[k].size == fill.used[k] { assert BlockOk(k); }
    }

    /** Before the first clear, requests that fit a block of the usual size together are given one
        block, one behind the other. */
    lemma GivenTogether()
      requires Valid() && caps0 == [] && reqs != [] && Sum(reqs) <= SZ
      requires forall i :: 0 <= i < |reqs| ==> reqs[i] < SZ
      ensures |blocks| == 1 && blocks[0].bufsize == SZ
      ensures forall i :: 0 <= i < |reqs| ==> Given(i) == Ptr(blocks[0].buf, Sum(reqs[..i]))
    {
      RunOneBlock(SZ, reqs);
      assert BlockOk(0);
    }

    /** Every block that was not there at the last clear was made for a request, which has its
        start; its size is the usual one, or twice that of a request that is not smaller. */
    lemma BlockMadeFor(k: nat) returns (i: nat)
      requires Valid() && |caps0| <= k < |blocks|
      ensures i < |reqs| && Given(i) == Ptr(blocks[k].buf, 0)
      ensures blocks[k].bufsize == if reqs[i] < SZ then SZ else 2 * reqs[i]
    {
      RunMakes(SZ, caps0, reqs);
      assert BlockOk(k) && Made(SZ, fill, reqs, k);
      i :| i < |reqs| && MadeFor(SZ, fill, reqs, k, i);
    }

    /** `clear`. */
    method Clear()
      requires Valid()
      modifies this, blocks
      ensures Valid() && blocks == old(blocks) && reqs == [] && caps0 == old(fill).caps
    {
      ghost var c := fill.caps;
      var buf := data;
      ghost var i := 0;
      while buf != null
        invariant |blocks| == |fill.used| == |fill.caps| && data == BlockAt(blocks, 0)
        invariant blocks == old(blocks) && fill.caps == c && i <= |blocks| && buf == BlockAt(blocks, i)
        invariant forall j :: 0 <= j < i ==> fill.used[j] == 0
        invariant forall j {:trigger BlockOk(j)} :: 0 <= j < |blocks| ==> BlockOk(j)
        decreases |blocks| - i
      {
        assert BlockOk(i);
        label L:
        buf.size := 0;
        fill := fill.(used := fill.used[i := 0]);
        forall j | 0 <= j < |blocks| ensures BlockOk(j) {
          if j != i { assert old@L(BlockOk(j)); }
        }
        buf := buf.next;
        i := i + 1;
      }
      assert fill.used == Zeros(|c|);
      label M:
      fill, reqs, caps0 := Run(SZ, c, []), [], c;
      forall j | 0 <= j < |blocks| ensures BlockOk(j) { assert old@M(BlockOk(j)); }
    }

    /** `alloc`, for a malloc that succeeds. */
    method Alloc(bz: nat) returns (r: Ptr)
      requires Valid()
      modifies this, blocks
      ensures Valid() && reqs == old(reqs) + [bz] && caps0 == old(caps0)
      ensures old(blocks) <= blocks && fresh(blocks[|old(blocks)|..])
      ensures r == Given(|reqs| - 1)
      ensures forall i :: 0 <= i < |old(reqs)| ==> Given(i) == old(Given(i))
      ensures |blocks| <= |old(blocks)| + 1
      ensures |blocks| > |old(blocks)| ==> blocks[|old(blocks)|].bufsize == if bz < SZ then SZ else 2 * bz
    {
      RunTidy(SZ, caps0, reqs);
      r := FirstFit(bz);
      RunMore(SZ, caps0, reqs, bz);
      label L:
      reqs := reqs + [bz];
      forall j | 0 <= j < |blocks| ensures BlockOk(j) { assert old@L(BlockOk(j)); }
    }

    /** Its walk over the blocks. */
    method FirstFit(bz: nat) returns (r: Ptr)
      requires Linked()
      modifies this, blocks
      ensures Linked() && fill == Place(SZ, old(fill), bz) && reqs == old(reqs) && caps0 == old(caps0)
      ensures old(blocks) <= blocks && fresh(blocks[|old(blocks)|..]) && |blocks| <= |old(blocks)| + 1
      ensures |blocks| > |old(blocks)| ==> blocks[|old(blocks)|].bufsize == if bz < SZ then SZ else 2 * bz
      ensures var g := fill.out[|fill.out| - 1];
        g.block < |blocks| && r == Ptr(blocks[g.block].buf, g.off)
    {
      FitFits(fill.used, fill.caps, bz, 0);
      var buf := data;
      var pre: Block? := null;
      ghost var i := 0;
      while buf != null
        invariant Linked() && i <= |blocks| && buf == BlockAt(blocks, i) && Fit(fill.used, fill.caps, bz, 0) == Fit(fill.used, fill.caps, bz, i)
        invariant blocks == old(blocks) && fill == old(fill) && reqs == old(reqs) && caps0 == old(caps0)
        invariant pre == if i == 0 then null else blocks[i - 1]
        decreases |blocks| - i
      {
        assert BlockOk(i);
        pre := buf;
        if buf.bufsize - buf.size >= bz {
          label L:
          buf.size := buf.size + bz;
          fill := Place(SZ, fill, bz);
          forall j | 0 <= j < |blocks| ensures BlockOk(j) {
            assert old@L(BlockOk(j));
          }
          return Ptr(buf.buf, buf.size - bz);
        }
        buf := buf.next;
        i := i + 1;
      }
      r := AppendBuf(pre, bz);
    }

    /** `appendbuf`, behind the last block, and the allocation from the new block. */
    method AppendBuf(pre: Block?, bz: nat) returns (r: Ptr)
      requires Linked() && Fit(fill.used, fill.caps, bz, 0) == |blocks|
      requires pre == if blocks == [] then null else blocks[|blocks| - 1]
      modifies this, blocks
      ensures Linked() && fill == Place(SZ, old(fill), bz) && reqs == old(reqs) && caps0 == old(caps0)
      ensures |blocks| == |old(blocks)| + 1 && old(blocks) <= blocks && fresh(blocks[|old(blocks)|])
      ensures r == Ptr(blocks[|old(blocks)|].buf, 0)
      ensures blocks[|old(blocks)|].bufsize == if bz < SZ then SZ else 2 * bz
    {
      var sz := if bz < SZ then SZ else bz * 2;
      var b := new Block(sz);
      if pre != null {
        assert BlockOk(|blocks| - 1);
        pre.next := b;
      } else {
        data := b;
      }
      b.size := b.size + bz;
      ghost var n := |blocks|;
      blocks := blocks + [b];
      fill := Place(SZ, fill, bz);
      forall j | 0 <= j < |blocks| ensures BlockOk(j) {
        if j < n { assert old(BlockOk(j)); }
      }
      r := Ptr(b.buf, b.size - bz);
    }
  }
}
