/**
 * The in-memory logic of the file system (kernel/fs.c): path splitting,
 * the block bitmap, the inode cache's reference counts, the mapping of a
 * file's block numbers to disk blocks, and the bounds of reads and writes.
 *
 * The disk is a value or a class holding what these routines read and
 * write of it: the bitmap bytes (all bitmap blocks one after the other)
 * and, for blocks used as indirect blocks, their NINDIRECT addresses.
 * bread, brelse and log_write only move those bytes between disk and
 * buffer cache and do not appear. ReadSpan and WriteSpan see a file's
 * bytes as one flat sequence, without the bmap of each loop turn; Bmap
 * models that mapping on its own. The layout constants are those of
 * kernel/fs.h and kernel/param.h, which are not part of this model:
 * 512-byte blocks, 12 direct addresses, 14-byte names, 50 cached inodes.
 */
module Fs {
  import opened Wrappers
  import opened ULib

  const BSIZE: nat := 512
  /** Bitmap bits per block. */
  const BPB: nat := BSIZE * 8
  const NDIRECT: nat := 12
  const NINDIRECT: nat := BSIZE / 4
  const MAXFILE: nat := NDIRECT + NINDIRECT
  const DIRSIZ: nat := 14
  const NINODE: nat := 50
  const NDEV: int := 10
  const T_DEV: int := 3
  /** 2^32: uint arithmetic wraps at this value. */
  const UINT_LIMIT: nat := 0x1_0000_0000

  const SLASH: bv8 := 0x2f

  /** n zero words: a freshly zeroed block read as a table of addresses. */
  function Zeros(n: nat): (z: seq<nat>)
    ensures |z| == n && forall i :: 0 <= i < n ==> z[i] == 0
  {
    seq(n, _ => 0)
  }

  // ---------------------------------------------------------------------
  // skipelem

  /** The first index from i on that is not a '/'; the terminator stops it. */
  function SkipSlashes(path: seq<bv8>, i: nat): (j: nat)
    requires Terminated(path) && i <= Len(path)
    ensures i <= j <= Len(path) && path[j] != SLASH
    ensures forall k :: i <= k < j ==> path[k] == SLASH
    decreases Len(path) - i
  {
    if path[i] == SLASH then SkipSlashes(path, i + 1) else i
  }

  /** The first index from i on holding a '/' or the terminator. */
  function ElemEnd(path: seq<bv8>, i: nat): (j: nat)
    requires Terminated(path) && i <= Len(path)
    ensures i <= j <= Len(path) && (path[j] == SLASH || j == Len(path))
    ensures forall k :: i <= k < j ==> path[k] != SLASH && path[k] != 0
    decreases Len(path) - i
  {
    if path[i] == SLASH || path[i] == 0 then i else ElemEnd(path, i + 1)
  }

  /** What skipelem yields: where the rest of the path starts, and the bytes it writes to name. */
  datatype Elem = Elem(rest: nat, name: seq<bv8>)

  /**
   * skipelem (kernel/fs.c:657-673): skips leading '/'s, takes the element
   * up to the next '/' or the end, copies it to name (DIRSIZ bytes without
   * terminator when it is that long or longer, else the element and a
   * NUL), and skips the '/'s after it; None (a null result) when the path
   * has nothing but '/'s.
   */
  function SkipElem(path: seq<bv8>): (r: Option<Elem>)
    requires Terminated(path)
    ensures r.None? <==> forall k :: 0 <= k < Len(path) ==> path[k] == SLASH
    ensures r.Some? ==> r.value.rest <= Len(path) && path[r.value.rest] != SLASH
    ensures r.Some? ==> 0 < |r.value.name| <= DIRSIZ && (|r.value.name| < DIRSIZ ==> r.value.name[|r.value.name| - 1] == 0)
  {
    var s := SkipSlashes(path, 0);
    if path[s] == 0 then None
    else
      var e := ElemEnd(path, s);
      var name := if e - s >= DIRSIZ then path[s..s + DIRSIZ] else path[s..e] + [0];
      Some(Elem(SkipSlashes(path, e), name))
  }

  /**
   * The path splits as skipelem reads it: '/'s, a non-empty element of
   * neither '/' nor NUL, '/'s, and the rest; the name is the element cut
   * to DIRSIZ bytes, NUL-terminated when shorter.
   */
  lemma SkipElemSplits(path: seq<bv8>)
    requires Terminated(path) && SkipElem(path).Some?
    ensures var s := SkipSlashes(path, 0);
      var e := ElemEnd(path, s);
      var el := SkipElem(path).value;
      s < e <= el.rest &&
      (forall k :: 0 <= k < s ==> path[k] == SLASH) &&
      (forall k :: s <= k < e ==> path[k] != SLASH && path[k] != 0) &&
      (forall k :: e <= k < el.rest ==> path[k] == SLASH) &&
      el.name == if e - s >= DIRSIZ then path[s..s + DIRSIZ] else path[s..e] + [0]
  {
  }

  /** The documented example skipelem("a/bb/c") = "bb/c", with name "a". */
  lemma SkipElemFirstExample()
    ensures var p: seq<bv8> := [0x61, SLASH, 0x62, 0x62, SLASH, 0x63, 0];
      Terminated(p) && SkipElem(p) == Some(Elem(2, [0x61, 0]))
  {
    var p: seq<bv8> := [0x61, SLASH, 0x62, 0x62, SLASH, 0x63, 0];
    assert p[6] == 0;
    assert Len(p) == 6;
    assert SkipSlashes(p, 0) == 0;
    assert ElemEnd(p, 0) == ElemEnd(p, 1) == 1;
    assert SkipSlashes(p, 1) == SkipSlashes(p, 2) == 2;
    assert p[0..1] + [0] == [0x61, 0];
  }

  /** The documented example skipelem("///a//bb") = "bb", with name "a". */
  lemma SkipElemSecondExample()
    ensures var p: seq<bv8> := [SLASH, SLASH, SLASH, 0x61, SLASH, SLASH, 0x62, 0x62, 0];
      Terminated(p) && SkipElem(p) == Some(Elem(6, [0x61, 0]))
  {
    var p: seq<bv8> := [SLASH, SLASH, SLASH, 0x61, SLASH, SLASH, 0x62, 0x62, 0];
    assert p[8] == 0;
    assert Len(p) == 8;
    assert SkipSlashes(p, 0) == SkipSlashes(p, 1) == SkipSlashes(p, 2) == SkipSlashes(p, 3) == 3;
    assert ElemEnd(p, 3) == ElemEnd(p, 4) == 4;
    assert SkipSlashes(p, 4) == SkipSlashes(p, 5) == SkipSlashes(p, 6) == 6;
    assert p[3..4] + [0] == [0x61, 0];
  }

  /** The documented examples skipelem("a") = "" with name "a", and skipelem("") = skipelem("////") = 0. */
  lemma SkipElemLastExamples()
    ensures var a: seq<bv8> := [0x61, 0];
      Terminated(a) && SkipElem(a) == Some(Elem(1, [0x61, 0]))
    ensures var e: seq<bv8> := [0];
      Terminated(e) && SkipElem(e) == None
    ensures var s: seq<bv8> := [SLASH, SLASH, SLASH, SLASH, 0];
      Terminated(s) && SkipElem(s) == None
  {
    var a: seq<bv8> := [0x61, 0];
    assert a[1] == 0;
    assert Len(a) == 1;
    assert SkipSlashes(a, 0) == 0;
    assert ElemEnd(a, 0) == ElemEnd(a, 1) == 1;
    assert SkipSlashes(a, 1) == 1;
    assert a[0..1] + [0] == [0x61, 0];
    var e: seq<bv8> := [0];
    assert e[0] == 0;
    assert Len(e) == 0 && SkipSlashes(e, 0) == 0;
    var s: seq<bv8> := [SLASH, SLASH, SLASH, SLASH, 0];
    assert s[4] == 0;
    assert Len(s) == 4;
    assert SkipSlashes(s, 0) == SkipSlashes(s, 1) == SkipSlashes(s, 2) == SkipSlashes(s, 3) == SkipSlashes(s, 4) == 4;
  }

  // ---------------------------------------------------------------------
  // The block bitmap

  /**
   * The bitmap bytes of all bitmap blocks laid end to end: block b's bit
   * is in byte b / 8, at bit b % 8.
   */
  function BitByte(b: nat): nat
  {
    b / 8
  }

  function BitMask(b: nat): bv8
  {
    [1, 2, 4, 8, 16, 32, 64, 128][b % 8]
  }

  /** The mask is the shift the bitmap routines compute. */
  lemma MaskShift(i: nat)
    requires i < 8
    ensures (1 as bv8) << i as bv8 == BitMask(i)
  {
  }

  /**
   * The layout the bitmap routines use: block b's bit is byte
   * (b % BPB) / 8 of bitmap block b / BPB, bit (b % BPB) % 8; in the
   * bytes laid end to end that is BitByte(b) and BitMask(b).
   */
  lemma BitPlace(b: nat)
    ensures (b / BPB) * BSIZE + (b % BPB) / 8 == BitByte(b)
    ensures (b % BPB) % 8 == b % 8
  {
    var q, r := b / BPB, b % BPB;
    assert b == q * BPB + r;
    assert r == (r / 8) * 8 + r % 8;
    assert b == (q * BSIZE + r / 8) * 8 + r % 8;
  }

  /** Block b is marked in use. */
  predicate InUse(bits: seq<bv8>, b: nat)
    requires BitByte(b) < |bits|
  {
    bits[BitByte(b)] & BitMask(b) != 0
  }

  /** The bitmap with block b's bit set. */
  function SetBit(bits: seq<bv8>, b: nat): (r: seq<bv8>)
    requires BitByte(b) < |bits|
    ensures |r| == |bits|
  {
    bits[BitByte(b) := bits[BitByte(b)] | BitMask(b)]
  }

  /** The bitmap with block b's bit cleared. */
  function ClearBit(bits: seq<bv8>, b: nat): (r: seq<bv8>)
    requires BitByte(b) < |bits|
    ensures |r| == |bits|
  {
    bits[BitByte(b) := bits[BitByte(b)] & !BitMask(b)]
  }

  /** Two blocks share a bit only if they are the same block. */
  lemma BitsApart(b: nat, c: nat)
    requires b != c && BitByte(b) == BitByte(c)
    ensures BitMask(b) & BitMask(c) == 0
  {
    assert b % 8 != c % 8 by {
      assert b == (b / 8) * 8 + b % 8 && c == (c / 8) * 8 + c % 8;
    }
  }

  /** Setting b's bit marks b and leaves every other block as it was. */
  lemma SetBitInUse(bits: seq<bv8>, b: nat, c: nat)
    requires BitByte(b) < |bits| && BitByte(c) < |bits|
    ensures InUse(SetBit(bits, b), c) <==> c == b || InUse(bits, c)
  {
    if BitByte(c) != BitByte(b) {
      OtherByte(bits, SetBit(bits, b), b, c);
    } else if c == b {
      MaskNonZero(b);
      BitSetClear(bits[BitByte(b)], BitMask(b));
    } else {
      SameByte(bits[BitByte(b)], b, c);
    }
  }

  /** Clearing b's bit frees b and leaves every other block as it was. */
  lemma ClearBitInUse(bits: seq<bv8>, b: nat, c: nat)
    requires BitByte(b) < |bits| && BitByte(c) < |bits|
    ensures InUse(ClearBit(bits, b), c) <==> c != b && InUse(bits, c)
  {
    if BitByte(c) != BitByte(b) {
      OtherByte(bits, ClearBit(bits, b), b, c);
    } else if c == b {
      BitSetClear(bits[BitByte(b)], BitMask(b));
    } else {
      SameByte(bits[BitByte(b)], b, c);
    }
  }

  /** A change to b's byte leaves the blocks of other bytes alone. */
  lemma OtherByte(bits: seq<bv8>, r: seq<bv8>, b: nat, c: nat)
    requires BitByte(b) < |bits| && BitByte(c) < |bits| && BitByte(c) != BitByte(b)
    requires |r| == |bits| && r == bits[BitByte(b) := r[BitByte(b)]]
    ensures InUse(r, c) <==> InUse(bits, c)
  {
    assert r[BitByte(c)] == bits[BitByte(c)];
  }

  /** Setting or clearing b's bit leaves the other bits of its byte alone. */
  lemma SameByte(x: bv8, b: nat, c: nat)
    requires c != b && BitByte(c) == BitByte(b)
    ensures (x | BitMask(b)) & BitMask(c) == x & BitMask(c)
    ensures (x & !BitMask(b)) & BitMask(c) == x & BitMask(c)
  {
    BitsApart(b, c);
    BitOr(x, BitMask(b), BitMask(c));
    BitAndNot(x, BitMask(b), BitMask(c));
  }

  lemma MaskNonZero(b: nat)
    ensures BitMask(b) != 0
  {
  }

  lemma BitSetClear(x: bv8, m: bv8)
    ensures m != 0 ==> (x | m) & m != 0
    ensures (x & !m) & m == 0
  {
  }

  lemma BitOr(x: bv8, m: bv8, n: bv8)
    requires m & n == 0
    ensures (x | m) & n == x & n
  {
  }

  lemma BitAndNot(x: bv8, m: bv8, n: bv8)
    requires m & n == 0
    ensures (x & !m) & n == x & n
  {
  }

  /** Freeing a block that was just allocated restores the bitmap. */
  lemma ClearSetBit(bits: seq<bv8>, b: nat)
    requires BitByte(b) < |bits| && !InUse(bits, b)
    ensures ClearBit(SetBit(bits, b), b) == bits
  {
    BitUndo(bits[BitByte(b)], BitMask(b));
  }

  lemma BitUndo(x: bv8, m: bv8)
    requires x & m == 0
    ensures (x | m) & !m == x
  {
  }

  /**
   * The on-disk state balloc and bmap work on: the bitmap bytes and the
   * address tables of the blocks in use as indirect blocks.
   */
  datatype Disk = Disk(bits: seq<bv8>, tables: map<nat, seq<nat>>)

  /** The disk covers blocks 0 .. size - 1: each has its bit. */
  predicate Covers(size: nat, bits: seq<bv8>)
  {
    size <= |bits| * 8
  }

  lemma CoveredBit(size: nat, bits: seq<bv8>, b: nat)
    requires Covers(size, bits) && b < size
    ensures BitByte(b) < |bits|
  {
  }

  /** The lowest free block below size, from b on, or None. */
  function FirstFree(size: nat, bits: seq<bv8>, b: nat): (r: Option<nat>)
    requires Covers(size, bits)
    ensures r.Some? ==> b <= r.value < size && BitByte(r.value) < |bits| && !InUse(bits, r.value)
    decreases size - b
  {
    if b >= size then None
    else
      CoveredBit(size, bits, b);
      if !InUse(bits, b) then Some(b) else FirstFree(size, bits, b + 1)
  }

  /** FirstFree finds the lowest free block: every block before it (or all, for None) is in use. */
  lemma {:induction false} FirstFreeLowest(size: nat, bits: seq<bv8>, b: nat, c: nat)
    requires Covers(size, bits) && b <= c < size
    requires FirstFree(size, bits, b).None? || c < FirstFree(size, bits, b).value
    ensures BitByte(c) < |bits| && InUse(bits, c)
    decreases size - b
  {
    CoveredBit(size, bits, b);
    CoveredBit(size, bits, c);
    if b < c {
      FirstFreeLowest(size, bits, b + 1, c);
    }
  }

  /**
   * balloc (kernel/fs.c:55-77): the lowest free block is marked in use and
   * zeroed (bzero, seen here as its address table becoming all zeros);
   * None stands for the panic when every block is in use.
   */
  function Balloc(size: nat, d: Disk): (r: Option<(nat, Disk)>)
    requires Covers(size, d.bits)
    ensures r.Some? ==> r.value.0 < size && Covers(size, r.value.1.bits)
  {
    match FirstFree(size, d.bits, 0)
    case None => None
    case Some(b) => Some((b, Disk(SetBit(d.bits, b), d.tables[b := Zeros(NINDIRECT)])))
  }

  /**
   * balloc takes the lowest free block, and only that block's bit
   * changes; it panics exactly when no block below size is free.
   */
  lemma BallocLowest(size: nat, d: Disk, c: nat)
    requires Covers(size, d.bits) && c < size
    ensures BitByte(c) < |d.bits|
    ensures Balloc(size, d).None? ==> InUse(d.bits, c)
    ensures Balloc(size, d).Some? ==> var b := Balloc(size, d).value.0;
      !InUse(d.bits, b) && (c < b ==> InUse(d.bits, c)) &&
      (InUse(Balloc(size, d).value.1.bits, c) <==> c == b || InUse(d.bits, c))
  {
    CoveredBit(size, d.bits, c);
    var r := FirstFree(size, d.bits, 0);
    if r.None? || c < r.value {
      FirstFreeLowest(size, d.bits, 0, c);
    }
    if r.Some? {
      SetBitInUse(d.bits, r.value, c);
    }
  }

  /**
   * bfree (kernel/fs.c:79-92): clears block b's bit; None stands for the
   * panic on freeing a free block.
   */
  function Bfree(bits: seq<bv8>, b: nat): (r: Option<seq<bv8>>)
    requires BitByte(b) < |bits|
    ensures r.None? <==> !InUse(bits, b)
  {
    if !InUse(bits, b) then None else Some(ClearBit(bits, b))
  }

  /** bfree after balloc gives back the bitmap balloc started from. */
  lemma BfreeUndoesBalloc(size: nat, d: Disk)
    requires Covers(size, d.bits) && Balloc(size, d).Some?
    ensures var (b, d') := Balloc(size, d).value;
      BitByte(b) < |d'.bits| && Bfree(d'.bits, b) == Some(d.bits)
  {
    var b := Balloc(size, d).value.0;
    SetBitInUse(d.bits, b, b);
    ClearSetBit(d.bits, b);
  }

  /** The bitmap and indirect blocks of the disk, held in place. */
  class DiskStore {
    const size: nat
    const bitmap: array<bv8>
    var tables: map<nat, seq<nat>>

    function State(): Disk
      reads this, bitmap
    {
      Disk(bitmap[..], tables)
    }

    constructor (size: nat, bitmap: array<bv8>, tables: map<nat, seq<nat>>)
      requires Covers(size, bitmap[..])
      ensures this.size == size && this.bitmap == bitmap && this.tables == tables
    {
      this.size := size;
      this.bitmap := bitmap;
      this.tables := tables;
    }
  }

  /** Bit bi of the bitmap block starting at block blk is block blk + bi's bit. */
  lemma BitOfBlock(blk: nat, bi: nat)
    requires blk % BPB == 0 && bi < BPB
    ensures BitByte(blk + bi) == (blk / BPB) * BSIZE + bi / 8
    ensures BitMask(blk + bi) == BitMask(bi % 8)
  {
    var q := blk / BPB;
    assert blk == q * BPB;
    assert (blk + bi) / BPB == q && (blk + bi) % BPB == bi by {
      assert blk + bi == q * BPB + bi;
    }
    BitPlace(blk + bi);
  }

  lemma NextBitmapBlock(blk: nat)
    requires blk % BPB == 0
    ensures (blk + BPB) % BPB == 0
  {
    assert blk == (blk / BPB) * BPB;
    assert blk + BPB == (blk / BPB + 1) * BPB;
  }

  /** Where balloc looks for bit bi of the bitmap block starting at block blk: the byte index and the mask. */
  method BitAt(blk: nat, bi: nat) returns (at: nat, m: bv8)
    requires blk % BPB == 0 && bi < BPB
    ensures at == BitByte(blk + bi) && m == BitMask(blk + bi)
  {
    BitOfBlock(blk, bi);
    MaskShift(bi % 8);
    at := (blk / BPB) * BSIZE + bi / 8;
    m := (1 as bv8) << (bi % 8) as bv8;
  }

  /** Marks block c in use (kernel/fs.c:68). */
  method Mark(d: DiskStore, c: nat, at: nat, m: bv8)
    requires at == BitByte(c) < d.bitmap.Length && m == BitMask(c)
    modifies d.bitmap
    ensures d.bitmap[..] == SetBit(old(d.bitmap[..]), c)
  {
    d.bitmap[at] := d.bitmap[at] | m;
  }

  /** A free block is the first free one from itself on. */
  lemma FirstFreeHit(size: nat, bits: seq<bv8>, c: nat)
    requires Covers(size, bits) && c < size && BitByte(c) < |bits| && !InUse(bits, c)
    ensures FirstFree(size, bits, c) == Some(c)
  {
  }

  lemma FirstFreeEnd(size: nat, bits: seq<bv8>, c: nat)
    requires Covers(size, bits) && size <= c
    ensures FirstFree(size, bits, c) == None
  {
  }

  /** Past an in-use block the search for a free one goes on unchanged. */
  lemma FirstFreeSkip(size: nat, bits: seq<bv8>, c: nat)
    requires Covers(size, bits) && c < size && BitByte(c) < |bits| && InUse(bits, c)
    ensures FirstFree(size, bits, c) == FirstFree(size, bits, c + 1)
  {
  }

  /** Every block from lo up to hi is marked in use. */
  predicate AllInUse(size: nat, bits: seq<bv8>, lo: nat, hi: nat)
    requires Covers(size, bits) && hi <= size
  {
    forall c {:trigger InUse(bits, c)} :: lo <= c < hi ==> InUse(bits, c)
  }

  lemma AllInUseExtend(size: nat, bits: seq<bv8>, lo: nat, hi: nat)
    requires Covers(size, bits) && hi < size && AllInUse(size, bits, lo, hi)
    requires BitByte(hi) < |bits| && InUse(bits, hi)
    ensures AllInUse(size, bits, lo, hi + 1)
  {
  }

  /** The search for a free block passes over blocks in use. */
  lemma {:induction false} SkipInUse(size: nat, bits: seq<bv8>, lo: nat, hi: nat)
    requires Covers(size, bits) && lo <= hi <= size && AllInUse(size, bits, lo, hi)
    ensures FirstFree(size, bits, lo) == FirstFree(size, bits, hi)
    decreases hi - lo
  {
    if lo < hi {
      CoveredBit(size, bits, lo);
      assert InUse(bits, lo);
      SkipInUse(size, bits, lo + 1, hi);
    }
  }

  /** The test of bit bi of the bitmap block at blk (kernel/fs.c:66-67). */
  method BitFree(size: nat, bits: seq<bv8>, blk: nat, bi: nat) returns (free: bool)
    requires Covers(size, bits) && blk % BPB == 0 && bi < BPB && blk + bi < size
    ensures BitByte(blk + bi) < |bits| && (free <==> !InUse(bits, blk + bi))
  {
    CoveredBit(size, bits, blk + bi);
    var at, m := BitAt(blk, bi);
    free := bits[at] & m == 0;
  }

  /**
   * The inner loop of balloc (kernel/fs.c:65-74) over the bits of the
   * bitmap block starting at block blk, read into a buffer: the first
   * free block of this bitmap block, if there is one.
   */
  method ScanBitmapBlock(size: nat, bits: seq<bv8>, blk: nat) returns (b: Option<nat>)
    requires Covers(size, bits) && blk % BPB == 0 && blk < size
    ensures b.Some? ==>
      blk <= b.value < Min(blk + BPB, size) && BitByte(b.value) < |bits| &&
      !InUse(bits, b.value) && AllInUse(size, bits, blk, b.value)
    ensures b.None? ==> AllInUse(size, bits, blk, Min(blk + BPB, size))
  {
    var bi := 0;
    while bi < BPB && blk + bi < size
      invariant bi <= BPB && blk + bi <= size
      invariant AllInUse(size, bits, blk, blk + bi)
    {
      var free := BitFree(size, bits, blk, bi);
      if free {
        return Some(blk + bi);
      }
      AllInUseExtend(size, bits, blk, blk + bi);
      bi := bi + 1;
    }
    return None;
  }

  /**
   * The loops of balloc (kernel/fs.c:61-75) over a snapshot of the bitmap:
   * bitmap block by bitmap block, the first free block.
   */
  method FindFree(size: nat, bits: seq<bv8>) returns (b: Option<nat>)
    requires Covers(size, bits)
    ensures b == FirstFree(size, bits, 0)
  {
    var blk := 0;
    b := None;
    while blk < size
      invariant blk % BPB == 0 && b.None?
      invariant AllInUse(size, bits, 0, Min(blk, size))
      decreases size - blk
    {
      b := ScanBitmapBlock(size, bits, blk);
      if b.Some? {
        SkipInUse(size, bits, 0, b.value);
        FirstFreeHit(size, bits, b.value);
        return;
      }
      NextBitmapBlock(blk);
      blk := blk + BPB;
    }
    SkipInUse(size, bits, 0, size);
    FirstFreeEnd(size, bits, size);
  }

  /** Marking block c in use (kernel/fs.c:68) and zeroing it (bzero, line 71). */
  method Claim(d: DiskStore, c: nat)
    requires BitByte(c) < d.bitmap.Length
    modifies d, d.bitmap
    ensures d.State() == Disk(SetBit(old(d.bitmap[..]), c), old(d.tables)[c := Zeros(NINDIRECT)])
  {
    var at, m := BitAt(c - c % BPB, c % BPB);
    Mark(d, c, at, m);
    d.tables := d.tables[c := Zeros(NINDIRECT)];
  }

  /**
   * balloc (kernel/fs.c:55-77), proved against Balloc: the search for a
   * free block, then the marking and zeroing of the block found; None
   * stands for the panic.
   */
  method BallocIn(d: DiskStore) returns (b: Option<nat>)
    requires Covers(d.size, d.bitmap[..])
    modifies d, d.bitmap
    ensures b.None? <==> Balloc(d.size, old(d.State())).None?
    ensures b.Some? ==> Balloc(d.size, old(d.State())) == Some((b.value, d.State()))
    ensures b.None? ==> d.State() == old(d.State())
  {
    b := FindFree(d.size, d.bitmap[..]);
    if b.Some? {
      CoveredBit(d.size, d.bitmap[..], b.value);
      Claim(d, b.value);
    }
  }

  /** bfree (kernel/fs.c:79-92), proved against Bfree: panicked stands for its panic. */
  method BfreeIn(d: DiskStore, b: nat) returns (panicked: bool)
    requires BitByte(b) < d.bitmap.Length
    modifies d.bitmap
    ensures panicked <==> Bfree(old(d.bitmap[..]), b).None?
    ensures !panicked ==> Bfree(old(d.bitmap[..]), b) == Some(d.bitmap[..])
    ensures panicked ==> d.bitmap[..] == old(d.bitmap[..])
  {
    BitPlace(b);
    MaskShift(b % 8);
    var at := (b / BPB) * BSIZE + (b % BPB) / 8;
    var bi := b % BPB;
    var m := (1 as bv8) << (bi % 8) as bv8;
    if d.bitmap[at] & m == 0 {
      return true;
    }
    d.bitmap[at] := d.bitmap[at] & !m;
    return false;
  }

  // ---------------------------------------------------------------------
  // The inode cache

  /** An in-memory inode (struct inode); addrs holds NDIRECT direct addresses and the indirect one. */
  datatype Inode = Inode(dev: nat, inum: nat, ref: int, valid: bool, itype: int, major: int,
                         nlink: int, size: nat, addrs: seq<nat>)

  /** An entry caches inode (dev, inum) while some reference holds it. */
  predicate Holds(ip: Inode, dev: nat, inum: nat)
  {
    ip.ref > 0 && ip.dev == dev && ip.inum == inum
  }

  /** No reference count is negative, and no inode is cached twice. */
  predicate CacheOk(c: seq<Inode>)
  {
    (forall i :: 0 <= i < |c| ==> c[i].ref >= 0) &&
    forall i, j :: 0 <= i < j < |c| && c[i].ref > 0 && c[j].ref > 0 ==>
      c[i].dev != c[j].dev || c[i].inum != c[j].inum
  }

  /** The first entry from k on that caches (dev, inum), or -1. */
  function FirstCached(c: seq<Inode>, dev: nat, inum: nat, k: nat): (r: int)
    requires k <= |c|
    ensures r == -1 || (k <= r < |c| && Holds(c[r], dev, inum))
    ensures forall j :: k <= j < |c| && (r == -1 || j < r) ==> !Holds(c[j], dev, inum)
    decreases |c| - k
  {
    if k == |c| then -1 else if Holds(c[k], dev, inum) then k else FirstCached(c, dev, inum, k + 1)
  }

  /** The first entry from k on with no references, or -1. */
  function FirstEmpty(c: seq<Inode>, k: nat): (r: int)
    requires k <= |c|
    ensures r == -1 || (k <= r < |c| && c[r].ref == 0)
    ensures forall j :: k <= j < |c| && (r == -1 || j < r) ==> c[j].ref != 0
    decreases |c| - k
  {
    if k == |c| then -1 else if c[k].ref == 0 then k else FirstEmpty(c, k + 1)
  }

  /** What iget yields: the entry it returns and the cache after it, or its panic. */
  datatype Got = Got(i: nat, cache: seq<Inode>) | NoInodes

  /**
   * iget (kernel/fs.c:240-270): the entry caching (dev, inum) gains a
   * reference; otherwise the first unreferenced entry is recycled for it
   * with one reference and not valid; with neither, the panic.
   */
  function Iget(c: seq<Inode>, dev: nat, inum: nat): (r: Got)
    ensures r.Got? ==> r.i < |c| && |r.cache| == |c|
  {
    var j := FirstCached(c, dev, inum, 0);
    if j >= 0 then Got(j, c[j := c[j].(ref := c[j].ref + 1)])
    else
      var e := FirstEmpty(c, 0);
      if e < 0 then NoInodes
      else Got(e, c[e := c[e].(dev := dev, inum := inum, ref := 1, valid := false)])
  }

  /**
   * iget returns the entry for (dev, inum), holding one more reference
   * than before (one, when it recycles an entry, which it only does when
   * no entry caches the inode), changes no other entry, keeps the cache
   * consistent, and panics only when every entry is referenced and none
   * caches the inode.
   */
  lemma IgetEffect(c: seq<Inode>, dev: nat, inum: nat)
    requires CacheOk(c)
    ensures var r := Iget(c, dev, inum);
      (r.NoInodes? <==> (forall j :: 0 <= j < |c| ==> c[j].ref > 0 && !Holds(c[j], dev, inum))) &&
      (r.Got? ==>
        CacheOk(r.cache) && Holds(r.cache[r.i], dev, inum) &&
        (forall j :: 0 <= j < |c| && j != r.i ==> r.cache[j] == c[j]) &&
        (if Holds(c[r.i], dev, inum) then r.cache[r.i] == c[r.i].(ref := c[r.i].ref + 1)
         else c[r.i].ref == 0 && r.cache[r.i].ref == 1 && !r.cache[r.i].valid &&
              forall j :: 0 <= j < |c| ==> !Holds(c[j], dev, inum)))
  {
    var j := FirstCached(c, dev, inum, 0);
    var e := FirstEmpty(c, 0);
    var r := Iget(c, dev, inum);
    if j < 0 && e >= 0 {
      var c' := r.cache;
      forall a, b | 0 <= a < b < |c'| && c'[a].ref > 0 && c'[b].ref > 0
        ensures c'[a].dev != c'[b].dev || c'[a].inum != c'[b].inum
      {
        if a != e && b != e {
          assert c'[a] == c[a] && c'[b] == c[b];
        }
      }
    }
  }

  /** idup (kernel/fs.c:275-282): one more reference to entry i. */
  function Idup(c: seq<Inode>, i: nat): (r: seq<Inode>)
    requires i < |c|
    ensures |r| == |c| && r[i].ref == c[i].ref + 1
    ensures forall j :: 0 <= j < |c| && j != i ==> r[j] == c[j]
  {
    c[i := c[i].(ref := c[i].ref + 1)]
  }

  /**
   * iput (kernel/fs.c:334-357): drops a reference to entry i; when it
   * was the last one to a valid inode with no links, the inode is first
   * truncated (no addresses, size 0), given type 0 and marked not valid.
   */
  function Iput(c: seq<Inode>, i: nat): (r: seq<Inode>)
    requires i < |c|
    ensures |r| == |c| && r[i].ref == c[i].ref - 1
    ensures forall j :: 0 <= j < |c| && j != i ==> r[j] == c[j]
  {
    var ip := c[i];
    var ip' := if ip.valid && ip.nlink == 0 && ip.ref == 1
      then ip.(addrs := Zeros(|ip.addrs|), size := 0, itype := 0, valid := false)
      else ip;
    c[i := ip'.(ref := ip.ref - 1)]
  }

  /** Putting back a reference just duplicated restores the cache. */
  lemma IputIdup(c: seq<Inode>, i: nat)
    requires i < |c| && c[i].ref >= 1
    ensures Iput(Idup(c, i), i) == c
  {
    assert Idup(c, i)[i].ref >= 2;
  }

  /**
   * iput drops the last reference of a valid unlinked inode only after
   * freeing it: the entry then holds no addresses, size 0 and type 0, and
   * must be read again before use; the cache stays consistent.
   */
  lemma IputLast(c: seq<Inode>, i: nat)
    requires CacheOk(c) && i < |c| && c[i].ref >= 1
    ensures CacheOk(Iput(c, i))
    ensures c[i].ref == 1 && c[i].valid && c[i].nlink == 0 ==>
      var ip := Iput(c, i)[i];
      ip.ref == 0 && !ip.valid && ip.itype == 0 && ip.size == 0 &&
      forall k :: 0 <= k < |ip.addrs| ==> ip.addrs[k] == 0
  {
    var r := Iput(c, i);
    forall a, b | 0 <= a < b < |r| && r[a].ref > 0 && r[b].ref > 0
      ensures r[a].dev != r[b].dev || r[a].inum != r[b].inum
    {
      assert r[a].dev == c[a].dev && r[a].inum == c[a].inum;
      assert r[b].dev == c[b].dev && r[b].inum == c[b].inum;
    }
  }

  /** The inode cache (icache), its entries updated in place. */
  class ICache {
    const inode: array<Inode>

    constructor (inode: array<Inode>)
      ensures this.inode == inode
    {
      this.inode := inode;
    }

    /** iget (kernel/fs.c:240-270), its scan of the cache, proved against Iget; None is the panic. */
    method Get(dev: nat, inum: nat) returns (r: Option<nat>)
      modifies inode
      ensures r.None? <==> Iget(old(inode[..]), dev, inum).NoInodes?
      ensures r.Some? ==> Iget(old(inode[..]), dev, inum) == Got(r.value, inode[..])
      ensures r.None? ==> inode[..] == old(inode[..])
    {
      var empty := -1;
      var i := 0;
      while i < inode.Length
        invariant 0 <= i <= inode.Length
        invariant inode[..] == old(inode[..])
        invariant FirstCached(inode[..], dev, inum, 0) == FirstCached(inode[..], dev, inum, i)
        invariant empty == -1 ==> FirstEmpty(inode[..], 0) == FirstEmpty(inode[..], i)
        invariant empty != -1 ==> 0 <= empty < i && FirstEmpty(inode[..], 0) == empty
      {
        var ip := inode[i];
        if ip.ref > 0 && ip.dev == dev && ip.inum == inum {
          inode[i] := ip.(ref := ip.ref + 1);
          return Some(i);
        }
        if empty == -1 && ip.ref == 0 {
          empty := i;
        }
        i := i + 1;
      }
      if empty == -1 {
        return None;
      }
      inode[empty] := inode[empty].(dev := dev, inum := inum, ref := 1, valid := false);
      return Some(empty);
    }

    /** idup (kernel/fs.c:275-282), proved against Idup. */
    method Dup(i: nat)
      requires i < inode.Length
      modifies inode
      ensures inode[..] == Idup(old(inode[..]), i)
    {
      inode[i] := inode[i].(ref := inode[i].ref + 1);
    }

    /** iput (kernel/fs.c:334-357), proved against Iput; itrunc's freeing of the blocks is not part of this model. */
    method Put(i: nat)
      requires i < inode.Length
      modifies inode
      ensures inode[..] == Iput(old(inode[..]), i)
    {
      var ip := inode[i];
      if ip.valid && ip.nlink == 0 {
        var r := ip.ref;
        if r == 1 {
          ip := ip.(addrs := Zeros(|ip.addrs|), size := 0);
          ip := ip.(itype := 0);
          ip := ip.(valid := false);
        }
      }
      inode[i] := ip.(ref := ip.ref - 1);
    }
  }

  // ---------------------------------------------------------------------
  // bmap

  /** The inode has its addresses, and its indirect block, when it has one, a full table on the disk. */
  predicate Indexed(ip: Inode, d: Disk)
  {
    |ip.addrs| == NDIRECT + 1 &&
    (ip.addrs[NDIRECT] != 0 ==> ip.addrs[NDIRECT] in d.tables && |d.tables[ip.addrs[NDIRECT]]| == NINDIRECT)
  }

  /** What bmap yields: the disk address with the inode and disk after it, or its panic. */
  datatype Mapped = Mapped(addr: nat, ip: Inode, d: Disk) | BmapPanic

  /** The entry at index k of the indirect table at addr: read it, or allocate a block for it when it is 0. */
  function IndirectEntry(size: nat, d: Disk, addr: nat, k: nat, ip: Inode): (r: Mapped)
    requires Covers(size, d.bits) && addr in d.tables && k < |d.tables[addr]|
  {
    var t := d.tables[addr];
    if t[k] != 0 then Mapped(t[k], ip, d)
    else match Balloc(size, d)
      case None => BmapPanic
      case Some(got) =>
        var a: nat := got.0;
        var t': seq<nat> := t[k := a];
        Mapped(a, ip, got.1.(tables := got.1.tables[addr := t']))
  }

  /**
   * bmap (kernel/fs.c:374-407): block bn of the file is direct entry bn
   * below NDIRECT, else entry bn - NDIRECT of the indirect block (itself
   * allocated on first use); a zero entry gets a freshly allocated block;
   * bn at or past NDIRECT + NINDIRECT, or balloc running out, is the panic.
   */
  function Bmap(size: nat, d: Disk, ip: Inode, bn: nat): (r: Mapped)
    requires Covers(size, d.bits) && Indexed(ip, d)
    ensures r.Mapped? ==> Covers(size, r.d.bits) && Indexed(r.ip, r.d)
    ensures bn >= MAXFILE ==> r.BmapPanic?
  {
    if bn < NDIRECT then
      if ip.addrs[bn] != 0 then Mapped(ip.addrs[bn], ip, d)
      else match Balloc(size, d)
        case None => BmapPanic
        case Some(got) => Mapped(got.0, ip.(addrs := ip.addrs[bn := got.0]), got.1)
    else if bn - NDIRECT < NINDIRECT then
      var k := bn - NDIRECT;
      if ip.addrs[NDIRECT] != 0 then IndirectEntry(size, d, ip.addrs[NDIRECT], k, ip)
      else match Balloc(size, d)
        case None => BmapPanic
        case Some(got) => IndirectEntry(size, got.1, got.0, k, ip.(addrs := ip.addrs[NDIRECT := got.0]))
    else BmapPanic
  }

  /** The address the inode currently records for its block bn, 0 for none. */
  function Entry(ip: Inode, d: Disk, bn: nat): nat
    requires Indexed(ip, d) && bn < MAXFILE
  {
    if bn < NDIRECT then ip.addrs[bn]
    else if ip.addrs[NDIRECT] == 0 then 0
    else d.tables[ip.addrs[NDIRECT]][bn - NDIRECT]
  }

  /** bmap returns an address already recorded as it is, and changes nothing. */
  lemma BmapRecorded(size: nat, d: Disk, ip: Inode, bn: nat)
    requires Covers(size, d.bits) && Indexed(ip, d) && bn < MAXFILE && Entry(ip, d, bn) != 0
    ensures Bmap(size, d, ip, bn) == Mapped(Entry(ip, d, bn), ip, d)
  {
  }

  /** A block balloc hands out is neither block 0 nor one that was in use. */
  lemma BallocFresh(size: nat, d: Disk)
    requires Covers(size, d.bits) && 0 < size && InUse(d.bits, 0) && Balloc(size, d).Some?
    ensures var (a, d1) := Balloc(size, d).value;
      a != 0 && BitByte(a) < |d.bits| && !InUse(d.bits, a) && InUse(d1.bits, a) && InUse(d1.bits, 0)
  {
    var a := Balloc(size, d).value.0;
    BallocLowest(size, d, 0);
    BallocLowest(size, d, a);
  }

  /**
   * When nothing is recorded for bn, bmap records a block that was free
   * and is now in use (with block 0, never handed out, in use), so that
   * bmap of the same bn afterwards returns that block and changes nothing.
   */
  lemma BmapAllocates(size: nat, d: Disk, ip: Inode, bn: nat)
    requires Covers(size, d.bits) && 0 < size && InUse(d.bits, 0)
    requires Indexed(ip, d) && bn < MAXFILE && Entry(ip, d, bn) == 0
    ensures var r := Bmap(size, d, ip, bn);
      r.Mapped? ==>
        r.addr != 0 && BitByte(r.addr) < |d.bits| && !InUse(d.bits, r.addr) &&
        |r.d.bits| == |d.bits| && InUse(r.d.bits, r.addr) && InUse(r.d.bits, 0) &&
        Entry(r.ip, r.d, bn) == r.addr && Bmap(size, r.d, r.ip, bn) == Mapped(r.addr, r.ip, r.d)
  {
    var r := Bmap(size, d, ip, bn);
    if r.Mapped? {
      BallocFresh(size, d);
      if bn >= NDIRECT && ip.addrs[NDIRECT] == 0 {
        var (a, d1) := Balloc(size, d).value;
        BallocFresh(size, d1);
        var (a2, d2) := Balloc(size, d1).value;
        BallocLowest(size, d1, a2);
        SetBitInUse(d1.bits, a2, a);
        SetBitInUse(d1.bits, a2, a2);
        SetBitInUse(d.bits, a, a2);
      }
      BmapRecorded(size, r.d, r.ip, bn);
    }
  }

  /**
   * bmap (kernel/fs.c:374-407) on the disk, proved against Bmap: the
   * inode's new address array comes back as ip'; None stands for the panic.
   */
  method BmapIn(ip: Inode, d: DiskStore, bn: nat) returns (addr: Option<nat>, ip': Inode)
    requires Covers(d.size, d.bitmap[..]) && Indexed(ip, d.State())
    modifies d, d.bitmap
    ensures var r := Bmap(d.size, old(d.State()), ip, bn);
      (addr.None? <==> r.BmapPanic?) &&
      (addr.Some? ==> addr.value == r.addr && ip' == r.ip && d.State() == r.d)
  {
    ip' := ip;
    if bn < NDIRECT {
      if ip.addrs[bn] == 0 {
        addr := BallocIn(d);
        if addr.Some? {
          ip' := ip.(addrs := ip.addrs[bn := addr.value]);
        }
        return;
      }
      return Some(ip.addrs[bn]), ip;
    }
    var k := bn - NDIRECT;
    if k >= NINDIRECT {
      return None, ip;
    }
    ghost var d0 := d.State();
    var ind := ip.addrs[NDIRECT];
    if ind == 0 {
      var b := BallocIn(d);
      if b.None? {
        return None, ip;
      }
      ind := b.value;
      ip' := ip.(addrs := ip.addrs[NDIRECT := ind]);
    }
    assert IndirectEntry(d.size, d.State(), ind, k, ip') == Bmap(d.size, d0, ip, bn);
    var t := d.tables[ind];
    var a := t[k];
    if a == 0 {
      var b := BallocIn(d);
      if b.None? {
        return None, ip';
      }
      a := b.value;
      var t': seq<nat> := t[k := a];
      d.tables := d.tables[ind := t'];
    }
    return Some(a), ip';
  }

  /* ---------------- readi and writei ---------------- */

  /** What readi or writei decides before touching data: fail (-1), hand over to a device driver, or move n bytes of the file. */
  datatype IoPlan = IoFail | ToDevice(major: int) | Span(n: nat)

  /** The unsigned 32-bit sum off + n wraps around, which the source detects as off + n < off. */
  predicate Wraps(off: nat, n: nat)
  {
    off + n >= UINT_LIMIT
  }

  /**
   * readi's checks (kernel/fs.c:481-491): a device inode goes to the read
   * routine of its major number when one is registered (readers); otherwise
   * an offset past the end or a wrapping range fails, and n is cut back to
   * what is left of the file.
   */
  function ReadiPlan(ip: Inode, off: nat, n: nat, readers: set<int>): (r: IoPlan)
    requires off < UINT_LIMIT && n < UINT_LIMIT
    ensures ip.itype == T_DEV ==>
      (r.ToDevice? <==> 0 <= ip.major < NDEV && ip.major in readers) &&
      (r.ToDevice? ==> r.major == ip.major) && !r.Span?
    ensures ip.itype != T_DEV ==> (r.IoFail? <==> off > ip.size || Wraps(off, n)) && !r.ToDevice?
    ensures r.Span? ==> r.n <= n && off + r.n <= ip.size && (r.n < n ==> off + r.n == ip.size)
  {
    if ip.itype == T_DEV then
      if ip.major < 0 || ip.major >= NDEV || ip.major !in readers then IoFail else ToDevice(ip.major)
    else if off > ip.size || Wraps(off, n) then IoFail
    else if off + n > ip.size then Span(ip.size - off)
    else Span(n)
  }

  /**
   * writei's checks (kernel/fs.c:511-530): as readi's, but the write is
   * never shortened and must end within MAXFILE blocks.
   */
  function WriteiPlan(ip: Inode, off: nat, n: nat, writers: set<int>): (r: IoPlan)
    requires off < UINT_LIMIT && n < UINT_LIMIT
    ensures ip.itype == T_DEV ==>
      (r.ToDevice? <==> 0 <= ip.major < NDEV && ip.major in writers) &&
      (r.ToDevice? ==> r.major == ip.major) && !r.Span?
    ensures ip.itype != T_DEV ==>
      (r.IoFail? <==> off > ip.size || off + n > MAXFILE * BSIZE) && !r.ToDevice?
    ensures r.Span? ==> r.n == n
  {
    if ip.itype == T_DEV then
      if ip.major < 0 || ip.major >= NDEV || ip.major !in writers then IoFail else ToDevice(ip.major)
    else if off > ip.size || Wraps(off, n) then IoFail
    else if off + n > MAXFILE * BSIZE then IoFail
    else Span(n)
  }

  /** The file size after writei moved n bytes at off (kernel/fs.c:542-545). */
  function WrittenSize(size: nat, off: nat, n: nat): (s: nat)
    ensures s >= size && (n > 0 ==> s >= off + n)
    ensures s == size || s == off + n
  {
    if n > 0 && off + n > size then off + n else size
  }

  /** A file grown only by writei never exceeds MAXFILE blocks. */
  lemma WriteiKeepsLimit(ip: Inode, off: nat, n: nat, writers: set<int>)
    requires off < UINT_LIMIT && n < UINT_LIMIT && ip.size <= MAXFILE * BSIZE
    requires WriteiPlan(ip, off, n, writers).Span?
    ensures WrittenSize(ip.size, off, n) <= MAXFILE * BSIZE
  {
  }

  /**
   * The piece of the transfer the loop bodies of readi and writei move at
   * file offset o with rem bytes still to go: up to the end of o's block.
   */
  function Chunk(o: nat, rem: nat): (m: nat)
    requires rem > 0
    ensures 0 < m <= rem
  {
    Min(rem, BSIZE - o % BSIZE)
  }

  /** A chunk never crosses a block boundary: its first and last bytes lie in block o / BSIZE. */
  lemma ChunkInBlock(o: nat, rem: nat)
    requires rem > 0
    ensures o % BSIZE + Chunk(o, rem) <= BSIZE
    ensures (o + Chunk(o, rem) - 1) / BSIZE == o / BSIZE
  {
  }

  /**
   * readi's copy loop (kernel/fs.c:492-497) over the file's bytes: block by
   * block it copies exactly the n bytes at off.
   */
  method ReadSpan(data: seq<bv8>, off: nat, n: nat) returns (dst: seq<bv8>)
    requires off + n <= |data|
    ensures dst == data[off..off + n]
  {
    dst := [];
    var tot := 0;
    while tot < n
      invariant tot <= n && dst == data[off..off + tot]
    {
      var o := off + tot;
      var m := Chunk(o, n - tot);
      dst := dst + data[o..o + m];
      tot := tot + m;
    }
  }

  /** The file's bytes after writing src at off, growing the file when src runs past its end. */
  function Overwritten(data: seq<bv8>, off: nat, src: seq<bv8>): (r: seq<bv8>)
    requires off <= |data|
    ensures |r| == WrittenSize(|data|, off, |src|)
  {
    if off + |src| < |data| then data[..off] + src + data[off + |src|..] else data[..off] + src
  }

  /** After writing src at off the file holds its old bytes before off, then src, then its old bytes past the write. */
  lemma OverwrittenParts(data: seq<bv8>, off: nat, src: seq<bv8>)
    requires off <= |data|
    ensures var r := Overwritten(data, off, src);
      r[..off] == data[..off] && r[off..off + |src|] == src &&
      r[off + |src|..] == (if off + |src| < |data| then data[off + |src|..] else [])
  {
    var r := Overwritten(data, off, src);
    var e := off + |src|;
    if e < |data| {
      assert r == (data[..off] + src) + data[e..];
      assert r[..e] == data[..off] + src;
    } else {
      assert r == data[..off] + src;
    }
    assert r[..off] == r[..e][..off];
    assert r[off..e] == r[..e][off..];
  }

  /** Writing a and then b right after it is writing a + b. */
  lemma OverwrittenStep(data: seq<bv8>, off: nat, a: seq<bv8>, b: seq<bv8>)
    requires off <= |data|
    ensures Overwritten(Overwritten(data, off, a), off + |a|, b) == Overwritten(data, off, a + b)
  {
    var x := Overwritten(data, off, a);
    var e := off + |a|;
    var p := data[..off];
    assert x[..e] == p + a by {
      if e < |data| {
        assert x == (p + a) + data[e..];
      }
    }
    if e + |b| < |data| {
      assert x == (p + a) + data[e..];
      assert x[e + |b|..] == data[e + |b|..];
      assert Overwritten(x, e, b) == x[..e] + b + x[e + |b|..];
      assert p + a + b + data[e + |b|..] == p + (a + b) + data[e + |b|..];
    } else {
      assert Overwritten(x, e, b) == x[..e] + b;
      assert p + a + b == p + (a + b);
    }
  }

  /** Writing the first tot bytes of src and then the next m is writing the first tot + m. */
  lemma OverwrittenPrefix(data: seq<bv8>, off: nat, src: seq<bv8>, tot: nat, m: nat)
    requires off <= |data| && tot + m <= |src|
    ensures Overwritten(Overwritten(data, off, src[..tot]), off + tot, src[tot..tot + m])
         == Overwritten(data, off, src[..tot + m])
  {
    var a, b := src[..tot], src[tot..tot + m];
    assert a + b == src[..tot + m];
    OverwrittenStep(data, off, a, b);
  }

  /** The memmove of one chunk into the file's bytes at o (kernel/fs.c:537). */
  method StoreChunk(data: seq<bv8>, o: nat, piece: seq<bv8>) returns (out: seq<bv8>)
    requires o <= |data|
    ensures out == Overwritten(data, o, piece)
  {
    if o + |piece| < |data| {
      out := data[..o] + piece + data[o + |piece|..];
    } else {
      out := data[..o] + piece;
    }
  }

  /**
   * writei's copy loop (kernel/fs.c:533-545) over the file's bytes: block
   * by block it stores src at off, and the size grows to the end of the
   * write when that is past the old end.
   */
  method WriteSpan(data: seq<bv8>, off: nat, src: seq<bv8>) returns (out: seq<bv8>)
    requires off <= |data|
    ensures out == Overwritten(data, off, src)
  {
    out := data;
    var tot := 0;
    while tot < |src|
      invariant tot <= |src| && off + tot <= |out|
      invariant out == Overwritten(data, off, src[..tot])
    {
      var o := off + tot;
      var m := Chunk(o, |src| - tot);
      OverwrittenPrefix(data, off, src, tot, m);
      out := StoreChunk(out, o, src[tot..tot + m]);
      tot := tot + m;
    }
    assert src[..tot] == src;
  }
}
