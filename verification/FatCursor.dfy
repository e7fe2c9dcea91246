/** The cursor that walks over the entries of a FAT block by block. */
module FatCursor {
  import opened FatBytes

  /** A pointer into the buffer of a block. */
  datatype Ptr = Null | Ptr(blk: nat, off: nat)

  /** `p` points to byte `k` of the table. */
  ghost predicate PointsTo(p: Ptr, size: nat, k: nat) {
    p.Ptr? && p.off < size && p.blk * size + p.off == k
  }

  lemma Quotient(k: nat, size: nat)
    requires size > 0
    ensures k / size * size + k % size == k
  {
  }

  /** The block and offset of byte `k`. */
  function Locate(k: nat, size: nat): (p: Ptr)
    requires size > 0
    ensures PointsTo(p, size, k)
  {
    Quotient(k, size);
    Ptr(k / size, k % size)
  }

  lemma NextBlock(p: Ptr, size: nat, k: nat)
    requires PointsTo(p, size, k) && p.off + 1 == size
    ensures PointsTo(Ptr(p.blk + 1, 0), size, k + 1)
  {
  }

  /** The next entry ends before the last byte of the block. */
  lemma BeforeEnd(p: Ptr, size: nat, k: nat, odd: nat)
    requires PointsTo(p, size, k)
    ensures p.off + 1 + odd < size - 1 <==> k + odd + 2 < (p.blk + 1) * size
  {
    assert (p.blk + 1) * size == p.blk * size + size;
  }

  /** An entry of 16 or 32 bits does not cross a block boundary. */
  lemma WideInBlock(k: Kind, entry: nat, size: nat, p: Ptr)
    requires !k.Fat12? && size > 0 && size % 4 == 0 && PointsTo(p, size, Offs(k, entry))
    ensures p.off % Width(k) == 0 && p.off + Width(k) <= size
  {
    var w := Width(k);
    var q := size / w;
    assert size == q * w;
    assert p.off == Offs(k, entry) - p.blk * size;
    WideOffset(k, entry, p.blk, q, p.off);
  }

  lemma WideOffset(k: Kind, entry: nat, blk: nat, q: nat, off: nat)
    requires !k.Fat12? && off == Offs(k, entry) - blk * (q * Width(k))
    ensures off % Width(k) == 0
  {
    var n := entry - blk * q;
    if k.Fat16? {
      assert blk * (q * 2) == 2 * (blk * q);
      assert off == 2 * n;
    } else {
      assert blk * (q * 4) == 4 * (blk * q);
      assert off == 4 * n;
    }
  }

  class Cursor {
    const kind: Kind
    const table: array<byte>
    const size: nat
    const maxCluster: nat
    var entry: nat
    var nrBhs: nat
    var bh0: nat
    var bh1: nat
    var p0: Ptr
    /** Only used for entries of 12 bits. */
    var p1: Ptr

    constructor (kind: Kind, table: array<byte>, size: nat, maxCluster: nat)
      ensures this.kind == kind && this.table == table && this.size == size && this.maxCluster == maxCluster
      ensures nrBhs == 0
    {
      this.kind, this.table, this.size, this.maxCluster := kind, table, size, maxCluster;
      entry, nrBhs, bh0, bh1, p0, p1 := 0, 0, 0, 0, Null, Null;
    }

    /** The table holds every entry. */
    ghost predicate Fits() {
      size >= 4 && size % 4 == 0 && Covers(kind, table.Length, maxCluster)
    }

    /** The cursor holds the one or two blocks of its entry and points to its bytes. */
    ghost predicate Positioned()
      reads this
    {
      && Fits() && entry < maxCluster && PointsTo(p0, size, Offs(kind, entry)) && bh0 == p0.blk
      && if kind.Fat12? then
           && PointsTo(p1, size, Offs(kind, entry) + 1)
           && (nrBhs == 1 ==> p1.blk == bh0 && p1.off == p0.off + 1)
           && (nrBhs == 2 ==> p0.off == size - 1 && bh1 == bh0 + 1 && p1 == Ptr(bh1, 0))
           && 1 <= nrBhs <= 2
         else nrBhs == 1 && p0.off % Width(kind) == 0 && p0.off + Width(kind) <= size
    }

    /** The cursor works on the given table. */
    ghost predicate Over(k: Kind, t: array<byte>, sz: nat, max: nat) {
      kind == k && table == t && maxCluster == max && size == sz && Fits()
    }

    lemma Inside()
      requires Positioned()
      ensures entry < maxCluster && 1 <= nrBhs <= 2 && Offs(kind, entry) + Width(kind) <= table.Length
    {
      hide Offs;
      CoversAt(kind, table.Length, maxCluster, entry);
    }

    /** Points to the entry at `p`, in the blocks held. */
    method SetPtr(p: Ptr)
      requires PointsTo(p, size, Offs(kind, entry)) && Fits() && entry < maxCluster && bh0 == p.blk
      requires nrBhs == (if kind.Fat12? && p.off + 1 == size then 2 else 1) && (nrBhs == 2 ==> bh1 == bh0 + 1)
      modifies this`p0, this`p1
      ensures Positioned()
    {
      hide Offs, Width;
      p0 := p;
      if !kind.Fat12? {
        WideInBlock(kind, entry, size, p);
      } else if nrBhs == 1 {
        p1 := Ptr(bh0, p.off + 1);
      } else {
        NextBlock(p, size, Offs(kind, entry));
        p1 := Ptr(bh1, 0);
      }
    }

    /** Reads the blocks of `entry`. */
    method ReadBlock()
      requires Fits() && entry < maxCluster
      modifies this
      ensures Positioned() && entry == old(entry) && nrBhs <= 2
    {
      hide Offs, Covers;
      var p := Locate(Offs(kind, entry), size);
      bh0, nrBhs := p.blk, 1;
      if kind.Fat12? && p.off + 1 == size {
        bh1 := p.blk + 1;
        nrBhs := 2;
      }
      SetPtr(p);
    }

    /** Moves the pointers within the blocks held, if these are the blocks of `entry`. */
    method UpdatePtr(p: Ptr) returns (ok: bool)
      requires Fits() && entry < maxCluster && nrBhs <= 2 && (!kind.Fat12? ==> nrBhs <= 1)
      requires PointsTo(p, size, Offs(kind, entry))
      modifies this
      ensures entry == old(entry) && (if ok then Positioned() && nrBhs <= 2 else nrBhs == old(nrBhs))
    {
      hide Offs, Covers, Positioned;
      if nrBhs == 0 || bh0 != p.blk {
        return false;
      }
      if kind.Fat12? {
        if p.off + 1 < size {
          nrBhs := 1;
        } else if nrBhs != 2 || bh1 != p.blk + 1 {
          return false;
        }
      }
      SetPtr(p);
      ok := true;
    }

    /** Goes to entry `e` and reads it; fails outside the table. */
    method Read(e: nat) returns (ok: bool, v: nat)
      requires Fits() && nrBhs <= 2 && (!kind.Fat12? ==> nrBhs <= 1)
      modifies this
      ensures nrBhs <= 2 && (!kind.Fat12? ==> nrBhs <= 1) && (ok <==> FAT_START_ENT <= e < maxCluster)
      ensures !ok ==> nrBhs == 0
      ensures ok ==> Positioned() && entry == e && Offs(kind, e) + Width(kind) <= table.Length
      ensures ok ==> v == FatBytes.Get(kind, table[..], e)
    {
      hide Offs, FatBytes.Get, Covers;
      if e < FAT_START_ENT || maxCluster <= e {
        nrBhs := 0;
        return false, 0;
      }
      entry, p0, p1 := e, Null, Null;
      var held := UpdatePtr(Locate(Offs(kind, entry), size));
      if !held {
        ReadBlock();
      }
      v := Get();
      ok := true;
    }

    method Get() returns (v: nat)
      requires Positioned()
      ensures Offs(kind, entry) + Width(kind) <= table.Length && v == FatBytes.Get(kind, table[..], entry)
    {
      hide Offs12, Covers;
      Inside();
      var i := p0.blk * size + p0.off;
      if kind.Fat12? {
        var b0: int, b1: int := table[i], table[p1.blk * size + p1.off];
        v := if entry % 2 == 1 then b0 / 16 + b1 * 16 else (b1 * 256 + b0) % 4096;
      } else if kind.Fat16? {
        var b0: int, b1: int := table[i], table[i + 1];
        v := b0 + b1 * 256;
      } else {
        var b0: int, b1: int, b2: int, b3: int := table[i], table[i + 1], table[i + 2], table[i + 3];
        v := b0 + b1 * 0x100 + b2 * 0x1_0000 + b3 % 16 * 0x100_0000;
      }
      if v >= Bad(kind) {
        v := FAT_ENT_EOF;
      }
    }

    /** Writes the bytes of the entry. */
    method PutBytes(v: nat)
      requires Positioned() && Value(kind, v)
      modifies table
      ensures Offs(kind, entry) + Width(kind) <= table.Length
      ensures table[..] == FatBytes.Put(kind, old(table[..]), entry, v)
    {
      hide Offs12, Encode12, Byte32, Covers;
      Inside();
      ghost var t := table[..];
      var i := p0.blk * size + p0.off;
      if kind.Fat12? {
        var j := p1.blk * size + p1.off;
        var (c0, c1) := Encode12(entry, table[i], table[j], v);
        table[i] := c0;
        table[j] := c1;
        assert table[..] == Put12(t, entry, v);
      } else if kind.Fat16? {
        var w := if v == FAT_ENT_EOF then EOF_FAT16 else v;
        table[i] := w % 256;
        table[i + 1] := w / 256;
        assert table[..] == Put16(t, entry, v);
      } else {
        TopNibble(v, table[i + 3]);
        table[i] := Byte32(v, 0);
        table[i + 1] := Byte32(v, 1);
        table[i + 2] := Byte32(v, 2);
        table[i + 3] := Byte32(v, 3) + table[i + 3] / 16 * 16;
        assert table[..] == Put32(t, entry, v);
      }
    }

    /** Sets the entry, and with it nothing else. */
    method Put(v: nat)
      requires Positioned() && Value(kind, v)
      modifies table
      ensures Covers(kind, |old(table[..])|, maxCluster)
      ensures Entries(kind, table[..], maxCluster) == Entries(kind, old(table[..]), maxCluster)[entry := v]
      ensures Holds(kind, table[..], entry, if v == 0x0FFF_FFFF then EndWord(kind) else v)
      ensures OnlyAt(kind, old(table[..]), table[..], entry)
    {
      hide Offs, FatBytes.Put, Width, Covers, Entries, Holds, OnlyAt;
      PutRefines(kind, table[..], maxCluster, entry, v);
      PutHolds(kind, table[..], entry, v);
      PutBytes(v);
    }

    method CopyFrom(c: Cursor)
      requires c.Positioned() && c.kind == kind && c.table == table && c.maxCluster == maxCluster && c.size == size
      modifies this
      ensures Positioned() && entry == c.entry
    {
      hide Offs, Width, Covers;
      entry, nrBhs, bh0, bh1, p0, p1 := c.entry, c.nrBhs, c.bh0, c.bh1, c.p0, c.p1;
    }

    /** Steps to the next entry, if it lies in the blocks held. */
    method Next() returns (more: bool)
      requires Positioned()
      modifies this
      ensures entry == old(entry) + 1 && nrBhs <= 2 && (!kind.Fat12? ==> nrBhs <= 1)
      ensures more && entry < maxCluster ==> Positioned()
      ensures more <==> if kind.Fat12? then old(nrBhs) == 2 || Offs(kind, entry) + 2 < (old(bh0) + 1) * size
                        else Offs(kind, entry) + Width(kind) <= (old(bh0) + 1) * size
    {
      hide Covers, Offs12;
      if kind.Fat12? {
        more := Next12();
      } else {
        more := NextWide();
      }
    }

    method Next12() returns (more: bool)
      requires Positioned() && kind.Fat12?
      modifies this
      ensures entry == old(entry) + 1 && nrBhs <= 2
      ensures more && entry < maxCluster ==> Positioned()
      ensures more <==> old(nrBhs) == 2 || Offs(kind, entry) + 2 < (old(bh0) + 1) * size
    {
      var next := Ptr(p1.blk, p1.off + 1 + entry % 2);
      StepBytes(entry);
      ghost var k := Offs12(entry);
      BeforeEnd(p1, size, k + 1, entry % 2);
      hide Offs12, Covers;
      entry := entry + 1;
      if nrBhs == 1 {
        if next.off < size - 1 {
          p0, p1 := Ptr(next.blk, next.off - 1), next;
          return true;
        }
      } else {
        p0, p1 := Ptr(next.blk, next.off - 1), next;
        bh0 := bh1;
        nrBhs := 1;
        return true;
      }
      p0, p1 := Null, Null;
      more := false;
    }

    method NextWide() returns (more: bool)
      requires Positioned() && !kind.Fat12?
      modifies this
      ensures entry == old(entry) + 1 && nrBhs == 1
      ensures more && entry < maxCluster ==> Positioned()
      ensures more <==> Offs(kind, entry) + Width(kind) <= (old(bh0) + 1) * size
    {
      hide Covers;
      assert (bh0 + 1) * size == bh0 * size + size;
      entry := entry + 1;
      if p0.off + Width(kind) < size {
        p0 := Ptr(p0.blk, p0.off + Width(kind));
        WideInBlock(kind, entry, size, p0);
        return true;
      }
      assert (bh0 + 1) * size == bh0 * size + size;
      p0 := Null;
      more := false;
    }

    /** Counts the free entries, stepping inside a block and reading the next block when a step fails. */
    method CountFree() returns (free: nat)
      requires Fits()
      modifies this
      ensures free == FreeIn(Entries(kind, table[..], maxCluster), FAT_START_ENT)
    {
      hide Offs, FatBytes.Get, Positioned, Entries, Width;
      ghost var es := Entries(kind, table[..], maxCluster);
      free, entry := 0, FAT_START_ENT;
      while entry < maxCluster
        invariant free + FreeIn(es, entry) == FreeIn(es, FAT_START_ENT)
        decreases maxCluster - entry
      {
        ReadBlock();
        ghost var start := entry;
        var more := true;
        while more
          invariant more ==> Positioned() && entry < maxCluster
          invariant free + FreeIn(es, entry) == FreeIn(es, FAT_START_ENT)
          invariant entry >= start && (!more ==> entry > start)
          decreases maxCluster - entry, more
        {
          EntryAt(kind, table[..], maxCluster, entry);
          var v := Get();
          if v == FAT_ENT_FREE {
            free := free + 1;
          }
          more := Next();
          more := more && entry < maxCluster;
        }
      }
    }
  }

  /** The number of free entries from `e` on. */
  ghost function FreeIn(es: seq<nat>, e: nat): (n: nat)
    decreases |es| - e
  {
    if e >= |es| then 0 else (if es[e] == FAT_ENT_FREE then 1 else 0) + FreeIn(es, e + 1)
  }

  /** Where the bytes of the next entry are. */
  lemma StepBytes(e: nat)
    ensures Offs12(e + 1) == Offs12(e) + 1 + e % 2
  {
  }
}
