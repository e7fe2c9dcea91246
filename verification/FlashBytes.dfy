/** What is on flash, byte by byte: objects as they are packed, padding, summaries, and how objects are recognised. */
module FlashBytes {
  import opened ObjectId
  import opened LogIndex
  import LS = LogSummary
  import opened ObjFormat
  import opened SumFormat
  import opened LebModel
  import opened StoreCommit
  import opened StoreStamp
  import opened StoreRead
  import T = Transactions

  /** The four bytes at `at` are `n`, low byte first. */
  ghost predicate Word32At(o: seq<byte>, at: nat, n: nat) {
    && at + 4 <= |o| && n < 0x1_0000_0000
    && o[at] == n % 256 && o[at + 1] == n / 0x100 % 256 && o[at + 2] == n / 0x1_0000 % 256
    && o[at + 3] == n / 0x100_0000
  }

  ghost predicate Word64At(o: seq<byte>, at: nat, n: nat) {
    Word32At(o, at, n % 0x1_0000_0000) && Word32At(o, at + 4, n / 0x1_0000_0000)
  }

  ghost predicate Word16At(o: seq<byte>, at: nat, n: nat) {
    at + 2 <= |o| && n < 0x1_0000 && o[at] == n % 256 && o[at + 1] == n / 256
  }

  lemma LeFour(n: nat, k: nat)
    ensures var s := Le(n, 4 + k);
            && s[0] == n % 256 && s[1] == n / 0x100 % 256 && s[2] == n / 0x1_0000 % 256
            && s[3] == n / 0x100_0000 % 256 && s[4..] == Le(n / 0x1_0000_0000, k)
  {
    var a, b, c, d := n / 0x100, n / 0x1_0000, n / 0x100_0000, n / 0x1_0000_0000;
    Quotients(n);
    LeHead(n, 3 + k);
    LeHead(a, 2 + k);
    LeHead(b, 1 + k);
    LeHead(c, k);
    hide Le;
    var s, s1, s2, s3 := Le(n, 4 + k), Le(a, 3 + k), Le(b, 2 + k), Le(c, 1 + k);
    assert s == [n % 256] + s1 && s1 == [a % 256] + s2 && s2 == [b % 256] + s3 && s3 == [c % 256] + Le(d, k);
  }

  lemma LeHead(n: nat, k: nat)
    ensures Le(n, 1 + k) == [n % 256] + Le(n / 256, k)
  {
  }

  lemma Quotients(n: nat)
    ensures n / 0x100 / 256 == n / 0x1_0000 && n / 0x1_0000 / 256 == n / 0x100_0000
            && n / 0x100_0000 / 256 == n / 0x1_0000_0000
  {
  }

  lemma FourBytes(o: seq<byte>, at: nat, t: seq<byte>)
    requires at + 4 <= |o| && |t| == 4
    ensures o[at..at + 4] == t <==> o[at] == t[0] && o[at + 1] == t[1] && o[at + 2] == t[2] && o[at + 3] == t[3]
  {
    var s := o[at..at + 4];
    assert s[0] == o[at] && s[1] == o[at + 1] && s[2] == o[at + 2] && s[3] == o[at + 3];
  }

  lemma LeWord32(o: seq<byte>, at: nat, n: nat)
    requires at + 4 <= |o| && n < 0x1_0000_0000
    ensures o[at..at + 4] == Le(n, 4) <==> Word32At(o, at, n)
  {
    LeFour(n, 0);
    LastByte(n);
    hide Le;
    FourBytes(o, at, Le(n, 4));
  }

  lemma LastByte(n: nat)
    requires n < 0x1_0000_0000
    ensures n / 0x100_0000 % 256 == n / 0x100_0000
  {
  }

  lemma LeWord64(o: seq<byte>, at: nat, n: nat)
    requires at + 8 <= |o| && n < TWO64
    ensures o[at..at + 8] == Le(n, 8) <==> Word64At(o, at, n)
  {
    hide Word32At, Le;
    LeFour(n, 4);
    LeFour(n % 0x1_0000_0000, 0);
    var lo, hi, s := Le(n % 0x1_0000_0000, 4), Le(n / 0x1_0000_0000, 4), o[at..at + 8];
    LowHalf(n);
    assert Le(n, 8) == lo + hi;
    LeWord32(o, at, n % 0x1_0000_0000);
    LeWord32(o, at + 4, n / 0x1_0000_0000);
    assert s == o[at..at + 4] + o[at + 4..at + 8];
    assert s[..4] == o[at..at + 4] && s[4..] == o[at + 4..at + 8];
    assert (lo + hi)[..4] == lo && (lo + hi)[4..] == hi;
  }

  lemma LowHalf(n: nat)
    ensures var m := n % 0x1_0000_0000;
            && m % 256 == n % 256 && m / 0x100 % 256 == n / 0x100 % 256
            && m / 0x1_0000 % 256 == n / 0x1_0000 % 256 && m / 0x100_0000 % 256 == n / 0x100_0000 % 256
  {
    var m, h := n % 0x1_0000_0000, n / 0x1_0000_0000;
    assert n == m + 256 * (0x100_0000 * h);
    assert n / 0x100 == m / 0x100 + 256 * (0x1_0000 * h);
    assert n / 0x1_0000 == m / 0x1_0000 + 256 * (0x100 * h);
    assert n / 0x100_0000 == m / 0x100_0000 + 256 * h;
    SameLow(m, 0x100_0000 * h);
    SameLow(m / 0x100, 0x1_0000 * h);
    SameLow(m / 0x1_0000, 0x100 * h);
    SameLow(m / 0x100_0000, h);
  }

  lemma SameLow(m: nat, k: nat)
    ensures (m + 256 * k) % 256 == m % 256
  {
  }

  lemma LeWord16(o: seq<byte>, at: nat, n: nat)
    requires at + 2 <= |o| && n < 0x1_0000
    ensures o[at..at + 2] == Le(n, 2) ==> Word16At(o, at, n)
  {
    var s := Le(n, 2);
    assert s[1..] == Le(n / 256, 1);
    assert o[at..at + 2] == s ==> o[at] == s[0] && o[at + 1] == s[1];
  }

  // ---- objects ----------------------------------------------------------------------------------------------

  /** The header of an object: magic number, checksum of everything behind it, sequence number, length, type and
      place in the transaction. */
  ghost predicate HeaderIs(crc: Crc, p: seq<byte>, sqnum: nat, len: nat, ty: int, trans: nat) {
    && |p| >= 24 && p[0] == 0x50 && p[1] == 0x9f && p[2] == 0x7b && p[3] == 0xb1
    && Word32At(p, 4, crc(p[8..])) && sqnum < TWO64 && Word64At(p, 8, sqnum) && Word32At(p, 16, len)
    && p[20] == ty && p[21] == trans && p[22] == 0 && p[23] == 0
  }

  lemma HeaderBytes(crc: Crc, o: seq<byte>, sqnum: U64, trans: byte)
    requires Prepared(o)
    ensures var p := PackHeader(crc, o, sqnum, trans);
            |p| == |o| && HeaderIs(crc, p, sqnum, |o|, o[20], trans) && p[24..] == o[24..]
  {
    hide Le, UnLe, Word32At, Word64At;
    var body := Le(sqnum, 8) + o[16..21] + [trans, 0, 0] + o[24..];
    var p := PackHeader(crc, o, sqnum, trans);
    PackedBody(o, sqnum, trans);
    HeaderFields(Le(OBJ_MAGIC, 4), Le(crc(body), 4), body);
    BodyZeros(Le(sqnum, 8), o[16..21], trans, o[24..]);
    Magic(p);
    LeWord32(p, 4, crc(body));
    LeWord64(p, 8, sqnum);
    LengthBytes(o);
    assert p[8..16] == p[8..8 + 8] && p[16..20] == p[16..16 + 4];
    LeWord32(p, 16, |o|);
    assert o[16..20] == o[16..16 + 4];
    assert p[22] == body[14] && p[23] == body[15];
  }

  lemma BodyZeros(sq: seq<byte>, m: seq<byte>, trans: byte, rest: seq<byte>)
    requires |sq| == 8 && |m| == 5
    ensures var b := sq + m + [trans, 0, 0] + rest; b[14] == 0 && b[15] == 0
  {
  }

  lemma Magic(p: seq<byte>)
    requires |p| >= 4 && p[0..4] == Le(OBJ_MAGIC, 4)
    ensures p[0] == 0x50 && p[1] == 0x9f && p[2] == 0x7b && p[3] == 0xb1
  {
    hide Le;
    LeWord32(p, 0, OBJ_MAGIC);
    assert p[0..0 + 4] == p[0..4];
  }

  lemma LengthBytes(o: seq<byte>)
    requires |o| >= 24 && LenOf(o) == |o|
    ensures |o| < 0x1_0000_0000 && o[16..16 + 4] == Le(|o|, 4)
  {
    WordBytes(o[16..20]);
  }

  /** Four bytes are the word they hold. */
  lemma WordBytes(s: seq<byte>)
    requires |s| == 4
    ensures UnLe(s) < 0x1_0000_0000 && s == Le(UnLe(s), 4)
  {
    hide Le, UnLe;
    WordOf(s);
    var n := UnLe(s);
    Digits(s[0], s[1], s[2], s[3]);
    assert s[0..0 + 4] == s;
    LeWord32(s, 0, n);
  }

  lemma Digits(a: byte, b: byte, c: byte, d: byte)
    ensures var n := a as int + 256 * b as int + 65536 * c as int + 16777216 * d as int;
            && n < 0x1_0000_0000 && n % 256 == a && n / 0x100 % 256 == b && n / 0x1_0000 % 256 == c
            && n / 0x100_0000 == d
  {
    var n := a as int + 256 * b as int + 65536 * c as int + 16777216 * d as int;
    assert n / 0x100 == b as int + 256 * c as int + 65536 * d as int;
    assert n / 0x1_0000 == c as int + 256 * d as int;
  }

  lemma WordIs(o: seq<byte>, at: nat, n: nat)
    requires at + 4 <= |o|
    ensures Word(o, at) == n <==> Word32At(o, at, n)
  {
    hide Le, UnLe, Word32At;
    WordBytes(o[at..at + 4]);
    LeWord32(o, at, Word(o, at));
    if Word32At(o, at, n) {
      SmallWord(o, at, n);
      LeWord32(o, at, n);
      Le32(n);
    }
  }

  lemma SmallWord(o: seq<byte>, at: nat, n: nat)
    requires Word32At(o, at, n)
    ensures n < 0x1_0000_0000
  {
  }

  /** Eight bytes are the number they hold. */
  lemma LongIs(o: seq<byte>, at: nat, n: nat)
    requires at + 8 <= |o| && Word64At(o, at, n)
    ensures n < TWO64 && UnLe(o[at..at + 8]) == n
  {
    LongBound(o, at, n);
    hide Le, UnLe, Word32At, Word64At;
    LeWord64(o, at, n);
    Le64(n);
  }

  lemma LongBound(o: seq<byte>, at: nat, n: nat)
    requires Word64At(o, at, n)
    ensures n < TWO64
  {
    assert n == n / 0x1_0000_0000 * 0x1_0000_0000 + n % 0x1_0000_0000;
  }

  /** Every eight bytes hold some number. */
  lemma SomeLong(o: seq<byte>, at: nat) returns (n: nat)
    requires at + 8 <= |o|
    ensures n < TWO64 && Word64At(o, at, n) && UnLe(o[at..at + 8]) == n
  {
    hide UnLe, Word, Word32At;
    var lo, hi := Word(o, at), Word(o, at + 4);
    WordIs(o, at, lo);
    WordIs(o, at + 4, hi);
    SmallWord(o, at, lo);
    SmallWord(o, at + 4, hi);
    n := hi * 0x1_0000_0000 + lo;
    Halves(hi, lo);
    LongIs(o, at, n);
  }

  lemma Halves(hi: nat, lo: nat)
    requires lo < 0x1_0000_0000
    ensures var n := hi * 0x1_0000_0000 + lo; n % 0x1_0000_0000 == lo && n / 0x1_0000_0000 == hi
  {
  }

  /** The objects of a transaction in bytes: consecutive numbers, and 5 for a single object, otherwise 1 for the first
      one, 4 for the last one and 2 in between. What follows the header is not touched. */
  lemma TransBytes(crc: Crc, os: seq<seq<byte>>, sq: nat, i: nat)
    requires CanPack(os, sq) && i < |os|
    ensures |os[i]| >= 24
    ensures var p := PackAll(crc, os, sq)[i];
            var trans := if |os| == 1 then 5 else if i == 0 then 1 else if i == |os| - 1 then 4 else 2;
            && |p| == |os[i]| && HeaderIs(crc, p, sq + 1 + i, |os[i]|, os[i][20], trans) && p[24..] == os[i][24..]
  {
    hide HeaderIs, PackHeader, HasId;
    CanPackAt(os, sq, i);
    HeaderBytes(crc, os[i], sq + 1 + i, T.GetObjTrans(|os|, i));
  }

  /** Padding in bytes. */
  lemma PadBytesAre(crc: Crc, n: nat, sq: nat)
    requires n < TWO32 && n % 8 == 0 && sq < TWO64
    ensures var p := PadOf(crc, n, sq);
            && |p| == n && PadTakes(n) == (if n < 24 then 0 else 1)
            && if n < 24 then forall i :: 0 <= i < n ==> p[i] == 0x42
               else HeaderIs(crc, p, sq, n, 4, 5) && forall i :: 24 <= i < n ==> p[i] == 0x42
  {
    hide HeaderIs;
    if n >= 24 {
      StubPrepared(n, PAD_TYPE, Bytes(PAD_BYTE, n - CH_SZ));
      HeaderBytes(crc, PadObj(n), sq, T.TRANS_ATOM);
      var p := PadOf(crc, n, sq);
      assert p[24..] == Bytes(PAD_BYTE, n - CH_SZ);
      forall i | 24 <= i < n ensures p[i] == 0x42 {
        assert p[i] == p[24..][i - 24];
      }
    }
  }

  // ---- recognising objects ------------------------------------------------------------------------------------

  /** When a header is taken for one, and when it is valid. */
  lemma CheckIs(crc: Crc, buf: seq<byte>, at: nat, n: nat)
    requires at <= |buf| && (at + 24 <= |buf| ==> Word32At(buf, at + 16, n))
    ensures CheckObjHeader(crc, buf, at) == NoEnt <==>
            !(at + 24 <= |buf| && buf[at] == 0x50 && buf[at + 1] == 0x9f && buf[at + 2] == 0x7b && buf[at + 3] == 0xb1)
    ensures CheckObjHeader(crc, buf, at) == Ok ==> 24 <= n && at + n <= |buf|
    ensures CheckObjHeader(crc, buf, at) != NoEnt ==>
              (CheckObjHeader(crc, buf, at) == Ok <==>
               24 <= n && at + n <= |buf| && Word32At(buf, at + 4, crc(buf[at + 8..at + n])))
  {
    if at + 24 <= |buf| {
      WordIs(buf, at, 0xb17b9f50);
      WordIs(buf, at + 16, n);
      hide Word;
      if 24 <= n && at + n <= |buf| {
        WordIs(buf, at + 4, crc(buf[at + 8..at + n]));
      }
    }
  }

  /** The record of an object: inodes, data and directory entries have the types 0, 1 and 2, and deletions 5. */
  lemma RecordBytes(l: nat, offs: nat, o: seq<byte>, id: ObjId, sq: nat)
    requires |o| >= 32 && Word64At(o, 24, id) && Word64At(o, 8, sq)
    ensures HasId(o) <==> o[20] in {0, 1, 2, 5}
    ensures HasId(o) ==> var a := Addr(l, offs, |o|, sq);
                         RecAt(l, (offs, o)) == if o[20] == 5 then Del(id, a) else Obj(id, a)
  {
    hide Word64At, UnLe;
    LongIs(o, 24, id);
    LongIs(o, 8, sq);
  }

  /** `o` is an object with this id, or a deletion that covers it. */
  ghost predicate ObjectOf(o: seq<byte>, id: ObjId) {
    |o| >= 32 && o[20] <= 2 && Word64At(o, 24, id)
  }

  ghost predicate DeletionOf(o: seq<byte>, id: ObjId) {
    && |o| >= 32 && o[20] == 5
    && exists d :: && 0 <= d < TWO64 && Word64At(o, 24, d)
                   && (d == id || (d / 0x2000_0000 % 8 != 2 && d < id && id / 0x1_0000_0000 == d / 0x1_0000_0000))
  }

  lemma OfId(o: seq<byte>, id: ObjId)
    ensures ObjectOf(o, id) <==> HasId(o) && TypeOf(o) != DEL_TYPE && IdOf(o) == id
    ensures DeletionOf(o, id) <==> HasId(o) && TypeOf(o) == DEL_TYPE && Covers(IdOf(o), id)
  {
    hide Word64At, UnLe;
    if |o| >= 32 {
      var n := SomeLong(o, 24);
      if ObjectOf(o, id) {
        LongIs(o, 24, id);
      }
      if DeletionOf(o, id) {
        var d :| && 0 <= d < TWO64 && Word64At(o, 24, d)
                 && (d == id || (d / 0x2000_0000 % 8 != 2 && d < id && id / 0x1_0000_0000 == d / 0x1_0000_0000));
        LongIs(o, 24, d);
      }
    }
  }

  /** Object `i` has this id, and none of it and no deletion that covers it follows. */
  ghost predicate LastObject(objs: seq<seq<byte>>, i: nat, id: ObjId) {
    && i < |objs| && ObjectOf(objs[i], id)
    && forall j :: i < j < |objs| ==> !ObjectOf(objs[j], id) && !DeletionOf(objs[j], id)
  }

  /** Reading, in terms of the bytes written. */
  lemma {:induction false} LookupIs(objs: seq<seq<byte>>, id: ObjId, len: nat) returns (i: nat)
    ensures if LastObject(objs, i, id) then Lookup(objs, id, len) == if len < |objs[i]| then TooSmall else Got(objs[i])
            else Lookup(objs, id, len) == NotFound && forall k :: !LastObject(objs, k, id)
    decreases |objs|
  {
    hide ObjectOf, DeletionOf, HasId, Covers, IdOf;
    i := 0;
    if objs != [] {
      var n := |objs| - 1;
      OfId(objs[n], id);
      if ObjectOf(objs[n], id) {
        i := n;
      } else if !DeletionOf(objs[n], id) {
        i := LookupIs(objs[..n], id, len);
        forall k: nat ensures LastObject(objs, k, id) <==> LastObject(objs[..n], k, id) {
          LastBefore(objs, k, id);
        }
      }
    }
  }

  lemma LastBefore(objs: seq<seq<byte>>, k: nat, id: ObjId)
    requires objs != [] && !ObjectOf(objs[|objs| - 1], id) && !DeletionOf(objs[|objs| - 1], id)
    ensures LastObject(objs, k, id) <==> LastObject(objs[..|objs| - 1], k, id)
  {
    hide ObjectOf, DeletionOf;
  }

  // ---- summaries ------------------------------------------------------------------------------------------------

  /** The 26 bytes of an entry. */
  ghost predicate EntryAt(o: seq<byte>, at: nat, e: LS.SumEntry) {
    && Word64At(o, at, e.id) && Word64At(o, at + 8, e.sqnum) && Word32At(o, at + 16, e.len)
    && Word32At(o, at + 20, e.flagAndOffs) && Word16At(o, at + 24, e.count)
  }

  lemma EntryIs(o: seq<byte>, at: nat, e: LS.SumEntry)
    requires EntryOk(e) && at + 26 <= |o| && o[at..at + 26] == EntryBytes(e)
    ensures EntryAt(o, at, e)
  {
    hide Le, Word32At, Word64At, Word16At;
    var a, b, c, d, f := Le(e.id, 8), Le(e.sqnum, 8), Le(e.len, 4), Le(e.flagAndOffs, 4), Le(e.count, 2);
    EntryFields(a, b, c, d, f);
    var s := o[at..at + 26];
    SliceOf(o, at, s, 0, 8);
    SliceOf(o, at, s, 8, 16);
    SliceOf(o, at, s, 16, 20);
    SliceOf(o, at, s, 20, 24);
    SliceOf(o, at, s, 24, 26);
    LeWord64(o, at, e.id);
    LeWord64(o, at + 8, e.sqnum);
    LeWord32(o, at + 16, e.len);
    LeWord32(o, at + 20, e.flagAndOffs);
    LeWord16(o, at + 24, e.count);
  }

  lemma {:induction false} EntriesAre(o: seq<byte>, at: nat, es: seq<LS.SumEntry>)
    requires (forall e :: e in es ==> EntryOk(e)) && at + 26 * |es| <= |o|
    requires o[at..at + 26 * |es|] == EntriesBytes(es)
    ensures forall i :: 0 <= i < |es| ==> EntryAt(o, at + 26 * i, es[i])
    decreases |es|
  {
    hide EntryAt, EntryBytes, EntriesBytes, EntryOk;
    if es != [] {
      EntriesSplit(o, at, es);
      assert es[0] in es;
      EntryIs(o, at, es[0]);
      EntriesAre(o, at + 26, es[1..]);
      forall i | 0 <= i < |es| ensures EntryAt(o, at + 26 * i, es[i]) {
        if i > 0 {
          assert EntryAt(o, at + 26 + 26 * (i - 1), es[1..][i - 1]);
        }
      }
    }
  }

  /** A summary in bytes: the number of its entries, the entries, and in the last word its own place. */
  lemma SumBytesAre(crc: Crc, es: seq<LS.SumEntry>, offs: nat, sq: nat)
    requires SumSize(|es|) < TWO32 && offs < TWO32 && sq < TWO64 && forall e :: e in es ==> EntryOk(e)
    ensures var p := SumOf(crc, es, offs, sq);
            && |p| == (28 + 26 * |es| + 4 + 7) / 8 * 8 && HeaderIs(crc, p, sq, |p|, 6, 5)
            && Word32At(p, 24, |es|) && Word32At(p, |p| - 4, offs)
            && forall i :: 0 <= i < |es| ==> EntryAt(p, 28 + 26 * i, es[i])
  {
    hide HeaderIs, EntriesBytes, EntryOk, EntryAt, Word32At, Le, UnLe, PackHeader, Bytes;
    var n := |es|;
    SumSizeIs(n, 0);
    var gap := Bytes(0, GapSize(n));
    var o, t := PackSum(es, offs, gap), SumTail(es, offs, gap);
    StubPrepared(SumSize(n), SUM_TYPE, t);
    HeaderBytes(crc, o, sq, T.TRANS_ATOM);
    SumCases(crc, es, offs, sq);
    var p := SumOf(crc, es, offs, sq);
    TailParts(Le(n, 4), EntriesBytes(es), gap, Le(offs, 4));
    TailAt(p, 0, p, t, 26 * n);
    LeWord32(p, 24, n);
    assert t[|t| - 4..|t|] == Le(offs, 4);
    LeWord32(p, |p| - 4, offs);
    EntriesAre(p, 28, es);
  }

  lemma ShortIs(o: seq<byte>, at: nat, n: nat)
    requires Word16At(o, at, n)
    ensures UnLe(o[at..at + 2]) == n
  {
    var s := o[at..at + 2];
    assert s[1..][1..] == [];
    assert UnLe(s[1..]) == s[1] as int;
  }

  lemma EntryRead(o: seq<byte>, at: nat, e: LS.SumEntry)
    requires at + 26 <= |o| && EntryAt(o, at, e)
    ensures ParseEntry(o[at..at + 26]) == e
  {
    hide UnLe, Word32At, Word64At, Word16At, Word;
    var s := o[at..at + 26];
    SliceOf(o, at, s, 0, 8);
    SliceOf(o, at, s, 8, 16);
    SliceOf(o, at, s, 16, 20);
    SliceOf(o, at, s, 20, 24);
    SliceOf(o, at, s, 24, 26);
    LongIs(o, at, e.id);
    LongIs(o, at + 8, e.sqnum);
    WordRead(o, at + 16, e.len);
    WordRead(o, at + 20, e.flagAndOffs);
    ShortIs(o, at + 24, e.count);
  }

  lemma WordRead(o: seq<byte>, at: nat, n: nat)
    requires at + 4 <= |o| && Word32At(o, at, n)
    ensures UnLe(o[at..at + 4]) == n
  {
    WordIs(o, at, n);
  }

  lemma {:induction false} EntriesRead(o: seq<byte>, at: nat, es: seq<LS.SumEntry>)
    requires at + 26 * |es| <= |o| && forall i :: 0 <= i < |es| ==> EntryAt(o, at + 26 * i, es[i])
    ensures ParseEntries(o, at, |es|) == es
    decreases |es|
  {
    hide EntryAt, ParseEntry;
    if es != [] {
      assert EntryAt(o, at + 26 * 0, es[0]);
      EntryRead(o, at, es[0]);
      forall i | 0 <= i < |es[1..]| ensures EntryAt(o, at + 26 + 26 * i, es[1..][i]) {
        assert EntryAt(o, at + 26 * (i + 1), es[i + 1]);
      }
      EntriesRead(o, at + 26, es[1..]);
    }
  }

  /** What the last word of an erase-block leads to: no summary, one that cannot be read, or its entries. */
  lemma SummaryIs(crc: Crc, leb: seq<byte>, offs: nat, n: nat, es: seq<LS.SumEntry>)
    requires |leb| >= 4 && Word32At(leb, |leb| - 4, offs)
    requires offs + 28 <= |leb| ==> Word32At(leb, offs + 24, n)
    requires |es| == n && forall i :: 0 <= i < n && offs + 28 + 26 * i + 26 <= |leb| ==>
                                       EntryAt(leb, offs + 28 + 26 * i, es[i])
    ensures ReadSummary(crc, leb) ==
            if offs >= |leb| - 4 then NoSummary
            else if CheckObjHeader(crc, leb, offs) != Ok || leb[offs + 20] != 6 || offs + 28 + 26 * n > |leb|
            then BadSummary else Entries(es)
  {
    hide Word, Word32At, EntryAt, CheckObjHeader, ParseEntries;
    WordIs(leb, |leb| - 4, offs);
    if offs < |leb| && CheckObjHeader(crc, leb, offs) == Ok {
      CheckSize(crc, leb, offs);
    }
    if offs + 28 <= |leb| {
      WordIs(leb, offs + 24, n);
    }
    if offs + 28 + 26 * n <= |leb| {
      EntriesRead(leb, offs + 28, es);
    }
  }

  lemma CheckSize(crc: Crc, buf: seq<byte>, at: nat)
    requires at <= |buf| && CheckObjHeader(crc, buf, at) == Ok
    ensures at + 24 <= |buf|
  {
  }

  /** The record that an entry stands for: the top bit of the word with the offset marks a deletion. */
  lemma EntryRecord(l: nat, e: LS.SumEntry)
    requires e.flagAndOffs < 0x1_0000_0000
    ensures LS.RecOf(l, e) ==
            if e.flagAndOffs >= 0x8000_0000
            then Del(e.id, Addr(l, e.flagAndOffs - 0x8000_0000, e.len, e.sqnum))
            else Obj(e.id, Addr(l, e.flagAndOffs, e.len, e.sqnum))
  {
  }
}
