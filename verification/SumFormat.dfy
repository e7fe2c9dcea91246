/** The byte format of the summary object that closes an erase-block. */
module SumFormat {
  import opened ObjectId
  import opened ObjFormat
  import opened LogSummary

  const SUM_SZ: nat := 28
  const SUM_ENTRY_SZ: nat := 26
  const SUM_OFFS_SZ: nat := 4

  function Align8(n: nat): (m: nat)
    ensures m % OBJ_PADDING == 0 && n <= m < n + 8
  {
    (n + 7) / 8 * 8
  }

  /** The size of a summary of `n` entries. */
  function SumSize(n: nat): (m: nat)
    ensures m % OBJ_PADDING == 0 && m >= 32 + 26 * n
  {
    Align8(SUM_SZ + n * SUM_ENTRY_SZ + SUM_OFFS_SZ)
  }

  function SumSizeWithExtra(n: nat, extra: nat): nat {
    Align8(SumSize(n) + extra * SUM_ENTRY_SZ)
  }

  /** A summary is 28 bytes, 26 for each entry and four for the offset, and both it and the reserve for `extra`
      more entries are rounded up to eight. */
  lemma SumSizeIs(n: nat, extra: nat)
    ensures SumSize(n) == (28 + 26 * n + 4 + 7) / 8 * 8
    ensures SumSizeWithExtra(n, extra) == ((28 + 26 * n + 4 + 7) / 8 * 8 + 26 * extra + 7) / 8 * 8
  {
  }

  lemma Align8Monotone(a: nat, b: nat)
    requires a <= b
    ensures Align8(a) <= Align8(b)
  {
  }

  lemma SumSizeMonotone(n: nat, m: nat)
    requires n <= m
    ensures SumSize(n) <= SumSize(m)
  {
    hide Align8;
    Align8Monotone(SUM_SZ + n * SUM_ENTRY_SZ + SUM_OFFS_SZ, SUM_SZ + m * SUM_ENTRY_SZ + SUM_OFFS_SZ);
  }

  /** The space reserved with extra entries is enough for the summary that will have them. */
  lemma ReservedIsEnough(n: nat, extra: nat)
    ensures SumSize(n + extra) <= SumSizeWithExtra(n, extra)
  {
    hide Align8;
    var a, e := SUM_SZ + n * SUM_ENTRY_SZ + SUM_OFFS_SZ, extra * SUM_ENTRY_SZ;
    assert SUM_SZ + (n + extra) * SUM_ENTRY_SZ + SUM_OFFS_SZ == a + e;
    Align8Monotone(a + e, Align8(a) + e);
  }

  predicate EntryOk(e: SumEntry) {
    e.sqnum < TWO64 && e.len < TWO32 && e.flagAndOffs < TWO32 && e.count < 0x1_0000
  }

  function EntryBytes(e: SumEntry): (b: seq<byte>)
    ensures |b| == SUM_ENTRY_SZ
  {
    Le(e.id, 8) + Le(e.sqnum, 8) + Le(e.len, 4) + Le(e.flagAndOffs, 4) + Le(e.count, 2)
  }

  function ParseEntry(b: seq<byte>): SumEntry
    requires |b| == SUM_ENTRY_SZ
  {
    UnLeBound(b[0..8]);
    SumEntry(UnLe64(b[0..8]), UnLe(b[8..16]), UnLe(b[16..20]), UnLe(b[20..24]), UnLe(b[24..26]))
  }

  function UnLe64(b: seq<byte>): ObjId
    requires |b| == 8
  {
    Pow256Of8();
    UnLeBound(b);
    UnLe(b)
  }

  lemma Pow256Of8()
    ensures Pow256(8) == TWO64
  {
    assert Pow256(2) == 65536;
    assert Pow256(4) == 65536 * Pow256(2);
    assert Pow256(6) == 65536 * Pow256(4);
  }

  lemma EntryFields(a: seq<byte>, b: seq<byte>, c: seq<byte>, d: seq<byte>, e: seq<byte>)
    requires |a| == |b| == 8 && |c| == |d| == 4 && |e| == 2
    ensures var s := a + b + c + d + e;
            s[0..8] == a && s[8..16] == b && s[16..20] == c && s[20..24] == d && s[24..26] == e
  {
  }

  lemma EntryBytesRoundTrip(e: SumEntry)
    requires EntryOk(e)
    ensures ParseEntry(EntryBytes(e)) == e
  {
    Le64(e.id);
    Le64(e.sqnum);
    Le32(e.len);
    Le32(e.flagAndOffs);
    assert Pow256(2) == 0x1_0000;
    LeRoundTrip(e.count, 2);
    EntryFields(Le(e.id, 8), Le(e.sqnum, 8), Le(e.len, 4), Le(e.flagAndOffs, 4), Le(e.count, 2));
  }

  function EntriesBytes(es: seq<SumEntry>): (b: seq<byte>)
    ensures |b| == |es| * SUM_ENTRY_SZ
  {
    if es == [] then [] else EntryBytes(es[0]) + EntriesBytes(es[1..])
  }

  /** Reads `n` entries from position `at` on. */
  function ParseEntries(b: seq<byte>, at: nat, n: nat): seq<SumEntry>
    requires at + n * SUM_ENTRY_SZ <= |b|
    decreases n
  {
    if n == 0 then [] else [ParseEntry(b[at..at + SUM_ENTRY_SZ])] + ParseEntries(b, at + SUM_ENTRY_SZ, n - 1)
  }

  lemma {:induction false} EntriesRoundTrip(b: seq<byte>, at: nat, es: seq<SumEntry>)
    requires forall e :: e in es ==> EntryOk(e)
    requires at + |es| * SUM_ENTRY_SZ <= |b| && b[at..at + |es| * SUM_ENTRY_SZ] == EntriesBytes(es)
    ensures ParseEntries(b, at, |es|) == es
    decreases |es|
  {
    hide EntriesBytes, ParseEntries, EntryBytes, EntryOk;
    NoEntries(b, at);
    if es != [] {
      EntriesSplit(b, at, es);
      EntriesRoundTrip(b, at + SUM_ENTRY_SZ, es[1..]);
      assert es[0] in es;
      HeadRoundTrip(b, at, |es|, es[0], es[1..]);
      assert es == [es[0]] + es[1..];
    }
  }

  lemma NoEntries(b: seq<byte>, at: nat)
    requires at <= |b|
    ensures ParseEntries(b, at, 0) == []
  {
  }

  lemma HeadRoundTrip(b: seq<byte>, at: nat, n: nat, e: SumEntry, rest: seq<SumEntry>)
    requires n > 0 && at + n * SUM_ENTRY_SZ <= |b| && b[at..at + SUM_ENTRY_SZ] == EntryBytes(e) && EntryOk(e)
    requires ParseEntries(b, at + SUM_ENTRY_SZ, n - 1) == rest
    ensures ParseEntries(b, at, n) == [e] + rest
  {
    EntryBytesRoundTrip(e);
  }

  lemma EntriesSplit(b: seq<byte>, at: nat, es: seq<SumEntry>)
    requires es != [] && at + |es| * SUM_ENTRY_SZ <= |b| && b[at..at + |es| * SUM_ENTRY_SZ] == EntriesBytes(es)
    ensures b[at..at + SUM_ENTRY_SZ] == EntryBytes(es[0])
    ensures at + SUM_ENTRY_SZ + |es[1..]| * SUM_ENTRY_SZ == at + |es| * SUM_ENTRY_SZ
    ensures b[at + SUM_ENTRY_SZ..at + SUM_ENTRY_SZ + |es[1..]| * SUM_ENTRY_SZ] == EntriesBytes(es[1..])
  {
    hide EntryBytes;
    var h, t := EntryBytes(es[0]), EntriesBytes(es[1..]);
    Split(h, t);
    SliceOf(b, at, h + t, 0, |h|);
    SliceOf(b, at, h + t, |h|, |h| + |t|);
    assert (h + t)[0..|h|] == h && (h + t)[|h|..|h| + |t|] == t;
  }

  /** The bytes between the last entry and the final word are whatever the buffer held before. */
  function GapSize(n: nat): nat {
    SumSize(n) - (SUM_SZ + n * SUM_ENTRY_SZ + SUM_OFFS_SZ)
  }

  /** What follows the header: the number of entries, the entries, and the summary's own offset. */
  function SumTail(es: seq<SumEntry>, offs: U32, gap: seq<byte>): (t: seq<byte>)
    requires |es| < TWO32
    ensures |t| == 8 + |es| * SUM_ENTRY_SZ + |gap|
  {
    Le(|es|, 4) + EntriesBytes(es) + gap + Le(offs, 4)
  }

  /** The summary object, ready for its header. */
  function PackSum(es: seq<SumEntry>, offs: U32, gap: seq<byte>): (o: seq<byte>)
    requires SumSize(|es|) < TWO32 && |gap| == GapSize(|es|)
    ensures |o| == SumSize(|es|)
  {
    Stub(SumSize(|es|), SUM_TYPE) + SumTail(es, offs, gap)
  }

  lemma TailParts(n: seq<byte>, es: seq<byte>, gap: seq<byte>, offs: seq<byte>)
    requires |n| == |offs| == 4
    ensures var t := n + es + gap + offs; t[0..4] == n && t[4..4 + |es|] == es && t[|t| - 4..|t|] == offs
  {
  }

  lemma TailFields(es: seq<SumEntry>, offs: U32, gap: seq<byte>)
    requires |es| < TWO32
    ensures var t := SumTail(es, offs, gap);
            && UnLe(t[0..4]) == |es| && t[4..4 + |es| * SUM_ENTRY_SZ] == EntriesBytes(es)
               && UnLe(t[|t| - 4..|t|]) == offs
  {
    hide Le, UnLe, EntriesBytes;
    Le32(|es|);
    Le32(offs);
    TailParts(Le(|es|, 4), EntriesBytes(es), gap, Le(offs, 4));
  }

  // ---- reading it back at mount time ------------------------------------------------------------------

  datatype ReadSum = NoSummary | BadSummary | Entries(es: seq<SumEntry>)

  /** Looks for a summary through the offset in the last word of the erase-block. */
  function ReadSummary(crc: Crc, leb: seq<byte>): ReadSum
    requires |leb| >= SUM_OFFS_SZ
  {
    var offs := Word(leb, |leb| - SUM_OFFS_SZ);
    if offs >= |leb| - SUM_OFFS_SZ then NoSummary
    else match CheckObjHeader(crc, leb, offs)
      case NoEnt => BadSummary
      case Inval => BadSummary
      case Ok =>
        if leb[offs + 20] != SUM_TYPE || offs + SUM_SZ > |leb| then BadSummary
        else
          var n := Word(leb, offs + 24);
          if offs + SUM_SZ + n * SUM_ENTRY_SZ > |leb| then BadSummary
          else Entries(ParseEntries(leb, offs + SUM_SZ, n))
  }

  /** A summary written at the end of an erase-block is read back entry by entry. */
  lemma SummaryReadBack(crc: Crc, leb: seq<byte>, es: seq<SumEntry>, offs: U32, gap: seq<byte>, o: seq<byte>)
    requires (forall e :: e in es ==> EntryOk(e)) && |es| < TWO32
    requires Sealed(crc, o) && TypeOf(o) == SUM_TYPE && o[24..] == SumTail(es, offs, gap)
    requires offs + |o| == |leb| && leb[offs..offs + |o|] == o
    ensures ReadSummary(crc, leb) == Entries(es)
  {
    hide ReadSummary, SumTail, EntriesBytes, UnLe, Word, ParseEntries;
    TailFields(es, offs, gap);
    SummaryAt(leb, offs, o, SumTail(es, offs, gap), |es|, EntriesBytes(es));
    SummaryHeader(crc, leb, offs, o);
    ReadBack(crc, leb, offs, |es|);
    EntriesRoundTrip(leb, offs + SUM_SZ, es);
  }

  lemma SummaryAt(leb: seq<byte>, offs: nat, o: seq<byte>, t: seq<byte>, n: nat, es: seq<byte>)
    requires |o| >= 24 && o[24..] == t && offs + |o| == |leb| && leb[offs..offs + |o|] == o
    requires 8 + n * SUM_ENTRY_SZ <= |t|
    requires UnLe(t[0..4]) == n && t[4..4 + n * SUM_ENTRY_SZ] == es && UnLe(t[|t| - 4..|t|]) == offs
    ensures Word(leb, |leb| - 4) == offs && Word(leb, offs + 24) == n
    ensures leb[offs + SUM_SZ..offs + SUM_SZ + n * SUM_ENTRY_SZ] == es
  {
    TailAt(leb, offs, o, t, n * SUM_ENTRY_SZ);
  }

  lemma TailAt(leb: seq<byte>, offs: nat, o: seq<byte>, t: seq<byte>, n: nat)
    requires |o| >= 24 && o[24..] == t && offs + |o| == |leb| && leb[offs..offs + |o|] == o && 8 + n <= |t|
    ensures leb[|leb| - 4..|leb| - 4 + 4] == t[|t| - 4..|t|] && leb[offs + 24..offs + 24 + 4] == t[0..4]
    ensures leb[offs + 28..offs + 28 + n] == t[4..4 + n]
  {
    forall i | 0 <= i < |t| ensures leb[offs + 24 + i] == t[i] {
      assert leb[offs..offs + |o|][24 + i] == o[24 + i];
    }
  }

  lemma SummaryHeader(crc: Crc, leb: seq<byte>, offs: nat, o: seq<byte>)
    requires Sealed(crc, o) && offs + |o| == |leb| && leb[offs..offs + |o|] == o
    ensures CheckObjHeader(crc, leb, offs) == Ok && leb[offs + 20] == TypeOf(o)
  {
    BlobChecks(crc, leb, offs, o);
    assert leb[offs..offs + |o|][20] == o[20];
  }

  lemma ReadBack(crc: Crc, leb: seq<byte>, offs: nat, n: nat)
    requires offs + SUM_SZ + n * SUM_ENTRY_SZ + SUM_OFFS_SZ <= |leb| && Word(leb, |leb| - SUM_OFFS_SZ) == offs
    requires CheckObjHeader(crc, leb, offs) == Ok && leb[offs + 20] == SUM_TYPE && Word(leb, offs + 24) == n
    ensures ReadSummary(crc, leb) == Entries(ParseEntries(leb, offs + SUM_SZ, n))
  {
  }
}
