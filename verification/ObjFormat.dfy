/** The byte format of the log: object headers, padding, and the scan that finds the objects again. */
module ObjFormat {
  import opened ObjectId

  type byte = b: int | 0 <= b < 256
  type U32 = n: int | 0 <= n < TWO32
  type U64 = n: int | 0 <= n < TWO64

  const OBJ_MAGIC: U32 := 0xb17b9f50
  const PAD_BYTE: byte := 0x42
  const CH_SZ: nat := 24
  const OBJ_PADDING: nat := 8

  const PAD_TYPE: byte := 4
  const DEL_TYPE: byte := 5
  const SUM_TYPE: byte := 6

  // ---- little-endian words ------------------------------------------------------------------------

  function Le(n: nat, k: nat): (s: seq<byte>)
    ensures |s| == k
    decreases k
  {
    if k == 0 then [] else [n % 256] + Le(n / 256, k - 1)
  }

  function UnLe(s: seq<byte>): nat {
    if s == [] then 0 else s[0] + 256 * UnLe(s[1..])
  }

  function Pow256(k: nat): nat {
    if k == 0 then 1 else 256 * Pow256(k - 1)
  }

  lemma {:induction false} LeRoundTrip(n: nat, k: nat)
    requires n < Pow256(k)
    ensures UnLe(Le(n, k)) == n
    decreases k
  {
    if k > 0 {
      LeRoundTrip(n / 256, k - 1);
      assert Le(n, k)[1..] == Le(n / 256, k - 1);
    }
  }

  lemma Le32(n: U32)
    ensures UnLe(Le(n, 4)) == n
  {
    assert Pow256(4) == TWO32 by { assert Pow256(2) == 65536; }
    LeRoundTrip(n, 4);
  }

  lemma Le64(n: U64)
    ensures UnLe(Le(n, 8)) == n
  {
    assert Pow256(8) == TWO64 by { assert Pow256(4) == TWO32 && Pow256(6) == 65536 * TWO32; }
    LeRoundTrip(n, 8);
  }

  lemma {:induction false} UnLeBound(s: seq<byte>)
    ensures UnLe(s) < Pow256(|s|)
  {
    if s != [] { UnLeBound(s[1..]); }
  }

  // ---- objects ------------------------------------------------------------------------------------

  type Crc = seq<byte> -> U32

  function Word(o: seq<byte>, at: nat): nat
    requires at + 4 <= |o|
  {
    UnLe(o[at..at + 4])
  }

  function LenOf(o: seq<byte>): nat requires |o| >= CH_SZ { Word(o, 16) }
  function SqnumOf(o: seq<byte>): nat requires |o| >= CH_SZ { UnLe(o[8..16]) }
  function TypeOf(o: seq<byte>): byte requires |o| >= CH_SZ { o[20] }
  function TransOf(o: seq<byte>): byte requires |o| >= CH_SZ { o[21] }

  /** A complete object: aligned, and with the magic number, length and checksum it should have. */
  predicate Sealed(crc: Crc, o: seq<byte>) {
    && |o| >= CH_SZ && |o| % OBJ_PADDING == 0
    && Word(o, 0) == OBJ_MAGIC && LenOf(o) == |o| && Word(o, 4) == crc(o[8..])
  }

  /** An object whose type and length have been filled in. */
  predicate Prepared(o: seq<byte>) {
    |o| >= CH_SZ && |o| % OBJ_PADDING == 0 && LenOf(o) == |o|
  }

  function PackHeader(crc: Crc, o: seq<byte>, sqnum: U64, trans: byte): seq<byte>
    requires Prepared(o)
  {
    var body := Le(sqnum, 8) + o[16..21] + [trans, 0, 0] + o[24..];
    Le(OBJ_MAGIC, 4) + Le(crc(body), 4) + body
  }

  lemma Packed(crc: Crc, o: seq<byte>, sqnum: U64, trans: byte)
    requires Prepared(o)
    ensures var p := PackHeader(crc, o, sqnum, trans);
            && |p| == |o| && Sealed(crc, p) && SqnumOf(p) == sqnum && TransOf(p) == trans
            && TypeOf(p) == TypeOf(o) && p[24..] == o[24..]
  {
    var body := Le(sqnum, 8) + o[16..21] + [trans, 0, 0] + o[24..];
    Le32(OBJ_MAGIC);
    Le32(crc(body));
    Le64(sqnum);
    PackedBody(o, sqnum, trans);
    HeaderFields(Le(OBJ_MAGIC, 4), Le(crc(body), 4), body);
  }

  lemma HeaderFields(m: seq<byte>, c: seq<byte>, body: seq<byte>)
    requires |m| == |c| == 4 && |body| >= 16
    ensures var p := m + c + body;
            && p[0..4] == m && p[4..8] == c && p[8..] == body && p[8..16] == body[..8] && p[16..20] == body[8..12]
            && p[24..] == body[16..] && p[20] == body[12] && p[21] == body[13]
  {
    var p := m + c + body;
    assert forall i :: 0 <= i < |body| ==> p[8 + i] == body[i];
    assert forall i {:trigger p[4 + i]} :: 0 <= i < 4 ==> p[4 + i] == c[i];
  }

  lemma PackedBody(o: seq<byte>, sqnum: U64, trans: byte)
    requires |o| >= CH_SZ
    ensures var body := Le(sqnum, 8) + o[16..21] + [trans, 0, 0] + o[24..];
            && |body| == |o| - 8 && body[..8] == Le(sqnum, 8) && body[8..12] == o[16..20]
            && body[12] == o[20] && body[13] == trans && body[16..] == o[24..]
  {
    var body := Le(sqnum, 8) + o[16..21] + [trans, 0, 0] + o[24..];
    assert forall i :: 8 <= i < 13 ==> body[i] == o[8 + i];
  }

  lemma Split(a: seq<byte>, b: seq<byte>)
    ensures (a + b)[..|a|] == a && (a + b)[|a|..] == b
  {
  }

  function Bytes(b: byte, n: nat): (s: seq<byte>)
    ensures |s| == n && forall i :: 0 <= i < n ==> s[i] == b
  {
    seq(n, _ => b)
  }

  /** A header with the length and the type filled in. */
  function Stub(len: U32, ty: byte): (h: seq<byte>)
    ensures |h| == CH_SZ
  {
    Bytes(0, 16) + Le(len, 4) + [ty, 0, 0, 0]
  }

  lemma StubPrepared(len: U32, ty: byte, rest: seq<byte>)
    requires len == CH_SZ + |rest| && len % OBJ_PADDING == 0
    ensures Prepared(Stub(len, ty) + rest) && TypeOf(Stub(len, ty) + rest) == ty && (Stub(len, ty) + rest)[24..] == rest
  {
    Le32(len);
    StubParts(Bytes(0, 16), Le(len, 4), [ty, 0, 0, 0], rest);
  }

  lemma StubParts(z: seq<byte>, len: seq<byte>, ty: seq<byte>, rest: seq<byte>)
    requires |z| == 16 && |len| == |ty| == 4
    ensures var o := (z + len + ty) + rest; o[16..20] == len && o[20] == ty[0] && o[24..] == rest
  {
  }

  /** A padding object of `n` bytes, ready for its header. */
  function PadObj(n: nat): seq<byte>
    requires CH_SZ <= n < TWO32
  {
    Stub(n, PAD_TYPE) + Bytes(PAD_BYTE, n - CH_SZ)
  }

  // ---- scanning -----------------------------------------------------------------------------------

  datatype Check = Ok | NoEnt | Inval

  function CheckObjHeader(crc: Crc, buf: seq<byte>, at: nat): Check
    requires at <= |buf|
  {
    var max := |buf| - at;
    if max < CH_SZ then NoEnt
    else if Word(buf, at) != OBJ_MAGIC then NoEnt
    else
      var len := Word(buf, at + 16);
      if len < CH_SZ || len > max then Inval
      else if crc(buf[at + 8..at + len]) != Word(buf, at + 4) then Inval
      else Ok
  }

  datatype Next = Found(offs: nat, len: nat) | Stop(err: Check)

  /** The first object at or after `at`, padding bytes being skipped eight at a time. */
  function NextObj(crc: Crc, buf: seq<byte>, at: nat): (r: Next)
    ensures r.Found? ==> at <= r.offs && r.offs + r.len <= |buf| && r.len >= CH_SZ
    decreases |buf| - at
  {
    if at >= |buf| then Stop(NoEnt)
    else match CheckObjHeader(crc, buf, at)
      case Ok => Found(at, Word(buf, at + 16))
      case Inval => Stop(Inval)
      case NoEnt => if buf[at] == PAD_BYTE then NextObj(crc, buf, at + 8) else Stop(NoEnt)
  }

  /** All objects from `at` on, and why the scan ended. */
  function ScanFrom(crc: Crc, buf: seq<byte>, at: nat): (seq<(nat, seq<byte>)>, Check)
    decreases |buf| - at
  {
    match NextObj(crc, buf, at)
    case Stop(err) => ([], err)
    case Found(offs, len) =>
      var (os, err) := ScanFrom(crc, buf, offs + len);
      ([(offs, buf[offs..offs + len])] + os, err)
  }

  // ---- what is written is what is found -------------------------------------------------------------

  /** What goes into an erase-block: objects, and runs of padding bytes too short for an object. */
  datatype Item = Blob(o: seq<byte>) | Gap(n: nat)

  predicate ItemOk(crc: Crc, i: Item) {
    match i
    case Blob(o) => Sealed(crc, o)
    case Gap(n) => n % OBJ_PADDING == 0
  }

  function ItemBytes(i: Item): seq<byte> {
    match i
    case Blob(o) => o
    case Gap(n) => Bytes(PAD_BYTE, n)
  }

  function Layout(items: seq<Item>): seq<byte> {
    if items == [] then [] else ItemBytes(items[0]) + Layout(items[1..])
  }

  /** The objects of a layout that starts at `at`, with their offsets. */
  function Blobs(items: seq<Item>, at: nat): seq<(nat, seq<byte>)> {
    if items == [] then []
    else match items[0]
      case Blob(o) => [(at, o)] + Blobs(items[1..], at + |o|)
      case Gap(n) => Blobs(items[1..], at + n)
  }

  /** Nothing more was written from `at` on. */
  predicate Blank(crc: Crc, buf: seq<byte>, at: nat) {
    at >= |buf| || (buf[at] != PAD_BYTE && CheckObjHeader(crc, buf, at) == NoEnt)
  }

  lemma ErasedIsBlank(crc: Crc, buf: seq<byte>, at: nat)
    requires forall i :: at <= i < |buf| ==> buf[i] == 0xff
    ensures Blank(crc, buf, at)
  {
    if at + CH_SZ <= |buf| {
      WordOf(buf[at..at + 4]);
    }
  }

  lemma WordOf(s: seq<byte>)
    requires |s| == 4
    ensures UnLe(s) == s[0] as int + 256 * s[1] as int + 65536 * s[2] as int + 16777216 * s[3] as int
  {
    assert s[1..][1..] == s[2..] && s[2..][1..] == s[3..] && s[3..][1..] == [];
    assert UnLe(s[3..]) == s[3] as int;
    assert UnLe(s[2..]) == s[2] as int + 256 * s[3] as int;
  }

  lemma SliceOf(buf: seq<byte>, at: nat, o: seq<byte>, i: nat, j: nat)
    requires at + |o| <= |buf| && buf[at..at + |o|] == o && i <= j <= |o|
    ensures buf[at + i..at + j] == o[i..j]
  {
    forall k | i <= k < j ensures buf[at + k] == o[k] {
      assert buf[at..at + |o|][k] == o[k];
    }
  }

  lemma BlobChecks(crc: Crc, buf: seq<byte>, at: nat, o: seq<byte>)
    requires Sealed(crc, o) && at + |o| <= |buf| && buf[at..at + |o|] == o
    ensures CheckObjHeader(crc, buf, at) == Ok && Word(buf, at + 16) == |o|
  {
    assert Word(buf, at) == Word(o, 0) by { SliceOf(buf, at, o, 0, 4); }
    assert Word(buf, at + 4) == Word(o, 4) by { SliceOf(buf, at, o, 4, 8); }
    assert Word(buf, at + 16) == Word(o, 16) by { SliceOf(buf, at, o, 16, 20); }
    assert buf[at + 8..at + |o|] == o[8..] by {
      SliceOf(buf, at, o, 8, |o|);
      assert o[8..] == o[8..|o|];
    }
  }

  lemma FindsBlob(crc: Crc, buf: seq<byte>, at: nat, o: seq<byte>)
    requires Sealed(crc, o) && at + |o| <= |buf| && buf[at..at + |o|] == o
    ensures NextObj(crc, buf, at) == Found(at, |o|)
  {
    BlobChecks(crc, buf, at, o);
  }

  lemma {:induction false} SkipsGap(crc: Crc, buf: seq<byte>, at: nat, n: nat)
    requires n % OBJ_PADDING == 0 && at + n <= |buf| && forall i :: at <= i < at + n ==> buf[i] == PAD_BYTE
    ensures NextObj(crc, buf, at) == NextObj(crc, buf, at + n)
    decreases n
  {
    if n > 0 {
      if at + CH_SZ <= |buf| {
        WordOf(buf[at..at + 4]);
      }
      SkipsGap(crc, buf, at + 8, n - 8);
    }
  }

  /** A scan over objects and padding finds exactly these objects, in order, with their offsets, and
      goes on behind them. */
  lemma {:induction false} ScanItems(crc: Crc, buf: seq<byte>, items: seq<Item>, at: nat)
    requires forall i :: i in items ==> ItemOk(crc, i)
    requires at + |Layout(items)| <= |buf| && buf[at..at + |Layout(items)|] == Layout(items)
    ensures var end := ScanFrom(crc, buf, at + |Layout(items)|);
            ScanFrom(crc, buf, at).0 == Blobs(items, at) + end.0 && ScanFrom(crc, buf, at).1 == end.1
    decreases |items|
  {
    hide Layout, Blobs, ScanFrom, ItemBytes, ItemOk;
    NoItems(at);
    if items != [] {
      var n := |ItemBytes(items[0])|;
      LayoutSplit(buf, items, at);
      assert items[0] in items;
      ScanItems(crc, buf, items[1..], at + n);
      ScanItem(crc, buf, items[0], at);
      BlobsHead(items, at);
    }
  }

  /** A scan returns exactly the objects that were written, in order, with their offsets. */
  lemma ScanLayout(crc: Crc, buf: seq<byte>, items: seq<Item>, at: nat)
    requires forall i :: i in items ==> ItemOk(crc, i)
    requires at + |Layout(items)| <= |buf| && buf[at..at + |Layout(items)|] == Layout(items)
    requires Blank(crc, buf, at + |Layout(items)|)
    ensures ScanFrom(crc, buf, at) == (Blobs(items, at), NoEnt)
  {
    hide Layout, Blobs, ScanFrom, ItemOk, Blank;
    ScanItems(crc, buf, items, at);
    ScanBlank(crc, buf, at + |Layout(items)|);
    assert Blobs(items, at) + [] == Blobs(items, at);
  }

  lemma ScanBlank(crc: Crc, buf: seq<byte>, at: nat)
    requires Blank(crc, buf, at)
    ensures ScanFrom(crc, buf, at) == ([], NoEnt)
  {
  }

  lemma NoBlobs(at: nat)
    ensures Blobs([], at) == []
  {
  }

  lemma NoItems(at: nat)
    ensures Layout([]) == [] && Blobs([], at) == []
  {
  }

  lemma LayoutHead(items: seq<Item>)
    requires items != []
    ensures Layout(items) == ItemBytes(items[0]) + Layout(items[1..])
  {
  }

  lemma BlobsHead(items: seq<Item>, at: nat)
    requires items != []
    ensures Blobs(items, at) ==
            (if items[0].Blob? then [(at, items[0].o)] else []) + Blobs(items[1..], at + |ItemBytes(items[0])|)
  {
  }

  lemma LayoutSplit(buf: seq<byte>, items: seq<Item>, at: nat)
    requires items != [] && at + |Layout(items)| <= |buf| && buf[at..at + |Layout(items)|] == Layout(items)
    ensures var n := |ItemBytes(items[0])|;
            && |Layout(items)| == n + |Layout(items[1..])|
            && buf[at..at + n] == ItemBytes(items[0])
            && buf[at + n..at + n + |Layout(items[1..])|] == Layout(items[1..])
  {
    hide ItemBytes, Layout;
    LayoutHead(items);
    var a, b := ItemBytes(items[0]), Layout(items[1..]);
    Split(a, b);
    SliceOf(buf, at, a + b, 0, |a|);
    SliceOf(buf, at, a + b, |a|, |a| + |b|);
    assert (a + b)[0..|a|] == (a + b)[..|a|] && (a + b)[|a|..|a| + |b|] == (a + b)[|a|..];
  }

  /** Scanning over one item yields its object, if it is one, and goes on behind it. */
  lemma ScanItem(crc: Crc, buf: seq<byte>, i: Item, at: nat)
    requires ItemOk(crc, i) && at + |ItemBytes(i)| <= |buf| && buf[at..at + |ItemBytes(i)|] == ItemBytes(i)
    ensures ScanFrom(crc, buf, at).0 ==
            (if i.Blob? then [(at, i.o)] else []) + ScanFrom(crc, buf, at + |ItemBytes(i)|).0
    ensures ScanFrom(crc, buf, at).1 == ScanFrom(crc, buf, at + |ItemBytes(i)|).1
  {
    hide ScanFrom, Sealed;
    match i
    case Blob(o) => ScanBlob(crc, buf, o, at);
    case Gap(n) => ScanGap(crc, buf, n, at);
  }

  lemma ScanBlob(crc: Crc, buf: seq<byte>, o: seq<byte>, at: nat)
    requires Sealed(crc, o) && at + |o| <= |buf| && buf[at..at + |o|] == o
    ensures ScanFrom(crc, buf, at).0 == [(at, o)] + ScanFrom(crc, buf, at + |o|).0
    ensures ScanFrom(crc, buf, at).1 == ScanFrom(crc, buf, at + |o|).1
  {
    FindsBlob(crc, buf, at, o);
  }

  lemma ScanGap(crc: Crc, buf: seq<byte>, n: nat, at: nat)
    requires n % OBJ_PADDING == 0 && at + n <= |buf| && buf[at..at + n] == Bytes(PAD_BYTE, n)
    ensures ScanFrom(crc, buf, at) == ScanFrom(crc, buf, at + n)
  {
    forall j | at <= j < at + n ensures buf[j] == PAD_BYTE {
      assert buf[j] == buf[at..at + n][j - at];
    }
    SkipsGap(crc, buf, at, n);
  }

  lemma {:induction false} LayoutSnoc(items: seq<Item>, i: Item)
    ensures Layout(items + [i]) == Layout(items) + ItemBytes(i)
  {
    hide Layout, ItemBytes;
    NoItems(0);
    LayoutHead(items + [i]);
    if items == [] {
      assert items + [i] == [i] && [i][1..] == [];
    } else {
      assert (items + [i])[1..] == items[1..] + [i];
      LayoutHead(items);
      LayoutSnoc(items[1..], i);
    }
  }

  lemma {:induction false} BlobsSnoc(items: seq<Item>, i: Item, at: nat)
    ensures Blobs(items + [i], at) == Blobs(items, at) + if i.Blob? then [(at + |Layout(items)|, i.o)] else []
    decreases |items|
  {
    hide Blobs;
    NoBlobs(at + |ItemBytes(i)|);
    BlobsHead(items + [i], at);
    if items == [] {
      assert items + [i] == [i] && [i][1..] == [];
      NoBlobs(at);
    } else {
      assert (items + [i])[1..] == items[1..] + [i];
      BlobsHead(items, at);
      BlobsSnoc(items[1..], i, at + |ItemBytes(items[0])|);
    }
  }
}
