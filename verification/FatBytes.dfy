/** The bytes of a FAT: how entries of 12, 16 and 32 bits are packed. */
module FatBytes {

  type byte = b: int | 0 <= b < 256

  const FAT_ENT_FREE: nat := 0
  const FAT_ENT_EOF: nat := 0x0FFF_FFFF
  const FAT_START_ENT: nat := 2

  const BAD_FAT12: nat := 0xFF7
  const EOF_FAT12: nat := 0xFFF
  const BAD_FAT16: nat := 0xFFF7
  const EOF_FAT16: nat := 0xFFFF
  const BAD_FAT32: nat := 0x0FFF_FFF7

  // ---- 12 bit entries -------------------------------------------------------------------------------

  /** The first of the two bytes that an entry shares with its neighbours. */
  function Offs12(entry: nat): (k: nat)
    ensures k == if entry % 2 == 0 then 3 * (entry / 2) else 3 * (entry / 2) + 1
  {
    entry + entry / 2
  }

  function Decode12(entry: nat, b0: byte, b1: byte): (v: nat)
    ensures v < BAD_FAT12 || v == FAT_ENT_EOF
  {
    var next := if entry % 2 == 1 then b0 / 16 + b1 * 16 else (b1 * 256 + b0) % 4096;
    if next >= BAD_FAT12 then FAT_ENT_EOF else next
  }

  function Encode12(entry: nat, b0: byte, b1: byte, v: nat): (bs: (byte, byte))
    requires Value(Fat12, v)
  {
    var w := if v == FAT_ENT_EOF then EOF_FAT12 else v;
    if entry % 2 == 1 then (w * 16 % 256 + b0 % 16, w / 16) else (w % 256, b1 / 16 * 16 + w / 256)
  }

  /** What was put is what is got, and the neighbour's half of the shared byte stays. */
  lemma Codec12(entry: nat, b0: byte, b1: byte, v: nat)
    requires Value(Fat12, v)
    ensures var (c0, c1) := Encode12(entry, b0, b1, v);
            && Decode12(entry, c0, c1) == v
            && (entry % 2 == 1 ==> c0 % 16 == b0 % 16)
            && (entry % 2 == 0 ==> c1 / 16 == b1 / 16)
  {
    var w := if v == FAT_ENT_EOF then EOF_FAT12 else v;
    if entry % 2 == 1 {
      OddCodec(b0, w);
    } else {
      EvenCodec(b1, w);
    }
  }

  lemma OddCodec(b0: byte, w: nat)
    requires w < 4096
    ensures var c0 := w * 16 % 256 + b0 % 16; c0 % 16 == b0 % 16 && c0 / 16 + w / 16 * 16 == w
  {
    var q, r := w / 16, w % 16;
    assert w * 16 == 256 * q + 16 * r;
    assert w * 16 % 256 == 16 * r;
  }

  lemma EvenCodec(b1: byte, w: nat)
    requires w < 4096
    ensures var c1 := b1 / 16 * 16 + w / 256; c1 / 16 == b1 / 16 && (c1 * 256 + w % 256) % 4096 == w
  {
    var q := b1 / 16;
    assert (q * 16 + w / 256) * 256 + w % 256 == 4096 * q + w;
  }

  /** A table of 12 bit entries, as bytes. */
  function Get12(t: seq<byte>, entry: nat): (v: nat)
    requires Offs12(entry) + 1 < |t|
  {
    Decode12(entry, t[Offs12(entry)], t[Offs12(entry) + 1])
  }

  function Put12(t: seq<byte>, entry: nat, v: nat): (t': seq<byte>)
    requires Offs12(entry) + 1 < |t| && Value(Fat12, v)
    ensures |t'| == |t|
  {
    var (c0, c1) := Encode12(entry, t[Offs12(entry)], t[Offs12(entry) + 1], v);
    t[Offs12(entry) := c0][Offs12(entry) + 1 := c1]
  }

  /** Setting one entry gives it the value and leaves every other entry as it was. */
  lemma PutGet12(t: seq<byte>, entry: nat, v: nat, other: nat)
    requires Offs12(entry) + 1 < |t| && Offs12(other) + 1 < |t| && Value(Fat12, v)
    ensures Get12(Put12(t, entry, v), other) == if other == entry then v else Get12(t, other)
  {
    var k, j := Offs12(entry), Offs12(other);
    Codec12(entry, t[k], t[k + 1], v);
    var (c0, c1) := Encode12(entry, t[k], t[k + 1], v);
    if other != entry {
      Apart12(entry, other);
      if j == k + 1 {
        HighPart(other, c1, t[k + 1], t[j + 1]);
      } else if j + 1 == k {
        LowPart(other, t[j], c0, t[k]);
      }
    }
  }

  /** Neighbours share at most one byte. */
  lemma Apart12(entry: nat, other: nat)
    requires entry != other
    ensures var k, j := Offs12(entry), Offs12(other);
            && k != j && (j == k + 1 ==> entry % 2 == 0 && other % 2 == 1)
               && (j + 1 == k ==> entry % 2 == 1 && other % 2 == 0)
  {
  }

  lemma HighPart(other: nat, c: byte, b: byte, b1: byte)
    requires other % 2 == 1 && c / 16 == b / 16
    ensures Decode12(other, c, b1) == Decode12(other, b, b1)
  {
  }

  lemma LowPart(other: nat, b0: byte, c: byte, b: byte)
    requires other % 2 == 0 && c % 16 == b % 16
    ensures Decode12(other, b0, c) == Decode12(other, b0, b)
  {
    LowBits(b0, c);
    LowBits(b0, b);
  }

  lemma LowBits(b0: byte, c: byte)
    ensures (c * 256 + b0) % 4096 == (c % 16) * 256 + b0
  {
    var q := c / 16;
    assert c == 16 * q + c % 16;
    assert c * 256 + b0 == 4096 * q + ((c % 16) * 256 + b0);
  }

  // ---- 16 bit entries -------------------------------------------------------------------------------

  function Get16(t: seq<byte>, entry: nat): (v: nat)
    requires 2 * entry + 2 <= |t|
  {
    var b0: int, b1: int := t[2 * entry], t[2 * entry + 1];
    var next := b0 + b1 * 256;
    if next >= BAD_FAT16 then FAT_ENT_EOF else next
  }

  function Put16(t: seq<byte>, entry: nat, v: nat): (t': seq<byte>)
    requires 2 * entry + 2 <= |t| && Value(Fat16, v)
    ensures |t'| == |t|
  {
    var w := if v == FAT_ENT_EOF then EOF_FAT16 else v;
    t[2 * entry := w % 256][2 * entry + 1 := w / 256]
  }

  lemma PutGet16(t: seq<byte>, entry: nat, v: nat, other: nat)
    requires 2 * entry + 2 <= |t| && 2 * other + 2 <= |t| && Value(Fat16, v)
    ensures Get16(Put16(t, entry, v), other) == if other == entry then v else Get16(t, other)
  {
  }

  // ---- 32 bit entries -------------------------------------------------------------------------------

  /** 28 bits count; the other four are kept as they are. */
  function Get32(t: seq<byte>, entry: nat): (v: nat)
    requires 4 * entry + 4 <= |t|
  {
    var k := 4 * entry;
    var b0: int, b1: int, b2: int, b3: int := t[k], t[k + 1], t[k + 2], t[k + 3];
    var next := b0 + b1 * 0x100 + b2 * 0x1_0000 + b3 % 16 * 0x100_0000;
    if next >= BAD_FAT32 then FAT_ENT_EOF else next
  }

  function Byte32(v: nat, i: nat): byte
    requires v < 0x1000_0000 && i < 4
  {
    if i == 0 then v % 0x100 else if i == 1 then v / 0x100 % 0x100 else if i == 2 then v / 0x1_0000 % 0x100
    else v / 0x100_0000
  }

  function Put32(t: seq<byte>, entry: nat, v: nat): (t': seq<byte>)
    requires 4 * entry + 4 <= |t| && Value(Fat32, v)
    ensures |t'| == |t|
  {
    var k := 4 * entry;
    TopNibble(v, t[k + 3]);
    t[k := Byte32(v, 0)][k + 1 := Byte32(v, 1)][k + 2 := Byte32(v, 2)][k + 3 := Byte32(v, 3) + t[k + 3] / 16 * 16]
  }

  lemma TopNibble(v: nat, b: byte)
    requires v < 0x1000_0000
    ensures Byte32(v, 3) < 16 && Byte32(v, 3) + b / 16 * 16 < 256
    ensures (Byte32(v, 3) + b / 16 * 16) % 16 == Byte32(v, 3) && (Byte32(v, 3) + b / 16 * 16) / 16 == b / 16
  {
  }

  lemma Whole32(v: nat)
    requires v < 0x1000_0000
    ensures v == Byte32(v, 0) + Byte32(v, 1) * 0x100 + Byte32(v, 2) * 0x1_0000 + Byte32(v, 3) * 0x100_0000
  {
    var a, b := v / 0x100, v / 0x1_0000;
    assert v == a * 0x100 + v % 0x100;
    assert a / 0x100 == b && a == b * 0x100 + a % 0x100;
    assert b / 0x100 == v / 0x100_0000 && b == b / 0x100 * 0x100 + b % 0x100;
  }

  lemma PutGet32(t: seq<byte>, entry: nat, v: nat, other: nat)
    requires 4 * entry + 4 <= |t| && 4 * other + 4 <= |t| && Value(Fat32, v)
    ensures Get32(Put32(t, entry, v), other) == if other == entry then v else Get32(t, other)
    ensures Put32(t, entry, v)[4 * entry + 3] / 16 == t[4 * entry + 3] / 16
  {
    hide Byte32;
    Whole32(v);
    TopNibble(v, t[4 * entry + 3]);
  }

  // ---- all kinds ------------------------------------------------------------------------------------

  datatype Kind = Fat12 | Fat16 | Fat32

  function Bad(k: Kind): nat {
    match k
    case Fat12 => BAD_FAT12
    case Fat16 => BAD_FAT16
    case Fat32 => BAD_FAT32
  }

  /** What an entry can be set to: a cluster number, free or the end of a chain. */
  predicate Value(k: Kind, v: nat) {
    v < Bad(k) || v == FAT_ENT_EOF
  }

  function Offs(k: Kind, entry: nat): nat {
    match k
    case Fat12 => Offs12(entry)
    case Fat16 => 2 * entry
    case Fat32 => 4 * entry
  }

  /** How many bytes an entry touches. */
  function Width(k: Kind): nat {
    if k.Fat32? then 4 else 2
  }

  predicate Covers(k: Kind, len: nat, max: nat) {
    forall e: nat :: e < max ==> Offs(k, e) + Width(k) <= len
  }

  /** How long a table of `max` entries has to be. */
  lemma CoversIs(k: Kind, len: nat, max: nat)
    ensures Covers(k, len, max) <==>
            max == 0 || len >= if k.Fat12? then 3 * (max - 1) / 2 + 2 else if k.Fat16? then 2 * max else 4 * max
  {
    if Covers(k, len, max) && max > 0 {
      CoversAt(k, len, max, max - 1);
    }
  }

  function Get(k: Kind, t: seq<byte>, entry: nat): nat
    requires Offs(k, entry) + Width(k) <= |t|
  {
    match k
    case Fat12 => Get12(t, entry)
    case Fat16 => Get16(t, entry)
    case Fat32 => Get32(t, entry)
  }

  function Put(k: Kind, t: seq<byte>, entry: nat, v: nat): (t': seq<byte>)
    requires Offs(k, entry) + Width(k) <= |t| && Value(k, v)
    ensures |t'| == |t|
  {
    match k
    case Fat12 => Put12(t, entry, v)
    case Fat16 => Put16(t, entry, v)
    case Fat32 => Put32(t, entry, v)
  }

  /** Setting one entry gives it the value and leaves every other entry as it was. */
  lemma PutGet(k: Kind, t: seq<byte>, entry: nat, v: nat, other: nat)
    requires Offs(k, entry) + Width(k) <= |t| && Offs(k, other) + Width(k) <= |t| && Value(k, v)
    ensures Get(k, Put(k, t, entry, v), other) == if other == entry then v else Get(k, t, other)
  {
    hide Get12, Put12, Get16, Put16, Get32, Put32;
    match k
    case Fat12 => PutGet12(t, entry, v, other);
    case Fat16 => PutGet16(t, entry, v, other);
    case Fat32 => PutGet32(t, entry, v, other);
  }

  lemma CoversAt(k: Kind, len: nat, max: nat, e: nat)
    requires Covers(k, len, max) && e < max
    ensures Offs(k, e) + Width(k) <= len
  {
  }

  /** The table as a sequence of entries. */
  function Entries(k: Kind, t: seq<byte>, max: nat): (es: seq<nat>)
    requires Covers(k, |t|, max)
    ensures |es| == max
  {
    seq(max, e requires 0 <= e < max => Get(k, t, e))
  }

  lemma EntryAt(k: Kind, t: seq<byte>, max: nat, e: nat)
    requires Covers(k, |t|, max) && e < max
    ensures Offs(k, e) + Width(k) <= |t| && Entries(k, t, max)[e] == Get(k, t, e)
  {
    hide Get;
  }

  /** Setting an entry in the bytes is setting it in the sequence of entries. */
  lemma PutRefines(k: Kind, t: seq<byte>, max: nat, entry: nat, v: nat)
    requires Covers(k, |t|, max) && entry < max && Value(k, v)
    ensures Offs(k, entry) + Width(k) <= |t|
    ensures Entries(k, Put(k, t, entry, v), max) == Entries(k, t, max)[entry := v]
  {
    hide Offs, Put, Get;
    CoversAt(k, |t|, max, entry);
    var a, b := Entries(k, Put(k, t, entry, v), max), Entries(k, t, max)[entry := v];
    forall e: nat | e < max ensures a[e] == b[e] {
      PutGet(k, t, entry, v, e);
    }
  }

  // ---- the layout, byte by byte -----------------------------------------------------------------------

  /** Entry `e` holds the number `w`, low byte first. Two entries of 12 bits share three bytes. */
  ghost predicate Holds(k: Kind, t: seq<byte>, e: nat, w: nat) {
    match k
    case Fat12 =>
      var a := 3 * (e / 2);
      && w < 0x1000 && a + 2 - (e + 1) % 2 < |t|
      && if e % 2 == 0 then t[a] == w % 256 && t[a + 1] % 16 == w / 256
         else t[a + 1] / 16 == w % 16 && t[a + 2] == w / 16
    case Fat16 => 2 * e + 1 < |t| && t[2 * e] == w % 256 && t[2 * e + 1] == w / 256
    case Fat32 =>
      && w < 0x1000_0000 && 4 * e + 3 < |t|
      && t[4 * e] == w % 256 && t[4 * e + 1] == w / 0x100 % 256 && t[4 * e + 2] == w / 0x1_0000 % 256
      && t[4 * e + 3] % 16 == w / 0x100_0000
  }

  /** The least number that does not lead on: it marks a bad cluster, and greater ones an end. */
  ghost function BadWord(k: Kind): nat {
    if k.Fat12? then 0xFF7 else if k.Fat16? then 0xFFF7 else 0x0FFF_FFF7
  }

  /** What is written as the end of a chain. */
  ghost function EndWord(k: Kind): nat {
    if k.Fat12? then 0xFFF else if k.Fat16? then 0xFFFF else 0x0FFF_FFFF
  }

  /** The entry that a number stands for. */
  lemma HoldsGet(k: Kind, t: seq<byte>, e: nat, w: nat)
    requires Holds(k, t, e, w)
    ensures Offs(k, e) + Width(k) <= |t| && Get(k, t, e) == if w >= BadWord(k) then 0x0FFF_FFFF else w
  {
    match k
    case Fat12 => HoldsGet12(t, e, w);
    case Fat16 => HoldsGet16(t, e, w);
    case Fat32 => HoldsGet32(t, e, w);
  }

  lemma HoldsGet12(t: seq<byte>, e: nat, w: nat)
    requires Holds(Fat12, t, e, w)
    ensures Offs12(e) + 1 < |t| && Get12(t, e) == if w >= 0xFF7 then 0x0FFF_FFFF else w
  {
    if e % 2 == 0 {
      LowBits(t[Offs12(e)], t[Offs12(e) + 1]);
    }
  }

  lemma HoldsGet16(t: seq<byte>, e: nat, w: nat)
    requires Holds(Fat16, t, e, w)
    ensures 2 * e + 2 <= |t| && Get16(t, e) == if w >= 0xFFF7 then 0x0FFF_FFFF else w
  {
  }

  lemma HoldsGet32(t: seq<byte>, e: nat, w: nat)
    requires Holds(Fat32, t, e, w)
    ensures 4 * e + 4 <= |t| && Get32(t, e) == if w >= 0x0FFF_FFF7 then 0x0FFF_FFFF else w
  {
    Whole32(w);
  }

  /** Every entry holds a number. */
  lemma SomeWord(k: Kind, t: seq<byte>, e: nat) returns (w: nat)
    requires Offs(k, e) + Width(k) <= |t|
    ensures Holds(k, t, e, w)
  {
    match k
    case Fat12 =>
      var b0: int, b1: int := t[Offs12(e)], t[Offs12(e) + 1];
      w := if e % 2 == 1 then b0 / 16 + b1 * 16 else b1 % 16 * 256 + b0;
    case Fat16 =>
      w := t[2 * e] as int + t[2 * e + 1] as int * 256;
    case Fat32 =>
      var b0: int, b1: int, b2: int, b3: int := t[4 * e], t[4 * e + 1], t[4 * e + 2], t[4 * e + 3];
      w := Word32(b0, b1, b2, b3 % 16);
  }

  lemma Word32(b0: nat, b1: nat, b2: nat, b3: nat) returns (w: nat)
    requires b0 < 256 && b1 < 256 && b2 < 256 && b3 < 16
    ensures w < 0x1000_0000 && w % 256 == b0 && w / 0x100 % 256 == b1 && w / 0x1_0000 % 256 == b2
    ensures w / 0x100_0000 == b3
  {
    var h := b3 * 256 + b2;
    var m := h * 256 + b1;
    w := m * 256 + b0;
    assert w / 0x100 == m && m / 0x100 == h && w / 0x1_0000 == h && w / 0x100_0000 == h / 0x100;
  }

  /** Between two tables nothing changed but entry `e`: of a byte shared with another entry, its half; of the last
      byte of 32 bits, the low half. */
  ghost predicate OnlyAt(k: Kind, t: seq<byte>, t': seq<byte>, e: nat) {
    && |t'| == |t|
    && match k
       case Fat12 =>
         var a := 3 * (e / 2);
         if e % 2 == 0 then
           && (forall i :: 0 <= i < |t| && i != a && i != a + 1 ==> t'[i] == t[i])
           && (a + 1 < |t| ==> t'[a + 1] / 16 == t[a + 1] / 16)
         else
           && (forall i :: 0 <= i < |t| && i != a + 1 && i != a + 2 ==> t'[i] == t[i])
           && (a + 1 < |t| ==> t'[a + 1] % 16 == t[a + 1] % 16)
       case Fat16 => forall i :: 0 <= i < |t| && i != 2 * e && i != 2 * e + 1 ==> t'[i] == t[i]
       case Fat32 =>
         && (forall i :: 0 <= i < |t| && !(4 * e <= i < 4 * e + 4) ==> t'[i] == t[i])
         && (4 * e + 3 < |t| ==> t'[4 * e + 3] / 16 == t[4 * e + 3] / 16)
  }

  /** What setting an entry does to the bytes. */
  lemma PutHolds(k: Kind, t: seq<byte>, e: nat, v: nat)
    requires Offs(k, e) + Width(k) <= |t| && Value(k, v)
    ensures Holds(k, Put(k, t, e, v), e, if v == 0x0FFF_FFFF then EndWord(k) else v)
    ensures OnlyAt(k, t, Put(k, t, e, v), e)
  {
    match k
    case Fat12 => PutHolds12(t, e, v);
    case Fat16 =>
    case Fat32 => TopNibble(v, t[4 * e + 3]);
  }

  lemma PutHolds12(t: seq<byte>, e: nat, v: nat)
    requires Offs12(e) + 1 < |t| && Value(Fat12, v)
    ensures Holds(Fat12, Put12(t, e, v), e, if v == 0x0FFF_FFFF then 0xFFF else v)
    ensures OnlyAt(Fat12, t, Put12(t, e, v), e)
  {
    Codec12(e, t[Offs12(e)], t[Offs12(e) + 1], v);
    var w := if v == 0x0FFF_FFFF then 0xFFF else v;
    if e % 2 == 1 {
      OddCodec(t[Offs12(e)], w);
    } else {
      EvenCodec(t[Offs12(e) + 1], w);
    }
  }
}
