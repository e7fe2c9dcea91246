/** Long names in FAT directories: the slots a name is stored in, and the parser that reads them. */
module LongName {

  type byte = b: int | 0 <= b < 256
  type Unit = u: int | 0 <= u < 0x1_0000

  const ATTR_VOLUME: byte := 0x08
  const ATTR_EXT: byte := 0x0F
  const DELETED_FLAG: byte := 0xE5
  const LAST_SLOT: nat := 0x40
  const UNITS: nat := 13
  const MAX_SLOTS: nat := 20
  const FAT_LFN_LEN: nat := 255
  const MSDOS_NAME: nat := 11

  /** The 32 bytes of a directory entry, which is a slot of a long name or a short entry. */
  type DirEnt = e: seq<byte> | |e| == 32 witness seq(32, _ => 0)

  // ---- slots --------------------------------------------------------------------------------------------

  function ToBytes(us: seq<Unit>): (bs: seq<byte>)
    ensures |bs| == 2 * |us|
  {
    if us == [] then [] else [us[0] % 256, us[0] / 256] + ToBytes(us[1..])
  }

  function FromBytes(bs: seq<byte>): (us: seq<Unit>)
    requires |bs| % 2 == 0
    ensures 2 * |us| == |bs|
  {
    if bs == [] then [] else [bs[0] as int + 256 * bs[1] as int] + FromBytes(bs[2..])
  }

  lemma {:induction false} UnitsRoundTrip(us: seq<Unit>)
    ensures FromBytes(ToBytes(us)) == us
  {
    if us != [] {
      var bs := ToBytes(us);
      assert bs[0] == us[0] % 256 && bs[1] == us[0] / 256 && bs[2..] == ToBytes(us[1..]);
      UnitsRoundTrip(us[1..]);
    }
  }

  lemma {:induction false} UnitBytes(us: seq<Unit>, j: nat)
    requires j < |us|
    ensures ToBytes(us)[2 * j] == us[j] % 256 && ToBytes(us)[2 * j + 1] == us[j] / 256
    decreases j
  {
    if j > 0 {
      UnitBytes(us[1..], j - 1);
    }
  }

  lemma {:induction false} ByteUnits(bs: seq<byte>, j: nat)
    requires |bs| % 2 == 0 && 2 * j < |bs|
    ensures FromBytes(bs)[j] == bs[2 * j] as int + 256 * bs[2 * j + 1] as int
    decreases j
  {
    if j > 0 {
      ByteUnits(bs[2..], j - 1);
    }
  }

  /** Where character `j` of a slot starts: five of them at 1, six at 14, and two at 28. */
  ghost function CharAt(j: nat): (at: nat)
    ensures j < 13 ==> at < 31
  {
    if j < 5 then 1 + 2 * j else if j < 11 then 14 + 2 * (j - 5) else 28 + 2 * (j - 11)
  }

  function Id(e: DirEnt): byte { e[0] }
  function Attr(e: DirEnt): byte { e[11] }
  function AliasChecksum(e: DirEnt): byte { e[13] }
  function ShortName(e: DirEnt): (n: seq<byte>) ensures |n| == MSDOS_NAME { e[..11] }

  predicate IsLast(id: byte) { id / LAST_SLOT % 2 == 1 }
  function SlotNumber(id: byte): nat { if IsLast(id) then id - LAST_SLOT else id }

  /** The characters of a slot, in its three fields. */
  function SlotUnits(e: DirEnt): (us: seq<Unit>)
    ensures |us| == UNITS
  {
    FromBytes(e[1..11]) + FromBytes(e[14..26]) + FromBytes(e[28..32])
  }

  function MakeSlot(id: byte, checksum: byte, us: seq<Unit>): (e: DirEnt)
    requires |us| == UNITS
  {
    [id] + ToBytes(us[..5]) + [ATTR_EXT, 0, checksum] + ToBytes(us[5..11]) + [0, 0] + ToBytes(us[11..])
  }

  lemma SlotParts(id: byte, a: seq<byte>, m: seq<byte>, b: seq<byte>, z: seq<byte>, c: seq<byte>)
    requires |a| == 10 && |m| == 3 && |b| == 12 && |z| == 2 && |c| == 4
    ensures var e := [id] + a + m + b + z + c;
            |e| == 32 && e[0] == id && e[1..11] == a && e[11] == m[0] && e[13] == m[2] && e[14..26] == b
              && e[28..32] == c
  {
  }

  lemma SlotRoundTrip(id: byte, checksum: byte, us: seq<Unit>)
    requires |us| == UNITS
    ensures var e := MakeSlot(id, checksum, us);
            Id(e) == id && Attr(e) == ATTR_EXT && AliasChecksum(e) == checksum && SlotUnits(e) == us
  {
    hide ToBytes, FromBytes;
    SlotParts(id, ToBytes(us[..5]), [ATTR_EXT, 0, checksum], ToBytes(us[5..11]), [0, 0], ToBytes(us[11..]));
    UnitsRoundTrip(us[..5]);
    UnitsRoundTrip(us[5..11]);
    UnitsRoundTrip(us[11..]);
    assert us == us[..5] + us[5..11] + us[11..];
  }

  /** The bytes of a slot. */
  lemma SlotBytes(id: byte, checksum: byte, us: seq<Unit>)
    requires |us| == 13
    ensures var e := MakeSlot(id, checksum, us);
            && e[0] == id && e[11] == 0x0F && e[12] == 0 && e[13] == checksum && e[26] == 0 && e[27] == 0
            && forall j :: 0 <= j < 13 ==> e[CharAt(j)] == us[j] % 256 && e[CharAt(j) + 1] == us[j] / 256
  {
    hide ToBytes;
    var e := MakeSlot(id, checksum, us);
    forall j | 0 <= j < 13 ensures e[CharAt(j)] == us[j] % 256 && e[CharAt(j) + 1] == us[j] / 256 {
      if j < 5 {
        UnitBytes(us[..5], j);
      } else if j < 11 {
        UnitBytes(us[5..11], j - 5);
      } else {
        UnitBytes(us[11..], j - 11);
      }
    }
  }

  lemma SlotChars(e: DirEnt, j: nat)
    requires j < 13
    ensures SlotUnits(e)[j] == e[CharAt(j)] as int + 256 * e[CharAt(j) + 1] as int
  {
    hide FromBytes;
    if j < 5 {
      ByteUnits(e[1..11], j);
    } else if j < 11 {
      ByteUnits(e[14..26], j - 5);
    } else {
      ByteUnits(e[28..32], j - 11);
    }
  }

  /** The checksum of a short name, by which its long name is recognised. */
  function Checksum(name: seq<byte>): byte
    requires name != []
  {
    if |name| == 1 then name[0]
    else
      var s := Checksum(name[..|name| - 1]);
      (s * 128 + s / 2 + name[|name| - 1]) % 256
  }

  /** A word of eight bits is rotated right by one bit, and a byte is added to it. */
  ghost predicate NextWord(w: bv8, b: byte, w': bv8) {
    w' as int == (w.RotateRight(1) as int + b) % 256
  }

  /** The checksum on words of eight bits. */
  ghost predicate ByWords(name: seq<byte>, ws: seq<bv8>) {
    && |ws| == |name| > 0 && ws[0] as int == name[0]
    && forall k :: 0 <= k < |name| - 1 ==> NextWord(ws[k], name[k + 1], ws[k + 1])
  }

  lemma Rotated(w: bv8)
    ensures w.RotateRight(1) as int == w as int / 2 + w as int % 2 * 128
  {
  }

  lemma OneByte(r: int, v: int, b: int)
    requires r == v / 2 + v % 2 * 128
    ensures (r + b) % 256 == (v * 128 + v / 2 + b) % 256
  {
    assert v * 128 == v % 2 * 128 + v / 2 * 256;
    assert v * 128 + v / 2 + b == (r + b) + v / 2 * 256;
  }

  lemma OneStep(w: bv8, b: byte, w': bv8)
    requires NextWord(w, b, w')
    ensures w' as int == (w as int * 128 + w as int / 2 + b) % 256
  {
    Rotated(w);
    OneByte(w.RotateRight(1) as int, w as int, b);
  }

  lemma {:induction false} SumByWords(name: seq<byte>, ws: seq<bv8>, n: nat)
    requires ByWords(name, ws) && 0 < n <= |name|
    ensures Checksum(name[..n]) == ws[n - 1] as int
    decreases n
  {
    hide NextWord;
    if n == 1 {
      assert name[..1] == [name[0]];
    } else {
      SumByWords(name, ws, n - 1);
      assert name[..n][..n - 1] == name[..n - 1];
      assert NextWord(ws[n - 2], name[n - 2 + 1], ws[n - 2 + 1]);
      OneStep(ws[n - 2], name[n - 1], ws[n - 1]);
    }
  }

  /** The checksum of a short name is the last of its eleven words. */
  lemma ChecksumIs(name: seq<byte>, ws: seq<bv8>)
    requires |name| == 11 && ByWords(name, ws)
    ensures Checksum(name) == ws[10] as int
  {
    SumByWords(name, ws, 11);
    assert name[..11] == name;
  }

  lemma Twice(w: bv8)
    ensures (w << 1) as int == w as int % 128 * 2
    ensures ((w << 1) | 1) as int == w as int % 128 * 2 + 1
  {
  }

  lemma {:induction false} WordOf(b: byte) returns (w: bv8)
    ensures w as int == b
    decreases b
  {
    if b == 0 {
      w := 0;
    } else {
      w := WordOf(b / 2);
      Twice(w);
      w := if b % 2 == 0 then w << 1 else (w << 1) | 1;
    }
  }

  /** Every name has these words. */
  lemma {:induction false} WordsExist(name: seq<byte>) returns (ws: seq<bv8>)
    requires name != []
    ensures ByWords(name, ws)
    decreases |name|
  {
    var n := |name| - 1;
    if n == 0 {
      var w := WordOf(name[0]);
      ws := [w];
    } else {
      ws := WordsExist(name[..n]);
      var w := WordOf((ws[n - 1].RotateRight(1) as int + name[n]) % 256);
      ws := AddWord(name, ws, w);
    }
  }

  lemma AddWord(name: seq<byte>, ws: seq<bv8>, w: bv8) returns (ws': seq<bv8>)
    requires |name| == |ws| + 1 && ByWords(name[..|ws|], ws) && NextWord(ws[|ws| - 1], name[|ws|], w)
    ensures ByWords(name, ws')
  {
    hide NextWord;
    ws' := ws + [w];
    forall k | 0 <= k < |ws| ensures NextWord(ws'[k], name[k + 1], ws'[k + 1]) {
      if k < |ws| - 1 {
        assert NextWord(ws[k], name[..|ws|][k + 1], ws[k + 1]);
      }
    }
  }

  // ---- building -------------------------------------------------------------------------------------------

  /** The name as it fills whole slots: a terminator and fillers, unless it fills them already. */
  function Padded(name: seq<Unit>): (out: seq<Unit>) {
    if |name| % UNITS == 0 then name
    else name + [0] + seq((UNITS - (|name| + 1) % UNITS) % UNITS, _ => 0xffff)
  }

  lemma PaddedSize(name: seq<Unit>)
    ensures |Padded(name)| == (|name| + 12) / UNITS * UNITS && |Padded(name)| % UNITS == 0
    ensures name <= Padded(name) && (|name| < |Padded(name)| ==> Padded(name)[|name|] == 0)
  {
    var q, r := |name| / UNITS, |name| % UNITS;
    assert |name| == UNITS * q + r;
    if r != 0 {
      assert (|name| + 12) / UNITS == q + 1 by { assert |name| + 12 == UNITS * (q + 1) + (r - 1); }
      assert (UNITS - (|name| + 1) % UNITS) % UNITS == UNITS - r - 1 by { assert |name| + 1 == UNITS * q + (r + 1); }
    } else {
      assert |name| + 12 == UNITS * q + 12;
    }
  }

  /** The units that follow the terminator. */
  function Fill(len: nat): (n: nat) {
    if len % UNITS == 0 then 0 else UNITS - len % UNITS
  }

  lemma PaddedUnits(name: seq<Unit>)
    requires |name| % UNITS != 0
    ensures |Padded(name)| == |name| + 1 + Fill(|name| + 1)
    ensures forall k :: 0 <= k < |name| ==> Padded(name)[k] == name[k]
    ensures Padded(name)[|name|] == 0 && forall k :: |name| < k < |Padded(name)| ==> Padded(name)[k] == 0xffff
  {
    PaddedSize(name);
  }

  lemma FillFits(len: nat)
    requires len % UNITS != 0 && len <= FAT_LFN_LEN
    ensures len + 1 + Fill(len + 1) <= MAX_SLOTS * UNITS
  {
    var q, r := len / UNITS, len % UNITS;
    assert len == UNITS * q + r && q < MAX_SLOTS;
    assert (len + 1) % UNITS == (r + 1) % UNITS;
  }

  /** Pads the first `len` units of a buffer. */
  method PadName(out: array<Unit>, len: nat) returns (size: nat)
    requires len <= FAT_LFN_LEN && out.Length >= MAX_SLOTS * UNITS
    modifies out
    ensures size <= out.Length && out[..size] == Padded(old(out[..len]))
    ensures size == (len + 12) / 13 * 13 && forall k :: 0 <= k < len ==> out[k] == old(out[k])
    ensures len < size ==> out[len] == 0 && forall k :: len < k < size ==> out[k] == 0xffff
    ensures out[size..] == old(out[size..])
  {
    hide Padded;
    ghost var name := out[..len];
    size := len;
    PaddedSize(name);
    if size % UNITS != 0 {
      PaddedUnits(name);
      FillFits(len);
      out[size] := 0;
      size := size + 1;
      if size % UNITS != 0 {
        var fill := UNITS - size % UNITS;
        FillUnits(out, size, fill);
        size := size + fill;
      }
    } else {
      PaddedWhole(name);
    }
  }

  lemma PaddedWhole(name: seq<Unit>)
    requires |name| % UNITS == 0
    ensures Padded(name) == name
  {
  }

  method FillUnits(out: array<Unit>, from: nat, fill: nat)
    requires from + fill <= out.Length
    modifies out
    ensures forall k :: from <= k < from + fill ==> out[k] == 0xffff
    ensures forall k :: 0 <= k < from || from + fill <= k < out.Length ==> out[k] == old(out[k])
  {
    var i := 0;
    while i < fill
      invariant i <= fill
      invariant forall k :: from <= k < from + i ==> out[k] == 0xffff
      invariant forall k :: 0 <= k < from || from + i <= k < out.Length ==> out[k] == old(out[k])
    {
      out[from + i] := 0xffff;
      i := i + 1;
    }
  }

  /** Slot `i` of a name of `n` slots. */
  function SlotOf(padded: seq<Unit>, checksum: byte, n: nat, i: nat): DirEnt
    requires 0 < i <= n <= MAX_SLOTS && |padded| == n * UNITS
  {
    MakeSlot(if i == n then i + LAST_SLOT else i, checksum, padded[(i - 1) * UNITS..(i - 1) * UNITS + UNITS])
  }

  /** Slots `i` down to 1, in the order of the directory. */
  function SlotsFrom(padded: seq<Unit>, checksum: byte, n: nat, i: nat): (es: seq<DirEnt>)
    requires i <= n <= MAX_SLOTS && |padded| == n * UNITS
    ensures |es| == i
  {
    if i == 0 then [] else [SlotOf(padded, checksum, n, i)] + SlotsFrom(padded, checksum, n, i - 1)
  }

  /** The slots of a name, as a loop fills them in. */
  method BuildSlots(padded: seq<Unit>, checksum: byte) returns (slots: seq<DirEnt>)
    requires |padded| % UNITS == 0 && 0 < |padded| <= MAX_SLOTS * UNITS
    ensures slots == SlotsFrom(padded, checksum, |padded| / UNITS, |padded| / UNITS)
    ensures |slots| == |padded| / 13
    ensures forall k :: 0 <= k < |slots| ==> SlotHolds(slots[k], padded, checksum, |slots|, |slots| - k)
  {
    hide MakeSlot, SlotHolds;
    var n := |padded| / UNITS;
    assert |padded| == n * UNITS;
    slots := [];
    var i := n;
    while i > 0
      invariant 0 <= i <= n && |slots| == n - i
      invariant forall k :: 0 <= k < n - i ==>
                  slots[k] == MakeSlot(n - k, checksum, padded[(n - k - 1) * UNITS..(n - k - 1) * UNITS + UNITS])
    {
      var offset := (i - 1) * UNITS;
      slots := slots + [MakeSlot(i, checksum, padded[offset..offset + UNITS])];
      i := i - 1;
    }
    ghost var before := slots;
    FirstByte(n, checksum, padded[(n - 1) * UNITS..(n - 1) * UNITS + UNITS]);
    slots := [[Id(slots[0]) + LAST_SLOT] + slots[0][1..]] + slots[1..];
    SlotsAre(padded, checksum, n, n, slots);
    SlotsBytes(padded, checksum, n, n);
  }

  /** Slot `i` of a name of `n` slots, in bytes: its number and its thirteen characters. */
  ghost predicate SlotHolds(e: DirEnt, padded: seq<Unit>, checksum: byte, n: nat, i: nat) {
    && 0 < i <= n <= 20 && |padded| == n * 13
    && e[0] == (if i == n then 64 + n else i) && e[11] == 0x0F && e[12] == e[26] == e[27] == 0 && e[13] == checksum
    && forall j :: 0 <= j < 13 ==> e[CharAt(j)] as int + 256 * e[CharAt(j) + 1] as int == padded[(i - 1) * 13 + j]
  }

  lemma SlotOfHolds(padded: seq<Unit>, checksum: byte, n: nat, i: nat)
    requires 0 < i <= n <= 20 && |padded| == n * 13
    ensures SlotHolds(SlotOf(padded, checksum, n, i), padded, checksum, n, i)
  {
    hide MakeSlot, CharAt;
    var us := padded[(i - 1) * 13..(i - 1) * 13 + 13];
    SlotBytes(if i == n then i + 64 else i, checksum, us);
    forall j | 0 <= j < 13 ensures us[j] % 256 + 256 * (us[j] / 256) == padded[(i - 1) * 13 + j] {
    }
  }

  /** The slots of a name: the last part of the name is first, and the numbers go down to 1. */
  lemma {:induction false} SlotsBytes(padded: seq<Unit>, checksum: byte, n: nat, i: nat)
    requires i <= n <= 20 && |padded| == n * 13
    ensures forall k :: 0 <= k < i ==> SlotHolds(SlotsFrom(padded, checksum, n, i)[k], padded, checksum, n, i - k)
    decreases i
  {
    hide SlotHolds, SlotOf;
    if i > 0 {
      SlotsBytes(padded, checksum, n, i - 1);
      SlotOfHolds(padded, checksum, n, i);
    }
  }

  lemma FirstByte(n: nat, checksum: byte, us: seq<Unit>)
    requires 0 < n <= MAX_SLOTS && |us| == UNITS
    ensures Id(MakeSlot(n, checksum, us)) == n
    ensures [n + LAST_SLOT] + MakeSlot(n, checksum, us)[1..] == MakeSlot(n + LAST_SLOT, checksum, us)
  {
    hide ToBytes;
    var t := ToBytes(us[..5]) + [ATTR_EXT, 0, checksum] + ToBytes(us[5..11]) + [0, 0] + ToBytes(us[11..]);
    assert MakeSlot(n, checksum, us) == [n] + t;
    assert MakeSlot(n + LAST_SLOT, checksum, us) == [n + LAST_SLOT] + t;
  }

  lemma {:induction false} SlotsAre(padded: seq<Unit>, checksum: byte, n: nat, i: nat, es: seq<DirEnt>)
    requires i <= n <= MAX_SLOTS && |padded| == n * UNITS && |es| == i
    requires forall k :: 0 <= k < i ==> es[k] == SlotOf(padded, checksum, n, i - k)
    ensures es == SlotsFrom(padded, checksum, n, i)
    decreases i
  {
    hide SlotOf;
    if i > 0 {
      SlotsAre(padded, checksum, n, i - 1, es[1..]);
      assert es == [es[0]] + es[1..];
    }
  }
}
