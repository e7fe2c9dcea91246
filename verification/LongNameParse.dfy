/** Parsing the slots of a long name, and the round trip from a name to its slots and back. */
module LongNameParse {
  import opened LongName

  const BUFFER: nat := MAX_SLOTS * UNITS + 1

  datatype Parsed = Found(nrSlots: nat, pos: nat) | Invalid | NotLongName | EndOfDir

  /** The buffer after the characters of slot `slot` (counted from 0) were stored. */
  function Store(uni: seq<Unit>, slot: nat, e: DirEnt): (uni': seq<Unit>)
    requires slot < MAX_SLOTS && |uni| >= BUFFER
    ensures |uni'| == |uni|
  {
    var offset := slot * UNITS;
    var u := uni[..offset] + SlotUnits(e) + uni[offset + UNITS..];
    if IsLast(Id(e)) then u[offset + UNITS := 0] else u
  }

  /** What parsing from entry `pos` on finds, and what it leaves in the buffer. */
  function Parse(dir: seq<DirEnt>, pos: nat, uni: seq<Unit>): (Parsed, seq<Unit>)
    requires pos < |dir| && |uni| >= BUFFER
    decreases |dir| - pos, 1
  {
    var id := Id(dir[pos]);
    var slots := SlotNumber(id);
    if !IsLast(id) || slots > MAX_SLOTS || slots == 0 then (Invalid, uni)
    else ParseSlots(dir, pos, slots, slots, AliasChecksum(dir[pos]), uni)
  }

  /** Parsing goes on with entry `pos`, which holds slot `slot` of `nr`. */
  function ParseSlots(dir: seq<DirEnt>, pos: nat, nr: nat, slot: nat, checksum: byte,
                      uni: seq<Unit>): (Parsed, seq<Unit>)
    requires pos < |dir| && 0 < slot <= nr <= MAX_SLOTS && |uni| >= BUFFER
    decreases |dir| - pos, 0
  {
    var u := Store(uni, slot - 1, dir[pos]);
    if pos + 1 >= |dir| then (EndOfDir, u)
    else
      var e := dir[pos + 1];
      if slot - 1 == 0 then
        if ShortName(e)[0] == DELETED_FLAG then (Invalid, u)
        else if Attr(e) == ATTR_EXT then Parse(dir, pos + 1, u)
        else if ShortName(e)[0] == 0 || Attr(e) / ATTR_VOLUME % 2 == 1 then (Invalid, u)
        else (Found(if Checksum(ShortName(e)) == checksum then nr else 0, pos + 1), u)
      else if Attr(e) != ATTR_EXT then (NotLongName, u)
      else if SlotNumber(Id(e)) != slot - 1 || AliasChecksum(e) != checksum then Parse(dir, pos + 1, u)
      else ParseSlots(dir, pos + 1, nr, slot - 1, checksum, u)
  }

  /** The parser, which fills the buffer in place and starts over when the slots do not belong together. */
  method ParseLong(dir: seq<DirEnt>, start: nat, uni: array<Unit>) returns (r: Parsed)
    requires start < |dir| && uni.Length >= BUFFER
    modifies uni
    ensures (r, uni[..]) == Parse(dir, start, old(uni[..]))
  {
    hide Store, SlotUnits, Checksum;
    ghost var goal := Parse(dir, start, uni[..]);
    var pos := start;
    while true
      invariant pos < |dir| && goal == Parse(dir, pos, uni[..])
      decreases |dir| - pos
    {
      var id := Id(dir[pos]);
      if !IsLast(id) {
        return Invalid;
      }
      var slots := SlotNumber(id);
      if slots > MAX_SLOTS || slots == 0 {
        return Invalid;
      }
      var checksum := AliasChecksum(dir[pos]);
      var slot, again := slots, false;
      ghost var first := pos;
      while !again
        invariant first <= pos < |dir| && (again ==> pos > first && goal == Parse(dir, pos, uni[..]))
        invariant !again ==> 0 < slot <= slots && goal == ParseSlots(dir, pos, slots, slot, checksum, uni[..])
        decreases |dir| - pos, !again
      {
        slot := slot - 1;
        StoreSlot(uni, slot, dir[pos]);
        pos := pos + 1;
        if pos >= |dir| {
          return EndOfDir;
        }
        var e := dir[pos];
        if slot == 0 {
          if ShortName(e)[0] == DELETED_FLAG {
            return Invalid;
          }
          if Attr(e) == ATTR_EXT {
            again := true;
          } else {
            if ShortName(e)[0] == 0 || Attr(e) / ATTR_VOLUME % 2 == 1 {
              return Invalid;
            }
            if Checksum(ShortName(e)) != checksum {
              slots := 0;
            }
            return Found(slots, pos);
          }
        } else {
          if Attr(e) != ATTR_EXT {
            return NotLongName;
          }
          if SlotNumber(Id(e)) != slot || AliasChecksum(e) != checksum {
            again := true;
          }
        }
      }
    }
  }

  /** Copies the characters of a slot into the buffer. */
  method StoreSlot(uni: array<Unit>, slot: nat, e: DirEnt)
    requires slot < MAX_SLOTS && uni.Length >= BUFFER
    modifies uni
    ensures uni[..] == Store(old(uni[..]), slot, e)
  {
    hide FromBytes;
    ghost var before := uni[..];
    var offset, us := slot * UNITS, SlotUnits(e);
    for k := 0 to UNITS
      invariant uni[..offset] == before[..offset] && uni[offset + k..] == before[offset + k..]
      invariant uni[offset..offset + k] == us[..k]
    {
      uni[offset + k] := us[k];
    }
    assert uni[..] == before[..offset] + us + before[offset + UNITS..];
    if IsLast(Id(e)) {
      uni[offset + UNITS] := 0;
    }
  }

  // ---- the round trip -------------------------------------------------------------------------------------

  /** The entry of the alias: neither deleted nor free, nor a volume label, nor a slot. */
  predicate AliasOk(e: DirEnt) {
    && ShortName(e)[0] != DELETED_FLAG && ShortName(e)[0] != 0
    && Attr(e) != ATTR_EXT && Attr(e) / ATTR_VOLUME % 2 == 0
  }

  /** The directory holds slots `i` down to 1 from `pos` on, and then the alias. */
  ghost predicate SlotsAt(dir: seq<DirEnt>, pos: nat, padded: seq<Unit>, checksum: byte, n: nat, i: nat) {
    && 0 < i <= n <= MAX_SLOTS && |padded| == n * UNITS && pos + i < |dir|
    && dir[pos..pos + i] == SlotsFrom(padded, checksum, n, i)
    && AliasOk(dir[pos + i])
  }

  lemma SlotsHead(dir: seq<DirEnt>, pos: nat, padded: seq<Unit>, checksum: byte, n: nat, i: nat)
    requires SlotsAt(dir, pos, padded, checksum, n, i)
    ensures dir[pos] == SlotOf(padded, checksum, n, i)
    ensures i > 1 ==> SlotsAt(dir, pos + 1, padded, checksum, n, i - 1)
  {
    hide SlotOf, AliasOk;
    var s := dir[pos..pos + i];
    assert s[0] == dir[pos];
    assert s[1..] == dir[pos + 1..pos + 1 + (i - 1)];
  }

  lemma SlotFields(padded: seq<Unit>, checksum: byte, n: nat, i: nat)
    requires 0 < i <= n <= MAX_SLOTS && |padded| == n * UNITS
    ensures var e := SlotOf(padded, checksum, n, i);
            && SlotNumber(Id(e)) == i && (IsLast(Id(e)) <==> i == n) && Attr(e) == ATTR_EXT
               && AliasChecksum(e) == checksum
            && SlotUnits(e) == padded[(i - 1) * UNITS..(i - 1) * UNITS + UNITS]
  {
    hide MakeSlot, SlotUnits;
    SlotRoundTrip(if i == n then i + LAST_SLOT else i, checksum, padded[(i - 1) * UNITS..(i - 1) * UNITS + UNITS]);
  }

  /** The buffer holds everything from slot `i` (counted from 0) on, and the terminator. */
  ghost predicate Holds(uni: seq<Unit>, padded: seq<Unit>, i: nat) {
    && |uni| >= BUFFER && |padded| < |uni| && uni[|padded|] == 0
    && forall k :: i * UNITS <= k < |padded| ==> uni[k] == padded[k]
  }

  lemma StoreHolds(uni: seq<Unit>, padded: seq<Unit>, checksum: byte, n: nat, i: nat)
    requires 0 < i <= n <= MAX_SLOTS && |padded| == n * UNITS && |uni| >= BUFFER && (i < n ==> Holds(uni, padded, i))
    ensures Holds(Store(uni, i - 1, SlotOf(padded, checksum, n, i)), padded, i - 1)
  {
    hide SlotOf, SlotUnits, IsLast;
    SlotFields(padded, checksum, n, i);
    UnitsHeld(uni, padded, (i - 1) * UNITS, i == n);
  }

  lemma UnitsHeld(uni: seq<Unit>, padded: seq<Unit>, offset: nat, last: bool)
    requires |uni| >= BUFFER > |padded| && offset + UNITS <= |padded| && (last <==> offset + UNITS == |padded|)
    requires !last ==> uni[|padded|] == 0 && forall k :: offset + UNITS <= k < |padded| ==> uni[k] == padded[k]
    ensures var u := uni[..offset] + padded[offset..offset + UNITS] + uni[offset + UNITS..];
            var u' := if last then u[offset + UNITS := 0] else u;
            |u'| == |uni| && u'[|padded|] == 0 && forall k :: offset <= k < |padded| ==> u'[k] == padded[k]
  {
    StoredUnits(uni, offset, padded[offset..offset + UNITS]);
  }

  lemma StoredUnits(uni: seq<Unit>, offset: nat, us: seq<Unit>)
    requires offset + UNITS <= |uni| && |us| == UNITS
    ensures var u := uni[..offset] + us + uni[offset + UNITS..];
            && |u| == |uni| && (forall k :: 0 <= k < offset || offset + UNITS <= k < |u| ==> u[k] == uni[k])
            && (forall k :: offset <= k < offset + UNITS ==> u[k] == us[k - offset])
  {
  }

  /** Parsing the slots that were built finds the characters they were built from, and counts them if they
      belong to the alias. */
  lemma {:induction false} ParseBuilt(dir: seq<DirEnt>, pos: nat, padded: seq<Unit>, checksum: byte, n: nat, i: nat,
                                      uni: seq<Unit>)
    requires SlotsAt(dir, pos, padded, checksum, n, i) && |uni| >= BUFFER && (i < n ==> Holds(uni, padded, i))
    ensures var (r, u) := ParseSlots(dir, pos, n, i, checksum, uni);
            && r == Found(if Checksum(ShortName(dir[pos + i])) == checksum then n else 0, pos + i)
            && Holds(u, padded, 0)
    decreases i
  {
    hide SlotOf, Store, Holds, SlotUnits, Checksum, SlotsFrom;
    SlotsHead(dir, pos, padded, checksum, n, i);
    StoreHolds(uni, padded, checksum, n, i);
    var u := Store(uni, i - 1, dir[pos]);
    if i > 1 {
      SlotsHead(dir, pos + 1, padded, checksum, n, i - 1);
      SlotFields(padded, checksum, n, i - 1);
      ParseBuilt(dir, pos + 1, padded, checksum, n, i - 1, u);
    }
  }

  /** The name in a zero-terminated buffer. */
  function NameIn(uni: seq<Unit>): seq<Unit> {
    if uni == [] || uni[0] == 0 then [] else [uni[0]] + NameIn(uni[1..])
  }

  lemma {:induction false} NameEnds(uni: seq<Unit>, name: seq<Unit>)
    requires |name| < |uni| && uni[..|name|] == name && uni[|name|] == 0 && forall u :: u in name ==> u != 0
    ensures NameIn(uni) == name
    decreases |name|
  {
    if name != [] {
      assert uni[0] == uni[..|name|][0] == name[0];
      assert name[0] in name;
      assert uni[1..][..|name| - 1] == name[1..];
      assert forall u :: u in name[1..] ==> u in name;
      NameEnds(uni[1..], name[1..]);
      assert name == [name[0]] + name[1..];
    }
  }

  /** The slots of a name, wherever they are in a directory and followed by an alias, parse to the name. They are
      counted exactly if their checksum is that of the alias. */
  lemma ParseStored(pre: seq<DirEnt>, name: seq<Unit>, checksum: byte, alias: DirEnt, post: seq<DirEnt>,
                    uni: seq<Unit>, ws: seq<bv8>)
    requires 1 <= |name| <= 255 && (forall u :: u in name ==> u != 0) && |uni| >= 261
    requires alias[0] != 0xE5 && alias[0] != 0 && alias[11] != 0x0F && alias[11] / 8 % 2 == 0
    requires ByWords(alias[..11], ws)
    ensures var n := (|name| + 12) / 13;
            var (r, u) := Parse(pre + SlotsFrom(Padded(name), checksum, n, n) + [alias] + post, |pre|, uni);
            r == Found(if ws[10] as int == checksum then n else 0, |pre| + n) && NameIn(u) == name
  {
    hide Checksum, SlotOf, Padded;
    PaddedSize(name);
    var padded, n := Padded(name), (|name| + 12) / UNITS;
    var slots := SlotsFrom(padded, checksum, n, n);
    var dir := pre + slots + [alias] + post;
    assert dir[|pre|..|pre| + n] == slots;
    assert dir[|pre| + n] == alias;
    ChecksumIs(alias[..11], ws);
    SlotsHead(dir, |pre|, padded, checksum, n, n);
    SlotFields(padded, checksum, n, n);
    ParseBuilt(dir, |pre|, padded, checksum, n, n, uni);
    var (r, u) := ParseSlots(dir, |pre|, n, n, checksum, uni);
    HeldName(u, padded, name);
  }

  /** The round trip: stored with the checksum of its alias, a name parses to itself and the number of its slots. */
  lemma LongNameRoundTrip(pre: seq<DirEnt>, name: seq<Unit>, alias: DirEnt, post: seq<DirEnt>, uni: seq<Unit>)
    requires 1 <= |name| <= FAT_LFN_LEN && (forall u :: u in name ==> u != 0) && AliasOk(alias) && |uni| >= BUFFER
    ensures var n := (|name| + 12) / UNITS;
            var slots := SlotsFrom(Padded(name), Checksum(ShortName(alias)), n, n);
            var (r, u) := Parse(pre + slots + [alias] + post, |pre|, uni);
            r == Found(n, |pre| + n) && NameIn(u) == name
  {
    hide Checksum, Padded, SlotsFrom, Parse;
    var ws := WordsExist(alias[..11]);
    ChecksumIs(alias[..11], ws);
    ParseStored(pre, name, Checksum(ShortName(alias)), alias, post, uni, ws);
  }

  lemma HeldName(u: seq<Unit>, padded: seq<Unit>, name: seq<Unit>)
    requires Holds(u, padded, 0) && name <= padded && (|name| < |padded| ==> padded[|name|] == 0)
             && forall x :: x in name ==> x != 0
    ensures NameIn(u) == name
  {
    assert u[..|name|] == name;
    NameEnds(u, name);
  }

  // ---- the parser on bytes --------------------------------------------------------------------------------

  /** The first `m` of `n` slots stand at `pos` in the directory: each has its number, all but the first may
      have the mark of a last slot too, and all have the checksum of the first one. */
  ghost predicate RunAt(dir: seq<DirEnt>, pos: nat, n: nat, checksum: byte, m: nat) {
    && 0 < m <= n <= 20 && pos + m <= |dir|
    && dir[pos][0] == 64 + n && dir[pos][13] == checksum
    && forall k :: pos < k < pos + m ==>
         dir[k][11] == 0x0F && dir[k][13] == checksum && dir[k][0] in {n - (k - pos), n - (k - pos) + 64}
  }

  /** What was read does not depend on what was in the buffer. */
  lemma {:induction false} SameAnswer(dir: seq<DirEnt>, pos: nat, u: seq<Unit>, v: seq<Unit>)
    requires pos < |dir| && |u| >= BUFFER && |v| >= BUFFER
    ensures Parse(dir, pos, u).0 == Parse(dir, pos, v).0
    decreases |dir| - pos, 1
  {
    hide Store, Checksum;
    var n := SlotNumber(Id(dir[pos]));
    if IsLast(Id(dir[pos])) && 0 < n <= MAX_SLOTS {
      SameSlots(dir, pos, n, n, AliasChecksum(dir[pos]), u, v);
    }
  }

  lemma {:induction false} SameSlots(dir: seq<DirEnt>, pos: nat, nr: nat, slot: nat, checksum: byte, u: seq<Unit>,
                                     v: seq<Unit>)
    requires pos < |dir| && 0 < slot <= nr <= MAX_SLOTS && |u| >= BUFFER && |v| >= BUFFER
    ensures ParseSlots(dir, pos, nr, slot, checksum, u).0 == ParseSlots(dir, pos, nr, slot, checksum, v).0
    decreases |dir| - pos, 0
  {
    hide Store, Checksum;
    var u', v' := Store(u, slot - 1, dir[pos]), Store(v, slot - 1, dir[pos]);
    if pos + 1 < |dir| {
      SameAnswer(dir, pos + 1, u', v');
      if slot > 1 {
        SameSlots(dir, pos + 1, nr, slot - 1, checksum, u', v');
      }
    }
  }

  /** Once `m` slots of a run were read, the parser is about to go on after the last of them. */
  lemma {:induction false} ReadRun(dir: seq<DirEnt>, pos: nat, n: nat, checksum: byte, m: nat, uni: seq<Unit>)
    returns (u: seq<Unit>)
    requires RunAt(dir, pos, n, checksum, m) && |uni| >= BUFFER
    ensures |u| >= BUFFER
            && Parse(dir, pos, uni) == ParseSlots(dir, pos + m - 1, n, n - m + 1, checksum, u)
    decreases m
  {
    hide Store, Checksum;
    if m == 1 {
      u := uni;
    } else {
      u := ReadRun(dir, pos, n, checksum, m - 1, uni);
      u := Store(u, n - m + 1, dir[pos + m - 2]);
      var e := dir[pos + m - 1];
      assert e[11] == 0x0F && e[13] == checksum && e[0] in {n - (m - 1), n - (m - 1) + 64};
    }
  }

  /** No run starts at an entry that is not marked as a last slot or has no number from 1 to 20. */
  lemma ParseNoRun(dir: seq<DirEnt>, pos: nat, uni: seq<Unit>)
    requires pos < |dir| && |uni| >= BUFFER
    requires !(65 <= dir[pos][0] <= 84)
    ensures Parse(dir, pos, uni).0 == Invalid
  {
  }

  /** How a run of slots that breaks off, or is complete, ends. */
  lemma ParseRun(dir: seq<DirEnt>, pos: nat, n: nat, checksum: byte, m: nat, uni: seq<Unit>, ws: seq<bv8>)
    requires RunAt(dir, pos, n, checksum, m) && |uni| >= BUFFER
    requires pos + m < |dir| ==> ByWords(dir[pos + m][..11], ws)
    ensures var r := Parse(dir, pos, uni).0;
            if pos + m == |dir| then r == EndOfDir
            else
              var e := dir[pos + m];
              if m < n then
                if e[11] != 0x0F then r == NotLongName
                else (e[13] == checksum && e[0] in {n - m, n - m + 64}) || r == Parse(dir, pos + m, uni).0
              else if e[0] == 0xE5 then r == Invalid
              else if e[11] == 0x0F then r == Parse(dir, pos + m, uni).0
              else if e[0] == 0 || e[11] / 8 % 2 == 1 then r == Invalid
              else r == Found(if ws[10] as int == checksum then n else 0, pos + m)
  {
    hide Store, Checksum;
    var u := ReadRun(dir, pos, n, checksum, m, uni);
    var u' := Store(u, n - m, dir[pos + m - 1]);
    if pos + m < |dir| {
      SameAnswer(dir, pos + m, u', uni);
      ChecksumIs(dir[pos + m][..11], ws);
    }
  }

  /** The characters of a slot, and a terminator after the last slot, go to the place that the number says. */
  lemma StoreBytes(uni: seq<Unit>, slot: nat, e: DirEnt)
    requires slot < 20 && |uni| >= 261
    ensures var u := Store(uni, slot, e);
            && (forall j :: 0 <= j < 13 ==>
                  u[slot * 13 + j] == e[CharAt(j)] as int + 256 * e[CharAt(j) + 1] as int)
            && (forall k :: 0 <= k < slot * 13 || slot * 13 + 13 < k < |uni| ==> u[k] == uni[k])
            && u[slot * 13 + 13] == if e[0] / 64 % 2 == 1 then 0 else uni[slot * 13 + 13]
  {
    hide SlotUnits, CharAt;
    forall j | 0 <= j < 13 ensures SlotUnits(e)[j] == e[CharAt(j)] as int + 256 * e[CharAt(j) + 1] as int {
      SlotChars(e, j);
    }
    StoredUnits(uni, slot * UNITS, SlotUnits(e));
    assert forall j :: 0 <= j < 13 ==> Store(uni, slot, e)[slot * 13 + j] == SlotUnits(e)[j];
  }

  // ---- bad characters ---------------------------------------------------------------------------------------

  predicate BadChar(u: Unit) {
    u < 0x20 || u in {'*' as int, '?' as int, '<' as int, '>' as int, '|' as int,
                      '"' as int, ':' as int, '/' as int, '\\' as int}
  }

  /** Whether a name can be stored: no bad character, and no space at the end. */
  method UsesBadChars(name: seq<Unit>) returns (bad: bool)
    requires name != []
    ensures bad <==> (exists u :: u in name && BadChar(u)) || name[|name| - 1] == ' ' as int
    ensures bad <==> name[|name| - 1] == 32
                     || exists u :: u in name && (u < 32 || u in {42, 63, 60, 62, 124, 34, 58, 47, 92})
    ensures !bad ==> forall u :: u in name ==> u != 0
  {
    for i := 0 to |name|
      invariant forall k :: 0 <= k < i ==> !BadChar(name[k])
    {
      if BadChar(name[i]) {
        return true;
      }
    }
    bad := name[|name| - 1] == ' ' as int;
  }
}
