/** Object identifiers and on-flash addresses of BilbyFs. */
module ObjectId {

  const TWO32: nat := 0x1_0000_0000
  const TWO64: nat := 0x1_0000_0000_0000_0000

  /** A 64-bit id: inode number (32 bits), type (3 bits), name hash or block index (29 bits). */
  type ObjId = i: int | 0 <= i < TWO64

  /** What the index answers when there is no next id. */
  const NIL_ID: ObjId := TWO64 - 1

  function Inum(id: ObjId): nat {
    id / TWO32
  }

  /** The type field shares its numbering with the object types. */
  function TypeField(id: ObjId): nat {
    id / 0x2000_0000 % 8
  }

  const DENTARR_TYPE: nat := 2

  /** The ids that inode, data and directory-entry-array objects carry. */
  predicate IndexedType(id: ObjId) {
    TypeField(id) <= DENTARR_TYPE
  }

  lemma NilIsNotIndexed()
    ensures !IndexedType(NIL_ID)
  {
  }

  /** The id of an inode, of a block of its data, and of a directory entry array with a name hash. */
  function InodeId(ino: nat): ObjId
    requires ino < 0x1_0000_0000
  {
    ino * 0x1_0000_0000
  }

  function DataId(ino: nat, block: nat): ObjId
    requires ino < 0x1_0000_0000 && block < 0x2000_0000
  {
    ino * 0x1_0000_0000 + 1 * 0x2000_0000 + block
  }

  function DentarrId(ino: nat, hash: nat): ObjId
    requires ino < 0x1_0000_0000 && hash < 0x2000_0000
  {
    ino * 0x1_0000_0000 + 2 * 0x2000_0000 + hash
  }

  /** What these ids say. */
  lemma FieldsOf(ino: nat, ty: nat, rest: nat)
    requires ino < 0x1_0000_0000 && ty < 3 && rest < 0x2000_0000
    ensures var id := ino * 0x1_0000_0000 + ty * 0x2000_0000 + rest;
            0 <= id < TWO64 && Inum(id) == ino && TypeField(id) == ty && IndexedType(id)
  {
    var id := ino * 0x1_0000_0000 + ty * 0x2000_0000 + rest;
    assert id / 0x2000_0000 == ino * 8 + ty;
  }

  /** An indexed id is made in one of the three ways. */
  lemma MadeOf(id: ObjId) returns (ino: nat, ty: nat, rest: nat)
    requires IndexedType(id)
    ensures ino < 0x1_0000_0000 && ty < 3 && rest < 0x2000_0000
    ensures id == ino * 0x1_0000_0000 + ty * 0x2000_0000 + rest
  {
    var q := id / 0x2000_0000;
    ino, ty, rest := q / 8, q % 8, id % 0x2000_0000;
    assert q == ino * 8 + ty && id == q * 0x2000_0000 + rest;
  }

  /** The ids of an inode. */
  lemma SameInode(ino: nat, id: ObjId)
    ensures Inum(id) == ino <==> ino * 0x1_0000_0000 <= id < (ino + 1) * 0x1_0000_0000
  {
  }

  datatype Addr = Addr(lnum: nat, offs: nat, len: nat, sqnum: nat)
}
