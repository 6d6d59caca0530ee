/** The inode record of main.c:8-13 and the validity test that load applies
    to it (main.c:43-46). */
module Inodes {
  import opened Bytes

  /** Number of slots in the global table (main.c:15). */
  const Capacity: nat := 1024
  /** Size of the name field, terminator included (main.c:12). */
  const NameSize: nat := 32
  const DirKind: byte := 100   // 'd'
  const FileKind: byte := 102  // 'f'

  /** The raw 32-byte name field, NUL padding and whatever follows it included. */
  type Name = s: seq<byte> | |s| == NameSize witness seq(NameSize, _ => Nul)

  /** One record, field for field as the program stores it: its id, its
      parent's id, its type byte and its name field. */
  datatype Inode = Inode(inode: u32, parentInode: u32, kind: byte, name: Name)

  /** A slot of the zero-initialised global array before anything is loaded. */
  const Blank: Inode := Inode(0, 0, 0, seq(NameSize, _ => Nul))

  /** The test load applies to each record read: an id inside the table and a
      type byte of 'd' or 'f'. */
  predicate Admissible(r: Inode)
  {
    r.inode < Capacity && (r.kind == DirKind || r.kind == FileKind)
  }

  /** What every live record satisfies: admissible and terminated by a NUL in
      the last byte of its name field. */
  predicate WellFormed(r: Inode)
  {
    Admissible(r) && r.name[NameSize - 1] == Nul
  }

  /** The name as `strcmp` and `%s` read it: the field up to its first NUL. */
  function NameOf(r: Inode): seq<byte>
  {
    CString(r.name)
  }

  /** The record with its last name byte forced to NUL, as load does. */
  function Terminated(r: Inode): Inode
  {
    r.(name := r.name[NameSize - 1 := Nul])
  }

  /** A name field whose last byte is NUL holds a name of at most 31 bytes. */
  lemma NameOfShort(r: Inode)
    requires r.name[NameSize - 1] == Nul
    ensures |NameOf(r)| < NameSize
  {
  }

  /** Every record's id equals its position: true of tables built only by
      creation, and the condition under which the cursor's two readings (a
      slot index for `cd ..`, an id after `cd name`) agree. */
  predicate DenseIds(s: seq<Inode>)
  {
    forall i | 0 <= i < |s| :: s[i].inode == i
  }
}
