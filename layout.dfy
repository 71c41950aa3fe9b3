/** On-volume layout: block indices, table values, directory records and blocks. */
module Layout {

  /** A byte of file content. */
  type Byte = x: int | 0 <= x < 0x100

  /** A table entry as the code stores it: a signed 16-bit value. */
  type I16 = x: int | -0x8000 <= x < 0x8000

  /** The `first_blk` field of a directory record: an unsigned 16-bit value. */
  type U16 = x: int | 0 <= x < 0x1_0000

  /** Block 0 holds the root directory, block 1 the allocation table. */
  const ROOT_BLOCK: nat := 0
  const FAT_BLOCK: nat := 1

  /** Table entries: free, end of chain, or the index of the next block. */
  const FAT_FREE: I16 := 0
  const FAT_EOF: I16 := -1

  /** `first_blk` of a file that owns no block; read as I16 it is FAT_EOF. */
  const NO_BLOCK: U16 := 0xFFFF

  /** Names of this length or longer are refused (55 characters fit). */
  const NAME_LIMIT: nat := 56

  /** Access-right bits stored in records; the operations never consult them. */
  const READ: nat := 4
  const WRITE: nat := 2
  const EXECUTE: nat := 1

  const PARENT_NAME: string := ".."

  datatype EntryType = File | Directory

  /** One fixed-size directory record. A slot is free when its name is empty. */
  datatype DirEntry = DirEntry(name: string, size: nat, firstBlk: U16, kind: EntryType, rights: nat)

  /** An all-zero record. */
  const EMPTY_ENTRY: DirEntry := DirEntry([], 0, 0, File, 0)

  /** A block, as last written: raw bytes, or an array of directory records. */
  datatype Block = Data(bytes: seq<Byte>) | Dir(slots: seq<DirEntry>)

  function Zeros(n: nat): (z: seq<Byte>)
    ensures |z| == n
    ensures forall i :: 0 <= i < n ==> z[i] == 0
  {
    seq(n, _ => 0)
  }

  /** A block buffer that was zero-initialised and then had `s` copied to its start. */
  function Pad(s: seq<Byte>, n: nat): (r: seq<Byte>)
    requires |s| <= n
    ensures |r| == n && r[..|s|] == s
    ensures forall i :: |s| <= i < n ==> r[i] == 0
  {
    s + Zeros(n - |s|)
  }

  function ZeroBlock(blockSize: nat): Block {
    Data(Zeros(blockSize))
  }

  function EmptySlots(entries: nat): (s: seq<DirEntry>)
    ensures |s| == entries
    ensures forall i :: 0 <= i < entries ==> s[i] == EMPTY_ENTRY
  {
    seq(entries, _ => EMPTY_ENTRY)
  }

  /** A block read as bytes; a directory block reads as zeros in this model. */
  function BytesOf(b: Block, blockSize: nat): seq<Byte> {
    match b
    case Data(bytes) => bytes
    case Dir(_) => Zeros(blockSize)
  }

  /** A block read as records; a data block reads as empty slots in this model. */
  function SlotsOf(b: Block, entries: nat): seq<DirEntry> {
    match b
    case Dir(slots) => slots
    case Data(_) => EmptySlots(entries)
  }

  /** Every view of the block has the volume's fixed size. */
  predicate Shaped(b: Block, blockSize: nat, entries: nat) {
    match b
    case Data(bytes) => |bytes| == blockSize
    case Dir(slots) => |slots| == entries
  }

  /** `static_cast<int16_t>` of an unsigned 16-bit value. */
  function AsInt16(x: U16): (r: I16)
    ensures r == FAT_EOF <==> x == NO_BLOCK
    ensures 0 <= x < 0x8000 ==> r == x
  {
    if x < 0x8000 then x else x - 0x1_0000
  }
}
