/** The class `FS`: the allocation table, the block array and the working directory,
    with one method per operation. Each method follows the loops and the order of
    writes of the C++ member function it models, and its postcondition says that its
    status code and the new state are those of the matching function in Operations. */
module FileSystem {
  import opened Layout
  import opened Slots
  import opened Table
  import opened Content
  import opened Operations

  class FS {
    const blockSize: nat
    const entriesPerBlock: nat
    /** The in-memory allocation table; it stands for the table block as well. */
    const fat: array<I16>
    /** The block device, owned by the model. */
    const disk: array<Block>
    var currentDirectory: U16

    ghost function Snapshot(): Volume
      reads this, fat, disk
    {
      Volume(blockSize, entriesPerBlock, fat[..], disk[..], currentDirectory)
    }

    ghost predicate Valid()
      reads this, fat, disk
    {
      VolumeOk(Snapshot())
    }

    /** A session on a device that holds `blocks`, whose table block holds `table`. */
    constructor (blockSize: nat, entriesPerBlock: nat, table: seq<I16>, blocks: seq<Block>)
      requires VolumeOk(Volume(blockSize, entriesPerBlock, table, blocks, ROOT_BLOCK))
      ensures Valid() && fresh(fat) && fresh(disk)
      ensures Snapshot() == Volume(blockSize, entriesPerBlock, table, blocks, ROOT_BLOCK)
    {
      this.blockSize := blockSize;
      this.entriesPerBlock := entriesPerBlock;
      fat := new I16[|table|](i requires 0 <= i < |table| => table[i]);
      disk := new Block[|blocks|](i requires 0 <= i < |blocks| => blocks[i]);
      currentDirectory := ROOT_BLOCK;
      new;
      assert fat[..] == table;
      assert disk[..] == blocks;
    }

    /** Reading block `b` as a directory block. */
    function ReadDir(b: nat): (s: seq<DirEntry>)
      requires Valid() && b < disk.Length
      reads this, fat, disk
      ensures |s| == entriesPerBlock && s == SlotsAt(Snapshot(), b)
    {
      SlotsOf(disk[b], entriesPerBlock)
    }

    // -------------------------------------------------------------------------
    // Shared loops

    /** The read loop of cat, cp and append. */
    method ReadData(start: I16, size: nat) returns (ok: bool, data: seq<Byte>)
      requires Valid()
      ensures ReadResult(ok, data) == ReadChain(Snapshot(), start, size)
    {
      ghost var v := Snapshot();
      var block: I16 := start;
      var left: nat := size;
      data := [];
      while block != FAT_EOF && left > 0
        invariant ReadChain(v, start, size) ==
          var r := ReadChain(v, block, left); ReadResult(r.ok, data + r.data)
        decreases left
      {
        if block < 0 || block >= disk.Length {
          assert data + [] == data;
          return false, data;
        }
        var n := Min(left, blockSize);
        assert Shaped(disk[block], blockSize, entriesPerBlock);
        var piece := BytesOf(disk[block], blockSize)[..n];
        ghost var rest := ReadChain(v, fat[block], left - n);
        assert piece == BytesAt(v, block)[..n];
        assert ReadChain(v, block, left) == ReadResult(rest.ok, piece + rest.data);
        assert data + (piece + rest.data) == (data + piece) + rest.data;
        data := data + piece;
        left := left - n;
        block := fat[block];
      }
      ok := true;
      assert data + [] == data;
    }

    /** The allocation loop of create, cp and append, from offset `start` of `data`,
        followed by the linking of what it returns. The result says that linking the
        returned list gives exactly WriteContent's table. */
    method WriteChunks(data: seq<Byte>, start: nat) returns (ok: bool, blocks: seq<nat>)
      requires Valid() && start <= |data|
      modifies disk
      ensures var w := WriteContent(old(Snapshot()), data, start);
        ok == w.ok && disk[..] == w.vol.disk &&
        (forall i :: 0 <= i < |blocks| ==> blocks[i] < fat.Length) &&
        LinkChain(fat[..], blocks) == w.vol.fat &&
        (blocks == [] <==> w.first == NO_BLOCK) &&
        (blocks != [] ==> blocks[0] == w.first) &&
        (ok && start < |data| ==> |blocks| == ChunkCount(|data| - start, blockSize))
      ensures Valid()
    {
      ghost var v := Snapshot();
      ok, blocks := WriteRounds(data, start);
      ghost var b := LowestFree(v.fat, 0);
      if blocks != [] {
        LinkChainCollapse(fat[..], blocks, b);
      }
    }

    /** Each round takes the lowest FREE block, copies up to one block's worth into a
        zeroed buffer and writes it there. The table is not touched, so every round finds
        the same block `b`, and `b` ends up holding the last piece of the data. */
    method WriteRounds(data: seq<Byte>, start: nat) returns (ok: bool, blocks: seq<nat>)
      requires blockSize > 0 && fat.Length == disk.Length && start <= |data|
      modifies disk
      ensures var b := LowestFree(fat[..], 0);
        (!ok ==> blocks == [] && b < 0 && start < |data| && disk[..] == old(disk[..])) &&
        (ok ==> (blocks == [] <==> start == |data|)) &&
        (forall i :: 0 <= i < |blocks| ==> blocks[i] == b) &&
        (blocks == [] ==> disk[..] == old(disk[..])) &&
        (blocks != [] ==>
           0 <= b < fat.Length &&
           |blocks| == ChunkCount(|data| - start, blockSize) &&
           disk[..] == old(disk[..])[b := Data(Pad(LastPiece(data, start, blockSize), blockSize))])
    {
      ghost var d := disk[..];
      ghost var t := fat[..];
      ghost var b := LowestFree(t, 0);
      var piece: seq<Byte> := [];
      ghost var last: Block := ZeroBlock(0);
      blocks := [];
      var left := |data| - start;
      var written := start;
      while left > 0
        invariant fat.Length == disk.Length == |d| && fat[..] == t
        invariant start <= written <= |data| && left == |data| - written
        invariant Progress(data, start, written, |blocks|, piece, blockSize)
        invariant forall i :: 0 <= i < |blocks| ==> blocks[i] == b
        invariant blocks == [] <==> written == start
        invariant blocks != [] ==> 0 <= b < fat.Length && |piece| <= blockSize
        invariant blocks != [] ==> last == Data(Pad(piece, blockSize))
        invariant forall j :: 0 <= j < disk.Length ==>
          disk[j] == if blocks != [] && j == b then last else d[j]
      {
        var free := ScanFree(fat, 0);
        if free < 0 {
          return false, [];
        }
        var blk: nat := free;
        var n := Min(left, blockSize);
        RoundStep(data, start, written, n, |blocks|, piece, blockSize);
        blocks := blocks + [blk];
        piece := data[written..written + n];
        disk[blk] := Data(Pad(piece, blockSize));
        last := disk[blk];
        written := written + n;
        left := left - n;
      }
      ok := true;
      if blocks != [] {
        assert disk[..] == d[b := last];
      } else {
        assert disk[..] == d;
      }
    }

    /** The linking loop of create, cp and append: each listed block points at the
        next, the last one is EOF. */
    method LinkBlocks(bs: seq<nat>)
      requires Valid() && forall i :: 0 <= i < |bs| ==> bs[i] < fat.Length
      modifies fat
      ensures fat[..] == LinkChain(old(fat[..]), bs)
      ensures Valid()
    {
      ghost var t := fat[..];
      var i := 0;
      while i < |bs|
        invariant 0 <= i <= |bs|
        invariant LinkChain(t, bs) == LinkChain(fat[..], bs[i..])
      {
        if i + 1 < |bs| {
          assert bs[i..][1..] == bs[i + 1..];
          fat[bs[i]] := bs[i + 1] as I16;
        } else {
          fat[bs[i]] := FAT_EOF;
        }
        i := i + 1;
      }
    }

    /** The search for the last block of a chain (`while (fat[lastBlock] != FAT_EOF)`). */
    method LastOfChain(head: I16) returns (last: nat)
      requires Valid() && ChainOk(fat[..], head)
      ensures last == Last(Chain(fat[..], head))
    {
      ghost var t := fat[..];
      ghost var c := Chain(t, head);
      ghost var k := 0;
      var cur: I16 := head;
      while fat[cur] != FAT_EOF
        invariant 0 <= k < |c| && cur == c[k]
        invariant k < |c| - 1 ==> t[cur] == c[k + 1] && c[k + 1] >= 0
        decreases |c| - k
      {
        assert t[cur] == fat[cur];
        cur := fat[cur];
        k := k + 1;
      }
      assert t[cur] == fat[cur];
      last := cur;
    }

    // -------------------------------------------------------------------------
    // format

    method Format() returns (code: int)
      requires Valid()
      modifies fat, disk
      ensures (code, Snapshot()) == FormatSpec(old(Snapshot()))
      ensures Valid()
    {
      ghost var v := Snapshot();
      assert |v.fat| == fat.Length == disk.Length;
      fat[ROOT_BLOCK] := FAT_EOF;
      fat[FAT_BLOCK] := FAT_EOF;
      var n := disk.Length;
      var i := 2;
      while i < n
        invariant 2 <= i <= n
        invariant fat[ROOT_BLOCK] == FAT_EOF && fat[FAT_BLOCK] == FAT_EOF
        invariant forall j :: 2 <= j < i ==> fat[j] == FAT_FREE
        invariant disk[..] == v.disk
      {
        fat[i] := FAT_FREE;
        i := i + 1;
      }
      var zero := ZeroBlock(blockSize);
      disk[ROOT_BLOCK] := zero;
      i := 2;
      while i < n
        modifies disk
        invariant 2 <= i <= n
        invariant disk[ROOT_BLOCK] == zero && disk[FAT_BLOCK] == v.disk[FAT_BLOCK]
        invariant forall j :: 2 <= j < i ==> disk[j] == zero
      {
        disk[i] := zero;
        i := i + 1;
      }
      code := 0;
      ghost var w := FormatSpec(v).1;
      forall j | 0 <= j < fat.Length
        ensures fat[..][j] == w.fat[j]
      {
        if j >= 2 {
          assert fat[j] == FAT_FREE;
        }
      }
      assert fat[..] == w.fat;
      forall j | 0 <= j < disk.Length
        ensures disk[..][j] == w.disk[j]
      {
        if j >= 2 {
          assert disk[j] == zero;
        }
      }
      assert disk[..] == w.disk;
    }

    // -------------------------------------------------------------------------
    // create

    /** `content` is what the code reads from standard input. */
    method Create(name: string, content: seq<Byte>) returns (code: int)
      requires Valid()
      modifies fat, disk
      ensures (code, Snapshot()) == CreateSpec(old(Snapshot()), name, content)
      ensures Valid()
    {
      if |name| >= NAME_LIMIT {
        return 1;
      }
      if currentDirectory >= disk.Length {
        return 8;
      }
      var slots := ReadDir(currentDirectory);
      var dup := FindFirst(slots, Named(name));
      if dup >= 0 {
        return 3;
      }
      var ok, blocks := WriteChunks(content, 0);
      if !ok {
        return 5;
      }
      LinkBlocks(blocks);
      var first: U16 := if |blocks| == 0 then NO_BLOCK else blocks[0];
      var k := FindFirst(slots, Vacant);
      if k < 0 {
        return 9;
      }
      disk[currentDirectory] := Dir(slots[k := FileRecord(name, |content|, first)]);
      return 0;
    }

    // -------------------------------------------------------------------------
    // cat

    /** `out` is everything cat prints before its final newline. */
    method Cat(name: string) returns (code: int, out: seq<Byte>)
      requires Valid()
      ensures (code, out) == CatSpec(Snapshot(), name)
    {
      if currentDirectory >= disk.Length {
        return 1, [];
      }
      var slots := ReadDir(currentDirectory);
      var i := FindFirst(slots, Named(name));
      if i < 0 {
        return 2, [];
      }
      if slots[i].kind == Directory {
        return 3, [];
      }
      var ok;
      ok, out := ReadData(AsInt16(slots[i].firstBlk), slots[i].size);
      code := if ok then 0 else 5;
    }

    // -------------------------------------------------------------------------
    // ls

    /** The records ls prints, in slot order. */
    method Ls() returns (code: int, listing: seq<DirEntry>)
      requires Valid()
      ensures (code, listing) == LsSpec(Snapshot())
    {
      if currentDirectory >= disk.Length {
        return 1, [];
      }
      var slots := ReadDir(currentDirectory);
      var atRoot := currentDirectory == ROOT_BLOCK;
      listing := [];
      var i := 0;
      while i < |slots|
        invariant 0 <= i <= |slots|
        invariant listing == Visible(slots, i, atRoot)
      {
        if slots[i].name != [] && (atRoot || i != 0) {
          listing := listing + [slots[i]];
        } else {
          assert listing == listing + [];
        }
        i := i + 1;
      }
      code := 0;
    }

    // -------------------------------------------------------------------------
    // cp

    method Cp(src: string, dst: string) returns (code: int)
      requires Valid()
      modifies fat, disk
      ensures (code, Snapshot()) == CpSpec(old(Snapshot()), src, dst)
      ensures Valid()
    {
      if |dst| >= NAME_LIMIT {
        return 1;
      }
      if |src| >= NAME_LIMIT {
        return 2;
      }
      if currentDirectory >= disk.Length {
        return 3;
      }
      var slots := ReadDir(currentDirectory);
      var si := FindLast(slots, Named(src));
      var di := FindLast(slots, Named(dst));
      if si < 0 {
        return 4;
      }
      var ok, data := ReadData(AsInt16(slots[si].firstBlk), slots[si].size);
      if !ok {
        return 6;
      }
      var blocks;
      ok, blocks := WriteChunks(data, 0);
      if !ok {
        return 7;
      }
      LinkBlocks(blocks);
      var first: U16 := if |blocks| == 0 then NO_BLOCK else blocks[0];
      code := StoreCopy(slots, di, src, dst, |data|, first);
    }

    /** The end of cp once the copy's blocks are written and linked. */
    method StoreCopy(slots: seq<DirEntry>, di: int, src: string, dst: string, size: nat, first: U16) returns (code: int)
      requires Valid() && currentDirectory < disk.Length && |slots| == entriesPerBlock && -1 <= di < |slots|
      modifies disk
      ensures (code, Snapshot()) == CpStore(old(Snapshot()), slots, di, src, dst, size, first)
      ensures Valid()
    {
      var intoDir := di >= 0 && slots[di].kind == Directory;
      var newName := if intoDir then src else dst;
      if newName == PARENT_NAME {
        return 10;
      }
      var entry := FileRecord(newName, size, first);
      if intoDir {
        var d := slots[di].firstBlk;
        if d >= disk.Length {
          return 12;
        }
        var sub := ReadDir(d);
        code := PlaceEntry(d, sub, entry, 14, 15);
      } else {
        code := PlaceEntry(currentDirectory, slots, entry, 17, 18);
      }
    }

    /** The duplicate check, the free-slot search and the write-back at the end of cp. */
    method PlaceEntry(d: nat, s: seq<DirEntry>, entry: DirEntry, dupCode: int, fullCode: int) returns (code: int)
      requires Valid() && d < disk.Length && |s| == entriesPerBlock
      modifies disk
      ensures (code, Snapshot()) == Place(old(Snapshot()), d, s, entry, dupCode, fullCode)
      ensures Valid()
    {
      var dup := FindFirst(s, Named(entry.name));
      if dup >= 0 {
        return dupCode;
      }
      var k := FindFirst(s, Vacant);
      if k < 0 {
        return fullCode;
      }
      disk[d] := Dir(s[k := entry]);
      return 0;
    }

    // -------------------------------------------------------------------------
    // mv

    method Mv(src: string, dst: string) returns (code: int)
      requires Valid()
      modifies disk
      ensures (code, Snapshot()) == MvSpec(old(Snapshot()), src, dst)
      ensures Valid()
    {
      if src == dst {
        return 0;
      }
      if |dst| >= NAME_LIMIT {
        return 1;
      }
      if currentDirectory >= disk.Length {
        return 2;
      }
      var slots := ReadDir(currentDirectory);
      var si := FindLast(slots, Named(src));
      var di := FindLast(slots, Named(dst));
      if si < 0 {
        return 2;
      }
      if di >= 0 && slots[di].kind == Directory {
        var d := slots[di].firstBlk;
        if d >= disk.Length {
          return 4;
        }
        var sub := ReadDir(d);
        var k := FindFirst(sub, Vacant);
        if k < 0 {
          return 5;
        }
        var moved := slots[si];
        slots := slots[si := EMPTY_ENTRY];
        disk[d] := Dir(sub[k := moved]);
        disk[currentDirectory] := Dir(slots);
        return 0;
      }
      if di >= 0 {
        return 8;
      }
      disk[currentDirectory] := Dir(slots[si := slots[si].(name := dst)]);
      return 0;
    }

    // -------------------------------------------------------------------------
    // rm

    method Rm(name: string) returns (code: int)
      requires Valid() && RmAllowed(Snapshot(), name)
      modifies fat, disk
      ensures (code, Snapshot()) == RmSpec(old(Snapshot()), name)
      ensures Valid()
    {
      if currentDirectory >= disk.Length {
        return 1;
      }
      var slots := ReadDir(currentDirectory);
      var i := FindFirst(slots, Named(name));
      if i < 0 {
        return 2;
      }
      var e := slots[i];
      if e.kind == Directory {
        if e.firstBlk >= disk.Length {
          return 3;
        }
        var sub := ReadDir(e.firstBlk);
        var empty := CheckEmpty(sub);
        if !empty {
          return 4;
        }
      }
      FreeChain(AsInt16(e.firstBlk));
      disk[currentDirectory] := Dir(slots[i := EMPTY_ENTRY]);
      return 0;
    }

    /** rm's walk from the removed record's first block: read the entry, set it FREE,
        go on with what was read. */
    method FreeChain(head: I16)
      requires Valid() && FreeEnds(fat[..], head)
      modifies fat
      ensures fat[..] == FreeLoop(old(fat[..]), head)
      ensures Valid()
    {
      var cur: I16 := head;
      while cur != FAT_EOF
        invariant Valid()
        invariant FreeEnds(fat[..], cur)
        invariant FreeLoop(fat[..], cur) == FreeLoop(old(fat[..]), head)
        decreases UsedBlocks(fat[..]), if cur == 0 then 0 else 1
      {
        ghost var before := fat[..];
        var next := fat[cur];
        if next != FAT_FREE {
          UsedShrinks(before, cur);
        }
        fat[cur] := FAT_FREE;
        assert fat[..] == before[cur := FAT_FREE];
        cur := next;
      }
    }

    // -------------------------------------------------------------------------
    // append (always in the root directory)

    method Append(src: string, dst: string) returns (code: int)
      requires Valid() && AppendAllowed(Snapshot(), src, dst)
      modifies fat, disk
      ensures (code, Snapshot()) == AppendSpec(old(Snapshot()), src, dst)
      ensures Valid()
    {
      ghost var v := Snapshot();
      var root := ReadDir(ROOT_BLOCK);
      var si := FindLast(root, Named(src));
      var di := FindLast(root, Named(dst));
      if si < 0 {
        return 2;
      }
      if di < 0 {
        return 3;
      }
      var ok, data := ReadData(AsInt16(root[si].firstBlk), root[si].size);
      if !ok {
        return 5;
      }
      if |data| == 0 {
        return 0;
      }
      code := AppendBytes(root, di, data);
    }

    /** append once a non-empty source has been read. */
    method AppendBytes(root: seq<DirEntry>, di: nat, data: seq<Byte>) returns (code: int)
      requires Valid() && |root| == entriesPerBlock && di < |root| && |data| > 0
      requires root[di].firstBlk != NO_BLOCK ==> ChainOk(fat[..], AsInt16(root[di].firstBlk))
      modifies fat, disk
      ensures (code, Snapshot()) == Operations.AppendBytes(old(Snapshot()), root, di, data)
      ensures Valid()
    {
      ghost var v := Snapshot();
      var dest := root[di];
      var taken := FillLastBlock(dest, data);
      ghost var f := FillLast(v, dest, data);
      var ok, blocks := WriteChunks(data, taken);
      if !ok {
        return 7;
      }
      LinkBlocks(blocks);
      ghost var w := WriteContent(f.vol, data, taken);
      assert Snapshot() == w.vol;
      if dest.firstBlk != NO_BLOCK && |blocks| > 0 {
        ChainCut(v.fat, AsInt16(dest.firstBlk), w.first);
      }
      var first := HookNewBlock(dest, blocks);
      assert Snapshot() == Attach(dest, w);
      disk[ROOT_BLOCK] := Dir(root[di := dest.(size := dest.size + |data|, firstBlk := first)]);
      return 0;
    }

    /** The new block becomes the destination's first block when it had none; otherwise
        it is linked behind the destination's last block. */
    method HookNewBlock(dest: DirEntry, blocks: seq<nat>) returns (first: U16)
      requires Valid() && forall i :: 0 <= i < |blocks| ==> blocks[i] < fat.Length
      requires dest.firstBlk == NO_BLOCK ==> |blocks| > 0
      requires dest.firstBlk != NO_BLOCK && |blocks| > 0 ==> ChainOk(fat[..], AsInt16(dest.firstBlk))
      modifies fat
      ensures first == if dest.firstBlk == NO_BLOCK then blocks[0] else dest.firstBlk
      ensures fat[..] ==
        if dest.firstBlk == NO_BLOCK || |blocks| == 0 then old(fat[..])
        else old(fat[..])[Last(Chain(old(fat[..]), AsInt16(dest.firstBlk))) := blocks[0] as I16]
      ensures Valid()
    {
      first := dest.firstBlk;
      if dest.firstBlk == NO_BLOCK {
        first := blocks[0];
      } else if |blocks| > 0 {
        var last := LastOfChain(AsInt16(dest.firstBlk));
        fat[last] := blocks[0] as I16;
      }
    }

    /** append's first step: when the destination's last block is partly used, copy as
        much of `data` as fits behind the used part. */
    method FillLastBlock(dest: DirEntry, data: seq<Byte>) returns (taken: nat)
      requires Valid()
      requires dest.firstBlk != NO_BLOCK ==> ChainOk(fat[..], AsInt16(dest.firstBlk))
      modifies disk
      ensures var f := FillLast(old(Snapshot()), dest, data);
        Snapshot() == f.vol && taken == f.taken
      ensures Valid()
    {
      taken := 0;
      if dest.firstBlk != NO_BLOCK {
        var last := LastOfChain(AsInt16(dest.firstBlk));
        var used := dest.size % blockSize;
        if used != 0 && |data| > 0 {
          assert Shaped(disk[last], blockSize, entriesPerBlock);
          var bytes := BytesOf(disk[last], blockSize);
          taken := Min(|data|, blockSize - used);
          disk[last] := Data(FillTail(bytes, used, data[..taken]));
        }
      }
    }

    // -------------------------------------------------------------------------
    // mkdir

    method Mkdir(name: string) returns (code: int)
      requires Valid()
      modifies fat, disk
      ensures (code, Snapshot()) == MkdirSpec(old(Snapshot()), name)
      ensures Valid()
    {
      if |name| >= NAME_LIMIT {
        return 1;
      }
      if currentDirectory >= disk.Length {
        return 2;
      }
      var slots := ReadDir(currentDirectory);
      var dup := FindFirst(slots, Named(name));
      if dup >= 0 {
        return 3;
      }
      var room := FindFirst(slots, Vacant);
      if room < 0 {
        return 4;
      }
      var b := ScanFree(fat, 2);
      if b < 0 {
        return 6;
      }
      fat[b] := FAT_EOF;
      var sub := EmptySlots(entriesPerBlock)[0 := DirEntry(PARENT_NAME, 0, currentDirectory, Directory, RWX)];
      disk[b] := Dir(sub);
      var k := FindFirst(slots, Vacant);
      if k >= 0 {
        disk[currentDirectory] := Dir(slots[k := DirEntry(name, 0, b, Directory, RWX)]);
      }
      return 0;
    }

    // -------------------------------------------------------------------------
    // cd

    method Cd(name: string) returns (code: int)
      requires Valid()
      modifies this
      ensures (code, Snapshot()) == CdSpec(old(Snapshot()), name)
      ensures Valid()
    {
      if name == PARENT_NAME {
        if currentDirectory == ROOT_BLOCK {
          return 0;
        }
        if currentDirectory >= disk.Length {
          return 1;
        }
        var here := ReadDir(currentDirectory);
        currentDirectory := here[0].firstBlk;
        return 0;
      }
      if currentDirectory >= disk.Length {
        return 2;
      }
      var slots := ReadDir(currentDirectory);
      var i := FindFirst(slots, DirNamed(name));
      if i < 0 {
        return 3;
      }
      currentDirectory := slots[i].firstBlk;
      return 0;
    }

    // -------------------------------------------------------------------------
    // pwd

    /** `out` is the line pwd prints, without its newline. */
    method Pwd() returns (code: int, out: string)
      requires Valid() && PwdAllowed(Snapshot())
      ensures (code, out) == PwdSpec(Snapshot())
    {
      if currentDirectory == ROOT_BLOCK {
        return 0, "/";
      }
      var path;
      code, path := ClimbToRoot();
      if code != 0 {
        return code, "";
      }
      out := RenderPath(path);
    }

    /** pwd's first loop: from the working directory up to the root, one name per level. */
    method ClimbToRoot() returns (code: int, path: seq<string>)
      requires Valid() && PwdAllowed(Snapshot())
      ensures Climb(Snapshot(), currentDirectory, disk.Length) ==
        if code == 0 then Reached(path) else Failed(code)
    {
      ghost var v := Snapshot();
      path := [];
      var current: int := currentDirectory;
      ghost var fuel: nat := disk.Length;
      while current != ROOT_BLOCK
        invariant !Climb(v, current, fuel).Stuck?
        invariant Climb(v, v.cwd, |v.disk|) == Prefix(path, Climb(v, current, fuel))
        decreases fuel
      {
        if current < 0 || current >= disk.Length {
          assert Climb(v, current, fuel) == Failed(1);
          return 1, path;
        }
        var here := ReadDir(current);
        var parent := here[0].firstBlk;
        if parent >= disk.Length {
          assert Climb(v, current, fuel) == Failed(2);
          return 2, path;
        }
        var ps := ReadDir(parent);
        var i := FindFirst(ps, DirAt(current));
        var name := if i < 0 then "" else ps[i].name;
        assert name == LevelName(v, current, parent);
        PrefixPrefix(path, [name], Climb(v, parent, fuel - 1));
        path := path + [name];
        current := parent;
        fuel := fuel - 1;
      }
      assert path + [] == path;
      code := 0;
    }
  }

  /** pwd's second loop: the collected names from the last to the first, after a "/"
      and separated by "/". */
  method RenderPath(path: seq<string>) returns (out: string)
    ensures out == "/" + JoinPath(Reverse(path))
  {
    ghost var rev := Reverse(path);
    out := "/";
    var i := |path| - 1;
    while i >= 0
      invariant -1 <= i < |path|
      invariant out == RenderPrefix(rev, |path| - 1 - i)
    {
      assert rev[|path| - 1 - i] == path[i];
      out := out + path[i];
      if i != 0 {
        out := out + "/";
      }
      i := i - 1;
    }
    if |path| > 0 {
      RenderPrefixJoins(rev, |path|);
      assert rev[..|path|] == rev;
    }
  }
}
