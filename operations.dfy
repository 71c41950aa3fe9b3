/** The file-system operations as functions from a volume to a status code and a new volume.
    Each function is the net effect of one member function of the C++ class `FS`,
    including its error codes and the order in which it writes blocks. */
module Operations {
  import opened Layout
  import opened Slots
  import opened Table
  import opened Content

  /** The whole persistent state: geometry, the allocation table, the blocks, and the
      working directory. The table block on the device is represented by `fat`. */
  datatype Volume = Volume(blockSize: nat, entries: nat, fat: seq<I16>, disk: seq<Block>, cwd: U16)

  /** Geometry and shape: the table has one entry per block, every block has the fixed
      size, and every block index fits the signed 16-bit table entries. */
  predicate VolumeOk(v: Volume) {
    v.blockSize > 0 && v.entries > 0 &&
    |v.fat| == |v.disk| && 2 <= |v.disk| <= 0x8000 &&
    forall i :: 0 <= i < |v.disk| ==> Shaped(v.disk[i], v.blockSize, v.entries)
  }

  /** Same geometry and working directory; only the table and the blocks may differ. */
  predicate SameFrame(v: Volume, w: Volume) {
    w.blockSize == v.blockSize && w.entries == v.entries &&
    |w.fat| == |v.fat| && |w.disk| == |v.disk| && w.cwd == v.cwd
  }

  const RWX: nat := READ + WRITE + EXECUTE

  /** Block `b` read as records (a read of an index off the device fails instead). */
  function SlotsAt(v: Volume, b: int): (s: seq<DirEntry>)
    requires VolumeOk(v) && 0 <= b < |v.disk|
    ensures |s| == v.entries
  {
    SlotsOf(v.disk[b], v.entries)
  }

  /** Block `b` read as bytes. */
  function BytesAt(v: Volume, b: int): (s: seq<Byte>)
    requires VolumeOk(v) && 0 <= b < |v.disk|
    ensures |s| == v.blockSize
  {
    BytesOf(v.disk[b], v.blockSize)
  }

  /** The volume after block `b` has been written as a directory block. */
  function PutDir(v: Volume, b: int, s: seq<DirEntry>): (w: Volume)
    requires VolumeOk(v) && 0 <= b < |v.disk| && |s| == v.entries
    ensures VolumeOk(w) && SameFrame(v, w) && w.fat == v.fat
  {
    v.(disk := v.disk[b := Dir(s)])
  }

  // ---------------------------------------------------------------------------
  // Reading and writing file content

  datatype ReadResult = ReadResult(ok: bool, data: seq<Byte>)

  /** The read loop shared by cat, cp and append: follow the table from `b`, taking at
      most one block's worth per block, until EOF or until `left` bytes are taken.
      A block index off the device is a failed read; what was taken before it is kept. */
  function ReadChain(v: Volume, b: int, left: nat): (r: ReadResult)
    requires VolumeOk(v)
    ensures |r.data| <= left
    decreases left
  {
    if b == FAT_EOF || left == 0 then ReadResult(true, [])
    else if b < 0 || b >= |v.disk| then ReadResult(false, [])
    else
      var n := Min(left, v.blockSize);
      var rest := ReadChain(v, v.fat[b], left - n);
      ReadResult(rest.ok, BytesAt(v, b)[..n] + rest.data)
  }

  /** What the allocation loops of create, cp and append leave behind. */
  datatype Written = Written(ok: bool, vol: Volume, first: U16)

  /** Write `data[start..]` into newly allocated blocks and link them. The code searches
      the table for the lowest FREE block on every round but marks nothing until the
      linking loop, so every round picks the same block `b`: each round overwrites `b`,
      and the chain that the linking loop leaves is `b -> EOF`. */
  function WriteContent(v: Volume, data: seq<Byte>, start: nat): (w: Written)
    requires VolumeOk(v) && start <= |data|
    ensures VolumeOk(w.vol) && SameFrame(v, w.vol)
    ensures !w.ok ==> w.vol == v
    ensures w.first == NO_BLOCK || w.first < |v.fat|
    ensures start == |data| ==> w.ok && w.vol == v && w.first == NO_BLOCK
    ensures w.ok && start < |data| ==>
      var b := LowestFree(v.fat, 0);
      w.first == b && v.fat[b] == FAT_FREE && w.vol.fat == v.fat[b := FAT_EOF] &&
      w.vol.disk == v.disk[b := Data(Pad(LastPiece(data, start, v.blockSize), v.blockSize))]
  {
    if start == |data| then Written(true, v, NO_BLOCK)
    else
      var b := LowestFree(v.fat, 0);
      if b < 0 then Written(false, v, NO_BLOCK)
      else
        var piece := Pad(LastPiece(data, start, v.blockSize), v.blockSize);
        Written(true, v.(fat := v.fat[b := FAT_EOF], disk := v.disk[b := Data(piece)]), b)
  }

  /** The record create and cp write: a file with READ|WRITE rights, found by its
      name and never taken for a directory by cd or pwd. */
  function FileRecord(name: string, size: nat, first: U16): (e: DirEntry)
    ensures e.kind == File && e.rights == READ + WRITE
    ensures e.name == name && e.size == size && e.firstBlk == first
    ensures name != [] ==> Hits(Named(name), e)
    ensures forall q: Query :: (q.DirNamed? || q.DirAt?) ==> !Hits(q, e)
  {
    DirEntry(name, size, first, File, READ + WRITE)
  }

  // ---------------------------------------------------------------------------
  // format

  /** Table: root and table blocks EOF, all others FREE. Blocks: all zero except the
      table's own block, which the model keeps in `fat`. */
  function FormatSpec(v: Volume): (r: (int, Volume))
    requires VolumeOk(v)
    ensures r.0 == 0 && VolumeOk(r.1) && SameFrame(v, r.1)
  {
    var t := seq(|v.fat|, (i: int) requires 0 <= i < |v.fat| =>
      if i == ROOT_BLOCK || i == FAT_BLOCK then FAT_EOF else FAT_FREE);
    var d := seq(|v.disk|, (i: int) requires 0 <= i < |v.disk| =>
      if i == FAT_BLOCK then v.disk[i] else ZeroBlock(v.blockSize));
    forall i | 0 <= i < |d|
      ensures Shaped(d[i], v.blockSize, v.entries)
    {
      if i == FAT_BLOCK {
        assert d[i] == v.disk[i];
      } else {
        assert d[i] == ZeroBlock(v.blockSize);
        assert |Zeros(v.blockSize)| == v.blockSize;
      }
    }
    (0, v.(fat := t, disk := d))
  }

  // ---------------------------------------------------------------------------
  // create

  function CreateSpec(v: Volume, name: string, content: seq<Byte>): (r: (int, Volume))
    requires VolumeOk(v)
    ensures VolumeOk(r.1) && SameFrame(v, r.1)
    ensures r.0 != 0 && r.0 != 9 ==> r.1 == v
  {
    if |name| >= NAME_LIMIT then (1, v)
    else if v.cwd >= |v.disk| then (8, v)
    else
      var slots := SlotsAt(v, v.cwd);
      if FirstIndex(slots, Named(name)) >= 0 then (3, v)
      else
        var w := WriteContent(v, content, 0);
        if !w.ok then (5, v)
        else
          var k := FirstIndex(slots, Vacant);
          if k < 0 then (9, w.vol)
          else (0, PutDir(w.vol, v.cwd, slots[k := FileRecord(name, |content|, w.first)]))
  }

  // ---------------------------------------------------------------------------
  // cat

  /** The bytes cat prints, and its status. */
  function CatSpec(v: Volume, name: string): (r: (int, seq<Byte>))
    requires VolumeOk(v)
    ensures r.0 != 0 && r.0 != 5 ==> r.1 == []
  {
    if v.cwd >= |v.disk| then (1, [])
    else
      var slots := SlotsAt(v, v.cwd);
      var i := FirstIndex(slots, Named(name));
      if i < 0 then (2, [])
      else if slots[i].kind == Directory then (3, [])
      else
        var rd := ReadChain(v, AsInt16(slots[i].firstBlk), slots[i].size);
        (if rd.ok then 0 else 5, rd.data)
  }

  // ---------------------------------------------------------------------------
  // ls

  /** The used slots among the first `n`, in slot order; slot 0 is skipped outside the
      root directory. */
  function Visible(s: seq<DirEntry>, n: nat, atRoot: bool): (r: seq<DirEntry>)
    requires n <= |s|
    ensures |r| <= n
    ensures forall e :: e in r ==> e.name != []
  {
    if n == 0 then []
    else Visible(s, n - 1, atRoot) + (if s[n - 1].name != [] && (atRoot || n - 1 != 0) then [s[n - 1]] else [])
  }

  function LsSpec(v: Volume): (r: (int, seq<DirEntry>))
    requires VolumeOk(v)
    ensures r.0 == 0 <==> v.cwd < |v.disk|
    ensures r.0 != 0 ==> r.1 == []
    ensures |r.1| <= v.entries && forall e :: e in r.1 ==> e.name != []
  {
    if v.cwd >= |v.disk| then (1, [])
    else
      var slots := SlotsAt(v, v.cwd);
      (0, Visible(slots, |slots|, v.cwd == ROOT_BLOCK))
  }

  // ---------------------------------------------------------------------------
  // cp

  function CpSpec(v: Volume, src: string, dst: string): (r: (int, Volume))
    requires VolumeOk(v)
    ensures VolumeOk(r.1) && SameFrame(v, r.1)
    ensures r.0 !in {0, 10, 12, 14, 15, 17, 18} ==> r.1 == v
  {
    if |dst| >= NAME_LIMIT then (1, v)
    else if |src| >= NAME_LIMIT then (2, v)
    else if v.cwd >= |v.disk| then (3, v)
    else
      var slots := SlotsAt(v, v.cwd);
      var si := LastIndex(slots, Named(src));
      var di := LastIndex(slots, Named(dst));
      if si < 0 then (4, v)
      else
        var rd := ReadChain(v, AsInt16(slots[si].firstBlk), slots[si].size);
        if !rd.ok then (6, v)
        else
          var w := WriteContent(v, rd.data, 0);
          if !w.ok then (7, v)
          else
            CpStore(w.vol, slots, di, src, dst, |rd.data|, w.first)
  }

  /** The rest of cp once the copy's blocks are written (`w`): the new record is named
      `src` inside the directory `dst` when `dst` names one, else `dst` in the working
      directory, and is refused when that name is "..". */
  function CpStore(w: Volume, slots: seq<DirEntry>, di: int, src: string, dst: string, size: nat, first: U16): (r: (int, Volume))
    requires VolumeOk(w) && w.cwd < |w.disk| && |slots| == w.entries && -1 <= di < |slots|
    ensures VolumeOk(r.1) && SameFrame(w, r.1) && r.1.fat == w.fat
    ensures r.0 != 0 ==> r.1 == w
  {
    var intoDir := di >= 0 && slots[di].kind == Directory;
    var newName := if intoDir then src else dst;
    if newName == PARENT_NAME then (10, w)
    else
      var entry := FileRecord(newName, size, first);
      if intoDir then
        var d := slots[di].firstBlk;
        if d >= |w.disk| then (12, w)
        else Place(w, d, SlotsAt(w, d), entry, 14, 15)
      else Place(w, w.cwd, slots, entry, 17, 18)
  }

  /** The end of cp: write `entry` into the first free slot of `s` and store `s` as
      block `d`, unless a used slot already has its name (`dupCode`) or no slot is free
      (`fullCode`). For the working directory, `s` is the copy cp read at its start. */
  function Place(w: Volume, d: int, s: seq<DirEntry>, entry: DirEntry, dupCode: int, fullCode: int): (r: (int, Volume))
    requires VolumeOk(w) && 0 <= d < |w.disk| && |s| == w.entries
    ensures VolumeOk(r.1) && SameFrame(w, r.1) && r.1.fat == w.fat
    ensures r.0 != 0 ==> r.1 == w
  {
    if FirstIndex(s, Named(entry.name)) >= 0 then (dupCode, w)
    else
      var k := FirstIndex(s, Vacant);
      if k < 0 then (fullCode, w)
      else (0, PutDir(w, d, s[k := entry]))
  }

  // ---------------------------------------------------------------------------
  // mv

  function MvSpec(v: Volume, src: string, dst: string): (r: (int, Volume))
    requires VolumeOk(v)
    ensures VolumeOk(r.1) && SameFrame(v, r.1) && r.1.fat == v.fat
    ensures r.0 != 0 ==> r.1 == v
  {
    if src == dst then (0, v)
    else if |dst| >= NAME_LIMIT then (1, v)
    else if v.cwd >= |v.disk| then (2, v)
    else
      var slots := SlotsAt(v, v.cwd);
      var si := LastIndex(slots, Named(src));
      var di := LastIndex(slots, Named(dst));
      if si < 0 then (2, v)
      else if di >= 0 && slots[di].kind == Directory then
        var d := slots[di].firstBlk;
        if d >= |v.disk| then (4, v)
        else
          var sub := SlotsAt(v, d);
          var k := FirstIndex(sub, Vacant);
          if k < 0 then (5, v)
          else
            var v1 := PutDir(v, d, sub[k := slots[si]]);
            (0, PutDir(v1, v.cwd, slots[si := EMPTY_ENTRY]))
      else if di >= 0 then (8, v)
      else (0, PutDir(v, v.cwd, slots[si := slots[si].(name := dst)]))
  }

  // ---------------------------------------------------------------------------
  // rm

  /** What rm needs of the volume to terminate: once the record it would remove has
      passed the directory check, rm's freeing loop ends from its first block. */
  predicate RmAllowed(v: Volume, name: string) {
    VolumeOk(v) &&
    (v.cwd < |v.disk| ==>
      var slots := SlotsAt(v, v.cwd);
      var i := FirstIndex(slots, Named(name));
      i >= 0 ==>
        (slots[i].kind == Directory ==>
          slots[i].firstBlk < |v.disk| && DirEmpty(SlotsAt(v, slots[i].firstBlk))) ==>
        FreeEnds(v.fat, AsInt16(slots[i].firstBlk)))
  }

  function RmSpec(v: Volume, name: string): (r: (int, Volume))
    requires RmAllowed(v, name)
    ensures VolumeOk(r.1) && SameFrame(v, r.1)
    ensures r.0 != 0 ==> r.1 == v
  {
    if v.cwd >= |v.disk| then (1, v)
    else
      var slots := SlotsAt(v, v.cwd);
      var i := FirstIndex(slots, Named(name));
      if i < 0 then (2, v)
      else
        var e := slots[i];
        if e.kind == Directory && e.firstBlk >= |v.disk| then (3, v)
        else if e.kind == Directory && !DirEmpty(SlotsAt(v, e.firstBlk)) then (4, v)
        else
          (0, PutDir(v.(fat := FreeLoop(v.fat, AsInt16(e.firstBlk))), v.cwd, slots[i := EMPTY_ENTRY]))
  }

  // ---------------------------------------------------------------------------
  // append (always in the root directory)

  /** The part of the append that fills the unused end of the destination's last block:
      the volume after it and how many bytes it took. */
  datatype Filled = Filled(vol: Volume, taken: nat)

  function LastBlockOf(v: Volume, dest: DirEntry): (b: nat)
    requires VolumeOk(v) && dest.firstBlk != NO_BLOCK && ChainOk(v.fat, AsInt16(dest.firstBlk))
    ensures b < |v.disk|
  {
    Last(Chain(v.fat, AsInt16(dest.firstBlk)))
  }

  function FillLast(v: Volume, dest: DirEntry, data: seq<Byte>): (f: Filled)
    requires VolumeOk(v)
    requires dest.firstBlk != NO_BLOCK ==> ChainOk(v.fat, AsInt16(dest.firstBlk))
    ensures VolumeOk(f.vol) && SameFrame(v, f.vol) && f.vol.fat == v.fat
    ensures f.taken <= |data|
    ensures f.taken > 0 ==>
      (dest.firstBlk != NO_BLOCK && dest.size % v.blockSize != 0 &&
       f.taken == Min(|data|, v.blockSize - dest.size % v.blockSize))
  {
    if dest.firstBlk == NO_BLOCK then Filled(v, 0)
    else
      var used := dest.size % v.blockSize;
      if used == 0 || |data| == 0 then Filled(v, 0)
      else
        var last := LastBlockOf(v, dest);
        var k := Min(|data|, v.blockSize - used);
        var bytes := FillTail(BytesAt(v, last), used, data[..k]);
        Filled(v.(disk := v.disk[last := Data(bytes)]), k)
  }

  /** What append needs to terminate: once it has read a non-empty source, the
      destination's chain (when it has one) is well formed. */
  predicate AppendAllowed(v: Volume, src: string, dst: string) {
    VolumeOk(v) &&
    var root := SlotsAt(v, ROOT_BLOCK);
    var si := LastIndex(root, Named(src));
    var di := LastIndex(root, Named(dst));
    si >= 0 && di >= 0 ==>
      var rd := ReadChain(v, AsInt16(root[si].firstBlk), root[si].size);
      rd.ok && |rd.data| > 0 && root[di].firstBlk != NO_BLOCK ==>
        ChainOk(v.fat, AsInt16(root[di].firstBlk))
  }

  function AppendSpec(v: Volume, src: string, dst: string): (r: (int, Volume))
    requires AppendAllowed(v, src, dst)
    ensures VolumeOk(r.1) && SameFrame(v, r.1)
    ensures r.0 != 0 && r.0 != 7 ==> r.1 == v
  {
    var root := SlotsAt(v, ROOT_BLOCK);
    var si := LastIndex(root, Named(src));
    var di := LastIndex(root, Named(dst));
    if si < 0 then (2, v)
    else if di < 0 then (3, v)
    else
      var rd := ReadChain(v, AsInt16(root[si].firstBlk), root[si].size);
      if !rd.ok then (5, v)
      else if |rd.data| == 0 then (0, v)
      else AppendBytes(v, root, di, rd.data)
  }

  /** append once a non-empty source has been read: fill the destination's last block,
      write the rest to a newly allocated block, hook that block onto the destination's
      chain, and store the updated record into the root copy read at the start. */
  function AppendBytes(v: Volume, root: seq<DirEntry>, di: int, data: seq<Byte>): (r: (int, Volume))
    requires VolumeOk(v) && |root| == v.entries && 0 <= di < |root| && |data| > 0
    requires root[di].firstBlk != NO_BLOCK ==> ChainOk(v.fat, AsInt16(root[di].firstBlk))
    ensures VolumeOk(r.1) && SameFrame(v, r.1)
    ensures r.0 == 0 || r.0 == 7
  {
    var dest := root[di];
    var f := FillLast(v, dest, data);
    var w := WriteContent(f.vol, data, f.taken);
    if !w.ok then (7, f.vol)
    else
      assert dest.firstBlk != NO_BLOCK && w.first != NO_BLOCK ==> ChainOk(w.vol.fat, AsInt16(dest.firstBlk)) by {
        if dest.firstBlk != NO_BLOCK && w.first != NO_BLOCK {
          ChainCut(v.fat, AsInt16(dest.firstBlk), w.first);
        }
      }
      var first := if dest.firstBlk == NO_BLOCK then w.first else dest.firstBlk;
      var dest' := dest.(size := dest.size + |data|, firstBlk := first);
      (0, PutDir(Attach(dest, w), ROOT_BLOCK, root[di := dest']))
  }

  /** The table after the new block `w.first` is linked behind the destination's last
      block. The code looks for that block after the new block was marked EOF, so the
      walk is over the table as written. Nothing to link when either is missing. */
  function Attach(dest: DirEntry, w: Written): (u: Volume)
    requires VolumeOk(w.vol) && (w.first == NO_BLOCK || w.first < |w.vol.fat|)
    requires dest.firstBlk != NO_BLOCK && w.first != NO_BLOCK ==> ChainOk(w.vol.fat, AsInt16(dest.firstBlk))
    ensures VolumeOk(u) && SameFrame(w.vol, u) && u.disk == w.vol.disk
    ensures forall i :: 0 <= i < |u.fat| && u.fat[i] != w.vol.fat[i] ==>
      dest.firstBlk != NO_BLOCK && w.first != NO_BLOCK && i in Chain(w.vol.fat, AsInt16(dest.firstBlk)) && u.fat[i] == w.first
  {
    if dest.firstBlk == NO_BLOCK || w.first == NO_BLOCK then w.vol
    else w.vol.(fat := w.vol.fat[LastBlockOf(w.vol, dest) := w.first as I16])
  }

  // ---------------------------------------------------------------------------
  // mkdir

  function MkdirSpec(v: Volume, name: string): (r: (int, Volume))
    requires VolumeOk(v)
    ensures VolumeOk(r.1) && SameFrame(v, r.1)
    ensures r.0 != 0 ==> r.1 == v
  {
    if |name| >= NAME_LIMIT then (1, v)
    else if v.cwd >= |v.disk| then (2, v)
    else
      var slots := SlotsAt(v, v.cwd);
      if FirstIndex(slots, Named(name)) >= 0 then (3, v)
      else
        var k := FirstIndex(slots, Vacant);
        if k < 0 then (4, v)
        else
          var b := LowestFree(v.fat, 2);
          if b < 0 then (6, v)
          else
            var sub := EmptySlots(v.entries)[0 := DirEntry(PARENT_NAME, 0, v.cwd, Directory, RWX)];
            var v1 := v.(fat := v.fat[b := FAT_EOF], disk := v.disk[b := Dir(sub)]);
            (0, PutDir(v1, v.cwd, slots[k := DirEntry(name, 0, b, Directory, RWX)]))
  }

  // ---------------------------------------------------------------------------
  // cd

  function CdSpec(v: Volume, name: string): (r: (int, Volume))
    requires VolumeOk(v)
    ensures r.1 == v.(cwd := r.1.cwd)
    ensures r.0 != 0 ==> r.1 == v
  {
    if name == PARENT_NAME then
      if v.cwd == ROOT_BLOCK then (0, v)
      else if v.cwd >= |v.disk| then (1, v)
      else (0, v.(cwd := SlotsAt(v, v.cwd)[0].firstBlk))
    else if v.cwd >= |v.disk| then (2, v)
    else
      var slots := SlotsAt(v, v.cwd);
      var i := FirstIndex(slots, DirNamed(name));
      if i < 0 then (3, v)
      else (0, v.(cwd := slots[i].firstBlk))
  }

  // ---------------------------------------------------------------------------
  // pwd

  datatype Climbed = Reached(names: seq<string>) | Failed(code: int) | Stuck

  /** The names collected so far, put in front of the rest of a walk. */
  function Prefix(path: seq<string>, c: Climbed): (r: Climbed)
    ensures r.Reached? <==> c.Reached?
  {
    match c
    case Reached(names) => Reached(path + names)
    case other => other
  }

  lemma {:induction false} PrefixPrefix(a: seq<string>, b: seq<string>, c: Climbed)
    ensures Prefix(a, Prefix(b, c)) == Prefix(a + b, c)
  {
    if c.Reached? {
      assert a + (b + c.names) == (a + b) + c.names;
    }
  }

  /** The name pwd prints for block `b` inside its parent `p`: that of the first used
      directory slot of `p` whose first block is `b`, or the empty name. */
  function LevelName(v: Volume, b: int, p: int): (n: string)
    requires VolumeOk(v) && 0 <= p < |v.disk|
    ensures n == [] <==> forall i :: 0 <= i < v.entries ==> !Hits(DirAt(b), SlotsAt(v, p)[i])
    ensures n != [] ==> exists i :: 0 <= i < v.entries && Hits(DirAt(b), SlotsAt(v, p)[i]) && SlotsAt(v, p)[i].name == n
  {
    var ps := SlotsAt(v, p);
    var i := FirstIndex(ps, DirAt(b));
    if i < 0 then "" else ps[i].name
  }

  /** pwd's walk from block `b` up to the root: at each step, slot 0 of `b` gives the
      parent, and the parent's slots give the name. Names are collected leaf first. */
  function Climb(v: Volume, b: int, fuel: nat): (c: Climbed)
    requires VolumeOk(v)
    ensures c.Failed? ==> c.code == 1 || c.code == 2
    decreases fuel
  {
    if b == ROOT_BLOCK then Reached([])
    else if fuel == 0 then Stuck
    else if b < 0 || b >= |v.disk| then Failed(1)
    else
      var p := SlotsAt(v, b)[0].firstBlk;
      if p >= |v.disk| then Failed(2)
      else Prefix([LevelName(v, b, p)], Climb(v, p, fuel - 1))
  }

  /** pwd terminates: the walk reaches the root or a failed read within one step per block. */
  predicate PwdAllowed(v: Volume) {
    VolumeOk(v) && !Climb(v, v.cwd, |v.disk|).Stuck?
  }

  function Reverse<T>(s: seq<T>): (r: seq<T>)
    ensures |r| == |s|
    ensures forall i :: 0 <= i < |s| ==> r[i] == s[|s| - 1 - i]
  {
    if s == [] then [] else Reverse(s[1..]) + [s[0]]
  }

  /** Names separated by "/". */
  function JoinPath(names: seq<string>): string {
    if |names| == 0 then ""
    else if |names| == 1 then names[0]
    else JoinPath(names[..|names| - 1]) + "/" + names[|names| - 1]
  }

  /** What pwd's printing loop has produced after `j` of the names `r` (root side first):
      a "/", then each name followed by "/" unless it is the last one. */
  function RenderPrefix(r: seq<string>, j: nat): string
    requires j <= |r|
  {
    if j == 0 then "/"
    else RenderPrefix(r, j - 1) + r[j - 1] + (if j < |r| then "/" else "")
  }

  /** The printing loop's output is the names joined by "/" after a leading "/". */
  lemma {:induction false} RenderPrefixJoins(r: seq<string>, j: nat)
    requires 0 < j <= |r|
    ensures RenderPrefix(r, j) == "/" + JoinPath(r[..j]) + (if j < |r| then "/" else "")
    decreases j
  {
    if j > 1 {
      RenderPrefixJoins(r, j - 1);
      assert r[..j][..j - 1] == r[..j - 1];
      assert JoinPath(r[..j]) == JoinPath(r[..j - 1]) + "/" + r[j - 1];
    } else {
      assert JoinPath(r[..1]) == r[0];
    }
  }

  function PwdSpec(v: Volume): (r: (int, string))
    requires PwdAllowed(v)
    ensures r.0 == 0 ==> |r.1| >= 1 && r.1[0] == '/'
    ensures r.0 != 0 ==> r.1 == ""
  {
    if v.cwd == ROOT_BLOCK then (0, "/")
    else
      match Climb(v, v.cwd, |v.disk|)
      case Reached(names) => (0, "/" + JoinPath(Reverse(names)))
      case Failed(code) => (code, "")
  }
}
