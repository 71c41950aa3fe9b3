/** What one operation leaves behind for the next: round trips between the operations,
    the effects of the allocation defect, and what each error path keeps unchanged. */
module Properties {
  import opened Layout
  import opened Slots
  import opened Table
  import opened Content
  import opened Operations

  /** At most one used slot carries `name`. */
  predicate Unique(s: seq<DirEntry>, name: string) {
    forall i, j :: 0 <= i < |s| && 0 <= j < |s| && Hits(Named(name), s[i]) && Hits(Named(name), s[j]) ==> i == j
  }

  /** The working directory's block is allocated, so no FREE block is ever the directory
      that the operations rewrite. */
  predicate CwdAllocated(v: Volume) {
    VolumeOk(v) && v.cwd < |v.fat| && v.fat[v.cwd] != FAT_FREE
  }

  /** The first hit of a query is at `k` when `k` hits and nothing before it does. */
  lemma {:induction false} FirstIndexAt(s: seq<DirEntry>, q: Query, k: nat)
    requires k < |s| && Hits(q, s[k]) && forall j :: 0 <= j < k ==> !Hits(q, s[j])
    ensures FirstIndex(s, q) == k
  {
    assert FirstIndex(s, q) != -1;
  }

  /** A block whose entry is EOF is a chain of itself alone. */
  lemma {:induction false} SingleChain(t: seq<I16>, b: nat)
    requires b < |t| && t[b] == FAT_EOF
    ensures ChainOk(t, b) && Chain(t, b) == [b]
  {
    assert Walk(t, b, |t|) == Some([b]);
  }

  /** rm's freeing loop from a block whose entry is EOF frees that block alone. */
  lemma {:induction false} FreeOne(t: seq<I16>, b: nat)
    requires b < |t| && t[b] == FAT_EOF
    ensures FreeEnds(t, b) && FreeLoop(t, b) == t[b := FAT_FREE]
  {
    assert FreeEnds(t[b := FAT_FREE], FAT_EOF);
  }

  /** Reading at most one block from a one-block chain yields the start of that block. */
  lemma {:induction false} ReadPrefix(v: Volume, b: nat, n: nat)
    requires VolumeOk(v) && b < |v.disk| && 0 < n <= v.blockSize && v.fat[b] == FAT_EOF
    ensures ReadChain(v, b, n) == ReadResult(true, BytesAt(v, b)[..n])
  {
    assert Min(n, v.blockSize) == n;
    assert ReadChain(v, v.fat[b], 0) == ReadResult(true, []);
    assert BytesAt(v, b)[..n] + [] == BytesAt(v, b)[..n];
  }

  /** A chain of one block that holds `data` padded with zeros reads back as `data`. */
  lemma {:induction false} ReadOneBlock(v: Volume, b: nat, data: seq<Byte>)
    requires VolumeOk(v) && b < |v.disk| && 0 < |data| <= v.blockSize
    requires v.fat[b] == FAT_EOF && v.disk[b] == Data(Pad(data, v.blockSize))
    ensures ReadChain(v, b, |data|) == ReadResult(true, data)
  {
    ReadPrefix(v, b, |data|);
  }

  /** Reading more than one block from a one-block chain yields that whole block. */
  lemma {:induction false} OverlongRead(v: Volume, b: nat, bytes: seq<Byte>, left: nat)
    requires VolumeOk(v) && b < |v.disk| && left > v.blockSize
    requires v.fat[b] == FAT_EOF && v.disk[b] == Data(bytes)
    ensures ReadChain(v, b, left) == ReadResult(true, bytes)
  {
    assert Min(left, v.blockSize) == v.blockSize;
    assert ReadChain(v, v.fat[b], left - v.blockSize) == ReadResult(true, []);
    assert |bytes| == v.blockSize;
    assert bytes[..v.blockSize] + [] == bytes;
  }

  /** After a successful create in the working directory, the record sits in the first
      free slot, it is the first record with that name, and every other slot is as before. */
  lemma {:induction false} CreateRecord(v: Volume, name: string, content: seq<Byte>)
    requires VolumeOk(v) && name != []
    requires CreateSpec(v, name, content).0 == 0
    ensures v.cwd < |v.disk|
    ensures var u := CreateSpec(v, name, content).1;
      var s := SlotsAt(v, v.cwd);
      var k := FirstIndex(s, Vacant);
      var w := WriteContent(v, content, 0);
      0 <= k && FirstIndex(s, Named(name)) == -1 &&
      SlotsAt(u, u.cwd) == s[k := FileRecord(name, |content|, w.first)] &&
      FirstIndex(SlotsAt(u, u.cwd), Named(name)) == k &&
      (content == [] <==> w.first == NO_BLOCK) &&
      u.fat == (if content == [] then v.fat else v.fat[w.first := FAT_EOF]) &&
      (content != [] && w.first != v.cwd ==>
        u.disk[w.first] == w.vol.disk[w.first])
  {
    var s := SlotsAt(v, v.cwd);
    var k := FirstIndex(s, Vacant);
    var w := WriteContent(v, content, 0);
    var s' := s[k := FileRecord(name, |content|, w.first)];
    var u := CreateSpec(v, name, content).1;
    assert u == PutDir(w.vol, v.cwd, s');
    assert u.disk == w.vol.disk[v.cwd := Dir(s')];
    assert forall j :: 0 <= j < k ==> !Hits(Named(name), s'[j]);
    FirstIndexAt(s', Named(name), k);
  }

  /** create then cat: content that fits one block reads back unchanged. */
  lemma {:induction false} CreateThenCat(v: Volume, name: string, content: seq<Byte>)
    requires CwdAllocated(v) && name != [] && |content| <= v.blockSize
    requires CreateSpec(v, name, content).0 == 0
    ensures CatSpec(CreateSpec(v, name, content).1, name) == (0, content)
  {
    CreateRecord(v, name, content);
    var u := CreateSpec(v, name, content).1;
    var w := WriteContent(v, content, 0);
    if content != [] {
      var b := w.first;
      LastPieceSuffix(content, 0, v.blockSize);
      assert content[0..] == content;
      assert b != v.cwd;
      ReadOneBlock(u, b, content);
    }
  }

  /** The allocation defect seen through cat: content longer than one block is stored as
      its last piece alone in one block, so cat returns that piece padded with zeros to a
      whole block, which is shorter than the content. */
  lemma {:induction false} CreateThenCatOverflow(v: Volume, name: string, content: seq<Byte>)
    requires CwdAllocated(v) && name != [] && |content| > v.blockSize
    requires CreateSpec(v, name, content).0 == 0
    ensures var u := CreateSpec(v, name, content).1;
      var b := WriteContent(v, content, 0).first;
      ChainOk(u.fat, b) && Chain(u.fat, b) == [b] &&
      CatSpec(u, name) == (0, Pad(LastPiece(content, 0, v.blockSize), v.blockSize)) &&
      CatSpec(u, name).1 != content
  {
    CreateRecord(v, name, content);
    var u := CreateSpec(v, name, content).1;
    var w := WriteContent(v, content, 0);
    var b := w.first;
    var piece := Pad(LastPiece(content, 0, v.blockSize), v.blockSize);
    assert b != v.cwd;
    assert w.vol.disk[b] == Data(piece);
    SingleChain(u.fat, b);
    OverlongRead(u, b, piece, |content|);
    var k := FirstIndex(SlotsAt(v, v.cwd), Vacant);
    assert SlotsAt(u, u.cwd)[k] == FileRecord(name, |content|, b);
    assert AsInt16(b) == b;
    assert CatSpec(u, name) == (0, piece);
    assert |piece| < |content|;
  }

  /** create leaves a block behind when the directory has no free slot: the block it
      wrote stays marked as used in the table, and no record refers to it. */
  lemma {:induction false} CreateFullLeaks(v: Volume, name: string, content: seq<Byte>)
    requires CwdAllocated(v) && content != []
    requires CreateSpec(v, name, content).0 == 9
    ensures var u := CreateSpec(v, name, content).1;
      var b := LowestFree(v.fat, 0);
      0 <= b && v.fat[b] == FAT_FREE && u.fat == v.fat[b := FAT_EOF] &&
      SlotsAt(u, u.cwd) == SlotsAt(v, v.cwd) &&
      FirstIndex(SlotsAt(v, v.cwd), Vacant) == -1
  {
    var b := LowestFree(v.fat, 0);
    assert b != v.cwd;
  }

  /** cp leaves a block behind whenever it refuses after writing the table: when the new
      record would be named ".." (10), when the target directory is off the device (12),
      has the name already (14, 17) or is full (15, 18). The copy's block stays marked as
      used, no other block changes and the working directory is unchanged. */
  lemma {:induction false} CpRefusedLeaks(v: Volume, src: string, dst: string)
    requires CwdAllocated(v)
    requires CpSpec(v, src, dst).0 in {10, 12, 14, 15, 17, 18}
    ensures var u := CpSpec(v, src, dst).1;
      var b := LowestFree(v.fat, 0);
      SlotsAt(u, u.cwd) == SlotsAt(v, v.cwd) &&
      (u.fat == v.fat || (0 <= b && v.fat[b] == FAT_FREE && u.fat == v.fat[b := FAT_EOF])) &&
      forall j :: 0 <= j < |v.disk| && j != b ==> u.disk[j] == v.disk[j]
  {
    var slots := SlotsAt(v, v.cwd);
    var si := LastIndex(slots, Named(src));
    var di := LastIndex(slots, Named(dst));
    var rd := ReadChain(v, AsInt16(slots[si].firstBlk), slots[si].size);
    var w := WriteContent(v, rd.data, 0);
    assert CpSpec(v, src, dst) == CpStore(w.vol, slots, di, src, dst, |rd.data|, w.first);
    assert CpSpec(v, src, dst).1 == w.vol;
    assert w.first != v.cwd;
  }

  // ---------------------------------------------------------------------------
  // ls and format

  /** ls lists exactly the used slots, slot 0 excepted outside the root. */
  lemma {:induction false} VisibleMembers(s: seq<DirEntry>, n: nat, atRoot: bool, e: DirEntry)
    requires n <= |s|
    ensures e in Visible(s, n, atRoot) <==>
      exists i :: 0 <= i < n && s[i] == e && e.name != [] && (atRoot || i != 0)
    decreases n
  {
    if n > 0 {
      VisibleMembers(s, n - 1, atRoot, e);
    }
  }

  /** format then ls: the working directory lists nothing (the table block excepted,
      which the model does not read as records). */
  lemma {:induction false} FormatThenLs(v: Volume)
    requires VolumeOk(v) && v.cwd != FAT_BLOCK
    ensures LsSpec(FormatSpec(v).1) == (if v.cwd < |v.disk| then 0 else 1, [])
  {
    var u := FormatSpec(v).1;
    if v.cwd < |v.disk| {
      var s := SlotsAt(u, u.cwd);
      assert u.disk[u.cwd] == ZeroBlock(v.blockSize);
      assert s == EmptySlots(v.entries);
      var r := Visible(s, |s|, u.cwd == ROOT_BLOCK);
      if r != [] {
        VisibleMembers(s, |s|, u.cwd == ROOT_BLOCK, r[0]);
      }
    }
  }

  // ---------------------------------------------------------------------------
  // rm

  /** rm then cat: once the only record with the name is removed, cat no longer finds it. */
  lemma {:induction false} RmThenCat(v: Volume, name: string)
    requires RmAllowed(v, name) && v.cwd < |v.disk| && Unique(SlotsAt(v, v.cwd), name)
    requires RmSpec(v, name).0 == 0
    ensures var u := RmSpec(v, name).1;
      FirstIndex(SlotsAt(u, u.cwd), Named(name)) == -1 && CatSpec(u, name) == (2, [])
  {
    var slots := SlotsAt(v, v.cwd);
    var i := FirstIndex(slots, Named(name));
    var s := slots[i := EMPTY_ENTRY];
    assert SlotsAt(RmSpec(v, name).1, v.cwd) == s;
    forall j | 0 <= j < |s|
      ensures !Hits(Named(name), s[j])
    {
      if j != i {
        assert s[j] == slots[j];
      }
    }
  }

  /** create then rm restore the table: the one block create took is free again. */
  lemma {:induction false} CreateThenRm(v: Volume, name: string, content: seq<Byte>)
    requires VolumeOk(v) && name != []
    requires CreateSpec(v, name, content).0 == 0
    ensures var u := CreateSpec(v, name, content).1;
      RmAllowed(u, name) && RmSpec(u, name).0 == 0 && RmSpec(u, name).1.fat == v.fat
  {
    CreateRecord(v, name, content);
    var u := CreateSpec(v, name, content).1;
    var w := WriteContent(v, content, 0);
    var k := FirstIndex(SlotsAt(v, v.cwd), Vacant);
    var e := SlotsAt(u, u.cwd)[k];
    assert e == FileRecord(name, |content|, w.first);
    if content != [] {
      var b := w.first;
      assert AsInt16(b) == b;
      FreeOne(u.fat, b);
      assert u.fat[b := FAT_FREE] == v.fat;
    }
  }

  /** After a successful mkdir: the new record sits in the first free slot of the working
      directory, the block it names holds only the ".." record, and only that block's
      table entry changed, from FREE to EOF. */
  lemma {:induction false} MkdirRecord(v: Volume, name: string)
    requires VolumeOk(v) && MkdirSpec(v, name).0 == 0
    ensures var u := MkdirSpec(v, name).1;
      var slots := SlotsAt(v, v.cwd);
      var k := FirstIndex(slots, Vacant);
      var b := LowestFree(v.fat, 2);
      v.cwd < |v.disk| && 0 <= k && 2 <= b < |v.disk| &&
      FirstIndex(slots, Named(name)) == -1 && v.fat[b] == FAT_FREE &&
      u.fat == v.fat[b := FAT_EOF] && u.cwd == v.cwd &&
      SlotsAt(u, u.cwd) == slots[k := DirEntry(name, 0, b, Directory, RWX)] &&
      (b != v.cwd ==>
        SlotsAt(u, b) == EmptySlots(v.entries)[0 := DirEntry(PARENT_NAME, 0, v.cwd, Directory, RWX)])
  {
  }

  /** mkdir then rm restore the table: the new directory is empty, so rm accepts it and
      frees its block. */
  lemma {:induction false} MkdirThenRm(v: Volume, name: string)
    requires CwdAllocated(v) && name != []
    requires MkdirSpec(v, name).0 == 0
    ensures var u := MkdirSpec(v, name).1;
      RmAllowed(u, name) && RmSpec(u, name).0 == 0 && RmSpec(u, name).1.fat == v.fat
  {
    MkdirRecord(v, name);
    var slots := SlotsAt(v, v.cwd);
    var k := FirstIndex(slots, Vacant);
    var b := LowestFree(v.fat, 2);
    var s := slots[k := DirEntry(name, 0, b, Directory, RWX)];
    var u := MkdirSpec(v, name).1;
    assert b != v.cwd;
    assert forall j :: 0 <= j < k ==> !Hits(Named(name), s[j]);
    FirstIndexAt(s, Named(name), k);
    assert DirEmpty(SlotsAt(u, b));
    assert AsInt16(b) == b;
    FreeOne(u.fat, b);
    assert u.fat[b := FAT_FREE] == v.fat;
  }

  // ---------------------------------------------------------------------------
  // mkdir, cd and pwd

  /** mkdir in the root, then cd into the new directory: pwd prints "/" and the name, and
      cd ".." returns to the volume mkdir left. The root must hold no stale directory
      record that already names the block mkdir takes. */
  lemma {:induction false} MkdirCdPwd(v: Volume, name: string)
    requires VolumeOk(v) && v.cwd == ROOT_BLOCK && name != [] && name != PARENT_NAME
    requires FirstIndex(SlotsAt(v, ROOT_BLOCK), DirAt(LowestFree(v.fat, 2))) == -1
    requires MkdirSpec(v, name).0 == 0
    ensures var u := MkdirSpec(v, name).1;
      var c := CdSpec(u, name);
      c.0 == 0 && c.1.cwd == LowestFree(v.fat, 2) &&
      PwdAllowed(c.1) && PwdSpec(c.1) == (0, "/" + name) &&
      CdSpec(c.1, PARENT_NAME) == (0, u)
  {
    MkdirRecord(v, name);
    var slots := SlotsAt(v, ROOT_BLOCK);
    var k := FirstIndex(slots, Vacant);
    var b := LowestFree(v.fat, 2);
    var s := slots[k := DirEntry(name, 0, b, Directory, RWX)];
    var u := MkdirSpec(v, name).1;
    assert forall j :: 0 <= j < k ==> s[j] == slots[j];
    FirstIndexAt(s, DirNamed(name), k);
    FirstIndexAt(s, DirAt(b), k);
    InChild(u, name, k, b);
  }

  /** Inside a child `b` of the root whose record is slot `k`: pwd and cd "..". */
  lemma {:induction false} InChild(u: Volume, name: string, k: nat, b: nat)
    requires VolumeOk(u) && u.cwd == ROOT_BLOCK && 2 <= b < |u.disk| && name != PARENT_NAME
    requires k < u.entries && SlotsAt(u, ROOT_BLOCK)[k] == DirEntry(name, 0, b, Directory, RWX)
    requires FirstIndex(SlotsAt(u, ROOT_BLOCK), DirNamed(name)) == k
    requires FirstIndex(SlotsAt(u, ROOT_BLOCK), DirAt(b)) == k
    requires SlotsAt(u, b)[0] == DirEntry(PARENT_NAME, 0, ROOT_BLOCK, Directory, RWX)
    ensures var c := CdSpec(u, name);
      c == (0, u.(cwd := b)) && PwdAllowed(c.1) && PwdSpec(c.1) == (0, "/" + name) &&
      CdSpec(c.1, PARENT_NAME) == (0, u)
  {
    var c := u.(cwd := b);
    assert SlotsAt(c, b)[0].firstBlk == ROOT_BLOCK;
    assert LevelName(c, b, ROOT_BLOCK) == name;
    assert Climb(c, ROOT_BLOCK, |c.disk| - 1) == Reached([]);
    assert Climb(c, b, |c.disk|) == Reached([name]);
    assert Reverse([name]) == [name];
  }

  // ---------------------------------------------------------------------------
  // Reading through a changed volume

  /** The read loop sees only the table and the blocks read as bytes. */
  lemma {:induction false} ReadChainFrame(v: Volume, u: Volume, b: int, left: nat)
    requires VolumeOk(v) && VolumeOk(u) && u.fat == v.fat && |u.disk| == |v.disk|
    requires u.blockSize == v.blockSize
    requires forall j :: 0 <= j < |v.disk| ==> BytesAt(u, j) == BytesAt(v, j)
    ensures ReadChain(u, b, left) == ReadChain(v, b, left)
    decreases left
  {
    if b != FAT_EOF && left != 0 && 0 <= b < |v.disk| {
      ReadChainFrame(v, u, v.fat[b], left - Min(left, v.blockSize));
    }
  }

  /** Rewriting a directory block as another directory block changes no byte view. */
  lemma {:induction false} DirRewriteBytes(v: Volume, d: nat, s: seq<DirEntry>)
    requires VolumeOk(v) && d < |v.disk| && v.disk[d].Dir? && |s| == v.entries
    ensures forall j :: 0 <= j < |v.disk| ==> BytesAt(PutDir(v, d, s), j) == BytesAt(v, j)
  {
  }

  /** A block that has a used slot is a directory block. */
  lemma {:induction false} UsedSlotIsDir(v: Volume, d: nat, q: Query)
    requires VolumeOk(v) && d < |v.disk| && q != Vacant && FirstIndex(SlotsAt(v, d), q) >= 0
    ensures v.disk[d].Dir?
  {
    var i := FirstIndex(SlotsAt(v, d), q);
    assert SlotsAt(v, d)[i].name != [];
  }

  /** Unique names: the first and the last hit coincide. */
  lemma {:induction false} UniqueFirstLast(s: seq<DirEntry>, name: string)
    requires Unique(s, name)
    ensures FirstIndex(s, Named(name)) == LastIndex(s, Named(name))
  {
    var f := FirstIndex(s, Named(name));
    var l := LastIndex(s, Named(name));
    if f >= 0 {
      assert Hits(Named(name), s[l]);
    }
  }

  // ---------------------------------------------------------------------------
  // mv

  /** mv to a new name in the same directory: cat of the new name prints what cat of the
      old name printed, and the old name is gone. */
  lemma {:induction false} MvRename(v: Volume, src: string, dst: string)
    requires VolumeOk(v) && src != dst && dst != []
    requires v.cwd < |v.disk| && Unique(SlotsAt(v, v.cwd), src)
    requires FirstIndex(SlotsAt(v, v.cwd), Named(dst)) == -1
    requires MvSpec(v, src, dst).0 == 0
    ensures var u := MvSpec(v, src, dst).1;
      CatSpec(u, dst) == CatSpec(v, src) && CatSpec(u, src) == (2, [])
  {
    var slots := SlotsAt(v, v.cwd);
    UniqueFirstLast(slots, src);
    var si := LastIndex(slots, Named(src));
    assert LastIndex(slots, Named(dst)) == -1;
    var s := slots[si := slots[si].(name := dst)];
    var u := MvSpec(v, src, dst).1;
    assert u == PutDir(v, v.cwd, s);
    UsedSlotIsDir(v, v.cwd, Named(src));
    DirRewriteBytes(v, v.cwd, s);
    assert forall j :: 0 <= j < |s| && j != si ==> s[j] == slots[j];
    FirstIndexAt(s, Named(dst), si);
    forall j | 0 <= j < |s|
      ensures !Hits(Named(src), s[j])
    {
      if j != si {
        assert s[j] == slots[j];
      }
    }
    ReadChainFrame(v, u, AsInt16(slots[si].firstBlk), slots[si].size);
  }

  /** mv into a directory named in the working directory (a subdirectory, or the parent
      through `..`): cat in the target prints what cat printed before the move, and the
      name is gone from the working directory. cd with the target's name reaches it: a
      subdirectory always, the parent when the `..` record is slot 0 outside the root.
      mv itself does not check the target for a record of the same name, so the lemma
      asks that there be none. */
  lemma {:induction false} MvIntoDir(v: Volume, src: string, dst: string)
    requires VolumeOk(v) && src != dst && v.cwd < |v.disk|
    requires Unique(SlotsAt(v, v.cwd), src) && Unique(SlotsAt(v, v.cwd), dst)
    requires var slots := SlotsAt(v, v.cwd);
      var di := LastIndex(slots, Named(dst));
      0 <= di && slots[di].kind == Directory && slots[di].firstBlk != v.cwd &&
      slots[di].firstBlk < |v.disk| && v.disk[slots[di].firstBlk].Dir? &&
      FirstIndex(SlotsAt(v, slots[di].firstBlk), Named(src)) == -1
    requires MvSpec(v, src, dst).0 == 0
    ensures var u := MvSpec(v, src, dst).1;
      var di := LastIndex(SlotsAt(v, v.cwd), Named(dst));
      var d := SlotsAt(v, v.cwd)[di].firstBlk;
      u.fat == v.fat && FirstIndex(SlotsAt(u, u.cwd), Named(src)) == -1 &&
      CatSpec(u.(cwd := d), src) == CatSpec(v, src) &&
      ((dst != PARENT_NAME || (v.cwd != ROOT_BLOCK && di == 0)) ==> CdSpec(u, dst) == (0, u.(cwd := d)))
  {
    var slots := SlotsAt(v, v.cwd);
    UniqueFirstLast(slots, src);
    UniqueFirstLast(slots, dst);
    var si := LastIndex(slots, Named(src));
    var di := LastIndex(slots, Named(dst));
    var d := slots[di].firstBlk;
    var sub := SlotsAt(v, d);
    var k := FirstIndex(sub, Vacant);
    var u := MvSpec(v, src, dst).1;
    MvIntoDirShape(v, src, dst);
    MvIntoDirTop(v, slots, si, di, dst, slots[si := EMPTY_ENTRY], u);
    MvIntoDirSub(v, sub, k, slots[si], src, d, u.(cwd := d));
  }

  /** The volume after a move into the directory block `d`: both directory blocks rewritten,
      the table and every byte view unchanged. */
  lemma {:induction false} MvIntoDirShape(v: Volume, src: string, dst: string)
    requires VolumeOk(v) && src != dst && v.cwd < |v.disk|
    requires var slots := SlotsAt(v, v.cwd);
      var di := LastIndex(slots, Named(dst));
      0 <= di && slots[di].kind == Directory && slots[di].firstBlk != v.cwd &&
      slots[di].firstBlk < |v.disk| && v.disk[slots[di].firstBlk].Dir?
    requires MvSpec(v, src, dst).0 == 0
    ensures var u := MvSpec(v, src, dst).1;
      var slots := SlotsAt(v, v.cwd);
      var si := LastIndex(slots, Named(src));
      var d := slots[LastIndex(slots, Named(dst))].firstBlk;
      var sub := SlotsAt(v, d);
      0 <= si && 0 <= FirstIndex(sub, Vacant) &&
      u.fat == v.fat && u.cwd == v.cwd &&
      SlotsAt(u, u.cwd) == slots[si := EMPTY_ENTRY] &&
      SlotsAt(u, d) == sub[FirstIndex(sub, Vacant) := slots[si]] &&
      forall j :: 0 <= j < |v.disk| ==> BytesAt(u, j) == BytesAt(v, j)
  {
    var slots := SlotsAt(v, v.cwd);
    var si := LastIndex(slots, Named(src));
    var di := LastIndex(slots, Named(dst));
    var d := slots[di].firstBlk;
    var sub := SlotsAt(v, d);
    var k := FirstIndex(sub, Vacant);
    var sub' := sub[k := slots[si]];
    var top := slots[si := EMPTY_ENTRY];
    var u1 := PutDir(v, d, sub');
    assert MvSpec(v, src, dst).1 == PutDir(u1, v.cwd, top);
    UsedSlotIsDir(v, v.cwd, Named(src));
    DirRewriteBytes(v, d, sub');
    DirRewriteBytes(u1, v.cwd, top);
  }

  /** The working directory after the move: the source slot is empty and cd finds `dst`,
      by name, or as the parent when `dst` is the `..` record in slot 0 outside the root. */
  lemma {:induction false} MvIntoDirTop(v: Volume, slots: seq<DirEntry>, si: nat, di: nat, dst: string, top: seq<DirEntry>, u: Volume)
    requires VolumeOk(u) && u.cwd < |u.disk| && si < |slots| && di < |slots| && si != di
    requires slots[di].kind == Directory && slots[di].name == dst && dst != []
    requires FirstIndex(slots, Named(dst)) == di && top == slots[si := EMPTY_ENTRY]
    requires forall j :: 0 <= j < |slots| && j != si ==> !Hits(Named(slots[si].name), slots[j])
    requires SlotsAt(u, u.cwd) == top
    ensures FirstIndex(top, Named(slots[si].name)) == -1
    ensures (dst != PARENT_NAME || (u.cwd != ROOT_BLOCK && di == 0)) ==>
      CdSpec(u, dst) == (0, u.(cwd := slots[di].firstBlk))
  {
    if dst == PARENT_NAME && u.cwd != ROOT_BLOCK && di == 0 {
      assert top[0] == slots[0];
    }
    forall j | 0 <= j < |top|
      ensures !Hits(Named(slots[si].name), top[j])
    {
      if j != si {
        assert top[j] == slots[j];
      }
    }
    forall j | 0 <= j < di
      ensures !Hits(DirNamed(dst), top[j])
    {
      assert !Hits(Named(dst), slots[j]);
      if j != si {
        assert top[j] == slots[j];
      }
    }
    FirstIndexAt(top, DirNamed(dst), di);
  }

  /** The subdirectory after the move: cat there reads the moved record as before. */
  lemma {:induction false} MvIntoDirSub(v: Volume, sub: seq<DirEntry>, k: nat, e: DirEntry, src: string, d: nat, c: Volume)
    requires VolumeOk(v) && VolumeOk(c) && d < |v.disk| && c.cwd == d
    requires k < |sub| && sub == SlotsAt(v, d) && FirstIndex(sub, Named(src)) == -1
    requires v.cwd < |v.disk| && FirstIndex(SlotsAt(v, v.cwd), Named(src)) >= 0
    requires e == SlotsAt(v, v.cwd)[FirstIndex(SlotsAt(v, v.cwd), Named(src))]
    requires SameFrame(v, c.(cwd := v.cwd)) && c.fat == v.fat && SlotsAt(c, d) == sub[k := e]
    requires forall j :: 0 <= j < |v.disk| ==> BytesAt(c, j) == BytesAt(v, j)
    ensures CatSpec(c, src) == CatSpec(v, src)
  {
    assert forall j :: 0 <= j < k ==> sub[k := e][j] == sub[j];
    FirstIndexAt(sub[k := e], Named(src), k);
    ReadChainFrame(v, c, AsInt16(e.firstBlk), e.size);
  }

  // ---------------------------------------------------------------------------
  // cp

  /** After a successful cp to a new name in the working directory, the copy's record
      sits in the first free slot and is the first record with that name. */
  lemma {:induction false} CpRecord(v: Volume, src: string, dst: string)
    requires CwdAllocated(v) && dst != [] && dst != PARENT_NAME
    requires FirstIndex(SlotsAt(v, v.cwd), Named(dst)) == -1
    requires CpSpec(v, src, dst).0 == 0
    ensures var u := CpSpec(v, src, dst).1;
      var slots := SlotsAt(v, v.cwd);
      var si := LastIndex(slots, Named(src));
      0 <= si &&
      var rd := ReadChain(v, AsInt16(slots[si].firstBlk), slots[si].size);
      var w := WriteContent(v, rd.data, 0);
      var k := FirstIndex(slots, Vacant);
      rd.ok && w.ok && 0 <= k &&
      SlotsAt(u, u.cwd) == slots[k := FileRecord(dst, |rd.data|, w.first)] &&
      FirstIndex(SlotsAt(u, u.cwd), Named(dst)) == k &&
      u.fat == w.vol.fat && (rd.data != [] && w.first != v.cwd ==> u.disk[w.first] == w.vol.disk[w.first])
  {
    var slots := SlotsAt(v, v.cwd);
    assert LastIndex(slots, Named(dst)) == -1;
    var si := LastIndex(slots, Named(src));
    var rd := ReadChain(v, AsInt16(slots[si].firstBlk), slots[si].size);
    var w := WriteContent(v, rd.data, 0);
    var k := FirstIndex(slots, Vacant);
    var s := slots[k := FileRecord(dst, |rd.data|, w.first)];
    var u := CpSpec(v, src, dst).1;
    assert u == PutDir(w.vol, v.cwd, s);
    assert forall j :: 0 <= j < k ==> !Hits(Named(dst), s[j]);
    FirstIndexAt(s, Named(dst), k);
  }

  /** cp to a new name in the same directory: cat of the copy prints what cat of the
      source prints, for a source file that fits one block. */
  lemma {:induction false} CpThenCat(v: Volume, src: string, dst: string)
    requires CwdAllocated(v) && dst != [] && dst != PARENT_NAME
    requires Unique(SlotsAt(v, v.cwd), src)
    requires FirstIndex(SlotsAt(v, v.cwd), Named(dst)) == -1
    requires forall j :: 0 <= j < v.entries && Hits(Named(src), SlotsAt(v, v.cwd)[j]) ==>
      SlotsAt(v, v.cwd)[j].kind == File && SlotsAt(v, v.cwd)[j].size <= v.blockSize
    requires CpSpec(v, src, dst).0 == 0
    ensures CatSpec(CpSpec(v, src, dst).1, dst) == CatSpec(v, src)
  {
    CpRecord(v, src, dst);
    var slots := SlotsAt(v, v.cwd);
    UniqueFirstLast(slots, src);
    var si := LastIndex(slots, Named(src));
    var rd := ReadChain(v, AsInt16(slots[si].firstBlk), slots[si].size);
    var data := rd.data;
    var w := WriteContent(v, data, 0);
    var u := CpSpec(v, src, dst).1;
    assert CatSpec(v, src) == (0, data);
    if data != [] {
      var b := w.first;
      LastPieceSuffix(data, 0, v.blockSize);
      assert data[0..] == data;
      assert b != v.cwd;
      ReadOneBlock(u, b, data);
    }
  }

  // ---------------------------------------------------------------------------
  // append

  /** How many bytes of its last block a record of `size` bytes uses: a whole block when
      the size is a multiple of the block size. */
  function TailBytes(size: nat, blockSize: nat): (r: nat)
    requires blockSize > 0
    ensures 0 < r <= blockSize && (size % blockSize == 0 <==> r == blockSize)
  {
    if size % blockSize == 0 then blockSize else size % blockSize
  }

  /** A file record whose size matches its chain, as create, cp and append leave it:
      an empty file owns no block; otherwise its blocks are allocated, none of them is the
      root directory's, every block but the last is full and the last holds TailBytes. */
  ghost predicate Spans(v: Volume, e: DirEntry)
    requires VolumeOk(v)
  {
    if e.firstBlk == NO_BLOCK then e.size == 0
    else
      var h := AsInt16(e.firstBlk);
      UsedChain(v.fat, h) && ROOT_BLOCK !in Chain(v.fat, h) &&
      e.size == Span(TailBytes(e.size, v.blockSize), |Chain(v.fat, h)| - 1, v.blockSize)
  }

  /** The bytes of the blocks of `c` from position `k` on, leaving out the last block. */
  function Front(v: Volume, c: seq<nat>, k: nat): seq<Byte>
    requires VolumeOk(v) && forall j :: 0 <= j < |c| ==> c[j] < |v.disk|
    decreases |c| - k
  {
    if k + 1 >= |c| then [] else BytesAt(v, c[k]) + Front(v, c, k + 1)
  }

  /** `c` is a run of blocks that the table links one to the next. */
  ghost predicate Linked(t: seq<I16>, c: seq<nat>) {
    |c| >= 1 &&
    (forall k :: 0 <= k < |c| ==> c[k] < |t|) &&
    (forall k :: 0 <= k < |c| - 1 ==> t[c[k]] == c[k + 1])
  }

  /** `r` bytes after `n` whole blocks of `b` bytes. */
  function Span(r: nat, n: nat, b: nat): nat {
    if n == 0 then r else Span(r, n - 1, b) + b
  }

  lemma {:induction false} SpanAdd(r: nat, n: nat, b: nat, k: nat)
    ensures Span(r + k, n, b) == Span(r, n, b) + k
  {
    if n > 0 {
      SpanAdd(r, n - 1, b, k);
    }
  }

  /** Reading along linked blocks, all of them whole but the last: the bytes of the
      blocks before the last, then what is read from the last. */
  lemma {:induction false} ReadFront(v: Volume, c: seq<nat>, k: nat, r: nat)
    requires VolumeOk(v) && Linked(v.fat, c) && k < |c| && 0 < r
    ensures var tv := ReadChain(v, c[|c| - 1], r);
      ReadChain(v, c[k], Span(r, |c| - 1 - k, v.blockSize)) == ReadResult(tv.ok, Front(v, c, k) + tv.data)
    decreases |c| - k
  {
    if k + 1 < |c| {
      var B := v.blockSize;
      var tv := ReadChain(v, c[|c| - 1], r);
      var m := Span(r, |c| - 1 - (k + 1), B);
      assert Span(r, |c| - 1 - k, B) == m + B;
      ReadFront(v, c, k + 1, r);
      assert v.fat[c[k]] == c[k + 1];
      FrontStep(v, c[k], m, tv.ok, Front(v, c, k + 1), tv.data);
    } else {
      var tv := ReadChain(v, c[|c| - 1], r);
      assert [] + tv.data == tv.data;
    }
  }

  /** One step of ReadFront: a whole block in front of what is read behind it. */
  lemma {:induction false} FrontStep(v: Volume, x: nat, m: nat, ok: bool, f: seq<Byte>, t: seq<Byte>)
    requires VolumeOk(v) && x < |v.disk| && 0 < m
    requires ReadChain(v, v.fat[x], m) == ReadResult(ok, f + t)
    ensures ReadChain(v, x, m + v.blockSize) == ReadResult(ok, (BytesAt(v, x) + f) + t)
  {
    ReadStep(v, x, m + v.blockSize);
    assert BytesAt(v, x) + (f + t) == (BytesAt(v, x) + f) + t;
  }

  /** Front depends only on the bytes of the blocks it covers. */
  lemma {:induction false} FrontSame(v: Volume, u: Volume, c: seq<nat>, k: nat)
    requires VolumeOk(v) && VolumeOk(u) && |u.disk| == |v.disk|
    requires forall j :: 0 <= j < |c| ==> c[j] < |v.disk|
    requires forall j :: 0 <= j < |c| - 1 ==> BytesAt(u, c[j]) == BytesAt(v, c[j])
    ensures Front(u, c, k) == Front(v, c, k)
    decreases |c| - k
  {
    if k + 1 < |c| {
      FrontSame(v, u, c, k + 1);
    }
  }

  /** The read loop sees only the chain it follows: where `u` agrees with `v` on the
      table entries and bytes of that chain, it reads the same. */
  lemma {:induction false} ReadAlong(v: Volume, u: Volume, b: int, left: nat)
    requires VolumeOk(v) && VolumeOk(u) && u.blockSize == v.blockSize && |u.disk| == |v.disk|
    requires b == FAT_EOF || (ChainOk(v.fat, b) && forall x :: x in Chain(v.fat, b) ==>
      u.fat[x] == v.fat[x] && BytesAt(u, x) == BytesAt(v, x))
    ensures ReadChain(u, b, left) == ReadChain(v, b, left)
    decreases left
  {
    if b != FAT_EOF && left != 0 {
      assert b == Chain(v.fat, b)[0];
      if v.fat[b] != FAT_EOF {
        ChainTail(v.fat, b);
        ReadAlong(v, u, v.fat[b], left - Min(left, v.blockSize));
      }
    }
  }

  /** With a unique source in the root, append works on what cat of the source prints. */
  lemma {:induction false} AppendReadsCat(v: Volume, src: string, dst: string)
    requires AppendAllowed(v, src, dst) && v.cwd == ROOT_BLOCK
    requires Unique(SlotsAt(v, ROOT_BLOCK), src) && CatSpec(v, src).0 == 0
    requires LastIndex(SlotsAt(v, ROOT_BLOCK), Named(dst)) >= 0 && CatSpec(v, src).1 != []
    ensures AppendSpec(v, src, dst) ==
      AppendBytes(v, SlotsAt(v, ROOT_BLOCK), LastIndex(SlotsAt(v, ROOT_BLOCK), Named(dst)), CatSpec(v, src).1)
  {
    UniqueFirstLast(SlotsAt(v, ROOT_BLOCK), src);
  }

  /** What cat prints for the file record at slot `i`, the first with its name. */
  lemma {:induction false} CatAt(v: Volume, name: string, i: nat)
    requires VolumeOk(v) && v.cwd < |v.disk| && FirstIndex(SlotsAt(v, v.cwd), Named(name)) == i
    requires SlotsAt(v, v.cwd)[i].kind == File
    ensures var e := SlotsAt(v, v.cwd)[i];
      var rd := ReadChain(v, AsInt16(e.firstBlk), e.size);
      CatSpec(v, name) == (if rd.ok then 0 else 5, rd.data)
  {
  }

  /** After a successful append the root holds the grown record in the destination's
      slot: the old size plus the appended bytes, and the new block when the
      destination had none. */
  lemma {:induction false} AppendRoot(v: Volume, di: nat, data: seq<Byte>)
    requires VolumeOk(v) && 0 < |data| && di < v.entries
    requires var dest := SlotsAt(v, ROOT_BLOCK)[di];
      dest.firstBlk != NO_BLOCK ==> ChainOk(v.fat, AsInt16(dest.firstBlk))
    requires AppendBytes(v, SlotsAt(v, ROOT_BLOCK), di, data).0 == 0
    ensures var root := SlotsAt(v, ROOT_BLOCK);
      var dest := root[di];
      var u := AppendBytes(v, root, di, data).1;
      var w := WriteContent(FillLast(v, dest, data).vol, data, FillLast(v, dest, data).taken);
      var first := if dest.firstBlk == NO_BLOCK then w.first else dest.firstBlk;
      SlotsAt(u, ROOT_BLOCK) == root[di := dest.(size := dest.size + |data|, firstBlk := first)]
  {
  }

  /** cat of a name whose first record was replaced by another file record of that name
      reads the new record. */
  lemma {:induction false} CatReplaced(v: Volume, u: Volume, name: string, i: nat, e: DirEntry)
    requires VolumeOk(v) && VolumeOk(u) && v.cwd == u.cwd < |v.disk| && |u.disk| == |v.disk|
    requires FirstIndex(SlotsAt(v, v.cwd), Named(name)) == i
    requires SlotsAt(u, u.cwd) == SlotsAt(v, v.cwd)[i := e] && e.name == name && e.kind == File
    ensures var rd := ReadChain(u, AsInt16(e.firstBlk), e.size);
      CatSpec(u, name) == (if rd.ok then 0 else 5, rd.data)
  {
    var s := SlotsAt(u, u.cwd);
    assert forall j :: 0 <= j < i ==> s[j] == SlotsAt(v, v.cwd)[j];
    FirstIndexAt(s, Named(name), i);
    CatAt(u, name, i);
  }

  /** append to an empty root file: the new block holds the whole source. */
  lemma {:induction false} AppendToEmpty(v: Volume, dst: string, di: nat, data: seq<Byte>)
    requires CwdAllocated(v) && v.cwd == ROOT_BLOCK && 0 < |data| <= v.blockSize
    requires FirstIndex(SlotsAt(v, ROOT_BLOCK), Named(dst)) == di
    requires var dest := SlotsAt(v, ROOT_BLOCK)[di];
      dest.kind == File && dest.firstBlk == NO_BLOCK && dest.size == 0
    requires AppendBytes(v, SlotsAt(v, ROOT_BLOCK), di, data).0 == 0
    ensures CatSpec(AppendBytes(v, SlotsAt(v, ROOT_BLOCK), di, data).1, dst) == (0, CatSpec(v, dst).1 + data)
  {
    var root := SlotsAt(v, ROOT_BLOCK);
    var dest := root[di];
    var u := AppendBytes(v, root, di, data).1;
    var w := WriteContent(v, data, 0);
    assert FillLast(v, dest, data) == Filled(v, 0);
    var b := LowestFree(v.fat, 0);
    assert w.first == b && b != ROOT_BLOCK;
    LastPieceSuffix(data, 0, v.blockSize);
    assert data[0..] == data;
    assert u.fat == v.fat[b := FAT_EOF] && u.disk[b] == Data(Pad(data, v.blockSize));
    assert AsInt16(b) == b;
    ReadOneBlock(u, b, data);
    AppendRoot(v, di, data);
    var e := dest.(size := |data|, firstBlk := w.first);
    assert SlotsAt(u, ROOT_BLOCK) == root[di := e];
    CatReplaced(v, u, dst, di, e);
    assert AsInt16(e.firstBlk) == b;
    assert CatSpec(u, dst) == (0, data);
    CatAt(v, dst, di);
    assert CatSpec(v, dst).1 + data == data;
  }

  /** Where append into a destination with allocated blocks writes: the table gains the
      new block behind the last one when the fill did not take everything, and every
      block but the root is as the write loop left it. */
  lemma {:induction false} AppendChainShape(v: Volume, di: nat, data: seq<Byte>)
    requires VolumeOk(v) && 0 < |data| && di < v.entries
    requires var dest := SlotsAt(v, ROOT_BLOCK)[di];
      dest.firstBlk != NO_BLOCK && UsedChain(v.fat, AsInt16(dest.firstBlk))
    requires AppendBytes(v, SlotsAt(v, ROOT_BLOCK), di, data).0 == 0
    ensures var dest := SlotsAt(v, ROOT_BLOCK)[di];
      var u := AppendBytes(v, SlotsAt(v, ROOT_BLOCK), di, data).1;
      var f := FillLast(v, dest, data);
      var w := WriteContent(f.vol, data, f.taken);
      var last := LastBlockOf(v, dest);
      w.ok &&
      (w.first == NO_BLOCK ==> u.fat == v.fat) &&
      (w.first != NO_BLOCK ==> u.fat == w.vol.fat[last := w.first as I16]) &&
      forall x :: 0 <= x < |v.disk| && x != ROOT_BLOCK ==> u.disk[x] == w.vol.disk[x]
  {
    var root := SlotsAt(v, ROOT_BLOCK);
    var dest := root[di];
    var h := AsInt16(dest.firstBlk);
    var f := FillLast(v, dest, data);
    var w := WriteContent(f.vol, data, f.taken);
    if w.first != NO_BLOCK {
      var b := w.first as nat;
      assert v.fat[b] == FAT_FREE;
      assert b !in Chain(v.fat, h);
      ChainFrame(v.fat, h, b, FAT_EOF);
      assert LastBlockOf(w.vol, dest) == LastBlockOf(v, dest);
    }
  }

  /** The fill step in the two cases the code distinguishes. */
  lemma {:induction false} FillShape(v: Volume, dest: DirEntry, data: seq<Byte>)
    requires VolumeOk(v) && dest.firstBlk != NO_BLOCK && ChainOk(v.fat, AsInt16(dest.firstBlk))
    ensures var f := FillLast(v, dest, data);
      var used := dest.size % v.blockSize;
      var last := LastBlockOf(v, dest);
      (used == 0 || |data| == 0 ==> f == Filled(v, 0)) &&
      (used != 0 && |data| > 0 ==>
        f.taken == Min(|data|, v.blockSize - used) &&
        f.vol == v.(disk := v.disk[last := Data(FillTail(BytesAt(v, last), used, data[..f.taken]))]))
  {
  }

  /** How append into a destination with blocks leaves the volume, in terms of the
      volume before: when `data` fits the free end of the last block, the table stays and
      the last block holds `data` after its first `used` bytes; otherwise the last block is
      filled up with the first `k` bytes and one new block `b`, the lowest FREE one, is
      linked behind it holding the last block's worth of the rest (the write loop
      overwrites `b` on every round). No other block but the root changes. */
  ghost predicate TailWritten(v: Volume, u: Volume, dest: DirEntry, data: seq<Byte>)
    requires VolumeOk(v) && VolumeOk(u) && SameFrame(v, u)
    requires dest.firstBlk != NO_BLOCK && ChainOk(v.fat, AsInt16(dest.firstBlk))
  {
    var B := v.blockSize;
    var last := LastBlockOf(v, dest);
    var X := BytesAt(v, last);
    var used := dest.size % B;
    var b := LowestFree(v.fat, 0);
    if used != 0 && |data| <= B - used then
      u.fat == v.fat && u.disk[last] == Data(FillTail(X, used, data)) &&
      forall x :: 0 <= x < |v.disk| && x != ROOT_BLOCK && x != last ==> u.disk[x] == v.disk[x]
    else
      var k := if used == 0 then 0 else B - used;
      k < |data| && 0 < b < |v.disk| && b != last &&
      u.fat == v.fat[b := FAT_EOF][last := b as I16] &&
      BytesOf(u.disk[last], B) == FillTail(X, TailBytes(dest.size, B), data[..k]) &&
      u.disk[b] == Data(Pad(LastPiece(data, k, B), B)) &&
      forall x :: 0 <= x < |v.disk| && x != ROOT_BLOCK && x != last && x != b ==> u.disk[x] == v.disk[x]
  }

  /** The fill and write steps of append, as AppendChainShape states them, leave the
      volume as TailWritten says. */
  lemma {:induction false} AppendWritesTail(v: Volume, u: Volume, dest: DirEntry, data: seq<Byte>)
    requires VolumeOk(v) && VolumeOk(u) && SameFrame(v, u) && 0 < |data|
    requires v.fat[ROOT_BLOCK] != FAT_FREE && dest.firstBlk != NO_BLOCK
    requires UsedChain(v.fat, AsInt16(dest.firstBlk)) && ROOT_BLOCK !in Chain(v.fat, AsInt16(dest.firstBlk))
    requires var f := FillLast(v, dest, data);
      var w := WriteContent(f.vol, data, f.taken);
      w.ok &&
      (w.first == NO_BLOCK ==> u.fat == v.fat) &&
      (w.first != NO_BLOCK ==> u.fat == w.vol.fat[LastBlockOf(v, dest) := w.first as I16]) &&
      forall x :: 0 <= x < |v.disk| && x != ROOT_BLOCK ==> u.disk[x] == w.vol.disk[x]
    ensures TailWritten(v, u, dest, data)
  {
    var used := dest.size % v.blockSize;
    if used != 0 && |data| <= v.blockSize - used {
      AppendFillsTail(v, u, dest, data);
    } else {
      AppendSpillsTail(v, u, dest, data);
    }
  }

  /** AppendWritesTail when `data` fits in the last block. */
  lemma {:induction false} AppendFillsTail(v: Volume, u: Volume, dest: DirEntry, data: seq<Byte>)
    requires VolumeOk(v) && VolumeOk(u) && SameFrame(v, u) && 0 < |data|
    requires v.fat[ROOT_BLOCK] != FAT_FREE && dest.firstBlk != NO_BLOCK
    requires UsedChain(v.fat, AsInt16(dest.firstBlk)) && ROOT_BLOCK !in Chain(v.fat, AsInt16(dest.firstBlk))
    requires var f := FillLast(v, dest, data);
      var w := WriteContent(f.vol, data, f.taken);
      w.ok &&
      (w.first == NO_BLOCK ==> u.fat == v.fat) &&
      (w.first != NO_BLOCK ==> u.fat == w.vol.fat[LastBlockOf(v, dest) := w.first as I16]) &&
      forall x :: 0 <= x < |v.disk| && x != ROOT_BLOCK ==> u.disk[x] == w.vol.disk[x]
    requires dest.size % v.blockSize != 0 && |data| <= v.blockSize - dest.size % v.blockSize
    ensures TailWritten(v, u, dest, data)
  {
    var f := FillLast(v, dest, data);
    var w := WriteContent(f.vol, data, f.taken);
    FillShape(v, dest, data);
    assert data[..f.taken] == data;
    assert w.vol == f.vol;
  }

  /** AppendWritesTail when `data` spills over the last block. */
  lemma {:induction false} AppendSpillsTail(v: Volume, u: Volume, dest: DirEntry, data: seq<Byte>)
    requires VolumeOk(v) && VolumeOk(u) && SameFrame(v, u) && 0 < |data|
    requires v.fat[ROOT_BLOCK] != FAT_FREE && dest.firstBlk != NO_BLOCK
    requires UsedChain(v.fat, AsInt16(dest.firstBlk)) && ROOT_BLOCK !in Chain(v.fat, AsInt16(dest.firstBlk))
    requires var f := FillLast(v, dest, data);
      var w := WriteContent(f.vol, data, f.taken);
      w.ok &&
      (w.first == NO_BLOCK ==> u.fat == v.fat) &&
      (w.first != NO_BLOCK ==> u.fat == w.vol.fat[LastBlockOf(v, dest) := w.first as I16]) &&
      forall x :: 0 <= x < |v.disk| && x != ROOT_BLOCK ==> u.disk[x] == w.vol.disk[x]
    requires dest.size % v.blockSize == 0 || |data| > v.blockSize - dest.size % v.blockSize
    ensures TailWritten(v, u, dest, data)
  {
    var B := v.blockSize;
    var c := Chain(v.fat, AsInt16(dest.firstBlk));
    var last := LastBlockOf(v, dest);
    var used := dest.size % B;
    var X := BytesAt(v, last);
    var f := FillLast(v, dest, data);
    var w := WriteContent(f.vol, data, f.taken);
    FillShape(v, dest, data);
    assert last in c && v.fat[last] == FAT_EOF;
    var k := if used == 0 then 0 else B - used;
    var b := LowestFree(v.fat, 0);
    assert k == f.taken && w.first == b;
    if used == 0 {
      assert data[0..] == data && X == FillTail(X, B, data[..0]);
    }
  }

  /** Reading a destination whose record spans its chain after append wrote it: the
      chain's blocks are still linked, those before the last keep their bytes, and the
      last reads as its old bytes up to the size followed by all of `data`. */
  lemma {:induction false} TailReads(v: Volume, u: Volume, dest: DirEntry, data: seq<Byte>)
    requires VolumeOk(v) && VolumeOk(u) && SameFrame(v, u) && 0 < |data|
    requires dest.firstBlk != NO_BLOCK && Spans(v, dest)
    requires |data| + TailBytes(dest.size, v.blockSize) <= 2 * v.blockSize
    requires TailWritten(v, u, dest, data)
    ensures var c := Chain(v.fat, AsInt16(dest.firstBlk));
      var r := TailBytes(dest.size, v.blockSize);
      Linked(u.fat, c) && Front(u, c, 0) == Front(v, c, 0) &&
      ReadChain(u, Last(c), r + |data|) == ReadResult(true, BytesAt(v, Last(c))[..r] + data)
  {
    var used := dest.size % v.blockSize;
    if used != 0 && |data| <= v.blockSize - used {
      TailReadsFill(v, u, dest, data);
    } else {
      TailReadsSpill(v, u, dest, data);
    }
  }

  /** TailReads when `data` fits in the last block. */
  lemma {:induction false} TailReadsFill(v: Volume, u: Volume, dest: DirEntry, data: seq<Byte>)
    requires VolumeOk(v) && VolumeOk(u) && SameFrame(v, u) && 0 < |data|
    requires dest.firstBlk != NO_BLOCK && Spans(v, dest)
    requires |data| + TailBytes(dest.size, v.blockSize) <= 2 * v.blockSize
    requires TailWritten(v, u, dest, data)
    requires dest.size % v.blockSize != 0 && |data| <= v.blockSize - dest.size % v.blockSize
    ensures var c := Chain(v.fat, AsInt16(dest.firstBlk));
      var r := TailBytes(dest.size, v.blockSize);
      Linked(u.fat, c) && Front(u, c, 0) == Front(v, c, 0) &&
      ReadChain(u, Last(c), r + |data|) == ReadResult(true, BytesAt(v, Last(c))[..r] + data)
  {
    var c := Chain(v.fat, AsInt16(dest.firstBlk));
    var r := TailBytes(dest.size, v.blockSize);
    assert Last(c) == LastBlockOf(v, dest);
    TailFill(v, u, c, r, data);
    KeepLinked(v.fat, u.fat, c, -1);
    KeepFront(v, u, c, -1);
  }

  /** TailReads when `data` spills over the last block. */
  lemma {:induction false} TailReadsSpill(v: Volume, u: Volume, dest: DirEntry, data: seq<Byte>)
    requires VolumeOk(v) && VolumeOk(u) && SameFrame(v, u) && 0 < |data|
    requires dest.firstBlk != NO_BLOCK && Spans(v, dest)
    requires |data| + TailBytes(dest.size, v.blockSize) <= 2 * v.blockSize
    requires TailWritten(v, u, dest, data)
    requires dest.size % v.blockSize == 0 || |data| > v.blockSize - dest.size % v.blockSize
    ensures var c := Chain(v.fat, AsInt16(dest.firstBlk));
      var r := TailBytes(dest.size, v.blockSize);
      Linked(u.fat, c) && Front(u, c, 0) == Front(v, c, 0) &&
      ReadChain(u, Last(c), r + |data|) == ReadResult(true, BytesAt(v, Last(c))[..r] + data)
  {
    var B := v.blockSize;
    var c := Chain(v.fat, AsInt16(dest.firstBlk));
    var r := TailBytes(dest.size, B);
    var used := dest.size % B;
    var k := if used == 0 then 0 else B - used;
    var b := LowestFree(v.fat, 0);
    SpillFacts(v, u, dest, data);
    SpillReads(v, u, c, b, r, data, k);
  }

  /** The spill branch of TailWritten spelt out over the chain `c`, the new block `b`,
      the bytes `r` in use in the last block and the `k` bytes that fill it. */
  lemma {:induction false} SpillFacts(v: Volume, u: Volume, dest: DirEntry, data: seq<Byte>)
    requires VolumeOk(v) && VolumeOk(u) && SameFrame(v, u) && 0 < |data|
    requires dest.firstBlk != NO_BLOCK && Spans(v, dest)
    requires |data| + TailBytes(dest.size, v.blockSize) <= 2 * v.blockSize
    requires TailWritten(v, u, dest, data)
    requires dest.size % v.blockSize == 0 || |data| > v.blockSize - dest.size % v.blockSize
    ensures var B := v.blockSize;
      var c := Chain(v.fat, AsInt16(dest.firstBlk));
      var r := TailBytes(dest.size, B);
      var k := if dest.size % B == 0 then 0 else B - dest.size % B;
      var b := LowestFree(v.fat, 0);
      Linked(v.fat, c) && Distinct(c) && ROOT_BLOCK !in c && b < |v.disk| && b !in c &&
      u.fat == v.fat[b := FAT_EOF][Last(c) := b as I16] &&
      0 < r && r + k == B && k < |data| <= k + B &&
      BytesOf(u.disk[Last(c)], B) == FillTail(BytesAt(v, Last(c)), r, data[..k]) &&
      u.disk[b] == Data(Pad(data[k..], B)) &&
      forall x :: 0 <= x < |v.disk| && x != ROOT_BLOCK && x != Last(c) && x != b ==> u.disk[x] == v.disk[x]
  {
    var B := v.blockSize;
    var c := Chain(v.fat, AsInt16(dest.firstBlk));
    var used := dest.size % B;
    assert Last(c) == LastBlockOf(v, dest);
    var k := if used == 0 then 0 else B - used;
    var b := LowestFree(v.fat, 0);
    assert b !in c;
    LastPieceSuffix(data, k, B);
  }

  /** Reading after the spill: the chain's blocks keep their links, those before the last
      keep their bytes, and the last followed by `b` reads as its first `r` bytes and `data`. */
  lemma {:induction false} SpillReads(v: Volume, u: Volume, c: seq<nat>, b: nat, r: nat, data: seq<Byte>, k: nat)
    requires VolumeOk(v) && VolumeOk(u) && SameFrame(v, u)
    requires Linked(v.fat, c) && Distinct(c) && ROOT_BLOCK !in c && b < |v.disk| && b !in c
    requires u.fat == v.fat[b := FAT_EOF][Last(c) := b as I16]
    requires 0 < r && r + k == v.blockSize && k < |data| <= k + v.blockSize
    requires BytesOf(u.disk[Last(c)], v.blockSize) == FillTail(BytesAt(v, Last(c)), r, data[..k])
    requires u.disk[b] == Data(Pad(data[k..], v.blockSize))
    requires forall x :: 0 <= x < |v.disk| && x != ROOT_BLOCK && x != Last(c) && x != b ==> u.disk[x] == v.disk[x]
    ensures Linked(u.fat, c) && Front(u, c, 0) == Front(v, c, 0)
    ensures ReadChain(u, Last(c), r + |data|) == ReadResult(true, BytesAt(v, Last(c))[..r] + data)
  {
    TailSpill(v, u, c, b, r, data, k);
    KeepLinked(v.fat, u.fat, c, b);
    KeepFront(v, u, c, b);
  }

  /** Blocks before the last of a chain keep their links when only the last block's
      entry and an entry off the chain change. */
  lemma {:induction false} KeepLinked(t: seq<I16>, u: seq<I16>, c: seq<nat>, b: int)
    requires Linked(t, c) && Distinct(c) && |u| == |t| && b !in c
    requires forall x :: 0 <= x < |t| && x != Last(c) && x != b ==> u[x] == t[x]
    ensures Linked(u, c)
  {
    forall k | 0 <= k < |c| - 1
      ensures u[c[k]] == c[k + 1]
    {
      assert c[k] != Last(c);
    }
  }

  /** Blocks before the last of a chain keep their bytes when only the root, the last
      block and a block off the chain change. */
  lemma {:induction false} KeepFront(v: Volume, u: Volume, c: seq<nat>, b: int)
    requires VolumeOk(v) && VolumeOk(u) && SameFrame(v, u) && Linked(v.fat, c) && Distinct(c)
    requires b !in c && ROOT_BLOCK !in c
    requires forall x :: 0 <= x < |v.disk| && x != ROOT_BLOCK && x != Last(c) && x != b ==> u.disk[x] == v.disk[x]
    ensures Front(u, c, 0) == Front(v, c, 0)
  {
    forall j | 0 <= j < |c| - 1
      ensures BytesAt(u, c[j]) == BytesAt(v, c[j])
    {
      assert c[j] != Last(c) && c[j] in c;
    }
    FrontSame(v, u, c, 0);
  }

  /** The source fits the free end of the last block. */
  lemma {:induction false} TailFill(v: Volume, u: Volume, c: seq<nat>, r: nat, data: seq<Byte>)
    requires VolumeOk(v) && VolumeOk(u) && SameFrame(v, u) && Linked(v.fat, c)
    requires u.fat == v.fat && v.fat[Last(c)] == FAT_EOF
    requires 0 < r && r + |data| <= v.blockSize && 0 < |data|
    requires u.disk[Last(c)] == Data(FillTail(BytesAt(v, Last(c)), r, data))
    ensures ReadChain(u, Last(c), r + |data|) == ReadResult(true, BytesAt(v, Last(c))[..r] + data)
  {
    var last := Last(c);
    ReadPrefix(u, last, r + |data|);
    FillPrefix(BytesAt(v, last), r, data);
  }

  /** The bytes of a filled buffer up to the end of the piece: the old ones, then the piece. */
  lemma {:induction false} FillPrefix(bytes: seq<Byte>, r: nat, piece: seq<Byte>)
    requires r + |piece| <= |bytes|
    ensures FillTail(bytes, r, piece)[..r + |piece|] == bytes[..r] + piece
  {
    var f := FillTail(bytes, r, piece);
    assert f[..r + |piece|] == f[..r] + f[r..r + |piece|];
  }

  /** One round of the read loop that takes a whole block. */
  lemma {:induction false} ReadStep(u: Volume, x: nat, left: nat)
    requires VolumeOk(u) && x < |u.disk| && left > u.blockSize
    ensures var rest := ReadChain(u, u.fat[x], left - u.blockSize);
      ReadChain(u, x, left) == ReadResult(rest.ok, BytesAt(u, x) + rest.data)
  {
    assert Min(left, u.blockSize) == u.blockSize;
    assert BytesAt(u, x)[..u.blockSize] == BytesAt(u, x);
  }

  /** The first `k` bytes of the source fill the last block and the rest go to the new
      block `b` behind it; `k` is 0 when the last block was full. */
  lemma {:induction false} TailSpill(v: Volume, u: Volume, c: seq<nat>, b: nat, r: nat, data: seq<Byte>, k: nat)
    requires VolumeOk(v) && VolumeOk(u) && SameFrame(v, u) && Linked(v.fat, c)
    requires b < |v.disk| && b != Last(c) && u.fat == v.fat[b := FAT_EOF][Last(c) := b as I16]
    requires 0 < r && r + k == v.blockSize && k < |data| <= k + v.blockSize
    requires BytesOf(u.disk[Last(c)], v.blockSize) == FillTail(BytesAt(v, Last(c)), r, data[..k])
    requires u.disk[b] == Data(Pad(data[k..], v.blockSize))
    ensures ReadChain(u, Last(c), r + |data|) == ReadResult(true, BytesAt(v, Last(c))[..r] + data)
  {
    var last := Last(c);
    ReadStep(u, last, r + |data|);
    ReadPrefix(u, b, |data| - k);
    FillPrefix(BytesAt(v, last), r, data[..k]);
    assert data[..k] + data[k..] == data;
  }

  /** append to a root file whose last block has room for all but at most one block of
      the source's bytes: cat of the destination afterwards prints its old content
      followed by the source's. */
  lemma {:induction false} AppendThenCat(v: Volume, src: string, dst: string)
    requires AppendAllowed(v, src, dst) && CwdAllocated(v) && v.cwd == ROOT_BLOCK
    requires Unique(SlotsAt(v, ROOT_BLOCK), src) && Unique(SlotsAt(v, ROOT_BLOCK), dst)
    requires CatSpec(v, src).0 == 0 && CatSpec(v, dst).0 == 0
    requires var root := SlotsAt(v, ROOT_BLOCK);
      var di := FirstIndex(root, Named(dst));
      0 <= di && Spans(v, root[di]) &&
      |CatSpec(v, src).1| + TailBytes(root[di].size, v.blockSize) <= 2 * v.blockSize
    requires AppendSpec(v, src, dst).0 == 0
    ensures CatSpec(AppendSpec(v, src, dst).1, dst) == (0, CatSpec(v, dst).1 + CatSpec(v, src).1)
  {
    var root := SlotsAt(v, ROOT_BLOCK);
    UniqueFirstLast(root, dst);
    var di: nat := FirstIndex(root, Named(dst));
    var dest := root[di];
    var data := CatSpec(v, src).1;
    var u := AppendSpec(v, src, dst).1;
    if data == [] {
      UniqueFirstLast(root, src);
      assert u == v;
      assert CatSpec(v, dst).1 + data == CatSpec(v, dst).1;
    } else {
      AppendReadsCat(v, src, dst);
      assert u == AppendBytes(v, root, di, data).1;
      assert dest.kind == File;
      AppendBytesThenCat(v, dst, di, data);
    }
  }

  /** append of `data` to a root file whose record spans its chain, with room for all
      but at most one block of `data` in the last block: cat afterwards prints the old
      content followed by `data`. */
  lemma {:induction false} AppendBytesThenCat(v: Volume, dst: string, di: nat, data: seq<Byte>)
    requires CwdAllocated(v) && v.cwd == ROOT_BLOCK && 0 < |data|
    requires FirstIndex(SlotsAt(v, ROOT_BLOCK), Named(dst)) == di
    requires var dest := SlotsAt(v, ROOT_BLOCK)[di];
      dest.kind == File && Spans(v, dest) &&
      |data| + TailBytes(dest.size, v.blockSize) <= 2 * v.blockSize
    requires AppendBytes(v, SlotsAt(v, ROOT_BLOCK), di, data).0 == 0
    ensures CatSpec(AppendBytes(v, SlotsAt(v, ROOT_BLOCK), di, data).1, dst) == (0, CatSpec(v, dst).1 + data)
  {
    var dest := SlotsAt(v, ROOT_BLOCK)[di];
    if dest.firstBlk == NO_BLOCK {
      AppendToEmpty(v, dst, di, data);
    } else {
      AppendChainThenCat(v, dst, di, data);
    }
  }

  /** append of `data` to a root file with blocks whose record spans its chain: cat
      afterwards prints the old content followed by `data`. */
  lemma {:induction false} AppendChainThenCat(v: Volume, dst: string, di: nat, data: seq<Byte>)
    requires CwdAllocated(v) && v.cwd == ROOT_BLOCK && 0 < |data|
    requires FirstIndex(SlotsAt(v, ROOT_BLOCK), Named(dst)) == di
    requires var dest := SlotsAt(v, ROOT_BLOCK)[di];
      dest.kind == File && dest.firstBlk != NO_BLOCK && Spans(v, dest) &&
      |data| + TailBytes(dest.size, v.blockSize) <= 2 * v.blockSize
    requires AppendBytes(v, SlotsAt(v, ROOT_BLOCK), di, data).0 == 0
    ensures CatSpec(AppendBytes(v, SlotsAt(v, ROOT_BLOCK), di, data).1, dst) == (0, CatSpec(v, dst).1 + data)
  {
    var u := AppendBytes(v, SlotsAt(v, ROOT_BLOCK), di, data).1;
    AppendTailWritten(v, di, data);
    TailThenCat(v, u, dst, di, data);
  }

  /** How append into a root file with blocks whose chain is allocated and misses the
      root leaves the volume: as TailWritten says, with the record grown by `data`. */
  lemma {:induction false} AppendTailWritten(v: Volume, di: nat, data: seq<Byte>)
    requires CwdAllocated(v) && v.cwd == ROOT_BLOCK && 0 < |data| && di < v.entries
    requires var dest := SlotsAt(v, ROOT_BLOCK)[di];
      dest.firstBlk != NO_BLOCK && UsedChain(v.fat, AsInt16(dest.firstBlk)) &&
      ROOT_BLOCK !in Chain(v.fat, AsInt16(dest.firstBlk))
    requires AppendBytes(v, SlotsAt(v, ROOT_BLOCK), di, data).0 == 0
    ensures var root := SlotsAt(v, ROOT_BLOCK);
      var u := AppendBytes(v, root, di, data).1;
      TailWritten(v, u, root[di], data) &&
      SlotsAt(u, ROOT_BLOCK) == root[di := root[di].(size := root[di].size + |data|)]
  {
    var root := SlotsAt(v, ROOT_BLOCK);
    var dest := root[di];
    var u := AppendBytes(v, root, di, data).1;
    AppendChainShape(v, di, data);
    AppendWritesTail(v, u, dest, data);
    AppendRoot(v, di, data);
  }

  /** cat of a root file that spans its chain, after a volume change as TailWritten
      describes with at most one block added and the record grown by `|data|`: the old
      content followed by `data`. */
  lemma {:induction false} TailThenCat(v: Volume, u: Volume, dst: string, di: nat, data: seq<Byte>)
    requires VolumeOk(v) && VolumeOk(u) && SameFrame(v, u) && v.cwd == ROOT_BLOCK && 0 < |data|
    requires FirstIndex(SlotsAt(v, ROOT_BLOCK), Named(dst)) == di
    requires var dest := SlotsAt(v, ROOT_BLOCK)[di];
      dest.kind == File && dest.firstBlk != NO_BLOCK && Spans(v, dest) &&
      |data| + TailBytes(dest.size, v.blockSize) <= 2 * v.blockSize &&
      TailWritten(v, u, dest, data) &&
      SlotsAt(u, ROOT_BLOCK) == SlotsAt(v, ROOT_BLOCK)[di := dest.(size := dest.size + |data|)]
    ensures CatSpec(u, dst) == (0, CatSpec(v, dst).1 + data)
  {
    var dest := SlotsAt(v, ROOT_BLOCK)[di];
    ChainReads(v, u, dest, data);
    var before := ReadChain(v, AsInt16(dest.firstBlk), dest.size);
    assert before.ok && dest.kind == File;
    assert ReadChain(u, AsInt16(dest.firstBlk), dest.size + |data|) == ReadResult(true, before.data + data);
    assert SlotsAt(u, ROOT_BLOCK) == SlotsAt(v, ROOT_BLOCK)[di := dest.(size := dest.size + |data|)];
    assert FirstIndex(SlotsAt(v, ROOT_BLOCK), Named(dst)) == di;
    assert VolumeOk(v);
    assert VolumeOk(u);
    assert SameFrame(v, u) && v.cwd == ROOT_BLOCK;
    ChainThenCat(v, u, dst, di, data);
  }

  /** cat of a root file whose record grew by `data` and whose blocks now read as the
      old content followed by `data`: exactly that. */
  lemma {:induction false} ChainThenCat(v: Volume, u: Volume, dst: string, di: nat, data: seq<Byte>)
    requires VolumeOk(v) && VolumeOk(u) && SameFrame(v, u) && v.cwd == ROOT_BLOCK
    requires FirstIndex(SlotsAt(v, ROOT_BLOCK), Named(dst)) == di
    requires var dest := SlotsAt(v, ROOT_BLOCK)[di];
      var before := ReadChain(v, AsInt16(dest.firstBlk), dest.size);
      dest.kind == File && before.ok &&
      ReadChain(u, AsInt16(dest.firstBlk), dest.size + |data|) == ReadResult(true, before.data + data) &&
      SlotsAt(u, ROOT_BLOCK) == SlotsAt(v, ROOT_BLOCK)[di := dest.(size := dest.size + |data|)]
    ensures CatSpec(u, dst) == (0, CatSpec(v, dst).1 + data)
  {
    var dest := SlotsAt(v, ROOT_BLOCK)[di];
    var h := AsInt16(dest.firstBlk);
    var e := dest.(size := dest.size + |data|);
    var before := ReadChain(v, h, dest.size);
    assert AsInt16(e.firstBlk) == h && e.size == dest.size + |data|;
    assert ReadChain(u, AsInt16(e.firstBlk), e.size) == ReadResult(true, before.data + data);
    CatReplaced(v, u, dst, di, e);
    assert CatSpec(u, dst) == (0, before.data + data);
    CatAt(v, dst, di);
  }

  /** Reading a destination whose record spans its chain after append wrote it: the old
      size reads without error, and the grown size reads as the old bytes and `data`. */
  lemma {:induction false} ChainReads(v: Volume, u: Volume, dest: DirEntry, data: seq<Byte>)
    requires VolumeOk(v) && VolumeOk(u) && SameFrame(v, u) && 0 < |data|
    requires dest.firstBlk != NO_BLOCK && Spans(v, dest)
    requires |data| + TailBytes(dest.size, v.blockSize) <= 2 * v.blockSize
    requires TailWritten(v, u, dest, data)
    ensures var h := AsInt16(dest.firstBlk);
      var before := ReadChain(v, h, dest.size);
      before.ok && ReadChain(u, h, dest.size + |data|) == ReadResult(true, before.data + data)
  {
    TailReads(v, u, dest, data);
    ReadsGrown(v, u, dest, data);
  }

  /** ChainReads once the chain's last block is known to read as its old bytes and `data`
      and the blocks before it are known to keep theirs. */
  lemma {:induction false} ReadsGrown(v: Volume, u: Volume, dest: DirEntry, data: seq<Byte>)
    requires VolumeOk(v) && VolumeOk(u) && SameFrame(v, u)
    requires dest.firstBlk != NO_BLOCK && Spans(v, dest)
    requires var c := Chain(v.fat, AsInt16(dest.firstBlk));
      var r := TailBytes(dest.size, v.blockSize);
      Linked(u.fat, c) && Front(u, c, 0) == Front(v, c, 0) &&
      ReadChain(u, Last(c), r + |data|) == ReadResult(true, BytesAt(v, Last(c))[..r] + data)
    ensures var h := AsInt16(dest.firstBlk);
      var before := ReadChain(v, h, dest.size);
      before.ok && ReadChain(u, h, dest.size + |data|) == ReadResult(true, before.data + data)
  {
    var c := Chain(v.fat, AsInt16(dest.firstBlk));
    var r := TailBytes(dest.size, v.blockSize);
    assert c[0] == AsInt16(dest.firstBlk) && dest.size == Span(r, |c| - 1, v.blockSize);
    SpanAdd(r, |c| - 1, v.blockSize, |data|);
    assert dest.size + |data| == Span(r + |data|, |c| - 1, v.blockSize);
    GrownRead(v, u, c, r, data);
  }

  /** Linked blocks `c` read `Span(r, |c| - 1, B)` bytes before and as many plus `|data|`
      after, when the blocks before the last keep their bytes and the last, an EOF, now
      reads as its first `r` bytes and `data`. */
  lemma {:induction false} GrownRead(v: Volume, u: Volume, c: seq<nat>, r: nat, data: seq<Byte>)
    requires VolumeOk(v) && VolumeOk(u) && SameFrame(v, u) && Linked(v.fat, c) && Linked(u.fat, c)
    requires 0 < r <= v.blockSize && v.fat[Last(c)] == FAT_EOF && Front(u, c, 0) == Front(v, c, 0)
    requires ReadChain(u, Last(c), r + |data|) == ReadResult(true, BytesAt(v, Last(c))[..r] + data)
    ensures var n := Span(r, |c| - 1, v.blockSize);
      ReadChain(v, c[0], n).ok &&
      ReadChain(u, c[0], Span(r + |data|, |c| - 1, v.blockSize)) == ReadResult(true, ReadChain(v, c[0], n).data + data)
  {
    var F := Front(v, c, 0);
    var X := BytesAt(v, Last(c))[..r];
    WholeRead(v, c, r);
    assert F + (X + data) == F + X + data;
    LinkedRead(u, c, r + |data|, X + data);
  }

  /** Linked blocks whose last is an EOF read `Span(r, |c| - 1, B)` bytes as those of the
      blocks before the last and the first `r` of the last. */
  lemma {:induction false} WholeRead(v: Volume, c: seq<nat>, r: nat)
    requires VolumeOk(v) && Linked(v.fat, c) && 0 < r <= v.blockSize && v.fat[Last(c)] == FAT_EOF
    ensures ReadChain(v, c[0], Span(r, |c| - 1, v.blockSize)) ==
      ReadResult(true, Front(v, c, 0) + BytesAt(v, Last(c))[..r])
  {
    ReadFront(v, c, 0, r);
    ReadPrefix(v, Last(c), r);
  }

  /** Linked blocks whose last reads `r` bytes as `tail` read `Span(r, |c| - 1, B)`
      bytes as those of the blocks before the last and `tail`. */
  lemma {:induction false} LinkedRead(v: Volume, c: seq<nat>, r: nat, tail: seq<Byte>)
    requires VolumeOk(v) && Linked(v.fat, c) && 0 < r && ReadChain(v, Last(c), r) == ReadResult(true, tail)
    ensures ReadChain(v, c[0], Span(r, |c| - 1, v.blockSize)) == ReadResult(true, Front(v, c, 0) + tail)
  {
    ReadFront(v, c, 0, r);
  }

  /** append leaves the source alone: when the source's blocks are allocated, neither
      chain passes through the root directory's block and the two share no block, cat of
      the source prints the same afterwards, whatever append returned. */
  lemma {:induction false} AppendKeepsSource(v: Volume, src: string, dst: string)
    requires AppendAllowed(v, src, dst) && v.cwd == ROOT_BLOCK && src != dst
    requires var root := SlotsAt(v, ROOT_BLOCK);
      var di := LastIndex(root, Named(dst));
      0 <= di && root[di].firstBlk != NO_BLOCK && ChainOk(v.fat, AsInt16(root[di].firstBlk)) ==>
        ROOT_BLOCK !in Chain(v.fat, AsInt16(root[di].firstBlk))
    requires var root := SlotsAt(v, ROOT_BLOCK);
      var i := FirstIndex(root, Named(src));
      var di := LastIndex(root, Named(dst));
      0 <= i && root[i].firstBlk != NO_BLOCK ==>
        var hs := AsInt16(root[i].firstBlk);
        UsedChain(v.fat, hs) && ROOT_BLOCK !in Chain(v.fat, hs) &&
        (0 <= di && root[di].firstBlk != NO_BLOCK && ChainOk(v.fat, AsInt16(root[di].firstBlk)) ==>
          forall x :: x in Chain(v.fat, hs) ==> x !in Chain(v.fat, AsInt16(root[di].firstBlk)))
    ensures CatSpec(AppendSpec(v, src, dst).1, src) == CatSpec(v, src)
  {
    var root := SlotsAt(v, ROOT_BLOCK);
    var si := LastIndex(root, Named(src));
    var di := LastIndex(root, Named(dst));
    if AppendSpec(v, src, dst).1 != v {
      var data := ReadChain(v, AsInt16(root[si].firstBlk), root[si].size).data;
      assert AppendSpec(v, src, dst) == AppendBytes(v, root, di, data);
      AppendLeavesFile(v, src, di, data);
    }
  }

  /** append of `data` to the root record `di` leaves cat of another name alone, under the
      hypotheses of AppendKeepsSource. */
  lemma {:induction false} AppendLeavesFile(v: Volume, name: string, di: nat, data: seq<Byte>)
    requires VolumeOk(v) && v.cwd == ROOT_BLOCK && 0 < |data| && di < v.entries
    requires var dest := SlotsAt(v, ROOT_BLOCK)[di];
      dest.name != name &&
      (dest.firstBlk != NO_BLOCK ==>
        ChainOk(v.fat, AsInt16(dest.firstBlk)) && ROOT_BLOCK !in Chain(v.fat, AsInt16(dest.firstBlk)))
    requires var root := SlotsAt(v, ROOT_BLOCK);
      var i := FirstIndex(root, Named(name));
      var dest := root[di];
      0 <= i && root[i].firstBlk != NO_BLOCK ==>
        var hs := AsInt16(root[i].firstBlk);
        UsedChain(v.fat, hs) && ROOT_BLOCK !in Chain(v.fat, hs) &&
        (dest.firstBlk != NO_BLOCK ==>
          forall x :: x in Chain(v.fat, hs) ==> x !in Chain(v.fat, AsInt16(dest.firstBlk)))
    ensures CatSpec(AppendBytes(v, SlotsAt(v, ROOT_BLOCK), di, data).1, name) == CatSpec(v, name)
  {
    var root := SlotsAt(v, ROOT_BLOCK);
    var dest := root[di];
    var u := AppendBytes(v, root, di, data).1;
    AppendSlots(v, di, data);
    var s := SlotsAt(u, ROOT_BLOCK);
    assert forall j :: 0 <= j < |s| ==> (Hits(Named(name), s[j]) <==> Hits(Named(name), root[j]));
    var i := FirstIndex(root, Named(name));
    assert FirstIndex(s, Named(name)) == i;
    if i >= 0 && root[i].kind == File {
      var hs := AsInt16(root[i].firstBlk);
      if root[i].firstBlk != NO_BLOCK {
        var b := LowestFree(v.fat, 0);
        AppendFrame(v, di, data);
        forall x | x in Chain(v.fat, hs)
          ensures u.fat[x] == v.fat[x] && BytesAt(u, x) == BytesAt(v, x)
        {
          assert x != ROOT_BLOCK && x != b;
          assert dest.firstBlk != NO_BLOCK ==> x !in Chain(v.fat, AsInt16(dest.firstBlk));
        }
      }
      ReadAlong(v, u, hs, root[i].size);
      assert s[i] == root[i];
    }
    CatSame(v, u, name);
  }

  /** cat of a name reads the same on two volumes that agree on where the name's first
      record is, on that record, and on what reading it yields. */
  lemma {:induction false} CatSame(v: Volume, u: Volume, name: string)
    requires VolumeOk(v) && VolumeOk(u) && v.cwd == u.cwd < |v.disk| && |u.disk| == |v.disk|
    requires var i := FirstIndex(SlotsAt(v, v.cwd), Named(name));
      FirstIndex(SlotsAt(u, u.cwd), Named(name)) == i &&
      (0 <= i ==> SlotsAt(u, u.cwd)[i] == SlotsAt(v, v.cwd)[i]) &&
      (0 <= i && SlotsAt(v, v.cwd)[i].kind == File ==>
        var e := SlotsAt(v, v.cwd)[i];
        ReadChain(u, AsInt16(e.firstBlk), e.size) == ReadChain(v, AsInt16(e.firstBlk), e.size))
    ensures CatSpec(u, name) == CatSpec(v, name)
  {
  }

  /** append keeps every root record but the destination's, and the destination's name and
      kind, whether it succeeded or not, when the destination's chain misses the root. */
  lemma {:induction false} AppendSlots(v: Volume, di: nat, data: seq<Byte>)
    requires VolumeOk(v) && 0 < |data| && di < v.entries
    requires var dest := SlotsAt(v, ROOT_BLOCK)[di];
      dest.firstBlk != NO_BLOCK ==>
        ChainOk(v.fat, AsInt16(dest.firstBlk)) && ROOT_BLOCK !in Chain(v.fat, AsInt16(dest.firstBlk))
    ensures var root := SlotsAt(v, ROOT_BLOCK);
      var s := SlotsAt(AppendBytes(v, root, di, data).1, ROOT_BLOCK);
      |s| == |root| && s[di].name == root[di].name && s[di].kind == root[di].kind &&
      forall j :: 0 <= j < |s| && j != di ==> s[j] == root[j]
  {
    var root := SlotsAt(v, ROOT_BLOCK);
    var dest := root[di];
    if AppendBytes(v, root, di, data).0 == 0 {
      AppendRoot(v, di, data);
    } else {
      var f := FillLast(v, dest, data);
      if dest.firstBlk != NO_BLOCK {
        FillShape(v, dest, data);
        var c := Chain(v.fat, AsInt16(dest.firstBlk));
        assert Last(c) in c;
      }
      assert f.vol.disk[ROOT_BLOCK] == v.disk[ROOT_BLOCK];
    }
  }

  /** What append writes, block by block: only the root's block, the destination's chain
      and the lowest FREE block can differ afterwards, whether the write succeeded or not. */
  lemma {:induction false} AppendFrame(v: Volume, di: nat, data: seq<Byte>)
    requires VolumeOk(v) && 0 < |data| && di < v.entries
    requires var dest := SlotsAt(v, ROOT_BLOCK)[di];
      dest.firstBlk != NO_BLOCK ==> ChainOk(v.fat, AsInt16(dest.firstBlk))
    ensures var dest := SlotsAt(v, ROOT_BLOCK)[di];
      var u := AppendBytes(v, SlotsAt(v, ROOT_BLOCK), di, data).1;
      var b := LowestFree(v.fat, 0);
      forall x ::
        (0 <= x < |v.disk| && x != ROOT_BLOCK && x != b &&
         (dest.firstBlk == NO_BLOCK || x !in Chain(v.fat, AsInt16(dest.firstBlk)))) ==>
        u.fat[x] == v.fat[x] && u.disk[x] == v.disk[x]
  {
    var root := SlotsAt(v, ROOT_BLOCK);
    var dest := root[di];
    var f := FillLast(v, dest, data);
    var w := WriteContent(f.vol, data, f.taken);
    if dest.firstBlk != NO_BLOCK {
      var hd := AsInt16(dest.firstBlk);
      FillShape(v, dest, data);
      assert Last(Chain(v.fat, hd)) in Chain(v.fat, hd);
      if w.first != NO_BLOCK {
        ChainCut(v.fat, hd, w.first);
      }
    }
  }

  /** Whenever append adds a block behind a destination whose blocks are allocated, it
      adds exactly one: the destination's chain afterwards is the old chain and one block. */
  lemma {:induction false} AppendExtendsChain(v: Volume, src: string, dst: string)
    requires AppendAllowed(v, src, dst) && v.fat[ROOT_BLOCK] != FAT_FREE
    requires var root := SlotsAt(v, ROOT_BLOCK);
      var di := LastIndex(root, Named(dst));
      0 <= di && root[di].firstBlk != NO_BLOCK && UsedChain(v.fat, AsInt16(root[di].firstBlk))
    requires AppendSpec(v, src, dst).0 == 0
    ensures var root := SlotsAt(v, ROOT_BLOCK);
      var h := AsInt16(root[LastIndex(root, Named(dst))].firstBlk);
      var u := AppendSpec(v, src, dst).1;
      var b := LowestFree(v.fat, 0);
      ChainOk(u.fat, h) &&
      (u.fat == v.fat || (0 < b && Chain(u.fat, h) == Chain(v.fat, h) + [b]))
  {
    var root := SlotsAt(v, ROOT_BLOCK);
    var si := LastIndex(root, Named(src));
    var di := LastIndex(root, Named(dst));
    var dest := root[di];
    var h := AsInt16(dest.firstBlk);
    var rd := ReadChain(v, AsInt16(root[si].firstBlk), root[si].size);
    var data := rd.data;
    if |data| > 0 {
      assert AppendSpec(v, src, dst) == AppendBytes(v, root, di, data);
      AppendChainShape(v, di, data);
      var f := FillLast(v, dest, data);
      var w := WriteContent(f.vol, data, f.taken);
      if w.first != NO_BLOCK {
        var b := LowestFree(v.fat, 0);
        assert w.first == b && 0 < b && b !in Chain(v.fat, h);
        ChainExtend(v.fat, h, b);
      }
    }
  }

  // ---------------------------------------------------------------------------
  // A FREE entry read as a link to the root block

  /** The volume that `mkdir P; cd P; mkdir C; mv C ..; cd ..; rm P; cd C` leaves on a
      freshly formatted device with two records per block: C (block 3) sits in the root,
      its `..` record still points at P's block 2, and rm P has set block 2's entry FREE.
      OrphanedParentReached below proves that those commands lead here. */
  function OrphanedParent(): (v: Volume)
    ensures VolumeOk(v)
  {
    Volume(2, 2, [FAT_EOF, FAT_EOF, FAT_FREE, FAT_EOF],
           [Dir([EMPTY_ENTRY, DirEntry("C", 0, 3, Directory, RWX)]),
            Data(Zeros(2)),
            Dir([DirEntry(PARENT_NAME, 0, ROOT_BLOCK, Directory, RWX), EMPTY_ENTRY]),
            Dir([DirEntry(PARENT_NAME, 0, 2, Directory, RWX), EMPTY_ENTRY])],
           3)
  }

  /** An unformatted device of four blocks of two bytes, two records per block. */
  function BlankDevice(): (v: Volume)
    ensures VolumeOk(v)
  {
    Volume(2, 2, [FAT_FREE, FAT_FREE, FAT_FREE, FAT_FREE],
           [Data(Zeros(2)), Data(Zeros(2)), Data(Zeros(2)), Data(Zeros(2))], ROOT_BLOCK)
  }

  /** The states of that device along `format; mkdir P; cd P; mkdir C; mv C ..; cd ..;
      rm P`, in the root (`cwd` 0) or in P (`cwd` 2), before `cd C` leads to
      OrphanedParent. `p` tells whether P's record is still in the root, `c` whether
      C is in P (1), in the root (2) or not yet made (0). */
  function Stage(p: bool, c: nat, cwd: U16): (v: Volume)
    requires c <= 2
    ensures VolumeOk(v)
  {
    var z := Data(Zeros(2));
    var P := DirEntry("P", 0, 2, Directory, RWX);
    var C := DirEntry("C", 0, 3, Directory, RWX);
    var up := DirEntry(PARENT_NAME, 0, ROOT_BLOCK, Directory, RWX);
    var upC := DirEntry(PARENT_NAME, 0, 2, Directory, RWX);
    var fat := [FAT_EOF, FAT_EOF, if p then FAT_EOF else FAT_FREE, if c == 0 then FAT_FREE else FAT_EOF];
    Volume(2, 2, fat,
           [Dir([if p then P else EMPTY_ENTRY, if c == 2 then C else EMPTY_ENTRY]), z,
            Dir([up, if c == 1 then C else EMPTY_ENTRY]),
            if c == 0 then z else Dir([upC, EMPTY_ENTRY])],
           cwd)
  }

  lemma {:induction false} FormatBlank()
    ensures FormatSpec(BlankDevice()).0 == 0
    ensures FormatSpec(BlankDevice()).1 ==
      Volume(2, 2, [FAT_EOF, FAT_EOF, FAT_FREE, FAT_FREE], [Data(Zeros(2)), Data(Zeros(2)), Data(Zeros(2)), Data(Zeros(2))], ROOT_BLOCK)
  {
    var v0 := FormatSpec(BlankDevice()).1;
    var z := Data(Zeros(2));
    assert |v0.fat| == 4 && v0.fat[0] == FAT_EOF && v0.fat[1] == FAT_EOF;
    assert v0.fat[2] == FAT_FREE && v0.fat[3] == FAT_FREE;
    assert |v0.disk| == 4 && v0.disk[1] == z;
    assert v0.disk[0] == ZeroBlock(2) == z && v0.disk[2] == z && v0.disk[3] == z;
  }

  /** mkdir P in the formatted root takes block 2. */
  lemma {:induction false} MkdirP()
    ensures MkdirSpec(FormatSpec(BlankDevice()).1, "P") == (0, Stage(true, 0, ROOT_BLOCK))
  {
    FormatBlank();
    var v0 := FormatSpec(BlankDevice()).1;
    var P := DirEntry("P", 0, 2, Directory, RWX);
    assert SlotsAt(v0, ROOT_BLOCK) == EmptySlots(2) == [EMPTY_ENTRY, EMPTY_ENTRY];
    assert FirstIndex([EMPTY_ENTRY, EMPTY_ENTRY], Named("P")) == -1;
    assert FirstIndex([EMPTY_ENTRY, EMPTY_ENTRY], Vacant) == 0;
    assert LowestFree(v0.fat, 2) == 2;
    assert EmptySlots(2)[0 := DirEntry(PARENT_NAME, 0, ROOT_BLOCK, Directory, RWX)] ==
      [DirEntry(PARENT_NAME, 0, ROOT_BLOCK, Directory, RWX), EMPTY_ENTRY];
    assert [EMPTY_ENTRY, EMPTY_ENTRY][0 := P] == [P, EMPTY_ENTRY];
    var r := MkdirSpec(v0, "P");
    var w := Stage(true, 0, ROOT_BLOCK);
    assert r.0 == 0;
    assert r.1.fat == w.fat;
    assert r.1.cwd == w.cwd && |r.1.disk| == |w.disk| == 4;
    assert r.1.disk == w.disk;
    assert r.1 == w;
  }

  /** cd P, then mkdir C in P takes block 3. */
  lemma {:induction false} MkdirC()
    ensures CdSpec(Stage(true, 0, ROOT_BLOCK), "P") == (0, Stage(true, 0, 2))
    ensures MkdirSpec(Stage(true, 0, 2), "C") == (0, Stage(true, 1, 2))
  {
    var v := Stage(true, 0, 2);
    var up := DirEntry(PARENT_NAME, 0, ROOT_BLOCK, Directory, RWX);
    var upC := DirEntry(PARENT_NAME, 0, 2, Directory, RWX);
    var C := DirEntry("C", 0, 3, Directory, RWX);
    assert FirstIndex(SlotsAt(Stage(true, 0, ROOT_BLOCK), ROOT_BLOCK), DirNamed("P")) == 0;
    assert SlotsAt(v, 2) == [up, EMPTY_ENTRY];
    assert FirstIndex([up, EMPTY_ENTRY], Named("C")) == -1;
    assert FirstIndex([up, EMPTY_ENTRY], Vacant) == 1;
    assert LowestFree(v.fat, 2) == 3;
    assert EmptySlots(2)[0 := upC] == [upC, EMPTY_ENTRY];
    assert [up, EMPTY_ENTRY][1 := C] == [up, C];
    var r := MkdirSpec(v, "C");
    var w := Stage(true, 1, 2);
    assert r.0 == 0 && r.1.fat == w.fat && r.1.cwd == w.cwd && |r.1.disk| == |w.disk| == 4;
    assert r.1.disk == w.disk;
    assert r.1 == w;
  }

  /** mv C .. moves C's record into the root; cd .. returns there. */
  lemma {:induction false} MvCUp()
    ensures MvSpec(Stage(true, 1, 2), "C", PARENT_NAME) == (0, Stage(true, 2, 2))
    ensures CdSpec(Stage(true, 2, 2), PARENT_NAME) == (0, Stage(true, 2, ROOT_BLOCK))
  {
    var v := Stage(true, 1, 2);
    var P := DirEntry("P", 0, 2, Directory, RWX);
    var C := DirEntry("C", 0, 3, Directory, RWX);
    var up := DirEntry(PARENT_NAME, 0, ROOT_BLOCK, Directory, RWX);
    assert SlotsAt(v, 2) == [up, C];
    assert LastIndex([up, C], Named("C")) == 1;
    assert LastIndex([up, C], Named(PARENT_NAME)) == 0;
    assert SlotsAt(v, ROOT_BLOCK) == [P, EMPTY_ENTRY];
    assert FirstIndex([P, EMPTY_ENTRY], Vacant) == 1;
    assert [P, EMPTY_ENTRY][1 := C] == [P, C] && [up, C][1 := EMPTY_ENTRY] == [up, EMPTY_ENTRY];
    var r := MvSpec(v, "C", PARENT_NAME);
    var w := Stage(true, 2, 2);
    assert r.0 == 0 && r.1.fat == w.fat && r.1.cwd == w.cwd && |r.1.disk| == |w.disk| == 4;
    assert r.1.disk == w.disk;
    assert r.1 == w;
  }

  /** rm P succeeds: P holds only its `..` record. Its block's entry becomes FREE. */
  lemma {:induction false} RmP()
    ensures RmAllowed(Stage(true, 2, ROOT_BLOCK), "P")
    ensures RmSpec(Stage(true, 2, ROOT_BLOCK), "P") == (0, Stage(false, 2, ROOT_BLOCK))
  {
    var v := Stage(true, 2, ROOT_BLOCK);
    var P := DirEntry("P", 0, 2, Directory, RWX);
    var C := DirEntry("C", 0, 3, Directory, RWX);
    assert SlotsAt(v, ROOT_BLOCK) == [P, C];
    assert FirstIndex([P, C], Named("P")) == 0;
    assert DirEmpty(SlotsAt(v, 2));
    assert FreeEnds(v.fat[2 := FAT_FREE], FAT_EOF);
    assert FreeLoop(v.fat, 2) == v.fat[2 := FAT_FREE];
    assert [P, C][0 := EMPTY_ENTRY] == [EMPTY_ENTRY, C];
    var r := RmSpec(v, "P");
    var w := Stage(false, 2, ROOT_BLOCK);
    assert r.0 == 0 && r.1.fat == w.fat && r.1.cwd == w.cwd && |r.1.disk| == |w.disk| == 4;
    assert r.1.disk == w.disk;
    assert r.1 == w;
  }

  /** The commands `format; mkdir P; cd P; mkdir C; mv C ..; cd ..; rm P; cd C` all
      succeed and leave OrphanedParent. */
  lemma {:induction false} OrphanedParentReached()
    ensures var m1 := MkdirSpec(FormatSpec(BlankDevice()).1, "P");
      var c1 := CdSpec(m1.1, "P");
      var m2 := MkdirSpec(c1.1, "C");
      var mv := MvSpec(m2.1, "C", PARENT_NAME);
      var c2 := CdSpec(mv.1, PARENT_NAME);
      m1.0 == 0 && c1.0 == 0 && m2.0 == 0 && mv.0 == 0 && c2.0 == 0 &&
      RmAllowed(c2.1, "P") && RmSpec(c2.1, "P").0 == 0 &&
      CdSpec(RmSpec(c2.1, "P").1, "C") == (0, OrphanedParent())
  {
    MkdirP();
    MkdirC();
    MvCUp();
    RmP();
    CdC();
  }

  /** After rm P, cd C finds C's record in the root's second slot. */
  lemma {:induction false} CdC()
    ensures CdSpec(Stage(false, 2, ROOT_BLOCK), "C") == (0, OrphanedParent())
  {
    var v := Stage(false, 2, ROOT_BLOCK);
    assert SlotsAt(v, ROOT_BLOCK) == [EMPTY_ENTRY, DirEntry("C", 0, 3, Directory, RWX)];
    assert FirstIndex(SlotsAt(v, ROOT_BLOCK), DirNamed("C")) == 1;
    var w := OrphanedParent();
    assert v.fat == w.fat && v.disk == w.disk;
  }

  /** In C, `rm ..` finds the stale record, follows block 2's FREE entry to block 0,
      stops at block 0's EOF entry and frees it (fs.cpp:754-759). The next `create`
      then takes block 0 as the lowest FREE block and writes the file's bytes over the
      root directory (fs.cpp:118-160), which loses the record of C. */
  lemma {:induction false} RmParentFreesRoot()
    ensures RmAllowed(OrphanedParent(), PARENT_NAME)
    ensures var r := RmSpec(OrphanedParent(), PARENT_NAME);
      r.0 == 0 && r.1.fat[ROOT_BLOCK] == FAT_FREE &&
      var c := CreateSpec(r.1, "g", [7]);
      c.0 == 0 && c.1.disk[ROOT_BLOCK] == Data([7, 0]) &&
      SlotsAt(c.1, 3)[0] == FileRecord("g", 1, ROOT_BLOCK) &&
      FirstIndex(SlotsAt(c.1, ROOT_BLOCK), Named("C")) == -1
  {
    var v := OrphanedParent();
    var t := v.fat;
    assert SlotsAt(v, 3)[0].name == PARENT_NAME;
    assert FirstIndex(SlotsAt(v, 3), Named(PARENT_NAME)) == 0;
    assert DirEmpty(SlotsAt(v, 2));
    var t0 := t[0 := FAT_FREE];
    assert FreeEnds(t0, FAT_EOF);
    assert FreeEnds(t, 0);
    assert FreeEnds(t, 2);
    assert FreeLoop(t, 2) == t0;
    var r := RmSpec(v, PARENT_NAME);
    assert r.1.fat == t0;
    assert LowestFree(t0, 0) == 0;
    assert SlotsAt(r.1, 3) == [EMPTY_ENTRY, EMPTY_ENTRY];
    assert FirstIndex(SlotsAt(r.1, 3), Named("g")) == -1;
    assert FirstIndex(SlotsAt(r.1, 3), Vacant) == 0;
    var c := CreateSpec(r.1, "g", [7]);
    assert SlotsAt(c.1, ROOT_BLOCK) == EmptySlots(2);
  }

  // ---------------------------------------------------------------------------
  // mv into the working directory's own block

  /** The volume that `mkdir X; cd X; mkdir c; mv c ..; cd ..; mv X c; cd c; mv .. X;
      cd X; create f` leaves on a freshly formatted device with four records per block:
      the working directory is X (block 2), and its second `..` record, the one moved in
      from c, points back at block 2 itself. */
  function SelfParent(): (v: Volume)
    ensures VolumeOk(v)
  {
    var E := EMPTY_ENTRY;
    Volume(2, 4, [FAT_EOF, FAT_EOF, FAT_EOF, FAT_EOF],
           [Dir([E, DirEntry("c", 0, 3, Directory, RWX), E, E]),
            Data(Zeros(2)),
            Dir([DirEntry(PARENT_NAME, 0, ROOT_BLOCK, Directory, RWX),
                 DirEntry(PARENT_NAME, 0, 2, Directory, RWX), FileRecord("f", 0, NO_BLOCK), E]),
            Dir([E, DirEntry("X", 0, 2, Directory, RWX), E, E])],
           2)
  }

  /** The volume SelfParent leaves after `mv f ..`: block 2 holds the two `..` records
      and nothing else. */
  function SelfLost(): (v: Volume)
    ensures VolumeOk(v)
  {
    SelfParent().(disk := SelfParent().disk[2 := Dir([DirEntry(PARENT_NAME, 0, ROOT_BLOCK, Directory, RWX),
      DirEntry(PARENT_NAME, 0, 2, Directory, RWX), EMPTY_ENTRY, EMPTY_ENTRY])])
  }

  /** In X, `mv f ..` picks the last `..` record, whose block is the working directory's
      own. mv writes f's record into block 2's vacant slot and then writes the working
      directory's old records, f's slot cleared, over the same block (fs.cpp:648-660). */
  lemma {:induction false} MvIntoOwnBlock()
    ensures MvSpec(SelfParent(), "f", PARENT_NAME) == (0, SelfLost())
  {
    var v := SelfParent();
    var E := EMPTY_ENTRY;
    var up0 := DirEntry(PARENT_NAME, 0, ROOT_BLOCK, Directory, RWX);
    var up2 := DirEntry(PARENT_NAME, 0, 2, Directory, RWX);
    var f := FileRecord("f", 0, NO_BLOCK);
    var slots := [up0, up2, f, E];
    assert SlotsAt(v, 2) == slots;
    assert LastIndex(slots, Named("f")) == 2;
    assert "f" != PARENT_NAME && Hits(Named(PARENT_NAME), slots[1]);
    assert !Hits(Named(PARENT_NAME), slots[2]) && !Hits(Named(PARENT_NAME), slots[3]);
    assert LastIndex(slots, Named(PARENT_NAME)) == 1;
    assert FirstIndex(slots, Vacant) == 3;
    assert slots[2 := E] == [up0, up2, E, E];
    var r := MvSpec(v, "f", PARENT_NAME);
    var w := SelfLost();
    assert r.0 == 0 && r.1.fat == w.fat && r.1.cwd == w.cwd && |r.1.disk| == |w.disk| == 4;
    assert r.1.disk == w.disk;
    assert r.1 == w;
  }

  /** f's record is in X's block before the move ... */
  lemma {:induction false} SelfParentHoldsF()
    ensures FirstIndex(SlotsAt(SelfParent(), 2), Named("f")) == 2
  {
    var up0 := DirEntry(PARENT_NAME, 0, ROOT_BLOCK, Directory, RWX);
    var up2 := DirEntry(PARENT_NAME, 0, 2, Directory, RWX);
    var slots := [up0, up2, FileRecord("f", 0, NO_BLOCK), EMPTY_ENTRY];
    assert SlotsAt(SelfParent(), 2) == slots;
    assert !Hits(Named("f"), up0) && !Hits(Named("f"), up2);
  }

  /** ... and in no block after it. */
  lemma {:induction false} SelfLostLacksF(b: nat)
    requires b < 4
    ensures FirstIndex(SlotsAt(SelfLost(), b), Named("f")) == -1
  {
    var w := SelfLost();
    var E := EMPTY_ENTRY;
    var s := SlotsAt(w, b);
    if b == 0 {
      assert s == [E, DirEntry("c", 0, 3, Directory, RWX), E, E];
    } else if b == 1 {
      assert s == EmptySlots(4) == [E, E, E, E];
    } else if b == 2 {
      assert s == [DirEntry(PARENT_NAME, 0, ROOT_BLOCK, Directory, RWX), DirEntry(PARENT_NAME, 0, 2, Directory, RWX), E, E];
    } else {
      assert s == [E, DirEntry("X", 0, 2, Directory, RWX), E, E];
    }
  }

  /** So mv reports success although f's record, present in X before, is in no
      directory of the volume afterwards. */
  lemma {:induction false} MvIntoOwnBlockLoses()
    ensures FirstIndex(SlotsAt(SelfParent(), 2), Named("f")) == 2
    ensures var r := MvSpec(SelfParent(), "f", PARENT_NAME);
      r.0 == 0 && forall b :: 0 <= b < |r.1.disk| ==> FirstIndex(SlotsAt(r.1, b), Named("f")) == -1
  {
    MvIntoOwnBlock();
    SelfParentHoldsF();
    forall b | 0 <= b < 4
      ensures FirstIndex(SlotsAt(SelfLost(), b), Named("f")) == -1
    {
      SelfLostLacksF(b);
    }
  }
}
