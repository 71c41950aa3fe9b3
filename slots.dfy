/** Linear scans over the record slots of one directory block. */
module Slots {
  import opened Layout

  /** What a scan looks for. Only non-empty slots match a name or a block. */
  datatype Query =
    | Named(name: string)        // a used slot with exactly this name
    | Vacant                     // a slot whose name is empty
    | DirNamed(name: string)     // a used directory slot with this name (cd)
    | DirAt(block: int)          // a used directory slot whose first block is `block` (pwd)

  predicate Hits(q: Query, e: DirEntry) {
    match q
    case Named(n) => e.name != [] && e.name == n
    case Vacant => e.name == []
    case DirNamed(n) => e.name != [] && e.name == n && e.kind == Directory
    case DirAt(b) => e.name != [] && e.firstBlk == b && e.kind == Directory
  }

  /** Index of the first slot that matches, or -1 (a scan that stops at the first hit). */
  function FirstIndex(s: seq<DirEntry>, q: Query): (r: int)
    ensures -1 <= r < |s|
    ensures r >= 0 ==> Hits(q, s[r]) && forall j :: 0 <= j < r ==> !Hits(q, s[j])
    ensures r == -1 <==> forall j :: 0 <= j < |s| ==> !Hits(q, s[j])
  {
    if |s| == 0 then -1
    else if Hits(q, s[0]) then 0
    else
      var r := FirstIndex(s[1..], q);
      assert forall j :: 1 <= j < |s| ==> s[1..][j - 1] == s[j];
      if r < 0 then -1 else r + 1
  }

  /** Index of the last slot that matches, or -1 (a scan that never stops early). */
  function LastIndex(s: seq<DirEntry>, q: Query): (r: int)
    ensures -1 <= r < |s|
    ensures r >= 0 ==> Hits(q, s[r]) && forall j :: r < j < |s| ==> !Hits(q, s[j])
    ensures r == -1 <==> forall j :: 0 <= j < |s| ==> !Hits(q, s[j])
  {
    if |s| == 0 then -1
    else if Hits(q, s[|s| - 1]) then |s| - 1
    else LastIndex(s[..|s| - 1], q)
  }

  /** A directory may be removed when every used slot is the `..` record. */
  predicate DirEmpty(s: seq<DirEntry>) {
    forall i :: 0 <= i < |s| ==> s[i].name == [] || s[i].name == PARENT_NAME
  }

  method FindFirst(s: seq<DirEntry>, q: Query) returns (r: int)
    ensures r == FirstIndex(s, q)
  {
    var i := 0;
    while i < |s|
      invariant 0 <= i <= |s|
      invariant forall j :: 0 <= j < i ==> !Hits(q, s[j])
    {
      if Hits(q, s[i]) {
        return i;
      }
      i := i + 1;
    }
    return -1;
  }

  method FindLast(s: seq<DirEntry>, q: Query) returns (r: int)
    ensures r == LastIndex(s, q)
  {
    r := -1;
    var i := 0;
    while i < |s|
      invariant 0 <= i <= |s|
      invariant -1 <= r < i
      invariant r >= 0 ==> Hits(q, s[r])
      invariant forall j :: r < j < i ==> !Hits(q, s[j])
    {
      if Hits(q, s[i]) {
        r := i;
      }
      i := i + 1;
    }
  }

  method CheckEmpty(s: seq<DirEntry>) returns (empty: bool)
    ensures empty <==> DirEmpty(s)
  {
    var i := 0;
    while i < |s|
      invariant 0 <= i <= |s|
      invariant forall j :: 0 <= j < i ==> s[j].name == [] || s[j].name == PARENT_NAME
    {
      if s[i].name != [] && s[i].name != PARENT_NAME {
        return false;
      }
      i := i + 1;
    }
    return true;
  }
}
