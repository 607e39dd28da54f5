/**
 * The values the user file system is built from: bytes, files as block
 * memory plus a size, descriptors, and the functions that say what a file
 * holds, what a write leaves in it, what a read returns, how many
 * descriptors refer to a file and which file a name finds.
 */
module UfsSpec {
  import opened Wrappers

  const BlockSize: nat := 512
  const MaxFileSize: nat := 1024 * 1024 * 100

  newtype byte = x: int | 0 <= x < 256

  /** The open flags; the source's bit values are not part of this model, only that they differ. */
  datatype Flag = Create | ReadOnly | WriteOnly | ReadWrite

  /** The global error code. */
  datatype UfsError = NoErr | NoFile | NoMem | NoPermission

  /**
   * A file: the memory of its blocks laid end to end (mem), the number of
   * bytes it holds (size), the descriptors open on it (refs) and whether
   * it waits for deletion.
   */
  datatype FileRec = FileRec(name: string, mem: seq<byte>, size: nat, refs: nat, marked: bool)

  /** An open descriptor: its file, its permissions, the block it stands in and its offset. */
  datatype Desc = Desc(file: nat, canRead: bool, canWrite: bool, curBlock: nat, offset: nat)

  function Max(a: nat, b: nat): nat { if a < b then b else a }
  function Min(a: nat, b: nat): nat { if a < b then a else b }

  function Zeros(n: nat): (z: seq<byte>)
    ensures |z| == n && forall i :: 0 <= i < n ==> z[i] == 0
  {
    seq(n, _ => 0)
  }

  /** The number of blocks a file of size bytes has: one more than its full blocks. */
  function BlocksFor(size: nat): (n: nat)
    ensures n >= 1 && size < BlockSize * n && BlockSize * (n - 1) <= size
  {
    size / BlockSize + 1
  }

  /** A file has exactly BlocksFor(size) blocks and is not over the size limit. */
  predicate FileOk(f: FileRec) {
    |f.mem| == BlockSize * BlocksFor(f.size) && f.size <= MaxFileSize
  }

  /** The bytes of a file. */
  function Content(f: FileRec): (c: seq<byte>)
    requires f.size <= |f.mem|
    ensures |c| == f.size
  {
    f.mem[..f.size]
  }

  /** g is f with its bytes replaced by data, everything else as it was. */
  predicate Rewritten(f: FileRec, g: FileRec, data: seq<byte>) {
    g.name == f.name && g.refs == f.refs && g.marked == f.marked &&
    g.size == |data| && g.size <= |g.mem| && Content(g) == data
  }

  /** The bytes of data once buf is written at off, data growing when buf runs past its end. */
  function Overwrite(data: seq<byte>, off: nat, buf: seq<byte>): seq<byte>
    requires off <= |data|
  {
    data[..off] + buf + (if off + |buf| < |data| then data[off + |buf|..] else [])
  }

  /**
   * A write puts buf at [off, off + |buf|), keeps every other byte, and the
   * data ends at the later of its old end and the end of the write.
   */
  lemma OverwriteSpec(data: seq<byte>, off: nat, buf: seq<byte>)
    requires off <= |data|
    ensures |Overwrite(data, off, buf)| == Max(|data|, off + |buf|)
    ensures Overwrite(data, off, buf)[off..off + |buf|] == buf
    ensures forall i :: 0 <= i < off ==> Overwrite(data, off, buf)[i] == data[i]
    ensures forall i :: off + |buf| <= i < |data| ==> Overwrite(data, off, buf)[i] == data[i]
  {
    var r := Overwrite(data, off, buf);
    assert r[off..off + |buf|] == buf;
    if off + |buf| < |data| {
      forall i | off + |buf| <= i < |data|
        ensures r[i] == data[i]
      {
        assert r[i] == data[off + |buf|..][i - off - |buf|];
      }
    }
  }

  /** What a read of size bytes at off returns: up to size bytes, stopping at the end of data. */
  function ReadSpan(data: seq<byte>, off: nat, size: nat): (r: seq<byte>)
    ensures |r| <= size
    ensures off < |data| ==> |r| == Min(size, |data| - off)
    ensures off >= |data| ==> r == []
  {
    if off >= |data| then [] else data[off..off + Min(size, |data| - off)]
  }

  /** Reading back what was just written gives the written bytes. */
  lemma ReadBackWrite(data: seq<byte>, off: nat, buf: seq<byte>)
    requires off <= |data|
    ensures ReadSpan(Overwrite(data, off, buf), off, |buf|) == buf
  {
    OverwriteSpec(data, off, buf);
  }

  /** Growing data with zeros, then reading the grown part, gives zeros. */
  lemma ReadGrownPart(data: seq<byte>, grow: nat)
    ensures ReadSpan(data + Zeros(grow), |data|, grow) == Zeros(grow)
  {
    assert (data + Zeros(grow))[|data|..] == Zeros(grow);
  }

  /* ----- the descriptor table ----- */

  /** 1 when the slot holds a descriptor on file id. */
  function Points(e: Option<Desc>, id: nat): nat {
    if e.Some? && e.value.file == id then 1 else 0
  }

  function Taken(e: Option<Desc>): nat {
    if e.Some? then 1 else 0
  }

  /** How many descriptors of the table are open on file id. */
  function RefCount(t: seq<Option<Desc>>, id: nat): nat
    decreases |t|
  {
    if t == [] then 0 else RefCount(t[..|t| - 1], id) + Points(t[|t| - 1], id)
  }

  /** How many slots of the table hold a descriptor. */
  function Occupied(t: seq<Option<Desc>>): (n: nat)
    ensures n <= |t|
    decreases |t|
  {
    if t == [] then 0 else Occupied(t[..|t| - 1]) + Taken(t[|t| - 1])
  }

  function Nones(n: nat): (s: seq<Option<Desc>>)
    ensures |s| == n && forall i :: 0 <= i < n ==> s[i].None?
  {
    seq(n, _ => None)
  }

  /** Slot by slot, both tables hold descriptors on the same files. */
  predicate SameFiles(a: seq<Option<Desc>>, b: seq<Option<Desc>>) {
    |a| == |b| &&
    forall i :: 0 <= i < |a| ==> (a[i].Some? <==> b[i].Some?) && (a[i].Some? ==> a[i].value.file == b[i].value.file)
  }

  /** Tables with descriptors on the same files have the same counts. */
  lemma {:induction false} SameFilesCounts(a: seq<Option<Desc>>, b: seq<Option<Desc>>, id: nat)
    requires SameFiles(a, b)
    ensures RefCount(a, id) == RefCount(b, id) && Occupied(a) == Occupied(b)
    decreases |a|
  {
    if a != [] {
      assert SameFiles(a[..|a| - 1], b[..|b| - 1]);
      SameFilesCounts(a[..|a| - 1], b[..|b| - 1], id);
    }
  }

  /** Putting v in slot i changes the counts by what leaves the slot and what enters it. */
  lemma {:induction false} UpdateCounts(t: seq<Option<Desc>>, i: nat, v: Option<Desc>, id: nat)
    requires i < |t|
    ensures RefCount(t[i := v], id) + Points(t[i], id) == RefCount(t, id) + Points(v, id)
    ensures Occupied(t[i := v]) + Taken(t[i]) == Occupied(t) + Taken(v)
    decreases |t|
  {
    var u := t[i := v];
    if i < |t| - 1 {
      assert u[..|u| - 1] == t[..|t| - 1][i := v];
      UpdateCounts(t[..|t| - 1], i, v, id);
    } else {
      assert u[..|u| - 1] == t[..|t| - 1];
    }
  }

  /** Empty slots added at the end change no count. */
  lemma {:induction false} AppendNonesCounts(t: seq<Option<Desc>>, n: nat, id: nat)
    ensures RefCount(t + Nones(n), id) == RefCount(t, id) && Occupied(t + Nones(n)) == Occupied(t)
    decreases n
  {
    if n > 0 {
      assert (t + Nones(n))[..|t| + n - 1] == t + Nones(n - 1);
      AppendNonesCounts(t, n - 1, id);
    } else {
      assert t + Nones(n) == t;
    }
  }

  /** A table with fewer descriptors than slots has an empty slot. */
  lemma {:induction false} FreeSlotExists(t: seq<Option<Desc>>) returns (j: nat)
    requires Occupied(t) < |t|
    ensures j < |t| && t[j].None?
    decreases |t|
  {
    if t[|t| - 1].None? {
      j := |t| - 1;
    } else {
      j := FreeSlotExists(t[..|t| - 1]);
    }
  }

  /** A file no descriptor counts for has no descriptor in any slot. */
  /** A slot holding a descriptor is counted among its file's references. */
  lemma {:induction false} SlotCounted(t: seq<Option<Desc>>, i: nat)
    requires i < |t| && t[i].Some?
    ensures RefCount(t, t[i].value.file) >= 1
    decreases |t|
  {
    if i < |t| - 1 {
      assert t[..|t| - 1][i] == t[i];
      SlotCounted(t[..|t| - 1], i);
    }
  }

  lemma {:induction false} NoRefsNoDesc(t: seq<Option<Desc>>, id: nat)
    requires RefCount(t, id) == 0
    ensures forall i :: 0 <= i < |t| && t[i].Some? ==> t[i].value.file != id
    decreases |t|
  {
    if t != [] {
      NoRefsNoDesc(t[..|t| - 1], id);
      forall i | 0 <= i < |t| - 1
        ensures t[i] == t[..|t| - 1][i]
      {
      }
    }
  }

  /** A table whose descriptors are all on other files counts none for id. */
  lemma {:induction false} NoDescNoRefs(t: seq<Option<Desc>>, id: nat)
    requires forall i :: 0 <= i < |t| && t[i].Some? ==> t[i].value.file != id
    ensures RefCount(t, id) == 0
    decreases |t|
  {
    if t != [] {
      NoDescNoRefs(t[..|t| - 1], id);
    }
  }

  /**
   * The slot after ufs_move_overflowing_fds: a descriptor on file id past
   * its end is put at the end, in the last block.
   */
  function Clamp(e: Option<Desc>, id: nat, size: nat): (c: Option<Desc>)
    ensures c.Some? <==> e.Some?
    ensures c.Some? ==> c.value.file == e.value.file && c.value.canRead == e.value.canRead &&
                        c.value.canWrite == e.value.canWrite
    ensures c.Some? && c.value.file == id ==> c.value.offset <= size
  {
    if e.Some? && e.value.file == id && e.value.offset > size
    then Some(e.value.(offset := size, curBlock := size / BlockSize))
    else e
  }

  function Clamped(t: seq<Option<Desc>>, id: nat, size: nat): (c: seq<Option<Desc>>)
    ensures SameFiles(t, c)
  {
    seq(|t|, i requires 0 <= i < |t| => Clamp(t[i], id, size))
  }

  /* ----- opening ----- */

  /** ufs_open's flags once read-write is added when no access flag is given. */
  function WithAccess(flags: set<Flag>): (access: set<Flag>)
    ensures flags <= access && access - flags <= {ReadWrite}
    ensures ReadWrite in access || ReadOnly in access || WriteOnly in access
  {
    if ReadWrite !in flags && ReadOnly !in flags && WriteOnly !in flags then flags + {ReadWrite} else flags
  }

  /** The descriptor ufs_create_fd makes: at offset 0 in the first block. */
  function NewDesc(id: nat, flags: set<Flag>): (d: Desc)
    ensures d.file == id && d.offset == 0 && d.curBlock == d.offset / BlockSize
    ensures ReadWrite in flags ==> d.canRead && d.canWrite
    ensures ReadWrite in flags || ReadOnly in flags || WriteOnly in flags ==> d.canRead || d.canWrite
  {
    Desc(id, ReadOnly in flags || ReadWrite in flags, WriteOnly in flags || ReadWrite in flags, 0, 0)
  }

  /**
   * Without an access flag a descriptor may both read and write; with one,
   * the flags are kept and the descriptor may do what they say.
   */
  lemma OpenAccess(id: nat, flags: set<Flag>)
    ensures ReadWrite !in flags && ReadOnly !in flags && WriteOnly !in flags ==>
              NewDesc(id, WithAccess(flags)).canRead && NewDesc(id, WithAccess(flags)).canWrite
    ensures ReadWrite in flags || ReadOnly in flags || WriteOnly in flags ==> WithAccess(flags) == flags
    ensures ReadOnly in flags && ReadWrite !in flags && WriteOnly !in flags ==>
              !NewDesc(id, WithAccess(flags)).canWrite
    ensures NewDesc(id, WithAccess(flags)).canRead || NewDesc(id, WithAccess(flags)).canWrite
  {
  }

  /* ----- where a read leaves a descriptor ----- */

  /**
   * The offset and block ufs_read leaves a descriptor at, as written: at
   * the end of the file it stops before moving to the next block, so a read
   * that ends at a block boundary leaves the descriptor one block behind.
   */
  function ReadCursorAsWritten(offset: nat, curBlock: nat, remaining: nat, size: nat): (r: (nat, nat))
    ensures var c := ReadCursor(offset, curBlock, remaining, size);
            r.0 == c.0 && (r.1 == c.1 || (r.1 + 1 == c.1 && r.0 == size && r.0 % BlockSize == 0))
    decreases remaining
  {
    if remaining == 0 || offset >= size then (offset, curBlock)
    else
      var w := Min(Min(size - offset, BlockSize - offset % BlockSize), remaining);
      var o := offset + w;
      if o >= size || o % BlockSize != 0 then (o, curBlock)
      else ReadCursorAsWritten(o, curBlock + 1, remaining - w, size)
  }

  /** The read cursor with the block moved whenever the offset reaches a boundary. */
  function ReadCursor(offset: nat, curBlock: nat, remaining: nat, size: nat): (nat, nat)
    decreases remaining
  {
    if remaining == 0 || offset >= size then (offset, curBlock)
    else
      var w := Min(Min(size - offset, BlockSize - offset % BlockSize), remaining);
      var o := offset + w;
      var b := if o % BlockSize == 0 then curBlock + 1 else curBlock;
      if o >= size || o % BlockSize != 0 then (o, b)
      else ReadCursor(o, b, remaining - w, size)
  }

  /** Where ufs_write puts its first byte: in the descriptor's block, at the offset within a block. */
  function WritePosition(offset: nat, curBlock: nat): nat {
    curBlock * BlockSize + offset % BlockSize
  }

  /**
   * The corrected cursor reads min(remaining, size - offset) bytes and
   * keeps the block the one the offset is in, so the next write lands at
   * the offset.
   */
  lemma {:induction false} ReadCursorKeepsBlock(offset: nat, curBlock: nat, remaining: nat, size: nat)
    requires curBlock == offset / BlockSize
    ensures var (o, b) := ReadCursor(offset, curBlock, remaining, size);
            o == offset + (if offset >= size then 0 else Min(remaining, size - offset)) &&
            b == o / BlockSize && WritePosition(o, b) == o
    decreases remaining
  {
    if remaining != 0 && offset < size {
      var w := Min(Min(size - offset, BlockSize - offset % BlockSize), remaining);
      var o := offset + w;
      var b := if o % BlockSize == 0 then curBlock + 1 else curBlock;
      assert b == o / BlockSize;
      if !(o >= size || o % BlockSize != 0) {
        ReadCursorKeepsBlock(o, b, remaining - w, size);
      }
    }
  }

  /**
   * A 512-byte file read whole from the start: as written, the descriptor
   * ends at offset 512 but still in block 0, and a write from there lands
   * on byte 0; the corrected cursor lands it on byte 512.
   */
  lemma ReadToBlockEndLeavesCursor()
    ensures ReadCursorAsWritten(0, 0, 512, 512) == (512, 0)
    ensures WritePosition(512, 0) == 0
    ensures ReadCursor(0, 0, 512, 512) == (512, 1) && WritePosition(512, 1) == 512
  {
  }

  /* ----- the file list ----- */

  /**
   * ufs_find_file: the first file of the list with this name that is not
   * waiting for deletion; a file found is listed, has the name and is not
   * waiting for deletion.
   */
  function FindIn(list: seq<nat>, files: map<nat, FileRec>, name: string): (r: Option<nat>)
    requires forall id :: id in list ==> id in files
    ensures r.Some? ==> r.value in list && files[r.value].name == name && !files[r.value].marked
  {
    if list == [] then None
    else if files[list[0]].name == name && !files[list[0]].marked then Some(list[0])
    else FindIn(list[1..], files, name)
  }

  /** No file is found exactly when every file of the list with the name waits for deletion. */
  lemma {:induction false} FindInComplete(list: seq<nat>, files: map<nat, FileRec>, name: string)
    requires forall id :: id in list ==> id in files
    ensures FindIn(list, files, name).None? <==>
              forall id :: id in list ==> files[id].name != name || files[id].marked
    decreases |list|
  {
    if list != [] {
      FindInComplete(list[1..], files, name);
      assert list == [list[0]] + list[1..];
    }
  }

  /** The list with x unlinked, the others in their order. */
  function Remove(list: seq<nat>, x: nat): seq<nat> {
    if list == [] then []
    else (if list[0] == x then [] else [list[0]]) + Remove(list[1..], x)
  }

  /** Unlinking x leaves exactly the other files, each still once. */
  lemma {:induction false} RemoveSpec(list: seq<nat>, x: nat)
    requires forall i, j :: 0 <= i < j < |list| ==> list[i] != list[j]
    ensures forall y :: y in Remove(list, x) <==> y in list && y != x
    ensures forall i, j :: 0 <= i < j < |Remove(list, x)| ==> Remove(list, x)[i] != Remove(list, x)[j]
    decreases |list|
  {
    if list != [] {
      RemoveSpec(list[1..], x);
      var r := Remove(list, x);
      var tail := Remove(list[1..], x);
      assert list == [list[0]] + list[1..];
      assert list[0] !in list[1..];
      assert list[0] !in tail;
    }
  }
}
