/**
 * The user file system of userfs.c as one object: the file list, the
 * descriptor table with its round-robin slot search, reference counts with
 * deferred deletion, and the global error code. Its methods are the ufs_
 * functions; a descriptor number is its slot plus one, and -1 is failure.
 * Every method keeps Valid(), the invariant of UfsState on the fields.
 */
module UserFs {
  import opened Wrappers
  import opened UfsSpec
  import opened UfsBlocks
  import opened UfsState

  const Failure: int := -1

  /** No slot from start up to p, going round the end of the table, is free. */
  ghost predicate TakenFrom(t: seq<Option<Desc>>, start: nat, p: nat) {
    if start <= p
    then forall k :: start <= k < p && k < |t| ==> t[k].Some?
    else (forall k :: start <= k < |t| ==> t[k].Some?) && (forall k :: 0 <= k < p && k < |t| ==> t[k].Some?)
  }

  /**
   * The search loop of ufs_create_fd: from start, step to the next slot,
   * going back to 0 past the end, until a slot is free. It ends at the
   * first free slot met.
   */
  method FreeSlotFrom(t: seq<Option<Desc>>, start: nat) returns (p: nat)
    requires start < |t| && Occupied(t) < |t|
    ensures p < |t| && t[p].None? && TakenFrom(t, start, p)
  {
    ghost var j := FreeSlotExists(t);
    p := start;
    while t[p].Some?
      invariant p < |t| && TakenFrom(t, start, p)
      invariant p < start ==> p <= j
      decreases if p <= j then j - p else j + |t| - p
    {
      p := p + 1;
      if p == |t| {
        p := 0;
      }
    }
  }

  class FileSystem {
    /** The files, by identity; the list gives their order. */
    var files: map<nat, FileRec>
    var list: seq<nat>
    var nextId: nat
    /** file_descriptors; its length is file_descriptor_capacity. */
    var fds: seq<Option<Desc>>
    /** file_descriptor_count: descriptors made; closing one does not lower it. */
    var count: nat
    /** file_descriptors_rr_ptr: where the search for a free slot starts. */
    var rr: nat
    var error: UfsError

    ghost function St(): State
      reads this
    {
      State(files, list, nextId, fds, count, rr)
    }

    ghost predicate Valid()
      reads this
    {
      Inv(St())
    }

    /** The file system at start: no file, no descriptor slot, no error. */
    constructor()
      ensures Valid() && files == map[] && list == [] && fds == [] && count == 0 && rr == 0 && error == NoErr
    {
      files, list, nextId := map[], [], 0;
      fds, count, rr := [], 0, 0;
      error := NoErr;
      EmptyInv();
    }

    /** ufs_find_file: walks the list for the first file of this name not waiting for deletion. */
    method FindFile(name: string) returns (found: Option<nat>)
      requires forall id :: id in list ==> id in files
      ensures found == FindIn(list, files, name)
    {
      var i := 0;
      while i < |list| && (files[list[i]].name != name || files[list[i]].marked)
        invariant 0 <= i <= |list|
        invariant FindIn(list[i..], files, name) == FindIn(list, files, name)
      {
        assert list[i..][1..] == list[i + 1..];
        i := i + 1;
      }
      if i < |list| {
        found := Some(list[i]);
      } else {
        found := None;
      }
    }

    /**
     * ufs_create_file: an empty file of one zeroed block, without
     * descriptors, at the end of the list; afterwards the name finds it.
     */
    method CreateFile(name: string) returns (id: nat)
      requires Valid() && FindIn(list, files, name).None?
      modifies this
      ensures id == old(nextId) && id !in old(files) && error == old(error)
      ensures St() == Created(old(St()), name)
      ensures Valid() && FindIn(list, files, name) == Some(id)
    {
      id := nextId;
      ghost var s := St();
      ghost var t := CreateFileInv(s, name);
      files := files[id := NewFile(name)];
      list := list + [id];
      nextId := nextId + 1;
      assert St() == t;
    }

    /** ufs_real_delete_file: frees a file no descriptor is open on and unlinks it from the list. */
    method RealDeleteFile(id: nat)
      requires Detached(St(), id)
      modifies this
      ensures Valid()
      ensures St() == old(St()).(files := old(files) - {id}, list := Remove(old(list), id))
      ensures error == old(error)
    {
      ghost var s := St();
      ghost var t := RealDeleteInv(s, id);
      files := files - {id};
      list := Remove(list, id);
      assert St() == t;
    }

    /**
     * ufs_extend_fd_list_if_needed: when every slot was handed out, the
     * table doubles (from none to one) with the new slots empty.
     */
    method ExtendFdListIfNeeded()
      requires Valid()
      modifies this
      ensures Valid() && count < |fds| && |fds| == Capacity(old(count), old(|fds|))
      ensures St() == Grown(old(St()))
      ensures error == old(error)
    {
      if count < |fds| {
        assert fds == fds + Nones(0);
        return;
      }
      var newCapacity := if |fds| != 0 then 2 * |fds| else 1;
      ghost var s := St();
      ghost var t := GrowTableInv(s, newCapacity - |fds|);
      fds := fds + Nones(newCapacity - |fds|);
      assert St() == t;
    }

    /**
     * ufs_create_fd: makes room in the table, searches round-robin from rr
     * for an empty slot (there is one: fewer descriptors are open than were
     * made) and puts a new descriptor on file id there, at offset 0.
     */
    method CreateFd(id: nat, flags: set<Flag>) returns (idx: nat)
      requires Valid() && id in files
      modifies this
      ensures Valid() && |fds| >= |old(fds)| && idx < |fds|
      ensures var grown := Grown(old(St()));
              idx < |grown.fds| && grown.fds[idx].None? && St() == Placed(grown, idx, id, flags)
      ensures TakenFrom(Grown(old(St())).fds, old(rr), idx)
      ensures error == old(error)
    {
      ExtendFdListIfNeeded();
      var p := FreeSlotFrom(fds, rr);
      PlaceFd(p, id, flags);
      idx := p;
    }

    /** The end of ufs_create_fd: the descriptor in the free slot p, the refs and the count up, rr at p. */
    method PlaceFd(p: nat, id: nat, flags: set<Flag>)
      requires Valid() && p < |fds| && fds[p].None? && count < |fds| && id in files
      modifies this
      ensures Valid()
      ensures St() == Placed(old(St()), p, id, flags)
      ensures error == old(error)
    {
      ghost var s := St();
      ghost var t := PlaceDescInv(s, p, id, flags);
      fds := fds[p := Some(NewDesc(id, flags))];
      files := files[id := files[id].(refs := files[id].refs + 1)];
      count := count + 1;
      rr := p;
      assert St() == t;
    }

    /**
     * ufs_delete_fd: empties the slot and drops the file's refs, freeing
     * the file when it waits for deletion and this was its last descriptor.
     */
    method DeleteFd(idx: nat)
      requires Valid() && ValidIdx(fds, idx)
      modifies this
      ensures Valid()
      ensures var id := old(fds[idx].value.file);
              var f := old(files[id]);
              f.refs > 0 &&
              if f.marked && f.refs == 1
              then St() == old(St()).(fds := old(fds)[idx := None], files := old(files) - {id}, list := Remove(old(list), id))
              else St() == old(St()).(fds := old(fds)[idx := None], files := old(files)[id := f.(refs := f.refs - 1)])
      ensures error == old(error)
    {
      var id := fds[idx].value.file;
      ghost var s := St();
      DropDescInv(s, idx);
      var f := files[id];
      fds := fds[idx := None];
      if f.marked && f.refs == 1 {
        assert St() == s.(fds := s.fds[idx := None]);
        RealDeleteFile(id);
      } else {
        files := files[id := f.(refs := f.refs - 1)];
        assert St() == s.(fds := s.fds[idx := None], files := s.files[id := f.(refs := f.refs - 1)]);
      }
    }

    /**
     * ufs_extend_file: the file grows to newSize with zero bytes, gaining
     * the blocks the new size needs.
     */
    method ExtendFile(id: nat, newSize: nat)
      requires Valid() && id in files && files[id].size < newSize <= MaxFileSize
      modifies this
      ensures Valid() && id in files
      ensures Rewritten(old(files[id]), files[id], old(Content(files[id])) + Zeros(newSize - old(files[id].size)))
      ensures St() == old(St()).(files := old(files)[id := files[id]])
      ensures error == old(error)
    {
      var f := files[id];
      assert FileValid(St(), id);
      var mem := ExtendBlocks(f.mem, f.size, newSize);
      var g := f.(mem := mem, size := newSize);
      ghost var s := St();
      ghost var t := ReplaceFileInv(s, id, g);
      files := files[id := g];
      assert St() == t;
    }

    /**
     * ufs_reduce_file: the file keeps its first newSize bytes and the
     * blocks they need; descriptors past the new end are left for
     * MoveOverflowingFds.
     */
    method ReduceFile(id: nat, newSize: nat)
      requires Valid() && id in files && newSize < files[id].size
      modifies this
      ensures Shrunk(St(), id)
      ensures Rewritten(old(files[id]), files[id], old(Content(files[id]))[..newSize])
      ensures St() == old(St()).(files := old(files)[id := files[id]])
      ensures error == old(error)
    {
      var f := files[id];
      assert FileValid(St(), id);
      var mem := ReduceBlocks(f.mem, f.size, newSize);
      var g := f.(mem := mem, size := newSize);
      ghost var s := St();
      ghost var t := ReplaceFileInv(s, id, g);
      files := files[id := g];
      assert St() == t;
    }

    /**
     * The walk of ufs_move_overflowing_fds over the table: every descriptor
     * on file id past size moved to size, and the number of descriptors on
     * the file counted on the way.
     */
    method ClampTable(id: nat, size: nat) returns (table: seq<Option<Desc>>, found: nat)
      ensures table == Clamped(fds, id, size) && found == RefCount(fds, id)
    {
      table := fds;
      found := 0;
      for i := 0 to |fds|
        invariant |table| == |fds|
        invariant forall k :: 0 <= k < i ==> table[k] == Clamp(fds[k], id, size)
        invariant forall k :: i <= k < |fds| ==> table[k] == fds[k]
        invariant found == RefCount(fds[..i], id)
      {
        assert fds[..i + 1][..i] == fds[..i];
        if fds[i].None? || fds[i].value.file != id {
          continue;
        }
        var d := fds[i].value;
        found := found + 1;
        if d.offset <= size {
          continue;
        }
        table := table[i := Some(d.(offset := size, curBlock := size / BlockSize))];
      }
      assert fds[..|fds|] == fds;
    }

    /**
     * ufs_move_overflowing_fds: every descriptor on file id past its end is
     * put at the end, in the last block. The descriptors the walk finds on
     * the file are exactly its refs.
     */
    method MoveOverflowingFds(id: nat)
      requires Shrunk(St(), id)
      modifies this
      ensures Valid() && id in files
      ensures St() == old(St()).(fds := Clamped(old(fds), id, files[id].size))
      ensures error == old(error)
    {
      var size := files[id].size;
      var table, found := ClampTable(id, size);
      assert found == files[id].refs by {
        assert FileValid(St(), id);
      }
      ghost var s := St();
      ghost var t := ClampInv(s, id);
      fds := table;
      assert St() == t;
    }

    /**
     * ufs_open: clears the error; without an access flag the descriptor
     * may read and write. The file of the name is found, or made when
     * Create is given; when there is none the error is NoFile and the
     * result -1. Otherwise the result is a new descriptor's number, its
     * slot holding a descriptor at offset 0 on that file.
     */
    method Open(name: string, flags: set<Flag>) returns (fd: int)
      requires Valid()
      modifies this
      ensures Valid()
      ensures var found := FindIn(old(list), old(files), name);
              if found.None? && Create !in flags
              then fd == Failure && error == NoFile && St() == old(St())
              else
                var id := if found.Some? then found.value else old(nextId);
                error == NoErr && 1 <= fd <= |fds| && fds[fd - 1] == Some(NewDesc(id, WithAccess(flags))) &&
                FindIn(list, files, name) == Some(id) && files[id].name == name &&
                files[id].refs == (if found.Some? then old(files[id].refs) else 0) + 1 &&
                Opened(old(St()), St(), name, WithAccess(flags), fd)
    {
      error := NoErr;
      ghost var s0 := St();
      var access := WithAccess(flags);
      assert (Create in access) == (Create in flags);
      var found := FindFile(name);
      if found.None? && Create !in access {
        error := NoFile;
        return Failure;
      }
      var id: nat;
      if found.None? {
        id := CreateFile(name);
      } else {
        id := found.value;
      }
      ghost var s := St();
      assert s == if found.Some? then s0 else Created(s0, name);
      fd := OpenOn(id, access, name);
      assert Opened(s0, St(), name, access, fd);
    }

    /** The end of ufs_open: a new descriptor on the file the name finds; its number is its slot plus one. */
    method OpenOn(id: nat, access: set<Flag>, name: string) returns (fd: int)
      requires Valid() && id in files && FindIn(list, files, name) == Some(id)
      modifies this
      ensures Valid() && id in files
      ensures 1 <= fd <= |fds| && fds[fd - 1] == Some(NewDesc(id, access))
      ensures FindIn(list, files, name) == Some(id) && files[id].name == name
      ensures files == old(files)[id := old(files)[id].(refs := old(files)[id].refs + 1)]
      ensures fd - 1 < |Grown(old(St())).fds| && St() == Placed(Grown(old(St())), fd - 1, id, access)
      ensures error == old(error)
    {
      ghost var s := St();
      var idx := CreateFd(id, access);
      OpenedOn(s, Grown(s), idx, id, access, name);
      fd := idx + 1;
    }

    /**
     * ufs_write: with a descriptor that may write and room under the size
     * limit, buf goes into the file at the descriptor's offset (the file
     * growing when it runs past the end) and the descriptor moves past it;
     * the result is the number of bytes written. Otherwise the error is
     * NoFile, NoPermission or NoMem, in that order, and the result -1.
     */
    method Write(fd: int, buf: seq<byte>) returns (r: int)
      requires Valid()
      modifies this
      ensures Valid()
      ensures !old(ValidIdx(fds, fd - 1)) ==> r == Failure && error == NoFile && St() == old(St())
      ensures old(ValidIdx(fds, fd - 1)) ==>
                var d := old(fds[fd - 1].value);
                if !d.canWrite then r == Failure && error == NoPermission && St() == old(St())
                else if d.offset + |buf| > MaxFileSize then r == Failure && error == NoMem && St() == old(St())
                else r == |buf| && error == old(error) && Written(old(St()), St(), fd - 1, buf)
    {
      var idx := fd - 1;
      if !ValidIdx(fds, idx) {
        error := NoFile;
        return Failure;
      }
      var d := fds[idx].value;
      if !d.canWrite {
        error := NoPermission;
        return Failure;
      }
      if d.offset + |buf| > MaxFileSize {
        error := NoMem;
        return Failure;
      }
      WriteAt(idx, buf);
      r := |buf|;
    }

    /** The copy of ufs_write, once its checks pass. */
    method WriteAt(idx: nat, buf: seq<byte>)
      requires Valid() && ValidIdx(fds, idx) && fds[idx].value.offset + |buf| <= MaxFileSize
      modifies this
      ensures Valid() && Written(old(St()), St(), idx, buf) && error == old(error)
    {
      var d := fds[idx].value;
      ghost var s := St();
      ValidIdxOnFile(s, idx);
      var f := files[d.file];
      assert FileValid(s, d.file);
      var mem, offset, curBlock := WriteBlocks(f.mem, f.size, d.offset, d.curBlock, buf);
      var g := f.(mem := mem, size := Max(f.size, offset));
      var d' := d.(offset := offset, curBlock := curBlock);
      ghost var t := WriteStep(s, idx, buf, mem, offset);
      files := files[d.file := g];
      fds := fds[idx := Some(d')];
      assert St() == t;
    }

    /**
     * ufs_read: with a descriptor that may read, returns up to n bytes of
     * the file from the descriptor's offset (none at or past the end) and
     * moves the descriptor past them, to the block its new offset is in.
     * Otherwise the error is NoFile or NoPermission and the result -1.
     */
    method Read(fd: int, n: nat) returns (r: int, out: seq<byte>)
      requires Valid()
      modifies this
      ensures Valid()
      ensures !old(ValidIdx(fds, fd - 1)) ==> r == Failure && out == [] && error == NoFile && St() == old(St())
      ensures old(ValidIdx(fds, fd - 1)) ==>
                var d := old(fds[fd - 1].value);
                var f := old(files[d.file]);
                if !d.canRead then r == Failure && out == [] && error == NoPermission && St() == old(St())
                else
                  var c := ReadCursor(d.offset, d.curBlock, n, f.size);
                  f.size <= |f.mem| && r == |out| && out == ReadSpan(Content(f), d.offset, n) && error == old(error) &&
                  St() == old(St()).(fds := old(fds)[fd - 1 := Some(d.(offset := c.0, curBlock := c.1))])
    {
      out := [];
      var idx := fd - 1;
      if !ValidIdx(fds, idx) {
        error := NoFile;
        return Failure, [];
      }
      var d := fds[idx].value;
      if !d.canRead {
        error := NoPermission;
        return Failure, [];
      }
      ghost var s := St();
      ValidIdxOnFile(s, idx);
      var f := files[d.file];
      assert FileValid(s, d.file);
      ReadCursorKeepsBlock(d.offset, d.curBlock, n, f.size);
      if d.offset >= f.size {
        assert fds == fds[idx := Some(d)];
        return 0, [];
      }
      var offset, curBlock;
      out, offset, curBlock := ReadBlocks(f.mem, f.size, d.offset, d.curBlock, n);
      var d' := d.(offset := offset, curBlock := curBlock);
      ghost var t := MoveDescInv(s, idx, d');
      fds := fds[idx := Some(d')];
      assert St() == t;
      r := |out|;
    }

    /** ufs_close: frees the descriptor (and its file when that waits for deletion); -1 and NoFile for a bad number. */
    method Close(fd: int) returns (r: int)
      requires Valid()
      modifies this
      ensures Valid()
      ensures !old(ValidIdx(fds, fd - 1)) ==> r == Failure && error == NoFile && St() == old(St())
      ensures old(ValidIdx(fds, fd - 1)) ==> r == 0 && error == old(error)
      ensures old(ValidIdx(fds, fd - 1)) ==>
              var id := old(fds[fd - 1].value.file);
              var f := old(files[id]);
              f.refs > 0 &&
              if f.marked && f.refs == 1
              then St() == old(St()).(fds := old(fds)[fd - 1 := None], files := old(files) - {id}, list := Remove(old(list), id))
              else St() == old(St()).(fds := old(fds)[fd - 1 := None], files := old(files)[id := f.(refs := f.refs - 1)])
    {
      var idx := fd - 1;
      if !ValidIdx(fds, idx) {
        error := NoFile;
        return Failure;
      }
      DeleteFd(idx);
      r := 0;
    }

    /**
     * ufs_delete: the file of the name is freed at once when no descriptor
     * is open on it, and otherwise marked, to be freed when its last
     * descriptor closes; either way the name no longer finds it. Without
     * such a file the error is NoFile and the result -1.
     */
    method Delete(name: string) returns (r: int)
      requires Valid()
      modifies this
      ensures Valid()
      ensures var found := FindIn(old(list), old(files), name);
              if found.None? then r == Failure && error == NoFile && St() == old(St())
              else
                var id := found.value;
                r == 0 && error == old(error) && FindIn(list, files, name).None? &&
                if old(files[id].refs) == 0
                then St() == old(St()).(files := old(files) - {id}, list := Remove(old(list), id))
                else St() == old(St()).(files := old(files)[id := old(files[id]).(marked := true)])
    {
      var found := FindFile(name);
      if found.None? {
        error := NoFile;
        return Failure;
      }
      var id := found.value;
      ghost var s := St();
      if files[id].refs == 0 {
        DeleteUnusedFinds(s, id, name);
        UnusedDetached(s, id);
        RealDeleteFile(id);
      } else {
        ghost var t := MarkInv(s, id, name);
        files := files[id := files[id].(marked := true)];
        assert St() == t;
      }
      r := 0;
    }

    /**
     * ufs_resize: NoFile for a bad descriptor, NoMem past the size limit;
     * otherwise the file grows with zero bytes or keeps its first newSize
     * bytes, and after shrinking every descriptor past the new end is put
     * at the end.
     */
    method Resize(fd: int, newSize: nat) returns (r: int)
      requires Valid()
      modifies this
      ensures Valid()
      ensures !old(ValidIdx(fds, fd - 1)) ==> r == Failure && error == NoFile && St() == old(St())
      ensures old(ValidIdx(fds, fd - 1)) && newSize > MaxFileSize ==> r == Failure && error == NoMem && St() == old(St())
      ensures old(ValidIdx(fds, fd - 1)) && newSize <= MaxFileSize ==>
                var id := old(fds[fd - 1].value.file);
                var f := old(files[id]);
                f.size <= |f.mem| && r == 0 && error == old(error) && id in files &&
                Rewritten(f, files[id], if newSize <= f.size then Content(f)[..newSize] else Content(f) + Zeros(newSize - f.size)) &&
                St() == old(St()).(files := old(files)[id := files[id]],
                                   fds := if newSize < f.size then Clamped(old(fds), id, newSize) else old(fds))
    {
      var idx := fd - 1;
      if !ValidIdx(fds, idx) {
        error := NoFile;
        return Failure;
      }
      if newSize > MaxFileSize {
        error := NoMem;
        return Failure;
      }
      var id := fds[idx].value.file;
      ValidIdxOnFile(St(), idx);
      assert FileValid(St(), id);
      if newSize == files[id].size {
        assert Content(files[id])[..newSize] == Content(files[id]);
        return 0;
      }
      if newSize > files[id].size {
        ExtendFile(id, newSize);
      } else {
        ReduceFile(id, newSize);
        MoveOverflowingFds(id);
      }
      r := 0;
    }
  }
}
