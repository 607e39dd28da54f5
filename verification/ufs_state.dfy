/**
 * The invariant of the user file system's global state, stated on values:
 * the file list, the files, the descriptor table and its counters. Each
 * lemma here is one state change of userfs.c (a file made, freed,
 * rewritten or marked; a slot filled or emptied; the table grown; the
 * descriptors past a shrunk file's end moved back) and shows the change
 * keeps the invariant.
 */
module UfsState {
  import opened Wrappers
  import opened UfsSpec

  /**
   * The global state: the files by identity, the file list's order, the
   * next identity, the descriptor table (one entry per slot of its
   * capacity), the count of descriptors made and the round-robin pointer.
   */
  datatype State = State(files: map<nat, FileRec>, list: seq<nat>, nextId: nat,
                         fds: seq<Option<Desc>>, count: nat, rr: nat)

  /** The list holds each file once, and only the files. */
  ghost predicate ListOk(s: State) {
    (forall i, j :: 0 <= i < j < |s.list| ==> s.list[i] != s.list[j]) &&
    (forall id :: id in s.list ==> id in s.files) &&
    (forall id :: id in s.files ==> id in s.list) &&
    (forall id :: id in s.files ==> id < s.nextId)
  }

  /**
   * A file has the blocks its size needs, its refs are the descriptors open
   * on it, and a file waiting for deletion still has some.
   */
  ghost predicate FileValid(s: State, id: nat)
    requires id in s.files
  {
    FileOk(s.files[id]) && s.files[id].refs == RefCount(s.fds, id) &&
    !(s.files[id].marked && s.files[id].refs == 0)
  }

  ghost predicate FilesOk(s: State) {
    forall id :: id in s.files ==> FileValid(s, id)
  }

  /** At most one file of a name is not waiting for deletion. */
  ghost predicate NamesUnique(s: State) {
    forall a, b :: a in s.files && b in s.files && a != b && !s.files[a].marked && !s.files[b].marked ==>
      s.files[a].name != s.files[b].name
  }

  /** A descriptor is on a file and stands in the block of its offset. */
  ghost predicate DescOn(s: State, d: Desc) {
    d.file in s.files && d.curBlock == d.offset / BlockSize
  }

  /** Every descriptor is on a file, within it, in the block of its offset. */
  ghost predicate DescsOk(s: State) {
    forall i :: 0 <= i < |s.fds| && s.fds[i].Some? ==>
      DescOn(s, s.fds[i].value) && s.fds[i].value.offset <= s.files[s.fds[i].value.file].size
  }

  /** DescsOk, except that descriptors on file id may stand past its end. */
  ghost predicate DescsOkBeyond(s: State, id: nat) {
    forall i :: 0 <= i < |s.fds| && s.fds[i].Some? ==>
      DescOn(s, s.fds[i].value) &&
      (s.fds[i].value.file != id ==> s.fds[i].value.offset <= s.files[s.fds[i].value.file].size)
  }

  /**
   * No more descriptors are open than were made, no more were made than
   * there are slots, and the pointer is a slot (or 0 before the first).
   */
  ghost predicate TableOk(s: State) {
    Occupied(s.fds) <= s.count <= |s.fds| && (s.rr < |s.fds| || s.rr == 0)
  }

  ghost predicate Inv(s: State) {
    ListOk(s) && FilesOk(s) && NamesUnique(s) && DescsOk(s) && TableOk(s)
  }

  /** The state ufs_real_delete_file may be called in: file id has no descriptor left. */
  ghost predicate Detached(s: State, id: nat) {
    ListOk(s) && NamesUnique(s) && DescsOk(s) && TableOk(s) &&
    id in s.files && RefCount(s.fds, id) == 0 &&
    forall k :: k in s.files && k != id ==> FileValid(s, k)
  }

  /** The state between ufs_reduce_file and ufs_move_overflowing_fds. */
  ghost predicate Shrunk(s: State, id: nat) {
    ListOk(s) && FilesOk(s) && NamesUnique(s) && DescsOkBeyond(s, id) && TableOk(s) && id in s.files
  }

  /** ufs_check_valid_fd_idx: the index is a slot of the table that holds a descriptor. */
  predicate ValidIdx(fds: seq<Option<Desc>>, idx: int): (valid: bool)
    ensures valid ==> 0 <= idx < |fds| && fds[idx].Some? && RefCount(fds, fds[idx].value.file) >= 1
  {
    0 <= idx < |fds| && fds[idx].Some? && (SlotCounted(fds, idx); true)
  }

  /** The file ufs_create_file makes: one zeroed block, no descriptor. */
  function NewFile(name: string): (f: FileRec)
    ensures FileOk(f) && Content(f) == [] && f.refs == 0 && !f.marked && f.name == name
  {
    FileRec(name, Zeros(BlockSize), 0, 0, false)
  }

  /** The empty state satisfies the invariant. */
  lemma EmptyInv()
    ensures Inv(State(map[], [], 0, [], 0, 0))
  {
  }

  /** A valid index names a descriptor on a file of the state, within it. */
  lemma ValidIdxOnFile(s: State, idx: int)
    requires Inv(s) && ValidIdx(s.fds, idx)
    ensures s.fds[idx].value.file in s.files && s.fds[idx].value.offset <= s.files[s.fds[idx].value.file].size
    ensures s.files[s.fds[idx].value.file].refs > 0
  {
    var id := s.fds[idx].value.file;
    if RefCount(s.fds, id) == 0 {
      NoRefsNoDesc(s.fds, id);
    }
  }

  /**
   * ufs_create_file when no file of the name is found: the state keeps its
   * invariant, and afterwards the name finds the new file.
   */
  lemma CreateFileInv(s: State, name: string) returns (t: State)
    requires Inv(s) && FindIn(s.list, s.files, name).None?
    ensures t == s.(files := s.files[s.nextId := NewFile(name)], list := s.list + [s.nextId], nextId := s.nextId + 1)
    ensures Inv(t) && FindIn(t.list, t.files, name) == Some(s.nextId)
  {
    t := s.(files := s.files[s.nextId := NewFile(name)], list := s.list + [s.nextId], nextId := s.nextId + 1);
    NoDescNoRefs(s.fds, s.nextId);
    FindInComplete(s.list, s.files, name);
    forall id | id in s.files
      ensures t.files[id] == s.files[id]
    {
    }
    assert ListOk(t);
    assert FilesOk(t);
    FindInAppend(s.list, s.files, t.files, name, s.nextId);
  }

  /** Appending a file of the name to a list where the name finds nothing makes the name find it. */
  lemma {:induction false} FindInAppend(list: seq<nat>, files: map<nat, FileRec>, files': map<nat, FileRec>,
                                        name: string, id: nat)
    requires forall k :: k in list ==> k in files && k in files' && files'[k] == files[k]
    requires FindIn(list, files, name).None?
    requires id in files' && files'[id].name == name && !files'[id].marked
    ensures FindIn(list + [id], files', name) == Some(id)
    decreases |list|
  {
    if list == [] {
      assert list + [id] == [id];
    } else {
      assert (list + [id])[1..] == list[1..] + [id];
      FindInAppend(list[1..], files, files', name, id);
    }
  }

  /** ufs_real_delete_file on a file without descriptors restores the invariant. */
  lemma RealDeleteInv(s: State, id: nat) returns (t: State)
    requires Detached(s, id)
    ensures t == s.(files := s.files - {id}, list := Remove(s.list, id))
    ensures Inv(t)
  {
    t := s.(files := s.files - {id}, list := Remove(s.list, id));
    NoRefsNoDesc(s.fds, id);
    RemoveSpec(s.list, id);
    forall k | k in t.files
      ensures FileValid(t, k)
    {
      assert FileValid(s, k);
    }
  }

  /** A file no descriptor is open on may be freed. */
  lemma UnusedDetached(s: State, id: nat)
    requires Inv(s) && id in s.files && s.files[id].refs == 0
    ensures Detached(s, id)
  {
  }

  /** Empty slots added at the end of the table keep the invariant. */
  lemma GrowTableInv(s: State, n: nat) returns (t: State)
    requires Inv(s)
    ensures t == s.(fds := s.fds + Nones(n))
    ensures Inv(t)
  {
    t := s.(fds := s.fds + Nones(n));
    forall id | id in s.files
      ensures RefCount(t.fds, id) == RefCount(s.fds, id)
    {
      AppendNonesCounts(s.fds, n, id);
    }
    AppendNonesCounts(s.fds, n, 0);
    assert FilesOk(t);
    assert DescsOk(t);
  }

  /**
   * The table length ufs_extend_fd_list_if_needed leaves: doubled (one
   * from none) when every slot was handed out, as it was otherwise.
   */
  function Capacity(count: nat, len: nat): (c: nat)
    ensures c >= len && (count <= len ==> count < c)
  {
    if count < len then len else if len != 0 then 2 * len else 1
  }

  /** The state after ufs_create_file appends an empty file of this name under the next identity. */
  ghost function Created(s: State, name: string): State {
    s.(files := s.files[s.nextId := NewFile(name)], list := s.list + [s.nextId], nextId := s.nextId + 1)
  }

  /**
   * The state after ufs_open succeeds on s: the file the name finds (or a
   * new one made by ufs_create_file) gains a descriptor with the given
   * access in slot fd - 1 of the table grown as needed.
   */
  ghost predicate Opened(s: State, t: State, name: string, access: set<Flag>, fd: int)
    requires forall id :: id in s.list ==> id in s.files
  {
    var found := FindIn(s.list, s.files, name);
    var id := if found.Some? then found.value else s.nextId;
    var made := if found.Some? then s else Created(s, name);
    id in made.files && 1 <= fd <= |Grown(made).fds| && t == Placed(Grown(made), fd - 1, id, access)
  }

  /** The state once ufs_extend_fd_list_if_needed has added its empty slots. */
  ghost function Grown(s: State): State {
    s.(fds := s.fds + Nones(Capacity(s.count, |s.fds|) - |s.fds|))
  }

  /** The state once a new descriptor on file id with the given access is put in slot p. */
  ghost function Placed(s: State, p: nat, id: nat, flags: set<Flag>): State
    requires p < |s.fds| && id in s.files
  {
    s.(fds := s.fds[p := Some(NewDesc(id, flags))],
       files := s.files[id := s.files[id].(refs := s.files[id].refs + 1)],
       count := s.count + 1, rr := p)
  }

  /**
   * ufs_open's new descriptor, in a slot of the table grown from s's: it
   * is on file id, whose refs are one higher, and the name still finds it.
   */
  lemma OpenedOn(s: State, grown: State, idx: nat, id: nat, flags: set<Flag>, name: string)
    requires Inv(s) && id in s.files && FindIn(s.list, s.files, name) == Some(id)
    requires grown == Grown(s) && idx < |grown.fds|
    ensures var t := Placed(grown, idx, id, flags);
            t.fds[idx] == Some(NewDesc(id, flags)) && id in t.files && t.files[id].name == name &&
            t.files == s.files[id := s.files[id].(refs := s.files[id].refs + 1)] &&
            FindIn(t.list, t.files, name) == Some(id)
  {
    FindInRefs(s.list, s.files, id, s.files[id].refs + 1, name);
  }

  /**
   * ufs_create_fd's last step: a new descriptor on file id in an empty
   * slot p, the file's refs and the count one higher, the pointer at p.
   */
  lemma PlaceDescInv(s: State, p: nat, id: nat, flags: set<Flag>) returns (t: State)
    requires Inv(s) && p < |s.fds| && s.fds[p].None? && s.count < |s.fds| && id in s.files
    ensures t == Placed(s, p, id, flags)
    ensures Inv(t)
  {
    var d := Some(NewDesc(id, flags));
    t := Placed(s, p, id, flags);
    PlaceFilesOk(s, p, t, id, d);
    ShapeKept(s, t);
    assert TableOk(t) by {
      UpdateCounts(s.fds, p, d, 0);
    }
    PlaceDescsOk(s, p, t, id, d);
  }

  /** The new descriptor is at offset 0 of its file, and the others are as they were. */
  lemma PlaceDescsOk(s: State, p: nat, t: State, id: nat, d: Option<Desc>)
    requires DescsOk(s) && p < |s.fds| && id in s.files
    requires d.Some? && d.value.file == id && d.value.offset == 0 && d.value.curBlock == 0
    requires t.fds == s.fds[p := d] && t.files.Keys == s.files.Keys
    requires forall k :: k in s.files ==> t.files[k].size == s.files[k].size
    ensures DescsOk(t)
  {
    forall i | 0 <= i < |t.fds| && t.fds[i].Some?
      ensures DescOn(t, t.fds[i].value) && t.fds[i].value.offset <= t.files[t.fds[i].value.file].size
    {
      if i != p {
        assert DescOn(s, s.fds[i].value);
      }
    }
  }

  lemma PlaceFilesOk(s: State, p: nat, t: State, id: nat, d: Option<Desc>)
    requires FilesOk(s) && p < |s.fds| && s.fds[p].None? && id in s.files && d.Some? && d.value.file == id
    requires t.fds == s.fds[p := d] && t.files == s.files[id := s.files[id].(refs := s.files[id].refs + 1)]
    ensures FilesOk(t)
  {
    forall k | k in t.files
      ensures FileValid(t, k)
    {
      UpdateCounts(s.fds, p, d, k);
      assert FileValid(s, k);
    }
  }

  /**
   * ufs_delete_fd's first steps: the slot emptied and the file's refs one
   * lower. When that was the last descriptor of a file waiting for
   * deletion, the file is ready to be freed; otherwise the invariant holds.
   */
  lemma DropDescInv(s: State, idx: nat)
    requires Inv(s) && ValidIdx(s.fds, idx)
    ensures var id := s.fds[idx].value.file;
            var f := s.files[id];
            var u := s.fds[idx := None];
            f.refs > 0 &&
            (f.marked && f.refs == 1 ==> Detached(s.(fds := u), id)) &&
            (!(f.marked && f.refs == 1) ==> Inv(s.(fds := u, files := s.files[id := f.(refs := f.refs - 1)])))
  {
    var id := s.fds[idx].value.file;
    var f := s.files[id];
    var u := s.fds[idx := None];
    ValidIdxOnFile(s, idx);
    assert Occupied(u) < Occupied(s.fds) by {
      UpdateCounts(s.fds, idx, None, 0);
    }
    assert RefCount(u, id) == f.refs - 1 by {
      UpdateCounts(s.fds, idx, None, id);
      assert FileValid(s, id);
    }
    if f.marked && f.refs == 1 {
      DropDetached(s, idx, u, id);
    } else {
      DropKeeps(s, idx, u, id);
    }
  }

  /** The list and the names stay in order while no file is added, freed, renamed or marked. */
  lemma ShapeKept(s: State, t: State)
    requires ListOk(s) && NamesUnique(s)
    requires t.list == s.list && t.nextId == s.nextId && t.files.Keys == s.files.Keys
    requires forall k :: k in s.files ==> t.files[k].name == s.files[k].name && t.files[k].marked == s.files[k].marked
    ensures ListOk(t) && NamesUnique(t)
  {
  }

  /** The descriptors left in a table whose files kept their sizes are still in order. */
  lemma DescsKept(s: State, t: State)
    requires DescsOk(s) && |t.fds| == |s.fds|
    requires forall i :: 0 <= i < |t.fds| && t.fds[i].Some? ==> t.fds[i] == s.fds[i]
    requires forall k :: k in s.files ==> k in t.files && t.files[k].size == s.files[k].size
    ensures DescsOk(t)
  {
    forall i | 0 <= i < |t.fds| && t.fds[i].Some?
      ensures DescOn(t, t.fds[i].value) && t.fds[i].value.offset <= t.files[t.fds[i].value.file].size
    {
      assert DescOn(s, s.fds[i].value);
    }
  }

  lemma DropDetached(s: State, idx: nat, u: seq<Option<Desc>>, id: nat)
    requires Inv(s) && ValidIdx(s.fds, idx) && id == s.fds[idx].value.file && u == s.fds[idx := None]
    requires RefCount(u, id) == 0 && Occupied(u) < Occupied(s.fds)
    ensures Detached(s.(fds := u), id)
  {
    var t := s.(fds := u);
    forall k | k in t.files && k != id
      ensures FileValid(t, k)
    {
      UpdateCounts(s.fds, idx, None, k);
      assert FileValid(s, k);
    }
    DescsKept(s, t);
  }

  lemma DropKeeps(s: State, idx: nat, u: seq<Option<Desc>>, id: nat)
    requires Inv(s) && ValidIdx(s.fds, idx) && id == s.fds[idx].value.file && u == s.fds[idx := None]
    requires RefCount(u, id) == s.files[id].refs - 1 && Occupied(u) < Occupied(s.fds)
    requires !(s.files[id].marked && s.files[id].refs == 1)
    ensures Inv(s.(fds := u, files := s.files[id := s.files[id].(refs := s.files[id].refs - 1)]))
  {
    var t := s.(fds := u, files := s.files[id := s.files[id].(refs := s.files[id].refs - 1)]);
    DropFilesOk(s, idx, t, id);
    DescsKept(s, t);
    ShapeKept(s, t);
  }

  lemma DropFilesOk(s: State, idx: nat, t: State, id: nat)
    requires FilesOk(s) && ValidIdx(s.fds, idx) && id == s.fds[idx].value.file && id in s.files && s.files[id].refs > 0
    requires t == s.(fds := s.fds[idx := None], files := s.files[id := s.files[id].(refs := s.files[id].refs - 1)])
    requires RefCount(t.fds, id) == s.files[id].refs - 1
    requires !(s.files[id].marked && s.files[id].refs == 1)
    ensures FilesOk(t)
  {
    forall k | k in t.files
      ensures FileValid(t, k)
    {
      UpdateCounts(s.fds, idx, None, k);
      assert FileValid(s, k);
    }
  }

  /** What ufs_write leaves once its checks pass: the file rewritten, the descriptor past the bytes. */
  ghost predicate Written(s: State, t: State, idx: nat, buf: seq<byte>) {
    ValidIdx(s.fds, idx) && s.fds[idx].value.file in s.files &&
    var d := s.fds[idx].value;
    var f := s.files[d.file];
    f.size <= |f.mem| && d.offset <= f.size && d.file in t.files &&
    Rewritten(f, t.files[d.file], Overwrite(Content(f), d.offset, buf)) &&
    t == s.(files := s.files[d.file := t.files[d.file]],
            fds := s.fds[idx := Some(d.(offset := d.offset + |buf|, curBlock := (d.offset + |buf|) / BlockSize))])
  }

  /**
   * ufs_write's copy, given the memory the block loop leaves: the state
   * it leaves is Written and keeps the invariant.
   */
  lemma WriteStep(s: State, idx: nat, buf: seq<byte>, mem: seq<byte>, offset: nat) returns (t: State)
    requires Inv(s) && ValidIdx(s.fds, idx)
    requires var d := s.fds[idx].value;
             d.file in s.files && d.offset <= s.files[d.file].size && offset == d.offset + |buf| && offset <= MaxFileSize &&
             var f := s.files[d.file];
             f.size <= |f.mem| &&
             |mem| == BlockSize * BlocksFor(Max(f.size, offset)) &&
             mem[..Max(f.size, offset)] == Overwrite(Content(f), d.offset, buf)
    ensures var d := s.fds[idx].value;
            t == s.(files := s.files[d.file := s.files[d.file].(mem := mem, size := Max(s.files[d.file].size, offset))],
                    fds := s.fds[idx := Some(d.(offset := offset, curBlock := offset / BlockSize))])
    ensures Inv(t) && Written(s, t, idx, buf)
  {
    var d := s.fds[idx].value;
    var f := s.files[d.file];
    var g := f.(mem := mem, size := Max(f.size, offset));
    assert FileValid(s, d.file);
    WrittenFile(f, d.offset, buf, g);
    var s1 := ReplaceFileInv(s, d.file, g);
    t := MoveDescInv(s1, idx, d.(offset := offset, curBlock := offset / BlockSize));
  }

  /** The file record ufs_write leaves: well formed, holding the overwritten bytes. */
  lemma WrittenFile(f: FileRec, off: nat, buf: seq<byte>, g: FileRec)
    requires FileOk(f) && off <= f.size && off + |buf| <= MaxFileSize
    requires g == f.(mem := g.mem, size := Max(f.size, off + |buf|))
    requires |g.mem| == BlockSize * BlocksFor(g.size) && g.mem[..g.size] == Overwrite(Content(f), off, buf)
    ensures FileOk(g) && Rewritten(f, g, Overwrite(Content(f), off, buf))
  {
    OverwriteSpec(Content(f), off, buf);
  }

  /** A descriptor moved within its file, to the block of its new offset, keeps the invariant. */
  lemma MoveDescInv(s: State, idx: nat, d: Desc) returns (t: State)
    requires Inv(s) && ValidIdx(s.fds, idx)
    requires d.file == s.fds[idx].value.file && d.offset <= s.files[d.file].size && d.curBlock == d.offset / BlockSize
    ensures t == s.(fds := s.fds[idx := Some(d)])
    ensures Inv(t)
  {
    t := s.(fds := s.fds[idx := Some(d)]);
    assert SameFiles(s.fds, t.fds);
    forall k | k in s.files
      ensures RefCount(t.fds, k) == RefCount(s.fds, k)
    {
      SameFilesCounts(s.fds, t.fds, k);
    }
    SameFilesCounts(s.fds, t.fds, 0);
    assert FilesOk(t) by {
      forall k | k in t.files
        ensures FileValid(t, k)
      {
        assert FileValid(s, k);
      }
    }
  }

  /**
   * A file given new memory and size, its name, refs and mark as they
   * were: the state is Shrunk (descriptors may stand past the new end),
   * and keeps the invariant when the file did not get smaller.
   */
  lemma ReplaceFileInv(s: State, id: nat, g: FileRec) returns (t: State)
    requires Inv(s) && id in s.files && FileOk(g)
    requires g.name == s.files[id].name && g.refs == s.files[id].refs && g.marked == s.files[id].marked
    ensures t == s.(files := s.files[id := g])
    ensures Shrunk(t, id)
    ensures g.size >= s.files[id].size ==> Inv(t)
  {
    t := s.(files := s.files[id := g]);
    assert FilesOk(t) by {
      forall k | k in t.files
        ensures FileValid(t, k)
      {
        assert FileValid(s, k);
      }
    }
    assert DescsOkBeyond(t, id);
  }

  /** ufs_move_overflowing_fds after a file shrank: the invariant holds again. */
  lemma ClampInv(s: State, id: nat) returns (t: State)
    requires Shrunk(s, id)
    ensures t == s.(fds := Clamped(s.fds, id, s.files[id].size))
    ensures Inv(t)
  {
    t := s.(fds := Clamped(s.fds, id, s.files[id].size));
    forall k | k in s.files
      ensures RefCount(t.fds, k) == RefCount(s.fds, k)
    {
      SameFilesCounts(s.fds, t.fds, k);
    }
    SameFilesCounts(s.fds, t.fds, 0);
    assert FilesOk(t) by {
      forall k | k in t.files
        ensures FileValid(t, k)
      {
        assert FileValid(s, k);
      }
    }
    assert DescsOk(t);
  }

  /**
   * ufs_mark_file_for_delete on a file a name finds, with descriptors still
   * open: the invariant holds, and the name no longer finds the file.
   */
  lemma MarkInv(s: State, id: nat, name: string) returns (t: State)
    requires Inv(s) && id in s.files && FindIn(s.list, s.files, name) == Some(id) && s.files[id].refs > 0
    ensures t == s.(files := s.files[id := s.files[id].(marked := true)])
    ensures Inv(t) && FindIn(t.list, t.files, name).None?
  {
    t := s.(files := s.files[id := s.files[id].(marked := true)]);
    assert FilesOk(t) by {
      forall k | k in t.files
        ensures FileValid(t, k)
      {
        assert FileValid(s, k);
      }
    }
    FindInComplete(t.list, t.files, name);
  }

  /**
   * ufs_delete on a file without descriptors: once marked and freed, the
   * name finds nothing.
   */
  lemma DeleteUnusedFinds(s: State, id: nat, name: string)
    requires Inv(s) && FindIn(s.list, s.files, name) == Some(id)
    ensures var t := s.(files := s.files - {id}, list := Remove(s.list, id));
            forall k :: k in t.list ==> k in t.files
    ensures var t := s.(files := s.files - {id}, list := Remove(s.list, id));
            FindIn(t.list, t.files, name).None?
  {
    var t := s.(files := s.files - {id}, list := Remove(s.list, id));
    RemoveSpec(s.list, id);
    FindInComplete(t.list, t.files, name);
  }

  /** The names and marks of the listed files decide what a name finds; refs and contents do not. */
  lemma {:induction false} FindInSameNames(list: seq<nat>, files: map<nat, FileRec>, files': map<nat, FileRec>, name: string)
    requires forall k :: k in list ==> k in files && k in files'
    requires forall k :: k in list ==> files'[k].name == files[k].name && files'[k].marked == files[k].marked
    ensures FindIn(list, files', name) == FindIn(list, files, name)
    decreases |list|
  {
    if list != [] {
      FindInSameNames(list[1..], files, files', name);
    }
  }

  /** Opening a descriptor changes a file's refs only, so a name finds what it found before. */
  lemma FindInRefs(list: seq<nat>, files: map<nat, FileRec>, id: nat, refs: nat, name: string)
    requires forall k :: k in list ==> k in files
    requires id in files
    ensures FindIn(list, files[id := files[id].(refs := refs)], name) == FindIn(list, files, name)
  {
    FindInSameNames(list, files, files[id := files[id].(refs := refs)], name);
  }
}
