/** The handle table of the FUSE file system (`src/rom_filesystem.rs`): the
    root directory and the target ROMs of the ROM manager, opened under
    fresh handle numbers, with each file's patched bytes made on its first
    read and kept with its handle. Paths are given relative to the mount
    point, so the root is the empty path. */
module Fs {
  import opened Io
  import opened Patches
  import Roms

  /** `libc::ENOENT`. */
  const ENOENT: int := 2

  datatype Kind = Directory | RegularFile

  /** The parts of `FileAttr` that depend on the entry: its kind and size. */
  datatype Attr = Attr(kind: Kind, size: nat)

  /** `get_root_attr`. */
  const RootAttr: Attr := Attr(Directory, 0)

  /** `get_file_attr`: a regular file as large as the patched ROM. */
  function FileAttr(p: Patch): (a: Attr)
    ensures a.kind == RegularFile
    ensures forall crc :: Patched(p, crc).Ok? ==> a.size == |Patched(p, crc).value|
  {
    Attr(RegularFile, TargetSize(p))
  }

  datatype Handle =
    | DirHandle(attr: Attr)
    | FileHandle(attr: Attr, patch: Patch, data: Option<seq<byte>>)

  /** `fuse_mt::DirectoryEntry`. */
  datatype DirectoryEntry = DirectoryEntry(name: string, kind: Kind)

  /** What `read` passes to its callback, or `Panicked` when the unwrap of a
      failed patch application aborts the request. */
  datatype ReadReply = Data(bytes: seq<byte>) | ReadError(errno: int) | Panicked

  function Min(a: nat, b: nat): nat { if a < b then a else b }

  /** The bytes `read` returns from `data`: none when `offset` is past the
      end, otherwise up to `size` bytes from `offset`, cut at the end. */
  function Slice(data: seq<byte>, offset: nat, size: nat): (r: seq<byte>)
    ensures offset > |data| ==> r == []
    ensures offset <= |data| ==> |r| == Min(size, |data| - offset)
    ensures forall i :: 0 <= i < |r| ==> offset + i < |data| && r[i] == data[offset + i]
  {
    if offset > |data| then [] else data[offset..offset + Min(size, |data| - offset)]
  }

  /** Two reads that follow each other return what one read of both sizes
      returns, so reading a file in chunks yields its bytes in order. */
  lemma SliceConsecutive(data: seq<byte>, offset: nat, a: nat, b: nat)
    requires offset + a <= |data|
    ensures Slice(data, offset, a) + Slice(data, offset + a, b) == Slice(data, offset, a + b)
  {
    var whole := Slice(data, offset, a + b);
    var first, second := Slice(data, offset, a), Slice(data, offset + a, b);
    assert |first + second| == |whole|;
    forall i | 0 <= i < |whole|
      ensures (first + second)[i] == whole[i]
    {
      if i >= a {
        assert second[i - a] == data[offset + a + (i - a)];
      }
    }
  }

  /** Reading from offset 0 with a size at least the file's returns the file. */
  lemma SliceWhole(data: seq<byte>, size: nat)
    requires size >= |data|
    ensures Slice(data, 0, size) == data
  {
  }

  /** `RomFilesystem`: the ROM manager it serves, the open handles and the
      next handle number. Locking is left out: every operation runs alone. */
  class RomFilesystem {
    const manager: Roms.RomManager
    var handles: map<nat, Handle>
    var nextHandle: nat

    /** Handle numbers in use are below the counter, which starts at 1; a
        file handle carries its patch's attributes, and its cached bytes are
        the patched ROM. */
    ghost predicate Valid()
      reads this
    {
      && 1 <= nextHandle
      && (forall fh :: fh in handles ==> fh < nextHandle)
      && (forall fh :: fh in handles && handles[fh].FileHandle? ==>
            && handles[fh].attr == FileAttr(handles[fh].patch)
            && (handles[fh].data.Some? ==>
                  Patched(handles[fh].patch, manager.crc) == Ok(handles[fh].data.value)))
    }

    /** `RomFilesystem::new`. */
    constructor(manager: Roms.RomManager)
      ensures Valid() && this.manager == manager
      ensures handles == map[] && nextHandle == 1
    {
      this.manager := manager;
      handles := map[];
      nextHandle := 1;
    }

    /** `opendir`: the root gets a new directory handle; any other path is
        ENOENT and changes nothing. */
    method OpenDir(path: string) returns (r: Result<nat, int>)
      requires Valid()
      modifies this
      ensures Valid()
      ensures path == "" ==>
        && r == Ok(old(nextHandle))
        && old(nextHandle) !in old(handles)
        && handles == old(handles)[old(nextHandle) := DirHandle(RootAttr)]
        && nextHandle == old(nextHandle) + 1
      ensures path != "" ==> r == Err(ENOENT) && handles == old(handles) && nextHandle == old(nextHandle)
    {
      if path == "" {
        var handle := nextHandle;
        nextHandle := nextHandle + 1;
        handles := handles[handle := DirHandle(RootAttr)];
        return Ok(handle);
      }
      return Err(ENOENT);
    }

    /** `readdir`: on a directory handle, `.` and `..`, then each target ROM
        once, in the order of the table; anything else is ENOENT. */
    method ReadDir(fh: nat) returns (r: Result<seq<DirectoryEntry>, int>)
      ensures fh in handles && handles[fh].DirHandle? ==>
        && r.Ok?
        && |r.value| == 2 + |manager.targetRoms|
        && r.value[0] == DirectoryEntry(".", Directory)
        && r.value[1] == DirectoryEntry("..", Directory)
        && (forall i :: 2 <= i < |r.value| ==> r.value[i].kind == RegularFile && r.value[i].name in manager.targetRoms)
        && (forall name :: name in manager.targetRoms ==> exists i :: 2 <= i < |r.value| && r.value[i].name == name)
        && (forall i, j :: 2 <= i < j < |r.value| ==> r.value[i].name != r.value[j].name)
      ensures !(fh in handles && handles[fh].DirHandle?) ==> r == Err(ENOENT)
    {
      if !(fh in handles && handles[fh].DirHandle?) {
        return Err(ENOENT);
      }
      var files := [DirectoryEntry(".", Directory), DirectoryEntry("..", Directory)];
      var rest := manager.targetRoms.Keys;
      ghost var listed: seq<string> := [];
      while rest != {}
        invariant rest <= manager.targetRoms.Keys
        invariant |files| == 2 + |listed| && |listed| + |rest| == |manager.targetRoms|
        invariant files[0] == DirectoryEntry(".", Directory) && files[1] == DirectoryEntry("..", Directory)
        invariant forall i :: 0 <= i < |listed| ==> files[2 + i] == DirectoryEntry(listed[i], RegularFile)
        invariant forall i :: 0 <= i < |listed| ==> listed[i] in manager.targetRoms && listed[i] !in rest
        invariant forall name :: name in manager.targetRoms ==> name in rest || name in listed
        invariant forall i, j :: 0 <= i < j < |listed| ==> listed[i] != listed[j]
        decreases |rest|
      {
        var name :| name in rest;
        files := files + [DirectoryEntry(name, RegularFile)];
        listed := listed + [name];
        rest := rest - {name};
      }
      forall i | 2 <= i < |files|
        ensures files[i] == DirectoryEntry(listed[i - 2], RegularFile)
      {
      }
      forall name | name in manager.targetRoms
        ensures exists i :: 2 <= i < |files| && files[i].name == name
      {
        var k :| 0 <= k < |listed| && listed[k] == name;
        assert files[2 + k].name == name;
      }
      return Ok(files);
    }

    /** `releasedir`: only a directory handle is removed; a file handle or an
        unknown number is ENOENT and changes nothing. */
    method ReleaseDir(fh: nat) returns (r: Result<(), int>)
      requires Valid()
      modifies this
      ensures Valid() && nextHandle == old(nextHandle)
      ensures r.Ok? <==> fh in old(handles) && old(handles)[fh].DirHandle?
      ensures r.Ok? ==> handles == old(handles) - {fh}
      ensures r.Err? ==> r.error == ENOENT && handles == old(handles)
    {
      if fh in handles && handles[fh].DirHandle? {
        handles := handles - {fh};
        return Ok(());
      }
      return Err(ENOENT);
    }

    /** `release`: only a file handle is removed; a directory handle or an
        unknown number is ENOENT and changes nothing. */
    method Release(fh: nat) returns (r: Result<(), int>)
      requires Valid()
      modifies this
      ensures Valid() && nextHandle == old(nextHandle)
      ensures r.Ok? <==> fh in old(handles) && old(handles)[fh].FileHandle?
      ensures r.Ok? ==> handles == old(handles) - {fh}
      ensures r.Err? ==> r.error == ENOENT && handles == old(handles)
    {
      if fh in handles && handles[fh].FileHandle? {
        handles := handles - {fh};
        return Ok(());
      }
      return Err(ENOENT);
    }

    /** `getattr`: with a handle, that handle's attributes; without one, the
        root's, a target ROM's, or ENOENT. */
    function GetAttr(path: string, fh: Option<nat>): (r: Result<Attr, int>)
      reads this, manager
      ensures r.Err? ==> r.error == ENOENT
      ensures fh.Some? ==> (r.Ok? <==> fh.value in handles)
      ensures fh.None? ==> (r.Ok? <==> path == "" || path in manager.targetRoms)
      ensures fh.Some? && fh.value in handles ==> r == Ok(handles[fh.value].attr)
      ensures fh.None? && path == "" ==> r == Ok(RootAttr)
      ensures fh.None? && path != "" && path in manager.targetRoms ==> r == Ok(FileAttr(manager.targetRoms[path]))
    {
      match fh
      case Some(h) =>
        if h in handles then Ok(handles[h].attr) else Err(ENOENT)
      case None =>
        if path == "" then Ok(RootAttr)
        else if path in manager.targetRoms then Ok(FileAttr(manager.targetRoms[path]))
        else Err(ENOENT)
    }

    /** `open`: a target ROM gets a new file handle with no bytes yet; any
        other path is ENOENT and changes nothing. */
    method Open(path: string) returns (r: Result<nat, int>)
      requires Valid()
      modifies this
      ensures Valid()
      ensures path in manager.targetRoms ==>
        && r == Ok(old(nextHandle))
        && old(nextHandle) !in old(handles)
        && var p := manager.targetRoms[path];
        && handles == old(handles)[old(nextHandle) := FileHandle(FileAttr(p), p, None)]
        && nextHandle == old(nextHandle) + 1
      ensures path !in manager.targetRoms ==> r == Err(ENOENT) && handles == old(handles) && nextHandle == old(nextHandle)
    {
      if path in manager.targetRoms {
        var rom := manager.targetRoms[path];
        var handle := nextHandle;
        nextHandle := nextHandle + 1;
        handles := handles[handle := FileHandle(FileAttr(rom), rom, None)];
        return Ok(handle);
      }
      return Err(ENOENT);
    }

    /** `read`: on a file handle, the patched ROM is made on the first read
        and kept; the reply is the requested slice of it. A patch that fails
        aborts the request and leaves the handle as it was. Any other handle
        is ENOENT. */
    method Read(fh: nat, offset: nat, size: nat) returns (r: ReadReply)
      requires Valid()
      modifies this
      ensures Valid() && nextHandle == old(nextHandle)
      ensures !(fh in old(handles) && old(handles)[fh].FileHandle?) ==>
        r == ReadError(ENOENT) && handles == old(handles)
      ensures fh in old(handles) && old(handles)[fh].FileHandle? ==>
        var h := old(handles)[fh];
        match Patched(h.patch, manager.crc)
        case Err(_) => h.data.None? && r == Panicked && handles == old(handles)
        case Ok(rom) =>
          && r == Data(Slice(rom, offset, size))
          && handles == old(handles)[fh := h.(data := Some(rom))]
    {
      if !(fh in handles && handles[fh].FileHandle?) {
        return ReadError(ENOENT);
      }
      var h := handles[fh];
      var data: seq<byte>;
      if h.data.None? {
        var rom := PatchedRom(h.patch, manager.crc);
        if rom.Err? {
          return Panicked;
        }
        data := rom.value;
        handles := handles[fh := h.(data := Some(data))];
      } else {
        data := h.data.value;
        assert handles == handles[fh := h.(data := Some(data))];
      }
      if offset > |data| {
        return Data([]);
      }
      var n := Min(size, |data| - offset);
      return Data(data[offset..offset + n]);
    }
  }

  /** The size `getattr` reports for an open file is the length of the bytes
      `read` serves from it. */
  lemma CachedSizeMatches(fs: RomFilesystem, fh: nat)
    requires fs.Valid() && fh in fs.handles && fs.handles[fh].FileHandle? && fs.handles[fh].data.Some?
    ensures fs.GetAttr("", Some(fh)) == Ok(Attr(RegularFile, |fs.handles[fh].data.value|))
  {
  }
}
