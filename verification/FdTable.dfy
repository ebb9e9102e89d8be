/** fs/file.c: a process's file descriptors, a bitmap of closed ones and tables that grow by 32. */
module FdTable {

  const MAX_OPEN_FDS := 1024
  const STEP := 32
  const FIRST_FD := 3

  class File {
    constructor () {}
  }

  class FilesStruct {
    var currFd: int
    var freeFd: nat              // descriptors below this one have been issued
    var fdSize: nat
    var fdMap: array<bool>       // a clear bit marks a closed descriptor
    var files: array<File?>
    ghost var lost: set<nat>     // descriptors issued without a file, for lack of memory

    /** The tables have the same size, a multiple of 32 with room for every issued descriptor. */
    ghost predicate Sized()
      reads this
    {
      && fdMap.Length == files.Length == fdSize <= MAX_OPEN_FDS && fdSize % STEP == 0
      && FIRST_FD <= freeFd <= fdSize && fdSize - STEP < freeFd
    }

    predicate Open(fd: nat)
      requires files.Length == fdSize
      reads this, files
    {
      fd < fdSize && files[fd] != null
    }

    /** Issued and since closed. */
    ghost predicate Closed(fd: nat)
      requires files.Length == fdSize
      reads this, files
    {
      FIRST_FD <= fd < freeFd && !Open(fd) && fd !in lost
    }

    ghost predicate Valid()
      reads this, fdMap, files
    {
      && Sized()
      && (forall fd :: 0 <= fd < fdSize ==> (!fdMap[fd] <==> Closed(fd)))
      && (forall fd :: 0 <= fd < fdSize && files[fd] != null ==> FIRST_FD <= fd < freeFd && fd !in lost)
      && (forall fd :: fd in lost ==> FIRST_FD <= fd < freeFd)
    }

    /** init_files_struct. */
    constructor ()
      ensures Valid() && freeFd == currFd == 3 && fdSize == 32 && lost == {} && fresh(fdMap) && fresh(files)
      ensures forall fd :: 0 <= fd < fdSize ==> !Open(fd)
    {
      freeFd, currFd, fdSize, lost := FIRST_FD, FIRST_FD, STEP, {};
      fdMap := new bool[STEP](_ => true);
      files := new File?[STEP](_ => null);
    }

    /** grow_file_map: room for 32 more bits, all set. */
    method GrowFileMap(memory: bool) returns (err: int, map_: array<bool>)
      requires Sized()
      ensures err == (if memory && fdSize + 32 <= 1024 then 0 else -1)
      ensures err == 0 ==> fresh(map_) && map_.Length == fdSize + 32 && map_[..fdSize] == fdMap[..]
      ensures err == 0 ==> forall k :: fdSize <= k < fdSize + 32 ==> map_[k]
    {
      if fdSize + STEP > MAX_OPEN_FDS || !memory {
        return -1, fdMap;
      }
      map_ := new bool[fdSize + STEP](_ => true);
      for i := 0 to fdSize
        invariant forall k :: 0 <= k < i ==> map_[k] == fdMap[k]
        invariant forall k :: i <= k < map_.Length ==> map_[k]
      {
        map_[i] := fdMap[i];
      }
      err := 0;
    }

    /** grow_fds: both tables grow, or nothing changes. */
    method GrowFds(fileMemory: bool, mapMemory: bool) returns (err: int)
      requires Valid() && freeFd == fdSize
      modifies this`fdSize, this`fdMap, this`files
      ensures err == (if fileMemory && mapMemory && old(fdSize) + 32 <= 1024 then 0 else -1)
      ensures err != 0 ==> Valid() && fdMap == old(fdMap) && files == old(files) && fdSize == old(fdSize)
      ensures err == 0 ==> Grown(old(fdSize), old(fdMap[..]), old(files[..])) && fresh(fdMap) && fresh(files)
    {
      var newSize := fdSize + STEP;
      if newSize > MAX_OPEN_FDS || !fileMemory {
        return -1;
      }
      var ptr := CopyTable(newSize);
      var map_;
      err, map_ := GrowFileMap(mapMemory);
      if err < 0 {
        return -1;
      }
      fdMap := map_;
      files := ptr;
      fdSize := newSize;
    }

    /** The new table: the old one and null pointers. */
    method CopyTable(newSize: nat) returns (ptr: array<File?>)
      requires Sized() && newSize >= fdSize
      ensures fresh(ptr) && ptr.Length == newSize && ptr[..fdSize] == files[..]
      ensures forall k :: fdSize <= k < newSize ==> ptr[k] == null
    {
      ptr := new File?[newSize](_ => null);
      for i := 0 to fdSize
        invariant forall k :: 0 <= k < i ==> ptr[k] == files[k]
        invariant forall k :: i <= k < newSize ==> ptr[k] == null
      {
        ptr[i] := files[i];
      }
    }

    /** The tables after growth: the old ones and 32 empty places. */
    ghost predicate Grown(size: nat, map_: seq<bool>, table: seq<File?>)
      reads this, fdMap, files
    {
      && |map_| == |table| == size && fdMap.Length == files.Length == fdSize == size + STEP <= MAX_OPEN_FDS
      && fdMap[..size] == map_ && files[..size] == table
      && forall k :: size <= k < fdSize ==> fdMap[k] && files[k] == null
    }

    /** find_first_zero_bit. */
    method FindFirstZeroBit() returns (fd: int)
      requires Sized()
      ensures fd == -1 ==> forall k :: 0 <= k < fdSize ==> fdMap[k]
      ensures fd != -1 ==> 0 <= fd < fdSize && !fdMap[fd] && forall k :: 0 <= k < fd ==> fdMap[k]
    {
      for i := 0 to fdSize
        invariant forall k :: 0 <= k < i ==> fdMap[k]
      {
        if !fdMap[i] {
          return i;
        }
      }
      fd := -1;
    }

    /** The tables between get_free_fd and the new file: `fd` is marked, and has no file yet. */
    ghost predicate Reserved(fd: nat)
      reads this, fdMap, files
    {
      && Sized() && FIRST_FD <= fd < freeFd && fdMap[fd] && files[fd] == null && fd !in lost
      && (forall k :: 0 <= k < fdSize && k != fd ==> (!fdMap[k] <==> Closed(k)))
      && (forall k :: 0 <= k < fdSize && files[k] != null ==> FIRST_FD <= k < freeFd && k !in lost)
      && (forall k :: k in lost ==> FIRST_FD <= k < freeFd)
    }

    /** get_free_fd: the lowest closed descriptor, or else a new one. */
    method GetFreeFd(fileMemory: bool, mapMemory: bool) returns (fd: int)
      requires Valid()
      modifies this`currFd, this`freeFd, this`fdSize, this`fdMap, this`files, fdMap
      ensures fd == -1 || (FIRST_FD <= fd && Reserved(fd) && currFd == fd)
      ensures fd == -1 ==>
        Valid() && freeFd == old(freeFd) && fdSize == old(fdSize) && fdMap == old(fdMap) && files == old(files)
      ensures fd == -1 ==> currFd == old(currFd)
      ensures fd == -1 <==> (forall k :: 0 <= k < old(fdSize) ==> !old(Closed(k))) && old(freeFd) == old(fdSize)
                            && !(fileMemory && mapMemory && old(fdSize) + 32 <= 1024)
      ensures fd != -1 ==>
        if exists k :: 0 <= k < old(fdSize) && old(Closed(k))
        then 0 <= fd < old(fdSize) && old(Closed(fd)) && forall k :: 0 <= k < fd ==> !old(Closed(k))
        else fd == old(freeFd)
      ensures freeFd == (if fd == old(freeFd) then old(freeFd) + 1 else old(freeFd))
      ensures old(fdSize) <= fdSize == files.Length && forall k :: 0 <= k < old(fdSize) ==> files[k] == old(files[k])
      ensures (files == old(files) || fresh(files)) && (fdMap == old(fdMap) || fresh(fdMap))
    {
      fd := FindFirstZeroBit();
      if fd < 0 {
        if freeFd >= MAX_OPEN_FDS {
          return -1;
        }
        if freeFd != 0 && freeFd % STEP == 0 {
          var err := GrowFds(fileMemory, mapMemory);
          if err < 0 {
            return -1;
          }
        }
        fd := freeFd;
        freeFd := freeFd + 1;
      } else {
        fdMap[fd] := true;
      }
      currFd := fd;
    }

    /** get_file. It fails only when the tables cannot grow; the descriptor it returns was not open.
        Without memory for the file it still returns the descriptor, which is then neither open nor
        closed. */
    method GetFile(fileMemory: bool, mapMemory: bool, memory: bool) returns (fd: int)
      requires Valid()
      modifies this, fdMap, files
      ensures Valid() && fd >= -1 && fd < fdSize && old(fdSize) <= fdSize
      ensures fd == -1 <==> (forall k :: 0 <= k < old(fdSize) ==> !old(Closed(k))) && old(freeFd) == old(fdSize)
                            && !(fileMemory && mapMemory && old(fdSize) + 32 <= 1024)
      ensures fd == -1 ==>
        freeFd == old(freeFd) && fdSize == old(fdSize) && lost == old(lost) && currFd == old(currFd)
      ensures fd != -1 ==>
        if exists k :: 0 <= k < old(fdSize) && old(Closed(k))
        then 0 <= fd < old(fdSize) && old(Closed(fd)) && forall k :: 0 <= k < fd ==> !old(Closed(k))
        else fd == old(freeFd)
      ensures fd != -1 ==> currFd == fd && (Open(fd) <==> memory)
      ensures fd != -1 ==> lost == if memory then old(lost) else old(lost) + {fd}
      ensures forall k :: 0 <= k < old(fdSize) && k != fd ==> files[k] == old(files[k])
      ensures forall k :: old(fdSize) <= k < fdSize && k != fd ==> files[k] == null
      ensures freeFd == (if fd == old(freeFd) then old(freeFd) + 1 else old(freeFd))
    {
      fd := GetFreeFd(fileMemory, mapMemory);
      if fd < 0 {
        return;
      }
      if !memory {
        lost := lost + {fd};
        return;
      }
      var fptr := new File();
      files[fd] := fptr;
    }

    /** release_file: only an open descriptor can be closed, and becomes the closed one it says. */
    method ReleaseFile(fd: int) returns (err: int)
      requires Valid()
      modifies fdMap, files
      ensures Valid() && err == if 0 <= fd < freeFd && old(Open(fd)) then 0 else -1
      ensures err == 0 ==> Closed(fd)
      ensures forall k :: 0 <= k < fdSize && (k != fd || err != 0) ==> files[k] == old(files[k])
    {
      if fd < 0 || fd >= freeFd {
        return -1;
      }
      if files[fd] == null {
        return -1;
      }
      fdMap[fd] := false;
      files[fd] := null;
      err := 0;
    }

    /** When no descriptor has been lost, the last failure means that all of them are open. */
    lemma AllOpen()
      requires Valid() && lost == {} && freeFd == MAX_OPEN_FDS && forall k :: 0 <= k < fdSize ==> !Closed(k)
      ensures forall fd :: 3 <= fd < 1024 ==> Open(fd)
    {
      forall fd | FIRST_FD <= fd < MAX_OPEN_FDS ensures Open(fd) { assert !Closed(fd); }
    }
  }
}
