/** src/userprog/fd.c: the same per-process file list, with the operations
    named fd_allocate, fd_get_file, fd_pop and fd_collapse. (fd.h declares
    different signatures; the definitions in fd.c are modelled.) */
module Fd {
  import opened Options
  import opened FdList

  class FdTable {
    var filelist: seq<FdEntry>

    ghost predicate Valid()
      reads this
    {
      Increasing(filelist)
    }

    constructor ()
      ensures Valid() && filelist == []
    {
      filelist := [];
    }

    /** fd_allocate: 3 for an empty list, else the back's descriptor plus one;
        the entry is pushed at the back. */
    method Allocate(file: File) returns (fd: int)
      requires Valid()
      modifies this
      ensures Valid()
      ensures fd == NextFd(old(filelist)) && fd >= FIRST_FD
      ensures forall k :: 0 <= k < |old(filelist)| ==> old(filelist)[k].fd < fd
      ensures filelist == old(filelist) + [FdEntry(fd, file)]
    {
      fd := if filelist == [] then FIRST_FD else filelist[|filelist| - 1].fd + 1;
      AppendNextIncreasing(filelist, file);
      filelist := filelist + [FdEntry(fd, file)];
    }

    /** fd_get_file: the file of the first entry for fd, or NULL; read only. */
    method GetFile(fd: int) returns (r: Option<File>)
      requires Valid()
      ensures r == None <==> forall k :: 0 <= k < |filelist| ==> filelist[k].fd != fd
      ensures r != None ==> FdEntry(fd, r.value) in filelist
    {
      r := FileOf(filelist, fd);
    }

    /** fd_pop: remove the first entry for fd and return its file; NULL and
        no change when there is none. */
    method Pop(fd: int) returns (r: Option<File>)
      requires Valid()
      modifies this
      ensures Valid()
      ensures r == None <==> forall k :: 0 <= k < |old(filelist)| ==> old(filelist)[k].fd != fd
      ensures r == None ==> filelist == old(filelist)
      ensures r != None ==> exists i :: 0 <= i < |old(filelist)| && old(filelist)[i] == FdEntry(fd, r.value)
                                       && filelist == RemoveAt(old(filelist), i)
    {
      var i := Find(filelist, fd);
      if i == -1 {
        return None;
      }
      r := Some(filelist[i].file);
      RemoveIncreasing(filelist, i);
      filelist := RemoveAt(filelist, i);
    }

    /** fd_collapse: close every file once, front to back; the list ends empty. */
    method Collapse() returns (closed: seq<File>)
      requires Valid()
      modifies this
      ensures Valid() && filelist == []
      ensures closed == Files(old(filelist))
    {
      closed := [];
      while filelist != []
        invariant Valid()
        invariant |closed| <= |old(filelist)| && filelist == old(filelist)[|closed|..]
        invariant closed == Files(old(filelist)[..|closed|])
        decreases |filelist|
      {
        var f := filelist[0];
        RemoveIncreasing(filelist, 0);
        filelist := filelist[1..];
        closed := closed + [f.file];
      }
      assert old(filelist)[..|closed|] == old(filelist);
    }
  }
}
