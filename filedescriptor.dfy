/** src/userprog/filedescriptor.c: the process's list of open files. */
module FileDescriptor {
  import opened Options
  import opened FdList

  class FileDescriptorTable {
    /** The process's filelist, front to back. */
    var filelist: seq<FdEntry>

    ghost predicate Valid()
      reads this
    {
      Increasing(filelist)
    }

    constructor ()
      ensures Valid() && filelist == []
    {
      filelist := [];
    }

    /** fd_open: number the file 3 when the list is empty, else one past the
        descriptor at the back, and append it. */
    method Open(file: File) returns (fd: int)
      requires Valid()
      modifies this
      ensures Valid()
      ensures fd == NextFd(old(filelist)) && fd >= FIRST_FD
      ensures filelist == old(filelist) + [FdEntry(fd, file)]
    {
      fd := if filelist == [] then FIRST_FD else filelist[|filelist| - 1].fd + 1;
      AppendNextIncreasing(filelist, file);
      filelist := filelist + [FdEntry(fd, file)];
    }

    /** fd_close: unlink the entry for fd and return its file; NULL and no
        change when fd is not open. */
    method Close(fd: int) returns (r: Option<File>)
      requires Valid()
      modifies this
      ensures Valid()
      ensures r == None <==> forall k :: 0 <= k < |old(filelist)| ==> old(filelist)[k].fd != fd
      ensures r == None ==> filelist == old(filelist)
      ensures r != None ==> exists i :: 0 <= i < |old(filelist)| && old(filelist)[i] == FdEntry(fd, r.value)
                                       && filelist == RemoveAt(old(filelist), i)
    {
      var i := Find(filelist, fd);
      if i == -1 {
        return None;
      }
      r := Some(filelist[i].file);
      RemoveIncreasing(filelist, i);
      filelist := RemoveAt(filelist, i);
    }

    /** fd_convert: the file open under fd, or NULL; the list is only read. */
    method Convert(fd: int) returns (r: Option<File>)
      requires Valid()
      ensures r == None <==> forall k :: 0 <= k < |filelist| ==> filelist[k].fd != fd
      ensures r != None ==> FdEntry(fd, r.value) in filelist
    {
      r := FileOf(filelist, fd);
    }

    /** fd_collapse: pop every entry from the front and close its file, so
        each open file is closed once, in list order, and the list ends empty. */
    method Collapse() returns (closed: seq<File>)
      requires Valid()
      modifies this
      ensures Valid() && filelist == []
      ensures closed == Files(old(filelist))
    {
      closed := [];
      while filelist != []
        invariant Valid()
        invariant |closed| <= |old(filelist)| && filelist == old(filelist)[|closed|..]
        invariant closed == Files(old(filelist)[..|closed|])
        decreases |filelist|
      {
        var f := filelist[0];
        RemoveIncreasing(filelist, 0);
        filelist := filelist[1..];
        closed := closed + [f.file];
      }
      assert old(filelist)[..|closed|] == old(filelist);
    }
  }
}
