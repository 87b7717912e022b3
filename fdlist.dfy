/** The per-process list of open files that src/userprog/filedescriptor.c and
    src/userprog/fd.c both keep: entries in list order, each a descriptor
    number and the file it names. */
module FdList {
  import opened Options

  /** An open file (struct file *), identified by its address. */
  type File = nat

  datatype FdEntry = FdEntry(fd: int, file: File)

  /** 0, 1 and 2 are the console; the first descriptor handed out is 3. */
  const FIRST_FD: int := 3

  /** The number the next open hands out: 3 for an empty list, else one more
      than the descriptor at the back of the list. */
  function NextFd(es: seq<FdEntry>): int
  {
    if es == [] then FIRST_FD else es[|es| - 1].fd + 1
  }

  /** Descriptors rise strictly along the list and start at 3. */
  ghost predicate Increasing(es: seq<FdEntry>)
  {
    (forall i :: 0 <= i < |es| ==> es[i].fd >= FIRST_FD)
    && (forall i, j :: 0 <= i < j < |es| ==> es[i].fd < es[j].fd)
  }

  /** The list without its i-th entry (list_remove). */
  function RemoveAt(es: seq<FdEntry>, i: nat): (r: seq<FdEntry>)
    requires i < |es|
    ensures |r| == |es| - 1
    ensures forall k :: 0 <= k < i ==> r[k] == es[k]
    ensures forall k :: i <= k < |r| ==> r[k] == es[k + 1]
  {
    es[..i] + es[i + 1..]
  }

  /** The files of the entries, in list order. */
  function Files(es: seq<FdEntry>): (fs: seq<File>)
  {
    seq(|es|, k requires 0 <= k < |es| => es[k].file)
  }

  /** The search loop shared by fd_close, fd_convert, fd_get_file and fd_pop:
      the position of the first entry for fd, or -1 when there is none. */
  method Find(es: seq<FdEntry>, fd: int) returns (i: int)
    ensures -1 <= i < |es|
    ensures i >= 0 ==> es[i].fd == fd && forall k :: 0 <= k < i ==> es[k].fd != fd
    ensures i == -1 <==> forall k :: 0 <= k < |es| ==> es[k].fd != fd
  {
    i := 0;
    while i < |es|
      invariant 0 <= i <= |es|
      invariant forall k :: 0 <= k < i ==> es[k].fd != fd
    {
      if es[i].fd == fd {
        return;
      }
      i := i + 1;
    }
    i := -1;
  }

  /** The lookup fd_convert and fd_get_file both do: the file of the first
      entry for fd, or None when fd is not open. */
  method FileOf(es: seq<FdEntry>, fd: int) returns (r: Option<File>)
    ensures r == None <==> forall k :: 0 <= k < |es| ==> es[k].fd != fd
    ensures r != None ==> exists i :: 0 <= i < |es| && es[i] == FdEntry(fd, r.value)
                                      && forall k :: 0 <= k < i ==> es[k].fd != fd
  {
    var i := Find(es, fd);
    r := if i == -1 then None else Some(es[i].file);
  }

  /** Appending under the next number keeps the list increasing. */
  lemma AppendNextIncreasing(es: seq<FdEntry>, f: File)
    requires Increasing(es)
    ensures Increasing(es + [FdEntry(NextFd(es), f)])
  {
    var r := es + [FdEntry(NextFd(es), f)];
    forall i, j | 0 <= i < j < |r| ensures r[i].fd < r[j].fd {
      if j == |es| && i < |es| - 1 {
        assert es[i].fd < es[|es| - 1].fd;
      }
    }
  }

  /** Removing any entry keeps the list increasing. */
  lemma RemoveIncreasing(es: seq<FdEntry>, i: nat)
    requires Increasing(es) && i < |es|
    ensures Increasing(RemoveAt(es, i))
  {
    var r := RemoveAt(es, i);
    forall a, b | 0 <= a < b < |r| ensures r[a].fd < r[b].fd {
      var a', b' := if a < i then a else a + 1, if b < i then b else b + 1;
      assert r[a] == es[a'] && r[b] == es[b'];
    }
  }

  /** Closing the highest descriptor lets the next open hand out a number no
      greater than it: the same number exactly when the descriptor below it
      was one less (or it was 3 and the only one). Numbers are reused. */
  lemma {:induction false} CloseLastReissues(es: seq<FdEntry>)
    requires Increasing(es) && es != []
    ensures NextFd(RemoveAt(es, |es| - 1)) <= es[|es| - 1].fd
    ensures NextFd(RemoveAt(es, |es| - 1)) == es[|es| - 1].fd <==>
              (if |es| == 1 then es[0].fd == FIRST_FD else es[|es| - 2].fd + 1 == es[|es| - 1].fd)
  {
    var r := RemoveAt(es, |es| - 1);
    if |es| > 1 {
      assert r[|r| - 1] == es[|es| - 2];
      assert es[|es| - 2].fd < es[|es| - 1].fd;
    } else {
      assert r == [];
    }
  }
}
