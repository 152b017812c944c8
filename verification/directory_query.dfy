/** `sfs_getnextfilename` and `sfs_getfilesize`: reading the directory. */
module DirectoryQuery {
  import opened Layout
  import opened Records
  import opened State
  import opened Search

  /** The result of `sfs_getnextfilename`: the new state, the status and the
      name copied out (empty when nothing is copied). */
  datatype NameStep = NameStep(fs: FileSystem, status: int, name: string)

  /** Lines 516-532: yield the name in slot `nextName` and step past it; stop
      with -1 at the end of the table or at the first free slot. */
  function GetNextFileName(fs: FileSystem): (r: NameStep)
    requires Valid(fs)
    ensures Valid(r.fs)
    ensures r.status == -1 <==> fs.nextName >= TableLength || fs.directory[fs.nextName].inode == Unallocated
    ensures r.status == -1 ==> r == NameStep(fs, -1, "")
    ensures r.status != -1 ==>
      r == NameStep(fs.(nextName := fs.nextName + 1), 0, fs.directory[fs.nextName].name)
  {
    if fs.nextName >= TableLength then NameStep(fs, -1, "")
    else if fs.directory[fs.nextName].inode == Unallocated then NameStep(fs, -1, "")
    else NameStep(fs.(nextName := fs.nextName + 1), 0, fs.directory[fs.nextName].name)
  }

  /** `count` successive calls: the final state, the names yielded and the
      status of the last call (0 when `count` is 0). */
  function Enumerate(fs: FileSystem, count: nat): (r: NameStep)
    requires Valid(fs)
    decreases count
    ensures Valid(r.fs)
  {
    if count == 0 then NameStep(fs, 0, "")
    else
      var step := GetNextFileName(fs);
      if count == 1 then step else Enumerate(step.fs, count - 1)
  }

  /** The names yielded by `count` successive calls. */
  function NamesYielded(fs: FileSystem, count: nat): (names: seq<string>)
    requires Valid(fs)
    decreases count
  {
    if count == 0 then []
    else
      var step := GetNextFileName(fs);
      (if step.status == 0 then [step.name] else []) + NamesYielded(step.fs, count - 1)
  }

  /** The names of `entries`, in order. */
  function NamesOf(entries: seq<DirEntry>): (names: seq<string>)
    ensures |names| == |entries|
    ensures forall k | 0 <= k < |entries| :: names[k] == entries[k].name
  {
    if entries == [] then [] else [entries[0].name] + NamesOf(entries[1..])
  }

  /** The names of a non-empty slice are its first name followed by the
      names of the rest. */
  lemma NamesOfSlice(entries: seq<DirEntry>, a: int, b: int)
    requires 0 <= a < b <= |entries|
    ensures NamesOf(entries[a..b]) == [entries[a].name] + NamesOf(entries[a + 1..b])
  {
    assert entries[a..b][1..] == entries[a + 1..b];
  }

  /** When slots `c .. c + n - 1` are bound and slot `c + n` is free (or the
      table ends there), `n + 1` calls starting at cursor `c` yield exactly
      those `n` names in slot order. */
  lemma {:induction false} EnumerationYieldsBoundRun(fs: FileSystem, n: nat)
    requires Valid(fs)
    requires fs.nextName + n <= TableLength
    requires forall i | fs.nextName <= i < fs.nextName + n :: fs.directory[i].inode != Unallocated
    requires fs.nextName + n < TableLength ==> fs.directory[fs.nextName + n].inode == Unallocated
    decreases n
    ensures NamesYielded(fs, n + 1) == NamesOf(fs.directory[fs.nextName..fs.nextName + n])
  {
    var step := GetNextFileName(fs);
    if n == 0 {
      assert step.status == -1;
    } else {
      assert step.status == 0 && step.fs == fs.(nextName := fs.nextName + 1);
      EnumerationYieldsBoundRun(step.fs, n - 1);
      NamesOfSlice(fs.directory, fs.nextName, fs.nextName + n);
    }
  }

  /** Under the same conditions the last of the `n + 1` calls reports
      exhaustion, and the cursor has moved past the run. */
  lemma {:induction false} EnumerationStopsAfterRun(fs: FileSystem, n: nat)
    requires Valid(fs)
    requires fs.nextName + n <= TableLength
    requires forall i | fs.nextName <= i < fs.nextName + n :: fs.directory[i].inode != Unallocated
    requires fs.nextName + n < TableLength ==> fs.directory[fs.nextName + n].inode == Unallocated
    decreases n
    ensures Enumerate(fs, n + 1).status == -1
    ensures Enumerate(fs, n + 1).fs == fs.(nextName := fs.nextName + n)
  {
    var step := GetNextFileName(fs);
    if n > 0 {
      assert step.status == 0 && step.fs == fs.(nextName := fs.nextName + 1);
      EnumerationStopsAfterRun(step.fs, n - 1);
    }
  }

  function BoundNamed(name: string): DirEntry -> bool {
    (e: DirEntry) => e.inode != Unallocated && e.name == name
  }

  /** Lines 534-544: the size of the first bound entry carrying `name`, else -1. */
  function GetFileSize(fs: FileSystem, name: string): (r: int)
    requires Valid(fs)
    ensures (forall i | 0 <= i < TableLength :: fs.directory[i].inode == Unallocated || fs.directory[i].name != name)
      ==> r == -1
    ensures forall i | 0 <= i < TableLength && fs.directory[i].inode != Unallocated && fs.directory[i].name == name
      && (forall k | 0 <= k < i :: fs.directory[k].inode == Unallocated || fs.directory[k].name != name)
      :: r == fs.inodes[fs.directory[i].inode].size
  {
    var i := First(fs.directory, BoundNamed(name));
    if i == -1 then -1 else fs.inodes[fs.directory[i].inode].size
  }
}
