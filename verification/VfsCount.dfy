/** Counting references: the invariant of one descriptor table and of the pipe ends, and how each update moves it. */
module VfsCount {
  import opened Common
  import opened Vfs

  lemma {:induction false} FreeSlotIs(used: seq<bool>, from: nat)
    requires from <= |used|
    ensures var r := FreeSlot(used, from);
            if r < 0 then forall k | from <= k < |used| :: used[k]
            else from <= r < |used| && !used[r] && forall k | from <= k < r :: used[k]
    decreases |used| - from
  {
    if from < |used| && used[from] {
      FreeSlotIs(used, from + 1);
    }
  }

  // ---------------------------------------------------------------- one table

  predicate FileOk(f: File) {
    if f.used then f.refs > 0 && ((f.pipe == -1 && f.end == NoEnd) || (0 <= f.pipe < PIPES && f.end != NoEnd))
    else f == FreeFile()
  }

  /** Descriptors in use name open files in use, and each open file's count is the number of descriptors naming it. */
  ghost predicate TableOk(t: Table) {
    && TableShaped(t)
    && (forall fd | 0 <= fd < FDS && t.used[fd] :: 0 <= t.file[fd] < FDS && t.files[t.file[fd]].used)
    && (forall i | 0 <= i < FDS :: FileOk(t.files[i]) && t.files[i].refs == Names(t, FDS, i))
  }

  lemma {:induction false} NamesUpdate(t: Table, t': Table, n: nat, fd: nat, i: int)
    requires TableShaped(t) && TableShaped(t') && n <= FDS && fd < FDS
    requires t'.used == t.used[fd := t'.used[fd]] && t'.file == t.file[fd := t'.file[fd]]
    ensures Names(t', n, i) == Names(t, n, i) + if fd >= n then 0 else
              (if t'.used[fd] && t'.file[fd] == i then 1 else 0) - (if t.used[fd] && t.file[fd] == i then 1 else 0)
    decreases n
  {
    if n > 0 {
      NamesUpdate(t, t', n - 1, fd, i);
    }
  }

  lemma {:induction false} NamesSome(t: Table, n: nat, fd: nat)
    requires TableShaped(t) && fd < n <= FDS && t.used[fd]
    ensures Names(t, n, t.file[fd]) >= 1
    decreases n
  {
    if fd < n - 1 {
      NamesSome(t, n - 1, fd);
    }
  }

  lemma {:induction false} NamesNone(t: Table, n: nat, i: int)
    requires TableShaped(t) && n <= FDS && forall fd | 0 <= fd < n :: !t.used[fd]
    ensures Names(t, n, i) == 0
    decreases n
  {
    if n > 0 {
      NamesNone(t, n - 1, i);
    }
  }

  lemma {:induction false} NamesTwo(t: Table, n: nat, a: nat, b: nat)
    requires TableShaped(t) && a < n <= FDS && b < n && a != b && t.used[a] && t.used[b] && t.file[a] == t.file[b]
    ensures Names(t, n, t.file[a]) >= 2
    decreases n
  {
    if a < n - 1 && b < n - 1 {
      NamesTwo(t, n - 1, a, b);
    } else if a < n - 1 {
      NamesSome(t, n - 1, a);
    } else {
      NamesSome(t, n - 1, b);
    }
  }

  lemma EmptyTableOk()
    ensures TableOk(EmptyTable())
  {
    forall i | 0 <= i < FDS ensures Names(EmptyTable(), FDS, i) == 0 {
      NamesNone(EmptyTable(), FDS, i);
    }
  }

  lemma CloseTableOk(t: Table, fd: nat)
    requires TableOk(t) && Live(t, fd)
    ensures TableOk(CloseTable(t, fd))
  {
    var t' := CloseTable(t, fd);
    forall i | 0 <= i < FDS
      ensures t'.files[i].refs == Names(t', FDS, i)
              && Names(t', FDS, i) == Names(t, FDS, i) - if i == t.file[fd] then 1 else 0
    {
      NamesUpdate(t, t', FDS, fd, i);
    }
    forall b | 0 <= b < FDS && t'.used[b]
      ensures t'.files[t'.file[b]].used
    {
      if t.file[b] == t.file[fd] {
        NamesTwo(t, FDS, b, fd);
      }
    }
  }

  /** Pointing a free descriptor at a free open file. */
  lemma InstallOk(t: Table, fd: nat, i: nat, f: File)
    requires TableOk(t) && fd < FDS && i < FDS && !t.used[fd] && !t.files[i].used
    requires f.used && f.refs == 1 && FileOk(f)
    ensures TableOk(Install(t, fd, i, f))
  {
    var t' := Install(t, fd, i, f);
    forall j | 0 <= j < FDS ensures Names(t', FDS, j) == Names(t, FDS, j) + if j == i then 1 else 0 {
      NamesUpdate(t, t', FDS, fd, j);
    }
  }

  /** Pointing a free descriptor at an open file that is in use already. */
  lemma ShareOk(t: Table, fd: nat, i: nat)
    requires TableOk(t) && fd < FDS && i < FDS && !t.used[fd] && t.files[i].used
    ensures TableOk(Share(t, fd, i))
  {
    var t' := Share(t, fd, i);
    forall j | 0 <= j < FDS ensures Names(t', FDS, j) == Names(t, FDS, j) + if j == i then 1 else 0 {
      NamesUpdate(t, t', FDS, fd, j);
    }
  }

  // ---------------------------------------------------------------- pigeonhole

  /** How many of the first n slots are in use. */
  function Busy(used: seq<bool>, n: nat): (b: nat)
    requires n <= |used|
    ensures b <= n
  {
    if n == 0 then 0 else Busy(used, n - 1) + (if used[n - 1] then 1 else 0)
  }

  lemma {:induction false} BusyAll(used: seq<bool>, n: nat)
    requires n <= |used| && forall k | 0 <= k < n :: used[k]
    ensures Busy(used, n) == n
  {
    if n > 0 {
      BusyAll(used, n - 1);
    }
  }

  lemma {:induction false} BusyNotAll(used: seq<bool>, n: nat, k: nat)
    requires k < n <= |used| && !used[k]
    ensures Busy(used, n) < n
    decreases n
  {
    if k < n - 1 {
      BusyNotAll(used, n - 1, k);
    }
  }

  lemma {:induction false} BusyUpdate(used: seq<bool>, n: nat, k: nat)
    requires k < n <= |used| && !used[k]
    ensures Busy(used[k := true], n) == Busy(used, n) + 1
    decreases n
  {
    if k < n - 1 {
      BusyUpdate(used, n - 1, k);
    } else {
      BusySame(used, used[k := true], n - 1);
    }
  }

  lemma {:induction false} BusySame(used: seq<bool>, used': seq<bool>, n: nat)
    requires n <= |used| && n <= |used'| && forall k | 0 <= k < n :: used'[k] == used[k]
    ensures Busy(used', n) == Busy(used, n)
    decreases n
  {
    if n > 0 {
      BusySame(used, used', n - 1);
    }
  }

  /** The first n descriptors, counted once for each of the first m open files they name. */
  function NamesSum(t: Table, n: nat, m: nat): nat
    requires TableShaped(t) && n <= FDS
  {
    if m == 0 then 0 else NamesSum(t, n, m - 1) + Names(t, n, m - 1)
  }

  lemma {:induction false} NamesSumStep(t: Table, n: nat, m: nat)
    requires TableShaped(t) && n < FDS
    ensures NamesSum(t, n + 1, m) <= NamesSum(t, n, m) + if t.used[n] && t.file[n] < m then 1 else 0
    decreases m
  {
    if m > 0 {
      NamesSumStep(t, n, m - 1);
    }
  }

  lemma {:induction false} NamesSumBound(t: Table, n: nat, m: nat)
    requires TableShaped(t) && n <= FDS
    ensures NamesSum(t, n, m) <= Busy(t.used, n)
    decreases n
  {
    if n == 0 {
      NamesSumZero(t, m);
    } else {
      NamesSumBound(t, n - 1, m);
      NamesSumStep(t, n - 1, m);
    }
  }

  lemma {:induction false} NamesSumZero(t: Table, m: nat)
    requires TableShaped(t)
    ensures NamesSum(t, 0, m) == 0
  {
    if m > 0 {
      NamesSumZero(t, m - 1);
    }
  }

  lemma {:induction false} BusyFiles(t: Table, m: nat)
    requires TableOk(t) && m <= FDS
    ensures Busy(FilesUsed(t.files), m) <= NamesSum(t, FDS, m)
    decreases m
  {
    if m > 0 {
      BusyFiles(t, m - 1);
      assert FileOk(t.files[m - 1]);
    }
  }

  /** There are never more open files in use than descriptors in use. */
  lemma FilesFit(t: Table)
    requires TableOk(t)
    ensures Busy(FilesUsed(t.files), FDS) <= Busy(t.used, FDS)
  {
    BusyFiles(t, FDS);
    NamesSumBound(t, FDS, FDS);
  }

  /** A slot search fails only when every slot is in use. */
  lemma FreeSlotFinds(used: seq<bool>)
    requires |used| == FDS
    ensures FreeSlot(used, 0) >= 0 <==> Busy(used, FDS) < FDS
  {
    FreeSlotIs(used, 0);
    if FreeSlot(used, 0) < 0 {
      BusyAll(used, FDS);
    } else {
      BusyNotAll(used, FDS, FreeSlot(used, 0));
    }
  }

  /** Whenever a descriptor is free, so is an open file: opening never runs out of the latter first. */
  lemma OpenFileAvailable(t: Table)
    requires TableOk(t) && FreeSlot(t.used, 0) >= 0
    ensures FreeSlot(FilesUsed(t.files), 0) >= 0
  {
    FilesFit(t);
    FreeSlotFinds(t.used);
    FreeSlotFinds(FilesUsed(t.files));
  }

  /** The same for the two descriptors and two open files of a new pipe. */
  lemma TwoOpenFilesAvailable(t: Table)
    requires TableOk(t) && FreeSlot(t.used, 0) >= 0 && FreeSlot(t.used[FreeSlot(t.used, 0) := true], 0) >= 0
    ensures FreeSlot(FilesUsed(t.files), 0) >= 0
    ensures FreeSlot(FilesUsed(t.files)[FreeSlot(FilesUsed(t.files), 0) := true], 0) >= 0
  {
    var rfd := FreeSlot(t.used, 0);
    FilesFit(t);
    OpenFileAvailable(t);
    FreeSlotIs(t.used, 0);
    BusyUpdate(t.used, FDS, rfd);
    FreeSlotFinds(t.used[rfd := true]);
    var files := FilesUsed(t.files);
    FreeSlotIs(files, 0);
    BusyUpdate(files, FDS, FreeSlot(files, 0));
    FreeSlotFinds(files[FreeSlot(files, 0) := true]);
  }

  // ---------------------------------------------------------------- pipe ends over all owners

  function Holds(f: File, k: int, end: End): nat {
    if f.used && f.pipe == k && f.end == end then 1 else 0
  }

  lemma {:induction false} EndsUpdate(files: seq<File>, n: nat, i: nat, f: File, k: int, end: End)
    requires n <= |files| && i < |files|
    ensures Ends(files[i := f], n, k, end) ==
            Ends(files, n, k, end) + if i >= n then 0 else Holds(f, k, end) - Holds(files[i], k, end)
    decreases n
  {
    if n > 0 {
      EndsUpdate(files, n - 1, i, f, k, end);
    }
  }

  lemma {:induction false} EndsNone(files: seq<File>, n: nat, k: int, end: End)
    requires n <= |files| && forall i | 0 <= i < n :: !files[i].used
    ensures Ends(files, n, k, end) == 0
    decreases n
  {
    if n > 0 {
      EndsNone(files, n - 1, k, end);
    }
  }

  lemma {:induction false} EndsSome(files: seq<File>, n: nat, i: nat)
    requires i < n <= |files| && files[i].used
    ensures Ends(files, n, files[i].pipe, files[i].end) >= 1
    decreases n
  {
    if i < n - 1 {
      EndsSome(files, n - 1, i);
    }
  }

  lemma {:induction false} EndsFewer(files: seq<File>, files': seq<File>, n: nat, k: int, end: End)
    requires n <= |files| && n <= |files'|
    requires forall i | 0 <= i < n && files'[i].used ::
             files[i].used && files[i].pipe == files'[i].pipe && files[i].end == files'[i].end
    ensures Ends(files', n, k, end) <= Ends(files, n, k, end)
    decreases n
  {
    if n > 0 {
      EndsFewer(files, files', n - 1, k, end);
    }
  }

  /** How many open files of the first n owners are the given end of pipe k. */
  ghost function TotalEnds(tables: seq<Table>, n: nat, k: int, end: End): nat
    requires n <= |tables|
  {
    if n == 0 then 0 else TotalEnds(tables, n - 1, k, end) + Ends(tables[n - 1].files, |tables[n - 1].files|, k, end)
  }

  lemma {:induction false} TotalEndsUpdate(tables: seq<Table>, n: nat, o: nat, t: Table, k: int, end: End)
    requires n <= |tables| && o < |tables|
    ensures TotalEnds(tables[o := t], n, k, end) == TotalEnds(tables, n, k, end) + if o >= n then 0 else
              Ends(t.files, |t.files|, k, end) - Ends(tables[o].files, |tables[o].files|, k, end)
    decreases n
  {
    if n > 0 {
      TotalEndsUpdate(tables, n - 1, o, t, k, end);
    }
  }

  lemma {:induction false} TotalEndsAtLeast(tables: seq<Table>, n: nat, o: nat, k: int, end: End)
    requires o < n <= |tables|
    ensures TotalEnds(tables, n, k, end) >= Ends(tables[o].files, |tables[o].files|, k, end)
    decreases n
  {
    if o < n - 1 {
      TotalEndsAtLeast(tables, n - 1, o, k, end);
    }
  }
}
