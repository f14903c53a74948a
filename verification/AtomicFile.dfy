/**
 Replacing the key file: write a temporary file, flush it, rename it over the target.

 A crash keeps of an unflushed file anything at all, and of unflushed directory entries
 either the old or the new one. `Outcomes` is what a reader may then find.
 */
module AtomicFile {

  type Bytes = seq<int>
  type Inode = nat

  datatype File = File(data: Bytes, flushed: bool)

  /** `dir` is what programs see, `safeDir` what a flush of the directory made durable. */
  datatype Disk = Disk(files: map<Inode, File>, dir: map<string, Inode>, safeDir: map<string, Inode>)

  datatype Content = Absent | Present(data: Bytes)

  function Read(d: Disk, path: string): Content {
    if path in d.dir && d.dir[path] in d.files then Present(d.files[d.dir[path]].data) else Absent
  }

  /** What the inode behind a directory entry may hold after a crash. */
  ghost predicate Survives(d: Disk, dir: map<string, Inode>, path: string, c: Content) {
    if path in dir && dir[path] in d.files then
      c.Present? && (d.files[dir[path]].flushed ==> c.data == d.files[dir[path]].data)
    else c == Absent
  }

  /** What a reader may find at a path after a crash in this state. */
  ghost predicate Outcome(d: Disk, path: string, c: Content) {
    Survives(d, d.dir, path, c) || Survives(d, d.safeDir, path, c)
  }

  /** A file that no crash can change: flushed, with its entry flushed too. */
  ghost predicate Settled(d: Disk, path: string) {
    && (path in d.dir <==> path in d.safeDir)
    && (path in d.dir ==> d.dir[path] == d.safeDir[path] && d.dir[path] in d.files && d.files[d.dir[path]].flushed)
  }

  /** A crash here leaves the whole old content or the whole new one. */
  ghost predicate OldOrNew(d: Disk, path: string, was: Content, now: Bytes) {
    forall c | Outcome(d, path, c) :: c == was || c == Present(now)
  }

  /** A crash here leaves nothing that a crash could not have left before, except the whole new content. */
  ghost predicate AddsOnly(d: Disk, d': Disk, path: string, now: Bytes) {
    forall c | Outcome(d', path, c) :: Outcome(d, path, c) || c == Present(now)
  }

  ghost predicate AllAddOnly(d: Disk, points: seq<Disk>, path: string, now: Bytes) {
    forall i | 0 <= i < |points| :: AddsOnly(d, points[i], path, now)
  }

  ghost predicate AllOldOrNew(points: seq<Disk>, path: string, was: Content, now: Bytes) {
    forall i | 0 <= i < |points| :: OldOrNew(points[i], path, was, now)
  }

  /** If nothing is added and the first point takes nothing away, old-or-new holds along the way exactly where it held before. */
  lemma PointsAreExact(d: Disk, points: seq<Disk>, path: string, was: Content, now: Bytes)
    requires points != [] && AllAddOnly(d, points, path, now) && AddsOnly(points[0], d, path, now)
    ensures AllOldOrNew(points, path, was, now) <==> OldOrNew(d, path, was, now)
  {
    hide Outcome;
    if AllOldOrNew(points, path, was, now) {
      assert OldOrNew(points[0], path, was, now);
    }
  }

  /** The file is not under the inode that is about to be written. */
  predicate Apart(d: Disk, path: string, node: Inode) {
    (path in d.dir ==> d.dir[path] != node) && (path in d.safeDir ==> d.safeDir[path] != node)
  }

  predicate SameEntry(d: Disk, d': Disk, dir: map<string, Inode>, path: string) {
    path in dir ==>
      && (dir[path] in d.files <==> dir[path] in d'.files)
      && (dir[path] in d.files ==> d'.files[dir[path]] == d.files[dir[path]])
  }

  /** The entries at `path` and the files behind them are the same in both states. */
  predicate SameAt(d: Disk, d': Disk, path: string) {
    && d'.safeDir == d.safeDir && (path in d.dir <==> path in d'.dir) && (path in d.dir ==> d'.dir[path] == d.dir[path])
    && SameEntry(d, d', d.dir, path) && SameEntry(d, d', d.safeDir, path)
  }

  lemma SameIsSafe(d: Disk, d': Disk, path: string, now: Bytes)
    requires SameAt(d, d', path)
    ensures Read(d', path) == Read(d, path) && (Settled(d, path) ==> Settled(d', path))
    ensures AddsOnly(d, d', path, now) && AddsOnly(d', d, path, now)
    ensures forall c :: Outcome(d', path, c) <==> Outcome(d, path, c)
  {
  }

  /** After the rename a crash brings back what it could have brought back before, or leaves the flushed new file. */
  lemma RenamedIsSafe(d: Disk, d': Disk, path: string, node: Inode, now: Bytes)
    requires SameAt(d, d', path) && node in d'.files && d'.files[node] == File(now, true)
    ensures var r := d'.(dir := d'.dir[path := node]);
            Read(r, path) == Present(now) && AddsOnly(d, r, path, now)
    ensures var r := d'.(dir := d'.dir[path := node], safeDir := d'.dir[path := node]);
            Settled(r, path) && AddsOnly(d, r, path, now)
  {
  }

  /** What a crash can leave is what is there, exactly when file and entry are flushed, or the flushed entry leads to the same contents. */
  lemma CalmIsExact(d: Disk, path: string)
    ensures (forall c | Outcome(d, path, c) :: c == Read(d, path)) <==>
      && (path in d.dir && d.dir[path] in d.files ==> d.files[d.dir[path]].flushed)
      && (if path in d.safeDir && d.safeDir[path] in d.files then
            d.files[d.safeDir[path]].flushed && Read(d, path) == Present(d.files[d.safeDir[path]].data)
          else Read(d, path) == Absent)
  {
    var here, safe := path in d.dir && d.dir[path] in d.files, path in d.safeDir && d.safeDir[path] in d.files;
    if here && !d.files[d.dir[path]].flushed {
      assert Outcome(d, path, Present(d.files[d.dir[path]].data + [0]));
    }
    if safe {
      var f := d.files[d.safeDir[path]];
      assert Outcome(d, path, Present(f.data));
      assert !f.flushed ==> Outcome(d, path, Present(f.data + [0]));
    } else {
      assert Outcome(d, path, Absent);
    }
  }

  /** After a save whose directory flush failed, the next save can end in the contents from before both. */
  lemma SkippedFlushBringsBack(path: string, oldest: Bytes, previous: Bytes, now: Bytes)
    requires oldest != previous && oldest != now
    ensures var d := Disk(map[0 := File(oldest, true), 1 := File(previous, true), 2 := File(now, true)], map[path := 1], map[path := 0]);
            && Read(d, path) == Present(previous)
            && Outcome(d.(dir := map[path := 2]), path, Present(oldest))
            && !OldOrNew(d.(dir := map[path := 2]), path, Read(d, path), now)
  {
    var d := Disk(map[0 := File(oldest, true), 1 := File(previous, true), 2 := File(now, true)], map[path := 1], map[path := 0]);
    assert Outcome(d.(dir := map[path := 2]), path, Present(oldest));
  }

  /** The flush before the rename is what this rests on: without it a crash may leave anything. */
  lemma FlushIsNeeded(d: Disk, path: string, node: Inode, was: Content, now: Bytes)
    requires node in d.files && !d.files[node].flushed
    ensures !OldOrNew(d.(dir := d.dir[path := node]), path, was, now)
  {
    var r := d.(dir := d.dir[path := node]);
    var longer := now + [0] + if was.Present? then was.data else [];
    assert |longer| > |now| && (was.Present? ==> |longer| > |was.data|);
    assert Outcome(r, path, Present(longer));
  }

  class FileSystem {
    var disk: Disk
    /** The disk after each call that changed it: the places where a crash can strike. */
    ghost var history: seq<Disk>

    constructor (d: Disk)
      ensures disk == d && history == []
    {
      disk, history := d, [];
    }

    method Become(d: Disk)
      modifies this
      ensures disk == d && history == old(history) + [d]
    {
      disk := d;
      history := history + [d];
    }

    /** Opens and fills the temporary file; the target stays as it is. */
    method FillTemp(path: string, tmp: string, contents: Bytes, node: Inode, accepted: seq<nat>, flushOk: bool)
      returns (ok: bool)
      requires tmp != path && Apart(disk, path, node)
      modifies this
      ensures old(history) < history
      ensures forall i | |old(history)| <= i < |history| :: SameAt(old(disk), history[i], path)
      ensures SameAt(old(disk), disk, path)
      ensures disk.dir == old(disk).dir[tmp := node] && node in disk.files
      ensures forall n | n in old(disk).files && n != node :: n in disk.files && disk.files[n] == old(disk).files[n]
      ensures forall n | n in disk.files && n != node :: n in old(disk).files
      ensures ok ==> disk.files[node] == File(contents, true)
    {
      Become(disk.(files := disk.files[node := File([], false)], dir := disk.dir[tmp := node]));
      var offset, k := 0, 0;
      while offset < |contents|
        invariant 0 <= offset <= |contents| && k <= |accepted|
        invariant disk == old(disk).(files := old(disk).files[node := File(contents[..offset], false)],
                                     dir := old(disk).dir[tmp := node])
        invariant old(history) < history
        invariant forall i | |old(history)| <= i < |history| :: SameAt(old(disk), history[i], path)
      {
        if k == |accepted| || accepted[k] == 0 {
          return false;
        }
        var taken := if accepted[k] <= |contents| - offset then accepted[k] else |contents| - offset;
        offset, k := offset + taken, k + 1;
        Become(disk.(files := disk.files[node := File(contents[..offset], false)]));
      }
      if !flushOk {
        return false;
      }
      Become(disk.(files := disk.files[node := File(contents, true)]));
      return true;
    }

    /**
     Each system call succeeds or fails as told; `accepted` lists how many bytes each write
     takes, a missing or zero entry being a failed write. The directory may be in any state,
     also that of an earlier save whose directory flush failed.
     */
    method WriteFileAtomic(path: string, tmp: string, contents: Bytes, spare: Inode, openOk: bool,
                           accepted: seq<nat>, flushOk: bool, renameOk: bool, dirFlushOk: bool)
      returns (ok: bool)
      requires tmp != path && spare !in disk.files
      requires Apart(disk, path, if tmp in disk.dir then disk.dir[tmp] else spare)
      modifies this
      // a crash between any two calls
      ensures old(history) <= history
      ensures AllAddOnly(old(disk), history[|old(history)|..], path, contents)
      // so the old contents or the new, exactly where the disk was such before
      ensures openOk ==> (AllOldOrNew(history[|old(history)|..], path, old(Read(disk, path)), contents) <==>
                          OldOrNew(old(disk), path, old(Read(disk, path)), contents))
      // what the caller can rely on when it gets an answer
      ensures ok ==> Read(disk, path) == Present(contents) && AddsOnly(old(disk), disk, path, contents)
      ensures ok && dirFlushOk ==> Settled(disk, path)
      ensures !ok ==> Read(disk, path) == old(Read(disk, path))
      ensures !ok ==> forall c :: Outcome(disk, path, c) <==> Outcome(old(disk), path, c)
      ensures tmp !in disk.dir || (disk == old(disk) && !openOk)
    {
      if !openOk {
        return false;
      }
      ghost var before, from, was := disk, |history|, Read(disk, path);
      var node := if tmp in disk.dir then disk.dir[tmp] else spare;
      var filled := FillTemp(path, tmp, contents, node, accepted, flushOk);
      forall i | from <= i < |history| ensures AddsOnly(before, history[i], path, contents) {
        SameIsSafe(before, history[i], path, contents);
      }
      SameIsSafe(before, history[from], path, contents);
      ghost var d := disk.(dir := disk.dir - {tmp});
      SameIsSafe(before, d, path, contents);
      hide AddsOnly, OldOrNew, SameAt;
      if !filled || !renameOk {
        Become(disk.(dir := disk.dir - {tmp}));
        PointsAreExact(before, history[from..], path, was, contents);
        return false;
      }
      RenamedIsSafe(before, d, path, node, contents);
      Become(disk.(dir := (disk.dir - {tmp})[path := node]));
      if dirFlushOk {
        Become(disk.(safeDir := disk.dir));
      }
      PointsAreExact(before, history[from..], path, was, contents);
      return true;
    }
  }
}
