/**
 * writeSection (assetfs.go): walk one asset directory, stop at the first
 * error the walk callback returns, and otherwise emit the index of
 * everything walked.  The walk is given as the sequence of callback events
 * filepath.Walk would make.
 */
module Section {
  import opened Wrappers
  import opened Index
  import opened Paths
  import opened IndexTree

  /** The state after the walk callback has seen each of `evs` in turn. */
  ghost function WalkAll(evs: seq<WalkEvent>): Walked
  {
    if evs == [] then Empty else Walk(WalkAll(evs[..|evs| - 1]), evs[|evs| - 1])
  }

  /** The paths of the events in `evs`. */
  ghost function PathsOf(evs: seq<WalkEvent>): set<string>
  {
    set i | 0 <= i < |evs| :: evs[i].path
  }

  /** filepath.Walk visits each path once, and every path it reports lies under the root. */
  ghost predicate DistinctUnder(root: string, evs: seq<WalkEvent>)
  {
    && (forall i :: 0 <= i < |evs| ==> WalkPath(evs[i].path, root))
    && (forall i, j :: 0 <= i < j < |evs| ==> evs[i].path != evs[j].path)
  }

  /** No path is visited after a path it is the parent of: a directory comes before its contents. */
  ghost predicate ParentsFirst(evs: seq<WalkEvent>)
  {
    forall i, j :: 0 <= i < j < |evs| ==> evs[j].path != evs[i].parent
  }

  /** The `i`-th event's parent is a directory visited before it. */
  ghost predicate ParentBefore(evs: seq<WalkEvent>, i: int)
    requires 0 <= i < |evs|
  {
    exists j :: 0 <= j < i && evs[j].info.isDir && evs[j].path == evs[i].parent
  }

  /**
   * What filepath.Walk guarantees of its callback events: each path once,
   * under the root; the root first; and pre-order, so that every other
   * path comes after the directory it lies in.
   */
  ghost predicate WellWalked(root: string, evs: seq<WalkEvent>)
  {
    && DistinctUnder(root, evs)
    && (|evs| > 0 ==> evs[0].path == root)
    && ParentsFirst(evs)
    && (forall i :: 0 < i < |evs| ==> ParentBefore(evs, i))
  }

  /** The events of `evs` walked with parent `p`, directories or files as `dirs` says, in visit order. */
  function ChildEvents(evs: seq<WalkEvent>, p: string, dirs: bool): (r: seq<WalkEvent>)
    ensures forall e :: e in r <==> e in evs && e.parent == p && e.info.isDir == dirs
    ensures (forall i :: 0 <= i < |evs| ==> evs[i].parent != p) ==> r == []
  {
    if evs == [] then []
    else
      var ev := evs[|evs| - 1];
      assert evs == evs[..|evs| - 1] + [ev];
      ChildEvents(evs[..|evs| - 1], p, dirs) + (if ev.parent == p && ev.info.isDir == dirs then [ev] else [])
  }

  /** What a directory lists: its files, then its subdirectories, each in visit order. */
  function Children(evs: seq<WalkEvent>, p: string): seq<WalkEvent>
  {
    ChildEvents(evs, p, false) + ChildEvents(evs, p, true)
  }

  /**
   * What the walk state remembers of an accepted event: its path is named,
   * and a directory's FileInfo, or a file's FileInfo and contents, sit
   * under that path's number.
   */
  ghost predicate Recorded(w: Walked, ev: WalkEvent)
  {
    && ev.path in w.names
    && 0 <= w.names[ev.path]
    && if ev.info.isDir then
         && ev.path in w.dirData
         && w.names[ev.path] < |w.dirMeta|
         && w.dirMeta[w.names[ev.path]] == ev.info
       else
         && ev.path !in w.dirData
         && w.names[ev.path] < |w.filesMeta|
         && w.filesMeta[w.names[ev.path]] == ev.info
         && w.names[ev.path] < |w.data|
         && ev.contents.Success?
         && w.data[w.names[ev.path]] == ev.contents.value
  }

  /**
   * What the index serves for a walked path: under its key, an entry with
   * the same name, mode, modification time and kind; for a file, also the
   * same size and, at the same position in `data`, the contents read.
   */
  ghost predicate Serves(fs: AssetFS, root: string, ev: WalkEvent)
  {
    var k := WalkKey(ev.path, root);
    && k in fs.names
    && 0 <= fs.names[k] < |fs.meta|
    && fs.meta[fs.names[k]].name == ev.info.name
    && fs.meta[fs.names[k]].mode == ev.info.mode
    && fs.meta[fs.names[k]].mtime == ev.info.modTime
    && fs.meta[fs.names[k]].isDir == ev.info.isDir
    && (!ev.info.isDir ==>
          && fs.meta[fs.names[k]].size == ev.info.size
          && fs.names[k] < |fs.data|
          && ev.contents.Success?
          && fs.data[fs.names[k]] == ev.contents.value)
  }

  /** Once some prefix of the walk has failed, the whole walk fails with that error. */
  lemma {:induction false} FirstErrorSticks(evs: seq<WalkEvent>, k: int)
    requires 0 <= k <= |evs| && FirstError(evs[..k]).Some?
    ensures FirstError(evs) == FirstError(evs[..k])
    decreases |evs| - k
  {
    if k < |evs| {
      assert evs[..k + 1][..k] == evs[..k];
      FirstErrorSticks(evs, k + 1);
    } else {
      assert evs[..k] == evs;
    }
  }

  /** The walk callback of an event records nothing under any other path. */
  lemma {:induction false} WalkKeepsRecorded(w: Walked, ev: WalkEvent, other: WalkEvent)
    requires InvShape(w) && Recorded(w, other) && other.path != ev.path
    ensures Recorded(Walk(w, ev), other)
  {
    var r := Walk(w, ev);
    if ev.err.None? && ev.info.isDir {
      assert other.path in r.dirData <==> other.path in w.dirData;
    } else if ev.err.None? && ev.info.size <= MaxFileSize {
      assert other.path in r.dirData <==> other.path in w.dirData;
    }
  }

  /** An event the callback accepts is recorded. */
  lemma {:induction false} WalkRecords(w: Walked, ev: WalkEvent)
    requires Inv(w) && |w.data| == |w.filesMeta| && EventError(ev).None?
    requires ev.path !in w.names
    ensures Recorded(Walk(w, ev), ev)
    ensures |Walk(w, ev).data| == |Walk(w, ev).filesMeta|
  {
    if !ev.info.isDir {
      assert ev.path !in w.dirData;
      assert ev.path !in LinkFile(w.dirData, ev.parent, |w.filesMeta|);
    }
  }

  /** The walk names only the paths it was given. */
  lemma {:induction false} WalkAllPaths(evs: seq<WalkEvent>)
    ensures WalkAll(evs).names.Keys <= PathsOf(evs)
  {
    if evs != [] {
      var init := evs[..|evs| - 1];
      var ev := evs[|evs| - 1];
      WalkAllPaths(init);
      assert PathsOf(evs) == PathsOf(init) + {ev.path};
    }
  }

  /** A walk without errors reads every file it numbers. */
  lemma {:induction false} WalkAllReads(evs: seq<WalkEvent>)
    requires FirstError(evs).None?
    ensures |WalkAll(evs).data| == |WalkAll(evs).filesMeta|
  {
    if evs != [] {
      WalkAllReads(evs[..|evs| - 1]);
    }
  }

  /** A walk over distinct paths keeps the invariant. */
  lemma {:induction false} WalkAllInv(root: string, evs: seq<WalkEvent>)
    requires DistinctUnder(root, evs)
    ensures Inv(WalkAll(evs))
  {
    if evs != [] {
      var init := evs[..|evs| - 1];
      var ev := evs[|evs| - 1];
      assert DistinctUnder(root, init);
      WalkAllInv(root, init);
      WalkAllPaths(init);
      assert ev.path !in PathsOf(init);
      WalkKeepsInv(WalkAll(init), ev);
    } else {
      EmptyInv();
    }
  }

  /** A walk without errors over distinct paths records every event. */
  lemma {:induction false} WalkAllRecords(root: string, evs: seq<WalkEvent>)
    requires DistinctUnder(root, evs) && FirstError(evs).None?
    ensures forall i :: 0 <= i < |evs| ==> Recorded(WalkAll(evs), evs[i])
  {
    if evs != [] {
      var init := evs[..|evs| - 1];
      var ev := evs[|evs| - 1];
      assert DistinctUnder(root, init);
      WalkAllInv(root, init);
      WalkAllReads(init);
      WalkAllPaths(init);
      WalkAllRecords(root, init);
      assert ev.path !in PathsOf(init);
      WalkRecords(WalkAll(init), ev);
      forall i | 0 <= i < |evs| - 1
        ensures Recorded(WalkAll(evs), evs[i])
      {
        assert evs[i] == init[i];
        WalkKeepsRecorded(WalkAll(init), ev, evs[i]);
      }
    }
  }

  /** `idx` holds, in order, the number `names` gives the path of each of `kids`. */
  ghost predicate NumbersOf(idx: seq<int>, kids: seq<WalkEvent>, names: map<string, int>)
  {
    && |idx| == |kids|
    && forall k :: 0 <= k < |kids| ==> kids[k].path in names && idx[k] == names[kids[k].path]
  }

  /** Every recorded directory's dirInfo numbers exactly the events walked with it as parent. */
  ghost predicate ListsChildren(w: Walked, evs: seq<WalkEvent>)
  {
    forall p :: p in w.dirData ==>
      && NumbersOf(w.dirData[p].files, ChildEvents(evs, p, false), w.names)
      && NumbersOf(w.dirData[p].subdirs, ChildEvents(evs, p, true), w.names)
  }

  lemma ChildEventsAppend(evs: seq<WalkEvent>, ev: WalkEvent, p: string, dirs: bool)
    ensures ChildEvents(evs + [ev], p, dirs)
         == ChildEvents(evs, p, dirs) + (if ev.parent == p && ev.info.isDir == dirs then [ev] else [])
  {
    assert (evs + [ev])[..|evs|] == evs;
  }

  /** Numbering a new path leaves the numbers of the others alone. */
  lemma NumbersOfKeep(idx: seq<int>, kids: seq<WalkEvent>, names: map<string, int>, q: string, v: int)
    requires NumbersOf(idx, kids, names) && q !in names
    ensures NumbersOf(idx, kids, names[q := v])
  {
  }

  /** Numbering a new child and listing that number at the end keeps the list exact. */
  lemma NumbersOfAppend(idx: seq<int>, kids: seq<WalkEvent>, names: map<string, int>, e: WalkEvent, v: int)
    requires NumbersOf(idx, kids, names) && e.path !in names
    ensures NumbersOf(idx + [v], kids + [e], names[e.path := v])
  {
  }

  /** Linking a new file into its parent's dirInfo keeps every listing exact. */
  lemma {:induction false} LinkFileLists(dd: map<string, DirInfo>, names: map<string, int>, evs: seq<WalkEvent>,
                                         ev: WalkEvent, v: int, p: string)
    requires p in dd && !ev.info.isDir && ev.path !in names
    requires NumbersOf(dd[p].files, ChildEvents(evs, p, false), names)
    requires NumbersOf(dd[p].subdirs, ChildEvents(evs, p, true), names)
    ensures p in LinkFile(dd, ev.parent, v)
    ensures NumbersOf(LinkFile(dd, ev.parent, v)[p].files, ChildEvents(evs + [ev], p, false), names[ev.path := v])
    ensures NumbersOf(LinkFile(dd, ev.parent, v)[p].subdirs, ChildEvents(evs + [ev], p, true), names[ev.path := v])
  {
    ChildEventsAppend(evs, ev, p, false);
    ChildEventsAppend(evs, ev, p, true);
    NumbersOfKeep(dd[p].subdirs, ChildEvents(evs, p, true), names, ev.path, v);
    if p == ev.parent {
      NumbersOfAppend(dd[p].files, ChildEvents(evs, p, false), names, ev, v);
    } else {
      NumbersOfKeep(dd[p].files, ChildEvents(evs, p, false), names, ev.path, v);
    }
  }

  /** A file event on a new path is numbered at the end of its parent's files. */
  lemma {:induction false} WalkFileListsChildren(w: Walked, evs: seq<WalkEvent>, ev: WalkEvent)
    requires ListsChildren(w, evs)
    requires ev.err.None? && !ev.info.isDir && ev.info.size <= MaxFileSize && ev.path !in w.names
    ensures ListsChildren(Walk(w, ev), evs + [ev])
  {
    var v := |w.filesMeta|;
    assert Walk(w, ev).dirData == LinkFile(w.dirData, ev.parent, v);
    assert Walk(w, ev).names == w.names[ev.path := v];
    forall p | p in LinkFile(w.dirData, ev.parent, v)
      ensures NumbersOf(LinkFile(w.dirData, ev.parent, v)[p].files, ChildEvents(evs + [ev], p, false), w.names[ev.path := v])
      ensures NumbersOf(LinkFile(w.dirData, ev.parent, v)[p].subdirs, ChildEvents(evs + [ev], p, true), w.names[ev.path := v])
    {
      LinkFileLists(w.dirData, w.names, evs, ev, v, p);
    }
  }

  /** Linking a new subdirectory into its parent's dirInfo keeps every listing exact. */
  lemma {:induction false} LinkSubdirLists(dd: map<string, DirInfo>, names: map<string, int>, evs: seq<WalkEvent>,
                                           ev: WalkEvent, v: int, p: string)
    requires p in dd && ev.info.isDir && ev.path !in names
    requires NumbersOf(dd[p].files, ChildEvents(evs, p, false), names)
    requires NumbersOf(dd[p].subdirs, ChildEvents(evs, p, true), names)
    ensures p in LinkSubdir(dd, ev.parent, v)
    ensures NumbersOf(LinkSubdir(dd, ev.parent, v)[p].files, ChildEvents(evs + [ev], p, false), names[ev.path := v])
    ensures NumbersOf(LinkSubdir(dd, ev.parent, v)[p].subdirs, ChildEvents(evs + [ev], p, true), names[ev.path := v])
  {
    ChildEventsAppend(evs, ev, p, false);
    ChildEventsAppend(evs, ev, p, true);
    NumbersOfKeep(dd[p].files, ChildEvents(evs, p, false), names, ev.path, v);
    if p == ev.parent {
      NumbersOfAppend(dd[p].subdirs, ChildEvents(evs, p, true), names, ev, v);
    } else {
      NumbersOfKeep(dd[p].subdirs, ChildEvents(evs, p, true), names, ev.path, v);
    }
  }

  /**
   * A directory event on a new path that no earlier event lies in starts
   * an empty listing, and is numbered at the end of its parent's subdirs.
   */
  lemma {:induction false} WalkDirListsChildren(w: Walked, evs: seq<WalkEvent>, ev: WalkEvent)
    requires ListsChildren(w, evs)
    requires ev.err.None? && ev.info.isDir && ev.path !in w.names
    requires forall i :: 0 <= i < |evs| ==> evs[i].parent != ev.path
    ensures ListsChildren(Walk(w, ev), evs + [ev])
  {
    var v := |w.dirMeta|;
    var dd := w.dirData[ev.path := DirInfo([], [])];
    assert Walk(w, ev).dirData == LinkSubdir(dd, ev.parent, v);
    assert Walk(w, ev).names == w.names[ev.path := v];
    forall p | p in LinkSubdir(dd, ev.parent, v)
      ensures NumbersOf(LinkSubdir(dd, ev.parent, v)[p].files, ChildEvents(evs + [ev], p, false), w.names[ev.path := v])
      ensures NumbersOf(LinkSubdir(dd, ev.parent, v)[p].subdirs, ChildEvents(evs + [ev], p, true), w.names[ev.path := v])
    {
      if p == ev.path {
        assert ChildEvents(evs, p, false) == [] && ChildEvents(evs, p, true) == [];
      }
      LinkSubdirLists(dd, w.names, evs, ev, v, p);
    }
  }

  /** One more event of a pre-order walk without errors keeps every listing exact. */
  lemma WalkStepListsChildren(root: string, init: seq<WalkEvent>, ev: WalkEvent)
    requires DistinctUnder(root, init + [ev]) && ParentsFirst(init + [ev]) && FirstError(init + [ev]).None?
    requires ListsChildren(WalkAll(init), init)
    ensures ListsChildren(WalkAll(init + [ev]), init + [ev])
  {
    var evs := init + [ev];
    assert evs[..|evs| - 1] == init && evs[|evs| - 1] == ev;
    assert DistinctUnder(root, init);
    WalkAllInv(root, init);
    WalkAllPaths(init);
    assert ev.path !in PathsOf(init);
    if ev.info.isDir {
      assert forall i :: 0 <= i < |init| ==> init[i].parent != ev.path by {
        forall i | 0 <= i < |init| ensures init[i].parent != ev.path {
          assert evs[i] == init[i] && evs[|init|] == ev;
        }
      }
      WalkDirListsChildren(WalkAll(init), init, ev);
    } else {
      WalkFileListsChildren(WalkAll(init), init, ev);
    }
  }

  /** A walk without errors, in pre-order over distinct paths, lists each directory's children. */
  lemma {:induction false} WalkAllListsChildren(root: string, evs: seq<WalkEvent>)
    requires DistinctUnder(root, evs) && ParentsFirst(evs) && FirstError(evs).None?
    ensures ListsChildren(WalkAll(evs), evs)
  {
    if evs != [] {
      var init := evs[..|evs| - 1];
      assert init + [evs[|evs| - 1]] == evs;
      assert DistinctUnder(root, init) && ParentsFirst(init);
      WalkAllListsChildren(root, init);
      WalkStepListsChildren(root, init, evs[|evs| - 1]);
    }
  }

  /** Distinct walked paths have distinct keys. */
  lemma {:induction false} WalkAllKeysInjective(root: string, evs: seq<WalkEvent>)
    requires DistinctUnder(root, evs)
    ensures KeysInjective(WalkAll(evs), root)
  {
    WalkAllPaths(evs);
    var w := WalkAll(evs);
    forall p, q | p in w.names && q in w.names && p != q
      ensures WalkKey(p, root) != WalkKey(q, root)
    {
      assert p in PathsOf(evs) && q in PathsOf(evs);
      WalkKeyInjective(p, q, root);
    }
  }

  /** Every event recorded by the walk is served by the index writeMetadata emits. */
  lemma {:induction false} EmittedServes(w: Walked, root: string, fs: AssetFS, ev: WalkEvent)
    requires InvShape(w) && fs.data == w.data && RowsEmitted(w, fs) && KeysIndexed(w, root, fs.names)
    requires Recorded(w, ev)
    ensures Serves(fs, root, ev)
  {
    var p := ev.path;
    var i := FinalIndex(w, p);
    assert fs.names[WalkKey(p, root)] == i;
    if ev.info.isDir {
      var j := w.names[p];
      DirRow(w, fs, j);
    } else {
      assert fs.meta[i] == FileItem(w.filesMeta[i]);
    }
  }

  /** `children` lists, in order, the positions the index gives the keys of `kids`. */
  ghost predicate KeysListed(children: seq<int>, kids: seq<WalkEvent>, fs: AssetFS, root: string)
  {
    && |children| == |kids|
    && forall k :: 0 <= k < |kids| ==>
         WalkKey(kids[k].path, root) in fs.names && children[k] == fs.names[WalkKey(kids[k].path, root)]
  }

  lemma KeysListedConcat(a: seq<int>, ka: seq<WalkEvent>, b: seq<int>, kb: seq<WalkEvent>, fs: AssetFS, root: string)
    requires KeysListed(a, ka, fs, root) && KeysListed(b, kb, fs, root)
    ensures KeysListed(a + b, ka + kb, fs, root)
  {
    forall k | 0 <= k < |ka + kb|
      ensures WalkKey((ka + kb)[k].path, root) in fs.names && (a + b)[k] == fs.names[WalkKey((ka + kb)[k].path, root)]
    {
      if k >= |ka| {
        assert (ka + kb)[k] == kb[k - |ka|] && (a + b)[k] == b[k - |ka|];
      }
    }
  }

  /** A directory's `files` hold the final positions of its file children. */
  lemma {:induction false} ListedFiles(w: Walked, evs: seq<WalkEvent>, root: string, fs: AssetFS, p: string)
    requires InvShape(w) && KeysIndexed(w, root, fs.names) && ListsChildren(w, evs) && p in w.dirData
    requires forall e :: e in evs ==> Recorded(w, e)
    ensures KeysListed(w.dirData[p].files, ChildEvents(evs, p, false), fs, root)
  {
    var kids := ChildEvents(evs, p, false);
    assert NumbersOf(w.dirData[p].files, kids, w.names);
    forall k | 0 <= k < |kids|
      ensures WalkKey(kids[k].path, root) in fs.names && w.dirData[p].files[k] == fs.names[WalkKey(kids[k].path, root)]
    {
      assert kids[k] in evs;
      assert Recorded(w, kids[k]);
    }
  }

  /** A directory's `subdirs`, shifted past the files, hold the final positions of its subdirectory children. */
  lemma {:induction false} ListedSubdirs(w: Walked, evs: seq<WalkEvent>, root: string, fs: AssetFS, p: string)
    requires InvShape(w) && KeysIndexed(w, root, fs.names) && ListsChildren(w, evs) && p in w.dirData
    requires forall e :: e in evs ==> Recorded(w, e)
    ensures KeysListed(Shift(w.dirData[p].subdirs, |w.filesMeta|), ChildEvents(evs, p, true), fs, root)
  {
    var kids := ChildEvents(evs, p, true);
    assert NumbersOf(w.dirData[p].subdirs, kids, w.names);
    forall k | 0 <= k < |kids|
      ensures WalkKey(kids[k].path, root) in fs.names
      ensures Shift(w.dirData[p].subdirs, |w.filesMeta|)[k] == fs.names[WalkKey(kids[k].path, root)]
    {
      assert kids[k] in evs;
      assert Recorded(w, kids[k]);
    }
  }

  /** The emitted row of directory `j` carries its final child list. */
  lemma DirRow(w: Walked, fs: AssetFS, j: int)
    requires InvShape(w) && RowsEmitted(w, fs) && 0 <= j < |w.dirMeta|
    ensures w.dirPaths[j] in w.dirData
    ensures fs.meta[|w.filesMeta| + j].children == Listing(w.dirData[w.dirPaths[j]], |w.filesMeta|)
  {
  }

  /** Under a recorded directory's key, the index holds that directory's final child list. */
  lemma {:induction false} DirKeyRow(w: Walked, root: string, fs: AssetFS, p: string)
    requires Inv(w) && RowsEmitted(w, fs) && KeysIndexed(w, root, fs.names) && p in w.dirData
    ensures WalkKey(p, root) in fs.names && 0 <= fs.names[WalkKey(p, root)] < |fs.meta|
    ensures fs.meta[fs.names[WalkKey(p, root)]].children == Listing(w.dirData[p], |w.filesMeta|)
  {
    FinalIndexInverse(w, p);
    var j := w.names[p];
    assert 0 <= j < |w.dirMeta| && w.dirPaths[j] == p;
    DirRow(w, fs, j);
  }

  /** The emitted child list of a recorded directory lists the keys of exactly its children. */
  lemma {:induction false} EmittedLists(w: Walked, evs: seq<WalkEvent>, root: string, fs: AssetFS, p: string)
    requires Inv(w) && RowsEmitted(w, fs) && KeysIndexed(w, root, fs.names)
    requires ListsChildren(w, evs) && p in w.dirData
    requires forall e :: e in evs ==> Recorded(w, e)
    ensures WalkKey(p, root) in fs.names && 0 <= fs.names[WalkKey(p, root)] < |fs.meta|
    ensures KeysListed(fs.meta[fs.names[WalkKey(p, root)]].children, Children(evs, p), fs, root)
  {
    DirKeyRow(w, root, fs, p);
    ListedFiles(w, evs, root, fs, p);
    ListedSubdirs(w, evs, root, fs, p);
    KeysListedConcat(w.dirData[p].files, ChildEvents(evs, p, false),
                     Shift(w.dirData[p].subdirs, |w.filesMeta|), ChildEvents(evs, p, true), fs, root);
  }

  /**
   * In the index built from a walk, a walked directory lists exactly the
   * entries walked with it as parent: its files in visit order, then its
   * subdirectories in visit order.
   */
  lemma {:induction false} WalkedChildren(root: string, evs: seq<WalkEvent>, fs: AssetFS, i: int)
    requires WellWalked(root, evs) && FirstError(evs).None? && Emitted(WalkAll(evs), root, fs)
    requires 0 <= i < |evs| && evs[i].info.isDir
    ensures WalkKey(evs[i].path, root) in fs.names && 0 <= fs.names[WalkKey(evs[i].path, root)] < |fs.meta|
    ensures KeysListed(fs.meta[fs.names[WalkKey(evs[i].path, root)]].children, Children(evs, evs[i].path), fs, root)
  {
    var w := WalkAll(evs);
    WalkAllListsChildren(root, evs);
    WalkAllRecords(root, evs);
    assert Recorded(w, evs[i]);
    assert forall e :: e in evs ==> Recorded(w, e);
    assert Inv(w) && RowsEmitted(w, fs) && KeysIndexed(w, root, fs.names);
    EmittedLists(w, evs, root, fs, evs[i].path);
  }

  /** A walked entry other than the root is listed by the directory it was walked under. */
  lemma {:induction false} ListedUnderParent(root: string, evs: seq<WalkEvent>, fs: AssetFS, i: int)
    requires WellWalked(root, evs) && FirstError(evs).None? && Emitted(WalkAll(evs), root, fs)
    requires 0 < i < |evs|
    ensures exists j :: 0 <= j < i && evs[j].info.isDir && ListedBy(fs, root, evs[j].path, evs[i].path)
  {
    assert ParentBefore(evs, i);
    var j :| 0 <= j < i && evs[j].info.isDir && evs[j].path == evs[i].parent;
    WalkedChildren(root, evs, fs, j);
    assert evs[i] in ChildEvents(evs, evs[j].path, evs[i].info.isDir);
    KidListed(fs, root, evs[j].path, Children(evs, evs[j].path), evs[i]);
  }

  lemma KidListed(fs: AssetFS, root: string, dir: string, kids: seq<WalkEvent>, kid: WalkEvent)
    requires WalkKey(dir, root) in fs.names && 0 <= fs.names[WalkKey(dir, root)] < |fs.meta|
    requires KeysListed(fs.meta[fs.names[WalkKey(dir, root)]].children, kids, fs, root)
    requires kid in kids
    ensures ListedBy(fs, root, dir, kid.path)
  {
    var k :| 0 <= k < |kids| && kids[k] == kid;
    assert fs.meta[fs.names[WalkKey(dir, root)]].children[k] == fs.names[WalkKey(kid.path, root)];
  }

  /** The index built from a walk serves the root, the first event, under "/". */
  lemma {:induction false} RootServed(root: string, evs: seq<WalkEvent>, fs: AssetFS)
    requires WellWalked(root, evs) && FirstError(evs).None? && Emitted(WalkAll(evs), root, fs) && |evs| > 0
    ensures "/" in fs.names && Serves(fs, root, evs[0])
  {
    var w := WalkAll(evs);
    WalkAllRecords(root, evs);
    assert Recorded(w, evs[0]);
    EmittedServes(w, root, fs, evs[0]);
  }

  /**
   * The index built from a walk serves the root under "/", and lists every
   * other walked entry among the children of a directory walked before it.
   */
  lemma {:induction false} WalkedReachable(root: string, evs: seq<WalkEvent>, fs: AssetFS)
    requires WellWalked(root, evs) && FirstError(evs).None? && Emitted(WalkAll(evs), root, fs) && |evs| > 0
    ensures "/" in fs.names && Serves(fs, root, evs[0])
    ensures forall i :: 0 < i < |evs| ==>
      exists j :: 0 <= j < i && evs[j].info.isDir && ListedBy(fs, root, evs[j].path, evs[i].path)
  {
    RootServed(root, evs, fs);
    forall i | 0 < i < |evs|
      ensures exists j :: 0 <= j < i && evs[j].info.isDir && ListedBy(fs, root, evs[j].path, evs[i].path)
    {
      ListedUnderParent(root, evs, fs, i);
    }
  }

  /** The entry under the key of `child` is among the children of the entry under the key of `dir`. */
  ghost predicate ListedBy(fs: AssetFS, root: string, dir: string, child: string)
  {
    && WalkKey(dir, root) in fs.names
    && WalkKey(child, root) in fs.names
    && 0 <= fs.names[WalkKey(dir, root)] < |fs.meta|
    && fs.names[WalkKey(child, root)] in fs.meta[fs.names[WalkKey(dir, root)]].children
  }

  /**
   * writeSection: run the walk callback on each event in order, stop with
   * the first error, and otherwise emit the index.  On success the index
   * is well formed and serves every walked path.
   */
  method Build(root: string, events: seq<WalkEvent>) returns (r: Result<AssetFS, Error>)
    requires WellWalked(root, events)
    ensures r.Failure? <==> FirstError(events).Some?
    ensures r.Failure? ==> r.error == FirstError(events).value
    ensures r.Success? ==> Emitted(WalkAll(events), root, r.value)
    ensures r.Success? ==> WellFormed(r.value)
    ensures r.Success? ==> forall i :: 0 <= i < |events| ==> Serves(r.value, root, events[i])
  {
    var tr := new Tree(root);
    for k := 0 to |events|
      invariant tr.root == root
      invariant tr.State() == WalkAll(events[..k])
      invariant FirstError(events[..k]).None?
    {
      assert events[..k + 1][..k] == events[..k];
      var err := tr.WalkFunc(events[k]);
      if err.Some? {
        FirstErrorSticks(events, k + 1);
        return Failure(err.value);
      }
    }
    assert events[..|events|] == events;
    WalkAllInv(root, events);
    WalkAllReads(events);
    WalkAllRecords(root, events);
    WalkAllKeysInjective(root, events);
    var fs := tr.WriteMetadata();
    forall i | 0 <= i < |events|
      ensures Serves(fs, root, events[i])
    {
      EmittedServes(WalkAll(events), root, fs, events[i]);
    }
    return Success(fs);
  }
}
