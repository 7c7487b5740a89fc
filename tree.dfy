/**
 * The generator's index construction (assetfs.go): `tree.walkFunc` is run
 * once per path that filepath.Walk visits, numbering files and
 * directories separately and linking each child into its parent's
 * `dirInfo`; `tree.writeMetadata` then shifts the directory numbers past
 * the files and produces the index.  `Build` is `writeSection` with the
 * walk given as a sequence of events.
 */
module IndexTree {
  import opened Wrappers
  import opened Index
  import opened Paths

  /** maxFileSize = 10 << 20 */
  const MaxFileSize: int := 10 * 1024 * 1024

  /** What os.FileInfo tells the generator about a visited path. */
  datatype FileInfo = FileInfo(name: string, size: int, mode: FileMode, modTime: int, isDir: bool)

  /** Build errors: an I/O error handed over by the walk or by ReadFile, or an oversized file. */
  datatype Error = IOError(msg: string) | SizeExceeded(path: string)

  /**
   * One call of the walk callback: the path, its FileInfo, filepath.Dir of
   * the path, the error filepath.Walk passes in, and what
   * ioutil.ReadFile(path) would return.
   */
  datatype WalkEvent = WalkEvent(
    path: string,
    info: FileInfo,
    parent: string,
    err: Option<Error>,
    contents: Result<Bytes, Error>
  )

  /** `dirInfo`: provisional indices of a directory's files and subdirectories. */
  datatype DirInfo = DirInfo(files: seq<int>, subdirs: seq<int>)

  /** The error the callback returns for an event; it depends on the event alone. */
  function EventError(ev: WalkEvent): Option<Error>
  {
    if ev.err.Some? then ev.err
    else if ev.info.isDir then None
    else if ev.info.size > MaxFileSize then Some(SizeExceeded(ev.path))
    else if ev.contents.Failure? then Some(ev.contents.error)
    else None
  }

  /** The error that stops a walk over `evs`: that of its first failing event. */
  function FirstError(evs: seq<WalkEvent>): Option<Error>
  {
    if evs == [] then None
    else
      var before := FirstError(evs[..|evs| - 1]);
      if before.Some? then before else EventError(evs[|evs| - 1])
  }

  function FileItem(fi: FileInfo): ItemMetadata
  {
    ItemMetadata(fi.name, fi.size, fi.mode, fi.modTime, false, [])
  }

  /** A directory is emitted without a size, so its size reads as 0. */
  function DirItem(fi: FileInfo, children: seq<int>): ItemMetadata
  {
    ItemMetadata(fi.name, 0, fi.mode, fi.modTime, true, children)
  }

  function Shift(s: seq<int>, offset: int): (r: seq<int>)
    ensures |r| == |s| && forall k :: 0 <= k < |s| ==> r[k] == s[k] + offset
  {
    seq(|s|, k requires 0 <= k < |s| => s[k] + offset)
  }

  /** A directory's final child list: its files, then its subdirectories shifted past the files. */
  function Listing(d: DirInfo, shift: int): seq<int>
  {
    d.files + Shift(d.subdirs, shift)
  }

  /** Strictly increasing indices below `bound`. */
  ghost predicate Ascending(s: seq<int>, bound: int)
  {
    && (forall i, j :: 0 <= i < j < |s| ==> s[i] < s[j])
    && (forall i :: 0 <= i < |s| ==> 0 <= s[i] < bound)
  }

  function LinkFile(dd: map<string, DirInfo>, parent: string, idx: int): map<string, DirInfo>
  {
    if parent in dd then dd[parent := dd[parent].(files := dd[parent].files + [idx])] else dd
  }

  function LinkSubdir(dd: map<string, DirInfo>, parent: string, idx: int): map<string, DirInfo>
  {
    if parent in dd then dd[parent := dd[parent].(subdirs := dd[parent].subdirs + [idx])] else dd
  }

  lemma AscendingExtend(s: seq<int>, bound: int)
    requires 0 <= bound && Ascending(s, bound)
    ensures Ascending(s + [bound], bound + 1)
  {
  }

  /**
   * The fields of `tree` together with, for each provisional file and
   * directory index, the path and the parent path it was recorded under.
   */
  datatype Walked = Walked(
    filesMeta: seq<FileInfo>,
    dirMeta: seq<FileInfo>,
    names: map<string, int>,
    dirData: map<string, DirInfo>,
    data: seq<Bytes>,
    filePaths: seq<string>,
    fileParents: seq<string>,
    dirPaths: seq<string>,
    dirParents: seq<string>
  )

  const Empty := Walked([], [], map[], map[], [], [], [], [], [])

  /**
   * The invariant of the walk: files and directories are numbered 0, 1, 2, ...
   * separately, `names` maps each recorded path to its number, `dirData`
   * holds exactly the directories, and every listed child is a recorded
   * entry whose parent is the listing directory, listed in visit order.
   */
  ghost predicate Inv(w: Walked)
  {
    InvShape(w) && InvNames(w) && InvLinks(w)
  }

  ghost predicate InvShape(w: Walked)
  {
    && |w.filePaths| == |w.fileParents| == |w.filesMeta|
    && |w.dirPaths| == |w.dirParents| == |w.dirMeta|
    && (forall i :: 0 <= i < |w.filesMeta| ==> !w.filesMeta[i].isDir && w.filesMeta[i].size <= MaxFileSize)
    && (forall j :: 0 <= j < |w.dirMeta| ==> w.dirMeta[j].isDir)
  }

  ghost predicate InvNames(w: Walked)
  {
    && (forall i :: 0 <= i < |w.filePaths| ==>
          w.filePaths[i] in w.names && w.names[w.filePaths[i]] == i && w.filePaths[i] !in w.dirData)
    && (forall j :: 0 <= j < |w.dirPaths| ==>
          w.dirPaths[j] in w.names && w.names[w.dirPaths[j]] == j && w.dirPaths[j] in w.dirData)
    && (forall p :: p in w.names ==> p in w.filePaths || p in w.dirPaths)
    && (forall p :: p in w.dirData ==> p in w.names)
    && |w.names| == |w.filePaths| + |w.dirPaths|
  }

  /** `s` lists, in increasing order, indices whose recorded parent is `p`. */
  ghost predicate ListsOf(s: seq<int>, parents: seq<string>, p: string)
  {
    Ascending(s, |parents|) && forall k :: 0 <= k < |s| ==> parents[s[k]] == p
  }

  ghost predicate InvLinks(w: Walked)
  {
    forall p :: p in w.dirData ==>
      ListsOf(w.dirData[p].files, w.fileParents, p) && ListsOf(w.dirData[p].subdirs, w.dirParents, p)
  }

  lemma ListsOfExtend(s: seq<int>, parents: seq<string>, p: string, q: string)
    requires ListsOf(s, parents, p)
    ensures ListsOf(s, parents + [q], p)
  {
  }

  lemma ListsOfAppend(s: seq<int>, parents: seq<string>, p: string)
    requires ListsOf(s, parents, p)
    ensures ListsOf(s + [|parents|], parents + [p], p)
  {
    AscendingExtend(s, |parents|);
  }

  /** The state after the walk callback has seen `ev` (walkFunc, on values). */
  function Walk(w: Walked, ev: WalkEvent): Walked
  {
    if ev.err.Some? then w
    else if ev.info.isDir then
      var idx := |w.dirMeta|;
      w.(dirMeta := w.dirMeta + [ev.info],
         names := w.names[ev.path := idx],
         dirData := LinkSubdir(w.dirData[ev.path := DirInfo([], [])], ev.parent, idx),
         dirPaths := w.dirPaths + [ev.path],
         dirParents := w.dirParents + [ev.parent])
    else if ev.info.size > MaxFileSize then w
    else
      var idx := |w.filesMeta|;
      w.(filesMeta := w.filesMeta + [ev.info],
         names := w.names[ev.path := idx],
         dirData := LinkFile(w.dirData, ev.parent, idx),
         data := if ev.contents.Success? then w.data + [ev.contents.value] else w.data,
         filePaths := w.filePaths + [ev.path],
         fileParents := w.fileParents + [ev.parent])
  }

  /**
   * The size ceiling: a file over 10 MiB is refused with an error naming
   * its path before anything is recorded; one of exactly 10 MiB is
   * recorded as the next file.
   */
  lemma SizeCeiling(w: Walked, ev: WalkEvent)
    requires ev.err.None? && !ev.info.isDir
    ensures ev.info.size > MaxFileSize ==> EventError(ev) == Some(SizeExceeded(ev.path)) && Walk(w, ev) == w
    ensures ev.info.size <= MaxFileSize ==>
              && Walk(w, ev).filesMeta == w.filesMeta + [ev.info]
              && Walk(w, ev).names == w.names[ev.path := |w.filesMeta|]
  {
  }

  lemma EmptyInv()
    ensures Inv(Empty)
  {
  }

  lemma WalkDirKeepsNames(w: Walked, ev: WalkEvent)
    requires InvShape(w) && InvNames(w) && ev.path !in w.names
    requires ev.err.None? && ev.info.isDir
    ensures InvNames(Walk(w, ev))
  {
    var r := Walk(w, ev);
    assert ev.path !in w.dirData;
    assert |r.names| == |w.names| + 1;
  }

  lemma WalkDirKeepsLinks(w: Walked, ev: WalkEvent)
    requires InvShape(w) && InvLinks(w)
    requires ev.err.None? && ev.info.isDir
    ensures InvLinks(Walk(w, ev))
  {
    var r := Walk(w, ev);
    var idx := |w.dirParents|;
    var dd := w.dirData[ev.path := DirInfo([], [])];
    forall p | p in r.dirData
      ensures ListsOf(r.dirData[p].files, r.fileParents, p) && ListsOf(r.dirData[p].subdirs, r.dirParents, p)
    {
      if p == ev.parent {
        ListsOfAppend(dd[p].subdirs, w.dirParents, p);
      } else if p != ev.path {
        ListsOfExtend(dd[p].subdirs, w.dirParents, p, ev.parent);
      }
    }
  }

  lemma WalkDirKeepsInv(w: Walked, ev: WalkEvent)
    requires Inv(w) && ev.path !in w.names
    requires ev.err.None? && ev.info.isDir
    ensures Inv(Walk(w, ev))
  {
    WalkDirKeepsNames(w, ev);
    WalkDirKeepsLinks(w, ev);
  }

  lemma WalkFileKeepsNames(w: Walked, ev: WalkEvent)
    requires InvShape(w) && InvNames(w) && ev.path !in w.names
    requires ev.err.None? && !ev.info.isDir && ev.info.size <= MaxFileSize
    ensures InvNames(Walk(w, ev))
  {
    var r := Walk(w, ev);
    assert ev.path !in w.dirData;
    assert |r.names| == |w.names| + 1;
  }

  lemma WalkFileKeepsLinks(w: Walked, ev: WalkEvent)
    requires InvShape(w) && InvLinks(w)
    requires ev.err.None? && !ev.info.isDir && ev.info.size <= MaxFileSize
    ensures InvLinks(Walk(w, ev))
  {
    var r := Walk(w, ev);
    forall p | p in r.dirData
      ensures ListsOf(r.dirData[p].files, r.fileParents, p) && ListsOf(r.dirData[p].subdirs, r.dirParents, p)
    {
      if p == ev.parent {
        ListsOfAppend(w.dirData[p].files, w.fileParents, p);
      } else {
        ListsOfExtend(w.dirData[p].files, w.fileParents, p, ev.parent);
      }
    }
  }

  lemma WalkFileKeepsInv(w: Walked, ev: WalkEvent)
    requires Inv(w) && ev.path !in w.names
    requires ev.err.None? && !ev.info.isDir && ev.info.size <= MaxFileSize
    ensures Inv(Walk(w, ev))
  {
    WalkFileKeepsNames(w, ev);
    WalkFileKeepsLinks(w, ev);
  }

  /** Recording a path not seen before keeps the invariant. */
  lemma WalkKeepsInv(w: Walked, ev: WalkEvent)
    requires Inv(w) && ev.path !in w.names
    ensures Inv(Walk(w, ev))
  {
    if ev.err.None? && ev.info.isDir {
      WalkDirKeepsInv(w, ev);
    } else if ev.err.None? && ev.info.size <= MaxFileSize {
      WalkFileKeepsInv(w, ev);
    }
  }

  /** The final index of a recorded path: directories move past the files. */
  function FinalIndex(w: Walked, p: string): int
    requires p in w.names
  {
    if p in w.dirData then w.names[p] + |w.filesMeta| else w.names[p]
  }

  /** The path recorded under final index `i`. */
  ghost function PathAt(w: Walked, i: int): string
    requires InvShape(w) && 0 <= i < |w.filesMeta| + |w.dirMeta|
  {
    if i < |w.filesMeta| then w.filePaths[i] else w.dirPaths[i - |w.filesMeta|]
  }

  /** The parent path recorded for final index `i`. */
  ghost function ParentAt(w: Walked, i: int): string
    requires InvShape(w) && 0 <= i < |w.filesMeta| + |w.dirMeta|
  {
    if i < |w.filesMeta| then w.fileParents[i] else w.dirParents[i - |w.filesMeta|]
  }

  /** FinalIndex and PathAt are inverse: the final numbering is a bijection. */
  lemma FinalIndexInverse(w: Walked, p: string)
    requires Inv(w) && p in w.names
    ensures 0 <= FinalIndex(w, p) < |w.filesMeta| + |w.dirMeta|
    ensures (p in w.dirData <==> |w.filesMeta| <= FinalIndex(w, p))
    ensures PathAt(w, FinalIndex(w, p)) == p
  {
    if p in w.filePaths {
      var i :| 0 <= i < |w.filePaths| && w.filePaths[i] == p;
    } else {
      var j :| 0 <= j < |w.dirPaths| && w.dirPaths[j] == p;
    }
  }

  lemma PathAtInverse(w: Walked, i: int)
    requires Inv(w) && 0 <= i < |w.filesMeta| + |w.dirMeta|
    ensures PathAt(w, i) in w.names && FinalIndex(w, PathAt(w, i)) == i
  {
  }

  /** The final numbering, both ways: PathAt and FinalIndex are inverse bijections. */
  ghost predicate Numbered(w: Walked)
  {
    && InvShape(w)
    && |w.names| == |w.filesMeta| + |w.dirMeta|
    && (forall i :: 0 <= i < |w.filesMeta| + |w.dirMeta| ==>
          PathAt(w, i) in w.names && FinalIndex(w, PathAt(w, i)) == i)
    && (forall p :: p in w.names ==>
          && 0 <= FinalIndex(w, p) < |w.filesMeta| + |w.dirMeta|
          && (p in w.dirData <==> |w.filesMeta| <= FinalIndex(w, p))
          && PathAt(w, FinalIndex(w, p)) == p)
  }

  lemma {:induction false} InvNumbered(w: Walked)
    requires Inv(w)
    ensures Numbered(w)
  {
    forall i | 0 <= i < |w.filesMeta| + |w.dirMeta|
      ensures PathAt(w, i) in w.names && FinalIndex(w, PathAt(w, i)) == i
    {
      PathAtInverse(w, i);
    }
    forall p | p in w.names
      ensures 0 <= FinalIndex(w, p) < |w.filesMeta| + |w.dirMeta|
      ensures (p in w.dirData <==> |w.filesMeta| <= FinalIndex(w, p))
      ensures PathAt(w, FinalIndex(w, p)) == p
    {
      FinalIndexInverse(w, p);
    }
  }

  ghost predicate KeysInjective(w: Walked, root: string)
  {
    forall p, q :: p in w.names && q in w.names && p != q ==> WalkKey(p, root) != WalkKey(q, root)
  }

  /** The directory key that the emitted names table gives index `i`, "" if none (Go's zero value). */
  function NameAt(idx2name: map<int, string>, i: int): string
  {
    if i in idx2name then idx2name[i] else ""
  }

  /** The children emitted for index `i`: those `subdir` holds under its name, none otherwise. */
  function ChildrenAt(idx2name: map<int, string>, subdir: map<string, seq<int>>, i: int): seq<int>
  {
    var key := NameAt(idx2name, i);
    if key in subdir then subdir[key] else []
  }

  /** The idx2name loop: invert a map; for each value, some key carrying it. */
  method Invert(m: map<string, int>) returns (inv: map<int, string>)
    ensures Inverts(inv, m)
  {
    inv := map[];
    var todo := m.Keys;
    while todo != {}
      invariant todo <= m.Keys
      invariant inv.Keys == set k | k in m.Keys - todo :: m[k]
      invariant forall v :: v in inv ==> inv[v] in m && m[inv[v]] == v
      decreases |todo|
    {
      var k :| k in todo;
      todo := todo - {k};
      inv := inv[m[k] := k];
    }
  }

  /** idx2name is defined and one-to-one on [0, n). */
  ghost predicate NumbersNamed(idx2name: map<int, string>, n: int)
  {
    && (forall i :: 0 <= i < n ==> i in idx2name)
    && (forall i, i' :: 0 <= i < n && 0 <= i' < n && i != i' ==> idx2name[i] != idx2name[i'])
  }

  /** `table` sends the name of each index below `n` back to that index, and holds nothing else. */
  ghost predicate Tabulates(table: map<string, int>, idx2name: map<int, string>, n: int)
  {
    && (forall i :: 0 <= i < n ==> i in idx2name)
    && table.Keys == (set i | 0 <= i < n :: idx2name[i])
    && forall i :: 0 <= i < n ==> table[idx2name[i]] == i
  }

  /** Each final index below F + D is named by the key of the path recorded under it. */
  ghost predicate NamedByKey(w: Walked, root: string, idx2name: map<int, string>)
    requires InvShape(w)
  {
    forall i :: 0 <= i < |w.filesMeta| + |w.dirMeta| ==>
      i in idx2name && idx2name[i] == WalkKey(PathAt(w, i), root)
  }

  /** The loop that emits the names table in index order. */
  method NamesTable(idx2name: map<int, string>, n: nat) returns (out: map<string, int>)
    requires NumbersNamed(idx2name, n)
    ensures Tabulates(out, idx2name, n)
  {
    out := map[];
    for i := 0 to n
      invariant out.Keys == set i' | 0 <= i' < i :: idx2name[i']
      invariant forall i' :: 0 <= i' < i ==> out[idx2name[i']] == i'
    {
      out := out[NameAt(idx2name, i) := i];
    }
  }

  /**
   * A directory's final child list holds, in increasing order, files then
   * shifted subdirectories, each in range and recorded with that directory
   * as its parent.
   */
  lemma {:induction false} ListingFacts(w: Walked, p: string)
    requires InvShape(w) && InvLinks(w) && p in w.dirData
    ensures var l := Listing(w.dirData[p], |w.filesMeta|);
      && Ascending(l, |w.filesMeta| + |w.dirMeta|)
      && forall k :: 0 <= k < |l| ==> ParentAt(w, l[k]) == p
  {
    var d := w.dirData[p];
    var F := |w.filesMeta|;
    assert ListsOf(d.files, w.fileParents, p) && ListsOf(d.subdirs, w.dirParents, p);
    var l := Listing(d, F);
    forall k | 0 <= k < |l|
      ensures 0 <= l[k] < F + |w.dirMeta| && ParentAt(w, l[k]) == p
    {
      if k >= |d.files| {
        assert l[k] == d.subdirs[k - |d.files|] + F;
      }
    }
  }

  /** idx2name names each final index by the key of the path recorded under it. */
  lemma {:induction false} IndexNames(w: Walked, root: string, indexes: map<string, int>, idx2name: map<int, string>)
    requires Numbered(w) && KeysInjective(w, root)
    requires IndexesOk(w, root, indexes) && Inverts(idx2name, indexes)
    ensures NamedByKey(w, root, idx2name)
    ensures NumbersNamed(idx2name, |w.names|)
  {
    forall i | 0 <= i < |w.filesMeta| + |w.dirMeta|
      ensures i in idx2name && idx2name[i] == WalkKey(PathAt(w, i), root)
    {
      var key := WalkKey(PathAt(w, i), root);
      assert indexes[key] == i;
      var other := idx2name[i];
      var q :| q in w.names && WalkKey(q, root) == other;
      assert indexes[other] == FinalIndex(w, q);
    }
    forall i, i' | 0 <= i < |w.filesMeta| + |w.dirMeta| && 0 <= i' < |w.filesMeta| + |w.dirMeta| && i != i'
      ensures idx2name[i] != idx2name[i']
    {
      assert FinalIndex(w, PathAt(w, i)) == i && FinalIndex(w, PathAt(w, i')) == i';
    }
  }

  /** Every recorded directory has its dirInfo. */
  ghost predicate DirsListed(w: Walked)
  {
    forall j :: 0 <= j < |w.dirPaths| ==> w.dirPaths[j] in w.dirData
  }

  /** Each emitted directory finds, under its own key, its final child list. */
  lemma {:induction false} DirChildren(w: Walked, root: string, meta: seq<ItemMetadata>, idx2name: map<int, string>, subdir: map<string, seq<int>>)
    requires InvShape(w) && DirsListed(w)
    requires NamedByKey(w, root, idx2name)
    requires SubdirsOk(w, root, subdir)
    requires MetaRows(w, meta, idx2name, subdir)
    ensures forall j :: 0 <= j < |w.dirMeta| ==>
      meta[|w.filesMeta| + j] == DirItem(w.dirMeta[j], Listing(w.dirData[w.dirPaths[j]], |w.filesMeta|))
  {
    forall j | 0 <= j < |w.dirMeta|
      ensures meta[|w.filesMeta| + j] == DirItem(w.dirMeta[j], Listing(w.dirData[w.dirPaths[j]], |w.filesMeta|))
    {
      var p, i := w.dirPaths[j], |w.filesMeta| + j;
      assert PathAt(w, i) == p && p in w.dirData;
      assert NameAt(idx2name, i) == WalkKey(p, root);
      assert subdir[WalkKey(p, root)] == Listing(w.dirData[p], |w.filesMeta|);
      assert meta[i] == DirItem(w.dirMeta[j], ChildrenAt(idx2name, subdir, i));
    }
  }

  /** The emitted metadata lists files first, and each directory's children are its own, in order. */
  lemma {:induction false} MetaShape(w: Walked, fs: AssetFS)
    requires InvShape(w) && InvLinks(w)
    requires fs.data == w.data && |w.data| == |w.filesMeta|
    requires RowsEmitted(w, fs)
    ensures MetaEmitted(w, fs)
  {
    forall i | 0 <= i < |fs.meta|
      ensures fs.meta[i].isDir <==> |w.filesMeta| <= i
      ensures Ascending(fs.meta[i].children, |fs.meta|)
      ensures forall k :: 0 <= k < |fs.meta[i].children| ==> ParentAt(w, fs.meta[i].children[k]) == PathAt(w, i)
    {
      if |w.filesMeta| <= i {
        var j := i - |w.filesMeta|;
        assert fs.meta[|w.filesMeta| + j] == DirItem(w.dirMeta[j], Listing(w.dirData[w.dirPaths[j]], |w.filesMeta|));
        ListingFacts(w, w.dirPaths[j]);
      }
    }
  }

  /** The emitted names table maps exactly the walked paths' keys, each to its final index. */
  lemma {:induction false} TableFacts(w: Walked, root: string, fs: AssetFS, idx2name: map<int, string>)
    requires Numbered(w)
    requires |fs.meta| == |w.filesMeta| + |w.dirMeta|
    requires NamedByKey(w, root, idx2name)
    requires Tabulates(fs.names, idx2name, |fs.meta|)
    ensures NamesEmitted(w, root, fs)
  {
    TableIndexes(w, root, fs, idx2name);
    TableKeys(w, root, fs, idx2name);
    TableNamesIndexes(fs, idx2name);
    TableBijective(fs, idx2name);
  }

  /** A table that sends each index's name back to it, and each key to an index it names, is one-to-one and onto. */
  lemma {:induction false} TableBijective(fs: AssetFS, idx2name: map<int, string>)
    requires Tabulates(fs.names, idx2name, |fs.meta|)
    requires forall k :: k in fs.names ==> 0 <= fs.names[k] < |fs.meta| && idx2name[fs.names[k]] == k
    ensures NamesBijective(fs)
  {
    forall k1, k2 | k1 in fs.names && k2 in fs.names && fs.names[k1] == fs.names[k2]
      ensures k1 == k2
    {
      assert idx2name[fs.names[k1]] == k1;
    }
    forall i | 0 <= i < |fs.meta|
      ensures i in fs.names.Values
    {
      assert fs.names[idx2name[i]] == i;
    }
  }

  /** Each walked path's key is in the table, with that path's final index. */
  lemma {:induction false} TableIndexes(w: Walked, root: string, fs: AssetFS, idx2name: map<int, string>)
    requires Numbered(w)
    requires |fs.meta| == |w.filesMeta| + |w.dirMeta|
    requires NamedByKey(w, root, idx2name)
    requires Tabulates(fs.names, idx2name, |fs.meta|)
    ensures KeysIndexed(w, root, fs.names)
  {
    forall p | p in w.names
      ensures WalkKey(p, root) in fs.names && fs.names[WalkKey(p, root)] == FinalIndex(w, p)
    {
    }
  }

  /** Each key of the table names the index it maps to. */
  lemma {:induction false} TableNamesIndexes(fs: AssetFS, idx2name: map<int, string>)
    requires Tabulates(fs.names, idx2name, |fs.meta|)
    ensures forall k :: k in fs.names ==> 0 <= fs.names[k] < |fs.meta| && idx2name[fs.names[k]] == k
  {
    forall k | k in fs.names
      ensures 0 <= fs.names[k] < |fs.meta| && idx2name[fs.names[k]] == k
    {
      var i :| 0 <= i < |fs.meta| && idx2name[i] == k;
      assert fs.names[k] == i;
    }
  }

  /** The table's keys are exactly the walked paths' keys. */
  lemma {:induction false} TableKeys(w: Walked, root: string, fs: AssetFS, idx2name: map<int, string>)
    requires Numbered(w)
    requires |fs.meta| == |w.filesMeta| + |w.dirMeta|
    requires NamedByKey(w, root, idx2name)
    requires Tabulates(fs.names, idx2name, |fs.meta|)
    requires forall p :: p in w.names ==> WalkKey(p, root) in fs.names
    ensures fs.names.Keys == set p | p in w.names :: WalkKey(p, root)
  {
    forall k | k in fs.names
      ensures k in set p | p in w.names :: WalkKey(p, root)
    {
      var i :| 0 <= i < |fs.meta| && idx2name[i] == k;
      assert PathAt(w, i) in w.names && WalkKey(PathAt(w, i), root) == k;
    }
  }

  /** The `indexes` map: each walked path's key carries that path's final index. */
  ghost predicate IndexesOk(w: Walked, root: string, indexes: map<string, int>)
  {
    && (forall p :: p in w.names ==>
          WalkKey(p, root) in indexes && indexes[WalkKey(p, root)] == FinalIndex(w, p))
    && (forall k :: k in indexes ==> exists p :: p in w.names && WalkKey(p, root) == k)
  }

  /** The `subdir` map: each directory's key carries its final child list. */
  ghost predicate SubdirsOk(w: Walked, root: string, subdir: map<string, seq<int>>)
  {
    forall p :: p in w.dirData ==>
      WalkKey(p, root) in subdir && subdir[WalkKey(p, root)] == Listing(w.dirData[p], |w.filesMeta|)
  }

  /** `inv` inverts `m`: its keys are the values of `m`, each mapped back to a key carrying it. */
  ghost predicate Inverts(inv: map<int, string>, m: map<string, int>)
  {
    && inv.Keys == m.Values
    && forall v :: v in inv ==> inv[v] in m && m[inv[v]] == v
  }

  /** The emitted `meta` rows: files as they are, directories with the children found under their key. */
  ghost predicate MetaRows(w: Walked, meta: seq<ItemMetadata>, idx2name: map<int, string>, subdir: map<string, seq<int>>)
  {
    && |meta| == |w.filesMeta| + |w.dirMeta|
    && (forall i :: 0 <= i < |w.filesMeta| ==> meta[i] == FileItem(w.filesMeta[i]))
    && (forall j :: 0 <= j < |w.dirMeta| ==>
          meta[|w.filesMeta| + j] == DirItem(w.dirMeta[j], ChildrenAt(idx2name, subdir, |w.filesMeta| + j)))
  }

  /** The emitted rows: the files' metadata, then each directory's with its final child list. */
  ghost predicate RowsEmitted(w: Walked, fs: AssetFS)
    requires InvShape(w)
  {
    && |fs.meta| == |w.filesMeta| + |w.dirMeta|
    && (forall i :: 0 <= i < |w.filesMeta| ==> fs.meta[i] == FileItem(w.filesMeta[i]))
    && (forall j :: 0 <= j < |w.dirMeta| ==>
          && w.dirPaths[j] in w.dirData
          && fs.meta[|w.filesMeta| + j] == DirItem(w.dirMeta[j], Listing(w.dirData[w.dirPaths[j]], |w.filesMeta|)))
  }

  /**
   * The emitted contents and rows: files first, child lists in range and
   * increasing, and every listed child recorded under the listing directory.
   */
  ghost predicate MetaEmitted(w: Walked, fs: AssetFS)
  {
    && InvShape(w)
    && fs.data == w.data
    && RowsEmitted(w, fs)
    && FilesFirst(fs)
    && ChildrenInRange(fs)
    && (forall i :: 0 <= i < |fs.meta| ==> Ascending(fs.meta[i].children, |fs.meta|))
    && (forall i, k :: 0 <= i < |fs.meta| && 0 <= k < |fs.meta[i].children| ==>
          ParentAt(w, fs.meta[i].children[k]) == PathAt(w, i))
  }

  /** Each walked path's key is in `names`, with that path's final index. */
  ghost predicate KeysIndexed(w: Walked, root: string, names: map<string, int>)
  {
    forall p :: p in w.names ==>
      WalkKey(p, root) in names && names[WalkKey(p, root)] == FinalIndex(w, p)
  }

  /** The emitted names table: exactly the walked paths' keys, each with its final index, one-to-one. */
  ghost predicate NamesEmitted(w: Walked, root: string, fs: AssetFS)
  {
    && Numbered(w)
    && |fs.meta| == |w.filesMeta| + |w.dirMeta|
    && KeysIndexed(w, root, fs.names)
    && fs.names.Keys == (set p | p in w.names :: WalkKey(p, root))
    && NamesBijective(fs)
  }

  /** What writeMetadata produces from a walk. */
  ghost predicate Emitted(w: Walked, root: string, fs: AssetFS)
  {
    Inv(w) && MetaEmitted(w, fs) && NamesEmitted(w, root, fs)
  }

  /** The steps of writeMetadata together produce the index `Emitted` describes. */
  lemma {:induction false} WriteMetadataSound(w: Walked, root: string, subdir: map<string, seq<int>>,
                                              idx2name: map<int, string>, meta: seq<ItemMetadata>,
                                              table: map<string, int>)
    requires InvShape(w) && InvLinks(w) && DirsListed(w) && Numbered(w) && |w.data| == |w.filesMeta|
    requires NamedByKey(w, root, idx2name)
    requires SubdirsOk(w, root, subdir)
    requires MetaRows(w, meta, idx2name, subdir)
    requires Tabulates(table, idx2name, |w.names|)
    ensures MetaEmitted(w, AssetFS(w.data, meta, table)) && NamesEmitted(w, root, AssetFS(w.data, meta, table))
  {
    DirChildren(w, root, meta, idx2name, subdir);
    var fs := AssetFS(w.data, meta, table);
    assert RowsEmitted(w, fs);
    MetaShape(w, fs);
    TableFacts(w, root, fs, idx2name);
  }

  /** One directory's child list: its files, then each subdirectory shifted by `dirIdxShift`. */
  method ChildList(d: DirInfo, dirIdxShift: int) returns (subIndexes: seq<int>)
    ensures subIndexes == Listing(d, dirIdxShift)
  {
    subIndexes := d.files;
    for m := 0 to |d.subdirs|
      invariant subIndexes == d.files + Shift(d.subdirs[..m], dirIdxShift)
    {
      subIndexes := subIndexes + [d.subdirs[m] + dirIdxShift];
      assert d.subdirs[..m + 1] == d.subdirs[..m] + [d.subdirs[m]];
    }
    assert d.subdirs[..|d.subdirs|] == d.subdirs;
  }

  /** `tree`: the state the walk callback accumulates. */
  class Tree {
    const root: string
    var filesMeta: seq<FileInfo>
    var dirMeta: seq<FileInfo>
    var names: map<string, int>
    var dirData: map<string, DirInfo>
    /** The `data` rows emitted so far, one per file read. */
    var data: seq<Bytes>
    ghost var filePaths: seq<string>
    ghost var fileParents: seq<string>
    ghost var dirPaths: seq<string>
    ghost var dirParents: seq<string>

    ghost function State(): Walked
      reads this
    {
      Walked(filesMeta, dirMeta, names, dirData, data, filePaths, fileParents, dirPaths, dirParents)
    }

    ghost predicate Valid()
      reads this
    {
      Inv(State())
    }

    constructor (root: string)
      ensures this.root == root && State() == Empty && Valid()
    {
      this.root := root;
      filesMeta, dirMeta, data := [], [], [];
      names, dirData := map[], map[];
      filePaths, fileParents, dirPaths, dirParents := [], [], [], [];
      EmptyInv();
    }

    /**
     * walkFunc: record one visited path.  The new state is `Walk` of the
     * old one; `WalkKeepsInv` shows that it keeps `Valid()` when the path
     * is new.
     */
    method WalkFunc(ev: WalkEvent) returns (err: Option<Error>)
      modifies this
      ensures err == EventError(ev)
      ensures State() == Walk(old(State()), ev)
    {
      if ev.err.Some? {
        return ev.err;
      }
      if ev.info.isDir {
        var idx := |dirMeta|;
        dirMeta := dirMeta + [ev.info];
        names := names[ev.path := idx];
        dirData := LinkSubdir(dirData[ev.path := DirInfo([], [])], ev.parent, idx);
        dirPaths, dirParents := dirPaths + [ev.path], dirParents + [ev.parent];
      } else {
        if ev.info.size > MaxFileSize {
          return Some(SizeExceeded(ev.path));
        }
        var idx := |filesMeta|;
        filesMeta := filesMeta + [ev.info];
        names := names[ev.path := idx];
        dirData := LinkFile(dirData, ev.parent, idx);
        filePaths, fileParents := filePaths + [ev.path], fileParents + [ev.parent];
        match ev.contents {
          case Failure(e) =>
            return Some(e);
          case Success(bytes) =>
            data := data + [bytes];
        }
      }
      return None;
    }

    /** The `indexes` loop: each walked path's key with its final index. */
    method Indexes() returns (indexes: map<string, int>)
      requires Valid() && KeysInjective(State(), root)
      ensures IndexesOk(State(), root, indexes) && |indexes| == |names|
    {
      var dirIdxShift := |filesMeta|;
      indexes := map[];
      var todo := names.Keys;
      while todo != {}
        invariant todo <= names.Keys
        invariant forall p :: p in names && p !in todo ==>
          WalkKey(p, root) in indexes && indexes[WalkKey(p, root)] == FinalIndex(State(), p)
        invariant forall k :: k in indexes ==> exists p :: p in names && p !in todo && WalkKey(p, root) == k
        invariant |indexes| + |todo| == |names|
        decreases |todo|
      {
        var name :| name in todo;
        todo := todo - {name};
        var normName := WalkKey(name, root);
        assert normName !in indexes;
        indexes := indexes[normName := names[name]];
        if name in dirData {
          indexes := indexes[normName := indexes[normName] + dirIdxShift];
        }
      }
    }

    /** The `subdir` loop: each directory's key with its final child list. */
    method Subdirs() returns (subdir: map<string, seq<int>>)
      requires forall p, q :: p in dirData && q in dirData && p != q ==> WalkKey(p, root) != WalkKey(q, root)
      ensures SubdirsOk(State(), root, subdir)
    {
      var dirIdxShift := |filesMeta|;
      subdir := map[];
      var todo := dirData.Keys;
      while todo != {}
        invariant todo <= dirData.Keys
        invariant forall p :: p in dirData && p !in todo ==>
          WalkKey(p, root) in subdir && subdir[WalkKey(p, root)] == Listing(dirData[p], dirIdxShift)
        decreases |todo|
      {
        var name :| name in todo;
        todo := todo - {name};
        var subIndexes := ChildList(dirData[name], dirIdxShift);
        subdir := subdir[WalkKey(name, root) := subIndexes];
      }
    }

    /** The metadata loop: files as emitted, directories with the children found under their key. */
    method EmitMeta(idx2name: map<int, string>, subdir: map<string, seq<int>>) returns (meta: seq<ItemMetadata>)
      requires Valid()
      ensures MetaRows(State(), meta, idx2name, subdir)
    {
      var info := filesMeta + dirMeta;
      meta := [];
      for i := 0 to |info|
        invariant |meta| == i
        invariant forall i' :: 0 <= i' < i && i' < |filesMeta| ==> meta[i'] == FileItem(filesMeta[i'])
        invariant forall i' :: |filesMeta| <= i' < i ==>
          meta[i'] == DirItem(dirMeta[i' - |filesMeta|], ChildrenAt(idx2name, subdir, i'))
      {
        var fi := info[i];
        if !fi.isDir {
          meta := meta + [FileItem(fi)];
        } else {
          var children := ChildrenAt(idx2name, subdir, i);
          meta := meta + [DirItem(fi, children)];
        }
      }
    }

    /**
     * writeMetadata: the index as data.  Files keep their numbers,
     * directories move to [F, F + D), `names` maps each walked path's key
     * to its final number and each directory lists its children.
     */
    method WriteMetadata() returns (fs: AssetFS)
      requires Valid() && |data| == |filesMeta| && KeysInjective(State(), root)
      ensures Emitted(State(), root, fs)
    {
      ghost var w := State();
      var indexes := Indexes();
      var subdir := Subdirs();
      var idx2name := Invert(indexes);
      InvNumbered(w);
      assert DirsListed(w);
      IndexNames(w, root, indexes, idx2name);
      var meta := EmitMeta(idx2name, subdir);
      var table := NamesTable(idx2name, |indexes|);
      fs := AssetFS(data, meta, table);
      WriteMetadataSound(w, root, subdir, idx2name, meta, table);
    }
  }
}
