/**
 * The generator and the runtime together: the index writeSection builds
 * from a walk is served by `_assetfs.Open` under the walked paths' keys.
 */
module Serving {
  import opened Wrappers
  import opened Index
  import opened Paths
  import opened IndexTree
  import opened Section
  import Runtime

  /**
   * A file the index serves opens under its key on an entry with the
   * walked name, size, mode and modification time, and reading it to the
   * end, with any non-empty buffer, yields the contents read at build time.
   */
  lemma WalkedFileReadsBack(fs: AssetFS, root: string, ev: WalkEvent, clean: string -> string, m: nat)
    requires WellFormed(fs) && Runtime.CleanKeeps(clean, fs.names)
    requires Serves(fs, root, ev) && !ev.info.isDir && 0 < m
    ensures Runtime.Servable(fs)
    ensures Runtime.Opened(Some(fs), WalkKey(ev.path, root), clean).Success?
    ensures var h := Runtime.Opened(Some(fs), WalkKey(ev.path, root), clean).value;
      && h.fi.name == ev.info.name && h.fi.size == ev.info.size
      && h.fi.mode == ev.info.mode && h.fi.mtime == ev.info.modTime && !h.fi.isDir
      && h.rd.Some? && Runtime.ReadToEnd(h.rd.value, m) == ev.contents.value
  {
    Runtime.WellFormedServable(fs);
    var k := WalkKey(ev.path, root);
    assert clean("/" + k) == k;
    var h := Runtime.Opened(Some(fs), k, clean).value;
    Runtime.ReadToEndIsRest(h.rd.value, m);
    assert ev.contents.value[0..] == ev.contents.value;
  }

  /** Every event of an error-free walk is served by the index built from it. */
  lemma {:induction false} EventsServed(root: string, evs: seq<WalkEvent>, fs: AssetFS)
    requires DistinctUnder(root, evs) && FirstError(evs).None? && Emitted(WalkAll(evs), root, fs)
    ensures forall e :: e in evs ==> Serves(fs, root, e)
  {
    var w := WalkAll(evs);
    WalkAllRecords(root, evs);
    forall e | e in evs
      ensures Serves(fs, root, e)
    {
      assert Recorded(w, e);
      EmittedServes(w, root, fs, e);
    }
  }

  /**
   * Opening `key` gives a directory handle, and one unbounded Readdir on
   * it returns the entries served under the keys of `kids`, in order.
   */
  ghost predicate ReaddirLists(fs: AssetFS, root: string, key: string, kids: seq<WalkEvent>, clean: string -> string)
  {
    && Runtime.Servable(fs)
    && Runtime.Opened(Some(fs), key, clean).Success?
    && var h := Runtime.Opened(Some(fs), key, clean).value;
       && h.fi.isDir && h.rd.None?
       && Runtime.ChildrenIn(fs, h.fi)
       && var out := Runtime.ReaddirSpec(fs, h.fi, 0, 0).out;
          && |out| == |kids|
          && forall k :: 0 <= k < |kids| ==>
               WalkKey(kids[k].path, root) in fs.names && out[k] == fs.meta[fs.names[WalkKey(kids[k].path, root)]]
  }

  /** A directory entry whose children are the positions of the keys of `kids` reads them back. */
  lemma {:induction false} KeysReadBack(fs: AssetFS, root: string, key: string, kids: seq<WalkEvent>, clean: string -> string)
    requires WellFormed(fs) && Runtime.CleanKeeps(clean, fs.names)
    requires key in fs.names && 0 <= fs.names[key] < |fs.meta| && fs.meta[fs.names[key]].isDir
    requires KeysListed(fs.meta[fs.names[key]].children, kids, fs, root)
    ensures ReaddirLists(fs, root, key, kids, clean)
  {
    Runtime.WellFormedServable(fs);
    assert clean("/" + key) == key;
    var h := Runtime.Opened(Some(fs), key, clean).value;
    assert h.fi.children[0..] == h.fi.children;
  }

  /**
   * A walked directory opens under its key, and one unbounded Readdir
   * returns exactly the entries of the paths walked in it: its files in
   * visit order, then its subdirectories in visit order.  The directory
   * and each of those entries carry their walked metadata.
   */
  lemma {:induction false} WalkedDirLists(root: string, evs: seq<WalkEvent>, fs: AssetFS, i: int, clean: string -> string)
    requires WellWalked(root, evs) && FirstError(evs).None? && Emitted(WalkAll(evs), root, fs)
    requires WellFormed(fs) && Runtime.CleanKeeps(clean, fs.names)
    requires 0 <= i < |evs| && evs[i].info.isDir
    ensures ReaddirLists(fs, root, WalkKey(evs[i].path, root), Children(evs, evs[i].path), clean)
    ensures Serves(fs, root, evs[i])
    ensures forall e :: e in Children(evs, evs[i].path) ==> Serves(fs, root, e)
  {
    EventsServed(root, evs, fs);
    WalkedChildren(root, evs, fs, i);
    assert Serves(fs, root, evs[i]);
    KeysReadBack(fs, root, WalkKey(evs[i].path, root), Children(evs, evs[i].path), clean);
    forall e | e in Children(evs, evs[i].path)
      ensures Serves(fs, root, e)
    {
      assert e in ChildEvents(evs, evs[i].path, e.info.isDir);
    }
  }
}
