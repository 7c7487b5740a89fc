/**
 * The runtime file system of internal/template.go: `_assetfs.Open` looks a
 * path up in the index and hands out an `_assetFile`, whose Readdir walks
 * the entry's children with a cursor, and whose Read and Seek go to a
 * bytes.Reader over the file's data unless the entry is a directory.
 */
module Runtime {
  import opened Wrappers
  import opened Index

  /** The error values the runtime hands out. */
  datatype Error =
    | ErrNotExist                                   // os.ErrNotExist
    | ErrInvalid                                    // os.ErrInvalid
    | EOF                                           // io.EOF
    | ErrIsDirectory                                // _errIsDirectory
    | InvalidWhence                                 // bytes.Reader.Seek: invalid whence
    | NegativePosition                              // bytes.Reader.Seek: negative position
    | PathError(op: string, path: string, err: Error) // *os.PathError

  /** The `whence` values of io.Seeker. */
  const SeekStart := 0
  const SeekCurrent := 1
  const SeekEnd := 2

  /** bytes.Reader: the bytes it reads and its offset, which Seek never makes negative. */
  datatype Reader = Reader(s: Bytes, i: nat)

  /** What a Read leaves behind: the reader, the bytes copied out, and the error. */
  datatype ReadOut = ReadOut(rd: Reader, got: Bytes, err: Option<Error>)

  /** What a Seek leaves behind: the reader, the new offset returned, and the error. */
  datatype SeekOut = SeekOut(rd: Reader, pos: int, err: Option<Error>)

  /**
   * bytes.Reader.Read into a buffer of `m` bytes: EOF at or past the end,
   * otherwise the next bytes, as many as fit.
   */
  function ReaderRead(r: Reader, m: nat): (o: ReadOut)
    ensures o.rd.s == r.s && o.rd.i == r.i + |o.got| && |o.got| <= m
    ensures o.err.Some? <==> |r.s| <= r.i
    ensures o.err.Some? ==> o.err == Some(EOF) && o.got == []
    ensures o.err.None? ==> o.rd.i <= |r.s| && o.got == r.s[r.i..o.rd.i]
    ensures o.err.None? && 0 < m ==> 0 < |o.got|
  {
    if |r.s| <= r.i then ReadOut(r, [], Some(EOF))
    else
      var n := if m < |r.s| - r.i then m else |r.s| - r.i;
      ReadOut(Reader(r.s, r.i + n), r.s[r.i..r.i + n], None)
  }

  /**
   * bytes.Reader.Seek: the new offset is `offset` from the start, from the
   * current offset or from the end; an unknown `whence` or a negative
   * result is an error that leaves the reader alone.
   */
  function ReaderSeek(r: Reader, offset: int, whence: int): (o: SeekOut)
    ensures o.rd.s == r.s
    ensures o.err.None? ==> o.rd.i == o.pos
    ensures o.err.Some? ==> o.rd == r && o.pos == 0
    ensures whence == SeekCurrent && offset == 0 ==> o == SeekOut(r, r.i, None)
  {
    if whence != SeekStart && whence != SeekCurrent && whence != SeekEnd then SeekOut(r, 0, Some(InvalidWhence))
    else
      var abs := if whence == SeekStart then offset else if whence == SeekCurrent then r.i + offset else |r.s| + offset;
      if abs < 0 then SeekOut(r, 0, Some(NegativePosition)) else SeekOut(Reader(r.s, abs), abs, None)
  }

  /** Everything repeated Reads of `m` bytes return, up to EOF. */
  function ReadToEnd(r: Reader, m: nat): Bytes
    requires 0 < m
    decreases |r.s| - r.i
  {
    var o := ReaderRead(r, m);
    if o.err.Some? then [] else o.got + ReadToEnd(o.rd, m)
  }

  /** Reading to the end, with any non-empty buffer, yields the rest of the bytes from the offset on. */
  lemma {:induction false} ReadToEndIsRest(r: Reader, m: nat)
    requires 0 < m
    ensures ReadToEnd(r, m) == if r.i <= |r.s| then r.s[r.i..] else []
    decreases |r.s| - r.i
  {
    var o := ReaderRead(r, m);
    if o.err.None? {
      ReadToEndIsRest(o.rd, m);
      assert r.s[r.i..o.rd.i] + r.s[o.rd.i..] == r.s[r.i..];
    }
  }

  /**
   * Seeking to `offset` from the start succeeds exactly when it is not
   * negative, and reading to the end from there yields the bytes from that
   * offset on.
   */
  lemma SeekThenRead(r: Reader, offset: int, m: nat)
    requires 0 < m
    ensures ReaderSeek(r, offset, SeekStart).err.None? <==> 0 <= offset
    ensures 0 <= offset <= |r.s| ==> ReadToEnd(ReaderSeek(r, offset, SeekStart).rd, m) == r.s[offset..]
    ensures |r.s| < offset ==> ReadToEnd(ReaderSeek(r, offset, SeekStart).rd, m) == []
  {
    if 0 <= offset {
      ReadToEndIsRest(ReaderSeek(r, offset, SeekStart).rd, m);
    }
  }

  /** The entries at positions `idxs` of `meta`, in order. */
  function Entries(fs: AssetFS, idxs: seq<int>): (r: seq<ItemMetadata>)
    requires forall j :: 0 <= j < |idxs| ==> 0 <= idxs[j] < |fs.meta|
    ensures |r| == |idxs|
    ensures forall j :: 0 <= j < |idxs| ==> r[j] == fs.meta[idxs[j]]
  {
    if idxs == [] then [] else [fs.meta[idxs[0]]] + Entries(fs, idxs[1..])
  }

  /** The entries of a split list of positions are the entries of its two parts. */
  lemma EntriesSplit(fs: AssetFS, idxs: seq<int>, n: nat)
    requires forall j :: 0 <= j < |idxs| ==> 0 <= idxs[j] < |fs.meta|
    requires n <= |idxs|
    ensures Entries(fs, idxs[..n]) + Entries(fs, idxs[n..]) == Entries(fs, idxs)
  {
  }

  /** The children of `fi` are positions in `meta`: the index Readdir reads through. */
  ghost predicate ChildrenIn(fs: AssetFS, fi: ItemMetadata)
  {
    forall j :: 0 <= j < |fi.children| ==> 0 <= fi.children[j] < |fs.meta|
  }

  /** What a Readdir call leaves behind: the entries returned, the error, and the new cursor. */
  datatype ReaddirOut = ReaddirOut(out: seq<ItemMetadata>, err: Option<Error>, read: nat)

  /**
   * `_assetFile.Readdir(count)` with the cursor at `read`: on a file,
   * os.ErrInvalid; at the end, nil for `count <= 0` and io.EOF otherwise;
   * else the entries of the next children, all of them for `count <= 0`
   * and at most `count` otherwise, with the cursor moved past them.
   */
  function ReaddirSpec(fs: AssetFS, fi: ItemMetadata, read: nat, count: int): (o: ReaddirOut)
    requires ChildrenIn(fs, fi)
    ensures !fi.isDir ==> o == ReaddirOut([], Some(ErrInvalid), read)
    ensures fi.isDir && |fi.children| <= read ==> o == ReaddirOut([], if count <= 0 then None else Some(EOF), read)
    ensures o.err.None? <==> fi.isDir && (read < |fi.children| || count <= 0)
    ensures o.read == read + |o.out| && (read <= |fi.children| ==> o.read <= |fi.children|)
    ensures o.err.None? && read < |fi.children| ==>
              && 0 < |o.out|
              && (if count <= 0 then o.read == |fi.children| else |o.out| <= count)
              && o.out == Entries(fs, fi.children[read..o.read])
  {
    if !fi.isDir then ReaddirOut([], Some(ErrInvalid), read)
    else if |fi.children| <= read then ReaddirOut([], if count <= 0 then None else Some(EOF), read)
    else
      var end := if count <= 0 || |fi.children| < read + count then |fi.children| else read + count;
      ReaddirOut(Entries(fs, fi.children[read..end]), None, end)
  }

  /** Everything repeated Readdir(count) calls return, for `count > 0`, up to io.EOF. */
  function Drain(fs: AssetFS, fi: ItemMetadata, read: nat, count: int): seq<ItemMetadata>
    requires ChildrenIn(fs, fi) && fi.isDir && 0 < count
    decreases |fi.children| - read
  {
    var o := ReaddirSpec(fs, fi, read, count);
    if o.err.Some? then [] else o.out + Drain(fs, fi, o.read, count)
  }

  /**
   * Bounded Readdir calls from cursor `read` together return the entries
   * of every remaining child, in order, before io.EOF ends them.
   */
  lemma {:induction false} DrainIsRest(fs: AssetFS, fi: ItemMetadata, read: nat, count: int)
    requires ChildrenIn(fs, fi) && fi.isDir && 0 < count && read <= |fi.children|
    ensures Drain(fs, fi, read, count) == Entries(fs, fi.children[read..])
    decreases |fi.children| - read
  {
    var o := ReaddirSpec(fs, fi, read, count);
    if o.err.None? {
      DrainIsRest(fs, fi, o.read, count);
      var rest := fi.children[read..];
      EntriesSplit(fs, rest, o.read - read);
      assert rest[..o.read - read] == fi.children[read..o.read];
      assert rest[o.read - read..] == fi.children[o.read..];
    }
  }

  /**
   * An unbounded Readdir returns every remaining child; after it, another
   * unbounded call returns nil and nil, and a bounded one io.EOF.
   */
  lemma UnboundedThenEnd(fs: AssetFS, fi: ItemMetadata, read: nat, count: int, next: int)
    requires ChildrenIn(fs, fi) && fi.isDir && count <= 0 && read < |fi.children|
    ensures ReaddirSpec(fs, fi, read, count).out == Entries(fs, fi.children[read..])
    ensures ReaddirSpec(fs, fi, ReaddirSpec(fs, fi, read, count).read, next)
         == ReaddirOut([], if next <= 0 then None else Some(EOF), |fi.children|)
  {
  }

  /** The lookups Open relies on: every key names an entry, and every file entry has data. */
  ghost predicate Servable(fs: AssetFS)
  {
    forall k :: k in fs.names ==>
      && 0 <= fs.names[k] < |fs.meta|
      && (!fs.meta[fs.names[k]].isDir ==> fs.names[k] < |fs.data|)
  }

  /** What an open handle holds: its entry, a reader over a file's data, and the Readdir cursor. */
  datatype Handle = Handle(fi: ItemMetadata, rd: Option<Reader>, read: nat)

  /** The handle Open makes for entry `i`. */
  function HandleAt(fs: AssetFS, i: int): Handle
    requires 0 <= i < |fs.meta| && (!fs.meta[i].isDir ==> i < |fs.data|)
  {
    Handle(fs.meta[i], if fs.meta[i].isDir then None else Some(Reader(fs.data[i], 0)), 0)
  }

  /**
   * `_assetfs.Open(name)`: on a nil file system, a PathError for "open"
   * wrapping os.ErrNotExist; otherwise the entry under `clean("/" + name)`
   * (path.Clean, a parameter here), or os.ErrNotExist when there is none.
   */
  function Opened(fs: Option<AssetFS>, name: string, clean: string -> string): (r: Result<Handle, Error>)
    requires fs.Some? ==> Servable(fs.value)
    ensures r.Success? <==> fs.Some? && clean("/" + name) in fs.value.names
    ensures fs.None? ==> r == Failure(PathError("open", name, ErrNotExist))
    ensures fs.Some? && r.Failure? ==> r.error == ErrNotExist
    ensures r.Success? ==>
              && r.value.fi == fs.value.meta[fs.value.names[clean("/" + name)]]
              && r.value.read == 0
              && (r.value.rd.Some? <==> !r.value.fi.isDir)
              && (r.value.rd.Some? ==> r.value.rd.value == Reader(fs.value.data[fs.value.names[clean("/" + name)]], 0))
  {
    if fs.None? then Failure(PathError("open", name, ErrNotExist))
    else
      var key := clean("/" + name);
      if key !in fs.value.names then Failure(ErrNotExist)
      else Success(HandleAt(fs.value, fs.value.names[key]))
  }

  /** path.Clean leaves the rooted keys of the index as they are. */
  ghost predicate CleanKeeps(clean: string -> string, names: map<string, int>)
  {
    forall k :: k in names ==> clean("/" + k) == k
  }

  lemma WellFormedServable(fs: AssetFS)
    requires WellFormed(fs)
    ensures Servable(fs)
  {
  }

  /** Some key opens entry `i`. */
  ghost predicate Reachable(fs: AssetFS, clean: string -> string, i: int)
    requires Servable(fs) && 0 <= i < |fs.meta| && (!fs.meta[i].isDir ==> i < |fs.data|)
  {
    exists k :: k in fs.names && Opened(Some(fs), k, clean) == Success(HandleAt(fs, i))
  }

  /** In a well-formed index, every entry is what Open returns for some key. */
  lemma EveryEntryOpens(fs: AssetFS, clean: string -> string)
    requires WellFormed(fs) && CleanKeeps(clean, fs.names)
    ensures Servable(fs)
    ensures forall i :: 0 <= i < |fs.meta| ==> Reachable(fs, clean, i)
  {
    WellFormedServable(fs);
    forall i | 0 <= i < |fs.meta|
      ensures Reachable(fs, clean, i)
    {
      assert i in fs.names.Values;
      var k :| k in fs.names && fs.names[k] == i;
      assert clean("/" + k) == k;
      assert Opened(Some(fs), k, clean) == Success(HandleAt(fs, i));
    }
  }

  /** The unbounded Readdir loop: a buffer as long as `idxs`, filled with their entries. */
  method FillEntries(fs: AssetFS, idxs: seq<int>) returns (out: seq<ItemMetadata>)
    requires forall j :: 0 <= j < |idxs| ==> 0 <= idxs[j] < |fs.meta|
    ensures out == Entries(fs, idxs)
  {
    var buf := new ItemMetadata[|idxs|];
    for i := 0 to |idxs|
      invariant forall j :: 0 <= j < i ==> buf[j] == fs.meta[idxs[j]]
    {
      buf[i] := fs.meta[idxs[i]];
    }
    out := buf[..];
  }

  /** The bounded Readdir loop: the entries of `idxs` appended one by one, stopping after `count`. */
  method AppendEntries(fs: AssetFS, idxs: seq<int>, count: int) returns (out: seq<ItemMetadata>)
    requires forall j :: 0 <= j < |idxs| ==> 0 <= idxs[j] < |fs.meta|
    requires 0 < count
    ensures |out| == if count < |idxs| then count else |idxs|
    ensures out == Entries(fs, idxs[..|out|])
  {
    out := [];
    for i := 0 to |idxs|
      invariant i <= count && |out| == i
      invariant forall j :: 0 <= j < i ==> out[j] == fs.meta[idxs[j]]
    {
      if i == count {
        break;
      }
      out := out + [fs.meta[idxs[i]]];
    }
  }

  /** `_assetFile`: an open entry of the index. */
  class AssetFile {
    var rd: Option<Reader>
    const fi: ItemMetadata
    const fs: AssetFS
    var read: nat

    function State(): Handle
      reads this
    {
      Handle(fi, rd, read)
    }

    ghost predicate Valid()
      reads this
    {
      read <= |fi.children| && (rd.Some? <==> !fi.isDir)
    }

    constructor (fs: AssetFS, h: Handle)
      requires h.read <= |h.fi.children| && (h.rd.Some? <==> !h.fi.isDir)
      ensures Valid() && this.fs == fs && State() == h
    {
      this.fs := fs;
      fi := h.fi;
      rd := h.rd;
      read := h.read;
    }

    /** Close: always nil. */
    method Close() returns (err: Option<Error>)
      ensures err == None
    {
      err := None;
    }

    /** Stat: the entry the handle was opened on, and nil. */
    function Stat(): (r: (ItemMetadata, Option<Error>))
      reads this
      ensures r.0 == State().fi && r.1 == None
    {
      (fi, None)
    }

    /**
     * Readdir: the entries of the next children as ReaddirSpec says, the
     * unbounded case filling a buffer of the right length, the bounded one
     * appending until `count` entries.
     */
    method Readdir(count: int) returns (out: seq<ItemMetadata>, err: Option<Error>)
      requires Valid() && ChildrenIn(fs, fi)
      modifies this`read
      ensures Valid()
      ensures ReaddirOut(out, err, read) == ReaddirSpec(fs, fi, old(read), count)
    {
      if !fi.isDir {
        return [], Some(ErrInvalid);
      }
      if count <= 0 {
        if |fi.children| <= read {
          return [], None;
        }
        out := FillEntries(fs, fi.children[read..]);
        read := read + |out|;
        return out, None;
      }
      if |fi.children| <= read {
        return [], Some(EOF);
      }
      out := AppendEntries(fs, fi.children[read..], count);
      assert fi.children[read..][..|out|] == fi.children[read..read + |out|];
      read := read + |out|;
      return out, None;
    }

    /** Read into a buffer of `m` bytes: on a directory, _errIsDirectory; otherwise the reader's Read. */
    method Read(m: nat) returns (got: Bytes, err: Option<Error>)
      requires Valid()
      modifies this`rd
      ensures Valid()
      ensures fi.isDir ==> got == [] && err == Some(ErrIsDirectory) && rd == old(rd)
      ensures !fi.isDir ==> ReadOut(rd.value, got, err) == ReaderRead(old(rd).value, m)
    {
      if fi.isDir {
        return [], Some(ErrIsDirectory);
      }
      var o := ReaderRead(rd.value, m);
      rd := Some(o.rd);
      return o.got, o.err;
    }

    /** Seek: on a directory, 0 and _errIsDirectory; otherwise the reader's Seek. */
    method Seek(offset: int, whence: int) returns (pos: int, err: Option<Error>)
      requires Valid()
      modifies this`rd
      ensures Valid()
      ensures fi.isDir ==> pos == 0 && err == Some(ErrIsDirectory) && rd == old(rd)
      ensures !fi.isDir ==> SeekOut(rd.value, pos, err) == ReaderSeek(old(rd).value, offset, whence)
    {
      if fi.isDir {
        return 0, Some(ErrIsDirectory);
      }
      var o := ReaderSeek(rd.value, offset, whence);
      rd := Some(o.rd);
      return o.pos, o.err;
    }
  }

  /** `_assetfs.Open`: a fresh handle on the entry Opened finds, or its error. */
  method Open(fs: Option<AssetFS>, name: string, clean: string -> string) returns (af: AssetFile?, err: Option<Error>)
    requires fs.Some? ==> Servable(fs.value)
    ensures Opened(fs, name, clean).Failure? ==> af == null && err == Some(Opened(fs, name, clean).error)
    ensures Opened(fs, name, clean).Success? ==>
              && af != null && fresh(af) && af.Valid() && err == None
              && af.fs == fs.value && af.State() == Opened(fs, name, clean).value
  {
    if fs.None? {
      return null, Some(PathError("open", name, ErrNotExist));
    }
    var key := clean("/" + name);
    if key !in fs.value.names {
      return null, Some(ErrNotExist);
    }
    var i := fs.value.names[key];
    var fi := fs.value.meta[i];
    var rd := if fi.isDir then None else Some(Reader(fs.value.data[i], 0));
    af := new AssetFile(fs.value, Handle(fi, rd, 0));
    return af, None;
  }
}
