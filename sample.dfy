/**
 * The sample bundle `_assetFilesystems["static"]` of internal/template.go,
 * and what the runtime does on it; walks that meet the 10 MiB ceiling of
 * the generator; and a walk whose root is a regular file.
 */
module Sample {
  import opened Wrappers
  import opened Index
  import opened Runtime
  import IndexTree
  import Section
  import Paths

  const Abc: Bytes := [0x61, 0x62, 0x63]
  const Cde: Bytes := [0x63, 0x64, 0x65]

  /** The "static" bundle: files red and green, then the root directory listing both. */
  const Static := AssetFS(
    [Abc, Cde],
    [ ItemMetadata("red", 3, 0x1A4, 0, false, []),      // mode 0644
      ItemMetadata("green", 3, 0x1A4, 0, false, []),    // mode 0644
      ItemMetadata("static", 0, 0x1ED, 0, true, [0, 1]) // mode 0755
    ],
    map["/red" := 0, "/green" := 1, "/" := 2])

  lemma StaticWellFormed()
    ensures WellFormed(Static)
  {
    assert Static.names["/red"] == 0 && Static.names["/green"] == 1 && Static.names["/"] == 2;
  }

  function NamesOf(entries: seq<ItemMetadata>): (r: seq<string>)
    ensures |r| == |entries| && forall j :: 0 <= j < |entries| ==> r[j] == entries[j].name
  {
    if entries == [] then [] else [entries[0].name] + NamesOf(entries[1..])
  }

  /** Opening "/red" and reading it yields "abc". `clean` stands for path.Clean on the bundle's keys. */
  method ReadRed(clean: string -> string) returns (red: Bytes)
    requires CleanKeeps(clean, Static.names)
    ensures red == Abc
  {
    StaticWellFormed();
    WellFormedServable(Static);
    assert clean("/" + "/red") == "/red";
    var f, _ := Open(Some(Static), "/red", clean);
    var got, _ := f.Read(16);
    red := got;
  }

  /** An unbounded Readdir on "/" lists red then green; Read and Seek on it are _errIsDirectory. */
  method ListRoot(clean: string -> string) returns (listing: seq<string>, dirRead: Option<Error>, dirSeek: Option<Error>)
    requires CleanKeeps(clean, Static.names)
    ensures listing == ["red", "green"]
    ensures dirRead == Some(ErrIsDirectory) && dirSeek == Some(ErrIsDirectory)
  {
    StaticWellFormed();
    WellFormedServable(Static);
    assert clean("/" + "/") == "/";
    var d, _ := Open(Some(Static), "/", clean);
    var entries, _ := d.Readdir(0);
    listing := NamesOf(entries);
    var _, e := d.Read(16);
    dirRead := e;
    var _, e2 := d.Seek(0, SeekStart);
    dirSeek := e2;
  }

  /** A path the bundle lacks is os.ErrNotExist; a nil file system is a PathError. */
  method OpenErrors(clean: string -> string) returns (missing: Option<Error>, nilFs: Option<Error>)
    requires clean("//blue") == "/blue"
    ensures missing == Some(ErrNotExist)
    ensures nilFs == Some(PathError("open", "/red", ErrNotExist))
  {
    StaticWellFormed();
    WellFormedServable(Static);
    assert "/" + "/blue" == "//blue";
    assert "/blue" != "/red" && "/blue" != "/green" && "/blue" != "/";
    var _, e := Open(Some(Static), "/blue", clean);
    missing := e;
    var _, e2 := Open(None, "/red", clean);
    nilFs := e2;
  }

  /**
   * Bounded Readdir on "/": one entry at a time, red then green, then
   * io.EOF; an unbounded call after that returns nil and nil.
   */
  method ReaddirStatic(clean: string -> string)
    returns (first: seq<string>, second: seq<string>, third: Option<Error>, fourth: Option<Error>)
    requires CleanKeeps(clean, Static.names)
    ensures first == ["red"] && second == ["green"]
    ensures third == Some(EOF) && fourth == None
  {
    StaticWellFormed();
    WellFormedServable(Static);
    assert clean("/" + "/") == "/";
    var d, _ := Open(Some(Static), "/", clean);
    var out1, _ := d.Readdir(1);
    first := NamesOf(out1);
    var out2, _ := d.Readdir(1);
    second := NamesOf(out2);
    var out3, e3 := d.Readdir(1);
    third := e3;
    var out4, e4 := d.Readdir(0);
    fourth := e4;
  }

  /** A walk of "static" holding one file of size `size`. */
  function OneFileWalk(size: int): seq<IndexTree.WalkEvent>
  {
    [ IndexTree.WalkEvent("static", IndexTree.FileInfo("static", 0, 0x1ED, 0, true), ".", None, Failure(IndexTree.IOError("is a directory"))),
      IndexTree.WalkEvent("static/big", IndexTree.FileInfo("big", size, 0x1A4, 0, false), "static", None, Success([])) ]
  }

  lemma OneFileWalked(size: int)
    ensures Section.WellWalked("static", OneFileWalk(size))
  {
    assert "static" <= "static/big" && "static/big"[6] == '/';
  }

  /** writeSection on a file one byte over 10 MiB stops with an error naming it. */
  method BuildOverCeiling() returns (r: Result<AssetFS, IndexTree.Error>)
    ensures r == Failure(IndexTree.SizeExceeded("static/big"))
  {
    var evs := OneFileWalk(IndexTree.MaxFileSize + 1);
    OneFileWalked(IndexTree.MaxFileSize + 1);
    assert evs[..1] == [evs[0]] && [evs[0]][..0] == [];
    assert IndexTree.FirstError(evs[..1]) == None;
    r := Section.Build("static", evs);
  }

  /** The walk of a file of exactly 10 MiB has no error. */
  lemma OneFileAccepted()
    ensures IndexTree.FirstError(OneFileWalk(IndexTree.MaxFileSize)) == None
  {
    var evs := OneFileWalk(IndexTree.MaxFileSize);
    assert evs[..1] == [evs[0]] && [evs[0]][..0] == [];
  }

  /** A walk without errors builds an index holding the key of its `i`-th path. */
  method BuildHolds(root: string, evs: seq<IndexTree.WalkEvent>, i: int) returns (r: Result<AssetFS, IndexTree.Error>)
    requires Section.WellWalked(root, evs) && IndexTree.FirstError(evs) == None && 0 <= i < |evs|
    ensures r.Success? && Paths.WalkKey(evs[i].path, root) in r.value.names
  {
    r := Section.Build(root, evs);
    assert Section.Serves(r.value, root, evs[i]);
  }

  /** writeSection on a file of exactly 10 MiB serves it as "/big". */
  method BuildAtCeiling() returns (r: Result<AssetFS, IndexTree.Error>)
    ensures r.Success? && "/big" in r.value.names
  {
    var evs := OneFileWalk(IndexTree.MaxFileSize);
    OneFileWalked(IndexTree.MaxFileSize);
    OneFileAccepted();
    r := BuildHolds("static", evs, 1);
    assert Paths.WalkKey(evs[1].path, "static") == "/big";
  }

  /** A walk of the regular file "f" given as the root. */
  function FileRootWalk(): seq<IndexTree.WalkEvent>
  {
    [IndexTree.WalkEvent("f", IndexTree.FileInfo("f", 1, 0x1A4, 0, false), ".", None, Success(['a' as bv8]))]
  }

  lemma FileRootWalked()
    ensures Section.WellWalked("f", FileRootWalk())
    ensures IndexTree.FirstError(FileRootWalk()) == None
  {
    var evs := FileRootWalk();
    assert evs[..1] == evs && evs[..0] == [];
  }

  /**
   * filepath.Walk calls the callback once on a root that is a regular file,
   * so writeSection succeeds and "/" names that file, not a directory.
   */
  method BuildFileRoot() returns (r: Result<AssetFS, IndexTree.Error>)
    ensures r.Success? && "/" in r.value.names
    ensures 0 <= r.value.names["/"] < |r.value.meta| && !r.value.meta[r.value.names["/"]].isDir
    ensures r.value.names["/"] < |r.value.data| && r.value.data[r.value.names["/"]] == ['a' as bv8]
  {
    FileRootWalked();
    var evs := FileRootWalk();
    r := Section.Build("f", evs);
    assert Section.Serves(r.value, "f", evs[0]);
  }
}
