/**
 * The serialized index shared by the generator and the runtime file system:
 * the `_assetfs` value that assetfs.go emits as Go literals and that
 * internal/template.go serves.  File contents come first in `data`, the
 * metadata of files and then of directories in `meta`, and `names` maps
 * every rooted path to its position in `meta`.
 */
module Index {

  type Byte = bv8
  type Bytes = seq<Byte>

  /** os.FileMode: permission and type bits, passed through unchanged. */
  type FileMode = bv32

  /** `_itemMetadata`; its getters Name, Size, Mode, ModTime and IsDir are the fields. */
  datatype ItemMetadata = ItemMetadata(
    name: string,
    size: int,
    mode: FileMode,
    mtime: int,        // nanoseconds since the Unix epoch
    isDir: bool,
    children: seq<int> // positions in `meta`, directories only
  )

  datatype AssetFS = AssetFS(data: seq<Bytes>, meta: seq<ItemMetadata>, names: map<string, int>)

  /** Files occupy [0, |data|), directories [|data|, |meta|). */
  ghost predicate FilesFirst(fs: AssetFS)
  {
    && |fs.data| <= |fs.meta|
    && forall i :: 0 <= i < |fs.meta| ==> (fs.meta[i].isDir <==> |fs.data| <= i)
  }

  /** Every child position names an entry; files have no children. */
  ghost predicate ChildrenInRange(fs: AssetFS)
  {
    && (forall i, c :: 0 <= i < |fs.meta| && c in fs.meta[i].children ==> 0 <= c < |fs.meta|)
    && (forall i :: 0 <= i < |fs.meta| && !fs.meta[i].isDir ==> fs.meta[i].children == [])
  }

  /** `names` is a bijection from its keys onto the positions of `meta`. */
  ghost predicate NamesBijective(fs: AssetFS)
  {
    && (forall k :: k in fs.names ==> 0 <= fs.names[k] < |fs.meta|)
    && (forall k1, k2 :: k1 in fs.names && k2 in fs.names && fs.names[k1] == fs.names[k2] ==> k1 == k2)
    && (forall i :: 0 <= i < |fs.meta| ==> i in fs.names.Values)
  }

  ghost predicate WellFormed(fs: AssetFS)
  {
    FilesFirst(fs) && ChildrenInRange(fs) && NamesBijective(fs)
  }
}
