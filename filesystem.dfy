/**
 * The served directory tree, standing for what `fs::metadata`, `fs::read_dir`,
 * `File::open` and the reads on it observe while a request is handled.
 */
module FileSystem {

  import opened Wrappers
  import opened Paths

  newtype byte = x: int | 0 <= x < 256

  /** A name `read_dir` can report: never empty, ".", ".." or containing '/'. */
  type EntryName = x: string | ValidName(x) witness "x"

  /** What opening and reading a regular file yields. */
  datatype Contents = Unopenable | Unreadable | Bytes(data: seq<byte>)

  /**
   * What `fs::metadata` reports besides the kind: the modification time,
   * already formatted as text (None when `modified()` fails), and the length.
   */
  datatype Meta = Meta(mtime: Option<string>, size: nat)

  /**
   * A directory's listing is None when `read_dir` fails on it; otherwise it is
   * what the `read_dir` iterator yields in enumeration order, with None for an
   * item the iterator reports as an error.
   */
  datatype Node =
    | FileNode(contents: Contents, meta: Meta)
    | DirNode(listing: Option<seq<Option<EntryName>>>, meta: Meta)

  /** The nodes below the serve root ".", keyed by the names that lead to them; [] is the root. */
  type Tree = map<seq<string>, Node>

  /**
   * `fs::metadata`: the node a path names, or None when the path does not
   * exist. Only paths made of `CurDir` and `Normal` components can be looked
   * up: the tree holds nothing outside the serve root.
   */
  function Lookup(fs: Tree, p: string): (r: Option<Node>)
    requires Confined(p)
    ensures r.Some? <==> NormalNames(Components(p)) in fs
  {
    var key := NormalNames(Components(p));
    if key in fs then Some(fs[key]) else None
  }
}
