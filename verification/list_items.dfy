/** The rows of the Texture Locator list (`ListItem`) and the helpers that read them. */
module ListItems {
  import opened Wrappers
  import opened Tree
  import opened HostApi

  /**
   * One row: parent row index or -1, the full path for a folder or just the filename for
   * a file, the folder flag, the expansion flag (default true), and the images that use
   * the file (empty for a folder).
   */
  datatype Item = Item(parent: int, path: string, isFolder: bool, expanded: bool, images: seq<ImageId>)

  /** The tree links of the rows. */
  function Links(items: seq<Item>): (ls: seq<Link>)
    ensures |ls| == |items|
    ensures forall i :: 0 <= i < |items| ==> ls[i] == Link(items[i].parent, items[i].expanded)
  {
    seq(|items|, i requires 0 <= i < |items| => Link(items[i].parent, items[i].expanded))
  }

  /** Every parent link is -1 or points at an earlier row. */
  ghost predicate Linked(items: seq<Item>) {
    ParentsPrecede(Links(items))
  }

  /** `image_path`: no path for a root row, else the parent's path joined with the row's name. */
  function ImagePath(items: seq<Item>, index: int, host: Host): (r: Option<string>)
    requires Linked(items) && 0 <= index < |items|
  {
    var p := items[index].parent;
    if p == -1 then None else Some(host.join(items[p].path, items[index].path))
  }

  /** Every image a row refers to is a live data block. */
  ghost predicate ImagesResolve(items: seq<Item>, store: ImageStore) {
    forall n, id :: 0 <= n < |items| && id in items[n].images ==> id in store
  }
}
