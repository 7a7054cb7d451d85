/**
 * What the tree engine sees of its host: image data blocks, shader nodes, and the
 * path and filesystem calls it makes. The calls are carried as total function values
 * so that every operation is stated for all behaviours the host might have; lemmas
 * that need more say so in their own `requires`.
 */
module HostApi {
  import opened Wrappers

  /** Identity of an image data block; two references to the same block share it. */
  type ImageId = nat

  /** The fields of an image data block the engine reads or writes. */
  datatype Image = Image(filepath: string, name: string, source: string)

  /** The live image data blocks, by identity. */
  type ImageStore = map<ImageId, Image>

  /** A shader node: its type name and the image it uses, if it has one. */
  datatype Node = Node(idname: string, image: Option<ImageId>)

  /**
   * The host calls:
   *  - `abspath`: `bpy.path.abspath`, resolving `//`-relative paths;
   *  - `split`: `os.path.split`, returning (directory, filename);
   *  - `isSubdir(path, directory)`: `bpy.path.is_subdir`;
   *  - `pathExists`: `os.path.exists`;
   *  - `relpath`: `bpy.path.relpath`, `None` when it raises `ValueError`;
   *  - `osRelpath(path, start)`: `os.path.relpath`;
   *  - `join`: `os.path.join` of two parts.
   */
  datatype Host = Host(
    abspath: string -> string,
    split: string -> (string, string),
    isSubdir: (string, string) -> bool,
    pathExists: string -> bool,
    relpath: string -> Option<string>,
    osRelpath: (string, string) -> string,
    join: (string, string) -> string)

  /** Every image the nodes refer to is a live data block. */
  ghost predicate NodesResolve(nodes: seq<Node>, store: ImageStore) {
    forall i :: 0 <= i < |nodes| && nodes[i].image.Some? ==> nodes[i].image.value in store
  }
}
