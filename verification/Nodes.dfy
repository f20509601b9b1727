/**
 Nodes, the namespace, and errors (diffuzzer/src/abstract_fs/node.rs and the error type of fs.rs).
 */
module Nodes {
  import opened Pathname

  datatype Node = File(file: nat) | Dir(dir: nat) | Symlink(link: nat)

  /** Children of one directory; the source uses a hash map. */
  type Children = map<Name, Node>

  /** Everything path resolution looks at: all directories ever made, and the target of every symlink ever made. */
  datatype Namespace = Namespace(dirs: seq<Children>, links: seq<string>)

  const ROOT := 0

  datatype FsError =
    | NotAFile
    | NotADir
    | NameAlreadyExists
    | RootRemovalForbidden
    | NotFound
    | InvalidPath
    | DirNotEmpty
    | BadDescriptor
    | DescriptorWasClosed
    | FileAlreadyOpened
    | RenameToSubdirectoryError
    | LoopExists
    | HardlinkToSymlinkForbidden
    | ContentFailure

  /**
   What a computation of the source does: it returns a value, it returns an error, or it does not return
   (it panics, or recurses without end until the stack is gone).
   */
  datatype Outcome<+T> = Ok(value: T) | Err(error: FsError) | Stuck

  /** The directories passed on the way, and where the path leads. */
  datatype Found = Found(passed: seq<nat>, node: Node)

  /** Directory d has an entry n for this node. */
  predicate HasEntry(ns: Namespace, d: nat, n: Name, node: Node) {
    d < |ns.dirs| && n in ns.dirs[d] && ns.dirs[d][n] == node
  }

  /** The namespace with one entry added or replaced. */
  function Insert(ns: Namespace, d: nat, n: Name, node: Node): Namespace
    requires d < |ns.dirs|
  {
    ns.(dirs := ns.dirs[d := ns.dirs[d][n := node]])
  }

  /** The namespace without one entry. */
  function Delete(ns: Namespace, d: nat, n: Name): Namespace
    requires d < |ns.dirs|
  {
    ns.(dirs := ns.dirs[d := ns.dirs[d] - {n}])
  }
}
