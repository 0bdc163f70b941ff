/** The outside world the watchers see, as values: a directory tree in
    place of `ioutil.ReadDir` and the notification source's `Add`, and
    change events carrying their `os.Stat` result. */
module FsTree {
  import opened Wrappers
  import opened Paths

  /** A directory: its entry name, the error registering it with the
      notification source would report (`None` when registration
      succeeds), and its subdirectories in listing order. Plain files are
      left out: the walks only descend into directories. */
  datatype Dir = Dir(name: string, addError: Option<string>, subdirs: seq<Dir>)

  /** Number of directories in a tree. */
  function Size(d: Dir): (n: nat)
    ensures n >= 1
    decreases d, 1
  {
    1 + SizeAll(d.subdirs)
  }

  function SizeAll(ds: seq<Dir>): (n: nat)
    ensures ds != [] ==> n >= |ds|
    decreases ds, 0
  {
    if ds == [] then 0 else Size(ds[0]) + SizeAll(ds[1..])
  }

  /** Every entry name in the tree is a proper name, as the filesystem
      lists them. */
  predicate WellNamed(d: Dir) {
    forall i :: 0 <= i < |d.subdirs| ==> IsName(d.subdirs[i].name) && WellNamed(d.subdirs[i])
  }

  /** No two entries of one listing share a name, at any depth. */
  predicate DistinctNames(d: Dir) {
    (forall i, j :: 0 <= i < j < |d.subdirs| ==> d.subdirs[i].name != d.subdirs[j].name) &&
    (forall i :: 0 <= i < |d.subdirs| ==> DistinctNames(d.subdirs[i]))
  }

  /** The entry names passed on the way from `d` down the positions `idx`,
      as far as the positions exist. */
  function NamesAt(d: Dir, idx: seq<nat>): (names: seq<string>)
    ensures |names| <= |idx|
    decreases |idx|
  {
    if idx == [] || idx[0] >= |d.subdirs| then []
    else [d.subdirs[idx[0]].name] + NamesAt(d.subdirs[idx[0]], idx[1..])
  }

  /** The kinds of change the notification source reports; one event may
      carry several. */
  datatype Op = Create | Write | Remove | Rename | Chmod

  /** What `os.Stat` says about an event's path when it is handled. */
  datatype Stat = Missing | IsFile | IsDir(tree: Dir)

  datatype Event = Event(path: string, ops: set<Op>, stat: Stat)
}
