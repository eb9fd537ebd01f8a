/** `open_safely` of cfg.c: the configuration path is walked one component
    at a time from the root, each component opened relative to the
    directory validated before it; every directory on the way and the file
    at the end must belong to root (unless the module is built for testing),
    have the right type, and be writable by neither group nor others. A
    missing component is not an error: the walk succeeds with no file.

    The file system is a map from a component path (the components from
    the root, the root itself being `[]`) to what `openat` and `fstat`
    report for it; a path absent from the map is one `openat` fails on
    with `ENOENT`. */
module SafeOpen {
  import opened Wrappers
  import opened CString
  import opened Pam

  /** What `fstat` reports: owner, `st_mode` and `st_size`; `content` is
      what reading the file delivers, which need not be `st_size` bytes. */
  datatype Node = Node(uid: nat, mode: bv32, size: nat, content: seq<char>)

  /** A component that `openat` or `fstat` fails on with an errno other than
      `ENOENT` is `Denied`. */
  datatype Entry = Denied | Present(node: Node)

  type Fs = map<seq<string>, Entry>

  const S_IFMT: bv32 := 0xF000
  const S_IFDIR: bv32 := 0x4000
  const S_IFREG: bv32 := 0x8000
  const S_IFLNK: bv32 := 0xA000
  const S_IWGRP: bv32 := 0x10
  const S_IWOTH: bv32 := 0x2

  predicate IsDir(m: bv32) { m & S_IFMT == S_IFDIR }
  predicate IsReg(m: bv32) { m & S_IFMT == S_IFREG }
  predicate IsLnk(m: bv32) { m & S_IFMT == S_IFLNK }

  /** `st_mode & (S_IWGRP | S_IWOTH)`. */
  predicate SharedWrite(m: bv32) { m & (S_IWGRP | S_IWOTH) != 0 }

  /** The owner check, compiled out when the module is built for testing. */
  predicate Trusted(n: Node, testing: bool) { testing || n.uid == 0 }

  /** What every component but the last must be: a directory (or a
      symbolic link), owned by root, not group- or world-writable. */
  predicate SafeDir(n: Node, testing: bool) {
    Trusted(n, testing) && (IsDir(n.mode) || IsLnk(n.mode)) && !SharedWrite(n.mode)
  }

  /** What the last component must be: a regular file, owned by root, not
      group- or world-writable. */
  predicate SafeFile(n: Node, testing: bool) {
    Trusted(n, testing) && IsReg(n.mode) && !SharedWrite(n.mode)
  }

  /** The shape `open_safely` demands before it touches the file system:
      non-empty, absolute, and not ending in `/`. */
  predicate WellShaped(path: string) {
    |path| > 0 && path[0] == '/' && path[|path| - 1] != '/'
  }

  /** `open("/", O_DIRECTORY | O_NOFOLLOW)` succeeds: the root is a directory
      that can be opened. The root itself is not checked any further. */
  predicate RootOpens(fs: Fs) {
    [] in fs && fs[[]].Present? && IsDir(fs[[]].node.mode)
  }

  /** The components of `path`, as `strtok_r(copy, "/")` yields them. */
  function Components(path: string): seq<string> {
    Tokens(path, '/')
  }

  /** The component path of the first `j + 1` components. */
  function Prefix(comps: seq<string>, j: nat): seq<string>
    requires j < |comps|
  {
    comps[..j + 1]
  }

  /** The result of `open_safely`: its return code and, on success, the
      validated file (`None` for `*outfd == -1`). */
  datatype Resolved = Resolved(code: int, file: Option<Node>)

  /** The walk from component `i` on, every component before it having
      been validated as a directory. */
  function Walk(fs: Fs, comps: seq<string>, i: nat, testing: bool): Resolved
    requires i < |comps|
    decreases |comps| - i
  {
    var key := Prefix(comps, i);
    if key !in fs then Resolved(SUCCESS, None)
    else if fs[key].Denied? then Resolved(SERVICE_ERR, None)
    else if i + 1 < |comps| then
      if SafeDir(fs[key].node, testing) then Walk(fs, comps, i + 1, testing)
      else Resolved(SERVICE_ERR, None)
    else if SafeFile(fs[key].node, testing) then Resolved(SUCCESS, Some(fs[key].node))
    else Resolved(SERVICE_ERR, None)
  }

  /** What `open_safely(&fd, &size, path)` returns, `strdupFails` standing
      for `strdup` running out of memory. */
  function Resolve(fs: Fs, path: string, testing: bool, strdupFails: bool): Resolved {
    if !WellShaped(path) then Resolved(SERVICE_ERR, None)
    else if strdupFails then Resolved(BUF_ERR, None)
    else if !RootOpens(fs) then Resolved(SERVICE_ERR, None)
    else
      TokensNonEmpty(path, '/');
      Walk(fs, Components(path), 0, testing)
  }

  /** `open_safely`: the directory chain is validated in a loop, component
      after component, then the last component is opened and checked.
      `size` is `*outsize`: `st_size` of the file, or 0 when there is none. */
  method OpenSafely(fs: Fs, path: string, testing: bool, strdupFails: bool)
    returns (r: int, file: Option<Node>, size: nat)
    ensures Resolved(r, file) == Resolve(fs, path, testing, strdupFails)
    ensures r == SUCCESS ==> size == if file.Some? then file.value.size else 0
  {
    file, size := None, 0;
    var len := |path|;
    if len == 0 || path[0] != '/' || path[len - 1] == '/' {
      r := SERVICE_ERR;
      return;
    }
    if strdupFails {
      r := BUF_ERR;
      return;
    }
    var comps := Components(path);
    TokensNonEmpty(path, '/');
    if !RootOpens(fs) {
      r := SERVICE_ERR;
      return;
    }
    r := SERVICE_ERR;
    var i := 0;
    while i + 1 < |comps|
      invariant i < |comps|
      invariant Walk(fs, comps, i, testing) == Resolve(fs, path, testing, strdupFails)
    {
      var dir := Prefix(comps, i);
      if dir !in fs {
        r := SUCCESS;
        return;
      }
      match fs[dir]
      case Denied =>
        return;
      case Present(st) =>
        if !Trusted(st, testing) {
          return;
        }
        if !(IsDir(st.mode) || IsLnk(st.mode)) || SharedWrite(st.mode) {
          return;
        }
      i := i + 1;
    }
    var last := Prefix(comps, i);
    if last !in fs {
      r := SUCCESS;
      return;
    }
    match fs[last]
    case Denied =>
      return;
    case Present(st) =>
      if !Trusted(st, testing) {
        return;
      }
      if !IsReg(st.mode) || SharedWrite(st.mode) {
        return;
      }
      file, size := Some(st), st.size;
      r := SUCCESS;
  }

  // ---- what the walk guarantees ---------------------------------------------

  /** Every component from the `i`-th to before the `j`-th is a directory
      that passes the checks. */
  predicate DirsSafe(fs: Fs, comps: seq<string>, i: nat, j: nat, testing: bool)
    requires j <= |comps|
  {
    forall k :: i <= k < j ==> Prefix(comps, k) in fs && fs[Prefix(comps, k)].Present? &&
                               SafeDir(fs[Prefix(comps, k)].node, testing)
  }

  /** A path of the wrong shape is refused before the file system is
      looked at: the verdict is the same whatever the file system holds. */
  lemma BadShapeRefused(fs: Fs, fs': Fs, path: string, testing: bool, strdupFails: bool)
    requires !WellShaped(path)
    ensures Resolve(fs, path, testing, strdupFails) == Resolve(fs', path, testing, strdupFails)
    ensures Resolve(fs, path, testing, strdupFails).code == SERVICE_ERR
  {
  }

  /** A missing component, the last one or an ancestor, makes the walk
      succeed with no file, provided the directories before it pass. */
  lemma {:induction false} MissingWalk(fs: Fs, comps: seq<string>, i: nat, j: nat, testing: bool)
    requires i <= j < |comps| && Prefix(comps, j) !in fs && DirsSafe(fs, comps, i, j, testing)
    decreases j - i
    ensures Walk(fs, comps, i, testing) == Resolved(SUCCESS, None)
  {
    if i < j {
      MissingWalk(fs, comps, i + 1, j, testing);
    }
  }

  /** A component before the last that exists but fails a directory check
      (owner, type, or group/world write permission) is refused, provided
      the directories before it pass. */
  lemma {:induction false} UnsafeDirWalk(fs: Fs, comps: seq<string>, i: nat, j: nat, testing: bool)
    requires i <= j && j + 1 < |comps| && DirsSafe(fs, comps, i, j, testing)
    requires Prefix(comps, j) in fs && fs[Prefix(comps, j)].Present? && !SafeDir(fs[Prefix(comps, j)].node, testing)
    decreases j - i
    ensures Walk(fs, comps, i, testing) == Resolved(SERVICE_ERR, None)
  {
    if i < j {
      UnsafeDirWalk(fs, comps, i + 1, j, testing);
    }
  }

  /** Past directories that all pass, the walk ends with the verdict on
      the last component. */
  lemma {:induction false} LastWalk(fs: Fs, comps: seq<string>, i: nat, testing: bool)
    requires i < |comps| && DirsSafe(fs, comps, i, |comps| - 1, testing)
    decreases |comps| - i
    ensures Walk(fs, comps, i, testing) == Walk(fs, comps, |comps| - 1, testing)
  {
    if i + 1 < |comps| {
      LastWalk(fs, comps, i + 1, testing);
    }
  }

  /** A walk that ends with a file passed every directory on the way. */
  lemma {:induction false} FoundWalkSafe(fs: Fs, comps: seq<string>, i: nat, testing: bool)
    requires i < |comps| && Walk(fs, comps, i, testing).file.Some?
    decreases |comps| - i
    ensures DirsSafe(fs, comps, i, |comps| - 1, testing)
  {
    if i + 1 < |comps| {
      FoundWalkSafe(fs, comps, i + 1, testing);
    }
  }

  /** `open_safely` hands out a file exactly when the path is well shaped,
      the root opens, every directory on the way passes, and the file at
      the end is a regular file owned by root (outside a testing build)
      that neither group nor others may write. */
  lemma FoundIff(fs: Fs, path: string, testing: bool, n: Node)
    ensures Resolve(fs, path, testing, false) == Resolved(SUCCESS, Some(n)) <==>
              WellShaped(path) && RootOpens(fs) && Components(path) != [] &&
              DirsSafe(fs, Components(path), 0, |Components(path)| - 1, testing) &&
              Components(path) in fs && fs[Components(path)] == Present(n) && SafeFile(n, testing)
  {
    if WellShaped(path) && RootOpens(fs) {
      var comps := Components(path);
      TokensNonEmpty(path, '/');
      assert Prefix(comps, |comps| - 1) == comps;
      if Walk(fs, comps, 0, testing).file.Some? {
        FoundWalkSafe(fs, comps, 0, testing);
      }
      if DirsSafe(fs, comps, 0, |comps| - 1, testing) {
        LastWalk(fs, comps, 0, testing);
      }
    }
  }

  /** A missing component anywhere on a well-shaped path whose earlier
      directories pass gives success with no file (`*outfd == -1`). */
  lemma MissingIsSuccess(fs: Fs, path: string, testing: bool, j: nat)
    requires WellShaped(path) && RootOpens(fs)
    requires j < |Components(path)| && Prefix(Components(path), j) !in fs
    requires DirsSafe(fs, Components(path), 0, j, testing)
    ensures Resolve(fs, path, testing, false) == Resolved(SUCCESS, None)
  {
    MissingWalk(fs, Components(path), 0, j, testing);
  }

  /** A directory on the way that is not root's (outside a testing build),
      not a directory or link, or writable by group or others, is refused. */
  lemma UnsafeAncestorRefused(fs: Fs, path: string, testing: bool, j: nat)
    requires WellShaped(path) && RootOpens(fs)
    requires j + 1 < |Components(path)| && DirsSafe(fs, Components(path), 0, j, testing)
    requires Prefix(Components(path), j) in fs && fs[Prefix(Components(path), j)].Present?
    requires var n := fs[Prefix(Components(path), j)].node;
             (!testing && n.uid != 0) || !(IsDir(n.mode) || IsLnk(n.mode)) || SharedWrite(n.mode)
    ensures Resolve(fs, path, testing, false).code == SERVICE_ERR
  {
    UnsafeDirWalk(fs, Components(path), 0, j, testing);
  }

  /** The last component is held to the file checks even when every
      directory passes: a file owned by someone else (outside a testing
      build), not regular, or writable by group or others is refused. */
  lemma UnsafeFileRefused(fs: Fs, path: string, testing: bool)
    requires WellShaped(path) && RootOpens(fs) && Components(path) != []
    requires DirsSafe(fs, Components(path), 0, |Components(path)| - 1, testing)
    requires Components(path) in fs && fs[Components(path)].Present?
    requires var n := fs[Components(path)].node;
             (!testing && n.uid != 0) || !IsReg(n.mode) || SharedWrite(n.mode)
    ensures Resolve(fs, path, testing, false).code == SERVICE_ERR
  {
    var comps := Components(path);
    LastWalk(fs, comps, 0, testing);
    assert Prefix(comps, |comps| - 1) == comps;
  }
}
