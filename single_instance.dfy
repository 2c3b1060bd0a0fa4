/**
 * The single-instance check: the coordination name, the lock and socket file
 * names, and the decisions `SingleInstance.__call__` and
 * `single_instance_unix` take on the answers the kernel gives to their
 * system calls. The answers are inputs; the mutual exclusion between
 * processes that the kernel provides is not part of this model.
 */
module InstanceLock {
  import opened Wrappers
  import Strings
  import Decimal

  // ----- Names -------------------------------------------------------------

  /** The `-<group>` suffix, present only when the group id is a non-empty string. */
  function GroupSuffix(groupId: Option<string>): (s: string)
    ensures s == [] || s[0] == '-'
  {
    if groupId.Some? && groupId.value != [] then "-" + groupId.value else ""
  }

  /** The group id as the name sees it: None and the empty string both mean no group. */
  function Group(groupId: Option<string>): Option<string>
  {
    if groupId.Some? && groupId.value != [] then groupId else None
  }

  /** `'{}-ipc-{}'.format(appname, euid)`, then `'-{}'.format(group_id)` if there is a group. */
  function CoordinationName(appname: string, euid: nat, groupId: Option<string>): (name: string)
    ensures |name| > |appname| + 5 && name[..|appname| + 5] == appname + "-ipc-"
  {
    appname + "-ipc-" + Decimal.Show(euid) + GroupSuffix(groupId)
  }

  /** A digit string followed by text that does not start with a digit splits back uniquely. */
  lemma DigitsThenRest(d1: string, r1: string, d2: string, r2: string)
    requires Decimal.AllDigits(d1) && Decimal.AllDigits(d2)
    requires r1 == [] || !Decimal.IsDigit(r1[0])
    requires r2 == [] || !Decimal.IsDigit(r2[0])
    requires d1 + r1 == d2 + r2
    ensures d1 == d2 && r1 == r2
  {
    var s := d1 + r1;
    assert forall i :: 0 <= i < |d1| ==> s[i] == d1[i];
    assert forall i :: 0 <= i < |d2| ==> s[i] == d2[i];
    assert |d1| < |s| ==> s[|d1|] == r1[0];
    assert |d2| < |s| ==> s[|d2|] == r2[0];
    assert |d1| == |d2|;
    assert d1 == s[..|d1|] == d2;
  }

  /**
   * Users and groups never share a name: the coordination name of one
   * application determines the effective user id and the group.
   */
  lemma CoordinationNameDetermines(appname: string, euid1: nat, group1: Option<string>, euid2: nat, group2: Option<string>)
    requires CoordinationName(appname, euid1, group1) == CoordinationName(appname, euid2, group2)
    ensures euid1 == euid2 && Group(group1) == Group(group2)
  {
    var p := appname + "-ipc-";
    var d1, d2 := Decimal.Show(euid1), Decimal.Show(euid2);
    var s1, s2 := GroupSuffix(group1), GroupSuffix(group2);
    Strings.AppendAssoc(p, d1, s1);
    Strings.AppendAssoc(p, d2, s2);
    CommonPrefix(p, d1 + s1, d2 + s2);
    DigitsThenRest(d1, s1, d2, s2);
    Decimal.ParseShow(euid1);
    Decimal.ParseShow(euid2);
    SuffixDetermines(group1, group2);
  }

  lemma CommonPrefix(p: string, a: string, b: string)
    requires p + a == p + b
    ensures a == b
  {
    assert a == (p + a)[|p|..];
    assert b == (p + b)[|p|..];
  }

  /** The group suffix determines the group. */
  lemma SuffixDetermines(group1: Option<string>, group2: Option<string>)
    requires GroupSuffix(group1) == GroupSuffix(group2)
    ensures Group(group1) == Group(group2)
  {
    var s := GroupSuffix(group1);
    if s != [] {
      assert group1.value == s[1..] == group2.value;
    }
  }

  /** Where the lock and socket files may go, and which directories the process may use. */
  datatype Platform = Platform(
    isMacos: bool,
    tempDir: string,
    home: string,
    userCacheDir: string,
    accessible: string -> bool)  // `os.access(loc, W_OK | R_OK | X_OK)`

  /** The candidate directories, in order of preference. */
  function Candidates(pf: Platform): (locs: seq<string>)
    ensures |locs| == 2
  {
    if pf.isMacos then [pf.userCacheDir, "/Library/Caches"] else [pf.tempDir, pf.home]
  }

  /** The file name in `loc`: hidden by a leading `.` only in the home directory. */
  function LockFileName(loc: string, home: string, name: string, ext: string): (f: string)
    ensures loc == home ==> f == "." + name + ext
    ensures loc != home ==> f == name + ext
  {
    (if loc == home then "." else "") + name + ext
  }

  /** `os.path.join(loc, filename)`: the file for `name` and `ext` in the directory `loc`. */
  function FileIn(loc: string, name: string, ext: string, pf: Platform): string
  {
    Strings.PathJoin(loc, LockFileName(loc, pf.home, name, ext))
  }

  /** The files in the accessible directories of `locs`, in order. */
  function PathsIn(locs: seq<string>, name: string, ext: string, pf: Platform): (paths: seq<string>)
    ensures |paths| <= |locs|
  {
    if locs == [] then []
    else
      var rest := PathsIn(locs[1..], name, ext, pf);
      if pf.accessible(locs[0]) then [FileIn(locs[0], name, ext, pf)] + rest
      else rest
  }

  /** There are no files exactly when no directory is accessible. */
  lemma {:induction false} PathsInEmpty(locs: seq<string>, name: string, ext: string, pf: Platform)
    ensures PathsIn(locs, name, ext, pf) == [] <==> forall i :: 0 <= i < |locs| ==> !pf.accessible(locs[i])
  {
    if locs != [] {
      var tl := locs[1..];
      PathsInEmpty(tl, name, ext, pf);
      if !pf.accessible(locs[0]) && PathsIn(tl, name, ext, pf) == [] {
        forall i | 0 <= i < |locs| ensures !pf.accessible(locs[i]) {
          if i > 0 { assert locs[i] == tl[i - 1]; }
        }
      }
      if forall i :: 0 <= i < |locs| ==> !pf.accessible(locs[i]) {
        forall i | 0 <= i < |tl| ensures !pf.accessible(tl[i]) {
          assert tl[i] == locs[i + 1];
        }
      }
    }
  }

  /** Every accessible directory contributes its file, and nothing else is yielded. */
  lemma {:induction false} PathsInMembers(locs: seq<string>, name: string, ext: string, pf: Platform, p: string)
    ensures p in PathsIn(locs, name, ext, pf) <==>
      exists i :: 0 <= i < |locs| && pf.accessible(locs[i]) && p == FileIn(locs[i], name, ext, pf)
  {
    if locs != [] {
      var tl := locs[1..];
      PathsInMembers(tl, name, ext, pf, p);
      if exists i :: 0 <= i < |locs| && pf.accessible(locs[i]) && p == FileIn(locs[i], name, ext, pf) {
        var i :| 0 <= i < |locs| && pf.accessible(locs[i]) && p == FileIn(locs[i], name, ext, pf);
        if i > 0 {
          assert tl[i - 1] == locs[i];
        }
      }
      if p in PathsIn(tl, name, ext, pf) {
        var k :| 0 <= k < |tl| && pf.accessible(tl[k]) && p == FileIn(tl[k], name, ext, pf);
        assert locs[k + 1] == tl[k];
      }
    }
  }

  /** The first file is that of the first accessible directory. */
  lemma {:induction false} PathsInFirst(locs: seq<string>, name: string, ext: string, pf: Platform, i: nat)
    requires i < |locs| && pf.accessible(locs[i])
    requires forall j :: 0 <= j < i ==> !pf.accessible(locs[j])
    ensures PathsIn(locs, name, ext, pf) != []
    ensures PathsIn(locs, name, ext, pf)[0] == FileIn(locs[i], name, ext, pf)
  {
    if i > 0 {
      var tl := locs[1..];
      assert !pf.accessible(locs[0]);
      assert tl[i - 1] == locs[i];
      forall j | 0 <= j < i - 1 ensures !pf.accessible(tl[j]) {
        assert tl[j] == locs[j + 1];
      }
      PathsInFirst(tl, name, ext, pf, i - 1);
    }
  }

  /** `unix_socket_paths(name, ext)`: at most two paths. */
  function UnixSocketPaths(name: string, ext: string, pf: Platform): (paths: seq<string>)
    ensures |paths| <= 2
  {
    PathsIn(Candidates(pf), name, ext, pf)
  }

  /**
   * One file per accessible candidate and nothing else, none exactly when no
   * candidate is accessible, the file of the preferred accessible one first.
   */
  lemma UnixSocketPathsAccessible(name: string, ext: string, pf: Platform)
    ensures var paths, locs := UnixSocketPaths(name, ext, pf), Candidates(pf);
      && (paths == [] <==> !pf.accessible(locs[0]) && !pf.accessible(locs[1]))
      && (forall p :: p in paths <==> exists loc :: loc in locs && pf.accessible(loc) && p == FileIn(loc, name, ext, pf))
      && (pf.accessible(locs[0]) ==> paths[0] == FileIn(locs[0], name, ext, pf))
      && (!pf.accessible(locs[0]) && pf.accessible(locs[1]) ==> paths[0] == FileIn(locs[1], name, ext, pf))
  {
    var locs := Candidates(pf);
    PathsInEmpty(locs, name, ext, pf);
    forall p
      ensures p in UnixSocketPaths(name, ext, pf) <==> exists loc :: loc in locs && pf.accessible(loc) && p == FileIn(loc, name, ext, pf)
    {
      PathsInMembers(locs, name, ext, pf, p);
    }
    if pf.accessible(locs[0]) {
      PathsInFirst(locs, name, ext, pf, 0);
    } else if pf.accessible(locs[1]) {
      PathsInFirst(locs, name, ext, pf, 1);
    }
  }

  /** `path.rpartition('.')[0] + '.sock'`: the text after the last `.` becomes `sock`. */
  function SocketPath(path: string): string
  {
    match Strings.RSplitOnce(path, '.')
    case Some((head, _)) => head + ".sock"
    case None => ".sock"
  }

  /** Only the extension is replaced, whatever dots `p` holds. */
  lemma SocketPathReplacesExtension(p: string, ext: string)
    requires '.' !in ext
    ensures SocketPath(p + "." + ext) == p + ".sock"
  {
    var s := p + "." + ext;
    assert s == p + ['.'] + ext;
    var r := Strings.RSplitOnce(s, '.');
    Strings.RSplitUnique(p, ext, r.value.0, r.value.1, '.');
  }

  /** Appending a relative tail to the file name appends it to the joined path. */
  lemma PathJoinAppend(dir: string, f: string, x: string)
    requires x != [] && x[0] != '/'
    ensures Strings.PathJoin(dir, f + x) == Strings.PathJoin(dir, f) + x
  {
    if f != [] {
      assert (f + x)[0] == f[0];
    }
    Strings.AppendAssoc(dir, f, x);
    Strings.AppendAssoc(dir + "/", f, x);
  }

  /** Next to `f.lock` in a directory lies `f.sock`. */
  lemma SocketNextTo(loc: string, f: string)
    ensures SocketPath(Strings.PathJoin(loc, f + ".lock")) == Strings.PathJoin(loc, f + ".sock")
  {
    var j := Strings.PathJoin(loc, f);
    PathJoinAppend(loc, f, ".lock");
    PathJoinAppend(loc, f, ".sock");
    assert ".lock" == "." + "lock";
    Strings.AppendAssoc(j, ".", "lock");
    SocketPathReplacesExtension(j, "lock");
  }

  /** In one directory, the socket file is the lock file with its extension replaced. */
  lemma SocketNextToLockAt(loc: string, home: string, name: string)
    ensures SocketPath(Strings.PathJoin(loc, LockFileName(loc, home, name, ".lock")))
         == Strings.PathJoin(loc, LockFileName(loc, home, name, ".sock"))
  {
    var f := (if loc == home then "." else "") + name;
    assert LockFileName(loc, home, name, ".lock") == f + ".lock";
    assert LockFileName(loc, home, name, ".sock") == f + ".sock";
    SocketNextTo(loc, f);
  }

  /** The same, for the file of one candidate directory. */
  lemma SocketNextToLockIn(loc: string, name: string, pf: Platform)
    ensures SocketPath(FileIn(loc, name, ".lock", pf)) == FileIn(loc, name, ".sock", pf)
  {
    SocketNextToLockAt(loc, pf.home, name);
  }

  /** What the directories yield: the first one's file, if it is accessible, then the rest's. */
  lemma PathsInCons(locs: seq<string>, name: string, ext: string, pf: Platform)
    requires locs != []
    ensures pf.accessible(locs[0]) ==> PathsIn(locs, name, ext, pf) == [FileIn(locs[0], name, ext, pf)] + PathsIn(locs[1..], name, ext, pf)
    ensures !pf.accessible(locs[0]) ==> PathsIn(locs, name, ext, pf) == PathsIn(locs[1..], name, ext, pf)
  {
  }

  lemma {:induction false} SocketsNextToLocks(locs: seq<string>, name: string, pf: Platform)
    ensures |PathsIn(locs, name, ".lock", pf)| == |PathsIn(locs, name, ".sock", pf)|
    ensures forall i :: 0 <= i < |PathsIn(locs, name, ".lock", pf)| ==>
      SocketPath(PathsIn(locs, name, ".lock", pf)[i]) == PathsIn(locs, name, ".sock", pf)[i]
  {
    if locs != [] {
      var tl := locs[1..];
      var locks, socks := PathsIn(tl, name, ".lock", pf), PathsIn(tl, name, ".sock", pf);
      SocketsNextToLocks(tl, name, pf);
      PathsInCons(locs, name, ".lock", pf);
      PathsInCons(locs, name, ".sock", pf);
      if pf.accessible(locs[0]) {
        var l, k := FileIn(locs[0], name, ".lock", pf), FileIn(locs[0], name, ".sock", pf);
        SocketNextToLockIn(locs[0], name, pf);
        SocketsCons(l, k, locks, socks);
      }
    }
  }

  /** Putting a lock file and its socket in front keeps the socket of each lock file in place. */
  lemma SocketsCons(l: string, k: string, locks: seq<string>, socks: seq<string>)
    requires SocketPath(l) == k && |locks| == |socks|
    requires forall i :: 0 <= i < |locks| ==> SocketPath(locks[i]) == socks[i]
    ensures var allLocks, allSocks := [l] + locks, [k] + socks;
      |allLocks| == |allSocks| && forall i :: 0 <= i < |allLocks| ==> SocketPath(allLocks[i]) == allSocks[i]
  {
    var allLocks, allSocks := [l] + locks, [k] + socks;
    forall i | 0 <= i < |allLocks|
      ensures SocketPath(allLocks[i]) == allSocks[i]
    {
      if i > 0 {
        assert allLocks[i] == locks[i - 1] && allSocks[i] == socks[i - 1];
      }
    }
  }

  /**
   * The socket of each lock file sits next to it: same directory, same
   * hidden-ness, extension `.sock` instead of `.lock`.
   */
  lemma SocketNextToLock(name: string, pf: Platform)
    ensures |UnixSocketPaths(name, ".lock", pf)| == |UnixSocketPaths(name, ".sock", pf)|
    ensures forall i :: 0 <= i < |UnixSocketPaths(name, ".lock", pf)| ==>
      SocketPath(UnixSocketPaths(name, ".lock", pf)[i]) == UnixSocketPaths(name, ".sock", pf)[i]
  {
    SocketsNextToLocks(Candidates(pf), name, pf);
  }

  // ----- Decisions ---------------------------------------------------------

  datatype Errno = ENOENT | EADDRINUSE | EEXIST | EAGAIN | EACCES | OtherErrno(code: int)

  /** The answer to one system call: success, or the OSError it raises. */
  datatype Outcome = Done | Failed(errno: Errno)

  /**
   * The kernel's answers. `bind` is asked first and `rebind` after the stale
   * socket file was unlinked; abstract addresses start with NUL.
   */
  datatype Os = Os(
    open: string -> Outcome,
    lock: string -> Outcome,
    bind: string -> Outcome,
    rebind: string -> Outcome,
    unlink: string -> Outcome,
    connect: string -> Outcome)

  /** The system calls whose outcome decides, in the order they are issued. */
  datatype SysCall = Open(target: string) | Lock(target: string) | Bind(target: string) | Unlink(target: string) | Connect(target: string)

  datatype Role = Listener | Client

  /** A socket bound and listening at, or connected to, `address`. */
  datatype Socket = Socket(address: string, role: Role)

  /** `remove_socket_file(sock, path)` registered with `atexit`. */
  datatype Cleanup = Cleanup(sock: Socket, path: Option<string>)

  /** `True`, `False`, `None` (no usable directory) or a raised OSError. */
  datatype Verdict = Primary | Secondary | NoCandidate | Raised(errno: Errno)

  /** What one attempt decides: the result, the socket kept alive, the cleanup registered and the calls issued. */
  datatype Attempt = Attempt(verdict: Verdict, kept: Option<Socket>, cleanup: Option<Cleanup>, calls: seq<SysCall>)

  /** The socket is kept and, only for the primary, its cleanup registered, exactly when a verdict is reached. */
  predicate Consistent(a: Attempt)
  {
    && (a.verdict.Primary? <==> a.cleanup.Some?)
    && (a.verdict.Primary? || a.verdict.Secondary? <==> a.kept.Some?)
    && (a.verdict.Primary? ==> a.kept == Some(a.cleanup.value.sock) && a.kept.value.role == Listener)
    && (a.verdict.Secondary? ==> a.kept.value.role == Client)
  }

  /** Connect to `address` as a client of the running instance. */
  function Connecting(address: string, os: Os, calls: seq<SysCall>): Attempt
  {
    var calls := calls + [Connect(address)];
    match os.connect(address)
    case Done => Attempt(Secondary, Some(Socket(address, Client)), None, calls)
    case Failed(e) => Attempt(Raised(e), None, None, calls)
  }

  /** Listen at `address` and register its cleanup, with `path` to unlink at exit. */
  function Listening(address: string, path: Option<string>, calls: seq<SysCall>): Attempt
  {
    var s := Socket(address, Listener);
    Attempt(Primary, Some(s), Some(Cleanup(s, path)), calls)
  }

  function Raise(e: Errno, calls: seq<SysCall>): Attempt
  {
    Attempt(Raised(e), None, None, calls)
  }

  /** The bind of the filesystem socket, with the one retry after unlinking a stale socket file. */
  function Binding(socketPath: string, os: Os, calls: seq<SysCall>): Attempt
  {
    var calls := calls + [Bind(socketPath)];
    match os.bind(socketPath)
    case Done => Listening(socketPath, Some(socketPath), calls)
    case Failed(e) =>
      if e == EADDRINUSE || e == EEXIST then
        var calls := calls + [Unlink(socketPath)];
        match os.unlink(socketPath)
        case Failed(e') => Raise(e', calls)
        case Done =>
          var calls := calls + [Bind(socketPath)];
          match os.rebind(socketPath)
          case Failed(e') => Raise(e', calls)
          case Done => Listening(socketPath, Some(socketPath), calls)
      else Raise(e, calls)
  }

  /** One turn of the loop in `single_instance_unix`: lock `path`, then connect or bind next to it. */
  function PathAttempt(path: string, os: Os): Attempt
  {
    var socketPath := SocketPath(path);
    match os.open(path)
    case Failed(e) => Raise(e, [Open(path)])
    case Done =>
      var calls := [Open(path), Lock(path)];
      match os.lock(path)
      case Failed(e) =>
        if e == EAGAIN || e == EACCES then Connecting(socketPath, os, calls)
        else Raise(e, calls)
      case Done => Binding(socketPath, os, calls)
  }

  /** `single_instance_unix(name)`: every turn of the loop returns, so only the first path is ever tried. */
  function UnixAttempt(name: string, pf: Platform, os: Os): Attempt
  {
    var paths := UnixSocketPaths(name, ".lock", pf);
    if paths == [] then Attempt(NoCandidate, None, None, []) else PathAttempt(paths[0], os)
  }

  /** The body of `SingleInstance.__call__` once the name is known: the abstract socket first, the filesystem if there is none. */
  function NamedAttempt(name: string, pf: Platform, os: Os): Attempt
  {
    var address := "\0" + name;
    match os.bind(address)
    case Done => Listening(address, None, [Bind(address)])
    case Failed(e) =>
      if e == ENOENT then
        var u := UnixAttempt(name, pf, os);
        Attempt(u.verdict, u.kept, u.cleanup, [Bind(address)] + u.calls)
      else if e == EADDRINUSE then Connecting(address, os, [Bind(address)])
      else Raise(e, [Bind(address)])
  }

  /** `SingleInstance.__call__(group_id)`. */
  function CallAttempt(appname: string, euid: nat, groupId: Option<string>, pf: Platform, os: Os): Attempt
  {
    NamedAttempt(CoordinationName(appname, euid, groupId), pf, os)
  }

  /** With the name fixed: ENOENT on the abstract bind hands over to the filesystem. */
  lemma NamedFallback(name: string, pf: Platform, os: Os)
    requires os.bind("\0" + name) == Failed(ENOENT)
    ensures var u := UnixAttempt(name, pf, os);
      NamedAttempt(name, pf, os) == Attempt(u.verdict, u.kept, u.cleanup, [Bind("\0" + name)] + u.calls)
  {
  }

  lemma BindingConsistent(socketPath: string, os: Os, calls: seq<SysCall>)
    ensures Consistent(Binding(socketPath, os, calls))
  {
  }

  lemma PathAttemptConsistent(path: string, os: Os)
    ensures Consistent(PathAttempt(path, os))
  {
    BindingConsistent(SocketPath(path), os, [Open(path), Lock(path)]);
  }

  lemma UnixAttemptConsistent(name: string, pf: Platform, os: Os)
    ensures Consistent(UnixAttempt(name, pf, os))
  {
    var paths := UnixSocketPaths(name, ".lock", pf);
    if paths != [] {
      PathAttemptConsistent(paths[0], os);
    }
  }

  /**
   * Whatever the kernel answers, a socket is kept exactly when the call
   * returns True or False, and a cleanup is registered, for that listening
   * socket, exactly when it returns True.
   */
  lemma CallAttemptConsistent(appname: string, euid: nat, groupId: Option<string>, pf: Platform, os: Os)
    ensures Consistent(CallAttempt(appname, euid, groupId, pf, os))
  {
    NamedAttemptConsistent(CoordinationName(appname, euid, groupId), pf, os);
  }

  lemma NamedAttemptConsistent(name: string, pf: Platform, os: Os)
    ensures Consistent(NamedAttempt(name, pf, os))
  {
    var address := "\0" + name;
    match os.bind(address)
    case Done =>
      assert NamedAttempt(name, pf, os) == Listening(address, None, [Bind(address)]);
    case Failed(e) =>
      if e == ENOENT {
        UnixAttemptConsistent(name, pf, os);
        NamedFallback(name, pf, os);
      } else if e == EADDRINUSE {
        assert NamedAttempt(name, pf, os) == Connecting(address, os, [Bind(address)]);
      } else {
        assert NamedAttempt(name, pf, os) == Raise(e, [Bind(address)]);
      }
  }

  /** No abstract namespace (ENOENT): fall back to the filesystem. */
  lemma AbstractUnavailable(appname: string, euid: nat, groupId: Option<string>, pf: Platform, os: Os)
    requires os.bind("\0" + CoordinationName(appname, euid, groupId)) == Failed(ENOENT)
    ensures var name := CoordinationName(appname, euid, groupId);
      var a, u := CallAttempt(appname, euid, groupId, pf, os), UnixAttempt(name, pf, os);
      a.verdict == u.verdict && a.kept == u.kept && a.cleanup == u.cleanup && a.calls == [Bind("\0" + name)] + u.calls
  {
  }

  /** The abstract address is taken: connect to it and return False, registering nothing. */
  lemma AbstractInUse(appname: string, euid: nat, groupId: Option<string>, pf: Platform, os: Os)
    requires os.bind("\0" + CoordinationName(appname, euid, groupId)) == Failed(EADDRINUSE)
    ensures var address := "\0" + CoordinationName(appname, euid, groupId);
      var a := CallAttempt(appname, euid, groupId, pf, os);
      && a.calls == [Bind(address), Connect(address)]
      && a.cleanup == None
      && (a.verdict == Secondary <==> os.connect(address) == Done)
      && (os.connect(address).Failed? ==> a.verdict == Raised(os.connect(address).errno) && a.kept == None)
  {
  }

  /** The abstract address is free: listen there and register a cleanup without a path. */
  lemma AbstractBound(appname: string, euid: nat, groupId: Option<string>, pf: Platform, os: Os)
    requires os.bind("\0" + CoordinationName(appname, euid, groupId)) == Done
    ensures var address := "\0" + CoordinationName(appname, euid, groupId);
      var a := CallAttempt(appname, euid, groupId, pf, os);
      a.verdict == Primary && a.cleanup == Some(Cleanup(Socket(address, Listener), None))
  {
  }

  /** Any other error of the abstract bind propagates and changes nothing. */
  lemma AbstractOtherError(appname: string, euid: nat, groupId: Option<string>, pf: Platform, os: Os, e: Errno)
    requires os.bind("\0" + CoordinationName(appname, euid, groupId)) == Failed(e)
    requires e != ENOENT && e != EADDRINUSE
    ensures CallAttempt(appname, euid, groupId, pf, os) == Attempt(Raised(e), None, None, [Bind("\0" + CoordinationName(appname, euid, groupId))])
  {
  }

  /** The filesystem fallback returns None exactly when no candidate directory is accessible. */
  lemma UnixNoCandidate(name: string, pf: Platform, os: Os)
    ensures UnixAttempt(name, pf, os).verdict == NoCandidate <==> UnixSocketPaths(name, ".lock", pf) == []
    ensures UnixAttempt(name, pf, os).verdict == NoCandidate <==> forall loc :: loc in Candidates(pf) ==> !pf.accessible(loc)
    ensures UnixAttempt(name, pf, os).verdict == NoCandidate ==> UnixAttempt(name, pf, os).calls == []
  {
    var paths, locs := UnixSocketPaths(name, ".lock", pf), Candidates(pf);
    if paths != [] {
      PathAttemptDecides(paths[0], os);
    }
    UnixSocketPathsAccessible(name, ".lock", pf);
    assert forall loc :: loc in locs <==> loc == locs[0] || loc == locs[1];
  }

  /** One turn of the loop always returns True or False or raises. */
  lemma PathAttemptDecides(path: string, os: Os)
    ensures PathAttempt(path, os).verdict != NoCandidate
  {
  }

  /** Every call of one turn of the loop touches its path or the socket next to it. */
  lemma PathAttemptTouches(path: string, os: Os)
    ensures forall c :: c in PathAttempt(path, os).calls ==> c.target == path || c.target == SocketPath(path)
  {
    var sp := SocketPath(path);
    var prior := [Open(path), Lock(path)];
    BindingTouches(sp, os, prior);
    assert Connecting(sp, os, prior).calls == prior + [Connect(sp)];
  }

  /** The bind and its retry touch only the socket file. */
  lemma BindingTouches(socketPath: string, os: Os, prior: seq<SysCall>)
    ensures forall c :: c in Binding(socketPath, os, prior).calls ==> c in prior || c.target == socketPath
  {
  }

  /** Every call of the fallback touches the first path or its socket: no later candidate is tried. */
  lemma UnixFirstCandidateOnly(name: string, pf: Platform, os: Os)
    requires UnixSocketPaths(name, ".lock", pf) != []
    ensures var path := UnixSocketPaths(name, ".lock", pf)[0];
      forall c :: c in UnixAttempt(name, pf, os).calls ==> c.target == path || c.target == SocketPath(path)
    ensures var locs := Candidates(pf);
      var loc := if pf.accessible(locs[0]) then locs[0] else locs[1];
      UnixSocketPaths(name, ".lock", pf)[0] == FileIn(loc, name, ".lock", pf)
  {
    PathAttemptTouches(UnixSocketPaths(name, ".lock", pf)[0], os);
    UnixSocketPathsAccessible(name, ".lock", pf);
  }

  /** The lock is held elsewhere (EAGAIN or EACCES): connect, never bind, register nothing. */
  lemma UnixLockDenied(name: string, pf: Platform, os: Os)
    requires UnixSocketPaths(name, ".lock", pf) != []
    requires var path := UnixSocketPaths(name, ".lock", pf)[0];
      os.open(path) == Done && os.lock(path) in {Failed(EAGAIN), Failed(EACCES)}
    ensures var path := UnixSocketPaths(name, ".lock", pf)[0];
      var a := UnixAttempt(name, pf, os);
      && a.calls == [Open(path), Lock(path), Connect(SocketPath(path))]
      && a.cleanup == None
      && (a.verdict == Secondary <==> os.connect(SocketPath(path)) == Done)
      && (os.connect(SocketPath(path)).Failed? ==> a.verdict == Raised(os.connect(SocketPath(path)).errno) && a.kept == None)
  {
  }

  /**
   * A stale socket file (EADDRINUSE or EEXIST on bind) is unlinked exactly
   * once and the bind retried exactly once.
   */
  lemma UnixStaleSocket(name: string, pf: Platform, os: Os)
    requires UnixSocketPaths(name, ".lock", pf) != []
    requires var path := UnixSocketPaths(name, ".lock", pf)[0];
      os.open(path) == Done && os.lock(path) == Done && os.bind(SocketPath(path)) in {Failed(EADDRINUSE), Failed(EEXIST)}
    ensures var path := UnixSocketPaths(name, ".lock", pf)[0];
      var sp := SocketPath(path);
      var a := UnixAttempt(name, pf, os);
      && a.calls == [Open(path), Lock(path), Bind(sp), Unlink(sp)] + (if os.unlink(sp) == Done then [Bind(sp)] else [])
      && (a.verdict == Primary <==> os.unlink(sp) == Done && os.rebind(sp) == Done)
      && (os.unlink(sp).Failed? ==> a.verdict == Raised(os.unlink(sp).errno) && a.kept == None)
      && (os.unlink(sp) == Done && os.rebind(sp).Failed? ==> a.verdict == Raised(os.rebind(sp).errno) && a.kept == None)
  {
  }

  /** Lock and bind succeed: listen, and register a cleanup that unlinks the socket file. */
  lemma UnixBound(name: string, pf: Platform, os: Os)
    requires UnixSocketPaths(name, ".lock", pf) != []
    requires var path := UnixSocketPaths(name, ".lock", pf)[0];
      os.open(path) == Done && os.lock(path) == Done && os.bind(SocketPath(path)) == Done
    ensures var sp := SocketPath(UnixSocketPaths(name, ".lock", pf)[0]);
      var a := UnixAttempt(name, pf, os);
      a.verdict == Primary && a.cleanup == Some(Cleanup(Socket(sp, Listener), Some(sp)))
  {
  }

  /**
   * A failing `os.open`, a lock error other than EAGAIN/EACCES, or a bind
   * error other than EADDRINUSE/EEXIST propagates and changes nothing.
   */
  lemma UnixOtherError(name: string, pf: Platform, os: Os, e: Errno)
    requires UnixSocketPaths(name, ".lock", pf) != []
    requires var path := UnixSocketPaths(name, ".lock", pf)[0];
      || os.open(path) == Failed(e)
      || (os.open(path) == Done && os.lock(path) == Failed(e) && e !in {EAGAIN, EACCES})
      || (os.open(path) == Done && os.lock(path) == Done && os.bind(SocketPath(path)) == Failed(e) && e !in {EADDRINUSE, EEXIST})
    ensures var a := UnixAttempt(name, pf, os);
      a.verdict == Raised(e) && a.kept == None && a.cleanup == None
  {
  }

  // ----- The singleton -----------------------------------------------------

  /**
   * The `single_instance` object: the socket it keeps alive and the exit
   * handlers registered with `atexit`. `issued` records the system calls.
   */
  class SingleInstance {
    var socket: Option<Socket>
    var exitHandlers: seq<Cleanup>
    ghost var issued: seq<SysCall>

    constructor ()
      ensures socket == None && exitHandlers == [] && issued == []
    {
      socket := None;
      exitHandlers := [];
      issued := [];
    }

    /** Keep the socket and register the cleanup of `a`, and record its calls. */
    ghost predicate Applied(a: Attempt, socket0: Option<Socket>, handlers0: seq<Cleanup>, issued0: seq<SysCall>)
      reads this
    {
      && socket == (if a.kept.Some? then a.kept else socket0)
      && exitHandlers == handlers0 + (if a.cleanup.Some? then [a.cleanup.value] else [])
      && issued == issued0 + a.calls
    }

    // Each method below carries out one of the functions above. `prior` is
    // the part of the attempt's trace already issued since `issued0`.

    method ConnectTo(address: string, os: Os, ghost issued0: seq<SysCall>, ghost prior: seq<SysCall>) returns (v: Verdict)
      requires issued == issued0 + prior
      modifies this
      ensures v == Connecting(address, os, prior).verdict
      ensures Applied(Connecting(address, os, prior), old(socket), old(exitHandlers), issued0)
    {
      issued := issued + [Connect(address)];
      var connected := os.connect(address);
      if connected.Failed? {
        return Raised(connected.errno);
      }
      socket := Some(Socket(address, Client));
      return Secondary;
    }

    method ListenAt(address: string, path: Option<string>, ghost issued0: seq<SysCall>, ghost prior: seq<SysCall>) returns (v: Verdict)
      requires issued == issued0 + prior
      modifies this
      ensures v == Primary
      ensures Applied(Listening(address, path, prior), old(socket), old(exitHandlers), issued0)
    {
      var s := Socket(address, Listener);
      socket := Some(s);
      exitHandlers := exitHandlers + [Cleanup(s, path)];
      return Primary;
    }

    method BindAt(socketPath: string, os: Os, ghost issued0: seq<SysCall>, ghost prior: seq<SysCall>) returns (v: Verdict)
      requires issued == issued0 + prior
      modifies this
      ensures v == Binding(socketPath, os, prior).verdict
      ensures Applied(Binding(socketPath, os, prior), old(socket), old(exitHandlers), issued0)
    {
      issued := issued + [Bind(socketPath)];
      var bound := os.bind(socketPath);
      ghost var calls := prior + [Bind(socketPath)];
      if bound.Failed? {
        if bound.errno == EADDRINUSE || bound.errno == EEXIST {
          issued := issued + [Unlink(socketPath)];
          calls := calls + [Unlink(socketPath)];
          var unlinked := os.unlink(socketPath);
          if unlinked.Failed? {
            return Raised(unlinked.errno);
          }
          issued := issued + [Bind(socketPath)];
          calls := calls + [Bind(socketPath)];
          var rebound := os.rebind(socketPath);
          if rebound.Failed? {
            return Raised(rebound.errno);
          }
        } else {
          return Raised(bound.errno);
        }
      }
      v := ListenAt(socketPath, Some(socketPath), issued0, calls);
    }

    /** One turn of the loop in `single_instance_unix`. */
    method TryPath(path: string, os: Os) returns (v: Verdict)
      modifies this
      ensures v == PathAttempt(path, os).verdict
      ensures Applied(PathAttempt(path, os), old(socket), old(exitHandlers), old(issued))
    {
      ghost var issued0 := issued;
      var socketPath := SocketPath(path);
      issued := issued + [Open(path)];
      var openResult := os.open(path);
      if openResult.Failed? {
        return Raised(openResult.errno);
      }
      issued := issued + [Lock(path)];
      var locked := os.lock(path);
      if locked.Failed? {
        if locked.errno == EAGAIN || locked.errno == EACCES {
          v := ConnectTo(socketPath, os, issued0, [Open(path), Lock(path)]);
          return;
        }
        return Raised(locked.errno);
      }
      v := BindAt(socketPath, os, issued0, [Open(path), Lock(path)]);
    }

    /** `single_instance_unix(name)`: the loop body returns on its first turn. */
    method SingleInstanceUnix(name: string, pf: Platform, os: Os) returns (v: Verdict)
      modifies this
      ensures v == UnixAttempt(name, pf, os).verdict
      ensures Applied(UnixAttempt(name, pf, os), old(socket), old(exitHandlers), old(issued))
    {
      var paths := UnixSocketPaths(name, ".lock", pf);
      for i := 0 to |paths|
        invariant i == 0
        invariant socket == old(socket) && exitHandlers == old(exitHandlers) && issued == old(issued)
      {
        v := TryPath(paths[i], os);
        return;
      }
      return NoCandidate;
    }

    /** `SingleInstance.__call__(group_id)`. */
    method Call(appname: string, euid: nat, groupId: Option<string>, pf: Platform, os: Os) returns (v: Verdict)
      modifies this
      ensures v == CallAttempt(appname, euid, groupId, pf, os).verdict
      ensures Applied(CallAttempt(appname, euid, groupId, pf, os), old(socket), old(exitHandlers), old(issued))
    {
      var name := CoordinationName(appname, euid, groupId);
      v := CallNamed(name, pf, os);
    }

    /** The rest of `__call__`, once the coordination name is built. */
    method CallNamed(name: string, pf: Platform, os: Os) returns (v: Verdict)
      modifies this
      ensures v == NamedAttempt(name, pf, os).verdict
      ensures Applied(NamedAttempt(name, pf, os), old(socket), old(exitHandlers), old(issued))
    {
      ghost var issued0 := issued;
      var address := "\0" + name;
      issued := issued + [Bind(address)];
      var bound := os.bind(address);
      if bound.Failed? {
        v := BindFailed(name, bound.errno, pf, os, issued0);
        return;
      }
      v := ListenAt(address, None, issued0, [Bind(address)]);
    }

    /** The `except OSError` clause of the abstract bind. */
    method BindFailed(name: string, e: Errno, pf: Platform, os: Os, ghost issued0: seq<SysCall>) returns (v: Verdict)
      requires os.bind("\0" + name) == Failed(e)
      requires issued == issued0 + [Bind("\0" + name)]
      modifies this
      ensures v == NamedAttempt(name, pf, os).verdict
      ensures Applied(NamedAttempt(name, pf, os), old(socket), old(exitHandlers), issued0)
    {
      var address := "\0" + name;
      if e == ENOENT {
        ghost var before := issued;
        v := SingleInstanceUnix(name, pf, os);
        ghost var u := UnixAttempt(name, pf, os);
        NamedFallback(name, pf, os);
        assert issued == before + u.calls;
        Strings.AppendAssoc(issued0, [Bind(address)], u.calls);
        return;
      }
      if e == EADDRINUSE {
        v := ConnectTo(address, os, issued0, [Bind(address)]);
        return;
      }
      return Raised(e);
    }
  }
}
