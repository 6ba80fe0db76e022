/** AtomicPath and AtomicPair of internal/secureio/files.go over a file system that is
    observed after every single change, in which any call may fail without effect. */
module AtomicFiles {
  import opened Basics

  /** An absolute path: directory and last element. */
  datatype Path = Path(dir: Bytes, base: Bytes)

  /** Other stands for devices, sockets and the like; an absent path has no node. */
  datatype Node = Regular(content: Bytes, mode: nat) | Symlink | Directory | Other

  type Files = map<Path, Node>

  datatype FileError =
    | PathRequired
    | Unresolved
    | RefusedSymlink
    | AlreadyExists
    | RefusedNonRegular
    | InspectFailed
    | NoDirectory
    | CreateFailed
    | CloseFailed(index: nat)
    | CallbackFailed
    | ChmodFailed
    | InstallFailed
    | SecondInstallFailed

  const PRIVATE: nat := 0x180 // 0o600, the mode of a file made by os.CreateTemp

  // ----- the write callback -----

  /** One thing the callback does to temporary number `slot`. */
  datatype Action = Put(slot: nat, content: Bytes, mode: nat) | Unlink(slot: nat)

  datatype Callback = Callback(script: seq<Action>, ok: bool)

  function Apply1(files: Files, temps: seq<Path>, a: Action): Files {
    if a.slot >= |temps| then files
    else match a
      case Put(n, content, mode) => files[temps[n] := Regular(content, mode)]
      case Unlink(n) => files - {temps[n]}
  }

  /** The files after the first `n` actions. */
  function Apply(files: Files, temps: seq<Path>, script: seq<Action>, n: nat): Files
    requires n <= |script|
  {
    if n == 0 then files else Apply1(Apply(files, temps, script, n - 1), temps, script[n - 1])
  }

  function Set(paths: seq<Path>): (s: set<Path>)
    ensures forall p :: p in s <==> p in paths
  {
    set p | p in paths
  }

  lemma {:induction false} ApplyStaysInTemps(files: Files, temps: seq<Path>, script: seq<Action>, n: nat)
    requires n <= |script|
    ensures Apply(files, temps, script, n) - Set(temps) == files - Set(temps)
  {
    if n > 0 {
      ApplyStaysInTemps(files, temps, script, n - 1);
    }
  }

  // ----- the disk -----

  class Disk {
    var nodes: Files
    ghost var seen: seq<Files>
    /** The buffers in which whole files were handed out, in order. */
    ghost var loaded: seq<array<Byte>>
    var calls: nat
    const fails: nat -> bool
    const directories: set<Bytes>
    const resolve: Bytes -> Option<Path>

    /** `fails` says which system calls fail, by their number; `resolve` is filepath.Abs. */
    constructor (nodes: Files, fails: nat -> bool, directories: set<Bytes>, resolve: Bytes -> Option<Path>)
      ensures this.nodes == nodes && seen == [] && loaded == [] && calls == 0
      ensures this.fails == fails && this.directories == directories && this.resolve == resolve
    {
      this.nodes, seen, loaded, calls := nodes, [], [], 0;
      this.fails, this.directories, this.resolve := fails, directories, resolve;
    }

    /** Whether the next system call fails of itself. */
    method Fails() returns (failed: bool)
      modifies this`calls
      ensures failed == fails(old(calls)) && calls == old(calls) + 1
    {
      failed := fails(calls);
      calls := calls + 1;
    }

    method Change(files: Files)
      modifies this`nodes, this`seen
      ensures nodes == files && seen == old(seen) + [files]
    {
      nodes, seen := files, seen + [files];
    }

    /** os.Lstat: the node, that there is none, or a failure. */
    method Lstat(p: Path) returns (node: Option<Node>, failed: bool)
      modifies this`calls
      ensures calls == old(calls) + 1 && failed == fails(old(calls))
      ensures !failed ==> node == if p in nodes then Some(nodes[p]) else None
    {
      failed := Fails();
      node := if !failed && p in nodes then Some(nodes[p]) else None;
    }

    method IsDirectory(dir: Bytes) returns (ok: bool)
      modifies this`calls
      ensures calls == old(calls) + 1 && ok == (!fails(old(calls)) && dir in directories)
    {
      var failed := Fails();
      ok := !failed && dir in directories;
    }

    /** os.CreateTemp, which never picks the name of an existing file. */
    method CreateTemp(temp: Path) returns (ok: bool)
      requires temp !in nodes
      modifies this`nodes, this`seen, this`calls
      ensures calls == old(calls) + 1 && ok == (!fails(old(calls)) && temp.dir in directories)
      ensures nodes == if ok then old(nodes)[temp := Regular([], PRIVATE)] else old(nodes)
      ensures seen == if ok then old(seen) + [nodes] else old(seen)
    {
      var failed := Fails();
      ok := !failed && temp.dir in directories;
      if ok {
        Change(nodes[temp := Regular([], PRIVATE)]);
      }
    }

    method CloseFile() returns (ok: bool)
      modifies this`calls
      ensures calls == old(calls) + 1 && ok == !fails(old(calls))
    {
      var failed := Fails();
      ok := !failed;
    }

    method Chmod(p: Path, mode: nat) returns (ok: bool)
      modifies this`nodes, this`seen, this`calls
      ensures calls == old(calls) + 1
      ensures ok == (!fails(old(calls)) && p in old(nodes) && old(nodes)[p].Regular?)
      ensures nodes == if ok then old(nodes)[p := Regular(old(nodes)[p].content, mode)] else old(nodes)
      ensures seen == if ok then old(seen) + [nodes] else old(seen)
    {
      var failed := Fails();
      ok := !failed && p in nodes && nodes[p].Regular?;
      if ok {
        Change(nodes[p := Regular(nodes[p].content, mode)]);
      }
    }

    /** os.Rename of a file: the destination is replaced in one change, unless a directory. */
    method Rename(from: Path, to: Path) returns (ok: bool)
      requires from != to
      modifies this`nodes, this`seen, this`calls
      ensures calls == old(calls) + 1
      ensures ok == (!fails(old(calls)) && from in old(nodes) && !(to in old(nodes) && old(nodes)[to].Directory?))
      ensures nodes == if ok then (old(nodes) - {from})[to := old(nodes)[from]] else old(nodes)
      ensures seen == if ok then old(seen) + [nodes] else old(seen)
    {
      var failed := Fails();
      ok := !failed && from in nodes && !(to in nodes && nodes[to].Directory?);
      if ok {
        Change((nodes - {from})[to := nodes[from]]);
      }
    }

    /** A discarded os.Remove, assumed to succeed where there is something to remove. */
    method Remove(p: Path)
      modifies this`nodes, this`seen
      ensures nodes == old(nodes) - {p} && seen == old(seen) + [nodes]
    {
      Change(nodes - {p});
    }

    /** os.ReadFile of a regular file: its content in a new buffer, or a failure. */
    method ReadFile(p: Path) returns (content: array?<Byte>)
      requires p in nodes && nodes[p].Regular?
      modifies this`calls, this`loaded
      ensures calls == old(calls) + 1
      ensures content == null <==> fails(old(calls))
      ensures content == null ==> loaded == old(loaded)
      ensures content != null ==> fresh(content) && content[..] == nodes[p].content && loaded == old(loaded) + [content]
    {
      var failed := Fails();
      if failed {
        return null;
      }
      var bytes := nodes[p].content;
      content := new Byte[|bytes|](i requires 0 <= i < |bytes| => bytes[i]);
      loaded := loaded + [content];
    }

    /** The callback at work, observed after each of its actions. */
    method RunCallback(temps: seq<Path>, callback: Callback) returns (ok: bool)
      modifies this`nodes, this`seen
      ensures ok == callback.ok
      ensures nodes == Apply(old(nodes), temps, callback.script, |callback.script|)
      ensures old(seen) <= seen
      ensures forall i :: |old(seen)| <= i < |seen| ==> seen[i] - Set(temps) == old(nodes) - Set(temps)
    {
      for n := 0 to |callback.script|
        invariant nodes == Apply(old(nodes), temps, callback.script, n)
        invariant old(seen) <= seen
        invariant forall i :: |old(seen)| <= i < |seen| ==> seen[i] - Set(temps) == old(nodes) - Set(temps)
      {
        ApplyStaysInTemps(old(nodes), temps, callback.script, n + 1);
        Change(Apply1(nodes, temps, callback.script[n]));
      }
      ok := callback.ok;
    }
  }

  // ----- one output -----

  /** What the callback makes of a temporary that starts empty with the given mode. */
  function Written(files: Files, temps: seq<Path>, callback: Callback): Files {
    Apply(files, temps, callback.script, |callback.script|)
  }

  /** Only nothing at all, or with force a regular file, may be replaced. */
  predicate Replaceable(files: Files, p: Path, force: bool) {
    p in files ==> force && files[p].Regular?
  }

  /** None of the `n` system calls from number `first` on fails of itself. */
  ghost predicate Quiet(fails: nat -> bool, first: nat, n: nat) {
    forall j :: first <= j < first + n ==> !fails(j)
  }

  ghost predicate Named(destination: Bytes) {
    destination != [] && destination != Ascii("-")
  }

  /** Apart from its temporary file, a run may only ever show these two states. */
  ghost predicate OldOrNew(f: Files, temp: Path, before: Files, after: Files) {
    f - {temp} == before || f - {temp} == after
  }

  /** The one outcome of a successful AtomicPath. */
  function Installed(before: Files, temp: Path, absolute: Path, mode: nat, callback: Callback): Option<Files> {
    var written := Written(before[temp := Regular([], mode)], [temp], callback);
    if callback.ok && temp in written && written[temp].Regular?
    then Some(before[absolute := Regular(written[temp].content, mode)])
    else None
  }

  /** Removes the temporary file again, as the deferred os.Remove does. */
  lemma RemovedAgain(f: Files, temp: Path, before: Files)
    requires temp !in before && f - {temp} == before - {temp}
    ensures f - {temp} == before
  {
    assert before - {temp} == before;
  }

  /** What is behind each error of the checks, whose calls are numbered from `first` on. */
  ghost predicate InspectRefused(disk: Disk, files: Files, absolute: Path, force: bool, first: nat, e: FileError) {
    match e
    case InspectFailed => disk.fails(first)
    case RefusedSymlink => Quiet(disk.fails, first, 1) && absolute in files && files[absolute].Symlink?
    case AlreadyExists => Quiet(disk.fails, first, 1) && absolute in files && !files[absolute].Symlink? && !force
    case RefusedNonRegular =>
      && Quiet(disk.fails, first, 1) && absolute in files && force
      && !files[absolute].Symlink? && !files[absolute].Regular?
    case NoDirectory =>
      && Quiet(disk.fails, first, 1) && Replaceable(files, absolute, force)
      && (disk.fails(first + 1) || absolute.dir !in disk.directories)
    case _ => false
  }

  /** The same for the making of the temporary file. */
  ghost predicate PrepareRefused(disk: Disk, files: Files, mode: nat, callback: Callback, temp: Path,
                                 first: nat, e: FileError)
  {
    match e
    case CreateFailed => disk.fails(first) || temp.dir !in disk.directories
    case CloseFailed(i) =>
      i == 0 && temp.dir in disk.directories && Quiet(disk.fails, first, 1) && disk.fails(first + 1)
    case _ =>
      && temp.dir in disk.directories && Quiet(disk.fails, first, 2)
      && FillRefused(disk, files, mode, callback, temp, first + 2, e)
  }

  ghost predicate FillRefused(disk: Disk, files: Files, mode: nat, callback: Callback, temp: Path,
                              first: nat, e: FileError)
  {
    match e
    case CallbackFailed => Quiet(disk.fails, first, 1) && !callback.ok
    case ChmodFailed =>
      || disk.fails(first)
      || (callback.ok && (disk.fails(first + 1) || Installed(files, temp, temp, mode, callback).None?))
    case _ => false
  }

  ghost predicate InstallRefused(disk: Disk, files: Files, absolute: Path, mode: nat, callback: Callback, temp: Path,
                                 first: nat, e: FileError)
  {
    if e != InstallFailed then PrepareRefused(disk, files, mode, callback, temp, first, e)
    else
      && temp.dir in disk.directories && Quiet(disk.fails, first, 4)
      && Installed(files, temp, temp, mode, callback).Some?
      && (disk.fails(first + 4) || (absolute in files && files[absolute].Directory?))
  }

  /** What is behind each error of AtomicPath. */
  ghost predicate PathRefused(disk: Disk, files: Files, destination: Bytes, mode: nat, force: bool, callback: Callback,
                              tempBase: Bytes, first: nat, e: FileError)
  {
    if !Named(destination) then e == PathRequired
    else if disk.resolve(destination).None? then e == Unresolved
    else
      var d := disk.resolve(destination).value;
      || InspectRefused(disk, files, d, force, first, e)
      || (&& Replaceable(files, d, force) && d.dir in disk.directories && Quiet(disk.fails, first, 2)
          && InstallRefused(disk, files, d, mode, callback, Path(d.dir, tempBase), first + 2, e))
  }

  /** The checks before anything is created. */
  method InspectOutput(disk: Disk, destination: Bytes, force: bool) returns (err: Option<FileError>)
    requires disk.resolve(destination).Some?
    modifies disk`calls
    ensures err.None? ==> disk.calls == old(disk.calls) + 2
    ensures err.None? <==>
              && Replaceable(disk.nodes, disk.resolve(destination).value, force)
              && disk.resolve(destination).value.dir in disk.directories
              && Quiet(disk.fails, old(disk.calls), 2)
    ensures forall e :: err == Some(e) <==>
              InspectRefused(disk, disk.nodes, disk.resolve(destination).value, force, old(disk.calls), e)
  {
    var absolute := disk.resolve(destination).value;
    var node, failed := disk.Lstat(absolute);
    if failed {
      return Some(InspectFailed);
    }
    if node.Some? {
      if node.value.Symlink? {
        return Some(RefusedSymlink);
      }
      if !force {
        return Some(AlreadyExists);
      }
      if !node.value.Regular? {
        return Some(RefusedNonRegular);
      }
    }
    var ok := disk.IsDirectory(absolute.dir);
    return if ok then None else Some(NoDirectory);
  }

  /** The temporary file gets its mode, its content and its mode again. */
  method FillTemp(disk: Disk, mode: nat, callback: Callback, temp: Path, ghost before: Files)
    returns (err: Option<FileError>)
    requires temp !in before && disk.nodes == before[temp := Regular([], PRIVATE)]
    modifies disk`nodes, disk`seen, disk`calls
    ensures disk.nodes - {temp} == before
    ensures err.None? ==>
              && disk.calls == old(disk.calls) + 2
              && Installed(before, temp, temp, mode, callback) == Some(disk.nodes)
              && disk.nodes[temp].Regular?
    ensures err.None? <==>
              Installed(before, temp, temp, mode, callback).Some? && Quiet(disk.fails, old(disk.calls), 2)
    ensures forall e :: err == Some(e) <==> FillRefused(disk, before, mode, callback, temp, old(disk.calls), e)
    ensures old(disk.seen) <= disk.seen
    ensures forall i :: |old(disk.seen)| <= i < |disk.seen| ==> disk.seen[i] - {temp} == before
  {
    hide Apply, Apply1;
    assert before - {temp} == before;
    var ok := disk.Chmod(temp, mode);
    if !ok {
      return Some(ChmodFailed);
    }
    assert disk.nodes == before[temp := Regular([], mode)];
    assert Set([temp]) == {temp};
    ok := disk.RunCallback([temp], callback);
    ApplyStaysInTemps(before[temp := Regular([], mode)], [temp], callback.script, |callback.script|);
    RemovedAgain(disk.nodes, temp, before);
    if !ok {
      return Some(CallbackFailed);
    }
    ghost var written := disk.nodes;
    ok := disk.Chmod(temp, mode);
    if !ok {
      return Some(ChmodFailed);
    }
    assert disk.nodes == before[temp := Regular(written[temp].content, mode)];
    return None;
  }

  /** Everything from os.CreateTemp to the last os.Chmod. */
  method PrepareOutput(disk: Disk, mode: nat, callback: Callback, temp: Path)
    returns (err: Option<FileError>)
    requires temp !in disk.nodes
    modifies disk`nodes, disk`seen, disk`calls
    ensures err.Some? ==> disk.nodes == old(disk.nodes)
    ensures err.None? ==>
              && Installed(old(disk.nodes), temp, temp, mode, callback) == Some(disk.nodes)
              && disk.nodes[temp].Regular?
    ensures old(disk.seen) <= disk.seen
    ensures forall i :: |old(disk.seen)| <= i < |disk.seen| ==> disk.seen[i] - {temp} == old(disk.nodes)
    ensures err.None? ==> disk.calls == old(disk.calls) + 4
    ensures err.None? <==>
              && temp.dir in disk.directories
              && Installed(old(disk.nodes), temp, temp, mode, callback).Some?
              && Quiet(disk.fails, old(disk.calls), 4)
    ensures forall e :: err == Some(e) <==>
              PrepareRefused(disk, old(disk.nodes), mode, callback, temp, old(disk.calls), e)
  {
    hide Installed;
    ghost var before := disk.nodes;
    assert before - {temp} == before;
    var ok := disk.CreateTemp(temp);
    if !ok {
      return Some(CreateFailed);
    }
    assert disk.nodes - {temp} == before;
    ok := disk.CloseFile();
    if !ok {
      disk.Remove(temp);
      return Some(CloseFailed(0));
    }
    err := FillTemp(disk, mode, callback, temp, before);
    if err.Some? {
      disk.Remove(temp);
    }
  }

  /** Preparation, the rename and the deferred removal. */
  method InstallOutput(disk: Disk, absolute: Path, mode: nat, callback: Callback, temp: Path)
    returns (err: Option<FileError>)
    requires temp !in disk.nodes && temp != absolute
    modifies disk`nodes, disk`seen, disk`calls
    ensures err.Some? ==> disk.nodes == old(disk.nodes)
    ensures err.None? ==> Installed(old(disk.nodes), temp, absolute, mode, callback) == Some(disk.nodes)
    ensures err.None? ==> disk.calls == old(disk.calls) + 5
    ensures old(disk.seen) <= disk.seen
    ensures forall i :: |old(disk.seen)| <= i < |disk.seen| ==>
              OldOrNew(disk.seen[i], temp, old(disk.nodes), disk.nodes)
    ensures err.None? <==>
              && temp.dir in disk.directories
              && Installed(old(disk.nodes), temp, absolute, mode, callback).Some?
              && !(absolute in old(disk.nodes) && old(disk.nodes)[absolute].Directory?)
              && Quiet(disk.fails, old(disk.calls), 5)
    ensures forall e :: err == Some(e) <==>
              InstallRefused(disk, old(disk.nodes), absolute, mode, callback, temp, old(disk.calls), e)
  {
    ghost var before := disk.nodes;
    err := PrepareOutput(disk, mode, callback, temp);
    if err.Some? {
      return;
    }
    ghost var node := disk.nodes[temp];
    assert disk.nodes - {temp} == before;
    var ok := disk.Rename(temp, absolute);
    if !ok {
      disk.Remove(temp);
      return Some(InstallFailed);
    }
    assert disk.nodes == before[absolute := node];
    assert disk.nodes - {temp} == disk.nodes;
    disk.Remove(temp);
  }

  /** Errors leave the file system as it was, without a temporary file; success installs
      all that the callback wrote, with the mode, in place of nothing or, with force, of a
      regular file; and but for the temporary file no other state is ever to be seen. */
  method AtomicPath(disk: Disk, destination: Bytes, mode: nat, force: bool, callback: Callback, tempBase: Bytes)
    returns (err: Option<FileError>)
    requires TempFresh(disk, destination, tempBase)
    modifies disk`nodes, disk`seen, disk`calls
    ensures err.Some? ==> disk.nodes == old(disk.nodes)
    ensures err.None? ==>
              && Named(destination) && disk.resolve(destination).Some?
              && var d := disk.resolve(destination).value;
                 && Replaceable(old(disk.nodes), d, force)
                 && Installed(old(disk.nodes), Path(d.dir, tempBase), d, mode, callback) == Some(disk.nodes)
    ensures old(disk.seen) <= disk.seen
    ensures disk.resolve(destination).None? ==> disk.seen == old(disk.seen)
    ensures disk.resolve(destination).Some? ==>
              forall i :: |old(disk.seen)| <= i < |disk.seen| ==>
                OldOrNew(disk.seen[i], Path(disk.resolve(destination).value.dir, tempBase), old(disk.nodes), disk.nodes)
    // and it succeeds exactly when the checks pass, the callback leaves a regular file and
    // none of the seven system calls fails
    ensures err.None? <==>
              && Named(destination) && disk.resolve(destination).Some?
              && (var d := disk.resolve(destination).value;
                  && Replaceable(old(disk.nodes), d, force)
                  && d.dir in disk.directories
                  && Installed(old(disk.nodes), Path(d.dir, tempBase), d, mode, callback).Some?)
              && Quiet(disk.fails, old(disk.calls), 7)
    ensures forall e :: err == Some(e) <==>
              PathRefused(disk, old(disk.nodes), destination, mode, force, callback, tempBase, old(disk.calls), e)
    ensures err.None? ==> disk.calls == old(disk.calls) + 7
  {
    if destination == [] || destination == Ascii("-") {
      return Some(PathRequired);
    }
    if disk.resolve(destination).None? {
      return Some(Unresolved);
    }
    var absolute := disk.resolve(destination).value;
    err := InspectOutput(disk, destination, force);
    if err.Some? {
      return;
    }
    err := InstallOutput(disk, absolute, mode, callback, Path(absolute.dir, tempBase));
  }

  /** os.CreateTemp chose a name that is neither taken nor the destination. */
  ghost predicate TempFresh(disk: Disk, destination: Bytes, tempBase: Bytes)
    reads disk
  {
    disk.resolve(destination).Some? ==>
      var d := disk.resolve(destination).value;
      Path(d.dir, tempBase) !in disk.nodes && Path(d.dir, tempBase) != d
  }

  // ----- a pair of outputs -----

  datatype OutputSpec = OutputSpec(path: Bytes, mode: nat)

  /** The first `n` temporaries as os.CreateTemp leaves them. */
  function WithTemps(before: Files, temps: seq<Path>, n: nat): Files
    requires n <= |temps|
  {
    if n == 0 then before else WithTemps(before, temps, n - 1)[temps[n - 1] := Regular([], PRIVATE)]
  }

  /** The states after the first and after the second rename. */
  datatype PairStates = PairStates(first: Files, both: Files)

  function PairInstalled(before: Files, temps: seq<Path>, destinations: seq<Path>, specs: seq<OutputSpec>,
                         callback: Callback): Option<PairStates>
    requires |temps| == |destinations| == |specs| == 2
  {
    var written := Written(WithTemps(before, temps, 2), temps, callback);
    if callback.ok && (forall i :: 0 <= i < 2 ==> temps[i] in written && written[temps[i]].Regular?) then
      var first := before[destinations[0] := Regular(written[temps[0]].content, specs[0].mode)];
      Some(PairStates(first, first[destinations[1] := Regular(written[temps[1]].content, specs[1].mode)]))
    else None
  }

  /** Output number `i` as it should be installed. */
  function Output(before: Files, temps: seq<Path>, specs: seq<OutputSpec>, callback: Callback, i: nat): Node
    requires i < 2 == |temps| == |specs|
  {
    var written := Written(WithTemps(before, temps, 2), temps, callback);
    if temps[i] in written && written[temps[i]].Regular? then Regular(written[temps[i]].content, specs[i].mode)
    else Other
  }

  ghost predicate BothThere(files: Files, before: Files, temps: seq<Path>, destinations: seq<Path>,
                            specs: seq<OutputSpec>, callback: Callback)
    requires |temps| == |destinations| == |specs| == 2
  {
    forall i :: 0 <= i < 2 ==>
      destinations[i] in files && files[destinations[i]] == Output(before, temps, specs, callback, i)
  }

  /** Of two outputs at one place the second wins. */
  lemma BothInstalledIff(before: Files, temps: seq<Path>, destinations: seq<Path>, specs: seq<OutputSpec>,
                         callback: Callback)
    requires |temps| == |destinations| == |specs| == 2
    requires PairInstalled(before, temps, destinations, specs, callback).Some?
    ensures BothThere(PairInstalled(before, temps, destinations, specs, callback).value.both,
                      before, temps, destinations, specs, callback)
       <==> (|| destinations[0] != destinations[1]
             || Output(before, temps, specs, callback, 0) == Output(before, temps, specs, callback, 1))
  {
  }

  /** Apart from the temporaries: nothing new, or the first output, or both. */
  ghost predicate Shown(f: Files, temps: seq<Path>, before: Files, states: Option<PairStates>) {
    || f - Set(temps) == before
    || (states.Some? && (f - Set(temps) == states.value.first || f - Set(temps) == states.value.both))
  }

  lemma TempsApart(before: Files, temps: seq<Path>)
    requires |temps| == 2 && temps[0] !in before && temps[1] !in before
    ensures WithTemps(before, temps, 2) - Set(temps) == before
  {
    assert WithTemps(before, temps, 1) == before[temps[0] := Regular([], PRIVATE)];
    assert WithTemps(before, temps, 2) == WithTemps(before, temps, 1)[temps[1] := Regular([], PRIVATE)];
  }

  /** An output passes the checks, failing calls apart. */
  ghost predicate Installable(disk: Disk, destination: Bytes, force: bool, files: Files) {
    && Named(destination)
    && disk.resolve(destination).Some?
    && Replaceable(files, disk.resolve(destination).value, force)
    && disk.resolve(destination).value.dir in disk.directories
  }

  /** The first `n` turns of the first loop, with system calls from number `first` on, pass. */
  ghost predicate Prepared(disk: Disk, specs: seq<OutputSpec>, force: bool, files: Files, first: nat, n: nat)
    requires n <= |specs|
  {
    forall i :: 0 <= i < n ==>
      Installable(disk, specs[i].path, force, files) && Quiet(disk.fails, first + 3 * i, 3)
  }

  /** All goes well until turn number `i` closes its temporary, which fails. */
  ghost predicate CloseFails(disk: Disk, specs: seq<OutputSpec>, force: bool, files: Files, first: nat, i: nat) {
    && i < |specs|
    && Prepared(disk, specs, force, files, first, i)
    && Installable(disk, specs[i].path, force, files)
    && Quiet(disk.fails, first + 3 * i, 2) && disk.fails(first + 3 * i + 2)
  }

  /** What is behind each error of turn number `index`, with calls from number `first` on. */
  ghost predicate TurnRefused(disk: Disk, destination: Bytes, force: bool, files: Files, first: nat, index: nat,
                              e: FileError)
  {
    if !Named(destination) then e == PathRequired
    else if disk.resolve(destination).None? then e == Unresolved
    else
      var d := disk.resolve(destination).value;
      match e
      case InspectFailed => disk.fails(first)
      case RefusedNonRegular => Quiet(disk.fails, first, 1) && d in files && !files[d].Regular?
      case AlreadyExists => Quiet(disk.fails, first, 1) && d in files && files[d].Regular? && !force
      case CreateFailed =>
        && Quiet(disk.fails, first, 1) && Replaceable(files, d, force)
        && (disk.fails(first + 1) || d.dir !in disk.directories)
      case CloseFailed(i) =>
        && i == index && Installable(disk, destination, force, files)
        && Quiet(disk.fails, first, 2) && disk.fails(first + 2)
      case _ => false
  }

  /** What is behind each error of the first loop. */
  ghost predicate LoopRefused(disk: Disk, specs: seq<OutputSpec>, force: bool, files: Files, first: nat, e: FileError) {
    exists i: nat :: TurnReached(disk, specs, force, files, first, i)
                  && TurnRefused(disk, specs[i].path, force, files, first + 3 * i, i, e)
  }

  ghost predicate TurnReached(disk: Disk, specs: seq<OutputSpec>, force: bool, files: Files, first: nat, i: nat) {
    i < |specs| && Prepared(disk, specs, force, files, first, i)
  }

  /** One turn of the first loop: the checks and the temporary of output number `index`. */
  method PrepareTemp(disk: Disk, destination: Bytes, force: bool, temp: Path, index: nat)
    returns (err: Option<FileError>)
    requires temp !in disk.nodes
    requires disk.resolve(destination).Some? ==> temp.dir == disk.resolve(destination).value.dir
    modifies disk`nodes, disk`seen, disk`calls
    ensures err.None? ==> disk.nodes == old(disk.nodes)[temp := Regular([], PRIVATE)]
    ensures err.Some? ==>
              if err.value.CloseFailed?
              then err == Some(CloseFailed(index)) && disk.nodes == old(disk.nodes)[temp := Regular([], PRIVATE)]
              else err != Some(SecondInstallFailed) && disk.nodes == old(disk.nodes)
    ensures disk.seen == if disk.nodes == old(disk.nodes) then old(disk.seen) else old(disk.seen) + [disk.nodes]
    ensures err.None? ==> disk.calls == old(disk.calls) + 3
    ensures err.None? <==>
              Installable(disk, destination, force, old(disk.nodes)) && Quiet(disk.fails, old(disk.calls), 3)
    ensures err == Some(CloseFailed(index)) <==>
              && Installable(disk, destination, force, old(disk.nodes))
              && Quiet(disk.fails, old(disk.calls), 2) && disk.fails(old(disk.calls) + 2)
    ensures forall e :: err == Some(e) <==>
              TurnRefused(disk, destination, force, old(disk.nodes), old(disk.calls), index, e)
  {
    if destination == [] || destination == Ascii("-") {
      return Some(PathRequired);
    }
    if disk.resolve(destination).None? {
      return Some(Unresolved);
    }
    var absolute := disk.resolve(destination).value;
    var node, failed := disk.Lstat(absolute);
    if failed {
      return Some(InspectFailed);
    }
    if node.Some? {
      if !node.value.Regular? {
        return Some(RefusedNonRegular);
      }
      if !force {
        return Some(AlreadyExists);
      }
    }
    var ok := disk.CreateTemp(temp);
    if !ok {
      return Some(CreateFailed);
    }
    ok := disk.CloseFile();
    if !ok {
      return Some(CloseFailed(index));
    }
    return None;
  }

  /** The deferred removals of the first `n` temporaries, last one first. */
  method RunDeferred(disk: Disk, temps: seq<Path>, n: nat)
    requires n <= |temps|
    modifies disk`nodes, disk`seen
    ensures disk.nodes == old(disk.nodes) - Set(temps[..n])
    ensures old(disk.seen) <= disk.seen
    ensures forall i :: |old(disk.seen)| <= i < |disk.seen| ==>
              disk.seen[i] - Set(temps) == old(disk.nodes) - Set(temps)
  {
    var left := n;
    assert Set(temps[n..n]) == {};
    assert disk.nodes == disk.nodes - {};
    while left > 0
      invariant 0 <= left <= n
      invariant disk.nodes == old(disk.nodes) - Set(temps[left..n])
      invariant old(disk.seen) <= disk.seen
      invariant forall i :: |old(disk.seen)| <= i < |disk.seen| ==>
                  disk.seen[i] - Set(temps) == old(disk.nodes) - Set(temps)
    {
      left := left - 1;
      assert Set(temps[left..n]) == Set(temps[left + 1..n]) + {temps[left]};
      disk.Remove(temps[left]);
    }
    assert temps[0..n] == temps[..n];
  }

  /** os.CreateTemp chose two names, each in the directory of its destination, that are not
      taken, nor destinations, nor equal. */
  ghost predicate PairFresh(disk: Disk, specs: seq<OutputSpec>, temps: seq<Path>)
    requires |specs| == |temps| == 2
    reads disk
  {
    && temps[0] !in disk.nodes && temps[1] !in disk.nodes && temps[0] != temps[1]
    && forall i :: 0 <= i < 2 && disk.resolve(specs[i].path).Some? ==>
         var d := disk.resolve(specs[i].path).value;
         d !in temps && temps[i].dir == d.dir
  }

  /** The destinations, once both paths are known to resolve. */
  function Destinations(resolve: Bytes -> Option<Path>, specs: seq<OutputSpec>): seq<Path>
    requires |specs| == 2 && resolve(specs[0].path).Some? && resolve(specs[1].path).Some?
  {
    [resolve(specs[0].path).value, resolve(specs[1].path).value]
  }

  predicate BothResolve(resolve: Bytes -> Option<Path>, specs: seq<OutputSpec>)
    requires |specs| == 2
  {
    resolve(specs[0].path).Some? && resolve(specs[1].path).Some?
  }

  lemma StillInstallable(disk: Disk, destination: Bytes, force: bool, temps: seq<Path>, n: nat, before: Files)
    requires n < |temps| == 2
    requires disk.resolve(destination).Some? ==> disk.resolve(destination).value !in temps
    ensures Installable(disk, destination, force, WithTemps(before, temps, n))
       <==> Installable(disk, destination, force, before)
    ensures forall first, e :: TurnRefused(disk, destination, force, WithTemps(before, temps, n), first, n, e)
                          <==> TurnRefused(disk, destination, force, before, first, n, e)
  {
  }

  lemma NoTurnYet(disk: Disk, specs: seq<OutputSpec>, force: bool, files: Files, first: nat)
    ensures Prepared(disk, specs, force, files, first, 0)
    ensures Prepared(disk, specs, force, files, first, |specs|) ==>
              forall i: nat :: !CloseFails(disk, specs, force, files, first, i)
  {
    hide Installable;
  }

  /** After `n` good turns the next one decides. */
  lemma NextTurn(disk: Disk, specs: seq<OutputSpec>, force: bool, files: Files, first: nat, n: nat)
    requires n < |specs| && Prepared(disk, specs, force, files, first, n)
    ensures Prepared(disk, specs, force, files, first, n + 1)
       <==> Installable(disk, specs[n].path, force, files) && Quiet(disk.fails, first + 3 * n, 3)
    ensures Prepared(disk, specs, force, files, first, |specs|) ==>
              Prepared(disk, specs, force, files, first, n + 1)
    ensures CloseFails(disk, specs, force, files, first, n)
       <==> (&& Installable(disk, specs[n].path, force, files)
             && Quiet(disk.fails, first + 3 * n, 2) && disk.fails(first + 3 * n + 2))
    ensures forall i: nat :: CloseFails(disk, specs, force, files, first, i) ==>
              n <= i < |specs| && (i > n ==> Prepared(disk, specs, force, files, first, n + 1))
  {
    hide Installable;
  }

  /** A turn that does not pass decides the error. */
  lemma TurnDecides(disk: Disk, specs: seq<OutputSpec>, force: bool, files: Files, first: nat, n: nat)
    requires n < |specs| && Prepared(disk, specs, force, files, first, n)
    requires !Prepared(disk, specs, force, files, first, n + 1)
    ensures forall e :: LoopRefused(disk, specs, force, files, first, e)
                   <==> TurnRefused(disk, specs[n].path, force, files, first + 3 * n, n, e)
  {
    hide TurnRefused;
    forall i: nat | TurnReached(disk, specs, force, files, first, i) ensures i <= n {
      if i > n {
        assert forall j :: 0 <= j < n + 1 ==>
            Installable(disk, specs[j].path, force, files) && Quiet(disk.fails, first + 3 * j, 3);
      }
    }
    forall e
      ensures LoopRefused(disk, specs, force, files, first, e)
         <==> TurnRefused(disk, specs[n].path, force, files, first + 3 * n, n, e)
    {
      forall i: nat | TurnReached(disk, specs, force, files, first, i) && i < n
        ensures !TurnRefused(disk, specs[i].path, force, files, first + 3 * i, i, e)
      {
        PassedTurn(disk, specs, force, files, first, i, e);
      }
      assert TurnReached(disk, specs, force, files, first, n);
    }
  }

  lemma PassedTurn(disk: Disk, specs: seq<OutputSpec>, force: bool, files: Files, first: nat, i: nat, e: FileError)
    requires i < |specs|
    requires Installable(disk, specs[i].path, force, files) && Quiet(disk.fails, first + 3 * i, 3)
    ensures !TurnRefused(disk, specs[i].path, force, files, first + 3 * i, i, e)
  {
  }

  lemma NoTurnRefused(disk: Disk, specs: seq<OutputSpec>, force: bool, files: Files, first: nat, e: FileError)
    requires Prepared(disk, specs, force, files, first, |specs|)
    ensures !LoopRefused(disk, specs, force, files, first, e)
  {
    hide TurnRefused;
    forall i: nat | i < |specs| ensures !TurnRefused(disk, specs[i].path, force, files, first + 3 * i, i, e) {
      PassedTurn(disk, specs, force, files, first, i, e);
    }
  }

  /** The loop that creates both temporaries; a failed close leaves its temporary behind. */
  method PrepareTemps(disk: Disk, specs: seq<OutputSpec>, force: bool, temps: seq<Path>)
    returns (err: Option<FileError>)
    requires |specs| == |temps| == 2 && PairFresh(disk, specs, temps)
    modifies disk`nodes, disk`seen, disk`calls
    ensures err.None? ==> disk.nodes == WithTemps(old(disk.nodes), temps, 2)
    ensures err.Some? ==>
              if err.value.CloseFailed?
              then err.value.index < 2 && disk.nodes == old(disk.nodes)[temps[err.value.index] := Regular([], PRIVATE)]
              else err != Some(SecondInstallFailed) && disk.nodes == old(disk.nodes)
    ensures old(disk.seen) <= disk.seen
    ensures forall i :: |old(disk.seen)| <= i < |disk.seen| ==> disk.seen[i] - Set(temps) == old(disk.nodes)
    ensures err.None? ==> disk.calls == old(disk.calls) + 6
    ensures err.None? <==> Prepared(disk, specs, force, old(disk.nodes), old(disk.calls), 2)
    ensures forall i: nat :: err == Some(CloseFailed(i)) <==>
              CloseFails(disk, specs, force, old(disk.nodes), old(disk.calls), i)
    ensures forall e :: err == Some(e) <==> LoopRefused(disk, specs, force, old(disk.nodes), old(disk.calls), e)
  {
    hide Installable, Quiet, Prepared, CloseFails, LoopRefused, TurnRefused;
    ghost var before, first := disk.nodes, disk.calls;
    NoTurnYet(disk, specs, force, before, first);
    assert before - Set(temps) == before;
    var index := 0;
    while index < 2
      invariant index <= 2
      invariant disk.nodes == WithTemps(before, temps, index)
      invariant index < 2 ==> temps[index] !in disk.nodes
      invariant disk.calls == old(disk.calls) + 3 * index
      invariant Prepared(disk, specs, force, before, old(disk.calls), index)
      invariant disk.nodes - Set(temps) == before
      invariant disk.nodes - Set(temps[..index]) == before
      invariant old(disk.seen) <= disk.seen
      invariant forall i :: |old(disk.seen)| <= i < |disk.seen| ==> disk.seen[i] - Set(temps) == before
    {
      NextTurn(disk, specs, force, before, first, index);
      StillInstallable(disk, specs[index].path, force, temps, index, before);
      err := PrepareTemp(disk, specs[index].path, force, temps[index], index);
      assert disk.nodes - Set(temps) == before;
      if err.Some? {
        TurnDecides(disk, specs, force, before, first, index);
        assert disk.nodes - Set(temps[..index])
            == if err.value.CloseFailed? then before[temps[index] := Regular([], PRIVATE)] else before;
        RunDeferred(disk, temps, index);
        return;
      }
      index := index + 1;
      assert temps[..index] == temps[..index - 1] + [temps[index - 1]];
      assert disk.nodes - Set(temps[..index]) == before;
    }
    forall e ensures !LoopRefused(disk, specs, force, before, first, e) {
      NoTurnRefused(disk, specs, force, before, first, e);
    }
    err := None;
  }

  /** The second loop: both temporaries get their final modes. */
  method ChmodTemps(disk: Disk, specs: seq<OutputSpec>, temps: seq<Path>) returns (ok: bool)
    requires |specs| == |temps| == 2 && temps[0] != temps[1]
    modifies disk`nodes, disk`seen, disk`calls
    ensures disk.nodes - Set(temps) == old(disk.nodes) - Set(temps)
    ensures ok ==> forall i :: 0 <= i < 2 ==>
              && temps[i] in old(disk.nodes) && old(disk.nodes)[temps[i]].Regular?
              && temps[i] in disk.nodes
              && disk.nodes[temps[i]] == Regular(old(disk.nodes)[temps[i]].content, specs[i].mode)
    ensures old(disk.seen) <= disk.seen
    ensures forall i :: |old(disk.seen)| <= i < |disk.seen| ==>
              disk.seen[i] - Set(temps) == old(disk.nodes) - Set(temps)
    ensures ok ==> disk.calls == old(disk.calls) + 2
    ensures ok <==>
              && (forall i :: 0 <= i < 2 ==> temps[i] in old(disk.nodes) && old(disk.nodes)[temps[i]].Regular?)
              && Quiet(disk.fails, old(disk.calls), 2)
  {
    ghost var before := disk.nodes;
    var index := 0;
    while index < 2
      invariant index <= 2
      invariant disk.nodes - Set(temps) == before - Set(temps)
      invariant disk.calls == old(disk.calls) + index && Quiet(disk.fails, old(disk.calls), index)
      invariant forall i :: 0 <= i < index ==>
                  && temps[i] in before && before[temps[i]].Regular? && temps[i] in disk.nodes
                  && disk.nodes[temps[i]] == Regular(before[temps[i]].content, specs[i].mode)
      invariant forall i :: index <= i < 2 ==>
                  (temps[i] in disk.nodes <==> temps[i] in before)
                  && (temps[i] in before ==> disk.nodes[temps[i]] == before[temps[i]])
      invariant old(disk.seen) <= disk.seen
      invariant forall i :: |old(disk.seen)| <= i < |disk.seen| ==> disk.seen[i] - Set(temps) == before - Set(temps)
    {
      ok := disk.Chmod(temps[index], specs[index].mode);
      assert disk.nodes - Set(temps) == before - Set(temps);
      if !ok {
        return;
      }
      index := index + 1;
    }
    ok := true;
  }

  /** Both renames and the roll-back of the first, before the deferred removals. */
  method InstallPair(disk: Disk, destinations: seq<Path>, temps: seq<Path>, force: bool,
                     ghost before: Files, ghost states: PairStates)
    returns (err: Option<FileError>)
    requires |destinations| == |temps| == 2 && temps[0] != temps[1]
    requires destinations[0] !in temps && destinations[1] !in temps
    requires disk.nodes - Set(temps) == before
    requires temps[0] in disk.nodes && temps[1] in disk.nodes
    requires disk.nodes[temps[0]].Regular? && disk.nodes[temps[1]].Regular?
    requires states.first == before[destinations[0] := disk.nodes[temps[0]]]
    requires states.both == states.first[destinations[1] := disk.nodes[temps[1]]]
    requires Replaceable(before, destinations[0], force) && Replaceable(before, destinations[1], force)
    modifies disk`nodes, disk`seen, disk`calls
    ensures disk.nodes - Set(temps)
         == if err.None? then states.both
            else if err == Some(SecondInstallFailed) && force then states.first
            else before
    ensures err.None? <==> Quiet(disk.fails, old(disk.calls), 2)
    ensures err == Some(SecondInstallFailed) <==> !disk.fails(old(disk.calls)) && disk.fails(old(disk.calls) + 1)
    ensures err == Some(InstallFailed) <==> disk.fails(old(disk.calls))
    ensures err.Some? ==> err.value.InstallFailed? || err.value.SecondInstallFailed?
    ensures old(disk.seen) <= disk.seen
    ensures forall i :: |old(disk.seen)| <= i < |disk.seen| ==> Shown(disk.seen[i], temps, before, Some(states))
  {
    var ok := disk.Rename(temps[0], destinations[0]);
    if !ok {
      return Some(InstallFailed);
    }
    assert disk.nodes - Set(temps) == states.first;
    ok := disk.Rename(temps[1], destinations[1]);
    if !ok {
      if !force {
        disk.Remove(destinations[0]);
        assert disk.nodes - Set(temps) == before;
      }
      return Some(SecondInstallFailed);
    }
    assert disk.nodes - Set(temps) == states.both;
    return None;
  }

  /** Everything after the temporaries exist, up to the deferred removals. */
  method FillPair(disk: Disk, specs: seq<OutputSpec>, destinations: seq<Path>, force: bool, callback: Callback,
                  temps: seq<Path>, ghost before: Files)
    returns (err: Option<FileError>)
    requires |specs| == |destinations| == |temps| == 2 && temps[0] != temps[1]
    requires destinations[0] !in temps && destinations[1] !in temps
    requires temps[0] !in before && temps[1] !in before
    requires disk.nodes == WithTemps(before, temps, 2)
    requires Replaceable(before, destinations[0], force) && Replaceable(before, destinations[1], force)
    modifies disk`nodes, disk`seen, disk`calls
    ensures var states := PairInstalled(before, temps, destinations, specs, callback);
            && (err.None? || err == Some(SecondInstallFailed) ==> states.Some?)
            && disk.nodes - Set(temps)
            == (if err.None? then states.value.both
                else if err == Some(SecondInstallFailed) && force then states.value.first
                else before)
            && forall i :: |old(disk.seen)| <= i < |disk.seen| ==> Shown(disk.seen[i], temps, before, states)
    ensures err.Some? ==>
              err.value in {CallbackFailed, ChmodFailed, InstallFailed, SecondInstallFailed}
    ensures err == Some(CallbackFailed) <==> !callback.ok
    ensures err == Some(ChmodFailed) <==>
              && callback.ok
              && (|| PairInstalled(before, temps, destinations, specs, callback).None?
                  || !Quiet(disk.fails, old(disk.calls), 2))
    ensures err == Some(InstallFailed) <==>
              && PairInstalled(before, temps, destinations, specs, callback).Some?
              && Quiet(disk.fails, old(disk.calls), 2) && disk.fails(old(disk.calls) + 2)
    ensures err == Some(SecondInstallFailed) <==>
              && PairInstalled(before, temps, destinations, specs, callback).Some?
              && Quiet(disk.fails, old(disk.calls), 3) && disk.fails(old(disk.calls) + 3)
    ensures err.None? <==>
              PairInstalled(before, temps, destinations, specs, callback).Some? && Quiet(disk.fails, old(disk.calls), 4)
    ensures old(disk.seen) <= disk.seen
  {
    hide Apply;
    TempsApart(before, temps);
    var ok := disk.RunCallback(temps, callback);
    ApplyStaysInTemps(WithTemps(before, temps, 2), temps, callback.script, |callback.script|);
    if !ok {
      return Some(CallbackFailed);
    }
    ok := ChmodTemps(disk, specs, temps);
    if !ok {
      return Some(ChmodFailed);
    }
    ghost var states := PairInstalled(before, temps, destinations, specs, callback).value;
    err := InstallPair(disk, destinations, temps, force, before, states);
  }

  /** The states that the two renames lead to, if both paths resolve and the callback does
      its work. */
  function Planned(disk: Disk, files: Files, specs: seq<OutputSpec>, callback: Callback, temps: seq<Path>)
    : Option<PairStates>
    requires |specs| == |temps| == 2
  {
    if BothResolve(disk.resolve, specs)
    then PairInstalled(files, temps, Destinations(disk.resolve, specs), specs, callback)
    else None
  }

  /** All goes well until the second rename, which fails. */
  ghost predicate SecondRenameFails(disk: Disk, specs: seq<OutputSpec>, force: bool, callback: Callback,
                                    temps: seq<Path>, files: Files, first: nat)
    requires |specs| == |temps| == 2
  {
    && Prepared(disk, specs, force, files, first, 2)
    && Planned(disk, files, specs, callback, temps).Some?
    && Quiet(disk.fails, first + 6, 3) && disk.fails(first + 9)
  }

  /** What is behind each error of AtomicPair. */
  ghost predicate PairRefused(disk: Disk, specs: seq<OutputSpec>, force: bool, callback: Callback, temps: seq<Path>,
                              files: Files, first: nat, e: FileError)
    requires |specs| == |temps| == 2
  {
    || LoopRefused(disk, specs, force, files, first, e)
    || (&& Prepared(disk, specs, force, files, first, 2)
        && var planned := Planned(disk, files, specs, callback, temps);
           match e
           case CallbackFailed => !callback.ok
           case ChmodFailed => callback.ok && (planned.None? || !Quiet(disk.fails, first + 6, 2))
           case InstallFailed => planned.Some? && Quiet(disk.fails, first + 6, 2) && disk.fails(first + 8)
           case SecondInstallFailed => planned.Some? && Quiet(disk.fails, first + 6, 3) && disk.fails(first + 9)
           case _ => false)
  }

  /** What is known once the first loop has passed. */
  lemma AfterTheLoop(disk: Disk, specs: seq<OutputSpec>, force: bool, files: Files, first: nat)
    requires |specs| == 2 && Prepared(disk, specs, force, files, first, 2)
    ensures BothResolve(disk.resolve, specs)
    ensures Replaceable(files, disk.resolve(specs[0].path).value, force)
    ensures Replaceable(files, disk.resolve(specs[1].path).value, force)
    ensures forall e :: !LoopRefused(disk, specs, force, files, first, e)
    ensures forall i: nat :: !CloseFails(disk, specs, force, files, first, i)
  {
    hide LoopRefused;
    forall e ensures !LoopRefused(disk, specs, force, files, first, e) {
      NoTurnRefused(disk, specs, force, files, first, e);
    }
    NoTurnYet(disk, specs, force, files, first);
    assert Installable(disk, specs[0].path, force, files) && Installable(disk, specs[1].path, force, files);
  }

  /** Success installs both outputs, and happens exactly when the checks pass, the callback
      leaves two regular files and none of the ten system calls fails. An error leaves the
      file system as it was, but for two cases, each given by the call that fails: a
      temporary whose close fails is left behind, and with force a failing second rename
      leaves the first output new. At every moment, apart from the temporaries, the disk
      shows nothing new, or the first output, or both. Of two outputs at one place the
      second wins: both are there after a success exactly when the places differ or the
      outputs are equal. */
  method AtomicPair(disk: Disk, first: OutputSpec, second: OutputSpec, force: bool, callback: Callback,
                    temps: seq<Path>)
    returns (err: Option<FileError>)
    requires |temps| == 2 && PairFresh(disk, [first, second], temps)
    modifies disk`nodes, disk`seen, disk`calls
    ensures err.None? <==>
              && Prepared(disk, [first, second], force, old(disk.nodes), old(disk.calls), 2)
              && Planned(disk, old(disk.nodes), [first, second], callback, temps).Some?
              && Quiet(disk.fails, old(disk.calls) + 6, 4)
    ensures err.None? ==> disk.nodes == Planned(disk, old(disk.nodes), [first, second], callback, temps).value.both
    ensures err.None? ==>
              (BothThere(disk.nodes, old(disk.nodes), temps, Destinations(disk.resolve, [first, second]),
                         [first, second], callback)
               <==> (|| disk.resolve(first.path) != disk.resolve(second.path)
                     || Output(old(disk.nodes), temps, [first, second], callback, 0)
                     == Output(old(disk.nodes), temps, [first, second], callback, 1)))
    ensures forall i: nat :: err == Some(CloseFailed(i)) <==>
              CloseFails(disk, [first, second], force, old(disk.nodes), old(disk.calls), i)
    ensures err == Some(SecondInstallFailed) <==>
              SecondRenameFails(disk, [first, second], force, callback, temps, old(disk.nodes), old(disk.calls))
    ensures forall e :: err == Some(e) <==>
              PairRefused(disk, [first, second], force, callback, temps, old(disk.nodes), old(disk.calls), e)
    ensures err.Some? ==>
              match err.value
              case CloseFailed(i) => i < 2 && disk.nodes == old(disk.nodes)[temps[i] := Regular([], PRIVATE)]
              case SecondInstallFailed =>
                disk.nodes == if force then Planned(disk, old(disk.nodes), [first, second], callback, temps).value.first
                              else old(disk.nodes)
              case _ => disk.nodes == old(disk.nodes)
    ensures err.Some? && disk.nodes != old(disk.nodes) ==>
              || (exists i :: CloseFails(disk, [first, second], force, old(disk.nodes), old(disk.calls), i))
              || (&& force
                  && SecondRenameFails(disk, [first, second], true, callback, temps, old(disk.nodes), old(disk.calls)))
    ensures old(disk.seen) <= disk.seen
    ensures forall i :: |old(disk.seen)| <= i < |disk.seen| ==>
              Shown(disk.seen[i], temps, old(disk.nodes),
                    Planned(disk, old(disk.nodes), [first, second], callback, temps))
  {
    hide Quiet, LoopRefused, CloseFails, Prepared, Output, Replaceable, PairInstalled;
    var specs := [first, second];
    err := PrepareTemps(disk, specs, force, temps);
    if err.Some? {
      return;
    }
    AfterTheLoop(disk, specs, force, old(disk.nodes), old(disk.calls));
    var destinations := Destinations(disk.resolve, specs);
    err := FillPair(disk, specs, destinations, force, callback, temps, old(disk.nodes));
    assert temps[..2] == temps;
    RunDeferred(disk, temps, 2);
    if err.None? {
      BothInstalledIff(old(disk.nodes), temps, destinations, specs, callback);
    }
  }

  /** Two spellings of one place, on a disk where nothing fails: AtomicPair reports success
      and the first output is gone. */
  method FirstOutputLost(place: Path, first: OutputSpec, second: OutputSpec, force: bool,
                         contents: seq<Bytes>, temps: seq<Path>)
    returns (err: Option<FileError>, files: Files)
    requires |contents| == |temps| == 2
    requires Named(first.path) && Named(second.path) && first.path != second.path
    requires temps[0] != temps[1] && place !in temps && temps[0].dir == temps[1].dir == place.dir
    ensures err.None? && files == map[place := Regular(contents[1], second.mode)]
    ensures Regular(contents[0], first.mode) != Regular(contents[1], second.mode) ==>
              Regular(contents[0], first.mode) !in files.Values
  {
    var disk := new Disk(map[], _ => false, {place.dir}, _ => Some(place));
    var script := [Put(0, contents[0], PRIVATE), Put(1, contents[1], PRIVATE)];
    BothWritten(temps, contents);
    err := AtomicPair(disk, first, second, force, Callback(script, true), temps);
    files := disk.nodes;
  }

  /** A disk on which only the close of output number `i` fails: its temporary is left. */
  method TemporaryLeft(places: seq<Path>, first: OutputSpec, second: OutputSpec, force: bool, callback: Callback,
                       temps: seq<Path>, i: nat)
    returns (err: Option<FileError>, files: Files)
    requires |places| == |temps| == 2 && i < 2
    requires Named(first.path) && Named(second.path) && first.path != second.path
    requires temps[0] != temps[1] && temps[0].dir == places[0].dir && temps[1].dir == places[1].dir
    requires places[0] !in temps && places[1] !in temps
    ensures err == Some(CloseFailed(i)) && files == map[temps[i] := Regular([], PRIVATE)]
  {
    var disk := new Disk(map[], n => n == 3 * i + 2, {places[0].dir, places[1].dir},
                         path => Some(if path == first.path then places[0] else places[1]));
    err := AtomicPair(disk, first, second, force, callback, temps);
    assert CloseFails(disk, [first, second], force, map[], 0, i);
    files := disk.nodes;
  }

  /** A disk on which only the second rename fails: with force the first output is left. */
  method FirstOutputLeft(places: seq<Path>, first: OutputSpec, second: OutputSpec, contents: seq<Bytes>,
                         temps: seq<Path>)
    returns (err: Option<FileError>, files: Files)
    requires |places| == |contents| == |temps| == 2
    requires Named(first.path) && Named(second.path) && first.path != second.path
    requires temps[0] != temps[1] && temps[0].dir == places[0].dir && temps[1].dir == places[1].dir
    requires places[0] !in temps && places[1] !in temps
    ensures err == Some(SecondInstallFailed) && files == map[places[0] := Regular(contents[0], first.mode)]
  {
    var disk := new Disk(map[], n => n == 9, {places[0].dir, places[1].dir},
                         path => Some(if path == first.path then places[0] else places[1]));
    var script := [Put(0, contents[0], PRIVATE), Put(1, contents[1], PRIVATE)];
    BothWritten(temps, contents);
    err := AtomicPair(disk, first, second, true, Callback(script, true), temps);
    assert SecondRenameFails(disk, [first, second], true, Callback(script, true), temps, map[], 0);
    files := disk.nodes;
  }

  lemma {:induction false} BothWritten(temps: seq<Path>, contents: seq<Bytes>)
    requires |temps| == |contents| == 2 && temps[0] != temps[1]
    ensures var script := [Put(0, contents[0], PRIVATE), Put(1, contents[1], PRIVATE)];
            Written(WithTemps(map[], temps, 2), temps, Callback(script, true))
            == map[temps[0] := Regular(contents[0], PRIVATE), temps[1] := Regular(contents[1], PRIVATE)]
  {
    var script := [Put(0, contents[0], PRIVATE), Put(1, contents[1], PRIVATE)];
    var start := WithTemps(map[], temps, 2);
    assert WithTemps(map[], temps, 1) == map[temps[0] := Regular([], PRIVATE)];
    assert start == map[temps[0] := Regular([], PRIVATE), temps[1] := Regular([], PRIVATE)];
    assert Apply(start, temps, script, 0) == start;
    assert Apply(start, temps, script, 1) == start[temps[0] := Regular(contents[0], PRIVATE)];
    assert Apply(start, temps, script, 2) == Apply(start, temps, script, 1)[temps[1] := Regular(contents[1], PRIVATE)];
  }
}
