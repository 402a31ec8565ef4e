/** `processes` and `modules` of vmi-os-linux.  Names
    are kept as bytes up to the first NUL. */
module LinuxLists {
  import opened Words
  import opened VmiTypes
  import opened Guest
  import opened RingLists

  datatype TaskOffsets = TaskOffsets(tasks: u64, pid: u64, comm: u64, commLength: nat)

  datatype Process = Process(task: u64, pid: nat, command: seq<byte>)

  datatype ModuleOffsets = ModuleOffsets(list: u64, name: u64, nameLength: nat, coreBase: u64, coreSize: u64)

  datatype Module = Module(address: u64, name: seq<byte>, coreBase: u64, coreSize: u64)

  const TASK_LOOP := VmiError.Backend("Linux task list looped at unexpected task")
  const MODULE_LOOP := VmiError.Backend("Linux module list looped at unexpected node")
  const TASK_LIMIT := VmiError.Backend("Linux task list exceeded limit")
  const MODULE_LIMIT := VmiError.Backend("Linux module list exceeded limit")
  const BAD_ARGUMENTS := VmiError.Backend("invalid Linux traversal limit or name length")
  const BAD_POINTER := VmiError.Backend("invalid Linux list pointer")

  function CString(b: seq<byte>): seq<byte> {
    if b == [] || b[0] == 0 then [] else [b[0]] + CString(b[1..])
  }

  /** The bytes before the first zero, or all of them. */
  lemma {:induction false} CStringExact(b: seq<byte>, name: seq<byte>)
    ensures CString(b) == name <==> name <= b && 0 !in name && (|name| < |b| ==> b[|name|] == 0)
  {
    if b != [] && b[0] != 0 {
      if name != [] {
        CStringExact(b[1..], name[1..]);
        assert name == [name[0]] + name[1..] && b == [b[0]] + b[1..];
      }
    }
  }

  function Including<T>(s: set<T>, x: T): set<T> { s + {x} }

  // ---------- one entry ----------

  ghost function ReadProcess(g: Space, o: TaskOffsets, task: u64): Result<Process>
    requires g.Valid()
  {
    var pidAddress :- Add(task, o.pid);
    var pid :- g.U32(pidAddress);
    var commAddress :- Add(task, o.comm);
    var b :- g.Bytes(commAddress, o.commLength);
    Ok(Process(task, pid, CString(b)))
  }

  ghost function ReadModule(g: Space, o: ModuleOffsets, address: u64): Result<Module>
    requires g.Valid()
  {
    var nameAddress :- Add(address, o.name);
    var b :- g.Bytes(nameAddress, o.nameLength);
    var baseAddress :- Add(address, o.coreBase);
    var coreBase :- g.U64(baseAddress);
    var sizeAddress :- Add(address, o.coreSize);
    var coreSize :- g.U64(sizeAddress);
    Ok(Module(address, CString(b), coreBase, coreSize))
  }

  /** What is listed is what memory holds at the offsets: the name before its first
      zero byte, the others in little-endian bytes. */
  ghost predicate HoldsName(g: Space, a: nat, length: nat, name: seq<byte>)
    requires g.Valid()
  {
    && a < U64_LIMIT && g.Bytes(a, length).Ok?
    && var b := g.Bytes(a, length).value;
       name <= b && 0 !in name && (|name| < |b| ==> b[|name|] == 0)
  }

  ghost predicate HoldsNumber(g: Space, a: nat, width: nat, x: nat)
    requires g.Valid()
  {
    a < U64_LIMIT && g.Bytes(a, width) == Ok(ToLe(x, width))
  }

  lemma ProcessExact(g: Space, o: TaskOffsets, task: u64, p: Process)
    requires g.Valid() && p.pid < 0x1_0000_0000
    ensures ReadProcess(g, o, task) == Ok(p) <==>
      && p.task == task && HoldsNumber(g, task + o.pid, 4, p.pid)
      && HoldsName(g, task + o.comm, o.commLength, p.command)
  {
    hide Space.Bytes, Space.U32, CString, ToLe;
    if task + o.pid < U64_LIMIT { WordsExact(g, task + o.pid, 0, p.pid); }
    if task + o.comm < U64_LIMIT && g.Bytes(task + o.comm, o.commLength).Ok? {
      CStringExact(g.Bytes(task + o.comm, o.commLength).value, p.command);
    }
  }

  lemma ModuleExact(g: Space, o: ModuleOffsets, address: u64, m: Module)
    requires g.Valid()
    ensures ReadModule(g, o, address) == Ok(m) <==>
      && m.address == address && HoldsName(g, address + o.name, o.nameLength, m.name)
      && HoldsNumber(g, address + o.coreBase, 8, m.coreBase) && HoldsNumber(g, address + o.coreSize, 8, m.coreSize)
  {
    hide Space.Bytes, Space.U64, CString, ToLe;
    if address + o.name < U64_LIMIT && g.Bytes(address + o.name, o.nameLength).Ok? {
      CStringExact(g.Bytes(address + o.name, o.nameLength).value, m.name);
    }
    if address + o.coreBase < U64_LIMIT { WordsExact(g, address + o.coreBase, m.coreBase, 0); }
    if address + o.coreSize < U64_LIMIT { WordsExact(g, address + o.coreSize, m.coreSize, 0); }
  }

  method ReadProcessAt(reader: Reader, o: TaskOffsets, task: u64) returns (r: Result<Process>)
    requires reader.Valid()
    modifies reader.session.translations
    ensures reader.Valid() && reader.Sees() == old(reader.Sees())
    ensures r == ReadProcess(reader.Sees(), o, task)
  {
    hide Space.Bytes, Space.U32, Reader.Valid;
    var pidAddress :- Add(task, o.pid);
    var pid :- reader.ReadU32(pidAddress);
    var commAddress :- Add(task, o.comm);
    var b :- reader.ReadBytes(commAddress, o.commLength);
    return Ok(Process(task, pid, CString(b)));
  }

  method ReadModuleAt(reader: Reader, o: ModuleOffsets, address: u64) returns (r: Result<Module>)
    requires reader.Valid()
    modifies reader.session.translations
    ensures reader.Valid() && reader.Sees() == old(reader.Sees())
    ensures r == ReadModule(reader.Sees(), o, address)
  {
    hide Space.Bytes, Space.U64, Reader.Valid;
    var nameAddress :- Add(address, o.name);
    var b :- reader.ReadBytes(nameAddress, o.nameLength);
    var baseAddress :- Add(address, o.coreBase);
    var coreBase :- reader.ReadU64(baseAddress);
    var sizeAddress :- Add(address, o.coreSize);
    var coreSize :- reader.ReadU64(sizeAddress);
    return Ok(Module(address, CString(b), coreBase, coreSize));
  }

  // ---------- modules ----------

  /** The traversal without cycle detection: the limit alone ends it. */
  ghost function ModulesFrom(g: Space, o: ModuleOffsets, head: u64, node: u64, limit: nat, done: seq<Module>):
    Result<seq<Module>>
    requires g.Valid() && (node != head ==> |done| < limit)
    decreases limit - |done|, node != head
  {
    if node == head then Ok(done)
    else if node < o.list then Err(BAD_POINTER)
    else
      var m :- ReadModule(g, o, node - o.list);
      var next :- g.U64(node);
      if next == head then Ok(done + [m])
      else if |done| + 1 >= limit then Err(MODULE_LIMIT)
      else ModulesFrom(g, o, head, next, limit, done + [m])
  }

  /** The list from `node` back to the head consists of exactly `modules`. */
  ghost predicate ModuleRing(g: Space, o: ModuleOffsets, head: u64, node: u64, modules: seq<Module>)
    requires g.Valid()
    decreases |modules|
  {
    if modules == [] then node == head
    else
      && node != head && o.list <= node
      && ReadModule(g, o, node - o.list) == Ok(modules[0])
      && g.U64(node).Ok? && ModuleRing(g, o, head, g.U64(node).value, modules[1..])
  }

  lemma {:induction false} RingReturns(g: Space, o: ModuleOffsets, head: u64, node: u64, modules: seq<Module>)
    requires g.Valid() && ModuleRing(g, o, head, node, modules)
    ensures Returns(g, 0, head, node, |modules|)
    ensures forall i | 0 <= i < |modules| ::
      modules[i].address + o.list == Nodes(g, 0, head, node, |modules|)[i]
    decreases |modules|
  {
    hide Space.U64, Space.Bytes;
    if modules != [] { RingReturns(g, o, head, g.U64(node).value, modules[1..]); }
  }

  /** Reading succeeds exactly when the next-pointers come back to the head within
      the limit and every entry is readable, and lists the entries in ring order. */
  lemma {:induction false} ModulesFromExact(
    g: Space, o: ModuleOffsets, head: u64, node: u64, limit: nat, done: seq<Module>, modules: seq<Module>)
    requires g.Valid() && (node != head ==> |done| < limit)
    ensures ModulesFrom(g, o, head, node, limit, done) == Ok(done + modules) <==>
      ModuleRing(g, o, head, node, modules) && (modules == [] || |done + modules| <= limit)
    decreases limit - |done|, node != head
  {
    hide Space.U64, ReadModule;
    if node == head {
      assert done + modules == done <==> modules == [];
    } else if o.list <= node && ReadModule(g, o, node - o.list).Ok? && g.U64(node).Ok? {
      var m, next := ReadModule(g, o, node - o.list).value, g.U64(node).value;
      if modules != [] && modules[0] == m {
        assert done + [m] + modules[1..] == done + modules;
        if next == head || |done| + 1 < limit { ModulesFromExact(g, o, head, next, limit, done + [m], modules[1..]); }
      } else {
        ModulesFromExtends(g, o, head, node, limit, done);
        var r := ModulesFrom(g, o, head, node, limit, done);
        if r.Ok? && modules != [] {
          assert (done + [m])[|done|] == r.value[|done|];
          assert (done + modules)[|done|] == modules[0];
        }
      }
    }
  }

  lemma {:induction false} ModulesFromExtends(
    g: Space, o: ModuleOffsets, head: u64, node: u64, limit: nat, done: seq<Module>)
    requires g.Valid() && (node != head ==> |done| < limit)
    requires node != head && o.list <= node && ReadModule(g, o, node - o.list).Ok?
    ensures var r := ModulesFrom(g, o, head, node, limit, done);
      r.Ok? ==> done + [ReadModule(g, o, node - o.list).value] <= r.value
    decreases limit - |done|
  {
    hide Space.U64, ReadModule;
    if g.U64(node).Ok? {
      var m, next := ReadModule(g, o, node - o.list).value, g.U64(node).value;
      if next != head && |done| + 1 < limit && o.list <= next && ReadModule(g, o, next - o.list).Ok? {
        ModulesFromExtends(g, o, head, next, limit, done + [m]);
      }
    }
  }

  method Modules(reader: Reader, symbol: Result<u64>, o: ModuleOffsets, limit: nat) returns (r: Result<seq<Module>>)
    requires reader.Valid()
    modifies reader.session.translations
    ensures reader.Valid() && reader.Sees() == old(reader.Sees())
    ensures r.Ok? <==> ModulesSpec(reader.Sees(), symbol, o, limit).Ok?
    ensures r.Ok? ==> r == ModulesSpec(reader.Sees(), symbol, o, limit)
    ensures r == ModulesSpec(reader.Sees(), symbol, o, limit) || r == Err(MODULE_LOOP)
  {
    hide Space.U64, Space.Bytes, ReadModule, Reader.Valid, Returns, Trail;
    if limit == 0 || o.nameLength == 0 || o.nameLength > 4096 { return Err(BAD_ARGUMENTS); }
    var head: u64 :- symbol;
    ghost var g := reader.Sees();
    assert g.Valid() by { SeesValid(reader); }
    var node: u64 :- reader.ReadU64(head);
    ghost var first := node;
    var seen: set<u64>, output: seq<Module> := {}, [];
    ghost var visited: seq<u64> := [];
    EmptyTrail(g, head, node);
    while node != head
      invariant reader.Valid() && reader.Sees() == g
      invariant node != head ==> |output| < limit
      invariant ModulesFrom(g, o, head, node, limit, output) == ModulesFrom(g, o, head, first, limit, [])
      invariant seen == (set x | x in visited) && Trail(g, 0, head, visited, node)
      decreases limit - |output|
    {
      if node in seen {
        ModulesLoop(g, o, head, visited, node, limit, output);
        return Err(MODULE_LOOP);
      }
      seen := Including(seen, node);
      if node < o.list { return Err(BAD_POINTER); }
      var m :- ReadModuleAt(reader, o, node - o.list);
      output := output + [m];
      var next: u64 :- reader.ReadU64(node);
      ExtendTrail(g, 0, head, visited, node);
      visited := visited + [node];
      node := next;
      if node != head && |output| >= limit { return Err(MODULE_LIMIT); }
    }
    return Ok(output);
  }

  /** `modules` with only the limit to stop it. */
  ghost function ModulesSpec(g: Space, symbol: Result<u64>, o: ModuleOffsets, limit: nat): Result<seq<Module>>
    requires g.Valid()
  {
    if limit == 0 || o.nameLength == 0 || o.nameLength > 4096 then Err(BAD_ARGUMENTS)
    else
      var head :- symbol;
      var first :- g.U64(head);
      ModulesFrom(g, o, head, first, limit, [])
  }

  lemma SeesValid(reader: Reader)
    requires reader.Valid()
    ensures reader.Sees().Valid()
  {
  }

  lemma EmptyTrail(g: Space, head: u64, node: u64)
    requires g.Valid()
    ensures Trail(g, 0, head, [], node)
  {
  }

  lemma ModulesLoop(g: Space, o: ModuleOffsets, head: u64, visited: seq<u64>, node: u64, limit: nat, done: seq<Module>)
    requires g.Valid() && Trail(g, 0, head, visited, node) && node in visited && |done| < limit && node != head
    ensures ModulesFrom(g, o, head, node, limit, done).Err?
  {
    hide Space.U64, ReadModule, Returns, Trail;
    var r := ModulesFrom(g, o, head, node, limit, done);
    if r.Ok? {
      ModulesPrefix(g, o, head, node, limit, done);
      var modules := r.value[|done|..];
      assert r.value == done + modules;
      ModulesFromExact(g, o, head, node, limit, done, modules);
      RingReturns(g, o, head, node, modules);
      RevisitNeverReturns(g, 0, head, visited, node, |modules|);
    }
  }

  lemma {:induction false} ModulesPrefix(g: Space, o: ModuleOffsets, head: u64, node: u64, limit: nat, done: seq<Module>)
    requires g.Valid() && (node != head ==> |done| < limit)
    ensures var r := ModulesFrom(g, o, head, node, limit, done); r.Ok? ==> done <= r.value
  {
    hide Space.U64, ReadModule;
    if node != head && o.list <= node && ReadModule(g, o, node - o.list).Ok? {
      ModulesFromExtends(g, o, head, node, limit, done);
    }
  }

  lemma ModulesExact(g: Space, symbol: Result<u64>, o: ModuleOffsets, limit: nat, modules: seq<Module>)
    requires g.Valid()
    ensures ModulesSpec(g, symbol, o, limit) == Ok(modules) <==>
      && 0 < limit && 0 < o.nameLength <= 4096 && symbol.Ok? && g.U64(symbol.value).Ok?
      && |modules| <= limit && ModuleRing(g, o, symbol.value, g.U64(symbol.value).value, modules)
    ensures ModulesSpec(g, symbol, o, limit) == Ok(modules) ==>
      forall i, j | 0 <= i < j < |modules| :: modules[i].address != modules[j].address
  {
    hide Space.U64, ReadModule, ModulesFrom, ModuleRing, Returns, Nodes;
    if 0 < limit && symbol.Ok? && g.U64(symbol.value).Ok? {
      var head, first := symbol.value, g.U64(symbol.value).value;
      ModulesFromExact(g, o, head, first, limit, [], modules);
      assert [] + modules == modules;
      if ModuleRing(g, o, head, first, modules) { ModuleRingDistinct(g, o, head, first, modules); }
    }
  }

  lemma ModuleRingDistinct(g: Space, o: ModuleOffsets, head: u64, first: u64, modules: seq<Module>)
    requires g.Valid() && ModuleRing(g, o, head, first, modules)
    ensures forall i, j | 0 <= i < j < |modules| :: modules[i].address != modules[j].address
  {
    hide Space.U64, ReadModule, ModuleRing, Returns, Nodes;
    RingReturns(g, o, head, first, modules);
    forall i, j | 0 <= i < j < |modules| ensures modules[i].address != modules[j].address {
      NodesDistinct(g, 0, head, first, |modules|, i, j);
    }
  }

  // ---------- processes ----------

  ghost function ProcessesFrom(g: Space, o: TaskOffsets, head: u64, task: u64, limit: nat, done: seq<Process>):
    Result<seq<Process>>
    requires g.Valid() && |done| < limit
    decreases limit - |done|
  {
    var p :- ReadProcess(g, o, task);
    var node :- Add(task, o.tasks);
    var next :- g.U64(node);
    if next == head then Ok(done + [p])
    else if |done| + 1 >= limit then Err(TASK_LIMIT)
    else if next < o.tasks then Err(BAD_POINTER)
    else ProcessesFrom(g, o, head, next - o.tasks, limit, done + [p])
  }

  /** `processes` with only the limit to stop it. */
  ghost function ProcessesSpec(g: Space, symbol: Result<u64>, o: TaskOffsets, limit: nat): Result<seq<Process>>
    requires g.Valid()
  {
    if limit == 0 || o.commLength == 0 || o.commLength > 4096 then Err(BAD_ARGUMENTS)
    else
      var init :- symbol;
      var head :- Add(init, o.tasks);
      ProcessesFrom(g, o, head, init, limit, [])
  }

  /** The tasks from `task` round to the head are exactly `ps`. */
  ghost predicate TaskRing(g: Space, o: TaskOffsets, head: u64, task: u64, ps: seq<Process>)
    requires g.Valid()
    decreases |ps|
  {
    && ps != [] && ReadProcess(g, o, task) == Ok(ps[0])
    && Add(task, o.tasks).Ok? && g.U64(task + o.tasks).Ok?
    && var next := g.U64(task + o.tasks).value;
       if next == head then |ps| == 1
       else o.tasks <= next && TaskRing(g, o, head, next - o.tasks, ps[1..])
  }

  lemma {:induction false} ProcessesFromExact(
    g: Space, o: TaskOffsets, head: u64, task: u64, limit: nat, done: seq<Process>, ps: seq<Process>)
    requires g.Valid() && |done| < limit
    ensures ProcessesFrom(g, o, head, task, limit, done) == Ok(done + ps) <==>
      TaskRing(g, o, head, task, ps) && |done + ps| <= limit
    decreases limit - |done|
  {
    hide Space.U64, ReadProcess;
    var p := ReadProcess(g, o, task);
    if p.Ok? && Add(task, o.tasks).Ok? && g.U64(task + o.tasks).Ok? {
      var next := g.U64(task + o.tasks).value;
      if next == head {
        if done + [p.value] == done + ps {
          assert (done + [p.value])[|done|..] == [p.value] && (done + ps)[|done|..] == ps;
        }
      } else if |done| + 1 < limit && o.tasks <= next {
        if ps != [] && ps[0] == p.value {
          assert done + [p.value] + ps[1..] == done + ps;
          ProcessesFromExact(g, o, head, next - o.tasks, limit, done + [p.value], ps[1..]);
        } else {
          ProcessesFromExtends(g, o, head, next - o.tasks, limit, done + [p.value]);
          var r := ProcessesFrom(g, o, head, task, limit, done);
          if r.Ok? && ps != [] {
            assert (done + [p.value])[|done|] == r.value[|done|];
            assert (done + ps)[|done|] == ps[0];
          }
        }
      }
    }
  }

  lemma {:induction false} ProcessesFromExtends(
    g: Space, o: TaskOffsets, head: u64, task: u64, limit: nat, done: seq<Process>)
    requires g.Valid() && |done| < limit
    ensures var r := ProcessesFrom(g, o, head, task, limit, done);
      r.Ok? ==> done <= r.value && |done| < |r.value|
    decreases limit - |done|
  {
    hide Space.U64, ReadProcess;
    var p := ReadProcess(g, o, task);
    if p.Ok? && Add(task, o.tasks).Ok? && g.U64(task + o.tasks).Ok? {
      var next := g.U64(task + o.tasks).value;
      if next != head && |done| + 1 < limit && o.tasks <= next {
        ProcessesFromExtends(g, o, head, next - o.tasks, limit, done + [p.value]);
      }
    }
  }

  predicate AreTaskNodes(ps: seq<Process>, offset: nat, nodes: seq<u64>) {
    |nodes| == |ps| && forall i | 0 <= i < |ps| :: ps[i].task + offset == nodes[i]
  }

  lemma {:induction false} TaskRingReturns(g: Space, o: TaskOffsets, head: u64, task: u64, node: u64, ps: seq<Process>)
    requires g.Valid() && node == task + o.tasks && node != head
    requires TaskRing(g, o, head, task, ps)
    ensures Returns(g, 0, head, node, |ps|)
    ensures AreTaskNodes(ps, o.tasks, Nodes(g, 0, head, node, |ps|))
    decreases |ps|
  {
    hide Space.U64, Space.Bytes, Space.U32;
    var next := g.U64(node).value;
    if next != head { TaskRingReturns(g, o, head, next - o.tasks, next, ps[1..]); }
  }

  lemma ProcessesLoop(g: Space, o: TaskOffsets, head: u64, visited: seq<u64>, task: u64, limit: nat, done: seq<Process>)
    requires g.Valid() && |done| < limit && task + o.tasks < U64_LIMIT && task + o.tasks != head
    requires Trail(g, 0, head, visited, task + o.tasks) && task + o.tasks in visited
    ensures ProcessesFrom(g, o, head, task, limit, done).Err?
  {
    hide Space.U64, ReadProcess, Returns, Trail, ProcessesFrom, TaskRing;
    var r := ProcessesFrom(g, o, head, task, limit, done);
    if r.Ok? {
      ProcessesFromExtends(g, o, head, task, limit, done);
      var ps := r.value[|done|..];
      assert r.value == done + ps;
      ProcessesFromExact(g, o, head, task, limit, done, ps);
      TaskRingReturns(g, o, head, task, task + o.tasks, ps);
      RevisitNeverReturns(g, 0, head, visited, task + o.tasks, |ps|);
    }
  }

  method Processes(reader: Reader, symbol: Result<u64>, o: TaskOffsets, limit: nat) returns (r: Result<seq<Process>>)
    requires reader.Valid()
    modifies reader.session.translations
    ensures reader.Valid() && reader.Sees() == old(reader.Sees())
    ensures r.Ok? <==> ProcessesSpec(reader.Sees(), symbol, o, limit).Ok?
    ensures r == ProcessesSpec(reader.Sees(), symbol, o, limit) || r == Err(TASK_LOOP)
  {
    hide Space.U64, Space.Bytes, ReadProcess, Reader.Valid, Returns, Trail;
    if limit == 0 || o.commLength == 0 || o.commLength > 4096 { return Err(BAD_ARGUMENTS); }
    var init: u64 :- symbol;
    var head: u64 :- Add(init, o.tasks);
    ghost var g := reader.Sees();
    assert g.Valid() by { SeesValid(reader); }
    var current: u64, seen: set<u64>, output: seq<Process> := init, {}, [];
    ghost var visited: seq<u64> := [];
    EmptyTrail(g, head, head);
    while true
      invariant reader.Valid() && reader.Sees() == g && |output| < limit
      invariant ProcessesFrom(g, o, head, current, limit, output) == ProcessesFrom(g, o, head, init, limit, [])
      invariant forall x | x in seen :: x == init || (x + o.tasks < U64_LIMIT && x + o.tasks in visited)
      invariant if output == [] then current == init && visited == [] && seen == {}
        else current + o.tasks < U64_LIMIT && current + o.tasks != head
      invariant output != [] ==> Trail(g, 0, head, visited, current + o.tasks)
      decreases limit - |output|
    {
      if current in seen {
        ProcessesLoop(g, o, head, visited, current, limit, output);
        return Err(TASK_LOOP);
      }
      seen := Including(seen, current);
      var p :- ReadProcessAt(reader, o, current);
      var node: u64 := Add(current, o.tasks).value;
      var next: u64 :- reader.ReadU64(node);
      if output != [] {
        ExtendTrail(g, 0, head, visited, node);
        visited := visited + [node];
      } else {
        EmptyTrail(g, head, next);
      }
      output := output + [p];
      if next == head { return Ok(output); }
      if |output| >= limit { return Err(TASK_LIMIT); }
      if next < o.tasks { return Err(BAD_POINTER); }
      current := next - o.tasks;
    }
  }

  /** `processes` lists exactly the ring that `init_task` heads, once each, and
      succeeds whenever that ring fits the limit and can be read. */
  lemma ProcessesExact(g: Space, symbol: Result<u64>, o: TaskOffsets, limit: nat, ps: seq<Process>)
    requires g.Valid()
    ensures ProcessesSpec(g, symbol, o, limit) == Ok(ps) <==>
      && 0 < limit && 0 < o.commLength <= 4096 && symbol.Ok? && Add(symbol.value, o.tasks).Ok?
      && |ps| <= limit && TaskRing(g, o, symbol.value + o.tasks, symbol.value, ps)
    ensures ProcessesSpec(g, symbol, o, limit) == Ok(ps) ==>
      forall i, j | 0 <= i < j < |ps| :: ps[i].task != ps[j].task
  {
    hide Space.U64, ReadProcess, ProcessesFrom, Returns, Nodes;
    if 0 < limit && symbol.Ok? && Add(symbol.value, o.tasks).Ok? {
      var init, head := symbol.value, symbol.value + o.tasks;
      ProcessesFromExact(g, o, head, init, limit, [], ps);
      assert [] + ps == ps;
      if TaskRing(g, o, head, init, ps) { TaskRingDistinct(g, o, init, ps); }
    }
  }

  lemma TaskRingDistinct(g: Space, o: TaskOffsets, init: u64, ps: seq<Process>)
    requires g.Valid() && init + o.tasks < U64_LIMIT && TaskRing(g, o, init + o.tasks, init, ps)
    ensures forall i, j | 0 <= i < j < |ps| :: ps[i].task != ps[j].task
  {
    hide Space.U64, Space.Bytes, Space.U32, Nodes, Returns;
    var head := init + o.tasks;
    var next := g.U64(head).value;
    if next != head {
      var rest := ps[1..];
      TaskRingReturns(g, o, head, next - o.tasks, next, rest);
      forall i, j | 0 <= i < j < |ps| ensures ps[i].task != ps[j].task {
        assert ps[j] == rest[j - 1];
        if i == 0 {
          NodeIsNotHead(g, 0, head, next, |rest|, j - 1);
        } else {
          assert ps[i] == rest[i - 1];
          NodesDistinct(g, 0, head, next, |rest|, i - 1, j - 1);
        }
      }
    }
  }
}
