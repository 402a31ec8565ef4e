/** `publish_range` of vmi-driver-virtualbox: any number of publishers, in any
    number of processes, interleaved step by step over one directory.

    One step is one atomic action: a load or compare-exchange of the sequence
    counter of a process, an exclusive create, one write to an open file, a hard
    link, or the removal of a name. */
module Publication {
  import opened Words

  datatype Path = Destination | Temporary(pid: nat, sequence: u64)

  datatype Phase =
    | Checking
    | Loading
    | Swapping(current: u64)
    | Creating(sequence: u64)
    | Writing(sequence: u64, inode: nat, written: nat)
    | Linking(sequence: u64, inode: nat)
    | Removing(sequence: u64, inode: nat)
    | CleaningUp(sequence: u64)
    | Succeeded(sequence: u64, inode: nat)
    | Failed

  datatype Publisher = Publisher(process: nat, bytes: seq<byte>, phase: Phase)

  /** What the publishers share.  `directory` gives names to files by number; a
      file lives on while it is open or named. */
  datatype Disk = Disk(pids: seq<nat>, counters: seq<u64>, directory: map<Path, nat>, files: seq<seq<byte>>) {
    predicate Valid() {
      |counters| == |pids| && forall p | p in directory :: directory[p] < |files|
    }
  }

  datatype World = World(disk: Disk, publishers: seq<Publisher>)

  /** What the system decides: whether the action fails, and how much a write takes. */
  datatype Choice = Choice(fails: bool, amount: nat)

  predicate Placed(d: Disk, p: Publisher) {
    p.process < |d.pids| && (p.phase.Writing? ==> p.phase.inode < |d.files| && p.phase.written <= |p.bytes|)
  }

  function NameFor(d: Disk, p: Publisher, sequence: u64): Path
    requires p.process < |d.pids|
  {
    Temporary(d.pids[p.process], sequence)
  }

  function WriteSize(amount: nat, left: nat): (n: nat)
    requires left > 0
    ensures 0 < n <= left
  {
    if amount == 0 then 1 else if amount > left then left else amount
  }

  /** The next action of `p`: its effect and the phase it leads to. */
  function Act(d: Disk, p: Publisher, c: Choice): (r: (Disk, Phase))
    requires d.Valid() && Placed(d, p)
  {
    match p.phase
    case Checking => (d, if Destination in d.directory && !c.fails then Failed else Loading)
    case Loading => (d, Swapping(d.counters[p.process]))
    case Swapping(current) =>
      if current + 1 == U64_LIMIT then (d, Failed)
      else if d.counters[p.process] == current && !c.fails then
        (d.(counters := d.counters[p.process := current + 1]), Creating(current))
      else (d, Swapping(d.counters[p.process]))
    case Creating(s) =>
      var name := NameFor(d, p, s);
      if c.fails || name in d.directory then (d, CleaningUp(s))
      else (d.(directory := d.directory[name := |d.files|], files := d.files + [[]]), Writing(s, |d.files|, 0))
    case Writing(s, n, k) =>
      if c.fails then (d, CleaningUp(s))
      else if k < |p.bytes| then
        var size := WriteSize(c.amount, |p.bytes| - k);
        (d.(files := d.files[n := d.files[n] + p.bytes[k..k + size]]), Writing(s, n, k + size))
      else (d, Linking(s, n))
    case Linking(s, n) =>
      var name := NameFor(d, p, s);
      if c.fails || Destination in d.directory || name !in d.directory then (d, CleaningUp(s))
      else (d.(directory := d.directory[Destination := d.directory[name]]), Removing(s, n))
    case Removing(s, n) =>
      var name := NameFor(d, p, s);
      if c.fails || name !in d.directory then (d, CleaningUp(s))
      else (d.(directory := d.directory - {name}), Succeeded(s, n))
    case CleaningUp(s) =>
      (if c.fails then d else d.(directory := d.directory - {NameFor(d, p, s)}), Failed)
    case _ => (d, p.phase)
  }

  predicate Shape(w: World) {
    w.disk.Valid() && forall i | 0 <= i < |w.publishers| :: Placed(w.disk, w.publishers[i])
  }

  lemma ActKeepsShape(d: Disk, p: Publisher, c: Choice)
    requires d.Valid() && Placed(d, p)
    ensures var (after, phase) := Act(d, p, c);
      && after.Valid() && Placed(after, p.(phase := phase))
      && after.pids == d.pids && |d.files| <= |after.files|
  {
  }

  function Step(w: World, i: nat, c: Choice): (v: World)
    requires Shape(w) && i < |w.publishers|
    ensures Shape(v) && v.disk.pids == w.disk.pids && |v.publishers| == |w.publishers|
    ensures forall j | 0 <= j < |w.publishers| && j != i :: v.publishers[j] == w.publishers[j]
    ensures v.publishers[i] == w.publishers[i].(phase := Act(w.disk, w.publishers[i], c).1)
    ensures v.disk == Act(w.disk, w.publishers[i], c).0
  {
    hide Act;
    ActKeepsShape(w.disk, w.publishers[i], c);
    var (disk, phase) := Act(w.disk, w.publishers[i], c);
    World(disk, w.publishers[i := w.publishers[i].(phase := phase)])
  }

  // ---------- what holds whatever the process ids ----------

  predicate Named(p: Publisher) { !(p.phase.Checking? || p.phase.Loading? || p.phase.Swapping? || p.phase.Failed?) }

  /** Has its temporary file open, or complete and not yet linked. */
  predicate Open(p: Publisher) { p.phase.Writing? || p.phase.Linking? }

  /** Has linked the destination, and not failed since. */
  predicate Won(p: Publisher) { p.phase.Removing? || p.phase.Succeeded? }

  predicate Sound(d: Disk, p: Publisher)
    requires d.Valid() && Placed(d, p)
  {
    && (Named(p) ==> p.phase.sequence < d.counters[p.process])
    && (Open(p) ==> p.phase.inode < |d.files|)
    && (p.phase.Writing? ==> d.files[p.phase.inode] == p.bytes[..p.phase.written])
    && (p.phase.Linking? ==> d.files[p.phase.inode] == p.bytes)
    && (Won(p) ==> Destination in d.directory)
  }

  predicate Apart(p: Publisher, q: Publisher) {
    && (Named(p) && Named(q) && p.process == q.process ==> p.phase.sequence != q.phase.sequence)
    && (Open(p) && Open(q) ==> p.phase.inode != q.phase.inode)
    && !(Won(p) && Won(q))
  }

  predicate Inv(w: World) {
    && Shape(w)
    && (forall i | 0 <= i < |w.publishers| :: Sound(w.disk, w.publishers[i]))
    && (forall i, j | 0 <= i < |w.publishers| && 0 <= j < |w.publishers| && i != j ::
          Apart(w.publishers[i], w.publishers[j]))
  }

  predicate Initial(w: World) {
    Shape(w) && forall i | 0 <= i < |w.publishers| :: w.publishers[i].phase == Checking
  }

  lemma MoverIsSound(d: Disk, p: Publisher, c: Choice)
    requires d.Valid() && Placed(d, p) && Sound(d, p)
    ensures var (after, phase) := Act(d, p, c);
      after.Valid() && Placed(after, p.(phase := phase)) && Sound(after, p.(phase := phase))
  {
    ActKeepsShape(d, p, c);
    if p.phase.Writing? && !c.fails && p.phase.written < |p.bytes| {
      var k, size := p.phase.written, WriteSize(c.amount, |p.bytes| - p.phase.written);
      assert p.bytes[..k] + p.bytes[k..k + size] == p.bytes[..k + size];
    } else if p.phase.Writing? {
      assert p.phase.written == |p.bytes| ==> p.bytes[..p.phase.written] == p.bytes;
    }
  }

  /** What an action can touch: its own temporary name, the destination if there is
      none, its own file, and a new one. */
  lemma Footprint(d: Disk, p: Publisher, c: Choice)
    requires d.Valid() && Placed(d, p)
    ensures var after := Act(d, p, c).0;
      && |after.counters| == |d.counters| && |d.files| <= |after.files| && after.pids == d.pids
      && (forall k | 0 <= k < |d.counters| :: d.counters[k] <= after.counters[k])
      && (forall x | x in d.directory && !(Named(p) && x == NameFor(d, p, p.phase.sequence)) ::
            x in after.directory && after.directory[x] == d.directory[x])
      && (forall x | x in after.directory && x in d.directory :: after.directory[x] == d.directory[x])
      && (forall n | 0 <= n < |d.files| && after.files[n] != d.files[n] :: p.phase.Writing? && n == p.phase.inode)
  {
  }

  /** A name that appears is the writer's own, for a new file, or the destination,
      for the file that its temporary name stands for. */
  lemma NewNames(d: Disk, p: Publisher, c: Choice, x: Path)
    requires d.Valid() && Placed(d, p)
    requires x in Act(d, p, c).0.directory && x !in d.directory
    ensures (p.phase.Creating? && x == NameFor(d, p, p.phase.sequence) && Act(d, p, c).0.directory[x] == |d.files|)
         || (p.phase.Linking? && x == Destination && NameFor(d, p, p.phase.sequence) in d.directory
             && Act(d, p, c).0.directory[x] == d.directory[NameFor(d, p, p.phase.sequence)])
  {
  }

  lemma OtherIsSound(d: Disk, p: Publisher, c: Choice, q: Publisher)
    requires d.Valid() && Placed(d, p) && Placed(d, q) && Sound(d, q) && Apart(p, q)
    ensures var after := Act(d, p, c).0; after.Valid() && Placed(after, q) && Sound(after, q)
  {
    hide Act;
    ActKeepsShape(d, p, c);
    Footprint(d, p, c);
  }

  lemma ActKeepsApart(d: Disk, p: Publisher, c: Choice, q: Publisher)
    requires d.Valid() && Placed(d, p) && Placed(d, q) && Sound(d, p) && Sound(d, q) && Apart(p, q)
    ensures Apart(p.(phase := Act(d, p, c).1), q) && Apart(q, p.(phase := Act(d, p, c).1))
  {
  }

  lemma StepKeepsInv(w: World, i: nat, c: Choice)
    requires Inv(w) && i < |w.publishers|
    ensures Inv(Step(w, i, c))
  {
    hide Act, Sound, Apart;
    var v, d, p := Step(w, i, c), w.disk, w.publishers[i];
    MoverIsSound(d, p, c);
    forall j | 0 <= j < |v.publishers| ensures Sound(v.disk, v.publishers[j]) {
      if j != i { OtherIsSound(d, p, c, w.publishers[j]); }
    }
    forall a, b | 0 <= a < |v.publishers| && 0 <= b < |v.publishers| && a != b
      ensures Apart(v.publishers[a], v.publishers[b])
    {
      if a == i { ActKeepsApart(d, p, c, w.publishers[b]); }
      if b == i { ActKeepsApart(d, p, c, w.publishers[a]); }
    }
  }

  // ---------- what needs that no id has three processes ----------

  /** Three processes with one id. */
  predicate ThreeShare(pids: seq<nat>) {
    exists a, b, c :: 0 <= a < b < c < |pids| && pids[a] == pids[b] == pids[c]
  }

  /** No one will create the temporary file of this name any more: all processes
      with the id have used the sequence, and nobody is about to create it. */
  predicate Spent(w: World, pid: nat, sequence: u64)
    requires Shape(w)
  {
    && (forall a | 0 <= a < |w.disk.pids| && w.disk.pids[a] == pid :: sequence < w.disk.counters[a])
    && (forall r | 0 <= r < |w.publishers| && w.publishers[r].phase == Creating(sequence) ::
          w.disk.pids[w.publishers[r].process] != pid)
  }

  /** An open file is known by its temporary name only; and if that name was removed
      by the other process with the id, it will not come back. */
  predicate Held(w: World, p: Publisher)
    requires Shape(w) && Placed(w.disk, p)
  {
    Open(p) ==>
      var name := NameFor(w.disk, p, p.phase.sequence);
      && (forall x | x in w.disk.directory && w.disk.directory[x] == p.phase.inode :: x == name)
      && (name in w.disk.directory ==> w.disk.directory[name] == p.phase.inode)
      && (name !in w.disk.directory ==> Spent(w, w.disk.pids[p.process], p.phase.sequence))
  }

  predicate Whole(d: Disk, p: Publisher)
    requires d.Valid()
  {
    Won(p) ==>
      && p.phase.inode < |d.files| && d.files[p.phase.inode] == p.bytes
      && Destination in d.directory && d.directory[Destination] == p.phase.inode
  }

  predicate Orderly(w: World) {
    && Inv(w)
    && (forall i | 0 <= i < |w.publishers| :: Held(w, w.publishers[i]) && Whole(w.disk, w.publishers[i]))
  }

  /** A name once spent stays spent. */
  lemma SpentStays(w: World, i: nat, c: Choice, pid: nat, sequence: u64)
    requires Shape(w) && i < |w.publishers| && Spent(w, pid, sequence)
    ensures Spent(Step(w, i, c), pid, sequence)
  {
    hide Act;
    var v, d, p := Step(w, i, c), w.disk, w.publishers[i];
    Footprint(d, p, c);
    NewCreator(d, p, c);
    assert d.pids[p.process] == pid ==> sequence < d.counters[p.process];
    assert forall r | 0 <= r < |v.publishers| && v.publishers[r].phase == Creating(sequence) ::
      d.pids[v.publishers[r].process] != pid;
  }

  /** One comes to create with the sequence its counter stands at. */
  lemma NewCreator(d: Disk, p: Publisher, c: Choice)
    requires d.Valid() && Placed(d, p)
    ensures Act(d, p, c).1.Creating? ==> Act(d, p, c).1.sequence == d.counters[p.process]
  {
  }

  /** Two processes at most have an id: when both have used a name, it is spent. */
  lemma BothUsed(w: World, i: nat, j: nat)
    requires Inv(w) && !ThreeShare(w.disk.pids) && i < |w.publishers| && j < |w.publishers| && i != j
    requires var p, q := w.publishers[i], w.publishers[j];
      && Named(p) && Named(q) && !p.phase.Creating? && !q.phase.Creating?
      && NameFor(w.disk, p, p.phase.sequence) == NameFor(w.disk, q, q.phase.sequence)
    ensures Spent(w, w.disk.pids[w.publishers[j].process], w.publishers[j].phase.sequence)
  {
    var d, p, q := w.disk, w.publishers[i], w.publishers[j];
    var pid, s := d.pids[q.process], q.phase.sequence;
    assert Sound(d, p) && Sound(d, q) && Apart(p, q);
    forall a | 0 <= a < |d.pids| && d.pids[a] == pid ensures s < d.counters[a] {
      OnlyTwo(d.pids, p.process, q.process, a);
    }
    forall r | 0 <= r < |w.publishers| && w.publishers[r].phase == Creating(s) ensures d.pids[w.publishers[r].process] != pid {
      var o := w.publishers[r];
      assert Apart(o, p) && Apart(o, q) && Placed(d, o);
      if d.pids[o.process] == pid { OnlyTwo(d.pids, p.process, q.process, o.process); }
    }
  }

  lemma OnlyTwo(pids: seq<nat>, a: nat, b: nat, c: nat)
    requires !ThreeShare(pids) && a < |pids| && b < |pids| && c < |pids| && a != b
    requires pids[a] == pids[b] == pids[c]
    ensures c == a || c == b
  {
    if c != a && c != b { ThreeOf(pids, a, b, c); assert false; }
  }

  lemma ThreeOf(pids: seq<nat>, a: nat, b: nat, c: nat)
    requires a < |pids| && b < |pids| && c < |pids| && a != b && b != c && a != c
    requires pids[a] == pids[b] == pids[c]
    ensures ThreeShare(pids)
  {
    var lo, hi := if a < b then a else b, if a < b then b else a;
    if c < lo { assert pids[c] == pids[lo] == pids[hi]; }
    else if c < hi { assert pids[lo] == pids[c] == pids[hi]; }
    else { assert pids[lo] == pids[hi] == pids[c]; }
  }

  lemma MoverIsHeld(w: World, i: nat, c: Choice)
    requires Orderly(w) && i < |w.publishers|
    ensures Held(Step(w, i, c), Step(w, i, c).publishers[i]) && Whole(Step(w, i, c).disk, Step(w, i, c).publishers[i])
  {
    var d, p := w.disk, w.publishers[i];
    assert Sound(d, p) && Held(w, p) && Whole(d, p);
    if p.phase.Writing? && p.phase.sequence < d.counters[p.process] {
      var name := NameFor(d, p, p.phase.sequence);
      if name !in d.directory { SpentStays(w, i, c, d.pids[p.process], p.phase.sequence); }
    }
  }

  lemma OtherIsHeld(w: World, i: nat, c: Choice, j: nat)
    requires Orderly(w) && !ThreeShare(w.disk.pids) && i < |w.publishers| && j < |w.publishers| && i != j
    ensures Held(Step(w, i, c), w.publishers[j])
  {
    hide Act, Spent;
    var v, d, p, q := Step(w, i, c), w.disk, w.publishers[i], w.publishers[j];
    if Open(q) {
      assert Sound(d, p) && Sound(d, q) && Held(w, p) && Held(w, q) && Apart(p, q);
      Footprint(d, p, c);
      var name, pid := NameFor(d, q, q.phase.sequence), d.pids[q.process];
      forall x | x in v.disk.directory && v.disk.directory[x] == q.phase.inode ensures x == name {
        if x !in d.directory { NewNames(d, p, c, x); }
      }
      if name in v.disk.directory && name !in d.directory {
        NewNames(d, p, c, name);
        SpentHasNoCreator(w, i, pid, q.phase.sequence);
        assert false;
      }
      if name !in v.disk.directory {
        if name in d.directory {
          CreatorRemovesNothing(d, p, c, name);
          BothUsed(w, i, j);
        }
        SpentStays(w, i, c, pid, q.phase.sequence);
      }
    }
  }

  lemma SpentHasNoCreator(w: World, i: nat, pid: nat, sequence: u64)
    requires Shape(w) && i < |w.publishers| && Spent(w, pid, sequence)
    ensures w.publishers[i].phase == Creating(sequence) ==> w.disk.pids[w.publishers[i].process] != pid
  {
  }

  lemma CreatorRemovesNothing(d: Disk, p: Publisher, c: Choice, x: Path)
    requires d.Valid() && Placed(d, p) && x in d.directory && x !in Act(d, p, c).0.directory
    ensures Named(p) && !p.phase.Creating? && x == NameFor(d, p, p.phase.sequence)
  {
  }

  lemma OtherIsWhole(w: World, i: nat, c: Choice, j: nat)
    requires Orderly(w) && i < |w.publishers| && j < |w.publishers| && i != j
    ensures Whole(Step(w, i, c).disk, w.publishers[j])
  {
    hide Act;
    var d, p, q := w.disk, w.publishers[i], w.publishers[j];
    assert Sound(d, p) && Held(w, p) && Whole(d, q);
    Footprint(d, p, c);
  }

  lemma StepKeepsOrder(w: World, i: nat, c: Choice)
    requires Orderly(w) && !ThreeShare(w.disk.pids) && i < |w.publishers|
    ensures Orderly(Step(w, i, c))
  {
    hide Step, Held, Whole, Inv;
    assert Inv(w) && Shape(w) by { OrderlyShape(w); }
    var v := Step(w, i, c);
    StepKeepsInv(w, i, c);
    assert Shape(v);
    MoverIsHeld(w, i, c);
    forall j | 0 <= j < |v.publishers| ensures Held(v, v.publishers[j]) && Whole(v.disk, v.publishers[j]) {
      if j != i {
        OtherIsHeld(w, i, c, j);
        OtherIsWhole(w, i, c, j);
      }
    }
  }

  lemma OrderlyShape(w: World)
    requires Orderly(w)
    ensures Inv(w) && Shape(w)
  {
  }

  // ---------- whole interleavings ----------

  datatype Turn = Turn(who: nat, choice: Choice)

  /** A schedule, any turn of which may be for nobody. */
  function Run(w: World, schedule: seq<Turn>): (v: World)
    requires Shape(w)
    ensures Shape(v) && v.disk.pids == w.disk.pids && |v.publishers| == |w.publishers|
    decreases |schedule|
  {
    if schedule == [] then w
    else if schedule[0].who < |w.publishers| then Run(Step(w, schedule[0].who, schedule[0].choice), schedule[1..])
    else Run(w, schedule[1..])
  }

  function Published(d: Disk): seq<byte>
    requires d.Valid() && Destination in d.directory
  {
    d.files[d.directory[Destination]]
  }

  lemma InitialIsOrderly(w: World)
    requires Initial(w)
    ensures Orderly(w)
  {
  }

  lemma {:induction false} RunKeepsInv(w: World, schedule: seq<Turn>)
    requires Inv(w)
    ensures Inv(Run(w, schedule))
    decreases |schedule|
  {
    hide Inv, Step;
    if schedule != [] {
      InvShape(w);
      if schedule[0].who < |w.publishers| {
        StepKeepsInv(w, schedule[0].who, schedule[0].choice);
        RunKeepsInv(Step(w, schedule[0].who, schedule[0].choice), schedule[1..]);
      } else {
        RunKeepsInv(w, schedule[1..]);
      }
    }
  }

  lemma InvShape(w: World)
    requires Inv(w)
    ensures Shape(w)
  {
  }

  lemma {:induction false} RunKeepsOrder(w: World, schedule: seq<Turn>)
    requires Orderly(w) && !ThreeShare(w.disk.pids)
    ensures Orderly(Run(w, schedule))
    decreases |schedule|
  {
    hide Orderly, Step, ThreeShare;
    if schedule != [] {
      OrderlyShape(w);
      if schedule[0].who < |w.publishers| {
        StepKeepsOrder(w, schedule[0].who, schedule[0].choice);
        RunKeepsOrder(Step(w, schedule[0].who, schedule[0].choice), schedule[1..]);
      } else {
        RunKeepsOrder(w, schedule[1..]);
      }
    }
  }

  // ---------- the destination, whatever the process ids ----------

  lemma StepKeepsName(w: World, i: nat, c: Choice)
    requires Shape(w) && i < |w.publishers| && Destination in w.disk.directory
    ensures Destination in Step(w, i, c).disk.directory
    ensures Step(w, i, c).disk.directory[Destination] == w.disk.directory[Destination]
  {
    hide Act;
    Footprint(w.disk, w.publishers[i], c);
  }

  /** The destination, once there, is never removed or linked again. */
  lemma {:induction false} NameStays(w: World, schedule: seq<Turn>)
    requires Shape(w) && Destination in w.disk.directory
    ensures Destination in Run(w, schedule).disk.directory
    ensures Run(w, schedule).disk.directory[Destination] == w.disk.directory[Destination]
    decreases |schedule|
  {
    hide Step, Shape;
    if schedule != [] {
      if schedule[0].who < |w.publishers| {
        StepKeepsName(w, schedule[0].who, schedule[0].choice);
        NameStays(Step(w, schedule[0].who, schedule[0].choice), schedule[1..]);
      } else {
        NameStays(w, schedule[1..]);
      }
    }
  }

  /** At most one publisher succeeds, in every interleaving, and it has linked the
      destination. */
  lemma OneSucceeds(w: World, schedule: seq<Turn>, i: nat, j: nat)
    requires Initial(w) && i < |w.publishers| && j < |w.publishers|
    requires Run(w, schedule).publishers[i].phase.Succeeded? && Run(w, schedule).publishers[j].phase.Succeeded?
    ensures i == j && Destination in Run(w, schedule).disk.directory && Destination !in w.disk.directory
  {
    hide Run;
    InitialIsOrderly(w);
    RunKeepsInv(w, schedule);
    var v := Run(w, schedule);
    assert Sound(v.disk, v.publishers[i]) && (i != j ==> Apart(v.publishers[i], v.publishers[j]));
    if Destination in w.disk.directory { ExistingIsKept(w, schedule, i); assert false; }
  }

  /** File `n` is published, nobody writes to it, and nobody has won. */
  predicate Settled(w: World, n: nat) {
    && Destination in w.disk.directory && w.disk.directory[Destination] == n && n < |w.disk.files|
    && forall i | 0 <= i < |w.publishers| :: !Won(w.publishers[i]) && (Open(w.publishers[i]) ==> w.publishers[i].phase.inode != n)
  }

  lemma StepStaysSettled(w: World, i: nat, c: Choice, n: nat)
    requires Shape(w) && Settled(w, n) && i < |w.publishers|
    ensures Settled(Step(w, i, c), n) && Step(w, i, c).disk.files[n] == w.disk.files[n]
  {
    hide Act;
    var d, p := w.disk, w.publishers[i];
    Footprint(d, p, c);
    SettledMover(d, p, c, n);
  }

  lemma SettledMover(d: Disk, p: Publisher, c: Choice, n: nat)
    requires d.Valid() && Placed(d, p) && Destination in d.directory && n < |d.files|
    requires !Won(p) && (Open(p) ==> p.phase.inode != n)
    ensures var q := p.(phase := Act(d, p, c).1); !Won(q) && (Open(q) ==> q.phase.inode != n)
  {
  }

  lemma {:induction false} RunStaysSettled(w: World, schedule: seq<Turn>, n: nat)
    requires Shape(w) && Settled(w, n)
    ensures Settled(Run(w, schedule), n) && Run(w, schedule).disk.files[n] == w.disk.files[n]
    decreases |schedule|
  {
    hide Step, Shape, Settled;
    if schedule != [] {
      if schedule[0].who < |w.publishers| {
        StepStaysSettled(w, schedule[0].who, schedule[0].choice, n);
        RunStaysSettled(Step(w, schedule[0].who, schedule[0].choice), schedule[1..], n);
      } else {
        RunStaysSettled(w, schedule[1..], n);
      }
    }
  }

  /** An output that was there before keeps its bytes, and nobody succeeds. */
  lemma ExistingIsKept(w: World, schedule: seq<Turn>, i: nat)
    requires Initial(w) && i < |w.publishers| && Destination in w.disk.directory
    ensures Destination in Run(w, schedule).disk.directory && Published(Run(w, schedule).disk) == Published(w.disk)
    ensures !Run(w, schedule).publishers[i].phase.Succeeded?
  {
    hide Run;
    RunStaysSettled(w, schedule, w.disk.directory[Destination]);
    assert !Won(Run(w, schedule).publishers[i]);
  }

  // ---------- its bytes ----------

  lemma StepKeepsBytes(w: World, i: nat, c: Choice)
    requires Orderly(w) && i < |w.publishers| && Destination in w.disk.directory
    ensures Destination in Step(w, i, c).disk.directory && Published(Step(w, i, c).disk) == Published(w.disk)
  {
    hide Act;
    var d, p := w.disk, w.publishers[i];
    assert Held(w, p);
    Footprint(d, p, c);
  }

  /** Where no id has three processes, the published bytes never change again. */
  lemma {:induction false} NeverChanges(w: World, schedule: seq<Turn>)
    requires Orderly(w) && !ThreeShare(w.disk.pids) && Destination in w.disk.directory
    ensures Destination in Run(w, schedule).disk.directory
    ensures Published(Run(w, schedule).disk) == Published(w.disk)
    decreases |schedule|
  {
    hide Orderly, Step, Published, ThreeShare;
    if schedule != [] {
      OrderlyShape(w);
      if schedule[0].who < |w.publishers| {
        StepKeepsOrder(w, schedule[0].who, schedule[0].choice);
        StepKeepsBytes(w, schedule[0].who, schedule[0].choice);
        NeverChanges(Step(w, schedule[0].who, schedule[0].choice), schedule[1..]);
      } else {
        NeverChanges(w, schedule[1..]);
      }
    }
  }

  predicate WholeBytesOfOne(w: World)
    requires Shape(w) && Destination in w.disk.directory
  {
    exists i :: 0 <= i < |w.publishers| && Published(w.disk) == w.publishers[i].bytes
  }

  lemma StepPublishesWhole(w: World, i: nat, c: Choice)
    requires Orderly(w) && i < |w.publishers| && Destination !in w.disk.directory
    ensures Destination in Step(w, i, c).disk.directory ==> WholeBytesOfOne(Step(w, i, c))
  {
    hide Act;
    var d, p, v := w.disk, w.publishers[i], Step(w, i, c);
    assert Sound(d, p) && Held(w, p);
    Footprint(d, p, c);
    if Destination in v.disk.directory {
      NewNames(d, p, c, Destination);
      assert Published(v.disk) == v.publishers[i].bytes;
    }
  }

  /** There a destination that appears holds all the bytes of one publisher, at
      every moment. */
  lemma {:induction false} AlwaysWhole(w: World, schedule: seq<Turn>)
    requires Orderly(w) && !ThreeShare(w.disk.pids)
    requires Destination in w.disk.directory ==> WholeBytesOfOne(w)
    ensures Destination in Run(w, schedule).disk.directory ==> WholeBytesOfOne(Run(w, schedule))
    decreases |schedule|
  {
    hide Orderly, Step, Published, ThreeShare;
    if schedule != [] {
      OrderlyShape(w);
      if schedule[0].who < |w.publishers| {
        var v := Step(w, schedule[0].who, schedule[0].choice);
        StepKeepsOrder(w, schedule[0].who, schedule[0].choice);
        if Destination in w.disk.directory {
          StepKeepsBytes(w, schedule[0].who, schedule[0].choice);
          var i :| 0 <= i < |w.publishers| && Published(w.disk) == w.publishers[i].bytes;
          assert Published(v.disk) == v.publishers[i].bytes;
        } else {
          StepPublishesWhole(w, schedule[0].who, schedule[0].choice);
        }
        AlwaysWhole(v, schedule[1..]);
      } else {
        AlwaysWhole(w, schedule[1..]);
      }
    }
  }

  /** There the one that succeeds has published its own bytes. */
  lemma SuccessIsPublished(w: World, schedule: seq<Turn>, i: nat)
    requires Initial(w) && !ThreeShare(w.disk.pids) && i < |w.publishers|
    requires Run(w, schedule).publishers[i].phase.Succeeded?
    ensures Destination in Run(w, schedule).disk.directory
    ensures Published(Run(w, schedule).disk) == Run(w, schedule).publishers[i].bytes
  {
    hide Run;
    InitialIsOrderly(w);
    RunKeepsOrder(w, schedule);
    assert Whole(Run(w, schedule).disk, Run(w, schedule).publishers[i]);
  }

  // ---------- temporary names ----------

  /** Different processes have different ids. */
  predicate DistinctProcesses(pids: seq<nat>) {
    forall a, b | 0 <= a < b < |pids| :: pids[a] != pids[b]
  }

  predicate TidiedUp(w: World)
    requires Shape(w)
  {
    forall i | 0 <= i < |w.publishers| && w.publishers[i].phase.Succeeded? ::
      NameFor(w.disk, w.publishers[i], w.publishers[i].phase.sequence) !in w.disk.directory
  }

  lemma StepStaysTidy(w: World, i: nat, c: Choice)
    requires Inv(w) && DistinctProcesses(w.disk.pids) && TidiedUp(w) && i < |w.publishers|
    ensures TidiedUp(Step(w, i, c))
  {
    hide Act;
    var v, d, p := Step(w, i, c), w.disk, w.publishers[i];
    forall j | 0 <= j < |v.publishers| && v.publishers[j].phase.Succeeded?
      ensures NameFor(v.disk, v.publishers[j], v.publishers[j].phase.sequence) !in v.disk.directory
    {
      var q := v.publishers[j];
      if j != i {
        assert Apart(p, w.publishers[j]);
        var name := NameFor(d, q, q.phase.sequence);
        if name in v.disk.directory { NewNames(d, p, c, name); assert false; }
      } else if p.phase.Succeeded? {
        var name := NameFor(d, q, q.phase.sequence);
        SucceededRests(d, p, c);
      } else {
        NewSuccess(d, p, c);
      }
    }
  }

  lemma SucceededRests(d: Disk, p: Publisher, c: Choice)
    requires d.Valid() && Placed(d, p) && p.phase.Succeeded?
    ensures Act(d, p, c) == (d, p.phase)
  {
  }

  lemma NewSuccess(d: Disk, p: Publisher, c: Choice)
    requires d.Valid() && Placed(d, p) && !p.phase.Succeeded? && Act(d, p, c).1.Succeeded?
    ensures NameFor(d, p, Act(d, p, c).1.sequence) !in Act(d, p, c).0.directory
  {
  }

  /** With distinct ids no temporary file of a success is left behind. */
  lemma {:induction false} NoTemporaryLeft(w: World, schedule: seq<Turn>)
    requires Inv(w) && DistinctProcesses(w.disk.pids) && TidiedUp(w)
    ensures TidiedUp(Run(w, schedule))
    decreases |schedule|
  {
    hide Inv, Step, TidiedUp, DistinctProcesses;
    if schedule != [] {
      InvShape(w);
      if schedule[0].who < |w.publishers| {
        StepKeepsInv(w, schedule[0].who, schedule[0].choice);
        StepStaysTidy(w, schedule[0].who, schedule[0].choice);
        NoTemporaryLeft(Step(w, schedule[0].who, schedule[0].choice), schedule[1..]);
      } else {
        NoTemporaryLeft(w, schedule[1..]);
      }
    }
  }

  // ---------- three processes with one id ----------

  const GO := Choice(false, 0)

  function Turns(who: nat, n: nat): seq<Turn> {
    if n == 0 then [] else [Turn(who, GO)] + Turns(who, n - 1)
  }

  function Advance(w: World, who: nat, n: nat): World
    requires Shape(w) && who < |w.publishers|
    decreases n
  {
    if n == 0 then w else Advance(Step(w, who, GO), who, n - 1)
  }

  lemma {:induction false} RunTurns(w: World, who: nat, n: nat, rest: seq<Turn>)
    requires Shape(w) && who < |w.publishers|
    ensures Shape(Advance(w, who, n)) && Run(w, Turns(who, n) + rest) == Run(Advance(w, who, n), rest)
    decreases n
  {
    hide Step;
    if n == 0 {
      assert Turns(who, n) + rest == rest;
    } else {
      var all := Turns(who, n) + rest;
      assert all[0] == Turn(who, GO) && all[1..] == Turns(who, n - 1) + rest;
      RunTurns(Step(w, who, GO), who, n - 1, rest);
    }
  }

  /** Three processes of `pids`, their common id, and what is at its name. */
  datatype Trio = Trio(pids: seq<nat>, a: nat, b: nat, c: nat) {
    predicate Valid() {
      a < b < c < |pids| && pids[a] == pids[b] == pids[c]
    }

    function Name(): Path
      requires Valid()
    {
      Temporary(pids[a], 0)
    }

    /** How many of the three have taken their first sequence. */
    function Counters(taken: nat): (s: seq<u64>)
      requires Valid()
      ensures |s| == |pids|
    {
      seq(|pids|, i => if (taken > 0 && i == a) || (taken > 1 && i == b) || (taken > 2 && i == c) then 1 else 0)
    }

    function At(taken: nat, directory: map<Path, nat>, files: seq<seq<byte>>, x: Phase, y: Phase, z: Phase): World
      requires Valid()
    {
      World(Disk(pids, Counters(taken), directory, files), [Publisher(a, [1], x), Publisher(b, [2], y), Publisher(c, [3], z)])
    }

    lemma Take(taken: nat)
      requires Valid() && taken < 3
      ensures var process := if taken == 0 then a else if taken == 1 then b else c;
        Counters(taken)[process] == 0 && Counters(taken)[process := 1] == Counters(taken + 1)
    {
    }

    lemma AdvanceOne(
      taken: nat, directory: map<Path, nat>, files: seq<seq<byte>>, x: Phase, y: Phase, z: Phase, who: nat, n: nat,
      after: World)
      requires Valid() && Shape(At(taken, directory, files, x, y, z)) && who < 3 && n > 0
      requires var w := At(taken, directory, files, x, y, z);
        var (disk, phase) := Act(w.disk, w.publishers[who], GO);
        && after.disk == disk
        && after.publishers == w.publishers[who := w.publishers[who].(phase := phase)]
      ensures Shape(after) && Advance(At(taken, directory, files, x, y, z), who, n) == Advance(after, who, n - 1)
    {
      hide Act;
      var w := At(taken, directory, files, x, y, z);
      assert Step(w, who, GO) == after;
    }

    lemma FirstWrites()
      requires Valid()
      ensures Shape(At(0, map[], [], Checking, Checking, Checking))
      ensures Advance(At(0, map[], [], Checking, Checking, Checking), 0, 6) ==
        At(1, map[Name() := 0], [[1]], Linking(0, 0), Checking, Checking)
    {
      hide Advance, Counters;
      var one: seq<byte>, none: seq<seq<byte>>, empty: seq<seq<byte>> := [1], [], [[]];
      assert none + [[]] == empty && one[0..1] == one && empty[0] + one == one && empty[0 := one] == [one];
      Take(0);
      AdvanceOne(0, map[], [], Checking, Checking, Checking, 0, 6, At(0, map[], [], Loading, Checking, Checking));
      AdvanceOne(0, map[], [], Loading, Checking, Checking, 0, 5, At(0, map[], [], Swapping(0), Checking, Checking));
      AdvanceOne(0, map[], [], Swapping(0), Checking, Checking, 0, 4, At(1, map[], [], Creating(0), Checking, Checking));
      AdvanceOne(1, map[], [], Creating(0), Checking, Checking, 0, 3,
                 At(1, map[Name() := 0], empty, Writing(0, 0, 0), Checking, Checking));
      AdvanceOne(1, map[Name() := 0], empty, Writing(0, 0, 0), Checking, Checking, 0, 2,
                 At(1, map[Name() := 0], [one], Writing(0, 0, 1), Checking, Checking));
      AdvanceOne(1, map[Name() := 0], [one], Writing(0, 0, 1), Checking, Checking, 0, 1,
                 At(1, map[Name() := 0], [one], Linking(0, 0), Checking, Checking));
      AdvanceNone(At(1, map[Name() := 0], [one], Linking(0, 0), Checking, Checking), 0);
    }

    lemma SecondRemoves()
      requires Valid()
      ensures Shape(At(1, map[Name() := 0], [[1]], Linking(0, 0), Checking, Checking))
      ensures Advance(At(1, map[Name() := 0], [[1]], Linking(0, 0), Checking, Checking), 1, 5) ==
        At(2, map[], [[1]], Linking(0, 0), Failed, Checking)
    {
      hide Advance, Counters;
      var there: map<Path, nat>, x := map[Name() := 0], Linking(0, 0);
      Take(1);
      AdvanceOne(1, there, [[1]], x, Checking, Checking, 1, 5, At(1, there, [[1]], x, Loading, Checking));
      AdvanceOne(1, there, [[1]], x, Loading, Checking, 1, 4, At(1, there, [[1]], x, Swapping(0), Checking));
      AdvanceOne(1, there, [[1]], x, Swapping(0), Checking, 1, 3, At(2, there, [[1]], x, Creating(0), Checking));
      AdvanceOne(2, there, [[1]], x, Creating(0), Checking, 1, 2, At(2, there, [[1]], x, CleaningUp(0), Checking));
      assert there - {Name()} == map[];
      AdvanceOne(2, there, [[1]], x, CleaningUp(0), Checking, 1, 1, At(2, map[], [[1]], x, Failed, Checking));
      AdvanceNone(At(2, map[], [[1]], x, Failed, Checking), 1);
    }

    lemma ThirdCreates()
      requires Valid()
      ensures Shape(At(2, map[], [[1]], Linking(0, 0), Failed, Checking))
      ensures Advance(At(2, map[], [[1]], Linking(0, 0), Failed, Checking), 2, 4) ==
        At(3, map[Name() := 1], [[1], []], Linking(0, 0), Failed, Writing(0, 1, 0))
    {
      hide Advance, Counters;
      var x, files: seq<seq<byte>> := Linking(0, 0), [[1], []];
      assert [[1]] + [[]] == files;
      Take(2);
      AdvanceOne(2, map[], [[1]], x, Failed, Checking, 2, 4, At(2, map[], [[1]], x, Failed, Loading));
      AdvanceOne(2, map[], [[1]], x, Failed, Loading, 2, 3, At(2, map[], [[1]], x, Failed, Swapping(0)));
      AdvanceOne(2, map[], [[1]], x, Failed, Swapping(0), 2, 2, At(3, map[], [[1]], x, Failed, Creating(0)));
      AdvanceOne(3, map[], [[1]], x, Failed, Creating(0), 2, 1, At(3, map[Name() := 1], files, x, Failed, Writing(0, 1, 0)));
      AdvanceNone(At(3, map[Name() := 1], files, x, Failed, Writing(0, 1, 0)), 2);
    }

    lemma FirstLinks()
      requires Valid()
      ensures Shape(At(3, map[Name() := 1], [[1], []], Linking(0, 0), Failed, Writing(0, 1, 0)))
      ensures Advance(At(3, map[Name() := 1], [[1], []], Linking(0, 0), Failed, Writing(0, 1, 0)), 0, 2) ==
        At(3, map[Destination := 1], [[1], []], Succeeded(0, 0), Failed, Writing(0, 1, 0))
    {
      hide Advance, Counters;
      var files: seq<seq<byte>>, z := [[1], []], Writing(0, 1, 0);
      var both: map<Path, nat> := map[Name() := 1, Destination := 1];
      AdvanceOne(3, map[Name() := 1], files, Linking(0, 0), Failed, z, 0, 2, At(3, both, files, Removing(0, 0), Failed, z));
      assert both - {Name()} == map[Destination := 1];
      AdvanceOne(3, both, files, Removing(0, 0), Failed, z, 0, 1,
                 At(3, map[Destination := 1], files, Succeeded(0, 0), Failed, z));
      AdvanceNone(At(3, map[Destination := 1], files, Succeeded(0, 0), Failed, z), 0);
    }

    lemma ThirdWrites()
      requires Valid()
      ensures Shape(At(3, map[Destination := 1], [[1], []], Succeeded(0, 0), Failed, Writing(0, 1, 0)))
      ensures Advance(At(3, map[Destination := 1], [[1], []], Succeeded(0, 0), Failed, Writing(0, 1, 0)), 2, 1) ==
        At(3, map[Destination := 1], [[1], [3]], Succeeded(0, 0), Failed, Writing(0, 1, 1))
    {
      hide Advance, Counters;
      var three: seq<byte>, files: seq<seq<byte>>, after: seq<seq<byte>> := [3], [[1], []], [[1], [3]];
      assert three[0..1] == three && files[1] + three == three && files[1 := three] == after;
      AdvanceOne(3, map[Destination := 1], files, Succeeded(0, 0), Failed, Writing(0, 1, 0), 2, 1,
                 At(3, map[Destination := 1], after, Succeeded(0, 0), Failed, Writing(0, 1, 1)));
      AdvanceNone(At(3, map[Destination := 1], after, Succeeded(0, 0), Failed, Writing(0, 1, 1)), 2);
    }
  }

  lemma AdvanceNone(w: World, who: nat)
    requires Shape(w) && who < |w.publishers|
    ensures Advance(w, who, 0) == w
  {
  }

  lemma NothingRuns(w: World)
    requires Shape(w)
    ensures Run(w, []) == w
  {
  }

  /** Three processes with one id share a temporary name: the loser of the exclusive
      create removes the winner's file, the third creates its own under that name,
      and the winner links, and reports, a file that is still empty and that the
      third then writes to. */
  lemma SharedIdTears(trio: Trio) returns (w: World, schedule: seq<Turn>, more: seq<Turn>)
    requires trio.Valid()
    ensures Initial(w) && w.disk.pids == trio.pids && Destination !in w.disk.directory && |w.publishers| == 3
    ensures var v := Run(w, schedule);
      && v.publishers[0].phase.Succeeded? && Destination in v.disk.directory
      && Published(v.disk) == [] && forall i | 0 <= i < 3 :: |v.publishers[i].bytes| == 1
    ensures var u := Run(Run(w, schedule), more); Destination in u.disk.directory && Published(u.disk) == [3]
  {
    hide Run, Advance, Turns, Trio.Counters;
    w := trio.At(0, map[], [], Checking, Checking, Checking);
    var last: seq<Turn> := [];
    var s3 := Turns(0, 2) + last;
    var s2 := Turns(2, 4) + s3;
    var s1 := Turns(1, 5) + s2;
    schedule, more := Turns(0, 6) + s1, Turns(2, 1) + last;
    trio.FirstWrites();
    trio.SecondRemoves();
    trio.ThirdCreates();
    trio.FirstLinks();
    trio.ThirdWrites();
    RunTurns(w, 0, 6, s1);
    RunTurns(Advance(w, 0, 6), 1, 5, s2);
    RunTurns(trio.At(2, map[], [[1]], Linking(0, 0), Failed, Checking), 2, 4, s3);
    RunTurns(trio.At(3, map[trio.Name() := 1], [[1], []], Linking(0, 0), Failed, Writing(0, 1, 0)), 0, 2, last);
    var torn := trio.At(3, map[Destination := 1], [[1], []], Succeeded(0, 0), Failed, Writing(0, 1, 0));
    NothingRuns(torn);
    RunTurns(torn, 2, 1, last);
    NothingRuns(trio.At(3, map[Destination := 1], [[1], [3]], Succeeded(0, 0), Failed, Writing(0, 1, 1)));
  }

  // ---------- exactly when publication is safe ----------

  /** A run from an absent destination that publishes something else than the bytes
      of one publisher. */
  predicate Tears(pids: seq<nat>, w: World, schedule: seq<Turn>) {
    && Initial(w) && w.disk.pids == pids && Destination !in w.disk.directory
    && Destination in Run(w, schedule).disk.directory && !WholeBytesOfOne(Run(w, schedule))
  }

  /** A run in which published bytes change. */
  predicate Changes(pids: seq<nat>, w: World, schedule: seq<Turn>, more: seq<Turn>) {
    && Initial(w) && w.disk.pids == pids
    && Destination in Run(w, schedule).disk.directory && Destination in Run(Run(w, schedule), more).disk.directory
    && Published(Run(Run(w, schedule), more).disk) != Published(Run(w, schedule).disk)
  }

  /** Among processes with the ids `pids` there is an interleaving that publishes a
      torn file exactly when three of them share an id, and one that changes a
      published file exactly then. */
  lemma SafeExactly(pids: seq<nat>)
    ensures (exists w, schedule :: Tears(pids, w, schedule)) <==> ThreeShare(pids)
    ensures (exists w, schedule, more :: Changes(pids, w, schedule, more)) <==> ThreeShare(pids)
  {
    hide Run, Published, ThreeShare;
    if ThreeShare(pids) {
      var trio := FindTrio(pids);
      var w, schedule, more := SharedIdTears(trio);
      assert Tears(pids, w, schedule) by { TornIsNobodys(w, schedule); }
      assert Changes(pids, w, schedule, more);
    } else {
      forall w, schedule ensures !Tears(pids, w, schedule) {
        if Tears(pids, w, schedule) { InitialIsOrderly(w); AlwaysWhole(w, schedule); }
      }
      forall w, schedule, more ensures !Changes(pids, w, schedule, more) {
        if Changes(pids, w, schedule, more) {
          InitialIsOrderly(w);
          RunKeepsOrder(w, schedule);
          NeverChanges(Run(w, schedule), more);
        }
      }
    }
  }

  lemma TornIsNobodys(w: World, schedule: seq<Turn>)
    requires Shape(w) && |w.publishers| == 3 && Destination in Run(w, schedule).disk.directory
    requires Published(Run(w, schedule).disk) == []
    requires forall i | 0 <= i < 3 :: |Run(w, schedule).publishers[i].bytes| == 1
    ensures !WholeBytesOfOne(Run(w, schedule))
  {
    hide Run, Published;
  }

  lemma FindTrio(pids: seq<nat>) returns (trio: Trio)
    requires ThreeShare(pids)
    ensures trio.Valid() && trio.pids == pids
  {
    var a, b, c :| 0 <= a < b < c < |pids| && pids[a] == pids[b] == pids[c];
    trio := Trio(pids, a, b, c);
  }
}
