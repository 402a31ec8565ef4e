/** What a session sees of guest-physical memory: a partial byte map plus the
    two ways a backend reports a failed read.  Snapshot bundles fail a whole
    request (vmi-artifact), the fake provider stops at the first bad byte
    (vmi-testkit) and can inject faults. */
module PhysicalMemory {
  import opened Words
  import opened VmiTypes

  datatype FailureStyle = WholeRequest | StopAtByte

  datatype Memory = Memory(
    bytes: map<nat, byte>,
    readFaults: set<nat>,
    writeFaults: set<nat>,
    style: FailureStyle,
    canRead: bool,
    canWrite: bool)

  const READ_FAULT := "injected fake read fault"
  const WRITE_FAULT := "injected fake write fault"

  ghost predicate InSpan(x: nat, lo: nat, hi: nat) { lo <= x < hi }

  ghost function Span(lo: nat, hi: nat): (s: set<nat>)
    ensures forall x :: x in s <==> lo <= x < hi
  {
    set x: nat | lo <= x < hi && InSpan(x, lo, hi)
  }

  predicate Readable(m: Memory, a: nat) {
    a < U64_LIMIT && a in m.bytes && a !in m.readFaults
  }

  ghost predicate AllReadable(m: Memory, a: nat, n: nat) {
    forall x | a <= x < a + n :: Readable(m, x)
  }

  ghost function Bytes(m: Memory, a: nat, n: nat): (b: seq<byte>)
    requires AllReadable(m, a, n)
    ensures |b| == n
    ensures forall i | 0 <= i < n :: Readable(m, a + i) && b[i] == m.bytes[a + i]
  {
    seq(n, i requires 0 <= i < n => assert Readable(m, a + i); m.bytes[a + i])
  }

  ghost function Read(m: Memory, a: nat, n: nat): (r: Result<seq<byte>>)
    ensures r.Ok? ==> |r.value| == n
  {
    if AllReadable(m, a, n) then Ok(Bytes(m, a, n)) else Err(ReadError(m, a, n))
  }

  ghost function ReadError(m: Memory, a: nat, n: nat): VmiError
    requires !AllReadable(m, a, n)
  {
    if m.style.WholeRequest? then ReadFailed(a, n) else FirstReadError(m, a, n, 0)
  }

  /** The fake provider's error: the reason the first unreadable byte fails. */
  ghost function FirstReadError(m: Memory, a: nat, n: nat, i: nat): VmiError
    requires exists x :: a + i <= x < a + n && !Readable(m, x)
    decreases n - i
  {
    if a + i >= U64_LIMIT then ReadFailed(a, n)
    else if a + i in m.readFaults then Backend(READ_FAULT)
    else if a + i !in m.bytes then ReadFailed(a + i, 1)
    else FirstReadError(m, a, n, i + 1)
  }

  /** The reported reason is that of the first unreadable byte. */
  lemma FirstReadErrorAt(m: Memory, a: nat, n: nat, i: nat)
    requires i < n && AllReadable(m, a, i) && !Readable(m, a + i)
    ensures !AllReadable(m, a, n)
    ensures FirstReadError(m, a, n, 0) ==
      if a + i >= U64_LIMIT then ReadFailed(a, n)
      else if a + i in m.readFaults then Backend(READ_FAULT)
      else ReadFailed(a + i, 1)
  {
    SkipReadable(m, a, n, 0, i);
  }

  lemma {:induction false} SkipReadable(m: Memory, a: nat, n: nat, j: nat, i: nat)
    requires j <= i < n && AllReadable(m, a, i) && !Readable(m, a + i)
    ensures FirstReadError(m, a, n, j) == FirstReadError(m, a, n, i)
    decreases i - j
  {
    if j < i {
      assert Readable(m, a + j);
      SkipReadable(m, a, n, j + 1, i);
    }
  }

  ghost function ReadU64(m: Memory, a: nat): Result<u64> {
    match Read(m, a, 8)
    case Ok(b) => Ok(U64FromLe(b))
    case Err(e) => Err(e)
  }

  /** The words the walkers read are eight little-endian bytes. */
  lemma ReadU64Exact(m: Memory, a: nat, x: u64)
    ensures ReadU64(m, a) == Ok(x) <==> Read(m, a, 8) == Ok(ToLe(x, 8))
  {
    hide FromLe, ToLe;
    var r := Read(m, a, 8);
    if r.Ok? { LeU64(r.value, x); }
  }

  predicate Writable(m: Memory, a: nat) {
    a < U64_LIMIT && a in m.bytes && a !in m.writeFaults
  }

  /** The fake provider's write: byte by byte, keeping what precedes a failure. */
  ghost function WriteFrom(m: Memory, a: nat, data: seq<byte>, i: nat): (Memory, Result<()>)
    requires i <= |data|
    decreases |data| - i
  {
    if i == |data| then (m, Ok(()))
    else if a + i >= U64_LIMIT then (m, Err(ReadFailed(a, |data|)))
    else if a + i in m.writeFaults then (m, Err(Backend(WRITE_FAULT)))
    else if a + i !in m.bytes then (m, Err(ReadFailed(a + i, 1)))
    else WriteFrom(m.(bytes := m.bytes[a + i := data[i]]), a, data, i + 1)
  }

  ghost function Write(m: Memory, a: nat, data: seq<byte>): (Memory, Result<()>) {
    WriteFrom(m, a, data, 0)
  }

  /** A write stops at the first byte that is not writable, having stored those before
      it, and reports why that one fails. */
  lemma {:induction false} WriteStopsAt(m: Memory, a: nat, data: seq<byte>, i: nat, n: nat)
    requires i <= n < |data| && !Writable(m, a + n) && forall x | a + i <= x < a + n :: Writable(m, x)
    ensures var (m', r) := WriteFrom(m, a, data, i);
      && r == Err(if a + n >= U64_LIMIT then ReadFailed(a, |data|)
                  else if a + n in m.writeFaults then Backend(WRITE_FAULT)
                  else ReadFailed(a + n, 1))
      && m' == m.(bytes := m'.bytes)
      && forall x :: (x in m'.bytes <==> x in m.bytes) &&
           (x in m.bytes ==> m'.bytes[x] == if a + i <= x < a + n then data[x - a] else m.bytes[x])
    decreases n - i
  {
    if i < n {
      assert Writable(m, a + i);
      var next := m.(bytes := m.bytes[a + i := data[i]]);
      assert forall x :: Writable(next, x) <==> Writable(m, x);
      WriteStopsAt(next, a, data, i + 1, n);
    }
  }

  /** Nothing but the contents of mapped bytes inside `touched` differs. */
  ghost predicate SameExcept(m: Memory, m': Memory, touched: set<nat>) {
    && m' == m.(bytes := m'.bytes)
    && m'.bytes.Keys == m.bytes.Keys
    && forall x | x in m.bytes && x !in touched :: m'.bytes[x] == m.bytes[x]
  }

  /** A write succeeds exactly when every byte is writable, then replaces exactly
      the bytes of the range; a failed one changes nothing outside it. */
  lemma {:induction false} WriteEffect(m: Memory, a: nat, data: seq<byte>, i: nat)
    requires i <= |data|
    ensures var (m', r) := WriteFrom(m, a, data, i);
      && SameExcept(m, m', Span(a + i, a + |data|))
      && (r.Ok? <==> forall x | a + i <= x < a + |data| :: Writable(m, x))
      && (r.Ok? ==> forall x | a + i <= x < a + |data| :: x in m'.bytes && m'.bytes[x] == data[x - a])
    decreases |data| - i
  {
    if i == |data| {
    } else if !Writable(m, a + i) {
    } else {
      var next := m.(bytes := m.bytes[a + i := data[i]]);
      WriteEffect(next, a, data, i + 1);
      assert next.bytes.Keys == m.bytes.Keys;
      assert forall x :: Writable(next, x) <==> Writable(m, x);
      var (m', r) := WriteFrom(m, a, data, i);
      if r.Ok? { assert m'.bytes[a + i] == next.bytes[a + i]; }
    }
  }

  lemma WholeWriteEffect(m: Memory, a: nat, data: seq<byte>)
    ensures var (m', r) := Write(m, a, data);
      && SameExcept(m, m', Span(a, a + |data|))
      && (r.Ok? <==> forall x | a <= x < a + |data| :: Writable(m, x))
      && (r.Ok? ==> forall x | a <= x < a + |data| :: x in m'.bytes && m'.bytes[x] == data[x - a])
  {
    WriteEffect(m, a, data, 0);
  }

  /** Reads see only the bytes they cover. */
  lemma ReadFrame(m: Memory, m': Memory, touched: set<nat>, a: nat, n: nat)
    requires SameExcept(m, m', touched)
    requires forall x | a <= x < a + n :: x !in touched
    ensures Read(m, a, n) == Read(m', a, n)
  {
    assert forall x :: Readable(m, x) <==> Readable(m', x);
    if AllReadable(m, a, n) {
      assert Bytes(m, a, n) == Bytes(m', a, n);
    } else {
      if m.style.StopAtByte? { FirstReadErrorFrame(m, m', a, n, 0); }
    }
  }

  lemma ReadU64Frame(m: Memory, m': Memory, touched: set<nat>, a: nat)
    requires SameExcept(m, m', touched) && touched !! Span(a, a + 8)
    ensures ReadU64(m, a) == ReadU64(m', a)
  {
    forall x | a <= x < a + 8 ensures x !in touched {
      assert x in Span(a, a + 8);
    }
    ReadFrame(m, m', touched, a, 8);
  }

  lemma {:induction false} FirstReadErrorFrame(m: Memory, m': Memory, a: nat, n: nat, i: nat)
    requires exists x :: a + i <= x < a + n && !Readable(m, x)
    requires m' == m.(bytes := m'.bytes) && m'.bytes.Keys == m.bytes.Keys
    ensures exists x :: a + i <= x < a + n && !Readable(m', x)
    ensures FirstReadError(m, a, n, i) == FirstReadError(m', a, n, i)
    decreases n - i
  {
    assert forall x :: Readable(m, x) <==> Readable(m', x);
    if a + i >= U64_LIMIT || a + i in m.readFaults || a + i !in m.bytes {
    } else {
      FirstReadErrorFrame(m, m', a, n, i + 1);
    }
  }

  /** Reading back what a successful write stored. */
  lemma ReadAfterWrite(m: Memory, a: nat, data: seq<byte>)
    ensures var (m', r) := Write(m, a, data);
      r.Ok? ==>
        (Read(m', a, |data|) == Ok(data) <==> forall x | a <= x < a + |data| :: x !in m.readFaults)
  {
    WriteEffect(m, a, data, 0);
    var (m', r) := Write(m, a, data);
    if r.Ok? {
      assert forall x | a <= x < a + |data| :: x in m'.bytes && Writable(m, x);
      if AllReadable(m', a, |data|) {
        var b := Bytes(m', a, |data|);
        forall i | 0 <= i < |data| ensures b[i] == data[i] {
          assert a + i in m'.bytes && m'.bytes[a + i] == data[a + i - a];
        }
        assert b == data;
        forall x | a <= x < a + |data| ensures x !in m.readFaults {
          assert Readable(m', x);
        }
      } else {
        var x :| a <= x < a + |data| && !Readable(m', x);
        assert Writable(m, x);
      }
    }
  }
}
