/** `sockets_from_hash_table` of vmi-os-linux: null-terminated bucket chains that
    may not share a node. */
module LinuxSockets {
  import opened Words
  import opened VmiTypes
  import opened Guest
  import opened RingLists
  import LinuxLists

  datatype SocketOffsets = SocketOffsets(
    family: u64, protocol: u64, state: u64, ipv4Source: u64, ipv4Destination: u64,
    ipv6Source: u64, ipv6Destination: u64, sourcePort: u64, destinationPort: u64)

  datatype HashOffsets = HashOffsets(first: u64, stride: u64, next: u64, sock: u64)

  datatype Socket = Socket(
    sock: u64, family: nat, protocol: nat, state: nat,
    source: seq<byte>, sourcePort: nat, destination: seq<byte>, destinationPort: nat)

  const REPEATED := VmiError.Backend("Linux socket hash table repeats node")
  const NULL_SOCK := VmiError.Backend("Linux socket hash node has null sock")
  const TOO_MANY := VmiError.Backend("Linux socket hash table exceeded limit")
  const BAD_FAMILY := VmiError.Backend("unsupported Linux socket family")
  const BAD_ARGUMENTS := VmiError.Backend("invalid Linux socket hash-table arguments")
  const BUCKET_OVERFLOW := VmiError.Backend("Linux socket bucket overflow")

  function BigEndian(b: seq<byte>): nat
    requires |b| == 2
  {
    var high: nat, low: nat := b[0], b[1];
    0x100 * high + low
  }

  ghost function BytesAt(g: Space, base: u64, offset: u64, n: nat): (r: Result<seq<byte>>)
    requires g.Valid()
    ensures r.Ok? ==> |r.value| == n
  {
    match Add(base, offset) case Err(e) => Err(e) case Ok(a) => g.Bytes(a, n)
  }

  ghost function DecodeSock(g: Space, o: SocketOffsets, sock: u64): Result<Socket>
    requires g.Valid()
  {
    var family :- BytesAt(g, sock, o.family, 2);
    var protocol :- BytesAt(g, sock, o.protocol, 1);
    var state :- BytesAt(g, sock, o.state, 1);
    var f := FromLe(family);
    if f != 2 && f != 10 then Err(BAD_FAMILY)
    else
      var source :- BytesAt(g, sock, if f == 2 then o.ipv4Source else o.ipv6Source, if f == 2 then 4 else 16);
      var destination :- BytesAt(g, sock, if f == 2 then o.ipv4Destination else o.ipv6Destination, if f == 2 then 4 else 16);
      var sourcePort :- BytesAt(g, sock, o.sourcePort, 2);
      var destinationPort :- BytesAt(g, sock, o.destinationPort, 2);
      Ok(Socket(sock, f, protocol[0], state[0], source, BigEndian(sourcePort), destination, BigEndian(destinationPort)))
  }

  ghost predicate HoldsBytes(g: Space, base: u64, offset: u64, b: seq<byte>)
    requires g.Valid()
  {
    base + offset < U64_LIMIT && g.Bytes(base + offset, |b|) == Ok(b)
  }

  /** Memory holds `s` at the offsets: the family in little-endian bytes, ports in
      network order, addresses of the family's length as they are. */
  ghost predicate HoldsSock(g: Space, o: SocketOffsets, sock: u64, s: Socket)
    requires g.Valid()
  {
    hide HoldsBytes;
    && (s.family == 2 || s.family == 10)
    && s.protocol < 0x100 && s.state < 0x100 && s.sourcePort < 0x1_0000 && s.destinationPort < 0x1_0000
    && |s.source| == |s.destination| == (if s.family == 2 then 4 else 16)
    && HoldsBytes(g, sock, o.family, [s.family, 0])
    && HoldsBytes(g, sock, o.protocol, [s.protocol]) && HoldsBytes(g, sock, o.state, [s.state])
    && HoldsBytes(g, sock, if s.family == 2 then o.ipv4Source else o.ipv6Source, s.source)
    && HoldsBytes(g, sock, if s.family == 2 then o.ipv4Destination else o.ipv6Destination, s.destination)
    && HoldsBytes(g, sock, o.sourcePort, [s.sourcePort / 0x100, s.sourcePort % 0x100])
    && HoldsBytes(g, sock, o.destinationPort, [s.destinationPort / 0x100, s.destinationPort % 0x100])
  }

  /** What is decoded is what memory holds. */
  lemma SockExact(g: Space, o: SocketOffsets, sock: u64, s: Socket)
    requires g.Valid()
    ensures DecodeSock(g, o, sock) == Ok(s) <==> s.sock == sock && HoldsSock(g, o, sock, s)
  {
    hide Space.Bytes, FromLe;
    FamilyBytes(g, sock, o.family, s.family);
    OneByte(g, sock, o.protocol, s.protocol);
    OneByte(g, sock, o.state, s.state);
    PortBytes(g, sock, o.sourcePort, s.sourcePort);
    PortBytes(g, sock, o.destinationPort, s.destinationPort);
  }

  lemma FamilyBytes(g: Space, base: u64, offset: u64, family: nat)
    requires g.Valid()
    ensures family < 0x100 ==>
      (HoldsBytes(g, base, offset, [family, 0]) <==>
       BytesAt(g, base, offset, 2).Ok? && FromLe(BytesAt(g, base, offset, 2).value) == family)
  {
    hide Space.Bytes;
    var r := BytesAt(g, base, offset, 2);
    if r.Ok? {
      var b := r.value;
      assert b[1..][1..] == [] && FromLe(b[1..]) == b[1] + 0x100 * FromLe(b[1..][1..]);
      assert b == [b[0], b[1]];
    }
  }

  lemma OneByte(g: Space, base: u64, offset: u64, x: nat)
    requires g.Valid()
    ensures x < 0x100 && HoldsBytes(g, base, offset, [x]) <==>
      BytesAt(g, base, offset, 1).Ok? && BytesAt(g, base, offset, 1).value[0] == x
  {
    hide Space.Bytes;
    var r := BytesAt(g, base, offset, 1);
    if r.Ok? { assert r.value == [r.value[0]]; }
  }

  lemma PortBytes(g: Space, base: u64, offset: u64, port: nat)
    requires g.Valid()
    ensures port < 0x1_0000 && HoldsBytes(g, base, offset, [port / 0x100, port % 0x100]) <==>
      BytesAt(g, base, offset, 2).Ok? && BigEndian(BytesAt(g, base, offset, 2).value) == port
  {
    hide Space.Bytes;
    var r := BytesAt(g, base, offset, 2);
    if r.Ok? { assert r.value == [r.value[0], r.value[1]]; }
  }

  /** The socket a hash node stands for. */
  ghost function NodeSocket(g: Space, h: HashOffsets, o: SocketOffsets, node: u64): Result<Socket>
    requires g.Valid()
  {
    match Next(g, h.sock, node)
    case Err(e) => Err(e)
    case Ok(sock) => if sock == 0 then Err(NULL_SOCK) else DecodeSock(g, o, sock)
  }

  // ---------- one chain, and all of them ----------

  /** Follows one bucket; `visited` holds the nodes of all buckets so far. */
  ghost function ChainFrom(g: Space, h: HashOffsets, o: SocketOffsets, node: u64, limit: nat, visited: seq<u64>):
    (r: Result<seq<u64>>)
    requires g.Valid() && |visited| <= limit
    ensures r.Ok? ==> |r.value| <= limit
    decreases limit - |visited|
  {
    if node == 0 then Ok(visited)
    else if node in visited then Err(REPEATED)
    else
      var socket :- NodeSocket(g, h, o, node);
      if |visited| + 1 > limit then Err(TOO_MANY)
      else
        var next :- Next(g, h.next, node);
        ChainFrom(g, h, o, next, limit, visited + [node])
  }

  function BucketAddress(h: HashOffsets, table: u64, bucket: nat): Result<u64> {
    if table + bucket * h.stride + h.first < U64_LIMIT then Ok(table + bucket * h.stride + h.first)
    else Err(BUCKET_OVERFLOW)
  }

  ghost function BucketFirst(g: Space, h: HashOffsets, table: u64, bucket: nat): Result<u64>
    requires g.Valid()
  {
    match BucketAddress(h, table, bucket) case Err(e) => Err(e) case Ok(a) => g.U64(a)
  }

  /** The head of a bucket is the word at `first` in the bucket's slot. */
  lemma BucketExact(g: Space, h: HashOffsets, table: u64, bucket: nat, node: u64)
    requires g.Valid()
    ensures BucketFirst(g, h, table, bucket) == Ok(node) <==>
      var slot := table + bucket * h.stride + h.first;
      slot < U64_LIMIT && g.Bytes(slot, 8) == Ok(ToLe(node, 8))
  {
    hide Space.Bytes, ToLe;
    var slot := table + bucket * h.stride + h.first;
    if slot < U64_LIMIT { WordsExact(g, slot, node, 0); }
  }

  ghost function TableFrom(
    g: Space, h: HashOffsets, o: SocketOffsets, table: u64, count: nat, limit: nat, bucket: nat, visited: seq<u64>):
    Result<seq<u64>>
    requires g.Valid() && |visited| <= limit
    decreases count - bucket
  {
    if bucket >= count then Ok(visited)
    else
      match BucketFirst(g, h, table, bucket)
      case Err(e) => Err(e)
      case Ok(first) =>
        match ChainFrom(g, h, o, first, limit, visited)
        case Err(e) => Err(e)
        case Ok(v) => TableFrom(g, h, o, table, count, limit, bucket + 1, v)
  }

  // ---------- what success means ----------

  predicate NoRepeat(nodes: seq<u64>) {
    forall i, j | 0 <= i < j < |nodes| :: nodes[i] != nodes[j]
  }

  /** `nodes` is the concatenation of the null-terminated chains of the buckets
      from `bucket` on. */
  ghost predicate Chains(g: Space, h: HashOffsets, table: u64, count: nat, bucket: nat, nodes: seq<u64>)
    requires g.Valid()
    decreases count - bucket
  {
    if bucket >= count then nodes == []
    else
      && BucketFirst(g, h, table, bucket).Ok?
      && exists n: nat | n <= |nodes| && Returns(g, h.next, 0, BucketFirst(g, h, table, bucket).value, n) ::
           && nodes[..n] == Nodes(g, h.next, 0, BucketFirst(g, h, table, bucket).value, n)
           && Chains(g, h, table, count, bucket + 1, nodes[n..])
  }

  ghost predicate Decodable(g: Space, h: HashOffsets, o: SocketOffsets, nodes: seq<u64>)
    requires g.Valid()
  {
    forall i | 0 <= i < |nodes| :: NodeSocket(g, h, o, nodes[i]).Ok?
  }

  lemma NoRepeatPush(nodes: seq<u64>, x: u64)
    ensures NoRepeat(nodes + [x]) <==> NoRepeat(nodes) && x !in nodes
  {
    var all := nodes + [x];
    if NoRepeat(all) {
      forall i, j | 0 <= i < j < |nodes| ensures nodes[i] != nodes[j] { assert all[i] != all[j]; }
      forall i | 0 <= i < |nodes| ensures nodes[i] != x { assert all[i] != all[|nodes|]; }
    }
  }

  lemma NoRepeatPrefix(a: seq<u64>, b: seq<u64>)
    requires NoRepeat(a + b)
    ensures NoRepeat(a)
  {
    forall i, j | 0 <= i < j < |a| ensures a[i] != a[j] { assert (a + b)[i] != (a + b)[j]; }
  }

  /** One chain: success exactly when it is null-terminated and adds only new,
      decodable nodes within the limit. */
  lemma {:induction false} ChainFromExact(
    g: Space, h: HashOffsets, o: SocketOffsets, node: u64, limit: nat, visited: seq<u64>, n: nat)
    requires g.Valid() && |visited| <= limit && NoRepeat(visited) && Returns(g, h.next, 0, node, n)
    ensures var all := visited + Nodes(g, h.next, 0, node, n);
      if NoRepeat(all) && |all| <= limit && Decodable(g, h, o, Nodes(g, h.next, 0, node, n))
      then ChainFrom(g, h, o, node, limit, visited) == Ok(all)
      else ChainFrom(g, h, o, node, limit, visited).Err?
    decreases n
  {
    hide Next, NodeSocket;
    var nodes := Nodes(g, h.next, 0, node, n);
    if node == 0 {
      assert visited + nodes == visited;
    } else {
      var next := Next(g, h.next, node).value;
      var rest := Nodes(g, h.next, 0, next, n - 1);
      assert nodes == [node] + rest;
      assert visited + nodes == visited + [node] + rest;
      NoRepeatPush(visited, node);
      if NoRepeat(visited + nodes) { NoRepeatPrefix(visited + [node], rest); }
      DecodableCons(g, h, o, node, rest);
      if node !in visited && NodeSocket(g, h, o, node).Ok? && |visited| + 1 <= limit {
        ChainFromExact(g, h, o, next, limit, visited + [node], n - 1);
      }
    }
  }

  lemma DecodableCons(g: Space, h: HashOffsets, o: SocketOffsets, node: u64, rest: seq<u64>)
    requires g.Valid()
    ensures Decodable(g, h, o, [node] + rest) <==> NodeSocket(g, h, o, node).Ok? && Decodable(g, h, o, rest)
  {
    hide NodeSocket;
    var all := [node] + rest;
    assert all[0] == node && forall i | 0 <= i < |rest| :: all[i + 1] == rest[i];
    if Decodable(g, h, o, all) {
      forall i | 0 <= i < |rest| ensures NodeSocket(g, h, o, rest[i]).Ok? { assert NodeSocket(g, h, o, all[i + 1]).Ok?; }
    }
  }

  lemma {:induction false} ChainFromEnds(
    g: Space, h: HashOffsets, o: SocketOffsets, node: u64, limit: nat, visited: seq<u64>)
    returns (n: nat)
    requires g.Valid() && |visited| <= limit && ChainFrom(g, h, o, node, limit, visited).Ok?
    ensures Returns(g, h.next, 0, node, n)
    decreases limit - |visited|
  {
    hide Next, NodeSocket;
    if node == 0 {
      n := 0;
    } else {
      n := ChainFromEnds(g, h, o, Next(g, h.next, node).value, limit, visited + [node]);
      n := n + 1;
    }
  }

  lemma ChainSuffix(g: Space, h: HashOffsets, o: SocketOffsets, node: u64, limit: nat, visited: seq<u64>, n: nat)
    requires g.Valid() && |visited| <= limit && NoRepeat(visited) && Returns(g, h.next, 0, node, n)
    requires ChainFrom(g, h, o, node, limit, visited).Ok?
    ensures var v := ChainFrom(g, h, o, node, limit, visited).value;
      && v == visited + Nodes(g, h.next, 0, node, n) && NoRepeat(v)
      && Decodable(g, h, o, Nodes(g, h.next, 0, node, n))
  {
    ChainFromExact(g, h, o, node, limit, visited, n);
  }

  /** The whole table. */
  lemma {:induction false} TableFromExact(
    g: Space, h: HashOffsets, o: SocketOffsets, table: u64, count: nat, limit: nat, bucket: nat,
    visited: seq<u64>, nodes: seq<u64>)
    requires g.Valid() && |visited| <= limit && NoRepeat(visited)
    ensures TableFrom(g, h, o, table, count, limit, bucket, visited) == Ok(visited + nodes) <==>
      && Chains(g, h, table, count, bucket, nodes)
      && NoRepeat(visited + nodes) && |visited + nodes| <= limit && Decodable(g, h, o, nodes)
    decreases count - bucket
  {
    if bucket >= count {
      assert visited + nodes == visited <==> nodes == [] by { assert visited + [] == visited; }
    } else {
      if TableFrom(g, h, o, table, count, limit, bucket, visited) == Ok(visited + nodes) {
        TableOnlyIf(g, h, o, table, count, limit, bucket, visited, nodes);
      }
      if Chains(g, h, table, count, bucket, nodes) && NoRepeat(visited + nodes) && |visited + nodes| <= limit
        && Decodable(g, h, o, nodes) {
        TableIf(g, h, o, table, count, limit, bucket, visited, nodes);
      }
    }
  }

  lemma DecodableConcat(g: Space, h: HashOffsets, o: SocketOffsets, a: seq<u64>, b: seq<u64>)
    requires g.Valid()
    ensures Decodable(g, h, o, a + b) <==> Decodable(g, h, o, a) && Decodable(g, h, o, b)
  {
    hide NodeSocket;
    var all := a + b;
    if Decodable(g, h, o, all) {
      forall i | 0 <= i < |a| ensures NodeSocket(g, h, o, a[i]).Ok? { assert NodeSocket(g, h, o, all[i]).Ok?; }
      forall i | 0 <= i < |b| ensures NodeSocket(g, h, o, b[i]).Ok? { assert NodeSocket(g, h, o, all[|a| + i]).Ok?; }
    }
  }

  lemma {:induction false} TableOnlyIf(
    g: Space, h: HashOffsets, o: SocketOffsets, table: u64, count: nat, limit: nat, bucket: nat,
    visited: seq<u64>, nodes: seq<u64>)
    requires g.Valid() && |visited| <= limit && NoRepeat(visited) && bucket < count
    requires TableFrom(g, h, o, table, count, limit, bucket, visited) == Ok(visited + nodes)
    ensures Chains(g, h, table, count, bucket, nodes)
    ensures NoRepeat(visited + nodes) && |visited + nodes| <= limit && Decodable(g, h, o, nodes)
    decreases count - bucket, 0
  {
    hide Next, NodeSocket, BucketFirst, Decodable, NoRepeat, ChainFrom;
    var first := BucketFirst(g, h, table, bucket).value;
    var n := ChainFromEnds(g, h, o, first, limit, visited);
    ChainSuffix(g, h, o, first, limit, visited, n);
    var chain := Nodes(g, h.next, 0, first, n);
    var v := visited + chain;
    TablePrefix(g, h, o, table, count, limit, bucket + 1, v);
    assert v <= visited + nodes;
    var rest := nodes[n..];
    assert chain == (visited + nodes)[|visited|..|visited| + n] == nodes[..n];
    assert nodes == chain + rest;
    assert v + rest == visited + nodes;
    TableFromExact(g, h, o, table, count, limit, bucket + 1, v, rest);
    DecodableConcat(g, h, o, chain, rest);
  }

  lemma {:induction false} TablePrefix(
    g: Space, h: HashOffsets, o: SocketOffsets, table: u64, count: nat, limit: nat, bucket: nat, visited: seq<u64>)
    requires g.Valid() && |visited| <= limit && NoRepeat(visited)
    ensures var r := TableFrom(g, h, o, table, count, limit, bucket, visited); r.Ok? ==> visited <= r.value
    decreases count - bucket
  {
    hide Next, NodeSocket, BucketFirst, NoRepeat, ChainFrom;
    if bucket < count && BucketFirst(g, h, table, bucket).Ok? {
      var first := BucketFirst(g, h, table, bucket).value;
      var v := ChainFrom(g, h, o, first, limit, visited);
      if v.Ok? {
        var n := ChainFromEnds(g, h, o, first, limit, visited);
        ChainSuffix(g, h, o, first, limit, visited, n);
        TablePrefix(g, h, o, table, count, limit, bucket + 1, v.value);
      }
    }
  }

  lemma {:induction false} TableIf(
    g: Space, h: HashOffsets, o: SocketOffsets, table: u64, count: nat, limit: nat, bucket: nat,
    visited: seq<u64>, nodes: seq<u64>)
    requires g.Valid() && |visited| <= limit && NoRepeat(visited) && bucket < count
    requires Chains(g, h, table, count, bucket, nodes)
    requires NoRepeat(visited + nodes) && |visited + nodes| <= limit && Decodable(g, h, o, nodes)
    ensures TableFrom(g, h, o, table, count, limit, bucket, visited) == Ok(visited + nodes)
    decreases count - bucket, 0
  {
    hide Next, NodeSocket, BucketFirst, Decodable, NoRepeat, ChainFrom;
    var first := BucketFirst(g, h, table, bucket).value;
    var n: nat :| n <= |nodes| && Returns(g, h.next, 0, first, n)
      && nodes[..n] == Nodes(g, h.next, 0, first, n) && Chains(g, h, table, count, bucket + 1, nodes[n..]);
    var chain, rest := nodes[..n], nodes[n..];
    assert nodes == chain + rest && visited + nodes == visited + chain + rest;
    DecodableConcat(g, h, o, chain, rest);
    NoRepeatPrefix(visited + chain, rest);
    ChainFromExact(g, h, o, first, limit, visited, n);
    TableFromExact(g, h, o, table, count, limit, bucket + 1, visited + chain, rest);
  }

  // ---------- the traversal ----------

  method ReadField(reader: Reader, base: u64, offset: u64, n: nat) returns (r: Result<seq<byte>>)
    requires reader.Valid()
    modifies reader.session.translations
    ensures reader.Valid() && reader.Sees() == old(reader.Sees())
    ensures r == BytesAt(reader.Sees(), base, offset, n)
  {
    hide Space.Bytes, Reader.Valid;
    var a :- Add(base, offset);
    r := reader.ReadBytes(a, n);
  }

  method ReadLink(reader: Reader, link: u64, node: u64) returns (r: Result<u64>)
    requires reader.Valid()
    modifies reader.session.translations
    ensures reader.Valid() && reader.Sees() == old(reader.Sees())
    ensures r == Next(reader.Sees(), link, node)
  {
    hide Space.U64, Reader.Valid;
    var a :- Add(node, link);
    r := reader.ReadU64(a);
  }

  method Decode(reader: Reader, o: SocketOffsets, sock: u64) returns (r: Result<Socket>)
    requires reader.Valid()
    modifies reader.session.translations
    ensures reader.Valid() && reader.Sees() == old(reader.Sees())
    ensures r == DecodeSock(reader.Sees(), o, sock)
  {
    hide BytesAt, Reader.Valid;
    var family :- ReadField(reader, sock, o.family, 2);
    var protocol :- ReadField(reader, sock, o.protocol, 1);
    var state :- ReadField(reader, sock, o.state, 1);
    var f := FromLe(family);
    if f != 2 && f != 10 { return Err(BAD_FAMILY); }
    var width := if f == 2 then 4 else 16;
    var source :- ReadField(reader, sock, if f == 2 then o.ipv4Source else o.ipv6Source, width);
    var destination :- ReadField(reader, sock, if f == 2 then o.ipv4Destination else o.ipv6Destination, width);
    var sourcePort :- ReadField(reader, sock, o.sourcePort, 2);
    var destinationPort :- ReadField(reader, sock, o.destinationPort, 2);
    return Ok(Socket(sock, f, protocol[0], state[0], source, BigEndian(sourcePort), destination, BigEndian(destinationPort)));
  }

  method NodeSocketAt(reader: Reader, h: HashOffsets, o: SocketOffsets, node: u64) returns (r: Result<Socket>)
    requires reader.Valid()
    modifies reader.session.translations
    ensures reader.Valid() && reader.Sees() == old(reader.Sees())
    ensures r == NodeSocket(reader.Sees(), h, o, node)
  {
    hide Next, DecodeSock, Reader.Valid;
    var sock :- ReadLink(reader, h.sock, node);
    if sock == 0 { return Err(NULL_SOCK); }
    r := Decode(reader, o, sock);
  }

  /** `output` holds the sockets of the visited nodes. */
  ghost predicate Collected(g: Space, h: HashOffsets, o: SocketOffsets, visited: seq<u64>, output: seq<Socket>)
    requires g.Valid()
  {
    |output| == |visited| && forall i | 0 <= i < |visited| :: NodeSocket(g, h, o, visited[i]) == Ok(output[i])
  }

  method SocketsFromHashTable(
    reader: Reader, table: u64, bucketCount: nat, h: HashOffsets, o: SocketOffsets, limit: nat)
    returns (r: Result<seq<Socket>>, ghost nodes: seq<u64>)
    requires reader.Valid()
    modifies reader.session.translations
    ensures reader.Valid() && reader.Sees() == old(reader.Sees())
    ensures r.Ok? <==>
      && table != 0 && 0 < bucketCount <= 1_048_576 && h.stride != 0 && limit != 0
      && TableFrom(reader.Sees(), h, o, table, bucketCount, limit, 0, []).Ok?
    ensures r.Ok? ==>
      && TableFrom(reader.Sees(), h, o, table, bucketCount, limit, 0, []) == Ok(nodes)
      && Collected(reader.Sees(), h, o, nodes, r.value)
  {
    hide Space.U64, Space.Bytes, NodeSocket, Next, Reader.Valid;
    nodes := [];
    if table == 0 || bucketCount == 0 || bucketCount > 1_048_576 || h.stride == 0 || limit == 0 {
      return Err(BAD_ARGUMENTS), nodes;
    }
    ghost var g := reader.Sees();
    assert g.Valid() by { LinuxLists.SeesValid(reader); }
    ghost var goal := TableFrom(g, h, o, table, bucketCount, limit, 0, []);
    var seen: set<u64>, output: seq<Socket>, bucket := {}, [], 0;
    while bucket < bucketCount
      invariant reader.Valid() && reader.Sees() == g && bucket <= bucketCount && |nodes| <= limit
      invariant goal == TableFrom(g, h, o, table, bucketCount, limit, bucket, nodes)
      invariant seen == (set x | x in nodes) && Collected(g, h, o, nodes, output)
    {
      var address := BucketAddress(h, table, bucket);
      if address.Err? { return Err(address.error), nodes; }
      var first := reader.ReadU64(address.value);
      if first.Err? { return Err(first.error), nodes; }
      var node: u64 := first.value;
      ghost var chain := ChainFrom(g, h, o, node, limit, nodes);
      while node != 0
        invariant reader.Valid() && reader.Sees() == g && |nodes| <= limit
        invariant chain == ChainFrom(g, h, o, node, limit, nodes)
        invariant seen == (set x | x in nodes) && Collected(g, h, o, nodes, output)
        decreases limit - |nodes|
      {
        if node in seen { return Err(REPEATED), nodes; }
        seen := LinuxLists.Including(seen, node);
        var socket := NodeSocketAt(reader, h, o, node);
        if socket.Err? { return Err(socket.error), nodes; }
        output := output + [socket.value];
        if |output| > limit { return Err(TOO_MANY), nodes; }
        var next := ReadLink(reader, h.next, node);
        if next.Err? { return Err(next.error), nodes; }
        nodes := nodes + [node];
        node := next.value;
      }
      bucket := bucket + 1;
    }
    return Ok(output), nodes;
  }

  /** Success means: every bucket's chain is null-terminated, no node is listed
      twice in the whole table, and the output is the sockets of the concatenated
      chains, in bucket order. */
  lemma HashTableExact(g: Space, h: HashOffsets, o: SocketOffsets, table: u64, count: nat, limit: nat, nodes: seq<u64>)
    requires g.Valid()
    ensures TableFrom(g, h, o, table, count, limit, 0, []) == Ok(nodes) <==>
      Chains(g, h, table, count, 0, nodes) && NoRepeat(nodes) && |nodes| <= limit && Decodable(g, h, o, nodes)
  {
    TableFromExact(g, h, o, table, count, limit, 0, [], nodes);
    assert [] + nodes == nodes;
  }
}
