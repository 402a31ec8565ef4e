/** `handles` of vmi-os-windows: the radix table of handles of a process. */
module WindowsHandles {
  import opened Words
  import opened BitMasks
  import opened VmiTypes
  import opened Guest
  import LinuxLists

  const PAGE: nat := 4096
  const POINTERS_PER_PAGE: nat := 512

  const BAD_ARGUMENTS := VmiError.Backend("invalid Windows handle-table arguments")
  const BAD_LEVEL := VmiError.Backend("invalid Windows handle table level")
  const NO_ENTRIES := VmiError.Backend("Windows handle table has null entry array")
  const UNALIGNED := VmiError.Backend("unaligned Windows next handle")
  const TOO_MANY := VmiError.Backend("Windows handle count exceeds limit")
  const BAD_TABLE := VmiError.Backend("invalid Windows handle table page pointer")

  datatype Offsets = Offsets(
    objectTable: u64, tableCode: u64, nextHandle: u64, entrySize: u64, entryObject: u64,
    entryAccess: u64, pointerMask: u64, pointerShift: nat, signBit: nat)
  {
    predicate Valid() {
      0 < entrySize <= PAGE && PAGE % entrySize == 0 && pointerShift < 64 && signBit < 64
    }
  }

  datatype Handle = Handle(handle: u64, object: u64, access: nat)

  // ---------- decoding an entry ----------

  /** `x << n` in 64 bits */
  function Shl64(x: u64, n: nat): u64 { Shl(x, n) % U64_LIMIT }

  /** Bit `k` of a shifted word is bit `k - n` of the word. */
  lemma Shl64Bits(x: u64, n: nat, k: nat)
    requires k < 64
    ensures Bit(Shl64(x, n), k) <==> k >= n && Bit(x, k - n)
  {
    hide Shl, Low, Above;
    var top := 64;
    Pow2Value(top);
    ShiftIsDivision(Shl(x, n), top);
    LowOfLow(Shl(x, n), top, k + 1);
    ShlBits(x, n, k);
  }

  lemma {:induction false} ShlBits(x: nat, n: nat, k: nat)
    ensures Bit(Shl(x, n), k) <==> k >= n && Bit(x, k - n)
  {
    if n > 0 {
      assert Shl(x, n) % 2 == 0 && Shl(x, n) / 2 == Shl(x, n - 1);
      if k > 0 { ShlBits(x, n - 1, k - 1); }
    }
  }

  /** A word read in two's complement. */
  function Signed(x: u64): int { if 2 * x < U64_LIMIT then x else x - U64_LIMIT }

  lemma CongruentInRange(d: int, p: int, k: int)
    requires p > 0 && d == p * k && -p < d < p
    ensures d == 0
  {
    if k >= 1 { MulAtLeast(p, k); assert false; }
    if k <= -1 { MulNegated(p, k); MulAtLeast(p, -k); assert false; }
  }

  lemma MulNegated(p: int, k: int)
    ensures p * -k == -(p * k)
  {
  }

  lemma PositiveFactor(p: int, k: int)
    requires p > 0 && p * k > 0
    ensures p * k >= p
  {
    if k <= -1 { MulNegated(p, k); MulAtLeast(p, -k); assert false; }
    if k >= 1 { MulAtLeast(p, k); }
  }

  /** The signed value of a word, against a modulus `p` that divides the word size. */
  lemma SignedQuotient(p: int, k: int, y: u64) returns (q: int)
    requires p > 0 && p * k == U64_LIMIT
    ensures Signed(y) == p * q + y % p
  {
    q := if 2 * y < U64_LIMIT then y / p else y / p - k;
    assert y == p * (y / p) + y % p;
    assert p * (y / p - k) == p * (y / p) - p * k;
  }

  function Extended(t: int, p: int, half: int): int { if t < half then t else t + (U64_LIMIT - p) }

  lemma ExtendedInRange(t: int, p: int, k: int, half: int)
    requires p == 2 * half && 0 <= t < p && p * k == U64_LIMIT
    ensures 0 <= Extended(t, p, half) < U64_LIMIT
    ensures Signed(Extended(t, p, half)) == if t < half then t else t - p
    ensures Extended(t, p, half) % p == t
  {
    PositiveFactor(p, k);
    if t < half {
      DivModUnique(t, p, 0, t);
    } else {
      assert p * (k - 1) == p * k - p;
      DivModUnique(Extended(t, p, half), p, k - 1, t);
    }
  }

  lemma ExtendedUnique(t: int, p: int, k: int, half: int, y: u64)
    requires p == 2 * half && 0 <= t < p && p * k == U64_LIMIT
    requires y % p == t && -half <= Signed(y) < half
    ensures y == Extended(t, p, half)
  {
    ExtendedInRange(t, p, k, half);
    var x: u64 := Extended(t, p, half);
    var qy := SignedQuotient(p, k, y);
    var qx := SignedQuotient(p, k, x);
    assert p * (qy - qx) == p * qy - p * qx;
    CongruentInRange(Signed(y) - Signed(x), p, qy - qx);
  }

  lemma WordIsMultiple(width: nat) returns (k: nat)
    requires width <= 64
    ensures Pow2(width) * k == U64_LIMIT
  {
    k := Pow2(64 - width);
    ShlPow2(width, 64 - width);
    ShlIsTimes(k, width);
    var top := 64;
    Pow2Value(top);
  }

  predicate SignExtends(y: u64, value: u64, signBit: nat) {
    && Low(y, signBit + 1) == Low(value, signBit + 1)
    && 0 <= Signed(y) + Pow2(signBit) < 2 * Pow2(signBit)
  }

  /** Sign extension keeps the low bits and yields the one word whose signed value
      fits in them. */
  lemma SignExtendExact(value: u64, signBit: nat, y: u64)
    requires signBit < 64
    ensures y == SignExtend(value, signBit + 1) <==> SignExtends(y, value, signBit)
  {
    hide Low, Above, Pow2, Extended;
    var width := signBit + 1;
    var p, half, t := Pow2(width), Pow2(signBit), Low(value, width);
    DoublePow2(signBit);
    var k := WordIsMultiple(width);
    Rebuild(value, width);
    ExtendsLow(value, signBit);
    ExtendedInRange(t, p, k, half);
    ShiftIsDivision(y, width);
    if y % p == t && -half <= Signed(y) < half { ExtendedUnique(t, p, k, half, y); }
  }

  lemma ExtendsLow(value: u64, signBit: nat)
    requires signBit < 64
    ensures SignExtend(value, signBit + 1) == Extended(Low(value, signBit + 1), Pow2(signBit + 1), Pow2(signBit))
  {
    Rebuild(value, signBit + 1);
    LowOfLow(value, signBit + 1, signBit + 1);
    TopBit(Low(value, signBit + 1), signBit);
  }

  lemma DoublePow2(n: nat)
    ensures Pow2(n + 1) == 2 * Pow2(n)
  {
  }

  lemma TopBit(t: nat, n: nat)
    requires t < Pow2(n + 1)
    ensures Bit(t, n) <==> t >= Pow2(n)
  {
    ShiftIsDivision(t, n);
    DoublePow2(n);
    if t >= Pow2(n) { DivModUnique(t, Pow2(n), 1, t - Pow2(n)); } else { DivModUnique(t, Pow2(n), 0, t); }
  }

  // ---------- the radix table ----------

  /** The page-table digits of a leaf index, most significant first.  With no
      levels there are none, whatever the index. */
  function Digits(x: nat, levels: nat): (d: seq<nat>)
    ensures |d| == levels
  {
    if levels == 0 then [] else if levels == 1 then [x]
    else Digits(x / POINTERS_PER_PAGE, levels - 1) + [x % POINTERS_PER_PAGE]
  }

  function ValueOf(digits: seq<nat>): nat {
    if digits == [] then 0
    else POINTERS_PER_PAGE * ValueOf(digits[..|digits| - 1]) + digits[|digits| - 1]
  }

  function LeafCapacity(levels: nat): (n: nat)
    ensures n > 0
  {
    if levels == 0 then 1 else POINTERS_PER_PAGE * LeafCapacity(levels - 1)
  }

  /** Within the capacity every digit indexes inside its page and the digits
      determine the index. */
  lemma {:induction false} DigitsInCapacity(x: nat, levels: nat)
    requires x < LeafCapacity(levels)
    ensures ValueOf(Digits(x, levels)) == x
    ensures forall i | 0 <= i < levels :: Digits(x, levels)[i] < POINTERS_PER_PAGE
  {
    if levels == 1 {
      assert LeafCapacity(1) == POINTERS_PER_PAGE * LeafCapacity(0);
      assert [x][..0] == [];
    } else if levels > 1 {
      var d := Digits(x, levels);
      DigitsInCapacity(x / POINTERS_PER_PAGE, levels - 1);
      assert d[..|d| - 1] == Digits(x / POINTERS_PER_PAGE, levels - 1);
    }
  }

  ghost function TablePointer(g: Space, table: u64, index: nat): Result<u64>
    requires g.Valid()
  {
    hide Space.U64, Space.Bytes;
    if table + index * 8 >= U64_LIMIT then Err(VmiError.Backend("Windows handle pointer table overflow"))
    else
      var raw :- g.U64(table + index * 8);
      var pointer := raw - raw % 16;
      if pointer == 0 || pointer % 0x1000 != 0 then Err(BAD_TABLE) else Ok(pointer)
  }

  ghost function Follow(g: Space, base: u64, digits: seq<nat>): Result<u64>
    requires g.Valid()
    decreases |digits|
  {
    if digits == [] then Ok(base)
    else
      var next :- TablePointer(g, base, digits[0]);
      Follow(g, next, digits[1..])
  }

  /** The leaf page of a leaf index. */
  ghost function Leaf(g: Space, base: u64, level: nat, leafIndex: nat): Result<u64>
    requires g.Valid()
  {
    Follow(g, base, Digits(leafIndex, level))
  }

  /** Which leaf page an entry is in, and where in it. */
  function LeafIndex(index: nat, size: nat): nat
    requires 0 < size <= PAGE
  {
    index / (PAGE / size)
  }

  function EntryOffset(index: nat, size: nat): nat
    requires 0 < size <= PAGE
  {
    (index % (PAGE / size)) * size
  }

  ghost function EntryAddress(g: Space, base: u64, level: nat, index: nat, size: nat): Result<u64>
    requires g.Valid() && 0 < size <= PAGE
  {
    hide Leaf, EntryOffset, LeafIndex;
    var leaf :- Leaf(g, base, level, LeafIndex(index, size));
    var offset := EntryOffset(index, size);
    if leaf + offset >= U64_LIMIT then Err(VmiError.Backend("Windows handle leaf overflow"))
    else Ok(leaf + offset)
  }

  /** Entry `i` of the table page at `table` names the page `page`. */
  ghost predicate NamesPage(g: Space, table: u64, i: nat, page: u64)
    requires g.Valid()
  {
    && page != 0 && page % 0x1000 == 0 && table + 8 * i < U64_LIMIT
    && exists raw: u64 :: g.Bytes(table + 8 * i, 8) == Ok(ToLe(raw, 8)) && page <= raw < page + 16
  }

  lemma SixteenAligned(raw: nat, page: nat)
    requires page % 0x1000 == 0
    ensures raw - raw % 16 == page <==> page <= raw < page + 16
  {
    var sixteens := 0x100 * (page / 0x1000);
    assert page == 16 * sixteens;
    if page <= raw < page + 16 { DivModUnique(raw, 16, sixteens, raw - page); }
  }

  lemma TablePointerExact(g: Space, table: u64, i: nat, page: u64)
    requires g.Valid()
    ensures TablePointer(g, table, i) == Ok(page) <==> NamesPage(g, table, i, page)
  {
    hide Space.U64, Space.Bytes, ToLe;
    if page % 0x1000 == 0 && table + 8 * i < U64_LIMIT {
      forall raw: u64
        ensures g.U64(table + 8 * i) == Ok(raw) <==> g.Bytes(table + 8 * i, 8) == Ok(ToLe(raw, 8))
        ensures raw - raw % 16 == page <==> page <= raw < page + 16
      {
        WordsExact(g, table + 8 * i, raw, 0);
        SixteenAligned(raw, page);
      }
    }
  }

  /** Where entry `index` is: at its place in the base page, in the page its table names,
      or in the page that the table named by the directory names. */
  lemma EntryAddressExact(g: Space, base: u64, level: nat, index: nat, size: nat, slot: u64)
    requires g.Valid() && level <= 2 && 0 < size <= PAGE
    ensures EntryAddress(g, base, level, index, size) == Ok(slot) <==>
      var perPage := 4096 / size;
      var page, place := index / perPage, index % perPage * size;
      place <= slot &&
      if level == 0 then slot - place == base
      else if level == 1 then NamesPage(g, base, page, slot - place)
      else exists table: u64 :: NamesPage(g, base, page / 512, table) && NamesPage(g, table, page % 512, slot - place)
  {
    hide TablePointer, Leaf, NamesPage, EntryOffset, LeafIndex;
    var page, place := LeafIndex(index, size), EntryOffset(index, size);
    PlaceIs(index, size);
    if place <= slot { LeafExact(g, base, level, page, slot - place); }
  }

  lemma PlaceIs(index: nat, size: nat)
    requires 0 < size <= PAGE
    ensures LeafIndex(index, size) == index / (4096 / size)
    ensures EntryOffset(index, size) == index % (4096 / size) * size
  {
  }

  lemma LeafExact(g: Space, base: u64, level: nat, page: nat, leaf: u64)
    requires g.Valid() && level <= 2
    ensures Leaf(g, base, level, page) == Ok(leaf) <==>
      if level == 0 then leaf == base
      else if level == 1 then NamesPage(g, base, page, leaf)
      else exists table: u64 :: NamesPage(g, base, page / 512, table) && NamesPage(g, table, page % 512, leaf)
  {
    hide TablePointer, Leaf, NamesPage;
    FollowUpToTwo(g, base, page);
    if level == 1 { TablePointerExact(g, base, page, leaf); }
    if level == 2 {
      forall table: u64 { TablePointerExact(g, base, page / 512, table); }
      forall table: u64 { TablePointerExact(g, table, page % 512, leaf); }
    }
  }

  method ReadTablePointer(reader: Reader, table: u64, index: nat) returns (r: Result<u64>)
    requires reader.Valid()
    modifies reader.session.translations
    ensures reader.Valid() && reader.Sees() == old(reader.Sees())
    ensures r == TablePointer(reader.Sees(), table, index)
  {
    hide Space.U64, Reader.Valid;
    if table + index * 8 >= U64_LIMIT { return Err(VmiError.Backend("Windows handle pointer table overflow")); }
    var raw :- reader.ReadU64(table + index * 8);
    var pointer := raw - raw % 16;
    if pointer == 0 || pointer % 0x1000 != 0 { return Err(BAD_TABLE); }
    return Ok(pointer);
  }

  lemma FollowNone(g: Space, base: u64)
    requires g.Valid()
    ensures Follow(g, base, []) == Ok(base)
  {
  }

  lemma FollowOne(g: Space, base: u64, d: nat)
    requires g.Valid()
    ensures Follow(g, base, [d]) == TablePointer(g, base, d)
  {
    hide TablePointer;
    var none: seq<nat>, one: seq<nat> := [], [d];
    assert one[1..] == none;
    if TablePointer(g, base, d).Ok? { FollowNone(g, TablePointer(g, base, d).value); }
  }

  lemma LevelZeroLeaf(g: Space, base: u64, x: nat)
    requires g.Valid()
    ensures Leaf(g, base, 0, x) == Ok(base)
  {
    FollowNone(g, base);
  }

  lemma FollowUpToTwo(g: Space, base: u64, x: nat)
    requires g.Valid()
    ensures Leaf(g, base, 0, x) == Ok(base)
    ensures Leaf(g, base, 1, x) == TablePointer(g, base, x)
    ensures Leaf(g, base, 2, x) ==
      match TablePointer(g, base, x / POINTERS_PER_PAGE)
      case Err(e) => Err(e)
      case Ok(directory) => TablePointer(g, directory, x % POINTERS_PER_PAGE)
  {
    hide TablePointer;
    var q, r: nat := x / POINTERS_PER_PAGE, x % POINTERS_PER_PAGE;
    assert Digits(q, 1) == [q];
    var none: seq<nat>, one: seq<nat>, two: seq<nat> := [], [x], [q, r];
    assert Digits(x, 2) == two && two[1..] == [r] && [r][1..] == none && one[1..] == none;
    FollowNone(g, base);
    FollowOne(g, base, x);
    if TablePointer(g, base, q).Ok? { FollowOne(g, TablePointer(g, base, q).value, r); }
  }

  method HandleEntryAddress(reader: Reader, base: u64, level: nat, index: nat, size: nat) returns (r: Result<u64>)
    requires reader.Valid() && 0 < size <= PAGE && level <= 2
    modifies reader.session.translations
    ensures reader.Valid() && reader.Sees() == old(reader.Sees())
    ensures r == EntryAddress(reader.Sees(), base, level, index, size)
  {
    hide TablePointer, Leaf, Follow, EntryOffset, LeafIndex, Reader.Valid;
    PlaceIs(index, size);
    var perPage := PAGE / size;
    var leafIndex, entryIndex := index / perPage, index % perPage;
    assert reader.Sees().Valid() by { LinuxLists.SeesValid(reader); }
    FollowUpToTwo(reader.Sees(), base, leafIndex);
    var leaf: u64;
    if level == 0 {
      leaf := base;
    } else if level == 1 {
      leaf :- ReadTablePointer(reader, base, leafIndex);
    } else {
      var directory :- ReadTablePointer(reader, base, leafIndex / POINTERS_PER_PAGE);
      leaf :- ReadTablePointer(reader, directory, leafIndex % POINTERS_PER_PAGE);
    }
    var offset := entryIndex * size;
    if leaf + offset >= U64_LIMIT { return Err(VmiError.Backend("Windows handle leaf overflow")); }
    return Ok(leaf + offset);
  }

  // ---------- where entries lie ----------

  predicate Apart(a: nat, b: nat, size: nat) { a + size <= b || b + size <= a }

  /** No two of the first `count` entries share a byte. */
  ghost predicate SlotsDisjoint(g: Space, base: u64, level: nat, count: nat, size: nat)
    requires g.Valid() && 0 < size <= PAGE
  {
    forall i: nat, j: nat | i < j < count
      && EntryAddress(g, base, level, i, size).Ok? && EntryAddress(g, base, level, j, size).Ok? ::
      Apart(EntryAddress(g, base, level, i, size).value, EntryAddress(g, base, level, j, size).value, size)
  }

  /** No two of the leaf pages that hold the first `count` entries are the same. */
  ghost predicate LeavesDistinct(g: Space, base: u64, level: nat, count: nat, size: nat)
    requires g.Valid() && 0 < size <= PAGE
  {
    forall a: nat, b: nat | a < b && b * (PAGE / size) < count
      && Leaf(g, base, level, a).Ok? && Leaf(g, base, level, b).Ok? ::
      Leaf(g, base, level, a).value != Leaf(g, base, level, b).value
  }

  lemma EntriesFillPage(size: nat, k: nat)
    requires 0 < size <= PAGE && PAGE % size == 0 && k < PAGE / size
    ensures k * size + size <= PAGE
  {
    assert (PAGE / size) * size == PAGE;
    assert (k + 1) * size <= (PAGE / size) * size;
  }

  lemma LeafAligned(g: Space, base: u64, level: nat, leafIndex: nat)
    requires g.Valid() && 0 < level <= 2 && Leaf(g, base, level, leafIndex).Ok?
    ensures Leaf(g, base, level, leafIndex).value % PAGE == 0
  {
    hide Leaf, TablePointer;
    FollowUpToTwo(g, base, leafIndex);
    if level == 1 {
      PointerAligned(g, base, leafIndex);
    } else {
      var directory := TablePointer(g, base, leafIndex / POINTERS_PER_PAGE).value;
      PointerAligned(g, directory, leafIndex % POINTERS_PER_PAGE);
    }
  }

  lemma PointerAligned(g: Space, table: u64, index: nat)
    requires g.Valid() && TablePointer(g, table, index).Ok?
    ensures TablePointer(g, table, index).value % PAGE == 0
  {
    hide Space.U64;
  }

  ghost predicate InsideLeaf(g: Space, base: u64, level: nat, index: nat, size: nat)
    requires g.Valid() && 0 < size <= PAGE
  {
    hide Leaf, EntryAddress, EntryOffset, LeafIndex;
    var leaf, entry := Leaf(g, base, level, LeafIndex(index, size)), EntryAddress(g, base, level, index, size);
    entry.Ok? ==> leaf.Ok? && leaf.value <= entry.value && entry.value + size <= leaf.value + PAGE
  }

  /** An entry lies inside its leaf page. */
  lemma EntryInsideLeaf(g: Space, base: u64, level: nat, index: nat, size: nat)
    requires g.Valid() && 0 < size <= PAGE && PAGE % size == 0
    ensures InsideLeaf(g, base, level, index, size)
  {
    hide Leaf, EntryOffset;
    OffsetInside(index, size);
  }

  lemma OffsetInside(index: nat, size: nat)
    requires 0 < size <= PAGE && PAGE % size == 0
    ensures EntryOffset(index, size) + size <= PAGE
  {
    EntriesFillPage(size, index % (PAGE / size));
  }

  lemma OffsetsApart(i: nat, j: nat, size: nat)
    requires 0 < size <= PAGE && i < j && i / (PAGE / size) == j / (PAGE / size)
    ensures EntryOffset(i, size) + size <= EntryOffset(j, size)
  {
    SameLeafApart(PAGE / size, size, i, j, 0);
  }

  lemma SameLeafApart(perPage: nat, size: nat, i: nat, j: nat, leaf: nat)
    requires perPage > 0 && i < j && i / perPage == j / perPage
    ensures leaf + (i % perPage) * size + size <= leaf + (j % perPage) * size
  {
    assert i % perPage + 1 <= j % perPage;
    assert (i % perPage + 1) * size <= (j % perPage) * size;
  }

  lemma LeafIndexBound(perPage: nat, j: nat, count: nat)
    requires perPage > 0 && j < count
    ensures (j / perPage) * perPage < count
  {
  }

  lemma LeafIndexMonotone(perPage: nat, i: nat, j: nat)
    requires perPage > 0 && i <= j
    ensures i / perPage <= j / perPage
  {
    var d := i / perPage - j / perPage;
    assert perPage * d == perPage * (i / perPage) - perPage * (j / perPage);
    if d >= 1 { MulAtLeast(perPage, d); assert false; }
  }

  lemma SameLeafSlots(g: Space, base: u64, level: nat, size: nat, i: nat, j: nat)
    requires g.Valid() && 0 < size <= PAGE && i < j && i / (PAGE / size) == j / (PAGE / size)
    requires EntryAddress(g, base, level, i, size).Ok? && EntryAddress(g, base, level, j, size).Ok?
    ensures Apart(EntryAddress(g, base, level, i, size).value, EntryAddress(g, base, level, j, size).value, size)
  {
    hide Leaf, EntryOffset;
    OffsetsApart(i, j, size);
  }

  lemma TwoSlotsApart(g: Space, base: u64, level: nat, count: nat, size: nat, i: nat, j: nat)
    requires g.Valid() && level <= 2 && 0 < size <= PAGE && PAGE % size == 0
    requires LeavesDistinct(g, base, level, count, size) && i < j < count
    requires EntryAddress(g, base, level, i, size).Ok? && EntryAddress(g, base, level, j, size).Ok?
    ensures Apart(EntryAddress(g, base, level, i, size).value, EntryAddress(g, base, level, j, size).value, size)
  {
    hide Leaf, EntryAddress;
    var perPage := PAGE / size;
    var a, b := i / perPage, j / perPage;
    if a == b {
      SameLeafSlots(g, base, level, size, i, j);
    } else {
      LeafIndexMonotone(perPage, i, j);
      LeafIndexBound(perPage, j, count);
      EntryInsideLeaf(g, base, level, i, size);
      EntryInsideLeaf(g, base, level, j, size);
      DistinctLeavesApart(g, base, level, a, b);
    }
  }

  lemma DistinctLeavesApart(g: Space, base: u64, level: nat, a: nat, b: nat)
    requires g.Valid() && level <= 2 && Leaf(g, base, level, a).Ok? && Leaf(g, base, level, b).Ok?
    requires Leaf(g, base, level, a).value != Leaf(g, base, level, b).value
    ensures Apart(Leaf(g, base, level, a).value, Leaf(g, base, level, b).value, PAGE)
  {
    hide Leaf;
    if level == 0 {
      LevelZeroLeaf(g, base, a);
      LevelZeroLeaf(g, base, b);
      assert false;
    }
    LeafAligned(g, base, level, a);
    LeafAligned(g, base, level, b);
    PagesApart(Leaf(g, base, level, a).value, Leaf(g, base, level, b).value);
  }

  lemma PagesApart(x: nat, y: nat)
    requires x % PAGE == 0 && y % PAGE == 0 && x != y
    ensures Apart(x, y, PAGE)
  {
  }

  lemma FirstOfLeaf(g: Space, base: u64, level: nat, leafIndex: nat, size: nat)
    requires g.Valid() && 0 < size <= PAGE && PAGE % size == 0
    ensures EntryAddress(g, base, level, leafIndex * (PAGE / size), size) == Leaf(g, base, level, leafIndex)
  {
    hide Leaf;
    DivModUnique(leafIndex * (PAGE / size), PAGE / size, leafIndex, 0);
  }

  /** Different indices get different slots exactly when the leaf pages differ. */
  lemma SlotsDisjointExactly(g: Space, base: u64, level: nat, count: nat, size: nat)
    requires g.Valid() && level <= 2 && 0 < size <= PAGE && PAGE % size == 0
    ensures SlotsDisjoint(g, base, level, count, size) <==> LeavesDistinct(g, base, level, count, size)
  {
    hide Leaf, EntryAddress;
    var perPage := PAGE / size;
    if LeavesDistinct(g, base, level, count, size) {
      forall i: nat, j: nat | i < j < count
        && EntryAddress(g, base, level, i, size).Ok? && EntryAddress(g, base, level, j, size).Ok?
        ensures Apart(EntryAddress(g, base, level, i, size).value, EntryAddress(g, base, level, j, size).value, size)
      {
        TwoSlotsApart(g, base, level, count, size, i, j);
      }
    }
    if SlotsDisjoint(g, base, level, count, size) {
      forall a: nat, b: nat | a < b && b * perPage < count && Leaf(g, base, level, a).Ok? && Leaf(g, base, level, b).Ok?
        ensures Leaf(g, base, level, a).value != Leaf(g, base, level, b).value
      {
        FirstOfLeaf(g, base, level, a, size);
        FirstOfLeaf(g, base, level, b, size);
        ScaleLess(a, b, perPage);
        assert Apart(EntryAddress(g, base, level, a * perPage, size).value,
                     EntryAddress(g, base, level, b * perPage, size).value, size);
      }
    }
  }

  lemma ScaleLess(a: nat, b: nat, k: nat)
    requires a < b && k > 0
    ensures a * k < b * k
  {
  }

  /** With no table level the leaf index is ignored: only as many entries as fit
      one page have slots of their own. */
  lemma LevelZeroCapacity(g: Space, base: u64, count: nat, size: nat)
    requires g.Valid() && 0 < size <= PAGE && PAGE % size == 0
    ensures SlotsDisjoint(g, base, 0, count, size) <==> count <= PAGE / size
  {
    hide Leaf, EntryAddress;
    SlotsDisjointExactly(g, base, 0, count, size);
    LevelZeroLeaf(g, base, 0);
    LevelZeroLeaf(g, base, 1);
    var perPage := PAGE / size;
    if LeavesDistinct(g, base, 0, count, size) {
      assert Leaf(g, base, 0, 0).value == Leaf(g, base, 0, 1).value;
      assert 1 * perPage == perPage;
    } else {
      var a: nat, b: nat :| a < b && b * perPage < count;
      MulAtLeast(perPage, b);
    }
  }

  // ---------- the list of handles ----------

  ghost function EntryAt(g: Space, o: Offsets, entries: u64, level: nat, index: nat): Result<Option<Handle>>
    requires g.Valid() && o.Valid() && 4 * index < U64_LIMIT
  {
    hide EntryAddress, Space.U64, Space.U32, Space.Bytes, And, SignExtend;
    var entry :- EntryAddress(g, entries, level, index, o.entrySize);
    var objectAddress :- Add(entry, o.entryObject);
    var encoded :- g.U64(objectAddress);
    var pointer := Shl64(And(encoded, o.pointerMask), o.pointerShift);
    if pointer == 0 then Ok(None)
    else
      var accessAddress :- Add(entry, o.entryAccess);
      var access :- g.U32(accessAddress);
      Ok(Some(Handle(4 * index, SignExtend(pointer, o.signBit + 1), access)))
  }

  /** An object that an entry can hold: aligned for the shift, and the sign extension
      of its low bits. */
  predicate Representable(o: Offsets, target: u64) {
    && o.Valid() && o.pointerShift <= o.signBit
    && Low(target, o.pointerShift) == 0 && SignExtend(target, o.signBit + 1) == target
  }

  lemma LowFits(x: u64, n: nat)
    requires n <= 64
    ensures Low(x, n) < U64_LIMIT && Low(x, n) < Pow2(n)
  {
    hide Low, Pow2;
    var top := 64;
    Rebuild(x, n);
    Pow2Monotone(n, top);
    Pow2Value(top);
  }

  /** Shifting back what was shifted out of the low bits gives the object. */
  lemma ObjectRoundTrip(o: Offsets, target: u64, stored: u64)
    requires Representable(o, target) && stored == Above(Low(target, o.signBit + 1), o.pointerShift)
    ensures Shl64(stored, o.pointerShift) == Low(target, o.signBit + 1)
    ensures SignExtend(Shl64(stored, o.pointerShift), o.signBit + 1) == target
    ensures Shl64(stored, o.pointerShift) == 0 <==> target == 0
  {
    hide Low, Above, Shl, Pow2;
    var width, low := o.signBit + 1, Low(target, o.signBit + 1);
    LowFits(target, width);
    LowTwice(target, width, o.pointerShift);
    Rebuild(low, o.pointerShift);
    LowOfLow(target, width, width);
    SameExtension(target, low, width);
    if low == 0 { ExtendsZero(width); }
    if target == 0 { LowOfZero(width); }
  }

  lemma SameExtension(x: u64, y: u64, width: nat)
    requires 1 <= width <= 64 && Low(y, width) == Low(x, width) && (Bit(y, width - 1) <==> Bit(x, width - 1))
    ensures SignExtend(y, width) == SignExtend(x, width)
  {
    hide Low, Above, Pow2;
  }

  lemma ExtendsZero(width: nat)
    requires 1 <= width <= 64
    ensures SignExtend(0, width) == 0
  {
    LowOfZero(width);
    NoBits(width - 1);
  }

  /** Which handle an entry denotes: its two fields hold, in little-endian bytes, a word
      that keeps the object under the mask, and the access word; bits outside the mask
      are free.  An entry with nothing under the mask denotes none. */
  lemma EntryDenotes(
    g: Space, o: Offsets, entries: u64, level: nat, index: nat, slot: u64, word: u64, access: nat, target: u64)
    requires g.Valid() && 4 * index < U64_LIMIT && access < 0x1_0000_0000 && Representable(o, target)
    requires EntryAddress(g, entries, level, index, o.entrySize) == Ok(slot)
    requires slot + o.entryObject < U64_LIMIT && g.Bytes(slot + o.entryObject, 8) == Ok(ToLe(word, 8))
    requires slot + o.entryAccess < U64_LIMIT && g.Bytes(slot + o.entryAccess, 4) == Ok(ToLe(access, 4))
    requires And(word, o.pointerMask) == Above(Low(target, o.signBit + 1), o.pointerShift)
    ensures EntryAt(g, o, entries, level, index) ==
      Ok(if target == 0 then None else Some(Handle(4 * index, target, access)))
  {
    hide EntryAddress, Space.U64, Space.U32, Space.Bytes, And, SignExtend, ToLe, Low, Above, Shl64;
    WordsExact(g, slot + o.entryObject, word, 0);
    WordsExact(g, slot + o.entryAccess, 0, access);
    ObjectRoundTrip(o, target, And(word, o.pointerMask));
  }

  ghost function HandlesUpTo(g: Space, o: Offsets, entries: u64, level: nat, n: nat): Result<seq<Handle>>
    requires g.Valid() && o.Valid() && 4 * n <= U64_LIMIT
    decreases n
  {
    if n == 0 then Ok([])
    else
      var before :- HandlesUpTo(g, o, entries, level, n - 1);
      var entry :- EntryAt(g, o, entries, level, n - 1);
      Ok(if entry.Some? then before + [entry.value] else before)
  }

  /** Every entry is readable, and `list` has each non-null one once, ascending. */
  ghost predicate IsListing(g: Space, o: Offsets, entries: u64, level: nat, n: nat, list: seq<Handle>)
    requires g.Valid() && o.Valid() && 4 * n <= U64_LIMIT
  {
    && (forall i: nat | i < n :: EntryAt(g, o, entries, level, i).Ok?)
    && (forall i: nat | i < n && EntryAt(g, o, entries, level, i).value.Some? ::
          EntryAt(g, o, entries, level, i).value.value in list)
    && (forall k: nat | k < |list| ::
          && list[k].handle % 4 == 0 && list[k].handle / 4 < n
          && EntryAt(g, o, entries, level, list[k].handle / 4) == Ok(Some(list[k])))
    && (forall j: nat, k: nat | j < k < |list| :: list[j].handle < list[k].handle)
  }

  lemma {:induction false} HandlesExact(g: Space, o: Offsets, entries: u64, level: nat, n: nat, list: seq<Handle>)
    requires g.Valid() && o.Valid() && 4 * n <= U64_LIMIT
    ensures HandlesUpTo(g, o, entries, level, n) == Ok(list) <==> IsListing(g, o, entries, level, n, list)
    decreases n
  {
    if HandlesUpTo(g, o, entries, level, n) == Ok(list) { HandlesAreListed(g, o, entries, level, n, list); }
    if IsListing(g, o, entries, level, n, list) { ListingIsFound(g, o, entries, level, n, list); }
  }

  lemma HandleValue(g: Space, o: Offsets, entries: u64, level: nat, i: nat)
    requires g.Valid() && o.Valid() && 4 * i < U64_LIMIT
    ensures var e := EntryAt(g, o, entries, level, i);
      e.Ok? && e.value.Some? ==> e.value.value.handle == 4 * i
  {
    hide EntryAddress, Space.U64, Space.U32, SignExtend;
  }

  lemma EntryIsListed(g: Space, o: Offsets, entries: u64, level: nat, n: nat, before: seq<Handle>)
    requires g.Valid() && o.Valid() && 0 < 4 * n <= U64_LIMIT && IsListing(g, o, entries, level, n - 1, before)
    requires EntryAt(g, o, entries, level, n - 1).Ok?
    ensures var entry := EntryAt(g, o, entries, level, n - 1).value;
      IsListing(g, o, entries, level, n, if entry.Some? then before + [entry.value] else before)
  {
    hide EntryAt;
    HandleValue(g, o, entries, level, n - 1);
    var entry := EntryAt(g, o, entries, level, n - 1).value;
    if entry.Some? {
      var list := before + [entry.value];
      assert forall k: nat | k < |before| :: list[k] == before[k];
      assert forall h | h in before :: h in list;
    }
  }

  lemma {:induction false} HandlesAreListed(g: Space, o: Offsets, entries: u64, level: nat, n: nat, list: seq<Handle>)
    requires g.Valid() && o.Valid() && 4 * n <= U64_LIMIT && HandlesUpTo(g, o, entries, level, n) == Ok(list)
    ensures IsListing(g, o, entries, level, n, list)
    decreases n
  {
    hide EntryAt, IsListing;
    if n > 0 {
      var before := HandlesUpTo(g, o, entries, level, n - 1).value;
      HandlesAreListed(g, o, entries, level, n - 1, before);
      EntryIsListed(g, o, entries, level, n, before);
    } else {
      NothingIsListed(g, o, entries, level);
    }
  }

  lemma NothingIsListed(g: Space, o: Offsets, entries: u64, level: nat)
    requires g.Valid() && o.Valid()
    ensures IsListing(g, o, entries, level, 0, [])
  {
  }

  /** The entry of the highest index, if it is not null, is listed last. */
  lemma LastIsHighest(g: Space, o: Offsets, entries: u64, level: nat, n: nat, list: seq<Handle>)
    requires g.Valid() && o.Valid() && 0 < 4 * n <= U64_LIMIT && IsListing(g, o, entries, level, n, list)
    requires EntryAt(g, o, entries, level, n - 1).value.Some?
    ensures list != [] && list[|list| - 1] == EntryAt(g, o, entries, level, n - 1).value.value
  {
    hide EntryAt;
    var entry := EntryAt(g, o, entries, level, n - 1).value.value;
    HandleValue(g, o, entries, level, n - 1);
    assert entry in list;
    var k: nat :| k < |list| && list[k] == entry;
    var last := |list| - 1;
    assert list[last].handle / 4 < n && list[last].handle % 4 == 0;
    assert k == last;
  }

  lemma LastIsListed(g: Space, o: Offsets, entries: u64, level: nat, n: nat, list: seq<Handle>)
    requires g.Valid() && o.Valid() && 0 < 4 * n <= U64_LIMIT && IsListing(g, o, entries, level, n, list)
    requires EntryAt(g, o, entries, level, n - 1).value.Some?
    ensures list != [] && list[|list| - 1] == EntryAt(g, o, entries, level, n - 1).value.value
    ensures IsListing(g, o, entries, level, n - 1, list[..|list| - 1])
  {
    hide EntryAt;
    HandleValue(g, o, entries, level, n - 1);
    LastIsHighest(g, o, entries, level, n, list);
    var last := |list| - 1;
    var rest := list[..last];
    forall i: nat | i < n - 1 && EntryAt(g, o, entries, level, i).value.Some?
      ensures EntryAt(g, o, entries, level, i).value.value in rest
    {
      HandleValue(g, o, entries, level, i);
      var m: nat :| m < |list| && list[m] == EntryAt(g, o, entries, level, i).value.value;
      assert rest[m] == list[m];
    }
    forall j: nat | j < |rest| ensures rest[j].handle / 4 < n - 1 {
      assert rest[j] == list[j] && list[j].handle < list[last].handle && list[j].handle % 4 == 0;
    }
  }

  lemma NullIsNotListed(g: Space, o: Offsets, entries: u64, level: nat, n: nat, list: seq<Handle>)
    requires g.Valid() && o.Valid() && 0 < 4 * n <= U64_LIMIT && IsListing(g, o, entries, level, n, list)
    requires EntryAt(g, o, entries, level, n - 1).value.None?
    ensures IsListing(g, o, entries, level, n - 1, list)
  {
    hide EntryAt;
  }

  lemma NothingListed(g: Space, o: Offsets, entries: u64, level: nat, list: seq<Handle>)
    requires g.Valid() && o.Valid() && IsListing(g, o, entries, level, 0, list)
    ensures list == []
  {
    hide EntryAt, IsListing;
    if list != [] { ListedBelow(g, o, entries, level, 0, list); assert false; }
  }

  lemma ListedBelow(g: Space, o: Offsets, entries: u64, level: nat, n: nat, list: seq<Handle>)
    requires g.Valid() && o.Valid() && 4 * n <= U64_LIMIT && IsListing(g, o, entries, level, n, list) && list != []
    ensures list[0].handle / 4 < n
  {
    hide EntryAt;
  }

  lemma {:induction false} ListingIsFound(g: Space, o: Offsets, entries: u64, level: nat, n: nat, list: seq<Handle>)
    requires g.Valid() && o.Valid() && 4 * n <= U64_LIMIT && IsListing(g, o, entries, level, n, list)
    ensures HandlesUpTo(g, o, entries, level, n) == Ok(list)
    decreases n
  {
    hide EntryAt, IsListing;
    if n == 0 {
      NothingListed(g, o, entries, level, list);
    } else {
      EntryReadable(g, o, entries, level, n, list);
      if EntryAt(g, o, entries, level, n - 1).value.None? {
        NullIsNotListed(g, o, entries, level, n, list);
        ListingIsFound(g, o, entries, level, n - 1, list);
      } else {
        var last := |list| - 1;
        LastIsListed(g, o, entries, level, n, list);
        ListingIsFound(g, o, entries, level, n - 1, list[..last]);
        assert list == list[..last] + [list[last]];
      }
    }
  }

  lemma EntryReadable(g: Space, o: Offsets, entries: u64, level: nat, n: nat, list: seq<Handle>)
    requires g.Valid() && o.Valid() && 0 < 4 * n <= U64_LIMIT && IsListing(g, o, entries, level, n, list)
    ensures EntryAt(g, o, entries, level, n - 1).Ok?
  {
    hide EntryAt;
  }

  ghost function HandlesOf(g: Space, eprocess: u64, o: Offsets, limit: nat): Result<seq<Handle>>
    requires g.Valid()
  {
    hide HandlesUpTo, Space.U64, Space.Bytes;
    if eprocess == 0 || limit == 0 || !o.Valid() then Err(BAD_ARGUMENTS)
    else
      var tableAddress :- Add(eprocess, o.objectTable);
      var table :- g.U64(tableAddress);
      if table == 0 then Ok([])
      else
        var codeAddress :- Add(table, o.tableCode);
        var code :- g.U64(codeAddress);
        if code % 4 > 2 then Err(BAD_LEVEL)
        else if code - code % 4 == 0 then Err(NO_ENTRIES)
        else
          var nextAddress :- Add(table, o.nextHandle);
          var next :- g.U64(nextAddress);
          if next % 4 != 0 then Err(UNALIGNED)
          else if next / 4 > limit then Err(TOO_MANY)
          else HandlesUpTo(g, o, code - code % 4, code % 4, next / 4)
  }

  ghost predicate HoldsWord(g: Space, base: u64, offset: u64, x: u64)
    requires g.Valid()
  {
    base + offset < U64_LIMIT && g.Bytes(base + offset, 8) == Ok(ToLe(x, 8))
  }

  lemma HoldsWordExact(g: Space, base: u64, offset: u64, x: u64)
    requires g.Valid()
    ensures HoldsWord(g, base, offset, x) <==> base + offset < U64_LIMIT && g.U64(base + offset) == Ok(x)
  {
    hide Space.U64, Space.Bytes, ToLe;
    if base + offset < U64_LIMIT { WordsExact(g, base + offset, x, 0); }
  }

  /** The table of a process: its code is the entry array with the level in the low two
      bits, and four times the number of entries is the next handle. */
  ghost predicate HasTable(g: Space, o: Offsets, eprocess: u64, entries: u64, level: nat, count: nat)
    requires g.Valid()
  {
    hide HoldsWord;
    && level <= 2 && entries != 0 && entries % 4 == 0 && 4 * count < U64_LIMIT
    && exists table: u64 :: table != 0 && HoldsWord(g, eprocess, o.objectTable, table)
         && HoldsWord(g, table, o.tableCode, entries + level) && HoldsWord(g, table, o.nextHandle, 4 * count)
  }

  /** `handles` succeeds exactly when its arguments are valid and the process has no
      table, or one within the limit whose entries are all readable, and then lists
      them. */
  lemma HandlesOfExact(g: Space, eprocess: u64, o: Offsets, limit: nat, list: seq<Handle>)
    requires g.Valid()
    ensures HandlesOf(g, eprocess, o, limit) == Ok(list) <==>
      && eprocess != 0 && limit != 0 && o.Valid()
      && ((list == [] && HoldsWord(g, eprocess, o.objectTable, 0)) ||
          exists entries: u64, level: nat, count: nat ::
            HasTable(g, o, eprocess, entries, level, count) && count <= limit
            && IsListing(g, o, entries, level, count, list))
  {
    hide HandlesUpTo, IsListing, HoldsWord, Space.U64, Space.Bytes;
    if eprocess != 0 && limit != 0 && o.Valid() {
      forall base: u64, offset: u64, x: u64 { HoldsWordExact(g, base, offset, x); }
      if HandlesOf(g, eprocess, o, limit) == Ok(list) {
        HandlesOnlyIf(g, eprocess, o, limit, list);
      }
      forall entries: u64, level: nat, count: nat |
        HasTable(g, o, eprocess, entries, level, count) && count <= limit && IsListing(g, o, entries, level, count, list)
        ensures HandlesOf(g, eprocess, o, limit) == Ok(list)
      {
        HandlesIf(g, eprocess, o, limit, list, entries, level, count);
      }
    }
  }

  lemma HandlesIf(
    g: Space, eprocess: u64, o: Offsets, limit: nat, list: seq<Handle>, entries: u64, level: nat, count: nat)
    requires g.Valid() && eprocess != 0 && limit != 0 && o.Valid()
    requires HasTable(g, o, eprocess, entries, level, count) && count <= limit
    requires IsListing(g, o, entries, level, count, list)
    ensures HandlesOf(g, eprocess, o, limit) == Ok(list)
  {
    hide HandlesUpTo, IsListing, HoldsWord, Space.U64, Space.Bytes;
    var table: u64 :| table != 0 && HoldsWord(g, eprocess, o.objectTable, table)
      && HoldsWord(g, table, o.tableCode, entries + level) && HoldsWord(g, table, o.nextHandle, 4 * count);
    HoldsWordExact(g, eprocess, o.objectTable, table);
    HoldsWordExact(g, table, o.tableCode, entries + level);
    HoldsWordExact(g, table, o.nextHandle, 4 * count);
    HandlesExact(g, o, entries, level, count, list);
    LevelOfCode(entries, level);
  }

  lemma LevelOfCode(entries: nat, level: nat)
    requires entries % 4 == 0 && level < 4
    ensures (entries + level) % 4 == level
  {
  }

  lemma HandlesOnlyIf(g: Space, eprocess: u64, o: Offsets, limit: nat, list: seq<Handle>)
    requires g.Valid() && eprocess != 0 && limit != 0 && o.Valid() && HandlesOf(g, eprocess, o, limit) == Ok(list)
    ensures (list == [] && HoldsWord(g, eprocess, o.objectTable, 0)) ||
      exists entries: u64, level: nat, count: nat ::
        HasTable(g, o, eprocess, entries, level, count) && count <= limit
        && IsListing(g, o, entries, level, count, list)
  {
    hide HandlesUpTo, IsListing, HoldsWord, Space.U64, Space.Bytes;
    var table := g.U64(eprocess + o.objectTable).value;
    HoldsWordExact(g, eprocess, o.objectTable, table);
    if table != 0 {
      var code, next := g.U64(table + o.tableCode).value, g.U64(table + o.nextHandle).value;
      HoldsWordExact(g, table, o.tableCode, code);
      HoldsWordExact(g, table, o.nextHandle, next);
      HandlesExact(g, o, code - code % 4, code % 4, next / 4, list);
      assert HasTable(g, o, eprocess, code - code % 4, code % 4, next / 4);
    }
  }

  method ReadEntry(reader: Reader, o: Offsets, entries: u64, level: nat, index: nat) returns (r: Result<Option<Handle>>)
    requires reader.Valid() && o.Valid() && level <= 2 && 4 * index < U64_LIMIT
    modifies reader.session.translations
    ensures reader.Valid() && reader.Sees() == old(reader.Sees()) && reader.Sees().Valid()
    ensures r == EntryAt(reader.Sees(), o, entries, level, index)
  {
    hide EntryAddress, Space.U64, Space.U32, SignExtend, And, Shl64, Reader.Valid;
    assert reader.Sees().Valid() by { LinuxLists.SeesValid(reader); }
    var entry :- HandleEntryAddress(reader, entries, level, index, o.entrySize);
    var objectAddress :- Add(entry, o.entryObject);
    var encoded :- reader.ReadU64(objectAddress);
    var pointer := Shl64(And(encoded, o.pointerMask), o.pointerShift);
    if pointer == 0 { return Ok(None); }
    var target := SignExtend(pointer, o.signBit + 1);
    var accessAddress :- Add(entry, o.entryAccess);
    var access :- reader.ReadU32(accessAddress);
    return Ok(Some(Handle(4 * index, target, access)));
  }

  lemma {:induction false} StopsAtError(g: Space, o: Offsets, entries: u64, level: nat, i: nat, n: nat)
    requires g.Valid() && o.Valid() && 4 * n <= U64_LIMIT && i <= n && HandlesUpTo(g, o, entries, level, i).Err?
    ensures HandlesUpTo(g, o, entries, level, n) == HandlesUpTo(g, o, entries, level, i)
    decreases n
  {
    hide EntryAt;
    if i < n { StopsAtError(g, o, entries, level, i, n - 1); }
  }

  method ReadEntries(reader: Reader, o: Offsets, entries: u64, level: nat, count: nat) returns (r: Result<seq<Handle>>)
    requires reader.Valid() && o.Valid() && level <= 2 && 4 * count <= U64_LIMIT
    modifies reader.session.translations
    ensures reader.Valid() && reader.Sees() == old(reader.Sees()) && reader.Sees().Valid()
    ensures r == HandlesUpTo(reader.Sees(), o, entries, level, count)
  {
    hide EntryAt, Reader.Valid;
    ghost var g := reader.Sees();
    assert g.Valid() by { LinuxLists.SeesValid(reader); }
    var output: seq<Handle> := [];
    for index := 0 to count
      invariant reader.Valid() && reader.Sees() == g
      invariant HandlesUpTo(g, o, entries, level, index) == Ok(output)
    {
      var entry := ReadEntry(reader, o, entries, level, index);
      if entry.Err? {
        StopsAtError(g, o, entries, level, index + 1, count);
        return Err(entry.error);
      }
      if entry.value.Some? { output := output + [entry.value.value]; }
    }
    return Ok(output);
  }

  method Handles(reader: Reader, eprocess: u64, o: Offsets, limit: nat) returns (r: Result<seq<Handle>>)
    requires reader.Valid()
    modifies reader.session.translations
    ensures reader.Valid() && reader.Sees() == old(reader.Sees()) && reader.Sees().Valid()
    ensures r == HandlesOf(reader.Sees(), eprocess, o, limit)
  {
    hide HandlesUpTo, Space.U64, Reader.Valid;
    assert reader.Sees().Valid() by { LinuxLists.SeesValid(reader); }
    if eprocess == 0 || limit == 0 || !o.Valid() { return Err(BAD_ARGUMENTS); }
    var tableAddress :- Add(eprocess, o.objectTable);
    var table :- reader.ReadU64(tableAddress);
    if table == 0 { return Ok([]); }
    var codeAddress :- Add(table, o.tableCode);
    var code :- reader.ReadU64(codeAddress);
    var level := code % 4;
    if level > 2 { return Err(BAD_LEVEL); }
    var entries := code - level;
    if entries == 0 { return Err(NO_ENTRIES); }
    var nextAddress :- Add(table, o.nextHandle);
    var next :- reader.ReadU64(nextAddress);
    if next % 4 != 0 { return Err(UNALIGNED); }
    if next / 4 > limit { return Err(TOO_MANY); }
    r := ReadEntries(reader, o, entries, level, next / 4);
  }
}
