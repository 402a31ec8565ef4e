/** The memory-view manager of vmi-views: 16-bit ids in a bitmap of 64-bit words. */
module Views {
  import opened Words
  import opened BitMasks
  import opened VmiTypes

  const VIEW_WORD_BITS: nat := 64
  const VIEW_WORDS: nat := 1024
  const IDS: nat := 65536

  const EXHAUSTED := VmiError.Backend("memory view identifiers exhausted")
  const DEFAULT_VIEW := VmiError.Backend("default memory view cannot be destroyed")
  const ACTIVE_VIEW := VmiError.Backend("active memory view cannot be destroyed")
  const NO_VIEW := VmiError.Backend("memory view does not exist")

  // ---------- one bit of a word ----------

  /** `x | (1 << n)` */
  function SetBit(x: u64, n: nat): u64
    requires n < 64
  {
    OneBitFits(n);
    var width := 64;
    Pow2Value(width);
    OrFits(x, Pow2(n), width);
    Or(x, Pow2(n))
  }

  /** `x & !(1 << n)` */
  function ClearBit(x: u64, n: nat): u64
    requires n < 64
  {
    OneBitFits(n);
    And(x, Not(Pow2(n)))
  }

  lemma OneBitFits(n: nat)
    requires n < 64
    ensures Pow2(n) < U64_LIMIT
  {
    var width := 64;
    Pow2Value(width);
    Pow2Monotone(n + 1, width);
    assert Pow2(n + 1) == 2 * Pow2(n);
  }

  lemma BitsAfterSet(x: u64, n: nat, m: nat)
    requires n < 64
    ensures Bit(SetBit(x, n), m) <==> m == n || Bit(x, m)
  {
    hide Bit, Or;
    OrBits(x, Pow2(n), m);
    SingleBit(n, m);
  }

  lemma BitsAfterClear(x: u64, n: nat, m: nat)
    requires n < 64 && m < 64
    ensures Bit(ClearBit(x, n), m) <==> m != n && Bit(x, m)
  {
    hide Bit, And;
    OneBitFits(n);
    AndBits(x, Not(Pow2(n)), m);
    NotBits(Pow2(n), m);
    SingleBit(n, m);
  }

  // ---------- the bitmap as a set of ids ----------

  /** The bitmap has the bit of `view`. */
  predicate Marked(words: seq<u64>, view: nat)
    requires |words| == VIEW_WORDS && view < IDS
  {
    Bit(words[view / VIEW_WORD_BITS], view % VIEW_WORD_BITS)
  }

  /** The default view is always there; the others are those marked. */
  function LiveIn(words: seq<u64>): set<nat>
    requires |words| == VIEW_WORDS
  {
    set v: nat | v < IDS && (v == 0 || Marked(words, v))
  }

  function Flip(words: seq<u64>, view: nat, on: bool): (r: seq<u64>)
    requires |words| == VIEW_WORDS && view < IDS
    ensures |r| == VIEW_WORDS
  {
    var i, bit := view / VIEW_WORD_BITS, view % VIEW_WORD_BITS;
    words[i := if on then SetBit(words[i], bit) else ClearBit(words[i], bit)]
  }

  lemma MarkedAfterFlip(words: seq<u64>, view: nat, on: bool, v: nat)
    requires |words| == VIEW_WORDS && view < IDS && v < IDS
    ensures Marked(Flip(words, view, on), v) <==> if v == view then on else Marked(words, v)
  {
    hide Bit, SetBit, ClearBit;
    BitsAfterSet(words[view / VIEW_WORD_BITS], view % VIEW_WORD_BITS, v % VIEW_WORD_BITS);
    BitsAfterClear(words[view / VIEW_WORD_BITS], view % VIEW_WORD_BITS, v % VIEW_WORD_BITS);
  }

  /** Writing one bit adds or removes one id, whatever word it is in. */
  lemma LiveAfterFlip(words: seq<u64>, view: nat, on: bool)
    requires |words| == VIEW_WORDS && 0 < view < IDS
    ensures LiveIn(Flip(words, view, on)) == if on then LiveIn(words) + {view} else LiveIn(words) - {view}
    ensures Marked(Flip(words, view, on), 0) == Marked(words, 0)
  {
    hide Marked, Flip;
    forall v: nat | v < IDS { MarkedAfterFlip(words, view, on, v); }
    MarkedAfterFlip(words, view, on, 0);
  }

  predicate Below(v: nat, n: nat) { v < n }

  ghost function IdsBelow(n: nat): set<nat> {
    set v: nat | v < n && Below(v, n)
  }

  lemma {:induction false} CountBelow(n: nat)
    ensures |IdsBelow(n)| == n
  {
    if n > 0 {
      CountBelow(n - 1);
      forall v: nat | Below(v, n) ensures v in IdsBelow(n - 1) + {n - 1} {
        if v < n - 1 { assert Below(v, n - 1); }
      }
      assert Below(n - 1, n);
      forall v: nat | Below(v, n - 1) ensures v in IdsBelow(n) { assert Below(v, n); }
      assert IdsBelow(n) == IdsBelow(n - 1) + {n - 1};
    }
  }

  lemma HowMany(words: seq<u64>)
    requires |words| == VIEW_WORDS
    ensures |LiveIn(words)| <= IDS
    ensures |LiveIn(words)| == IDS <==> forall v: nat | v < IDS :: v in LiveIn(words)
  {
    hide Marked;
    var live, all := LiveIn(words), IdsBelow(IDS);
    CountBelow(IDS);
    forall v: nat | v < IDS ensures v in all { assert Below(v, IDS); }
    assert live <= all;
    Subset(live, all);
    if |live| == IDS { SubsetFull(live, all); }
    if live == all { assert |live| == IDS; }
    if forall v: nat | v < IDS :: v in live { assert all <= live; }
  }

  lemma {:induction false} Subset(a: set<nat>, b: set<nat>)
    requires a <= b
    ensures |a| <= |b|
  {
    if a != {} {
      var x :| x in a;
      Subset(a - {x}, b - {x});
    }
  }

  lemma SubsetFull(a: set<nat>, b: set<nat>)
    requires a <= b && |a| == |b|
    ensures a == b
  {
    if x :| x in b && x !in a {
      Subset(a, b - {x});
      assert false;
    }
  }

  // ---------- which id comes next ----------

  /** The id `k` places after `start`, wrapping. */
  function Cyclic(start: nat, k: nat): nat { (start + k) % IDS }

  /** `view` is the first free id from `start` on. */
  ghost predicate FirstFree(live: set<nat>, start: nat, view: nat) {
    exists k :: FreeAfter(live, start, view, k)
  }

  predicate FreeAfter(live: set<nat>, start: nat, view: nat, k: nat) {
    && k < IDS && view == Cyclic(start, k) && view !in live
    && forall j: nat | j < k :: Cyclic(start, j) in live
  }

  lemma EveryIdIsReached(start: nat, v: nat) returns (j: nat)
    requires start < IDS && v < IDS
    ensures j < IDS && Cyclic(start, j) == v
  {
    j := if start <= v then v - start else v + IDS - start;
  }

  /** An id just given up is taken again only when every other one is live. */
  lemma ReusedLast(live: set<nat>, view: nat, other: nat)
    requires view < IDS && FirstFree(live, Cyclic(view, 1), view) && other < IDS && other != view
    ensures other in live
  {
    var k :| FreeAfter(live, Cyclic(view, 1), view, k);
    var j := EveryIdIsReached(Cyclic(view, 1), other);
    assert k == IDS - 1;
    assert j < k;
  }

  class MemoryViewManager {
    const words: array<u64>
    var viewCount: nat
    var active: nat
    var next: nat

    ghost predicate Valid()
      reads this, words
    {
      && words.Length == VIEW_WORDS && next < IDS
      && !Marked(words[..], 0)
      && viewCount == |Live()|
      && active in Live()
    }

    /** The ids in use. */
    ghost function Live(): set<nat>
      requires words.Length == VIEW_WORDS
      reads this, words
    {
      LiveIn(words[..])
    }

    constructor ()
      ensures Valid() && fresh(words) && Live() == {0} && active == 0 && next == 1
    {
      words := new u64[VIEW_WORDS](_ => 0);
      viewCount, active, next := 1, 0, 1;
      new;
      forall v: nat | v < IDS ensures !Marked(words[..], v) { NoBits(v % VIEW_WORD_BITS); }
      assert Live() == {0};
    }

    method Contains(view: nat) returns (r: bool)
      requires words.Length == VIEW_WORDS && view < IDS
      ensures r <==> view in Live()
    {
      if view == 0 { return true; }
      return Bit(words[view / VIEW_WORD_BITS], view % VIEW_WORD_BITS);
    }

    method Insert(view: nat) returns (added: bool)
      requires Valid() && 0 < view < IDS
      modifies this`viewCount, words
      ensures Valid()
      ensures added <==> view !in old(Live())
      ensures Live() == old(Live()) + {view}
    {
      hide Bit;
      var word, shift := view / VIEW_WORD_BITS, view % VIEW_WORD_BITS;
      if Bit(words[word], shift) { return false; }
      ghost var before := words[..];
      words[word] := SetBit(words[word], shift);
      viewCount := viewCount + 1;
      assert words[..] == Flip(before, view, true);
      LiveAfterFlip(before, view, true);
      return true;
    }

    method Remove(view: nat) returns (removed: bool)
      requires Valid() && 0 < view < IDS && view != active
      modifies this`viewCount, words
      ensures Valid()
      ensures removed <==> view in old(Live())
      ensures Live() == old(Live()) - {view}
    {
      hide Bit;
      var word, shift := view / VIEW_WORD_BITS, view % VIEW_WORD_BITS;
      if !Bit(words[word], shift) { return false; }
      ghost var before := words[..];
      words[word] := ClearBit(words[word], shift);
      viewCount := viewCount - 1;
      assert words[..] == Flip(before, view, false);
      LiveAfterFlip(before, view, false);
      return true;
    }

    /** Takes the first free id from `next` on; fails exactly when all are live. */
    method Create() returns (r: Result<nat>)
      requires Valid()
      modifies this`viewCount, this`next, words
      ensures Valid()
      ensures r == Err(EXHAUSTED) || r.Ok?
      ensures r.Ok? ==>
        && FirstFree(old(Live()), old(next), r.value) && r.value != 0
        && Live() == old(Live()) + {r.value} && next == Cyclic(r.value, 1)
      ensures r.Err? ==> Live() == old(Live()) && next == old(next)
      ensures r.Err? <==> old(viewCount) == IDS
      ensures r.Err? <==> forall v: nat | v < IDS :: v in old(Live())
    {
      hide Marked, LiveIn;
      var start := next;
      ghost var k, live := 0, Live();
      HowMany(words[..]);
      while true
        invariant Valid() && Live() == live && k < IDS && next == Cyclic(start, k)
        invariant forall j: nat | j < k :: Cyclic(start, j) in live
        decreases IDS - k
      {
        var candidate := next;
        next := (next + 1) % IDS;
        if candidate != 0 {
          var added := Insert(candidate);
          if added {
            assert FreeAfter(live, start, candidate, k);
            return Ok(candidate);
          }
        } else {
          ZeroIsLive(words[..]);
        }
        k := k + 1;
        if next == start {
          assert k == IDS;
          forall v: nat | v < IDS ensures v in live {
            var j := EveryIdIsReached(start, v);
            assert Cyclic(start, j) in live;
          }
          return Err(EXHAUSTED);
        }
      }
    }

    method Destroy(view: nat) returns (r: Result<()>)
      requires Valid() && view < IDS
      modifies this`viewCount, words
      ensures Valid()
      ensures r.Ok? <==> view != 0 && view != active && view in old(Live())
      ensures Live() == if r.Ok? then old(Live()) - {view} else old(Live())
    {
      if view == 0 { return Err(DEFAULT_VIEW); }
      if view == active { return Err(ACTIVE_VIEW); }
      var removed := Remove(view);
      if !removed { return Err(NO_VIEW); }
      return Ok(());
    }

    /** The live ids, ascending. */
    method Views() returns (views: seq<nat>)
      requires Valid()
      ensures Ascending(views)
      ensures Members(views) == Live() && |views| == viewCount
    {
      views := [];
      for view := 0 to IDS
        invariant Ascending(views) && forall i | 0 <= i < |views| :: views[i] < view
        invariant forall v :: v in views <==> v < view && v in Live()
      {
        var live := Contains(view);
        if live { views := views + [view]; }
      }
      assert Members(views) == Live();
      AscendingCount(views);
    }

    method SwitchView(view: nat) returns (r: Result<()>)
      requires Valid() && view < IDS
      modifies this`active
      ensures Valid() && Live() == old(Live())
      ensures r.Ok? <==> view in Live()
      ensures active == if r.Ok? then view else old(active)
    {
      var live := Contains(view);
      if !live { return Err(NO_VIEW); }
      active := view;
      return Ok(());
    }
  }

  lemma ZeroIsLive(words: seq<u64>)
    requires |words| == VIEW_WORDS
    ensures 0 in LiveIn(words)
  {
  }

  predicate Ascending(s: seq<nat>) {
    forall i, j | 0 <= i < j < |s| :: s[i] < s[j]
  }

  function Members(s: seq<nat>): set<nat> { set v | v in s }

  lemma {:induction false} AscendingCount(s: seq<nat>)
    requires Ascending(s)
    ensures |Members(s)| == |s|
  {
    if s != [] {
      var rest, last := s[..|s| - 1], s[|s| - 1];
      AscendingCount(rest);
      assert last !in Members(rest);
      MembersPush(rest, last);
      assert s == rest + [last];
    }
  }

  lemma MembersPush(s: seq<nat>, last: nat)
    ensures Members(s + [last]) == Members(s) + {last}
  {
  }
}
