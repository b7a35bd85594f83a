/** Where stubs go and how branches see them: the alignment and the alias windows of
    wafel_core/source/trampoline.c. */
module Windows {
  import opened Words
  import Branch
  import IosElf
  import Quotients

  // ----- align -----

  /** align(x, to). */
  function Align(x: U32, to: U32): U32
    requires to > 0
  {
    Wrap32(x + (to - 1) - Wrap32(x - 1) % to)
  }

  /** The least multiple of to that is not below x. */
  function LeastMultiple(x: nat, to: nat): (m: nat)
    requires to > 0
  {
    (x + (to - 1)) / to * to
  }

  lemma LeastMultipleIs(x: nat, to: nat)
    requires to > 0
    ensures var m := LeastMultiple(x, to); m % to == 0 && x <= m < x + to
  {
    var q, r := (x + (to - 1)) / to, (x + (to - 1)) % to;
    assert x + (to - 1) == q * to + r;
    Quotients.QuotientIs(q * to, to, q, 0);
  }

  /** The u32 arithmetic finds the least multiple exactly when that multiple is a word and, for
      zero, to divides 2^32. */
  lemma AlignIsLeastMultiple(x: U32, to: U32)
    requires to > 0
    ensures Align(x, to) == LeastMultiple(x, to) <==> LeastMultiple(x, to) < TWO32 && (x > 0 || TWO32 % to == 0)
  {
    hide Wrap32, LeastMultiple;
    if x > 0 {
      AlignAbove(x, to);
      WrapIsSame(LeastMultiple(x, to));
    } else {
      AlignZero(to);
    }
  }

  lemma WrapIsSame(m: nat)
    ensures Wrap32(m) == m <==> m < TWO32
  {
  }

  lemma AlignAbove(x: U32, to: U32)
    requires to > 0 && x > 0
    ensures Align(x, to) == Wrap32(LeastMultiple(x, to))
  {
    hide Wrap32;
    var q, r := (x - 1) / to, (x - 1) % to;
    Branch.WrapOfWord(x - 1);
    assert x - 1 == q * to + r;
    assert x + (to - 1) == (q + 1) * to + r by {
      assert (q + 1) * to == q * to + to;
    }
    Quotients.QuotientIs(x + (to - 1), to, q + 1, r);
    assert LeastMultiple(x, to) == (q + 1) * to == x + (to - 1) - r;
  }

  lemma AlignZero(to: U32)
    requires to > 0
    ensures LeastMultiple(0, to) == 0 && (Align(0, to) == 0 <==> TWO32 % to == 0)
  {
    Quotients.QuotientIs(to - 1, to, 0, to - 1);
    var q, r := (TWO32 - 1) / to, (TWO32 - 1) % to;
    assert TWO32 - 1 == q * to + r;
    assert Align(0, to) == to - 1 - r;
    if r == to - 1 {
      assert (q + 1) * to == q * to + to;
      Quotients.QuotientIs(TWO32, to, q + 1, 0);
    } else {
      Quotients.QuotientIs(TWO32, to, q, r + 1);
    }
  }

  // ----- windows -----

  /** The plugin area's alias windows, in the order trampoline_find_mapping tries them. */
  const ALT_BASES: seq<U32> := [0x0520_0000, 0x1060_0000, 0x1220_0000, 0xE130_0000, 0xE5F0_0000, 0x0820_0000]

  /** The header table used for translation, where plugins start, and the stub buffer. */
  datatype Config = Config(phdrs: seq<IosElf.Phdr>, pluginBase: U32, bufStart: U32, bufEnd: U32) {
    /** addr as seen through window k; the area itself comes first. */
    function Alias(k: nat, addr: U32): U32
      requires k < 7
    {
      if k == 0 then addr else Wrap32(addr - pluginBase + ALT_BASES[k - 1])
    }

    function ToPhysical(addr: U32): U32 {
      IosElf.Translate(phdrs, addr)
    }

    predicate InBuffer(x: int) { bufStart <= x < bufEnd }
  }

  /** The test of trampoline_find_mapping with 26 offset bits. */
  predicate SameBlock(a: U32, b: U32) { a / 0x400_0000 == b / 0x400_0000 }

  /** trampoline_find_mapping: the first window in addr's 64 MiB block. */
  function FindMappingFrom(c: Config, addr: U32, tramp: U32, k: nat): (r: Option<U32>)
    requires k <= 7
    decreases 7 - k
  {
    if k == 7 then None
    else if SameBlock(c.Alias(k, tramp), addr) then Some(c.Alias(k, tramp))
    else FindMappingFrom(c, addr, tramp, k + 1)
  }

  function FindMapping(c: Config, addr: U32, tramp: U32): Option<U32> {
    FindMappingFrom(c, addr, tramp, 0)
  }

  lemma {:induction false} FoundMappingIsAlias(c: Config, addr: U32, tramp: U32, k: nat) returns (w: nat)
    requires k <= 7 && FindMappingFrom(c, addr, tramp, k).Some?
    ensures w < 7 && FindMappingFrom(c, addr, tramp, k).value == c.Alias(w, tramp) && SameBlock(c.Alias(w, tramp), addr)
    decreases 7 - k
  {
    if SameBlock(c.Alias(k, tramp), addr) {
      w := k;
    } else {
      w := FoundMappingIsAlias(c, addr, tramp, k + 1);
    }
  }

  // ----- reach -----

  lemma SignedDifference(x: U32, y: U32)
    requires x < 0x8000_0000 <==> y < 0x8000_0000
    ensures Signed32(x) - Signed32(y) == x - y
  {
  }

  lemma SignedSmall(d: int)
    requires -0x8000_0000 <= d < 0x8000_0000
    ensures Signed32(d) == d
  {
  }

  lemma BlockHalves(a: U32)
    ensures a == 0x400_0000 * (a / 0x400_0000) + a % 0x400_0000 && (a < 0x8000_0000 <==> a / 0x400_0000 < 32)
  {
  }

  /** Within one block the displacement is the difference of the places in the block. */
  lemma DisplacementInBlock(addr: U32, alt: U32)
    requires SameBlock(alt, addr)
    ensures Branch.Displacement(addr, alt) == alt - addr - 8 == alt % 0x400_0000 - addr % 0x400_0000 - 8
  {
    hide Signed32;
    BlockHalves(addr);
    BlockHalves(alt);
    SignedDifference(alt, addr);
    SignedSmall(alt - addr - 8);
  }

  /** Where in its block an address is. */
  function Place(a: U32): nat { a % 0x400_0000 }

  /** Whole words away, and not too far off within the block. */
  predicate InReach(addr: U32, alt: U32) {
    (alt - addr) % 4 == 0 && -0x200_0000 <= Place(alt) - Place(addr) - 8 < 0x200_0000
  }

  lemma EightLess(d: int)
    ensures (d - 8) % 4 == 0 <==> d % 4 == 0
  {
  }

  /** An address that the window search accepts is within reach of a branch exactly if it is
      whole words away and its place in the block is not too far from the site's. */
  lemma WindowReachExactly(c: Config, addr: U32, tramp: U32, alt: U32)
    requires FindMapping(c, addr, tramp) == Some(alt)
    ensures Branch.Reaches(addr, alt) <==> InReach(addr, alt)
  {
    hide Branch.Displacement, SameBlock, FindMappingFrom, Config.Alias;
    var w := FoundMappingIsAlias(c, addr, tramp, 0);
    DisplacementInBlock(addr, alt);
    EightLess(alt - addr);
  }

  /** The window test does not imply that a branch reaches: with the plugin area at 0x27C00000
      a hook near the end of the FS block is sent to a stub more than 32 MiB away. */
  lemma MappedMayNotReach(c: Config)
    requires c.pluginBase == 0x27C0_0000
    ensures FindMapping(c, 0x13FF_FFFC, 0x27C0_1000) == Some(0x1060_1000)
    ensures !Branch.Reaches(0x13FF_FFFC, 0x1060_1000)
  {
    assert c.Alias(1, 0x27C0_1000) == 0x0520_1000 && c.Alias(2, 0x27C0_1000) == 0x1060_1000;
    assert FindMappingFrom(c, 0x13FF_FFFC, 0x27C0_1000, 2) == Some(0x1060_1000);
    assert FindMappingFrom(c, 0x13FF_FFFC, 0x27C0_1000, 1) == Some(0x1060_1000);
    WindowReachExactly(c, 0x13FF_FFFC, 0x27C0_1000, 0x1060_1000);
  }

  // ----- the whole buffer -----

  /** The first place that a stub can have. */
  function FirstPlace(c: Config): (x: nat)
    ensures c.bufStart <= x < c.bufStart + 4 && x % 4 == 0
  {
    LeastMultipleIs(c.bufStart, 4);
    LeastMultiple(c.bufStart, 4)
  }

  /** The last word that begins in the buffer. */
  function LastPlace(c: Config): (x: int)
    ensures x < c.bufEnd && x % 4 == 0 && forall y :: x < y < c.bufEnd ==> y % 4 != 0
  {
    (c.bufEnd - 1) / 4 * 4
  }

  /** The buffer has a place for a stub, and through every window it lies in one block. */
  ghost predicate OneBlock(c: Config) {
    && FirstPlace(c) < c.bufEnd
    && forall k :: 0 <= k < 7 ==> SameBlock(c.Alias(k, c.bufStart), c.Alias(k, c.bufEnd - 1))
  }

  lemma AliasInBlock(c: Config, k: nat, x: U32)
    requires OneBlock(c) && c.InBuffer(x) && k < 7
    ensures c.Alias(k, x) == c.Alias(k, c.bufStart) + (x - c.bufStart)
    ensures SameBlock(c.Alias(k, x), c.Alias(k, c.bufStart))
  {
    assert SameBlock(c.Alias(0, c.bufStart), c.Alias(0, c.bufEnd - 1));
    var first, last := c.Alias(k, c.bufStart), c.Alias(k, c.bufEnd - 1);
    assert SameBlock(first, last);
    if k > 0 {
      WrapNoCarry(c.bufStart - c.pluginBase + ALT_BASES[k - 1], c.bufEnd - 1 - c.bufStart, x - c.bufStart);
    }
  }

  /** A stretch whose ends, reduced to words, lie in one block is not cut by the reduction. */
  lemma WrapNoCarry(a: int, n: nat, d: nat)
    requires d <= n < 0x400_0000 && SameBlock(Wrap32(a), Wrap32(a + n))
    ensures Wrap32(a + d) == Wrap32(a) + d && SameBlock(Wrap32(a + d), Wrap32(a))
  {
    var q, r := a / TWO32, a % TWO32;
    assert a == TWO32 * q + r;
    WrapSum(q, r, n);
    WrapSum(q, r, d);
  }

  lemma WrapSum(q: int, r: U32, n: nat)
    requires n < 0x400_0000
    ensures Wrap32(TWO32 * q + r + n) == if r + n < TWO32 then r + n else r + n - TWO32
  {
    if r + n < TWO32 {
      Branch.WrapPeriod(r + n, q);
    } else {
      Branch.WrapPeriod(r + n - TWO32, q + 1);
    }
  }

  /** The window chosen for a site, the same for the whole buffer; 7 if there is none. */
  function ChosenFrom(c: Config, addr: U32, k: nat): (w: nat)
    requires k <= 7
    ensures w <= 7
    decreases 7 - k
  {
    if k == 7 then 7 else if SameBlock(c.Alias(k, c.bufStart), addr) then k else ChosenFrom(c, addr, k + 1)
  }

  function Chosen(c: Config, addr: U32): (w: nat)
    ensures w <= 7
  {
    ChosenFrom(c, addr, 0)
  }

  lemma {:induction false} ChosenForAll(c: Config, addr: U32, x: U32, k: nat)
    requires OneBlock(c) && c.InBuffer(x) && k <= 7
    ensures FindMappingFrom(c, addr, x, k)
         == if ChosenFrom(c, addr, k) == 7 then None else Some(c.Alias(ChosenFrom(c, addr, k), x))
    decreases 7 - k
  {
    hide OneBlock, Config.Alias;
    if k < 7 {
      AliasInBlock(c, k, x);
      if !SameBlock(c.Alias(k, x), addr) {
        ChosenForAll(c, addr, x, k + 1);
      }
    }
  }

  /** A place in the buffer, seen through the window chosen for a site. */
  function Seen(c: Config, addr: U32, x: U32): U32
    requires Chosen(c, addr) < 7
  {
    c.Alias(Chosen(c, addr), x)
  }

  /** The first and the last place a stub can have are within reach of the site. */
  predicate EndsInReach(c: Config, addr: U32)
    requires FirstPlace(c) < c.bufEnd
  {
    PlacesInOrder(c);
    Chosen(c, addr) < 7 ==> InReach(addr, Seen(c, addr, FirstPlace(c))) && InReach(addr, Seen(c, addr, LastPlace(c)))
  }

  lemma PlacesInOrder(c: Config)
    requires FirstPlace(c) < c.bufEnd
    ensures c.InBuffer(FirstPlace(c)) && FirstPlace(c) <= LastPlace(c) && c.InBuffer(LastPlace(c))
    ensures forall x :: c.InBuffer(x) && x % 4 == 0 ==> FirstPlace(c) <= x <= LastPlace(c)
  {
    hide FirstPlace, LastPlace;
  }

  /** Every place the window search accepts for a site is within reach. */
  ghost predicate BufferReached(c: Config, addr: U32) {
    forall x: U32 :: c.InBuffer(x) && x % 4 == 0 && FindMapping(c, addr, x).Some?
      ==> Branch.Reaches(addr, FindMapping(c, addr, x).value)
  }

  lemma PlaceReached(c: Config, addr: U32, x: U32)
    requires OneBlock(c) && c.InBuffer(x) && Chosen(c, addr) < 7
    ensures FindMapping(c, addr, x) == Some(Seen(c, addr, x))
    ensures Branch.Reaches(addr, Seen(c, addr, x)) <==> InReach(addr, Seen(c, addr, x))
  {
    hide OneBlock, Config.Alias, Branch.Reaches, ChosenFrom, InReach;
    ChosenForAll(c, addr, x, 0);
    WindowReachExactly(c, addr, x, Seen(c, addr, x));
  }

  /** Going up in the buffer goes up in the block. */
  lemma SeenInOrder(c: Config, addr: U32, x: U32, y: U32)
    requires OneBlock(c) && c.InBuffer(x) && c.InBuffer(y) && x <= y && Chosen(c, addr) < 7
    ensures Seen(c, addr, y) - Seen(c, addr, x) == y - x
    ensures Place(Seen(c, addr, x)) <= Place(Seen(c, addr, y))
  {
    hide OneBlock, Config.Alias, Chosen;
    AliasInBlock(c, Chosen(c, addr), x);
    AliasInBlock(c, Chosen(c, addr), y);
    BlockHalves(Seen(c, addr, x));
    BlockHalves(Seen(c, addr, y));
  }

  lemma BetweenReached(c: Config, addr: U32, first: U32, x: U32, last: U32)
    requires OneBlock(c) && c.InBuffer(first) && first <= x <= last && c.InBuffer(last) && Chosen(c, addr) < 7
    requires first % 4 == 0 && x % 4 == 0
    requires InReach(addr, Seen(c, addr, first)) && InReach(addr, Seen(c, addr, last))
    ensures InReach(addr, Seen(c, addr, x))
  {
    hide OneBlock, Seen, Place, InReach;
    SeenInOrder(c, addr, first, x);
    SeenInOrder(c, addr, x, last);
    WordsApart(x, first);
    MiddleInReach(addr, Seen(c, addr, first), Seen(c, addr, x), Seen(c, addr, last));
  }

  lemma WordsApart(x: int, y: int)
    requires x % 4 == 0 && y % 4 == 0
    ensures (x - y) % 4 == 0
  {
  }

  lemma MiddleInReach(addr: U32, low: U32, alt: U32, high: U32)
    requires InReach(addr, low) && InReach(addr, high) && Place(low) <= Place(alt) <= Place(high)
    requires (alt - low) % 4 == 0
    ensures InReach(addr, alt)
  {
    hide Place;
    WordsApart(low - addr, -(alt - low));
  }

  /** The whole buffer is within reach of a site exactly if its ends are. */
  lemma BufferReachedExactly(c: Config, addr: U32)
    requires OneBlock(c)
    ensures FirstPlace(c) < c.bufEnd && (BufferReached(c, addr) <==> EndsInReach(c, addr))
  {
    assert FirstPlace(c) < c.bufEnd;
    hide OneBlock, Config.Alias, Branch.Reaches, FindMapping, Chosen, FirstPlace, LastPlace, InReach, Seen;
    PlacesInOrder(c);
    if Chosen(c, addr) < 7 {
      PlaceReached(c, addr, FirstPlace(c));
      PlaceReached(c, addr, LastPlace(c));
      forall x: U32 | c.InBuffer(x) && x % 4 == 0 && EndsInReach(c, addr)
        ensures FindMapping(c, addr, x).Some? && Branch.Reaches(addr, FindMapping(c, addr, x).value)
      {
        PlaceReached(c, addr, x);
        BetweenReached(c, addr, FirstPlace(c), x, LastPlace(c));
      }
    } else {
      forall x: U32 | c.InBuffer(x)
        ensures FindMapping(c, addr, x) == None
      {
        NoneChosen(c, addr, x);
      }
    }
  }

  lemma NoneChosen(c: Config, addr: U32, x: U32)
    requires OneBlock(c) && c.InBuffer(x) && Chosen(c, addr) == 7
    ensures FindMapping(c, addr, x) == None
  {
    hide OneBlock, Config.Alias;
    ChosenForAll(c, addr, x, 0);
  }
}
