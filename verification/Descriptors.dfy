/** The walk over a USB configuration descriptor: a chain of length-prefixed descriptors
    (USB 2.0, section 9.5), each starting with its length byte and its type byte. */
module Descriptors {
  import opened Bytes

  // Where a walk stands: *CurrConfigLoc as an offset into memory, and *BytesRem.
  datatype Cursor = Cursor(loc: nat, rem: nat)

  const FAIL := 1
  const NOT_FOUND := 2
  const END_OF_DESCRIPTOR := 2

  /** Everything the walk may look at is in memory. The loops read the two header bytes at the
      end of the chain too, so two bytes beyond it have to be readable. */
  predicate Readable(mem: seq<byte>, c: Cursor) {
    c.loc + c.rem + 2 <= |mem|
  }

  /** One move: over the current descriptor, or over what is left if it claims more than that. */
  function Skip(mem: seq<byte>, c: Cursor): Cursor
    requires Readable(mem, c)
  {
    var size := if c.rem < mem[c.loc] then c.rem else mem[c.loc];
    Cursor(c.loc + size, c.rem - size)
  }

  /** The walk stands on a descriptor that claims to be empty. */
  predicate Stuck(mem: seq<byte>, c: Cursor)
    requires Readable(mem, c)
  {
    c.rem > 0 && mem[c.loc] == 0
  }

  /** A descriptor of length zero is exactly what a move cannot get past. */
  lemma SkipStuckIffEmptyDescriptor(mem: seq<byte>, c: Cursor)
    requires Readable(mem, c) && c.rem > 0
    ensures Skip(mem, c) == c <==> Stuck(mem, c)
    ensures Skip(mem, c).loc + Skip(mem, c).rem == c.loc + c.rem
  {
  }

  /** The starts of the descriptors that moves lead to after the current one, in order: all that
      follow, or those up to the first empty one. */
  function Following(mem: seq<byte>, c: Cursor): (ps: seq<nat>)
    requires Readable(mem, c)
    ensures forall i | 0 <= i < |ps| :: c.loc < ps[i] < c.loc + c.rem
    ensures forall i, j | 0 <= i < j < |ps| :: ps[i] < ps[j]
    decreases c.rem
  {
    if c.rem == 0 || mem[c.loc] == 0 || Skip(mem, c).rem == 0 then []
    else [Skip(mem, c).loc] + Following(mem, Skip(mem, c))
  }

  /** No empty descriptor is in the way to the end of the chain. */
  predicate Nonempty(mem: seq<byte>, c: Cursor)
    requires Readable(mem, c)
    decreases c.rem
  {
    c.rem == 0 || (mem[c.loc] > 0 && Nonempty(mem, Skip(mem, c)))
  }

  /** At(c, p): the same chain, with the walk standing on p. */
  function At(c: Cursor, p: nat): Cursor
    requires p <= c.loc + c.rem
  {
    Cursor(p, c.loc + c.rem - p)
  }

  function End(c: Cursor): Cursor {
    Cursor(c.loc + c.rem, 0)
  }

  // ----- when a search ends -----

  /** The walk meets no empty descriptor before a hit, unless that descriptor is itself the hit. */
  predicate Clear(mem: seq<byte>, c: Cursor, hit: nat -> bool)
    requires Readable(mem, c)
    decreases c.rem
  {
    c.rem == 0 || hit(Skip(mem, c).loc) || (mem[c.loc] > 0 && Clear(mem, Skip(mem, c), hit))
  }

  function Moved(mem: seq<byte>, c: Cursor, n: nat): (d: Cursor)
    requires Readable(mem, c)
    ensures Readable(mem, d)
    decreases n
  {
    if n == 0 then c else Moved(mem, Skip(mem, c), n - 1)
  }

  /** After n moves, the loop of a search is left: nothing remains, or it has moved onto a hit. */
  predicate Leaves(mem: seq<byte>, c: Cursor, hit: nat -> bool, n: nat)
    requires Readable(mem, c)
  {
    var d := Moved(mem, c, n);
    d.rem == 0 || (n > 0 && hit(d.loc))
  }

  lemma {:induction false} ClearLeaves(mem: seq<byte>, c: Cursor, hit: nat -> bool) returns (n: nat)
    requires Readable(mem, c) && Clear(mem, c, hit)
    ensures Leaves(mem, c, hit, n)
    decreases c.rem
  {
    if c.rem == 0 {
      n := 0;
    } else if hit(Skip(mem, c).loc) {
      assert Moved(mem, c, 1) == Moved(mem, Skip(mem, c), 0);
      n := 1;
    } else {
      var m := ClearLeaves(mem, Skip(mem, c), hit);
      n := m + 1;
    }
  }

  lemma {:induction false} LeavesClear(mem: seq<byte>, c: Cursor, hit: nat -> bool, n: nat)
    requires Readable(mem, c) && Leaves(mem, c, hit, n)
    ensures Clear(mem, c, hit)
    decreases n
  {
    if c.rem > 0 && !hit(Skip(mem, c).loc) {
      var d := Skip(mem, c);
      if n == 1 {
        assert Moved(mem, c, 1) == Moved(mem, d, 0) == d;
      } else {
        LeavesClear(mem, d, hit, n - 1);
      }
    }
  }

  /** The loop of a search ends exactly if no empty descriptor is met before a hit. */
  lemma SearchEndsIff(mem: seq<byte>, c: Cursor, hit: nat -> bool)
    requires Readable(mem, c)
    ensures (exists n :: Leaves(mem, c, hit, n)) <==> Clear(mem, c, hit)
  {
    if Clear(mem, c, hit) {
      var n := ClearLeaves(mem, c, hit);
    }
    if n :| Leaves(mem, c, hit, n) {
      LeavesClear(mem, c, hit, n);
    }
  }

  /** In terms of the descriptors that follow: one of them is a hit, or the chain has no empty
      descriptor, or the current descriptor is empty and is found where it stands. */
  lemma {:induction false} ClearIff(mem: seq<byte>, c: Cursor, hit: nat -> bool)
    requires Readable(mem, c)
    ensures Clear(mem, c, hit) <==>
              || !Nowhere(Following(mem, c), hit)
              || Nonempty(mem, c)
              || (Stuck(mem, c) && hit(c.loc))
    decreases c.rem
  {
    var ps := Following(mem, c);
    if ps != [] {
      var d := Skip(mem, c);
      assert ps[0] == d.loc && ps[1..] == Following(mem, d);
      NowhereInRest(ps, hit);
      ClearIff(mem, d, hit);
    } else if c.rem > 0 && mem[c.loc] > 0 {
      assert Skip(mem, c).rem == 0;
    }
  }

  // ----- the searches, as the loops run -----

  /** Moves on until the memory at the new place is a hit or nothing is left. The end of the
      chain is looked at like any other place. */
  function Search(mem: seq<byte>, c: Cursor, hit: nat -> bool): Cursor
    requires Readable(mem, c) && Clear(mem, c, hit)
    decreases c.rem
  {
    if c.rem == 0 then c
    else if hit(Skip(mem, c).loc) then Skip(mem, c)
    else Search(mem, Skip(mem, c), hit)
  }

  function HasType(mem: seq<byte>, t: byte): nat -> bool {
    (p: nat) => if p + 1 < |mem| then mem[p + 1] == t else false
  }

  function OfType(mem: seq<byte>, c: Cursor, t: byte): Cursor
    requires Readable(mem, c) && Clear(mem, c, HasType(mem, t))
  {
    Search(mem, c, HasType(mem, t))
  }

  function Either(mem: seq<byte>, t: byte, before: byte): nat -> bool {
    (p: nat) => HasType(mem, t)(p) || HasType(mem, before)(p)
  }

  function OfTypeBefore(mem: seq<byte>, c: Cursor, t: byte, before: byte): Cursor
    requires Readable(mem, c) && Clear(mem, c, Either(mem, t, before))
  {
    var d := Search(mem, c, Either(mem, t, before));
    if HasType(mem, t)(d.loc) then d else Cursor(d.loc, 0)
  }

  /** The comparator's answer and where it leaves the walk: a Fail steps back before the
      descriptor that caused it. */
  function Compare(mem: seq<byte>, c: Cursor, cmp: nat -> byte): (Cursor, byte)
    requires Readable(mem, c) && Clear(mem, c, Decides(cmp))
    decreases c.rem
  {
    if c.rem == 0 then (c, END_OF_DESCRIPTOR)
    else
      var d := Skip(mem, c);
      if cmp(d.loc) == NOT_FOUND then Compare(mem, d, cmp)
      else (if cmp(d.loc) == FAIL then c else d, cmp(d.loc))
  }

  function Decides(cmp: nat -> byte): nat -> bool {
    (p: nat) => cmp(p) != NOT_FOUND
  }

  // ----- what they find -----

  predicate Nowhere(ps: seq<nat>, hit: nat -> bool) {
    forall i | 0 <= i < |ps| :: !hit(ps[i])
  }

  /** k is the index of the first of the positions ps that is a hit. */
  predicate First(ps: seq<nat>, hit: nat -> bool, k: nat) {
    k < |ps| && hit(ps[k]) && forall i | 0 <= i < k :: !hit(ps[i])
  }

  lemma NowhereInRest(ps: seq<nat>, hit: nat -> bool)
    requires ps != []
    ensures Nowhere(ps, hit) <==> !hit(ps[0]) && Nowhere(ps[1..], hit)
  {
    assert forall i | 0 <= i < |ps| - 1 :: ps[1..][i] == ps[i + 1];
    assert forall i | 1 <= i < |ps| :: ps[i] == ps[1..][i - 1];
  }

  /** Past a first element that is no hit, the answer is that of the rest. */
  lemma FirstInRest(ps: seq<nat>, hit: nat -> bool, k: nat)
    requires ps != [] && !hit(ps[0])
    ensures Nowhere(ps, hit) ==> Nowhere(ps[1..], hit)
    ensures First(ps, hit, k) ==> k > 0 && First(ps[1..], hit, k - 1)
  {
    assert forall i | 0 <= i < |ps| - 1 :: ps[1..][i] == ps[i + 1];
  }

  lemma {:induction false} FirstOrNowhere(ps: seq<nat>, hit: nat -> bool) returns (k: nat)
    ensures Nowhere(ps, hit) || First(ps, hit, k)
  {
    k := 0;
    if ps != [] && !hit(ps[0]) {
      var j := FirstOrNowhere(ps[1..], hit);
      assert forall i | 1 <= i < |ps| :: ps[i] == ps[1..][i - 1];
      k := j + 1;
    }
  }

  /** A search that ends, ends on the first hit after the current descriptor, or at the end of the
      chain if there is none; stray bytes beyond the chain make no difference. From an empty
      descriptor, which must then be the hit, it does not move. */
  lemma {:induction false} SearchFindsFirst(mem: seq<byte>, c: Cursor, hit: nat -> bool, k: nat)
    requires Readable(mem, c) && Clear(mem, c, hit)
    ensures Stuck(mem, c) ==> Search(mem, c, hit) == c
    ensures !Stuck(mem, c) && Nowhere(Following(mem, c), hit) ==> Search(mem, c, hit) == End(c)
    ensures First(Following(mem, c), hit, k) ==> Search(mem, c, hit) == At(c, Following(mem, c)[k])
    decreases c.rem
  {
    var ps := Following(mem, c);
    if ps != [] {
      var d := Skip(mem, c);
      assert ps[0] == d.loc && ps[1..] == Following(mem, d);
      if !hit(d.loc) {
        FirstInRest(ps, hit, k);
        SearchFindsFirst(mem, d, hit, if k > 0 then k - 1 else 0);
      }
    }
  }

  lemma OfTypeFindsFirst(mem: seq<byte>, c: Cursor, t: byte, k: nat)
    requires Readable(mem, c) && Clear(mem, c, HasType(mem, t))
    ensures var ps := Following(mem, c);
      && (Stuck(mem, c) ==> OfType(mem, c, t) == c && mem[c.loc + 1] == t)
      && (!Stuck(mem, c) && Nowhere(ps, HasType(mem, t)) ==> OfType(mem, c, t) == End(c))
      && (First(ps, HasType(mem, t), k) ==> OfType(mem, c, t) == At(c, ps[k]))
  {
    SearchFindsFirst(mem, c, HasType(mem, t), k);
  }

  /** Only a barrier met before any hit ends this search early, and then nothing is left to walk.
      The place where that happens is the barrier. */
  lemma OfTypeBeforeFindsFirst(mem: seq<byte>, c: Cursor, t: byte, before: byte, k: nat)
    requires Readable(mem, c) && Clear(mem, c, Either(mem, t, before))
    ensures var ps := Following(mem, c);
      && (Stuck(mem, c) ==> OfTypeBefore(mem, c, t, before) == if mem[c.loc + 1] == t then c else Cursor(c.loc, 0))
      && (!Stuck(mem, c) && Nowhere(ps, Either(mem, t, before)) ==> OfTypeBefore(mem, c, t, before) == End(c))
      && (First(ps, Either(mem, t, before), k) ==>
            OfTypeBefore(mem, c, t, before) ==
              if HasType(mem, t)(ps[k]) then At(c, ps[k]) else Cursor(ps[k], 0))
  {
    SearchFindsFirst(mem, c, Either(mem, t, before), k);
  }

  /** Standing on a later descriptor leaves the rest of the list to follow. */
  lemma {:induction false} FollowingFrom(mem: seq<byte>, c: Cursor, k: nat)
    requires Readable(mem, c) && k < |Following(mem, c)|
    ensures var d := At(c, Following(mem, c)[k]);
      Readable(mem, d) && Following(mem, d) == Following(mem, c)[k + 1..]
    decreases k
  {
    if k > 0 {
      FollowingFrom(mem, Skip(mem, c), k - 1);
    }
  }

  lemma {:induction false} SearchStaysReadable(mem: seq<byte>, c: Cursor, hit: nat -> bool)
    requires Readable(mem, c) && Clear(mem, c, hit)
    ensures var d := Search(mem, c, hit); Readable(mem, d) && d.loc + d.rem == c.loc + c.rem
    decreases c.rem
  {
    if c.rem > 0 && !hit(Skip(mem, c).loc) {
      SearchStaysReadable(mem, Skip(mem, c), hit);
    }
  }

  /** Both searches of OfTypeAfter end. */
  predicate BothClear(mem: seq<byte>, c: Cursor, t: byte, after: byte)
    requires Readable(mem, c)
  {
    && Clear(mem, c, HasType(mem, after))
    && (SearchStaysReadable(mem, c, HasType(mem, after));
        Clear(mem, OfType(mem, c, after), HasType(mem, t)))
  }

  function OfTypeAfter(mem: seq<byte>, c: Cursor, t: byte, after: byte): Cursor
    requires Readable(mem, c) && BothClear(mem, c, t, after)
  {
    SearchStaysReadable(mem, c, HasType(mem, after));
    OfType(mem, OfType(mem, c, after), t)
  }

  /** The two searches in a row find the first t that comes after the first marker. A marker of
      length zero is left only if it is the t as well. */
  lemma OfTypeAfterFindsFirst(mem: seq<byte>, c: Cursor, t: byte, after: byte, i: nat, k: nat)
    requires Readable(mem, c) && BothClear(mem, c, t, after)
    ensures var ps := Following(mem, c);
      && (Stuck(mem, c) ==> OfTypeAfter(mem, c, t, after) == c && mem[c.loc + 1] == t == after)
      && (!Stuck(mem, c) && Nowhere(ps, HasType(mem, after)) ==> OfTypeAfter(mem, c, t, after) == End(c))
      && (First(ps, HasType(mem, after), i) && First(ps[i + 1..], HasType(mem, t), k) ==>
            OfTypeAfter(mem, c, t, after) == At(c, ps[i + 1 + k]))
      && (First(ps, HasType(mem, after), i) && Nowhere(ps[i + 1..], HasType(mem, t)) ==>
            OfTypeAfter(mem, c, t, after) == if mem[ps[i]] == 0 then At(c, ps[i]) else End(c))
  {
    var ps := Following(mem, c);
    OfTypeFindsFirst(mem, c, after, i);
    SearchStaysReadable(mem, c, HasType(mem, after));
    if Stuck(mem, c) {
      OfTypeFindsFirst(mem, c, t, k);
    }
    if First(ps, HasType(mem, after), i) {
      FollowingFrom(mem, c, i);
      OfTypeFindsFirst(mem, At(c, ps[i]), t, k);
    }
  }

  /** The descriptor before the k-th one to follow, the current one when k is 0. */
  function Before(mem: seq<byte>, c: Cursor, k: nat): Cursor
    requires Readable(mem, c) && k <= |Following(mem, c)|
  {
    if k == 0 then c else At(c, Following(mem, c)[k - 1])
  }

  /** One move from the place before a descriptor leads to it. */
  lemma {:induction false} BeforeLeadsTo(mem: seq<byte>, c: Cursor, k: nat)
    requires Readable(mem, c) && k < |Following(mem, c)|
    ensures Readable(mem, Before(mem, c, k))
    ensures Skip(mem, Before(mem, c, k)) == At(c, Following(mem, c)[k])
  {
    if k > 0 {
      FollowingFrom(mem, c, k - 1);
      assert Following(mem, Before(mem, c, k))[0] == Following(mem, c)[k];
    }
  }

  /** Seen from the next descriptor, the one before is the same. */
  lemma BeforeInRest(mem: seq<byte>, c: Cursor, k: nat)
    requires Readable(mem, c) && 0 < k < |Following(mem, c)|
    ensures var d := Skip(mem, c);
      Readable(mem, d) && k - 1 < |Following(mem, d)| && Before(mem, d, k - 1) == Before(mem, c, k)
  {
    var d := Skip(mem, c);
    assert Following(mem, c) == [d.loc] + Following(mem, d);
  }

  lemma {:induction false} CompareWhenDecided(mem: seq<byte>, c: Cursor, cmp: nat -> byte, k: nat)
    requires Readable(mem, c) && Clear(mem, c, Decides(cmp)) && First(Following(mem, c), Decides(cmp), k)
    ensures var code := cmp(Following(mem, c)[k]);
      Compare(mem, c, cmp) == (if code == FAIL then Before(mem, c, k) else At(c, Following(mem, c)[k]), code)
    decreases k
  {
    if k > 0 {
      var d := Skip(mem, c);
      assert Following(mem, c)[1..] == Following(mem, d);
      FirstInRest(Following(mem, c), Decides(cmp), k);
      CompareWhenDecided(mem, d, cmp, k - 1);
      BeforeInRest(mem, c, k);
    }
  }

  lemma {:induction false} CompareWhenUndecided(mem: seq<byte>, c: Cursor, cmp: nat -> byte)
    requires Readable(mem, c) && Clear(mem, c, Decides(cmp)) && c.rem > 0 && !Stuck(mem, c)
    requires Nowhere(Following(mem, c), Decides(cmp))
    ensures var code := cmp(End(c).loc);
      Compare(mem, c, cmp) == (if code == FAIL then Before(mem, c, |Following(mem, c)|) else End(c), code)
    decreases c.rem
  {
    var ps := Following(mem, c);
    if ps != [] {
      var d := Skip(mem, c);
      assert ps[1..] == Following(mem, d) && ps[0] == d.loc;
      FirstInRest(ps, Decides(cmp), 0);
      CompareWhenUndecided(mem, d, cmp);
    }
  }

  /** The first descriptor on which the comparator decides gives the answer. After a Fail the
      walk stands so that one move leads back to the descriptor that failed. If none decides, the
      comparator is still shown the memory at the end of the chain, and its answer there counts.
      From an empty descriptor the walk does not move, and that descriptor decides. */
  lemma CompareDecidesAtFirst(mem: seq<byte>, c: Cursor, cmp: nat -> byte, k: nat)
    requires Readable(mem, c) && Clear(mem, c, Decides(cmp))
    ensures var (d, code) := Compare(mem, c, cmp); var ps := Following(mem, c);
      && (First(ps, Decides(cmp), k) ==>
            && code == cmp(ps[k])
            && Readable(mem, d)
            && (if code == FAIL then Skip(mem, d) == At(c, ps[k]) else d == At(c, ps[k])))
      && (Nowhere(ps, Decides(cmp)) && c.rem > 0 && !Stuck(mem, c) ==>
            code == cmp(End(c).loc) && (code != FAIL ==> d == End(c)))
      && (Stuck(mem, c) ==> d == c && code == cmp(c.loc) != NOT_FOUND)
      && (c.rem == 0 ==> d == c && code == END_OF_DESCRIPTOR)
  {
    var ps := Following(mem, c);
    if First(ps, Decides(cmp), k) {
      CompareWhenDecided(mem, c, cmp, k);
      BeforeLeadsTo(mem, c, k);
    } else if Nowhere(ps, Decides(cmp)) && c.rem > 0 && !Stuck(mem, c) {
      CompareWhenUndecided(mem, c, cmp);
    }
  }

  /** EndOfDescriptor is answered exactly when no descriptor decides and, unless there was
      nothing to walk, the stray memory at the end does not either. */
  lemma EndOfDescriptorIff(mem: seq<byte>, c: Cursor, cmp: nat -> byte)
    requires Readable(mem, c) && Clear(mem, c, Decides(cmp))
    ensures Compare(mem, c, cmp).1 == END_OF_DESCRIPTOR <==>
              && !Stuck(mem, c) && Nowhere(Following(mem, c), Decides(cmp))
              && (c.rem > 0 ==> cmp(End(c).loc) == NOT_FOUND)
  {
    var k := FirstOrNowhere(Following(mem, c), Decides(cmp));
    CompareDecidesAtFirst(mem, c, cmp, k);
  }

  // ----- chains as they are written -----

  /** Descriptors one after the other. */
  function Chain(ds: seq<seq<byte>>): seq<byte> {
    if ds == [] then [] else ds[0] + Chain(ds[1..])
  }

  /** Each says in its first byte how long it is, and has a type byte. */
  predicate Lengthed(ds: seq<seq<byte>>) {
    forall d <- ds :: 2 <= |d| && d[0] == |d|
  }

  /** The walk stands on the first of the descriptors ds, and they are all that is left. */
  predicate Holds(mem: seq<byte>, c: Cursor, ds: seq<seq<byte>>) {
    && Readable(mem, c) && ds != [] && Lengthed(ds)
    && c.rem == |Chain(ds)| && mem[c.loc..c.loc + c.rem] == Chain(ds)
  }

  /** Where descriptor k of the chain starts. */
  function StartOf(c: Cursor, ds: seq<seq<byte>>, k: nat): nat
    requires k <= |ds|
  {
    c.loc + |Chain(ds[..k])|
  }

  lemma HeaderBytes(mem: seq<byte>, c: Cursor, ds: seq<seq<byte>>)
    requires Holds(mem, c, ds)
    ensures c.rem >= |ds[0]| >= 2 && mem[c.loc] == |ds[0]| && mem[c.loc + 1] == ds[0][1]
  {
    assert ds[0] in ds;
    assert mem[c.loc..c.loc + c.rem][0] == ds[0][0] && mem[c.loc..c.loc + c.rem][1] == ds[0][1];
  }

  /** One move goes over the first descriptor, whatever is in it. */
  lemma MoveOverFirst(mem: seq<byte>, c: Cursor, ds: seq<seq<byte>>)
    requires Holds(mem, c, ds)
    ensures Skip(mem, c) == Cursor(c.loc + |ds[0]|, c.rem - |ds[0]|)
    ensures |ds| > 1 ==> Holds(mem, Skip(mem, c), ds[1..])
    ensures |ds| == 1 ==> Skip(mem, c).rem == 0
  {
    HeaderBytes(mem, c, ds);
    var d := Skip(mem, c);
    assert mem[d.loc..d.loc + d.rem] == mem[c.loc..c.loc + c.rem][|ds[0]|..];
    if |ds| > 1 {
      assert Lengthed(ds[1..]);
    } else {
      assert Chain(ds[1..]) == [];
    }
  }

  lemma StartInRest(c: Cursor, d: Cursor, ds: seq<seq<byte>>, k: nat)
    requires 0 < k <= |ds| && d.loc == c.loc + |ds[0]|
    ensures StartOf(d, ds[1..], k - 1) == StartOf(c, ds, k)
  {
    assert ds[..k][1..] == ds[1..][..k - 1];
  }

  lemma {:induction false} ChainLength(mem: seq<byte>, c: Cursor, ds: seq<seq<byte>>)
    requires Holds(mem, c, ds)
    ensures Nonempty(mem, c) && !Stuck(mem, c) && |Following(mem, c)| == |ds| - 1
    decreases |ds|
  {
    HeaderBytes(mem, c, ds);
    MoveOverFirst(mem, c, ds);
    if |ds| > 1 {
      HeaderBytes(mem, Skip(mem, c), ds[1..]);
      ChainLength(mem, Skip(mem, c), ds[1..]);
    }
  }

  function TypeOf(d: seq<byte>): nat {
    if |d| < 2 then 256 else d[1]
  }

  /** The descriptors that follow start behind the lengths of those before them. */
  lemma {:induction false} ChainFollows(mem: seq<byte>, c: Cursor, ds: seq<seq<byte>>, k: nat)
    requires Holds(mem, c, ds) && 1 <= k < |ds|
    ensures |Following(mem, c)| == |ds| - 1 && Following(mem, c)[k - 1] == StartOf(c, ds, k)
    ensures mem[StartOf(c, ds, k) + 1] == TypeOf(ds[k])
    decreases |ds|
  {
    ChainLength(mem, c, ds);
    HeaderBytes(mem, c, ds);
    MoveOverFirst(mem, c, ds);
    var d := Skip(mem, c);
    StartInRest(c, d, ds, k);
    HeaderBytes(mem, d, ds[1..]);
    if k > 1 {
      ChainFollows(mem, d, ds[1..], k - 1);
    } else {
      assert ds[1..][..0] == [];
    }
  }

  /** k is the first descriptor after the current one with one of the two types. */
  predicate FirstTyped(ds: seq<seq<byte>>, t: byte, u: byte, k: nat) {
    && 1 <= k < |ds| && (TypeOf(ds[k]) == t || TypeOf(ds[k]) == u)
    && forall j | 1 <= j < k :: TypeOf(ds[j]) != t && TypeOf(ds[j]) != u
  }

  lemma HitOnChain(mem: seq<byte>, c: Cursor, ds: seq<seq<byte>>, t: byte, k: nat)
    requires Holds(mem, c, ds) && 1 <= k < |ds|
    ensures |Following(mem, c)| == |ds| - 1
    ensures HasType(mem, t)(Following(mem, c)[k - 1]) <==> TypeOf(ds[k]) == t
  {
    ChainFollows(mem, c, ds, k);
  }

  lemma FirstOnChain(mem: seq<byte>, c: Cursor, ds: seq<seq<byte>>, t: byte, u: byte, k: nat)
    requires Holds(mem, c, ds) && FirstTyped(ds, t, u, k)
    ensures First(Following(mem, c), Either(mem, t, u), k - 1)
  {
    var ps := Following(mem, c);
    HitOnChain(mem, c, ds, t, k);
    HitOnChain(mem, c, ds, u, k);
    forall i | 0 <= i < k - 1 ensures !Either(mem, t, u)(ps[i]) {
      HitOnChain(mem, c, ds, t, i + 1);
      HitOnChain(mem, c, ds, u, i + 1);
    }
  }

  /** The search for a type on such a chain ends: on the first descriptor of that type after the current
      one, or at the end if there is none. */
  lemma ChainOfType(mem: seq<byte>, c: Cursor, ds: seq<seq<byte>>, t: byte, k: nat)
    requires Holds(mem, c, ds)
    ensures Clear(mem, c, HasType(mem, t))
    ensures FirstTyped(ds, t, t, k) ==>
      OfType(mem, c, t).loc == StartOf(c, ds, k) && OfType(mem, c, t).rem + |Chain(ds[..k])| == c.rem
    ensures (forall j | 1 <= j < |ds| :: TypeOf(ds[j]) != t) ==> OfType(mem, c, t) == End(c)
  {
    ChainLength(mem, c, ds);
    ClearIff(mem, c, HasType(mem, t));
    if FirstTyped(ds, t, t, k) {
      FirstOnChain(mem, c, ds, t, t, k);
      SameHits(Following(mem, c), HasType(mem, t), Either(mem, t, t), k - 1);
      OfTypeFindsFirst(mem, c, t, k - 1);
      ChainFollows(mem, c, ds, k);
    } else if forall j | 1 <= j < |ds| :: TypeOf(ds[j]) != t {
      NoneOnChain(mem, c, ds, t);
      OfTypeFindsFirst(mem, c, t, 0);
    }
  }

  lemma NoneOnChain(mem: seq<byte>, c: Cursor, ds: seq<seq<byte>>, t: byte)
    requires Holds(mem, c, ds) && forall j | 1 <= j < |ds| :: TypeOf(ds[j]) != t
    ensures Nowhere(Following(mem, c), HasType(mem, t))
  {
    ChainLength(mem, c, ds);
    forall i | 0 <= i < |ds| - 1 ensures !HasType(mem, t)(Following(mem, c)[i]) {
      HitOnChain(mem, c, ds, t, i + 1);
    }
  }

  lemma SameHits(ps: seq<nat>, hit: nat -> bool, other: nat -> bool, k: nat)
    requires First(ps, other, k) && forall p: nat :: hit(p) == other(p)
    ensures First(ps, hit, k)
  {
  }

  /** The search with a barrier: whichever type comes first decides. */
  lemma ChainOfTypeBefore(mem: seq<byte>, c: Cursor, ds: seq<seq<byte>>, t: byte, before: byte, k: nat)
    requires Holds(mem, c, ds) && FirstTyped(ds, t, before, k)
    ensures Clear(mem, c, Either(mem, t, before))
    ensures var d := OfTypeBefore(mem, c, t, before);
      && d.loc == StartOf(c, ds, k)
      && (if TypeOf(ds[k]) == t then d.rem + |Chain(ds[..k])| == c.rem else d.rem == 0)
  {
    ChainLength(mem, c, ds);
    ClearIff(mem, c, Either(mem, t, before));
    FirstOnChain(mem, c, ds, t, before, k);
    OfTypeBeforeFindsFirst(mem, c, t, before, k - 1);
    HitOnChain(mem, c, ds, t, k);
    ChainFollows(mem, c, ds, k);
  }

  class ConfigWalker {
    const mem: array<byte>
    var loc: nat
    var rem: nat

    constructor (memory: array<byte>, start: nat, length: nat)
      ensures mem == memory && View() == Cursor(start, length)
    {
      mem, loc, rem := memory, start, length;
    }

    ghost function View(): Cursor
      reads this
    {
      Cursor(loc, rem)
    }

    /** USB_GetNextDescriptor */
    method NextDescriptor()
      requires Readable(mem[..], View())
      modifies this`loc, this`rem
      ensures View() == Skip(mem[..], old(View()))
      ensures loc == old(loc) + (if old(rem) < mem[old(loc)] then old(rem) else mem[old(loc)])
      ensures Readable(mem[..], View()) && loc + rem == old(loc + rem)
    {
      var size: nat := mem[loc];
      if rem < size {
        size := rem;
      }
      loc := loc + size;
      rem := rem - size;
    }

    /** USB_GetNextDescriptorOfType; the precondition is exactly that its loop ends. */
    method NextOfType(t: byte)
      requires Readable(mem[..], View()) && Clear(mem[..], View(), HasType(mem[..], t))
      modifies this`loc, this`rem
      ensures Readable(mem[..], View()) && View() == OfType(mem[..], old(View()), t)
      ensures loc + rem == old(loc + rem)
    {
      ghost var m, c, hit := mem[..], View(), HasType(mem[..], t);
      while rem > 0
        invariant Readable(m, View()) && loc + rem == old(loc + rem)
        invariant Clear(m, View(), hit) && Search(m, View(), hit) == Search(m, c, hit)
        decreases rem
      {
        NextDescriptor();
        if mem[loc + 1] == t {
          return;
        }
      }
    }

    /** USB_GetNextDescriptorOfTypeBefore */
    method NextOfTypeBefore(t: byte, before: byte)
      requires Readable(mem[..], View()) && Clear(mem[..], View(), Either(mem[..], t, before))
      modifies this`loc, this`rem
      ensures Readable(mem[..], View()) && View() == OfTypeBefore(mem[..], old(View()), t, before)
      ensures loc + rem == old(loc + rem) || rem == 0
    {
      ghost var m, c, hit := mem[..], View(), Either(mem[..], t, before);
      while rem > 0
        invariant Readable(m, View()) && loc + rem == old(loc + rem)
        invariant Clear(m, View(), hit) && Search(m, View(), hit) == Search(m, c, hit)
        decreases rem
      {
        NextDescriptor();
        assert HasType(m, t)(loc) == (mem[loc + 1] == t) && HasType(m, before)(loc) == (mem[loc + 1] == before);
        if mem[loc + 1] == t {
          return;
        } else if mem[loc + 1] == before {
          rem := 0;
          return;
        }
      }
    }

    /** USB_GetNextDescriptorOfTypeAfter */
    method NextOfTypeAfter(t: byte, after: byte)
      requires Readable(mem[..], View()) && BothClear(mem[..], View(), t, after)
      modifies this`loc, this`rem
      ensures Readable(mem[..], View()) && View() == OfTypeAfter(mem[..], old(View()), t, after)
      ensures loc + rem == old(loc + rem)
    {
      NextOfType(after);
      if rem > 0 {
        NextOfType(t);
      }
    }

    /** USB_GetNextDescriptorComp */
    method NextComp(cmp: nat -> byte) returns (code: byte)
      requires Readable(mem[..], View()) && Clear(mem[..], View(), Decides(cmp))
      modifies this`loc, this`rem
      ensures (View(), code) == Compare(mem[..], old(View()), cmp)
      ensures Readable(mem[..], View()) && loc + rem == old(loc + rem)
    {
      ghost var m, c := mem[..], View();
      while rem > 0
        invariant Readable(m, View()) && loc + rem == old(loc + rem)
        invariant Clear(m, View(), Decides(cmp)) && Compare(m, View(), cmp) == Compare(m, c, cmp)
        decreases rem
      {
        var prevLoc, prevRem := loc, rem;
        NextDescriptor();
        code := cmp(loc);
        if code != NOT_FOUND {
          if code == FAIL {
            loc, rem := prevLoc, prevRem;
          }
          return;
        }
      }
      code := END_OF_DESCRIPTOR;
    }
  }
}
