// A 256-bit number as a list of up to eight 32-bit channel ids, lowest slot first.
module ChannelPath {
  import opened Arith
  import opened Words
  import opened Limbs
  import opened Bits
  import opened Uint256
  import opened Bitwise256
  import Shifts

  const SLOT: int := 0x1_0000_0000
  const MAX_HOPS: nat := 8

  type ChannelId = x: int | 0 <= x < 0x1_0000_0000

  // A Go int.
  type Index = x: int | -0x8000_0000_0000_0000 <= x <= 0x7FFF_FFFF_FFFF_FFFF

  // 2^59: the bit position of a slot is 32 times its index modulo 2^64.
  const WRAP: int := 0x0800_0000_0000_0000

  // ---- the list a path stands for ----

  function PathOf(ids: seq<ChannelId>): (v: nat)
  {
    if |ids| == 0 then 0 else ids[0] + SLOT * PathOf(ids[1..])
  }

  ghost predicate Canonical(ids: seq<ChannelId>)
  {
    |ids| <= MAX_HOPS && forall k :: 0 <= k < |ids| ==> ids[k] != 0
  }

  function Slots(n: nat): (w: nat)
    ensures w > 0
  {
    Pow(SLOT, n)
  }

  function Reversed(ids: seq<ChannelId>): (r: seq<ChannelId>)
    ensures |r| == |ids|
  {
    if |ids| == 0 then [] else Reversed(ids[1..]) + [ids[0]]
  }

  lemma {:induction false} SlotsArePowers(n: nat)
    ensures Slots(n) == Pow2(32 * n)
  {
    if n > 0 {
      SlotsArePowers(n - 1);
      Pow2Add(32, 32 * (n - 1));
      Pow2Word();
    }
  }

  lemma SlotsMono(m: nat, n: nat)
    requires m <= n
    ensures Slots(m) <= Slots(n)
  {
    PowMono(SLOT, m, n);
  }

  lemma {:induction false} PathConcat(s: seq<ChannelId>, t: seq<ChannelId>)
    ensures PathOf(s + t) == PathOf(s) + Slots(|s|) * PathOf(t)
  {
    if |s| == 0 {
      assert s + t == t;
    } else {
      assert (s + t)[1..] == s[1..] + t;
      PathConcat(s[1..], t);
      Associate(SLOT, Slots(|s| - 1), PathOf(t));
    }
  }

  lemma {:induction false} PathBound(ids: seq<ChannelId>)
    ensures PathOf(ids) < Slots(|ids|)
  {
    if |ids| > 0 {
      PathBound(ids[1..]);
    }
  }

  lemma PathSingle(id: ChannelId)
    ensures PathOf([id]) == id
  {
    assert [id][1..] == [];
  }

  // With a non-zero last id a path has exactly as many slots as ids.
  lemma PathWidth(ids: seq<ChannelId>)
    requires |ids| > 0 && ids[|ids| - 1] != 0
    ensures Slots(|ids| - 1) <= PathOf(ids) < Slots(|ids|)
  {
    hide PathOf, Slots;
    var n := |ids| - 1;
    assert ids == ids[..n] + [ids[n]];
    PathConcat(ids[..n], [ids[n]]);
    PathSingle(ids[n]);
    PathBound(ids);
    MulLe(1, ids[n], Slots(n));
  }

  lemma PathFits(ids: seq<ChannelId>)
    requires |ids| <= MAX_HOPS
    ensures PathOf(ids) < Weight(4)
  {
    hide PathOf, Weight, Pow2;
    PathBound(ids);
    PowMono(SLOT, |ids|, MAX_HOPS);
    SlotsArePowers(MAX_HOPS);
    Shifts.PowerOfTwoWeight(4);
  }

  // The ids a number holds: its base 2^32 digits up to the highest that is not zero.
  function IdsOf(v: nat): (ids: seq<ChannelId>)
  {
    if v == 0 then [] else [v % SLOT] + IdsOf(v / SLOT)
  }

  lemma {:induction false} PathOfIds(v: nat)
    ensures PathOf(IdsOf(v)) == v
    ensures v > 0 ==> IdsOf(v)[|IdsOf(v)| - 1] != 0
  {
    if v > 0 {
      PathOfIds(v / SLOT);
      assert IdsOf(v)[1..] == IdsOf(v / SLOT);
    }
  }

  lemma {:induction false} IdsOfPath(ids: seq<ChannelId>)
    requires |ids| > 0 ==> ids[|ids| - 1] != 0
    ensures IdsOf(PathOf(ids)) == ids
  {
    if |ids| > 0 {
      IdsOfPath(ids[1..]);
      var v, w := PathOf(ids), PathOf(ids[1..]);
      assert v % SLOT == ids[0] && v / SLOT == w;
      assert ids == [ids[0]] + ids[1..];
    }
  }

  // ---- slot counting ----

  function Hops(v: nat): (n: nat)
  {
    (Len64(v) + 31) / 32
  }

  lemma HopsUnique(v: nat, n: nat)
    requires n > 0 && Slots(n - 1) <= v < Slots(n)
    ensures Hops(v) == n
  {
    hide Slots, Pow2, Len64;
    SlotsArePowers(n - 1);
    SlotsArePowers(n);
    LenAtMost(v, 32 * n);
    Len64Bounds(v);
    if Len64(v) <= 32 * (n - 1) { Pow2Mono(Len64(v), 32 * (n - 1)); }
  }

  lemma HopsAreIds(v: nat)
    ensures Hops(v) == |IdsOf(v)|
    ensures v > 0 ==> |IdsOf(v)| > 0 && Slots(|IdsOf(v)| - 1) <= v < Slots(|IdsOf(v)|)
  {
    hide Slots, Hops;
    PathOfIds(v);
    if v > 0 {
      PathWidth(IdsOf(v));
      HopsUnique(v, |IdsOf(v)|);
    } else {
      NoHops();
    }
  }

  lemma NoHops()
    ensures Hops(0) == 0
  {
  }

  // A path within 256 bits has at most eight slots.
  lemma HopsAtMost(v: nat)
    requires v < Weight(4)
    ensures |IdsOf(v)| <= MAX_HOPS
  {
    hide IdsOf, Slots, Weight, Pow2;
    HopsAreIds(v);
    SlotsArePowers(MAX_HOPS);
    Shifts.PowerOfTwoWeight(4);
    if |IdsOf(v)| > MAX_HOPS { SlotsMono(MAX_HOPS, |IdsOf(v)| - 1); }
  }

  method BitLen(z: array<Word>) returns (n: nat)
    requires IsUint(z)
    ensures n == Len64(Val(z))
  {
    hide Value, Pow2, Len64;
    if z[3] != 0 {
      BitLenWords(z[..], 3);
      n := 192 + Len64(z[3]);
    } else if z[2] != 0 {
      BitLenWords(z[..], 2);
      n := 128 + Len64(z[2]);
    } else if z[1] != 0 {
      BitLenWords(z[..], 1);
      n := 64 + Len64(z[1]);
    } else {
      ValuePadded(z[..], 1);
      ValueSingle(z[0]);
      assert z[..][..1] == [z[0]];
      n := Len64(z[0]);
    }
  }

  lemma BitLenWords(z: seq<Word>, k: nat)
    requires |z| == 4 && k < 4 && z[k] != 0 && forall i :: k < i < 4 ==> z[i] == 0
    ensures Len64(Value(z)) == 64 * k + Len64(z[k])
  {
    hide Value, Weight, Pow2, Len64;
    var x: int := z[k];
    var n := Len64(z[k]);
    ValuePadded(z, k + 1);
    assert z[..k + 1] == z[..k] + [z[k]];
    ValueSnoc(z[..k], z[k]);
    ValueBound(z[..k]);
    Len64Bounds(z[k]);
    LenPositive(z[k]);
    Shifts.PowerOfTwoWeight(k);
    Pow2Add(64 * k, n);
    Pow2Add(64 * k, n - 1);
    Distribute(x, 1, Weight(k));
    MulLe(Pow2(n - 1), x, Weight(k));
    MulLe(x + 1, Pow2(n), Weight(k));
    LenUnique(Value(z), 64 * k + n);
  }

  lemma LenPositive(x: nat)
    requires x > 0
    ensures Len64(x) > 0
  {
  }

  // ---- the operations ----

  method HopCount(path: array<Word>) returns (n: nat)
    requires IsUint(path)
    ensures n == |IdsOf(Val(path))|
  {
    hide Value, IdsOf, Slots;
    HopsAreIds(Val(path));
    var zero := IsZero(path);
    if zero { return 0; }
    var bits := BitLen(path);
    n := (bits + 31) / 32;
  }

  // The low 32 bits of a number.
  method LowSlot(path: array<Word>) returns (id: ChannelId)
    requires IsUint(path)
    ensures id == Val(path) % SLOT
  {
    hide Value, Pow2, Bitwise;
    var mask := NewUint(0xFFFF_FFFF);
    var low := NewUint(0);
    AndInto(low, path, mask);
    Pow2Word();
    AndMask(256, 32, Val(path));
    LowWord(low[..]);
    id := low[0];
  }

  // Whatever the path: the first id and the rest of the ids, or id zero when it is empty.
  method DequeueChannelFromPath(path: array<Word>) returns (rest: array<Word>, id: ChannelId)
    requires IsUint(path)
    ensures fresh(rest) && IsUint(rest)
    ensures Val(path) == 0 ==> Val(rest) == 0 && id == 0
    ensures Val(path) > 0 ==> IdsOf(Val(path)) == [id] + IdsOf(Val(rest))
  {
    hide Value, Pow2;
    rest := NewUint(0);
    var zero := IsZero(path);
    if zero { return rest, 0; }
    Pow2Word();
    Rsh(rest, path, 32);
    id := LowSlot(path);
  }

  lemma WrappedPosition(index: Index)
    requires index >= 0
    ensures index * 32 % B == 32 * (index % WRAP)
  {
    var q, r := index / WRAP, index % WRAP;
    assert index == q * WRAP + r && WRAP * 32 == B;
    DivUnique(index * 32, B, q, 32 * r);
  }

  // The id in one slot. An index outside the path gives zero below 2^59, and from there on exactly when
  // the slot it wraps around to is empty.
  method GetChannelFromPath(path: array<Word>, index: Index) returns (id: ChannelId)
    requires IsUint(path)
    ensures id == if index < 0 then 0 else Val(path) / Slots(index % WRAP) % SLOT
    ensures 0 <= index < |IdsOf(Val(path))| ==> id == IdsOf(Val(path))[index]
    ensures |IdsOf(Val(path))| <= index < WRAP ==> id == 0
    ensures |IdsOf(Val(path))| <= index ==>
              (id == 0 <==> var slot := index % WRAP;
                            |IdsOf(Val(path))| <= slot || IdsOf(Val(path))[slot] == 0)
  {
    hide Value, Pow2, Slots, IdsOf;
    if index < 0 { return 0; }
    var shifted := NewUint(0);
    SlotsArePowers(index % WRAP);
    WrappedPosition(index);
    Rsh(shifted, path, index * 32 % B);
    id := LowSlot(shifted);
    ValRange(path);
    SlotInRange(Val(path), index);
    SlotAt(Val(path), index % WRAP);
  }

  // The only id of a path, found at an index far outside it.
  method WrappedIndex() returns (path: array<Word>, id: ChannelId)
    ensures fresh(path) && IsUint(path) && IdsOf(Val(path)) == [1]
    ensures id == 1
  {
    hide Value;
    path := NewUint(1);
    OnlyOne();
    id := GetChannelFromPath(path, WRAP);
  }

  lemma OnlyOne()
    ensures IdsOf(1) == [1]
  {
    assert IdsOf(0) == [];
  }

  lemma SlotInRange(v: nat, index: Index)
    requires v < Weight(4) && index >= 0
    ensures index < |IdsOf(v)| ==> v / Slots(index % WRAP) % SLOT == IdsOf(v)[index]
    ensures |IdsOf(v)| <= index < WRAP ==> v / Slots(index % WRAP) % SLOT == 0
  {
    hide Weight, Slots, IdsOf;
    SlotAt(v, index % WRAP);
    HopsAtMost(v);
    HopsAreIds(v);
  }

  lemma {:induction false} SlotAt(v: nat, index: nat)
    ensures index < |IdsOf(v)| ==> v / Slots(index) % SLOT == IdsOf(v)[index]
    ensures index >= |IdsOf(v)| ==> v / Slots(index) % SLOT == 0
  {
    if v == 0 {
      DivUnique(0, Slots(index), 0, 0);
    } else if index > 0 {
      SlotAt(v / SLOT, index - 1);
      NestedQuotient(v, SLOT, Slots(index - 1));
    } else {
      assert v / 1 == v;
    }
  }

  lemma NestedQuotient(v: nat, a: nat, b: nat)
    requires a > 0 && b > 0
    ensures a * b > 0 && v / (a * b) == v / a / b
  {
    MulLe(1, a, b);
    QuotientNonNegative(v, a);
    var q := v / a;
    NestedParts(v, a, b, q, v % a, q / b, q % b);
  }

  lemma NestedParts(v: int, a: int, b: int, q: int, r: int, q2: int, r2: int)
    requires 0 < a && 0 < b && 0 < a * b && v == q * a + r && q == q2 * b + r2 && 0 <= r < a && 0 <= r2 < b
    ensures v / (a * b) == q2
  {
    assert q * a == q2 * (a * b) + r2 * a by {
      Distribute(q2 * b, r2, a);
      Associate(q2, b, a);
    }
    MulLe(0, r2, a);
    MulLe(r2, b - 1, a);
    Distribute(b, 1, a);
    DivUnique(v, a * b, q2, r2 * a + r);
  }

  // The id alone in one slot, or zero when that slot is outside the eight of a path.
  method MakePathFromChannel(id: ChannelId, index: Index) returns (path: array<Word>)
    ensures fresh(path) && IsUint(path)
    ensures Val(path) == if index < 0 || index % WRAP >= MAX_HOPS then 0 else id * Slots(index % WRAP)
    ensures 0 <= index < MAX_HOPS ==> Val(path) == id * Slots(index)
  {
    hide Value, Weight, Pow2, Slots;
    path := NewUint(0);
    if index < 0 { return; }
    var word := NewUint(id);
    WrappedPosition(index);
    Lsh(path, word, index * 32 % B);
    PlacedId(id, index % WRAP);
  }

  lemma PlacedId(id: ChannelId, slot: nat)
    ensures id * Pow2(32 * slot) % Weight(4) == if slot < MAX_HOPS then id * Slots(slot) else 0
  {
    hide Weight, Pow2, Slots;
    SlotsArePowers(slot);
    SlotsArePowers(MAX_HOPS);
    Shifts.PowerOfTwoWeight(4);
    if slot < MAX_HOPS {
      SlotFits(id, slot);
      DivUnique(id * Slots(slot), Weight(4), 0, id * Slots(slot));
    } else {
      Pow2Add(256, 32 * slot - 256);
      var w, p := Weight(4), Pow2(32 * slot - 256);
      Associate(id, p, w);
      DivUnique(id * (w * p), w, id * p, 0);
    }
  }

  lemma SlotFits(id: ChannelId, index: nat)
    requires index < MAX_HOPS
    ensures 0 <= id * Slots(index) < Slots(MAX_HOPS)
  {
    MulLe(id + 1, SLOT, Slots(index));
    Distribute(id, 1, Slots(index));
    MulBoth(0, id, 0, Slots(index));
    PowMono(SLOT, index + 1, MAX_HOPS);
  }

  datatype PathError = NoError | ChannelPathFull | NonCanonicalPath

  // Appends a non-zero id, and fails exactly on a path of eight hops.
  method UpdateChannelPath(path: array<Word>, next: ChannelId) returns (err: PathError, updated: array<Word>)
    requires IsUint(path)
    ensures fresh(updated) && IsUint(updated)
    ensures err == if |IdsOf(Val(path))| == MAX_HOPS then ChannelPathFull else NoError
    ensures err.NoError? && next != 0 ==> IdsOf(Val(updated)) == IdsOf(Val(path)) + [next]
    ensures err.NoError? && next == 0 ==> Val(updated) == Val(path)
  {
    hide Value, Weight, Pow2, Slots, Bitwise, IdsOf, Hops;
    ghost var v, ids := Val(path), IdsOf(Val(path));
    HopsAreIds(v);
    PathOfIds(v);
    AppendId(ids, next);
    var zero := IsZero(path);
    if zero {
      updated := NewUint(next);
      EmptyPath();
      return NoError, updated;
    }
    updated := NewUint(0);
    ValRange(path);
    HopsAtMost(v);
    var n := HopCount(path);
    if n > 7 { return ChannelPathFull, updated; }
    var slot := MakePathFromChannel(next, n);
    assert Val(slot) == next * Slots(n);
    SlotsArePowers(n);
    SlotsArePowers(MAX_HOPS);
    SlotFits(next, n);
    Pow2Mono(32 * n, 256);
    OrDisjoint(256, 32 * n, next, v);
    OrInto(updated, slot, path);
    err := NoError;
  }

  lemma EmptyPath()
    ensures IdsOf(0) == [] && Slots(0) == 1 && PathOf([]) == 0
  {
  }

  lemma AppendId(ids: seq<ChannelId>, next: ChannelId)
    ensures next != 0 ==> IdsOf(next * Slots(|ids|) + PathOf(ids)) == ids + [next]
  {
    hide PathOf, Slots, IdsOf;
    PathConcat(ids, [next]);
    PathSingle(next);
    if next != 0 { IdsOfPath(ids + [next]); }
  }

  // Takes off the highest id; on a canonical path that leaves exactly the other ids.
  method PopChannelFromPath(path: array<Word>) returns (rest: array<Word>, id: ChannelId)
    requires IsUint(path)
    ensures fresh(rest) && IsUint(rest)
    ensures Val(path) == 0 ==> Val(rest) == 0 && id == 0
    ensures Val(path) > 0 ==> id == IdsOf(Val(path))[|IdsOf(Val(path))| - 1] && id != 0
    ensures Val(path) > 0 ==> Val(rest) == PathOf(IdsOf(Val(path))[..|IdsOf(Val(path))| - 1])
    ensures Val(path) > 0 && Canonical(IdsOf(Val(path)))
        ==> IdsOf(Val(rest)) == IdsOf(Val(path))[..|IdsOf(Val(path))| - 1]
  {
    hide Value, Weight, Pow2, Slots, Bitwise, IdsOf, PathOf, Len64;
    rest := NewUint(0);
    var zero := IsZero(path);
    if zero { return rest, 0; }
    ghost var v, ids := Val(path), IdsOf(Val(path));
    ValRange(path);
    HopsAtMost(v);
    HopsAreIds(v);
    PathOfIds(v);
    LenPositive(v);
    var bits := BitLen(path);
    var highest := (bits - 1) / 32;
    assert highest == |ids| - 1;
    id := GetChannelFromPath(path, highest);
    var mask := NewUint(0xFFFF_FFFF);
    var slotMask := NewUint(0);
    Lsh(slotMask, mask, highest * 32);
    MaskFits(highest);
    SlotsArePowers(highest);
    SlotsArePowers(highest + 1);
    Pow2Word();
    AndNotTop(256, 32 * highest, 32, v);
    AndNotInto(rest, path, slotMask);
    LastIdOff(ids);
  }

  lemma MaskFits(h: nat)
    requires h < MAX_HOPS
    ensures 0xFFFF_FFFF * Pow2(h * 32) % Weight(4) == Pow2(32 * h) * (Pow2(32) - 1)
  {
    hide Pow2, Weight;
    Pow2Word();
    SlotsArePowers(h);
    SlotsArePowers(MAX_HOPS);
    Shifts.PowerOfTwoWeight(4);
    SlotFits(0xFFFF_FFFF, h);
    assert h * 32 == 32 * h;
    DivUnique(0xFFFF_FFFF * Pow2(32 * h), Weight(4), 0, 0xFFFF_FFFF * Pow2(32 * h));
  }

  lemma LastIdOff(ids: seq<ChannelId>)
    requires |ids| > 0
    ensures PathOf(ids) % Slots(|ids| - 1) == PathOf(ids[..|ids| - 1])
    ensures Canonical(ids) ==> IdsOf(PathOf(ids[..|ids| - 1])) == ids[..|ids| - 1]
  {
    hide PathOf, Slots, IdsOf;
    var n := |ids| - 1;
    assert ids == ids[..n] + [ids[n]];
    PathConcat(ids[..n], [ids[n]]);
    PathSingle(ids[n]);
    PathBound(ids[..n]);
    DivUnique(PathOf(ids), Slots(n), ids[n], PathOf(ids[..n]));
    if Canonical(ids) { IdsOfPath(ids[..n]); }
  }

  method IsCanonicalPath(path: array<Word>) returns (r: bool)
    requires IsUint(path)
    ensures r <==> Canonical(IdsOf(Val(path)))
  {
    hide Value, Weight, Slots, IdsOf;
    ValRange(path);
    HopsAtMost(Val(path));
    var hops := HopCount(path);
    for i := 0 to hops
      invariant forall k :: 0 <= k < i ==> IdsOf(Val(path))[k] != 0
    {
      var id := GetChannelFromPath(path, i);
      if id == 0 { return false; }
    }
    return true;
  }

  // Reverses the hops of a canonical path and refuses any other; the full-path errors of the
  // steps and of the loop's end are never reached.
  method ReverseChannelPath(path: array<Word>) returns (err: PathError, reversed: array<Word>)
    requires IsUint(path)
    ensures fresh(reversed) && IsUint(reversed)
    ensures err == if Canonical(IdsOf(Val(path))) then NoError else NonCanonicalPath
    ensures err.NoError? ==> IdsOf(Val(reversed)) == Reversed(IdsOf(Val(path)))
  {
    hide Value, Weight, Slots, IdsOf, PathOf, Reversed, Canonical;
    reversed := NewUint(0);
    ghost var v, ids := Val(path), IdsOf(Val(path));
    ghost var n := |ids|;
    PathOfIds(v);
    HopsAreIds(v);
    var canonical := IsCanonicalPath(path);
    if !canonical { return NonCanonicalPath, reversed; }
    var cur := path;
    EmptyPath();
    NothingReversed(ids);
    for hops := 0 to MAX_HOPS
      invariant fresh(reversed) && IsUint(reversed) && IsUint(cur)
      invariant Val(path) == v && hops <= n && (hops > 0 ==> hops < n)
      invariant IdsOf(Val(cur)) == ids[..n - hops]
      invariant IdsOf(Val(reversed)) == Reversed(ids[n - hops..])
    {
      NoIds(Val(cur));
      var tail, head := PopChannelFromPath(cur);
      if hops < n { OneReversed(ids, hops); }
      if head != 0 {
        var e, updated := UpdateChannelPath(reversed, head);
        if !e.NoError? {
          assert false;
        }
        reversed := updated;
      }
      NoIds(Val(tail));
      var done := IsZero(tail);
      if done {
        return NoError, reversed;
      }
      cur := tail;
    }
    assert false;
  }

  lemma NothingReversed(ids: seq<ChannelId>)
    ensures ids[..|ids|] == ids && ids[0..] == ids && Reversed(ids[|ids|..]) == []
    ensures Canonical(ids) ==> |ids| <= MAX_HOPS
  {
  }

  // What one round moves from the end of the path to the end of the reversed one.
  lemma OneReversed(ids: seq<ChannelId>, hops: nat)
    requires hops < |ids|
    ensures var left := |ids| - hops - 1;
            && ids[..left + 1][..left] == ids[..left] && |ids[left + 1..]| == |Reversed(ids[left + 1..])| == hops
            && Reversed(ids[left..]) == Reversed(ids[left + 1..]) + [ids[left]]
            && (Canonical(ids) ==> Canonical(ids[..left + 1]))
  {
    var left := |ids| - hops - 1;
    assert ids[left..] == [ids[left]] + ids[left + 1..];
  }

  lemma NoIds(v: nat)
    ensures IdsOf(v) == [] <==> v == 0
  {
  }

  // Reversal undoes itself and keeps a path canonical.
  lemma {:induction false} ReversedConcat(s: seq<ChannelId>, t: seq<ChannelId>)
    ensures Reversed(s + t) == Reversed(t) + Reversed(s)
  {
    if |s| == 0 {
      assert s + t == t;
    } else {
      assert (s + t)[1..] == s[1..] + t;
      ReversedConcat(s[1..], t);
    }
  }

  lemma {:induction false} ReversedTwice(ids: seq<ChannelId>)
    ensures Reversed(Reversed(ids)) == ids
    ensures Canonical(ids) ==> Canonical(Reversed(ids))
  {
    if |ids| > 0 {
      ReversedTwice(ids[1..]);
      ReversedConcat(Reversed(ids[1..]), [ids[0]]);
      assert ids == [ids[0]] + ids[1..];
      assert Reversed([ids[0]]) == [ids[0]] by { assert [ids[0]][1..] == []; }
    }
  }

  // Counted from the other end.
  lemma {:induction false} ReversedAt(ids: seq<ChannelId>, k: nat)
    requires k < |ids|
    ensures Reversed(ids)[k] == ids[|ids| - 1 - k]
  {
    if k < |ids| - 1 { ReversedAt(ids[1..], k); }
  }

  // Appending and popping: the path is one of a list one longer, the id is its last, and what
  // popping leaves is the path before.
  lemma AppendPop(ids: seq<ChannelId>, id: ChannelId)
    requires Canonical(ids) && |ids| < MAX_HOPS && id != 0
    ensures var v := PathOf(ids + [id]);
            && 0 < v < Weight(4) && Canonical(IdsOf(v)) && IdsOf(v) == ids + [id]
            && IdsOf(v)[|IdsOf(v)| - 1] == id
            && PathOf(IdsOf(v)[..|IdsOf(v)| - 1]) == PathOf(ids)
  {
    hide Weight, PathOf, IdsOf;
    IdsOfPath(ids + [id]);
    PathFits(ids + [id]);
    EmptyPath();
    assert (ids + [id])[..|ids|] == ids;
  }

  // Putting an id in front and dequeuing: the id comes off, and what is left is the path before.
  lemma PrependDequeue(ids: seq<ChannelId>, id: ChannelId)
    requires Canonical(ids) && |ids| < MAX_HOPS && id != 0
    ensures var v := PathOf([id] + ids);
            0 < v < Weight(4) && IdsOf(v) == [id] + ids && v % SLOT == id && v / SLOT == PathOf(ids)
  {
    hide Weight, IdsOf;
    IdsOfPath([id] + ids);
    PathFits([id] + ids);
    EmptyPath();
    assert ([id] + ids)[1..] == ids;
    DivUnique(PathOf([id] + ids), SLOT, PathOf(ids), id);
  }
}
