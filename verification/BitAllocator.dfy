/**
 * The bitmap allocator of the file system: a byte-packed map of used blocks or inodes together
 * with its free counter in the superblock. Blocks and inodes are handled alike.
 */
module BitAllocator {

  // ----- single bits

  predicate BitOf(x: bv8, i: nat)
    requires i < 8
  {
    (x >> i) & 1 == 1
  }

  function Toggled(x: bv8, i: nat): bv8
    requires i < 8
  {
    x ^ (1 << i)
  }

  lemma ToggledBit(x: bv8, i: nat, j: nat)
    requires i < 8 && j < 8
    ensures BitOf(Toggled(x, i), j) == if i == j then !BitOf(x, j) else BitOf(x, j)
  {
    var a, b := i as bv8, j as bv8;
    assert ((x ^ (1 << a)) >> b) & 1 == if a == b then 1 - ((x >> b) & 1) else (x >> b) & 1;
  }

  /** The bits are numbered from the least significant one. */
  lemma PowerBits(i: nat, j: nat)
    requires i < 8 && j < 8
    ensures BitOf(1 << i, j) <==> i == j
  {
    var a, b := i as bv8, j as bv8;
    assert (((1 as bv8) << a) >> b) & 1 == 1 <==> a == b;
  }

  /** Bytes with the same bits are the same byte. */
  lemma SameBits(x: bv8, y: bv8)
    requires forall i :: 0 <= i < 8 ==> BitOf(x, i) == BitOf(y, i)
    ensures x == y
  {
    assert BitOf(x, 0) == BitOf(y, 0) && BitOf(x, 1) == BitOf(y, 1) && BitOf(x, 2) == BitOf(y, 2);
    assert BitOf(x, 3) == BitOf(y, 3);
    assert BitOf(x, 4) == BitOf(y, 4) && BitOf(x, 5) == BitOf(y, 5) && BitOf(x, 6) == BitOf(y, 6);
    assert BitOf(x, 7) == BitOf(y, 7);
  }

  /** The flags that a byte-packed map stands for. */
  function Flags(packed: seq<bv8>): (r: seq<bool>)
    ensures |r| == 8 * |packed| && forall i :: 0 <= i < |r| ==> r[i] == BitOf(packed[i / 8], i % 8)
  {
    seq(8 * |packed|, i requires 0 <= i < 8 * |packed| => BitOf(packed[i / 8], i % 8))
  }

  /** Maps with the same flags are byte for byte the same. */
  lemma SameFlags(a: seq<bv8>, b: seq<bv8>)
    requires Flags(a) == Flags(b)
    ensures a == b
  {
    assert |a| == |b|;
    forall n | 0 <= n < |a| ensures a[n] == b[n] {
      forall i | 0 <= i < 8 ensures BitOf(a[n], i) == BitOf(b[n], i) {
        Position(n, i);
        assert Flags(a)[8 * n + i] == Flags(b)[8 * n + i];
      }
      SameBits(a[n], b[n]);
    }
  }

  lemma ToggledFlags(packed: seq<bv8>, index: nat)
    requires index < 8 * |packed|
    ensures Flags(packed[index / 8 := Toggled(packed[index / 8], index % 8)])
         == Flags(packed)[index := !Flags(packed)[index]]
  {
    hide BitOf, Toggled;
    var was, now := Flags(packed), Flags(packed[index / 8 := Toggled(packed[index / 8], index % 8)]);
    forall j | 0 <= j < |was| ensures now[j] == was[index := !was[index]][j] {
      if j / 8 == index / 8 {
        ToggledBit(packed[index / 8], index % 8, j % 8);
      }
    }
  }

  lemma Position(n: nat, i: nat)
    requires i < 8
    ensures (8 * n + i) / 8 == n && (8 * n + i) % 8 == i
  {
  }

  /** How many of the flags are clear. */
  function CountClear(f: seq<bool>): (n: nat)
    ensures n <= |f|
    ensures n == 0 <==> forall i :: 0 <= i < |f| ==> f[i]
  {
    if f == [] then 0
    else
      var m := |f| - 1;
      assert forall i :: 0 <= i < m ==> f[..m][i] == f[i];
      CountClear(f[..m]) + if f[m] then 0 else 1
  }

  /** Setting or clearing one flag changes the count by one at most. */
  lemma {:induction false} CountUpdate(f: seq<bool>, i: nat, v: bool)
    requires i < |f|
    ensures CountClear(f[i := v]) == CountClear(f) + (if f[i] then 1 else 0) - if v then 1 else 0
  {
    var m := |f| - 1;
    if i < m {
      CountUpdate(f[..m], i, v);
      assert f[i := v][..m] == f[..m][i := v];
    } else {
      assert f[i := v][..m] == f[..m];
    }
  }

  // ----- the allocator

  class Allocator {
    const limit: nat
    const bits: array<bv8>
    var free: int

    ghost function Used(): (r: seq<bool>)
      reads bits
      ensures |r| == 8 * bits.Length
    {
      Flags(bits[..])
    }

    /** The counter agrees with the map. */
    ghost predicate Valid()
      reads this, bits
      ensures Valid() ==> 8 * bits.Length == limit
    {
      && 8 * bits.Length == limit
      && free == CountClear(Used())
    }

    /** The map and the counter of a new file system: everything is free. */
    constructor (bytes: nat)
      ensures Valid() && fresh(bits) && limit == 8 * bytes
      ensures forall i :: 0 <= i < limit ==> !Used()[i]
    {
      limit := 8 * bytes;
      bits := new bv8[bytes](_ => 0);
      free := 8 * bytes;
      new;
      assert forall i :: 0 <= i < limit ==> !Used()[i];
      AllClear(Used());
    }

    lemma UsedIs()
      ensures Used() == Flags(bits[..])
    {
    }

    lemma UsedDetermines(was: seq<bv8>)
      requires Used() == Flags(was)
      ensures bits[..] == was
    {
      SameFlags(bits[..], was);
    }

    method GetBit(index: nat) returns (b: bool)
      requires index < 8 * bits.Length
      ensures b == Used()[index]
    {
      b := (bits[index / 8] >> (index % 8)) & 1 == 1;
    }

    method ToggleBit(index: nat)
      requires index < 8 * bits.Length
      modifies bits
      ensures Used() == old(Used())[index := !old(Used())[index]]
    {
      ghost var was := bits[..];
      bits[index / 8] := bits[index / 8] ^ (1 << (index % 8));
      ToggledFlags(was, index);
      assert bits[..] == was[index / 8 := Toggled(was[index / 8], index % 8)];
    }

    /** Toggles the bit and, if that was wrong, toggles it back; other values are ignored. */
    method SetBit(index: nat, value: int)
      requires index < 8 * bits.Length
      modifies bits
      ensures value == 0 || value == 1 ==> Used() == old(Used())[index := value == 1]
      ensures value != 0 && value != 1 ==> Used() == old(Used())
    {
      if value != 0 && value != 1 {
        return;
      }
      ToggleBit(index);
      var b := GetBit(index);
      if b == (value == 1) {
        return;
      }
      ToggleBit(index);
    }

    /** Takes the first free number, or returns -1; the counter tells in advance which it will be. */
    method Get() returns (i: int)
      requires Valid()
      modifies this, bits
      ensures Valid()
      ensures i == -1 <==> old(free) == 0
      ensures i == -1 ==> Used() == old(Used()) && free == old(free)
      ensures i != -1 ==> 0 <= i < limit && !old(Used())[i] && (forall j :: 0 <= j < i ==> old(Used())[j])
      ensures i != -1 ==> Used() == old(Used())[i := true] && free == old(free) - 1
    {
      hide Flags, CountClear, BitOf;
      for n := 0 to limit
        invariant forall j :: 0 <= j < n ==> Used()[j]
        invariant Used() == old(Used()) && free == old(free)
      {
        var b := GetBit(n);
        if !b {
          CountUpdate(Used(), n, true);
          SetBit(n, 1);
          free := free - 1;
          return n;
        }
      }
      return -1;
    }

    /** Gives a number back; giving back a free one changes nothing. */
    method Release(index: nat)
      requires Valid() && index < limit
      modifies this, bits
      ensures Valid() && Used() == old(Used())[index := false]
      ensures free == old(free) + if old(Used())[index] then 1 else 0
    {
      var b := GetBit(index);
      if b {
        CountUpdate(Used(), index, false);
        SetBit(index, 0);
        free := free + 1;
      }
    }
  }

  lemma {:induction false} AllClear(f: seq<bool>)
    requires forall i :: 0 <= i < |f| ==> !f[i]
    ensures CountClear(f) == |f|
  {
    if f == [] {
    } else {
      AllClear(f[..|f| - 1]);
    }
  }
}
