/** The byte-packed bitmap that the file system (`fs_block_map`) and the page allocator
    (`_bitmap`) both use: bit `i & 7` of byte `i >> 3` says whether unit `i` is in use. */
module Bitmaps {
  import opened Sequences

  /** The single-bit mask `1 << (i & 7)`. */
  function Mask(i: nat): bv8 {
    (1 as bv8) << (i % 8)
  }

  /** Bit `i` of a packed array. */
  predicate BitAt(bytes: seq<bv8>, i: nat)
    requires i / 8 < |bytes|
  {
    bytes[i / 8] & Mask(i) != 0
  }

  /** Two different units that share a byte have masks with no common bit. */
  lemma MasksDiffer(i: nat, j: nat)
    requires i % 8 != j % 8
    ensures Mask(i) & Mask(j) == 0 && Mask(i) & !Mask(j) == Mask(i)
    ensures Mask(i) != 0
  {
    MaskTable(i);
    MaskTable(j);
  }

  lemma MaskTable(i: nat)
    ensures Mask(i) == match i % 8 case 0 => 1 case 1 => 2 case 2 => 4 case 3 => 8
                                   case 4 => 16 case 5 => 32 case 6 => 64 case _ => 128
  {
    var k := i % 8;
    assert k == 0 || k == 1 || k == 2 || k == 3 || k == 4 || k == 5 || k == 6 || k == 7;
  }

  lemma OrBit(b: bv8, m: bv8, n: bv8)
    requires m & n == 0
    ensures (b | m) & n == b & n
    ensures (b & !m) & n == b & n
  {
  }

  /** Setting bit `i` makes exactly `i` read as set; clearing makes exactly `i` read as clear. */
  lemma PackedUpdate(bytes: seq<bv8>, i: nat, j: nat)
    requires i / 8 < |bytes| && j / 8 < |bytes|
    ensures BitAt(bytes[i / 8 := bytes[i / 8] | Mask(i)], j) == (i == j || BitAt(bytes, j))
    ensures BitAt(bytes[i / 8 := bytes[i / 8] & !Mask(i)], j) == (i != j && BitAt(bytes, j))
  {
    MaskTable(i);
    MaskTable(j);
    if i / 8 == j / 8 && i != j {
      MasksDiffer(i, j);
      OrBit(bytes[i / 8], Mask(i), Mask(j));
    } else if i == j {
      var b, m := bytes[i / 8], Mask(i);
      assert (b | m) & m == m;
      assert (b & !m) & m == 0;
    }
  }

  class Bitmap {
    const bytes: array<bv8>
    /** How many units the map covers. */
    const size: nat
    ghost var marked: set<nat>

    ghost predicate Valid()
      reads this, bytes
    {
      && size <= bytes.Length * 8
      && (forall i :: i in marked ==> i < size)
      && (forall i :: 0 <= i < size ==> (i in marked <==> BitAt(bytes[..], i)))
    }

    /** A map of `n` units with none marked. */
    constructor (n: nat)
      ensures Valid() && size == n && marked == {} && fresh(bytes)
    {
      size := n;
      bytes := new bv8[(n + 7) / 8](_ => 0);
      marked := {};
      new;
      forall i | 0 <= i < n
        ensures !BitAt(bytes[..], i)
      {
        assert bytes[..][i / 8] == 0;
      }
    }

    method IsMarked(i: nat) returns (b: bool)
      requires Valid() && i < size
      ensures b <==> i in marked
    {
      b := bytes[i / 8] & Mask(i) != 0;
      assert bytes[..][i / 8] == bytes[i / 8];
    }

    method Set(i: nat)
      requires Valid() && i < size
      modifies this, bytes
      ensures Valid() && marked == old(marked) + {i}
    {
      ghost var was := bytes[..];
      bytes[i / 8] := bytes[i / 8] | Mask(i);
      marked := marked + {i};
      assert bytes[..] == was[i / 8 := was[i / 8] | Mask(i)];
      forall j | 0 <= j < size
        ensures j in marked <==> BitAt(bytes[..], j)
      {
        PackedUpdate(was, i, j);
      }
    }

    method Clear(i: nat)
      requires Valid() && i < size
      modifies this, bytes
      ensures Valid() && marked == old(marked) - {i}
    {
      ghost var was := bytes[..];
      bytes[i / 8] := bytes[i / 8] & !Mask(i);
      marked := marked - {i};
      assert bytes[..] == was[i / 8 := was[i / 8] & !Mask(i)];
      forall j | 0 <= j < size
        ensures j in marked <==> BitAt(bytes[..], j)
      {
        PackedUpdate(was, i, j);
      }
    }

    /** The `memset(map, 0, …)` that precedes a rebuild. */
    method ClearAll()
      requires Valid()
      modifies this, bytes
      ensures Valid() && marked == {}
    {
      for k := 0 to bytes.Length
        invariant forall m :: 0 <= m < k ==> bytes[m] == 0
      {
        bytes[k] := 0;
      }
      marked := {};
      forall i | 0 <= i < size
        ensures !BitAt(bytes[..], i)
      {
        assert bytes[..][i / 8] == 0;
      }
    }

    /** All units marked, the bits of the last byte beyond the size included. */
    method FillAll()
      requires Valid()
      modifies this, bytes
      ensures Valid() && marked == Upto(size)
    {
      for k := 0 to bytes.Length
        invariant forall m :: 0 <= m < k ==> bytes[m] == 0xff
      {
        bytes[k] := 0xff;
      }
      marked := Upto(size);
      forall i | 0 <= i < size
        ensures BitAt(bytes[..], i)
      {
        assert bytes[..][i / 8] == 0xff;
        MaskTable(i);
      }
    }

    /** The marked units of `[lo, hi)`. */
    ghost function MarkedIn(lo: nat, hi: nat): set<nat>
      reads this
    {
      set i | i in marked && lo <= i < hi
    }

    /** Counts the marked units of `[lo, hi)` one by one, as the usage reports do. */
    method CountMarked(lo: nat, hi: nat) returns (n: nat)
      requires Valid() && lo <= hi <= size
      ensures n == |MarkedIn(lo, hi)|
    {
      hide Bitmap.Valid;
      n := 0;
      assert MarkedIn(lo, lo) == {};
      for k := lo to hi
        invariant n == |MarkedIn(lo, k)|
      {
        var b := IsMarked(k);
        if b {
          assert MarkedIn(lo, k + 1) == MarkedIn(lo, k) + {k};
          n := n + 1;
        } else {
          assert MarkedIn(lo, k + 1) == MarkedIn(lo, k);
        }
      }
    }
  }
}
