/** The bit mask of received fragments (libota.c): bytes stored from high to low, bits
    from low to high, and padding bits preset to one. */
module FragmentMask {

  // ---- Bits of a byte ----------------------------------------------------------------

  function Single(j: nat): bv8
    requires j < 8
  {
    if j == 0 then 1 else if j == 1 then 2 else if j == 2 then 4 else if j == 3 then 8
    else if j == 4 then 16 else if j == 5 then 32 else if j == 6 then 64 else 128
  }

  predicate Has(b: bv8, j: nat)
    requires j < 8
  {
    b & Single(j) != 0
  }

  lemma OrBit(b: bv8, j: nat, i: nat)
    requires i < 8 && j < 8
    ensures Has(b | Single(j), i) <==> i == j || Has(b, i)
  {
    OrBits(b, Single(j), Single(i));
  }

  lemma OrBits(b: bv8, x: bv8, y: bv8)
    ensures (b | x) & y == (b & y) | (x & y)
  {}

  lemma ClearBit(b: bv8, j: nat, i: nat)
    requires i < 8 && j < 8
    ensures Has(b & !Single(j), i) <==> i != j && Has(b, i)
  {
  }

  lemma AllBits(i: nat)
    requires i < 8
    ensures Has(0xFF, i)
  {}

  // ---- Bits of a mask ----------------------------------------------------------------

  /** Bit `k` of a mask. */
  predicate BitOf(bytes: seq<bv8>, k: nat)
    requires k < 8 * |bytes|
  {
    Has(bytes[|bytes| - 1 - k / 8], k % 8)
  }

  function Put(bytes: seq<bv8>, k: nat, on: bool): (r: seq<bv8>)
    requires k < 8 * |bytes|
    ensures |r| == |bytes|
  {
    var i := |bytes| - 1 - k / 8;
    bytes[i := if on then bytes[i] | Single(k % 8) else bytes[i] & !Single(k % 8)]
  }

  /** Changing one bit changes no other. */
  lemma PutIs(bytes: seq<bv8>, k: nat, on: bool, m: nat)
    requires k < 8 * |bytes| && m < 8 * |bytes|
    ensures BitOf(Put(bytes, k, on), m) <==> if m == k then on else BitOf(bytes, m)
  {
    hide Has, Single;
    assert k == 8 * (k / 8) + k % 8 && m == 8 * (m / 8) + m % 8;
    if m / 8 == k / 8 {
      OrBit(bytes[|bytes| - 1 - k / 8], k % 8, m % 8);
      ClearBit(bytes[|bytes| - 1 - k / 8], k % 8, m % 8);
    }
  }

  predicate IsMarked(bytes: seq<bv8>, f: nat) {
    1 <= f <= 8 * |bytes| && BitOf(bytes, f - 1)
  }

  /** The ids, from 1 to `n`, of the fragments that are marked as received, and of
      those that are not. */
  function Marked(bytes: seq<bv8>, n: nat): set<nat>
    requires n <= 8 * |bytes|
  {
    set f: nat | 1 <= f <= n && IsMarked(bytes, f)
  }

  function Unmarked(bytes: seq<bv8>, n: nat): set<nat>
    requires n <= 8 * |bytes|
  {
    set f: nat | 1 <= f <= n && !IsMarked(bytes, f)
  }

  lemma UnmarkedNext(bytes: seq<bv8>, n: nat)
    requires n < 8 * |bytes|
    ensures |Unmarked(bytes, n + 1)| == |Unmarked(bytes, n)| + (if BitOf(bytes, n) then 0 else 1)
  {
    hide BitOf;
    if BitOf(bytes, n) {
      assert Unmarked(bytes, n + 1) == Unmarked(bytes, n);
    } else {
      assert Unmarked(bytes, n + 1) == Unmarked(bytes, n) + {n + 1};
    }
  }

  lemma UnmarkedPadding(bytes: seq<bv8>, n: nat, m: nat)
    requires n <= m <= 8 * |bytes| && forall k :: n <= k < m ==> BitOf(bytes, k)
    ensures Unmarked(bytes, m) == Unmarked(bytes, n)
  {
    hide BitOf;
  }

  /** The mask of one segment, cut out of the whole. */
  lemma SegmentBits(bytes: seq<bv8>, s: nat, o: nat)
    requires 0 < s && REQUEST_BYTES * s <= |bytes| && o < SEGMENT
    ensures var t := bytes[|bytes| - REQUEST_BYTES * s..|bytes| - REQUEST_BYTES * (s - 1)];
            |t| == REQUEST_BYTES && (BitOf(t, o) <==> BitOf(bytes, SEGMENT * (s - 1) + o))
  {
    hide Has;
    assert (SEGMENT * (s - 1) + o) / 8 == REQUEST_BYTES * (s - 1) + o / 8;
    assert (SEGMENT * (s - 1) + o) % 8 == o % 8;
  }

  const SEGMENT: nat := 128        // fragments per segment
  const REQUEST_BYTES: nat := 16   // bytes of a segment's mask

  function SegmentOf(f: nat): nat
    requires f > 0
  {
    (f - 1) / SEGMENT + 1
  }

  /** `s` is the segment of the first fragment that is not marked, or zero. */
  ghost predicate IsFirstMissing(bytes: seq<bv8>, count: nat, s: nat)
    requires count <= 8 * |bytes|
  {
    var missing := Unmarked(bytes, count);
    if s == 0 then missing == {}
    else (forall f :: f in missing ==> SegmentOf(f) >= s) && (exists f :: f in missing && SegmentOf(f) == s)
  }

  class Mask {
    const count: nat               // fw_fragment_count
    const segments: nat            // fw_segment_count
    const bytes: array<bv8>        // fragments_bitmask_ptr

    ghost predicate Shape() {
      && 0 < count <= 65528 && SEGMENT * (segments - 1) < count <= SEGMENT * segments
      && bytes.Length == REQUEST_BYTES * segments
    }

    /** The padding is marked, so that nothing but fragments can be missing. */
    ghost predicate Valid()
      reads this, bytes
    {
      Shape() && forall k :: count <= k < 8 * bytes.Length ==> BitOf(bytes[..], k)
    }

    ghost function Received(): set<nat>
      requires Shape()
      reads this, bytes
    {
      Marked(bytes[..], count)
    }

    /** A mask for `count` fragments, then ota_init_fragments_bit_mask(0). */
    constructor (count: nat)
      requires 0 < count <= 65528
      ensures fresh(bytes) && Valid() && this.count == count && Received() == {}
    {
      var segments := count / SEGMENT;
      if count % SEGMENT != 0 {
        segments := segments + 1;
      }
      this.count, this.segments := count, segments;
      this.bytes := new bv8[REQUEST_BYTES * segments];
      new;
      Init();
    }

    method Init()
      requires Shape()
      modifies bytes
      ensures Valid() && Received() == {}
    {
      hide Has, Single;
      for i := 0 to bytes.Length
        invariant forall j :: 0 <= j < i ==> bytes[j] == 0xFF
      {
        bytes[i] := 0xFF;
      }
      forall k | 0 <= k < 8 * bytes.Length
        ensures BitOf(bytes[..], k)
      {
        AllBits(k % 8);
      }
      var done := 0;
      while done < count
        invariant done <= count && (done < count ==> done % 8 == 0)
        invariant forall k :: 0 <= k < done ==> !BitOf(bytes[..], k)
        invariant forall k :: done <= k < 8 * bytes.Length ==> BitOf(bytes[..], k)
        decreases count - done
      {
        done := ClearByte(done);
      }
    }

    /** The inner loop of the initialisation: up to eight bits of one byte. */
    method ClearByte(start: nat) returns (done: nat)
      requires Shape() && start < count && start % 8 == 0
      requires forall k :: 0 <= k < start ==> !BitOf(bytes[..], k)
      requires forall k :: start <= k < 8 * bytes.Length ==> BitOf(bytes[..], k)
      modifies bytes
      ensures start < done <= count && (done < count ==> done % 8 == 0)
      ensures forall k :: 0 <= k < done ==> !BitOf(bytes[..], k)
      ensures forall k :: done <= k < 8 * bytes.Length ==> BitOf(bytes[..], k)
    {
      hide BitOf;
      done := start;
      for j := 0 to 8
        invariant done == start + j < count
        invariant forall k :: 0 <= k < done ==> !BitOf(bytes[..], k)
        invariant forall k :: done <= k < 8 * bytes.Length ==> BitOf(bytes[..], k)
      {
        Change(done, false);
        done := done + 1;
        if done >= count {
          return;
        }
      }
    }

    method Change(k: nat, on: bool)
      requires k < 8 * bytes.Length
      modifies bytes
      ensures forall m :: 0 <= m < 8 * bytes.Length ==>
                (BitOf(bytes[..], m) <==> if m == k then on else old(BitOf(bytes[..], m)))
    {
      hide BitOf;
      ghost var before := bytes[..];
      var i := bytes.Length - 1 - k / 8;
      bytes[i] := if on then bytes[i] | Single(k % 8) else bytes[i] & !Single(k % 8);
      assert bytes[..] == Put(before, k, on);
      forall m | 0 <= m < 8 * bytes.Length
        ensures BitOf(bytes[..], m) <==> if m == k then on else BitOf(before, m)
      {
        PutIs(before, k, on, m);
      }
    }

    /** The mask update of ota_manage_fragment_command. */
    method Mark(id: nat)
      requires Valid() && 1 <= id <= count
      modifies bytes
      ensures Valid() && Received() == old(Received()) + {id}
    {
      hide BitOf;
      Change(id - 1, true);
    }

    /** ota_check_if_fragment_already_received */
    method IsReceived(id: nat) returns (yes: bool)
      requires Valid() && 1 <= id <= count
      ensures yes <==> id in Received()
    {
      yes := bytes[bytes.Length - 1 - (id - 1) / 8] & Single((id - 1) % 8) != 0;
    }

    /** ota_get_missing_fragment_total_count, whose counter is 16 bits wide. */
    method MissingCount() returns (missing: nat)
      requires Valid()
      ensures missing == |Unmarked(bytes[..], count)|
    {
      hide BitOf, Has, Single;
      missing := 0;
      var id, p := 1, bytes.Length - 1;
      while id <= count
        invariant id % 8 == 1 && 1 <= id <= 8 * bytes.Length + 1 && p == bytes.Length - 1 - (id - 1) / 8
        invariant missing == |Unmarked(bytes[..], id - 1)|
        decreases count + 8 - id
      {
        var zeros := ByteZeros(p, id - 1);
        missing := missing + zeros;
        id := (id + 8) % 0x1_0000;
        p := p - 1;
      }
      UnmarkedPadding(bytes[..], count, id - 1);
    }

    /** The inner loop: the zero bits of byte `p`, which holds bits `k` to `k + 7`. */
    method ByteZeros(p: int, k: nat) returns (zeros: nat)
      requires Shape() && k % 8 == 0 && k + 8 <= 8 * bytes.Length && p == bytes.Length - 1 - k / 8
      ensures |Unmarked(bytes[..], k + 8)| == |Unmarked(bytes[..], k)| + zeros
    {
      hide Has, Single;
      zeros := 0;
      for j := 0 to 8
        invariant |Unmarked(bytes[..], k + j)| == |Unmarked(bytes[..], k)| + zeros
      {
        UnmarkedNext(bytes[..], k + j);
        BitIn(p, k, j);
        if !Has(bytes[p], j) {
          zeros := zeros + 1;
        }
      }
    }

    /** ota_get_and_log_first_missing_segment */
    method FirstMissingSegment() returns (segment: nat, tbl: seq<bv8>)
      requires Valid()
      ensures IsFirstMissing(bytes[..], count, segment)
      ensures segment > 0 ==>
                && segment <= segments && |tbl| == REQUEST_BYTES
                && forall o :: 0 <= o < SEGMENT ==> (BitOf(tbl, o) <==> BitOf(bytes[..], SEGMENT * (segment - 1) + o))
    {
      hide BitOf;
      tbl := [];
      segment := 1;
      while segment <= segments
        invariant 1 <= segment <= segments + 1
        invariant forall k :: 0 <= k < SEGMENT * (segment - 1) ==> BitOf(bytes[..], k)
      {
        var first := bytes.Length - REQUEST_BYTES * segment;
        tbl := bytes[first..first + REQUEST_BYTES];
        assert tbl == bytes[..][first..bytes.Length - REQUEST_BYTES * (segment - 1)];
        var full, k := ScanSegment(segment);
        if !full {
          FoundIn(segment, k);
          forall o | 0 <= o < SEGMENT
            ensures BitOf(tbl, o) <==> BitOf(bytes[..], SEGMENT * (segment - 1) + o)
          {
            SegmentBits(bytes[..], segment, o);
          }
          return;
        }
        segment := segment + 1;
      }
      segment := 0;
    }

    lemma FoundIn(segment: nat, k: nat)
      requires Valid() && 0 < segment <= segments
      requires forall i :: 0 <= i < SEGMENT * (segment - 1) ==> BitOf(bytes[..], i)
      requires SEGMENT * (segment - 1) <= k < SEGMENT * segment && !BitOf(bytes[..], k)
      ensures IsFirstMissing(bytes[..], count, segment)
    {
      hide BitOf;
      assert k + 1 in Unmarked(bytes[..], count) && SegmentOf(k + 1) == segment;
    }

    /** The two inner loops: the bytes of a segment, and their bits. */
    method ScanSegment(segment: nat) returns (full: bool, k: nat)
      requires Shape() && 0 < segment <= segments
      ensures full ==> forall i :: SEGMENT * (segment - 1) <= i < SEGMENT * segment ==> BitOf(bytes[..], i)
      ensures !full ==> SEGMENT * (segment - 1) <= k < SEGMENT * segment && !BitOf(bytes[..], k)
    {
      hide BitOf, Has;
      ghost var base := SEGMENT * (segment - 1);
      for j := 0 to REQUEST_BYTES
        invariant forall i :: base <= i < base + 8 * j ==> BitOf(bytes[..], i)
      {
        var p := bytes.Length - 1 - (REQUEST_BYTES * (segment - 1) + j);
        for bit := 0 to 8
          invariant forall i :: base <= i < base + 8 * j + bit ==> BitOf(bytes[..], i)
        {
          BitIn(p, base + 8 * j, bit);
          k := SEGMENT * (segment - 1) + 8 * j + bit;
          if !Has(bytes[p], bit) {
            return false, k;
          }
        }
      }
      return true, 0;
    }

    lemma BitIn(p: int, k: nat, j: nat)
      requires Shape() && k % 8 == 0 && k + 8 <= 8 * bytes.Length && p == bytes.Length - 1 - k / 8 && j < 8
      ensures Has(bytes[p], j) <==> BitOf(bytes[..], k + j)
    {
      hide Has;
      assert (k + j) / 8 == k / 8 && (k + j) % 8 == j;
    }
  }

  /** The 16-bit counter of the loop above, which grows by eight, passes the fragment
      count if and only if there are at most 65528 fragments. */
  lemma CounterPasses(count: nat)
    requires count < 0x1_0000
    ensures (exists n: nat :: Counter(n) > count) <==> count <= 65528
  {
    if count <= 65528 {
      assert Counter(8191) > count;
    }
  }

  function Counter(n: nat): nat {
    (1 + 8 * n) % 0x1_0000
  }
}
