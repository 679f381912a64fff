/** The image store of a multicast node: fragments arrive in any order, and any part
    of the image can be read (fota.c, fota_multicast_node_write_image_fragment and
    fota_multicast_read_from_image). */
module MulticastStore {
  import opened Bytes
  import opened BlockDevice

  // ---- Units ----------------------------------------------------------------------

  lemma UnitsOf(n: nat, u: nat)
    requires u > 0
    ensures AlignDown(n, u) + n % u == n && Multiple(AlignDown(n, u), u) && Multiple(u, u)
    ensures n % u == 0 <==> Multiple(n, u)
    ensures n <= AlignUp(n, u) < n + u && Multiple(AlignUp(n, u), u)
    ensures AlignUp(n, u) == if n % u == 0 then n else AlignDown(n, u) + u
  {
    var q := n / u;
    assert n == q * u + n % u by { assert n == u * q + n % u; }
    MultipleMod(q, u);
    MultipleIsMod(q * u, u);
    MultipleIsMod(n, u);
    AlignUpIsLeast(n, u);
    MultipleIsMod(AlignUp(n, u), u);
    if n % u != 0 {
      assert (q + 1) * u == q * u + u;
      MultipleMod(q + 1, u);
      AlignUpUnique(n, u, (q + 1) * u);
    }
  }

  // ---- Writing --------------------------------------------------------------------

  /** What a fragment looks like in whole program units. */
  function Padded(data: Bytes, ps: nat): (r: Bytes)
    requires ps > 0
    ensures data <= r
  {
    AlignUpIsLeast(|data|, ps);
    data + Fill(0, AlignUp(|data|, ps) - |data|)
  }

  lemma PaddedParts(data: Bytes, ps: nat)
    requires ps > 0
    ensures var chunk := AlignDown(|data|, ps);
            && chunk <= |data| && Multiple(chunk, ps) && Multiple(ps, ps)
            && (|data| % ps == 0 ==> Padded(data, ps) == data && Multiple(|data|, ps))
            && (|data| % ps != 0 ==>
                  && |data| - chunk < ps
                  && Padded(data, ps) == data[..chunk] + (data[chunk..] + Fill(0, ps - (|data| - chunk))))
  {
    UnitsOf(|data|, ps);
    var chunk := AlignDown(|data|, ps);
    assert data == data[..chunk] + data[chunk..];
  }

  lemma SpliceParts(mem: Bytes, addr: nat, head: Bytes, tail: Bytes, m: nat)
    requires addr + |head| + |tail| <= |mem| && m <= |tail|
    ensures Splice(Splice(mem, addr, head), addr + |head|, tail[..m]) == Splice(mem, addr, (head + tail)[..|head| + m])
    ensures forall i :: addr + |head| <= i < |mem| ==> Splice(mem, addr, head)[i] == mem[i]
  {
    SpliceTwice(mem, addr, head, tail[..m]);
    assert head + tail[..m] == (head + tail)[..|head| + m];
  }

  /** Every byte from `addr` on is erased or holds already what `p` has there. */
  predicate Awaits(mem: Bytes, addr: nat, p: Bytes, erased: byte)
    requires addr + |p| <= |mem|
  {
    forall i :: 0 <= i < |p| ==> mem[addr + i] == erased || mem[addr + i] == p[i]
  }

  lemma AwaitsParts(mem: Bytes, addr: nat, head: Bytes, tail: Bytes, erased: byte)
    requires addr + |head| + |tail| <= |mem| && Awaits(mem, addr, head + tail, erased)
    ensures Awaits(mem, addr, head, erased) && Awaits(mem, addr + |head|, tail, erased)
  {
    var p := head + tail;
    assert forall i :: 0 <= i < |head| ==> p[i] == head[i];
    assert forall i :: 0 <= i < |tail| ==> p[|head| + i] == tail[i];
    forall i | 0 <= i < |tail|
      ensures mem[addr + |head| + i] == erased || mem[addr + |head| + i] == tail[i]
    {
      assert mem[addr + (|head| + i)] == erased || mem[addr + (|head| + i)] == p[|head| + i];
    }
  }

  /** Two program operations, the second behind the first. */
  method ProgramParts(bd: Device, addr: nat, head: Bytes, tail: Bytes) returns (ok: bool, ghost n: nat)
    requires bd.progSize > 0 && Multiple(addr, bd.progSize) && Multiple(|head|, bd.progSize)
    requires Multiple(|tail|, bd.progSize) && addr + |head + tail| <= |bd.mem|
    requires Awaits(bd.mem, addr, head + tail, bd.erased)
    modifies bd
    ensures n <= |head + tail| && bd.mem == Splice(old(bd.mem), addr, (head + tail)[..n])
    ensures bd.power == old(bd.power) - n && (if ok then n == |head + tail| else n < |head + tail| && bd.power == 0)
  {
    hide Multiple, Splice;
    n := Min(|head|, bd.power);
    assert head[..n] == (head + tail)[..n];
    AwaitsParts(bd.mem, addr, head, tail, bd.erased);
    ok := bd.Program(head, addr);
    if !ok {
      return;
    }
    assert head[..n] == head;
    ghost var m := Min(|tail|, bd.power);
    SpliceParts(old(bd.mem), addr, head, tail, m);
    MultipleAdd(addr, |head|, bd.progSize);
    ok := bd.Program(tail, addr + |head|);
    n := |head| + m;
  }

  /** The program operations for a fragment: whole units, then the padded rest. A
      failure leaves a part of it, and nothing outside is touched. */
  method ProgramPadded(bd: Device, addr: nat, data: Bytes) returns (ok: bool, ghost n: nat)
    requires bd.progSize > 0 && Multiple(addr, bd.progSize)
    requires addr + |Padded(data, bd.progSize)| <= |bd.mem|
    requires Awaits(bd.mem, addr, Padded(data, bd.progSize), bd.erased)
    modifies bd
    ensures var p := Padded(data, bd.progSize);
            && n <= |p| && bd.mem == Splice(old(bd.mem), addr, p[..n])
            && bd.power == old(bd.power) - n && (if ok then n == |p| else n < |p| && bd.power == 0)
  {
    hide Multiple, AlignDown, AlignUp, Padded, Splice;
    PaddedParts(data, bd.progSize);
    if |data| % bd.progSize == 0 {
      n := Min(|data|, bd.power);
      ok := bd.Program(data, addr);
      return;
    }
    var chunk := AlignDown(|data|, bd.progSize);
    ok, n := ProgramParts(bd, addr, data[..chunk], data[chunk..] + Fill(0, bd.progSize - (|data| - chunk)));
  }

  // ---- Reading --------------------------------------------------------------------

  method ReadHead(bd: Device, at: nat, n: nat, ghost limit: nat) returns (ok: bool, data: Bytes)
    requires bd.readSize > 0 && at % bd.readSize != 0
    requires n <= bd.readSize - at % bd.readSize && at + n <= limit && Multiple(limit, bd.readSize)
    ensures ok ==> at + n <= |bd.mem| && data == bd.mem[at..at + n]
    ensures limit <= |bd.mem| ==> ok
  {
    hide Multiple, AlignDown, AlignUp;
    var rs := bd.readSize;
    UnitsOf(at, rs);
    MultipleGap(AlignDown(at, rs), limit, rs);
    data := [];
    var unit;
    ok, unit := bd.Read(AlignDown(at, rs), rs);
    if ok {
      SliceOfSlice(bd.mem, AlignDown(at, rs), AlignDown(at, rs) + rs, at % rs, at % rs + n);
      data := unit[at % rs..at % rs + n];
    }
  }

  method ReadTail(bd: Device, at: nat, n: nat, ghost limit: nat) returns (ok: bool, data: Bytes)
    requires bd.readSize > 0 && Multiple(at, bd.readSize) && 0 < n < bd.readSize
    requires at + n <= limit && Multiple(limit, bd.readSize)
    ensures ok ==> at + n <= |bd.mem| && data == bd.mem[at..at + n]
    ensures limit <= |bd.mem| ==> ok
  {
    hide Multiple, AlignDown, AlignUp;
    UnitsOf(at, bd.readSize);
    MultipleGap(at, limit, bd.readSize);
    data := [];
    var unit;
    ok, unit := bd.Read(at, bd.readSize);
    if ok {
      data := unit[..n];
    }
  }

  /** Whole units, then a part of one. */
  method ReadOn(bd: Device, at: nat, size: nat, ghost limit: nat) returns (ok: bool, data: Bytes)
    requires bd.readSize > 0 && Multiple(at, bd.readSize) && size > 0
    requires at + size <= limit && Multiple(limit, bd.readSize)
    ensures ok ==> at + size <= |bd.mem| && data == bd.mem[at..at + size]
    ensures limit <= |bd.mem| ==> ok
  {
    hide Multiple, AlignDown, AlignUp;
    var chunk := AlignDown(size, bd.readSize);
    UnitsOf(size, bd.readSize);
    ok, data := true, [];
    if chunk > 0 {
      ok, data := bd.Read(at, chunk);
      if !ok {
        return;
      }
    }
    if size > chunk {
      MultipleAdd(at, chunk, bd.readSize);
      var rest;
      ok, rest := ReadTail(bd, at + chunk, size - chunk, limit);
      if ok {
        SliceJoin(bd.mem, at, at + chunk, at + size);
        data := data + rest;
      }
    }
  }

  /** The bytes up to the next unit. */
  method ReadFront(bd: Device, addr: nat, size: nat, ghost limit: nat) returns (ok: bool, n: nat, data: Bytes)
    requires bd.readSize > 0 && addr + size <= limit && Multiple(limit, bd.readSize)
    ensures n <= size && (n == size || Multiple(addr + n, bd.readSize))
    ensures ok ==> (n > 0 ==> addr + n <= |bd.mem| && data == bd.mem[addr..addr + n]) && (n == 0 ==> data == [])
    ensures limit <= |bd.mem| ==> ok
  {
    hide Multiple, AlignDown, AlignUp;
    var rs := bd.readSize;
    UnitsOf(addr, rs);
    if addr % rs == 0 {
      return true, 0, [];
    }
    n := Min(rs - addr % rs, size);
    ok, data := ReadHead(bd, addr, n, limit);
    MultipleAdd(AlignDown(addr, rs), rs, rs);
  }

  /** fota_multicast_read_from_image: any part of the storage with aligned reads only,
      which the device demands. */
  method ReadUnaligned(bd: Device, addr: nat, size: nat) returns (ok: bool, data: Bytes)
    requires bd.readSize > 0
    ensures ok && size > 0 ==> addr + size <= |bd.mem| && data == bd.mem[addr..addr + size]
    ensures ok && size == 0 ==> data == []
    ensures AlignUp(addr + size, bd.readSize) <= |bd.mem| ==> ok
  {
    hide Multiple, AlignDown, AlignUp;
    var rs := bd.readSize;
    UnitsOf(addr, rs);
    UnitsOf(size, rs);
    if addr % rs == 0 && size % rs == 0 {
      WholeEnd(addr, size, rs);
      ok, data := bd.Read(addr, size);
      return;
    }
    UnitsOf(addr + size, rs);
    ok, data := ReadParts(bd, addr, size, AlignUp(addr + size, rs));
  }

  lemma WholeEnd(addr: nat, size: nat, rs: nat)
    requires rs > 0 && Multiple(addr, rs) && Multiple(size, rs)
    ensures AlignUp(addr + size, rs) == addr + size
  {
    hide Multiple, AlignUp;
    MultipleAdd(addr, size, rs);
    UnitsOf(addr + size, rs);
  }

  /** The head, then the rest. */
  method ReadParts(bd: Device, addr: nat, size: nat, ghost limit: nat) returns (ok: bool, data: Bytes)
    requires bd.readSize > 0 && addr + size <= limit && Multiple(limit, bd.readSize)
    ensures ok && size > 0 ==> addr + size <= |bd.mem| && data == bd.mem[addr..addr + size]
    ensures ok && size == 0 ==> data == []
    ensures limit <= |bd.mem| ==> ok
  {
    hide Multiple;
    var n;
    ok, n, data := ReadFront(bd, addr, size, limit);
    if !ok || n == size {
      return;
    }
    var rest;
    ok, rest := ReadOn(bd, addr + n, size - n, limit);
    if ok {
      SliceJoin(bd.mem, addr, addr + n, addr + size);
      assert n == 0 ==> data == bd.mem[addr..addr + n];
      data := data + rest;
    }
  }

  // ---- Fragments in any order --------------------------------------------------------

  /** The fragments of an image: their number, and the bytes of each. */
  datatype Image = Image(bytes: Bytes, fragSize: nat, count: nat)
  {
    /** count == ceil(|bytes| / fragSize) */
    predicate Valid() {
      fragSize > 0 && Span(count, fragSize) >= |bytes| && (count > 0 ==> Span(count - 1, fragSize) < |bytes|)
    }

    function Offset(k: nat): nat {
      Span(k, fragSize)
    }

    function Fragment(k: nat): (d: Bytes)
      requires Valid() && k < count
      ensures 0 < |d| <= fragSize
    {
      SpanMono(k, count - 1, fragSize);
      bytes[Offset(k)..Min(Offset(k) + fragSize, |bytes|)]
    }
  }

  /** The storage of an image: where its slots start, what erased bytes are, and how long
      a program unit is. */
  datatype Place = Place(base: nat, erased: byte, ps: nat)

  predicate Fits(p: Place, mem: Bytes, image: Image) {
    && image.Valid() && p.base + Span(image.count, image.fragSize) <= |mem|
    && p.ps > 0 && Multiple(image.fragSize, p.ps)
  }

  /** Fragment `k` in whole program units. */
  function Units(p: Place, image: Image, k: nat): (d: Bytes)
    requires image.Valid() && k < image.count && p.ps > 0 && Multiple(image.fragSize, p.ps)
    ensures |d| <= image.fragSize && image.Fragment(k) <= d
  {
    PaddedFits(image.Fragment(k), p.ps, image.fragSize);
    Padded(image.Fragment(k), p.ps)
  }

  lemma SlotFits(p: Place, mem: Bytes, image: Image, k: nat)
    requires Fits(p, mem, image) && k < image.count
    ensures p.base + image.Offset(k) + image.fragSize <= |mem|
  {
    SpanMono(k + 1, image.count, image.fragSize);
  }

  /** The slot of fragment `k`. */
  function Slot(p: Place, mem: Bytes, image: Image, k: nat): (s: Bytes)
    requires Fits(p, mem, image) && k < image.count
    ensures |s| == image.fragSize
  {
    SlotFits(p, mem, image, k);
    mem[p.base + image.Offset(k)..p.base + image.Offset(k) + image.fragSize]
  }

  /** Fragment `k` is stored if it is in `have`, and can be written in any case: its slot
      has nothing but parts of it. */
  predicate HoldsAt(p: Place, mem: Bytes, image: Image, have: set<nat>, k: nat)
    requires Fits(p, mem, image) && k < image.count
  {
    && Awaits(Slot(p, mem, image, k), 0, Units(p, image, k), p.erased)
    && (k in have ==> image.Fragment(k) <= Slot(p, mem, image, k))
  }

  ghost predicate Holds(p: Place, mem: Bytes, image: Image, have: set<nat>)
    requires Fits(p, mem, image)
  {
    forall k :: 0 <= k < image.count ==> HoldsAt(p, mem, image, have, k)
  }

  /** Erased storage is ready for every image that fits. */
  lemma ErasedHolds(p: Place, mem: Bytes, image: Image)
    requires Fits(p, mem, image) && forall i :: p.base <= i < |mem| ==> mem[i] == p.erased
    ensures Holds(p, mem, image, {})
  {
    forall k | 0 <= k < image.count
      ensures HoldsAt(p, mem, image, {}, k)
    {
      SlotFits(p, mem, image, k);
    }
  }

  /** Programming in slot `k` leaves the other slots alone. */
  lemma OthersKept(p: Place, mem: Bytes, image: Image, have: set<nat>, k: nat, part: Bytes, j: nat)
    requires Fits(p, mem, image) && k < image.count && j < image.count && j != k && |part| <= image.fragSize
    requires p.base + image.Offset(k) + |part| <= |mem| && HoldsAt(p, mem, image, have, j)
    ensures HoldsAt(p, Splice(mem, p.base + image.Offset(k), part), image, have, j)
    ensures HoldsAt(p, Splice(mem, p.base + image.Offset(k), part), image, have + {k}, j)
  {
    hide Splice, Image.Fragment, Units, Awaits;
    SlotFits(p, mem, image, j);
    Disjoint(j, k, image.fragSize);
    var lo := p.base + image.Offset(j);
    SpliceOutside(mem, p.base + image.Offset(k), part, lo, lo + image.fragSize);
  }

  /** Programming `n` bytes of fragment `k` keeps it writable, and all of them add it. */
  lemma SlotWritten(p: Place, mem: Bytes, image: Image, have: set<nat>, k: nat, n: nat)
    requires Fits(p, mem, image) && k < image.count && HoldsAt(p, mem, image, have, k)
    requires n <= |Units(p, image, k)| && p.base + image.Offset(k) + n <= |mem|
    ensures var mem' := Splice(mem, p.base + image.Offset(k), Units(p, image, k)[..n]);
            && HoldsAt(p, mem', image, have, k)
            && (n == |Units(p, image, k)| ==> HoldsAt(p, mem', image, have + {k}, k))
  {
    hide Image.Fragment, Units;
    var a, d := p.base + image.Offset(k), Units(p, image, k);
    var mem' := Splice(mem, a, d[..n]);
    SlotFits(p, mem, image, k);
    var t, t' := Slot(p, mem, image, k), Slot(p, mem', image, k);
    forall i | 0 <= i < image.fragSize
      ensures t'[i] == if i < n then d[i] else t[i]
    {
    }
  }

  lemma Written(p: Place, mem: Bytes, image: Image, have: set<nat>, k: nat, n: nat)
    requires Fits(p, mem, image) && k < image.count && Holds(p, mem, image, have)
    requires n <= |Units(p, image, k)| && p.base + image.Offset(k) + n <= |mem|
    ensures var mem' := Splice(mem, p.base + image.Offset(k), Units(p, image, k)[..n]);
            && Holds(p, mem', image, have)
            && (n == |Units(p, image, k)| ==> Holds(p, mem', image, have + {k}))
  {
    hide Splice, Image.Fragment, HoldsAt, Units;
    var mem' := Splice(mem, p.base + image.Offset(k), Units(p, image, k)[..n]);
    SlotWritten(p, mem, image, have, k, n);
    forall j | 0 <= j < image.count
      ensures HoldsAt(p, mem', image, have, j)
      ensures n == |Units(p, image, k)| ==> HoldsAt(p, mem', image, have + {k}, j)
    {
      if j != k {
        OthersKept(p, mem, image, have, k, Units(p, image, k)[..n], j);
      }
    }
  }

  lemma PrefixIn(mem: Bytes, a: nat, n: nat, f: Bytes)
    requires a + n <= |mem| && f <= mem[a..a + n]
    ensures mem[a..a + |f|] == f
  {
    assert mem[a..a + |f|] == mem[a..a + n][..|f|];
  }

  lemma Grow(mem: Bytes, base: nat, bytes: Bytes, o: nat, f: Bytes)
    requires o + |f| <= |bytes| && f == bytes[o..o + |f|] && base + o + |f| <= |mem|
    requires mem[base..base + o] == bytes[..o] && mem[base + o..base + o + |f|] == f
    ensures mem[base..base + (o + |f|)] == bytes[..o + |f|]
  {
    SliceJoin(mem, base, base + o, base + o + |f|);
    assert bytes[..o + |f|] == bytes[..o] + f;
  }

  predicate HasAll(have: set<nat>, count: nat) {
    forall k :: 0 <= k < count ==> k in have
  }

  lemma FragmentIs(image: Image, k: nat)
    requires image.Valid() && k < image.count
    ensures var o, f := image.Offset(k), image.Fragment(k);
            && o < |image.bytes| && o + |f| == Min(Span(k + 1, image.fragSize), |image.bytes|)
            && f == image.bytes[o..o + |f|]
  {
    SpanMono(k, image.count - 1, image.fragSize);
  }

  lemma InSlot(p: Place, mem: Bytes, image: Image, have: set<nat>, k: nat)
    requires Fits(p, mem, image) && Holds(p, mem, image, have) && HasAll(have, image.count) && k < image.count
    ensures var a, f := p.base + image.Offset(k), image.Fragment(k);
            a + |f| <= |mem| && mem[a..a + |f|] == f
  {
    hide Image.Fragment;
    assert HoldsAt(p, mem, image, have, k);
    SlotFits(p, mem, image, k);
    PrefixIn(mem, p.base + image.Offset(k), image.fragSize, image.Fragment(k));
  }

  /** The first `k` fragments, if stored, are the start of the image. */
  lemma {:induction false} Complete(p: Place, mem: Bytes, image: Image, have: set<nat>, k: nat)
    requires Fits(p, mem, image) && Holds(p, mem, image, have) && HasAll(have, image.count) && k <= image.count
    ensures var n := Min(Span(k, image.fragSize), |image.bytes|);
            p.base + n <= |mem| && mem[p.base..p.base + n] == image.bytes[..n]
  {
    hide Holds, HoldsAt, Span, Image.Fragment, HasAll;
    SpanMono(k, image.count, image.fragSize);
    if k == 0 {
      assert Span(0, image.fragSize) == 0 && mem[p.base..p.base] == image.bytes[..0];
    } else {
      Complete(p, mem, image, have, k - 1);
      FragmentIs(image, k - 1);
      InSlot(p, mem, image, have, k - 1);
      Grow(mem, p.base, image.bytes, image.Offset(k - 1), image.Fragment(k - 1));
    }
  }

  class ImageStore {
    const bd: Device
    const place: Place    // mc_image_data_addr
    const fragSize: nat   // mc_node_frag_size

    constructor (bd: Device, base: nat, fragSize: nat)
      ensures this.bd == bd && this.place == Place(base, bd.erased, bd.progSize) && this.fragSize == fragSize
    {
      this.bd, this.place, this.fragSize := bd, Place(base, bd.erased, bd.progSize), fragSize;
    }

    /** fota_multicast_node_set_fragment_size accepts whole program units only. */
    ghost predicate Shape(image: Image)
      reads bd
    {
      && Fits(place, bd.mem, image) && image.fragSize == fragSize
      && place.erased == bd.erased && place.ps == bd.progSize > 0 && bd.readSize > 0
      && Multiple(fragSize, bd.progSize) && Multiple(place.base, bd.progSize)
    }

    /** fota_multicast_node_write_image_fragment: no fragment touches another one's slot,
        whatever becomes of the device, and a failed one can be written again. */
    method WriteFragment(data: Bytes, offset: nat, ghost image: Image, ghost have: set<nat>, ghost k: nat)
      returns (ok: bool)
      requires Shape(image) && Holds(place, bd.mem, image, have)
      requires offset % fragSize == 0 ==> offset == image.Offset(k) && k < image.count && data == image.Fragment(k)
      modifies bd
      ensures Shape(image)
      ensures offset % fragSize != 0 ==> !ok && bd.mem == old(bd.mem)
      ensures offset % fragSize == 0 && !ok ==> bd.power == 0 && old(bd.power) < fragSize
      ensures old(bd.power) <= bd.power + fragSize
      ensures Holds(place, bd.mem, image, have)
      ensures ok ==> k < image.count && Holds(place, bd.mem, image, have + {k})
    {
      hide Multiple, Padded, AlignUp, AlignDown, Splice, Image.Fragment, Slot, Holds, HoldsAt, Awaits;
      if offset % fragSize != 0 {
        return false;
      }
      ghost var mem := bd.mem;
      SlotFits(place, mem, image, k);
      SlotAligned(image, k);
      SlotAwaits(image, have, k);
      ghost var n;
      ok, n := ProgramPadded(bd, place.base + offset, data);
      Written(place, mem, image, have, k, n);
    }

    lemma SlotAwaits(image: Image, have: set<nat>, k: nat)
      requires Shape(image) && Holds(place, bd.mem, image, have) && k < image.count
      ensures var a := place.base + image.Offset(k);
              a + fragSize <= |bd.mem| && Awaits(bd.mem, a, Units(place, image, k), bd.erased)
    {
      hide Units, Image.Fragment;
      SlotFits(place, bd.mem, image, k);
      assert HoldsAt(place, bd.mem, image, have, k);
      var a, d, t := place.base + image.Offset(k), Units(place, image, k), Slot(place, bd.mem, image, k);
      forall i | 0 <= i < |d|
        ensures bd.mem[a + i] == bd.erased || bd.mem[a + i] == d[i]
      {
        assert bd.mem[a + i] == t[i] && t[0 + i] == t[i];
      }
    }

    lemma SlotAligned(image: Image, k: nat)
      requires Shape(image)
      ensures Multiple(place.base + image.Offset(k), bd.progSize)
    {
      SpanMultiple(k, fragSize, bd.progSize);
      MultipleAdd(place.base, image.Offset(k), bd.progSize);
    }

    /** A part of a complete image, wherever it starts and ends. */
    method ReadImage(offset: nat, size: nat, ghost image: Image, ghost have: set<nat>) returns (ok: bool, data: Bytes)
      requires Shape(image) && Holds(place, bd.mem, image, have) && HasAll(have, image.count)
      requires offset + size <= |image.bytes|
      ensures ok ==> data == image.bytes[offset..offset + size]
      ensures AlignUp(place.base + offset + size, bd.readSize) <= |bd.mem| ==> ok
    {
      hide Multiple, AlignUp, Holds;
      Complete(place, bd.mem, image, have, image.count);
      ok, data := ReadUnaligned(bd, place.base + offset, size);
      if ok && size > 0 {
        SliceOfSlice(bd.mem, place.base, place.base + |image.bytes|, offset, offset + size);
        assert image.bytes[..|image.bytes|] == image.bytes;
      }
    }
  }

  lemma {:induction false} SpanMultiple(k: nat, d: nat, u: nat)
    requires u > 0 && Multiple(d, u)
    ensures Multiple(Span(k, d), u)
  {
    if k > 0 {
      SpanMultiple(k - 1, d, u);
      MultipleAdd(Span(k - 1, d), d, u);
    }
  }

  lemma PaddedFits(data: Bytes, ps: nat, fragSize: nat)
    requires ps > 0 && |data| <= fragSize && Multiple(fragSize, ps)
    ensures |Padded(data, ps)| <= fragSize
  {
    UnitsOf(|data|, ps);
    if AlignUp(|data|, ps) > fragSize {
      MultipleGap(fragSize, AlignUp(|data|, ps), ps);
    }
  }

  lemma Disjoint(j: nat, k: nat, d: nat)
    requires j != k
    ensures Span(j, d) + d <= Span(k, d) || Span(k, d) + d <= Span(j, d)
  {
    if j < k {
      SpanMono(j + 1, k, d);
    } else {
      SpanMono(k + 1, j, d);
    }
  }

  lemma SpliceOutside(mem: Bytes, a: nat, d: Bytes, lo: nat, hi: nat)
    requires a + |d| <= |mem| && lo <= hi <= |mem| && (hi <= a || a + |d| <= lo)
    ensures Splice(mem, a, d)[lo..hi] == mem[lo..hi]
  {}

  lemma SpliceInside(mem: Bytes, a: nat, d: Bytes, n: nat)
    requires |d| <= n && a + n <= |mem|
    ensures d <= Splice(mem, a, d)[a..a + n]
  {
    assert Splice(mem, a, d)[a..a + n][..|d|] == d;
  }

  /** The fragments of an image in any order, any number of times: in the end the store
      holds all of them. */
  method StoreAll(store: ImageStore, image: Image, order: seq<nat>) returns (ok: bool)
    requires store.Shape(image) && Holds(store.place, store.bd.mem, image, {})
    requires forall i :: 0 <= i < |order| ==> order[i] < image.count
    modifies store.bd
    ensures store.Shape(image)
    ensures ok ==> Holds(store.place, store.bd.mem, image, set i | 0 <= i < |order| :: order[i])
    ensures !ok ==> old(store.bd.power) < Span(|order|, image.fragSize)
  {
    hide Holds, HoldsAt;
    ghost var have: set<nat> := {};
    for i := 0 to |order|
      invariant store.Shape(image) && Holds(store.place, store.bd.mem, image, have)
      invariant have == set j | 0 <= j < i :: order[j]
      invariant old(store.bd.power) <= store.bd.power + Span(i, image.fragSize)
    {
      MultipleSpan(order[i], image.fragSize);
      ok := store.WriteFragment(image.Fragment(order[i]), image.Offset(order[i]), image, have, order[i]);
      if !ok {
        SpanMono(i + 1, |order|, image.fragSize);
        return;
      }
      have := have + {order[i]};
    }
    ok := true;
  }

  lemma MultipleSpan(k: nat, d: nat)
    requires d > 0
    ensures Span(k, d) % d == 0
  {
    MultipleMod(k, d);
  }
}
