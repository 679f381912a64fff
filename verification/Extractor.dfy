/** The fragment extractor of fota_candidate.c: one buffer in which blocks are read,
    opened, stripped of their checkers and joined with the bytes carried over from
    the fragment before, so that every fragment suits the installer. */
module Extractor {
  import opened Bytes
  import opened BlockLayout
  import opened CandidateFormat
  import opened BlockDevice
  import opened Resume
  import opened Candidate

  /** What re-alignment makes of the carried bytes and a block, `t` together: whole
      installation units and a new carry, or, behind the last block, padding. */
  ghost predicate Realigned(eff: nat, align: nat, t: Bytes, frag: Bytes, carry: Bytes)
    requires align > 0
  {
    && Multiple(|frag|, align)
    && (if |t| >= eff then frag + carry == t && |carry| < align
        else t <= frag && |frag| < |t| + align)
  }

  lemma CutAligned(n: nat, d: nat)
    requires d > 0
    ensures n % d <= n && Multiple(n - n % d, d) && AlignUp(n - n % d, d) == n - n % d
    ensures n % d == 0 <==> Multiple(n, d)
  {
    var q := n / d;
    assert n == q * d + n % d by { assert n == d * q + n % d; }
    assert q * d >= 0;
    MultipleMod(q, d);
    MultipleIsMod(q * d, d);
    AlignUpIsLeast(q * d, d);
    MultipleIsMod(n, d);
  }

  lemma PadBound(n: nat, d: nat, limit: nat)
    requires d > 0 && n <= limit
    ensures Multiple(AlignUp(n, d), d) && n <= AlignUp(n, d) < n + d
    ensures Multiple(limit, d) ==> AlignUp(n, d) <= limit
  {
    AlignUpIsLeast(n, d);
    MultipleIsMod(AlignUp(n, d), d);
    if Multiple(limit, d) && AlignUp(n, d) > limit {
      MultipleGap(limit, AlignUp(n, d), d);
    }
  }

  lemma CutRealigned(eff: nat, align: nat, t: Bytes)
    requires align > 0 && |t| >= eff
    ensures |t| % align <= |t| && Realigned(eff, align, t, t[..|t| - |t| % align], t[|t| - |t| % align..])
  {
    CutAligned(|t|, align);
    assert t == t[..|t| - |t| % align] + t[|t| - |t| % align..];
  }

  lemma PadRealigned(eff: nat, align: nat, t: Bytes, frag: Bytes)
    requires align > 0 && |t| < eff && t <= frag && |frag| == AlignUp(|t|, align)
    ensures Realigned(eff, align, t, frag, [])
  {
    PadBound(|t|, align, eff);
  }

  method MoveToFront(buf: array<byte>, from: nat, n: nat)
    requires from + n <= buf.Length
    modifies buf
    ensures buf[..n] == old(buf[from..from + n])
  {
    CopyInto(buf, 0, buf[from..from + n]);
  }

  /** The read into the buffer behind `e` carried bytes. */
  method PlaceRead(buf: array<byte>, e: nat, region: Bytes)
    requires e + |region| <= buf.Length
    modifies buf
    ensures buf[..e] == old(buf[..e])
    ensures buf[e..e + |region|] == region
  {
    CopyInto(buf, e, region);
  }

  /** The opened block takes the place of the stored one, then moves down over its
      checker, next to the carried bytes. */
  method PlaceBlock(buf: array<byte>, e: nat, c: nat, block: Bytes, join: bool)
    requires e + c + |block| <= buf.Length
    modifies buf
    ensures join ==> buf[..e + |block|] == old(buf[..e]) + block
    ensures !join ==> buf[e + c..e + c + |block|] == block
  {
    CopyInto(buf, e + c, block);
    if join {
      ghost var mid := buf[..];
      assert mid[e + c..e + c + |block|] == block && mid[..e] == old(buf[..e]);
      CopyInto(buf, e, buf[e + c..e + c + |block|]);
      assert buf[..e + |block|] == mid[..e] + block;
    }
  }

  class Fragments {
    const g: Geometry
    const layout: Layout
    const bd: Device
    const size: nat        // fw_size of the header
    const align: nat       // install_alignment
    const fragBuf: array<byte>
    var currAddr: nat
    var bytesCompleted: nat
    var extra: nat         // frag_extra_bytes
    var iv: nat
    var actualSize: nat    // the caller's variables, passed by reference
    var ignore: bool
    ghost var scan: Scan

    ghost predicate Shape() {
      && g.Valid() && g.codec.Implements(layout) && bd.readSize > 0 && align > 0
      && Multiple(g.page, bd.readSize)
      && fragBuf.Length == g.page + (if Multiple(g.eff, align) then 0 else align)
    }

    /** The context between two calls. */
    ghost predicate Ready()
      requires Shape()
      reads this
    {
      && bytesCompleted == |scan.data| <= size && Multiple(currAddr, bd.readSize)
      && (layout.Encrypted? ==> iv == g.iv0 + scan.good)
      && extra < align && (Multiple(g.eff, align) ==> extra == 0)
      && (ignore || actualSize + extra <= fragBuf.Length)
    }

    /** The bytes carried over to the next fragment. */
    ghost function Carry(): (c: Bytes)
      requires Shape() && Ready()
      reads this, fragBuf
      ensures |c| == extra
    {
      if ignore then fragBuf[..extra] else fragBuf[actualSize..actualSize + extra]
    }

    /** fota_candidate_extract_start, behind the headers. */
    constructor (g: Geometry, layout: Layout, bd: Device, size: nat, align: nat)
      requires g.Valid() && g.codec.Implements(layout) && bd.readSize > 0 && align > 0
      requires Multiple(g.page, bd.readSize) && Multiple(g.data, bd.readSize)
      ensures this.g == g && this.layout == layout && this.bd == bd && this.size == size && this.align == align
      ensures Shape() && Ready() && fresh(fragBuf) && Carry() == [] && scan == START && currAddr == g.data
    {
      this.g, this.layout, this.bd, this.size, this.align := g, layout, bd, size, align;
      this.fragBuf := new byte[g.page + if g.eff % align == 0 then 0 else align];
      this.currAddr, this.bytesCompleted, this.extra, this.iv := g.data, 0, 0, g.iv0;
      this.actualSize, this.ignore, this.scan := 0, false, START;
      CutAligned(g.eff, align);
    }

    method MoveCarry()
      requires Shape() && Ready()
      modifies fragBuf
      ensures fragBuf[..extra] == old(Carry())
    {
      if !ignore {
        MoveToFront(fragBuf, actualSize, extra);
      }
    }

    /** How much is read for a block of `n` bytes. */
    lemma ReadFits(n: nat)
      requires Shape() && 0 < n <= g.eff && extra < align && (Multiple(g.eff, align) ==> extra == 0)
      ensures var r := AlignUp(g.codec.checker + n, bd.readSize);
              && Multiple(r, bd.readSize) && g.codec.checker + n <= r && extra + r <= fragBuf.Length
    {
      PadBound(g.codec.checker + n, bd.readSize, g.page);
    }

    /** A full block: whole units and a carry. */
    method CutBlock(total: nat) returns (frag: Bytes)
      requires Shape() && g.eff <= total < g.eff + align && (Multiple(g.eff, align) ==> total <= g.eff)
      modifies this`extra, this`actualSize
      ensures total <= fragBuf.Length && actualSize + extra == total && extra < align
      ensures frag == fragBuf[..actualSize] && (Multiple(g.eff, align) ==> extra == 0)
      ensures Realigned(g.eff, align, fragBuf[..total], frag, fragBuf[actualSize..actualSize + extra])
    {
      hide Multiple, Realigned, AlignUp, Codec.Lawful, Codec.Implements;
      ghost var t := fragBuf[..total];
      CutAligned(total, align);
      extra := total % align;
      actualSize := total - extra;
      CutRealigned(g.eff, align, t);
      assert fragBuf[..actualSize] == t[..actualSize] && fragBuf[actualSize..actualSize + extra] == t[actualSize..];
      actualSize := AlignUp(actualSize, align);
      frag := fragBuf[..actualSize];
    }

    /** Less than a block: units with padding. */
    method PadBlock(total: nat) returns (frag: Bytes)
      requires Shape() && total < g.eff
      modifies this`actualSize
      ensures total <= actualSize <= fragBuf.Length && frag == fragBuf[..actualSize]
      ensures Realigned(g.eff, align, fragBuf[..total], frag, [])
    {
      hide Multiple, Realigned, AlignUp, Codec.Lawful, Codec.Implements;
      PadBound(total, align, g.eff);
      actualSize := AlignUp(total, align);
      frag := fragBuf[..actualSize];
      PadRealigned(g.eff, align, fragBuf[..total], frag);
    }

    /** The joined bytes at the front of the buffer become fragment and carry. */
    method Realign(total: nat) returns (frag: Bytes)
      requires Shape() && total < g.eff + align && (Multiple(g.eff, align) ==> extra == 0 && total <= g.eff)
      modifies this`extra, this`actualSize
      ensures actualSize <= fragBuf.Length && frag == fragBuf[..actualSize] && actualSize == |frag|
      ensures total >= g.eff ==> extra < align && actualSize + extra <= fragBuf.Length
      ensures total >= g.eff && Multiple(g.eff, align) ==> extra == 0
      ensures total <= fragBuf.Length
      ensures Realigned(g.eff, align, fragBuf[..total], frag,
                        if total >= g.eff then fragBuf[actualSize..actualSize + extra] else [])
    {
      hide Multiple, Realigned, Shape;
      if total >= g.eff {
        frag := CutBlock(total);
      } else {
        frag := PadBlock(total);
      }
    }

    /** A good block behind the carried ones: joined with them and re-aligned, or handed out
        where it lies. */
    method Deliver(block: Bytes) returns (frag: Bytes)
      requires Shape() && |block| <= g.eff && extra < align && (Multiple(g.eff, align) ==> extra == 0)
      modifies this`extra, this`actualSize, fragBuf
      ensures actualSize == |frag|
      ensures old(extra) == 0 && |block| % align == 0 ==> frag == block && extra == 0
      ensures var t := old(fragBuf[..extra]) + block;
              && (|t| >= g.eff ==> extra < align && actualSize + extra <= fragBuf.Length)
              && (|t| >= g.eff && Multiple(g.eff, align) ==> extra == 0)
              && Realigned(g.eff, align, t, frag,
                           if |t| >= g.eff then fragBuf[actualSize..actualSize + extra] else [])
    {
      hide Multiple, Realigned, Codec.Lawful, Codec.Implements;
      if |block| % align != 0 || extra > 0 {
        frag := Join(block);
      } else {
        frag := InPlace(block);
        assert old(fragBuf[..extra]) + block == block;
      }
    }

    method Join(block: Bytes) returns (frag: Bytes)
      requires Shape() && |block| <= g.eff && extra < align && (Multiple(g.eff, align) ==> extra == 0)
      modifies this`extra, this`actualSize, fragBuf
      ensures actualSize == |frag|
      ensures var t := old(fragBuf[..extra]) + block;
              && (|t| >= g.eff ==> extra < align && actualSize + extra <= fragBuf.Length)
              && (|t| >= g.eff && Multiple(g.eff, align) ==> extra == 0)
              && Realigned(g.eff, align, t, frag,
                           if |t| >= g.eff then fragBuf[actualSize..actualSize + extra] else [])
    {
      hide Multiple, Realigned, Codec.Lawful, Codec.Implements;
      PlaceBlock(fragBuf, extra, g.codec.checker, block, true);
      frag := Realign(extra + |block|);
    }

    method InPlace(block: Bytes) returns (frag: Bytes)
      requires Shape() && |block| <= g.eff && extra == 0 && |block| % align == 0
      modifies this`actualSize, fragBuf
      ensures frag == block && actualSize == |block| <= fragBuf.Length
      ensures Realigned(g.eff, align, block, frag, []) && fragBuf[actualSize..actualSize] == []
    {
      hide Multiple, Realigned, Codec.Lawful, Codec.Implements;
      PlaceBlock(fragBuf, 0, g.codec.checker, block, false);
      frag, actualSize := fragBuf[g.codec.checker..g.codec.checker + |block|], |block|;
      AlignedAlready(g.eff, align, block);
    }

    /** fota_candidate_extract_fragment */
    method ExtractFragment() returns (ok: bool, frag: Bytes)
      requires Shape() && Ready()
      modifies this, fragBuf
      ensures ok ==> if ignore then actualSize > 0 else actualSize == |frag|
      ensures var r, t := old(ReadBlock(g, size, bd.readSize, bd.mem, currAddr, scan)), old(Carry());
              match r {
                case Fault => !ok
                case AtEnd => ok && !ignore && frag == [] && Ready() && Carry() == t
                              && currAddr == old(currAddr) && scan == old(scan)
                case Bad(next) => ok && ignore && Ready() && Carry() == t && currAddr == next && scan == old(scan)
                case Good(next, d) => ok && !ignore && currAddr == next && |scan.data| <= size
                              && |d| == Min(size - |old(scan).data|, g.eff) > 0
                              && scan == Scan(old(scan).good + 1, old(scan).data + d)
                              && (|t + d| >= g.eff ==> Ready())
                              && (t == [] && |d| % align == 0 ==> Ready() && Carry() == [] && frag == d)
                              && Realigned(g.eff, align, t + d, frag, if |t + d| >= g.eff then Carry() else [])
              }
    {
      hide Multiple, Realigned, ReadBlock;
      MoveCarry();
      ignore := false;
      actualSize := Min(size - bytesCompleted, g.eff);
      EndIs();
      if actualSize == 0 {
        return true, [];
      }
      var block;
      ok, block := ReadNext();
      if !ok {
        return false, [];
      }
      if block.None? {
        ignore := true;
        return true, [];
      }
      bytesCompleted := bytesCompleted + actualSize;
      scan := Scan(scan.good + 1, scan.data + block.value);
      frag := Deliver(block.value);
    }

    lemma EndIs()
      requires Shape() && bytesCompleted == |scan.data| <= size
      ensures ReadBlock(g, size, bd.readSize, bd.mem, currAddr, scan) == AtEnd
          <==> Min(size - bytesCompleted, g.eff) == 0
    {}

    /** The read and the check of the next block, which stays behind the carried
        bytes. */
    method ReadNext() returns (ok: bool, block: Option<Bytes>)
      requires Shape() && bytesCompleted == |scan.data| < size && Multiple(currAddr, bd.readSize)
      requires layout.Encrypted? ==> iv == g.iv0 + scan.good
      requires extra < align && (Multiple(g.eff, align) ==> extra == 0)
      requires actualSize == Chunk(g, size, scan)
      modifies this`iv, this`currAddr, fragBuf
      ensures fragBuf[..extra] == old(fragBuf[..extra]) && Multiple(currAddr, bd.readSize)
      ensures block.Some? ==> |block.value| == actualSize && (layout.Encrypted? ==> iv == g.iv0 + scan.good + 1)
      ensures block.None? ==> iv == old(iv)
      ensures old(ReadBlock(g, size, bd.readSize, bd.mem, currAddr, scan))
           == if !ok then Fault else if block.Some? then Good(currAddr, block.value) else Bad(currAddr)
    {
      hide Multiple, Open;
      ReadFits(actualSize);
      var c := g.codec.checker;
      var readSize := AlignUp(c + actualSize, bd.readSize);
      var region;
      ok, region := bd.Read(currAddr, readSize);
      if !ok {
        return false, None;
      }
      PlaceRead(fragBuf, extra, region);
      BlockIs(region, actualSize);
      block := OpenBlock(layout, iv, region[..c], region[c..c + actualSize]);
      if block.None? {
        if !g.resume {
          return false, None;
        }
      } else if layout.Encrypted? {
        iv := iv + 1;
      }
      MultipleAdd(currAddr, readSize, bd.readSize);
      currAddr := currAddr + readSize;
    }

    /** The bytes read are the block the format speaks of. */
    lemma BlockIs(region: Bytes, n: nat)
      requires Shape() && n == Chunk(g, size, scan) > 0 && (layout.Encrypted? ==> iv == g.iv0 + scan.good)
      requires var r := AlignUp(g.codec.checker + n, bd.readSize);
               g.codec.checker + n <= r && currAddr + r <= |bd.mem| && region == bd.mem[currAddr..currAddr + r]
      ensures var c := g.codec.checker; var next := currAddr + AlignUp(c + n, bd.readSize);
              var o := Open(layout, iv, region[..c], region[c..c + n]);
              && (o.Some? ==> |o.value| == n)
              && ReadBlock(g, size, bd.readSize, bd.mem, currAddr, scan)
              == match o {
                   case Some(d) => Good(next, d)
                   case None => if g.resume then Bad(next) else Fault
                 }
    {
      hide Multiple, AlignUp, Codec.Lawful, Checksum, Ccm.Decrypt;
      var c := g.codec.checker;
      SliceOfSlice(bd.mem, currAddr, currAddr + |region|, 0, c);
      SliceOfSlice(bd.mem, currAddr, currAddr + |region|, c, c + n);
      assert g.codec.ReadsAs(layout, g.iv0 + scan.good, region[..c], region[c..c + n]);
    }
  }

  lemma AlignedAlready(eff: nat, align: nat, block: Bytes)
    requires align > 0 && |block| % align == 0
    ensures Realigned(eff, align, block, block, [])
  {
    MultipleIsMod(|block|, align);
    assert block + [] == block;
  }
}
