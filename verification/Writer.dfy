/** The writing side of the candidate area: fragments of any size are packed into
    pages (fota.c, handle_fw_fragment and program_to_storage). */
module Writer {
  import opened Bytes
  import opened BlockLayout
  import opened CandidateFormat
  import opened BlockDevice

  /** The headers in front of the data area are untouched. */
  predicate SameBelow(a: Bytes, b: Bytes, n: nat) {
    n <= |a| == |b| && a[..n] == b[..n]
  }

  lemma SameBelowTrans(a: Bytes, b: Bytes, c: Bytes, n: nat)
    requires SameBelow(a, b, n) && SameBelow(b, c, n)
    ensures SameBelow(a, c, n)
  {}

  /** Where the data area ends once the rest of `size` bytes has been stored behind `pages`. */
  function Ahead(g: Geometry, size: nat, kept: Bytes, pages: seq<Bytes>): nat
    requires g.eff > 0
  {
    End(g, pages) + Span(Blocks(if |kept| < size then size - |kept| else 0, g.eff), g.page)
  }

  /** One block more is one page less to come; a page that was cut takes one more at most. */
  lemma AheadNext(g: Geometry, size: nat, s: Scan, pages: seq<Bytes>, s': Scan, pages': seq<Bytes>)
    requires g.eff > 0 && |s.data| < size && |s.data| <= |s'.data| && End(g, pages') <= End(g, pages) + g.page
    ensures Ahead(g, size, s'.data, pages') <= Ahead(g, size, s.data, pages) + g.page
    ensures |s'.data| == |s.data| + Chunk(g, size, s) && End(g, pages') == End(g, pages) + g.page ==>
              Ahead(g, size, s'.data, pages') == Ahead(g, size, s.data, pages)
  {
    hide Concat;
    var left := if |s'.data| < size then size - |s'.data| else 0;
    BlocksMono(left, size - |s.data|, g.eff);
    SpanMono(Blocks(left, g.eff), Blocks(size - |s.data|, g.eff), g.page);
  }

  /** The effect of programming the sealed next block up to byte `n`. */
  lemma ProgramStep(g: Geometry, mem: Bytes, payload: Bytes, pages: seq<Bytes>, s: Scan, page: Bytes, n: nat)
    returns (payload': Bytes, pages': seq<Bytes>, s': Scan)
    requires Holds(g, mem, payload, pages) == Some(s) && (g.resume ==> Visible(g, payload))
    requires |s.data| < |payload| && |page| == g.page
    requires IsSealed(g.codec, g.iv0 + s.good, NextBlock(g, payload, s), page)
    requires End(g, pages) + g.page <= |mem| && n <= g.page
    ensures |payload'| == |payload| && s.data <= payload'
    ensures !g.resume || n == g.page || Robust(g, payload) ==> payload' == payload
    ensures var mem' := Splice(mem, End(g, pages), page[..n]);
            && SameBelow(mem', mem, g.data)
            && s.data <= s'.data && |s'.data| <= |s.data| + Chunk(g, |payload|, s)
            && (g.resume || n == g.page ==> Holds(g, mem', payload', pages') == Some(s'))
            && Ahead(g, |payload|, s'.data, pages') <= Ahead(g, |payload|, s.data, pages) + g.page
            && (n == g.page ==>
                  && Ahead(g, |payload|, s'.data, pages') == Ahead(g, |payload|, s.data, pages)
                  && End(g, pages') == End(g, pages) + g.page
                  && s' == Scan(s.good + 1, s.data + NextBlock(g, payload, s)))
  {
    hide Stored, After, Concat, IsSealed, Robust;
    StoredFacts(g, mem, payload, pages);
    HoldsFacts(g, mem, payload, pages);
    assert SealedNext(g, payload, s, page);
    payload', pages', s' := payload, pages, s;
    if n == g.page {
      assert page[..n] == page;
      StoredAfterBlock(g, mem, payload, pages, page);
      ConcatSnoc(pages, page);
      pages' := pages + [page];
    } else if g.resume {
      payload', pages' := StoredAfterProgram(g, mem, payload, pages, page, n);
      StoredFacts(g, Splice(mem, End(g, pages), page[..n]), payload', pages');
    }
    s' := After(g, |payload|, pages');
    AheadNext(g, |payload|, s, pages, s', pages');
  }

  lemma PlainSealed(g: Geometry, k: nat, page: Bytes)
    requires g.codec.Implements(Plain) && |page| == g.page
    ensures IsSealed(g.codec, k, page, page)
  {
    assert g.codec.SealsAs(Plain, k, page);
    assert page[..0] == [] && page[0..0 + |page|] == page;
  }

  /** One plain page taken straight from the payload. */
  lemma PlainStep(g: Geometry, mem: Bytes, payload: Bytes, pages: seq<Bytes>, s: Scan, page: Bytes)
    returns (pages': seq<Bytes>, s': Scan)
    requires Holds(g, mem, payload, pages) == Some(s) && g.codec.Implements(Plain) && !g.resume && g.eff == g.page
    requires |page| == g.page && |s.data| + |page| <= |payload|
    requires page == payload[|s.data|..|s.data| + |page|] && End(g, pages) + |page| <= |mem|
    ensures Holds(g, Splice(mem, End(g, pages), page), payload, pages') == Some(s')
    ensures s'.data == s.data + page && End(g, pages') == End(g, pages) + g.page
    ensures SameBelow(Splice(mem, End(g, pages), page), mem, g.data)
  {
    hide Holds, IsSealed, Robust, Visible, Splice, Concat;
    HoldsFacts(g, mem, payload, pages);
    PlainSealed(g, g.iv0 + s.good, page);
    assert page[..g.page] == page;
    var p;
    p, pages', s' := ProgramStep(g, mem, payload, pages, s, page, g.page);
  }

  /** Whole plain pages, programmed in one go. */
  lemma {:induction false} PlainRun(g: Geometry, mem: Bytes, payload: Bytes, pages: seq<Bytes>, s: Scan, data: Bytes)
    returns (pages': seq<Bytes>, s': Scan)
    requires Holds(g, mem, payload, pages) == Some(s) && g.codec.Implements(Plain) && !g.resume && g.eff == g.page > 0
    requires Multiple(|data|, g.page) && |s.data| + |data| <= |payload|
    requires data == payload[|s.data|..|s.data| + |data|] && End(g, pages) + |data| <= |mem|
    ensures Holds(g, Splice(mem, End(g, pages), data), payload, pages') == Some(s')
    ensures s'.data == s.data + data && End(g, pages') == End(g, pages) + |data|
    ensures SameBelow(Splice(mem, End(g, pages), data), mem, g.data)
    decreases |data|
  {
    hide Holds, Concat;
    var w := End(g, pages);
    if data == [] {
      HoldsFacts(g, mem, payload, pages);
      pages', s' := pages, s;
      assert Splice(mem, w, data) == mem;
    } else {
      var page, rest := data[..g.page], data[g.page..];
      var pages1, s1 := PlainStep(g, mem, payload, pages, s, page);
      assert rest == payload[|s1.data|..|s1.data| + |rest|];
      pages', s' := PlainRun(g, Splice(mem, w, page), payload, pages1, s1, rest);
      SpliceTwice(mem, w, page, rest);
      assert data == page + rest;
    }
  }

  method AppendAt(buf: array<byte>, c: nat, o: nat, part: Bytes)
    requires c + o + |part| <= buf.Length
    modifies buf
    ensures buf[c..c + o + |part|] == old(buf[c..c + o]) + part
  {
    CopyInto(buf, c + o, part);
    assert buf[c..c + o + |part|] == old(buf[c..c + o]) + part;
  }

  method ZeroTail(buf: array<byte>, size: nat)
    requires size <= buf.Length
    modifies buf
    ensures buf[..size] == old(buf[..size]) && buf[size..] == Fill(0, buf.Length - size)
  {
    CopyInto(buf, size, Fill(0, buf.Length - size));
  }

  method StoreChecksum(buf: array<byte>, size: nat)
    requires CHECKSUM_SIZE + size <= buf.Length
    modifies buf
    ensures buf[2..2 + size] == old(buf[2..2 + size])
    ensures buf[..2] == Le16(Checksum(buf[2..2 + size]))
  {
    ghost var d := buf[2..2 + size];
    var sum := SumOf(buf, size);
    CopyInto(buf, 0, Le16(sum));
    assert buf[2..2 + size] == d;
  }

  method SumOf(buf: array<byte>, size: nat) returns (sum: nat)
    requires CHECKSUM_SIZE + size <= buf.Length
    ensures sum == Checksum(buf[2..2 + size])
  {
    ghost var d := buf[2..2 + size];
    sum := 0;
    for i := 0 to size
      invariant sum == Checksum(d[..i])
    {
      assert d[..i + 1][..i] == d[..i] && d[i] == buf[2 + i];
      sum := (sum + buf[2 + i] as int) % 0x1_0000;
    }
    assert d[..size] == d;
  }

  method EncryptInPlace(buf: array<byte>, a: Ccm, iv: nat, size: nat)
    requires TAG_SIZE + size <= buf.Length
    modifies buf
    ensures (buf[..TAG_SIZE], buf[TAG_SIZE..TAG_SIZE + size])
         == a.Encrypt(iv, old(buf[TAG_SIZE..TAG_SIZE + size]))
  {
    var e := a.Encrypt(iv, buf[TAG_SIZE..TAG_SIZE + size]);
    CopyInto(buf, TAG_SIZE, e.1);
    ghost var mid := buf[..];
    assert mid[TAG_SIZE..TAG_SIZE + size] == e.1;
    CopyInto(buf, 0, e.0);
    assert buf[..] == e.0 + mid[TAG_SIZE..];
    assert buf[TAG_SIZE..TAG_SIZE + size] == mid[TAG_SIZE..TAG_SIZE + size];
  }

  class PageWriter {
    const g: Geometry
    const layout: Layout
    const bd: Device
    const pageBuf: array<byte>
    var pageBufOffset: nat
    var storageAddr: nat
    var fwBytesWritten: nat
    var iv: nat

    /** The pages of the data area that are in use, and what a scan finds there. */
    ghost var pages: seq<Bytes>
    ghost var scan: Scan

    ghost predicate Shape() {
      && g.Valid() && g.codec.Implements(layout) && pageBuf.Length == g.page
      && g.erased == bd.erased && bd.progSize > 0 && Multiple(g.page, bd.progSize)
    }

    /** The context agrees with the scan of the used pages. */
    ghost predicate Settled(payload: Bytes)
      requires Shape()
      reads this, bd`mem
    {
      && Holds(g, bd.mem, payload, pages) == Some(scan) && Roomy(g, bd.mem, |payload|)
      && storageAddr == End(g, pages) && Multiple(storageAddr, bd.progSize)
      && fwBytesWritten == |scan.data| && (layout.Encrypted? ==> iv == g.iv0 + scan.good)
    }

    /** `fed` bytes of the payload have been handed over and more are to come:
        whole blocks are stored, the rest waits in the page buffer. */
    ghost predicate Fed(payload: Bytes, fed: nat)
      requires Shape()
      reads this, bd`mem, pageBuf
    {
      && Settled(payload)
      && (fed < |payload| || payload == [])
      && fwBytesWritten <= fed <= |payload| && pageBufOffset == fed - fwBytesWritten < g.eff
      && pageBuf[g.codec.checker..g.codec.checker + pageBufOffset] == payload[fwBytesWritten..fed]
    }

    lemma FedFacts(payload: Bytes, fed: nat)
      requires Shape() && Fed(payload, fed)
      ensures pageBufOffset < g.eff && g.page == g.codec.checker + g.eff && g.codec.checker == layout.Checker()
      ensures Holds(g, bd.mem, payload, pages) == Some(scan) && SameBelow(bd.mem, bd.mem, g.data)
      ensures payload == [] ==> Complete(payload)
      ensures (fed < |payload| || payload == []) && |scan.data| <= fed
    {
      HoldsFacts(g, bd.mem, payload, pages);
    }

    /** The stored blocks are the whole payload. */
    ghost predicate Complete(payload: Bytes)
      requires Shape()
      reads this, bd`mem
    {
      Settled(payload) && scan.data == payload
    }

    lemma CompleteFacts(payload: Bytes)
      requires Shape() && Complete(payload)
      ensures scan.data == payload && Holds(g, bd.mem, payload, pages) == Some(scan)
    {}

    /** A context for a data area that holds `pages`, as left by the download
        authorisation: fresh after an erase, or found by the resume scan. */
    constructor (g: Geometry, layout: Layout, bd: Device, storageAddr: nat, written: nat, iv: nat,
                 ghost payload: Bytes, ghost pages: seq<Bytes>, ghost scan: Scan)
      requires Holds(g, bd.mem, payload, pages) == Some(scan) && g.codec.Implements(layout)
      requires storageAddr == End(g, pages) && written == |scan.data|
      requires layout.Encrypted? ==> iv == g.iv0 + scan.good
      requires g.erased == bd.erased && bd.progSize > 0 && Roomy(g, bd.mem, |payload|)
      requires Multiple(g.page, bd.progSize) && Multiple(storageAddr, bd.progSize)
      requires written < |payload| || payload == []
      ensures fresh(pageBuf) && this.g == g && this.layout == layout && this.bd == bd
      ensures this.pages == pages && this.scan == scan
      ensures Shape() && Fed(payload, written)
    {
      HoldsFacts(g, bd.mem, payload, pages);
      this.g, this.layout, this.bd := g, layout, bd;
      this.storageAddr, this.fwBytesWritten, this.iv, this.pageBufOffset := storageAddr, written, iv, 0;
      this.pages, this.scan := pages, scan;
      this.pageBuf := new byte[g.page];
    }

    /** Why a write fails: no power, or no room; for one page more in a resume build,
        for the data area as a whole in the others. */
    ghost predicate Stuck(payload: Bytes)
      requires g.eff > 0
      reads this, bd
    {
      || bd.power == 0
      || (if g.resume then End(g, pages) + g.page else DataEnd(g, |payload|)) > |bd.mem|
    }

    /** What is programmed is paid for: power and the end of the used pages add up to the
        same as `before`, unless power was lost, for which they were too small. */
    ghost predicate Paid(ok: bool, before: nat)
      reads `pages, bd
    {
      if ok || bd.power > 0 then bd.power + End(g, pages) == before else before <= |bd.mem|
    }

    /** Where the data area ends once the rest of `size` bytes has been stored. */
    ghost function Goal(size: nat): nat
      requires g.eff > 0
      reads `pages, `scan
    {
      Ahead(g, size, scan.data, pages)
    }

    /** The data area will end where it would have, or, if power was lost, at most one page
        behind. */
    ghost predicate Reaches(ok: bool, size: nat, before: nat)
      requires g.eff > 0
      reads `pages, `scan, bd
    {
      Goal(size) == before || (!ok && bd.power == 0 && Goal(size) <= before + g.page)
    }

    /** The checker of the block in the page buffer, and its body: checksum, tag
        and in-place encryption, or zeros behind a short plain block. */
    method SealPage(size: nat, ghost k: nat)
      requires Shape() && 0 < size <= g.eff && (layout.Encrypted? ==> iv == k)
      modifies pageBuf, this`iv
      ensures IsSealed(g.codec, k, old(pageBuf[g.codec.checker..g.codec.checker + size]), pageBuf[..])
      ensures layout.Encrypted? ==> iv == k + 1
      ensures layout.Plain? ==> pageBuf[size..] == Fill(0, g.page - size)
    {
      ghost var d := pageBuf[g.codec.checker..g.codec.checker + size];
      assert g.codec.SealsAs(layout, k, d);
      match layout
      case Plain => ZeroTail(pageBuf, size);
      case Checksummed => StoreChecksum(pageBuf, size);
      case Encrypted(a) =>
        EncryptInPlace(pageBuf, a, iv, size);
        iv := iv + 1;
    }

    /** program_to_storage for a page gathered in the page buffer. In every layout
        a call covers one page, so the loop of the source runs once. */
    method ProgramPage(size: nat, ghost payload: Bytes) returns (ok: bool, ghost after: Bytes)
      requires Shape() && Settled(payload) && (g.resume ==> Visible(g, payload))
      requires |scan.data| < |payload| && size == Chunk(g, |payload|, scan)
      requires pageBuf[g.codec.checker..g.codec.checker + size] == NextBlock(g, payload, scan)
      modifies this`storageAddr, this`fwBytesWritten, this`iv, this`pages, this`scan, pageBuf, bd
      ensures ok ==> Settled(payload) && scan.data == old(scan.data + NextBlock(g, payload, scan))
      ensures |after| == |payload|
      ensures ok || !g.resume || bd.power > 0 || Robust(g, payload) ==> after == payload
      ensures ok || g.resume || bd.power > 0 ==> Holds(g, bd.mem, after, pages) == Some(scan)
      ensures !ok ==> Stuck(payload) && (bd.power > 0 ==> |scan.data| < |payload|)
      ensures SameBelow(bd.mem, old(bd.mem), g.data) && Paid(ok, old(bd.power + End(g, pages)))
      ensures g.resume ==> Reaches(ok, |payload|, old(Goal(|payload|)))
      ensures old(scan.data) <= scan.data && |scan.data| <= old(|scan.data|) + size
    {
      hide Holds, Multiple, Splice, IsSealed, InStep, Concat, DataEnd, Ahead, Span, Codec.Lawful, Codec.Implements;
      HoldsFacts(g, bd.mem, payload, pages);
      NextPagesErased(g, bd.mem, payload, pages, 1);
      assert Span(1, g.page) == g.page;
      ghost var mem := bd.mem;
      SealPage(size, g.iv0 + scan.good);
      ghost var page := pageBuf[..];
      after := payload;
      ok := bd.Program(pageBuf[..], storageAddr);
      if storageAddr + g.page <= |bd.mem| {
        ghost var n := Min(g.page, old(bd.power));
        after, pages, scan := ProgramStep(g, mem, payload, pages, scan, page, n);
        MultipleAdd(storageAddr, g.page, bd.progSize);
      }
      if ok {
        fwBytesWritten := fwBytesWritten + size;
        storageAddr := storageAddr + g.page;
      }
    }

    /** program_to_storage for whole pages taken straight from the fragment, which
        only plain builds do. */
    method ProgramDirect(data: Bytes, ghost payload: Bytes) returns (ok: bool)
      requires Shape() && Settled(payload) && layout == Plain && !g.resume && data != []
      requires Multiple(|data|, g.page) && fwBytesWritten + |data| <= |payload|
      requires data == payload[fwBytesWritten..fwBytesWritten + |data|]
      modifies this`storageAddr, this`fwBytesWritten, this`pages, this`scan, bd
      ensures ok ==> Settled(payload) && scan.data == old(scan.data) + data
      ensures ok || bd.power > 0 ==> Holds(g, bd.mem, payload, pages) == Some(scan)
      ensures !ok ==> Stuck(payload) && (bd.power > 0 ==> |scan.data| < |payload|)
      ensures SameBelow(bd.mem, old(bd.mem), g.data) && Paid(ok, old(bd.power + End(g, pages)))
      ensures old(scan.data) <= scan.data && |scan.data| <= old(|scan.data|) + |data|
    {
      hide Holds, Multiple, InStep, Concat, DataEnd;
      HoldsFacts(g, bd.mem, payload, pages);
      ghost var mem := bd.mem;
      ghost var k := MultipleIsSpan(|data|, g.page);
      NextPagesErased(g, bd.mem, payload, pages, k);
      MultipleTrans(|data|, g.page, bd.progSize);
      ok := bd.Program(data, storageAddr);
      if ok {
        assert data[..|data|] == data;
        pages, scan := PlainRun(g, mem, payload, pages, scan, data);
        MultipleAdd(storageAddr, |data|, bd.progSize);
        fwBytesWritten := fwBytesWritten + |data|;
        storageAddr := storageAddr + |data|;
      }
    }

    /** The part of a fragment that goes into the current page, and the page when
        it is full or the last one. */
    method GatherPage(part: Bytes, last: bool, ghost payload: Bytes, ghost fed: nat)
      returns (ok: bool, ghost after: Bytes)
      requires Shape() && Fed(payload, fed) && (g.resume ==> Visible(g, payload))
      requires 0 < |part| <= g.eff - pageBufOffset && fed + |part| <= |payload|
      requires part == payload[fed..fed + |part|]
      requires fed + |part| == |payload| ==> last
      requires last ==> fed + |part| == |payload| || |part| == g.eff - pageBufOffset
      modifies this, pageBuf, bd
      ensures ok && fed + |part| < |payload| ==> Fed(payload, fed + |part|)
      ensures ok && fed + |part| == |payload| ==> Complete(payload)
      ensures |after| == |payload|
      ensures ok || !g.resume || bd.power > 0 || Robust(g, payload) ==> after == payload
      ensures ok || g.resume || bd.power > 0 ==> Holds(g, bd.mem, after, pages) == Some(scan)
      ensures !ok ==> Stuck(payload) && (bd.power > 0 ==> |scan.data| < |payload|)
      ensures SameBelow(bd.mem, old(bd.mem), g.data) && Paid(ok, old(bd.power + End(g, pages)))
      ensures g.resume ==> Reaches(ok, |payload|, old(Goal(|payload|)))
      ensures old(scan.data) <= scan.data && |scan.data| <= fed + |part|
    {
      hide Holds, Multiple, Robust, Visible, SameBelow, Roomy, DataEnd, Codec.Lawful, Codec.Implements, Goal, Concat;
      var progSize := pageBufOffset + |part|;
      AppendToBuffer(part, payload, fed);
      pageBufOffset := if progSize == g.eff then 0 else progSize;
      ok, after := true, payload;
      if progSize >= g.eff || last {
        ok, after := FlushPage(progSize, payload);
      }
    }

    /** The page buffer holds the payload from the last stored block up to `upto`. */
    ghost predicate Held(payload: Bytes, upto: nat)
      requires Shape()
      reads this, bd`mem, pageBuf
    {
      && Settled(payload)
      && fwBytesWritten < upto <= |payload| && upto - fwBytesWritten <= g.eff
      && pageBuf[g.codec.checker..g.codec.checker + (upto - fwBytesWritten)] == payload[fwBytesWritten..upto]
    }

    method AppendToBuffer(part: Bytes, ghost payload: Bytes, ghost fed: nat)
      requires Shape() && Fed(payload, fed)
      requires 0 < |part| <= g.eff - pageBufOffset && fed + |part| <= |payload|
      requires part == payload[fed..fed + |part|]
      modifies pageBuf
      ensures Held(payload, fed + |part|) && SameBelow(bd.mem, bd.mem, g.data)
    {
      hide Holds, Multiple;
      HoldsFacts(g, bd.mem, payload, pages);
      AppendAt(pageBuf, g.codec.checker, pageBufOffset, part);
      SliceJoin(payload, fwBytesWritten, fed, fed + |part|);
    }

    method FlushPage(size: nat, ghost payload: Bytes) returns (ok: bool, ghost after: Bytes)
      requires Shape() && Held(payload, fwBytesWritten + size) && (g.resume ==> Visible(g, payload))
      requires size == g.eff || fwBytesWritten + size == |payload|
      modifies this`storageAddr, this`fwBytesWritten, this`iv, this`pages, this`scan, pageBuf, bd
      ensures ok ==> Settled(payload) && fwBytesWritten == old(fwBytesWritten) + size
      ensures ok && fwBytesWritten == |payload| ==> scan.data == payload
      ensures |after| == |payload|
      ensures ok || !g.resume || bd.power > 0 || Robust(g, payload) ==> after == payload
      ensures ok || g.resume || bd.power > 0 ==> Holds(g, bd.mem, after, pages) == Some(scan)
      ensures !ok ==> Stuck(payload) && (bd.power > 0 ==> |scan.data| < |payload|)
      ensures SameBelow(bd.mem, old(bd.mem), g.data) && Paid(ok, old(bd.power + End(g, pages)))
      ensures g.resume ==> Reaches(ok, |payload|, old(Goal(|payload|)))
      ensures old(scan.data) <= scan.data && |scan.data| <= old(fwBytesWritten) + size
    {
      hide Holds, Multiple, Robust, Visible, SameBelow;
      HoldsFacts(g, bd.mem, payload, pages);
      ok, after := ProgramPage(size, payload);
      if ok {
        HoldsFacts(g, bd.mem, payload, pages);
      }
    }

    /** One round of handle_fw_fragment: into the page buffer, or straight from
        the fragment when that is page-aligned and the layout is plain. */
    method TakePart(rest: Bytes, last: bool, ghost payload: Bytes, ghost fed: nat)
      returns (ok: bool, n: nat, ghost after: Bytes)
      requires Shape() && Fed(payload, fed) && (g.resume ==> Visible(g, payload))
      requires layout.Plain? ==> !g.resume
      requires 0 < |rest| <= |payload| - fed && rest == payload[fed..fed + |rest|]
      requires last <==> fed + |rest| == |payload|
      modifies this, pageBuf, bd
      ensures 0 < n <= |rest|
      ensures ok && fed + n < |payload| ==> Fed(payload, fed + n)
      ensures ok && fed + n == |payload| ==> Complete(payload)
      ensures |after| == |payload|
      ensures ok || !g.resume || bd.power > 0 || Robust(g, payload) ==> after == payload
      ensures ok || g.resume || bd.power > 0 ==> Holds(g, bd.mem, after, pages) == Some(scan)
      ensures !ok ==> Stuck(payload) && (bd.power > 0 ==> |scan.data| < |payload|)
      ensures SameBelow(bd.mem, old(bd.mem), g.data) && Paid(ok, old(bd.power + End(g, pages)))
      ensures g.resume ==> Reaches(ok, |payload|, old(Goal(|payload|)))
      ensures old(scan.data) <= scan.data && |scan.data| <= fed + n
    {
      hide Holds, Multiple, Robust, Visible, Shape, Fed, Complete, SameBelow, Goal;
      FedFacts(payload, fed);
      if g.eff < g.page || pageBufOffset > 0 || |rest| < g.eff {
        n := Min(g.eff - pageBufOffset, |rest|);
        SliceOfSlice(payload, fed, fed + |rest|, 0, n);
        ok, after := GatherPage(rest[..n], last, payload, fed);
      } else {
        n := WholePages(|rest|);
        SliceOfSlice(payload, fed, fed + |rest|, 0, n);
        ok := DirectPages(rest[..n], payload, fed);
        after := payload;
      }
    }

    /** handle_fw_fragment. Whatever the sizes of the fragments, the stored blocks
        are the payload handed over so far, rounded down to whole blocks until the
        last fragment; and in resume builds a failing device leaves a data area the
        scan can make sense of, if not always as a prefix of this payload. */
    method HandleFragment(frag: Bytes, last: bool, ghost payload: Bytes, ghost fed: nat)
      returns (ok: bool, ghost after: Bytes)
      requires Shape() && Fed(payload, fed) && (g.resume ==> Visible(g, payload))
      requires layout.Plain? ==> !g.resume
      requires |frag| <= |payload| - fed && frag == payload[fed..fed + |frag|]
      requires last <==> fed + |frag| == |payload|
      modifies this, pageBuf, bd
      ensures ok && !last ==> Fed(payload, fed + |frag|)
      ensures ok && last ==> Complete(payload)
      ensures |after| == |payload|
      ensures ok || !g.resume || bd.power > 0 || Robust(g, payload) ==> after == payload
      ensures ok || g.resume || bd.power > 0 ==> Holds(g, bd.mem, after, pages) == Some(scan)
      ensures !ok ==> Stuck(payload) && (bd.power > 0 ==> |scan.data| < |payload|)
      ensures SameBelow(bd.mem, old(bd.mem), g.data) && Paid(ok, old(bd.power + End(g, pages)))
      ensures g.resume ==> Reaches(ok, |payload|, old(Goal(|payload|)))
      ensures old(scan.data) <= scan.data && |scan.data| <= fed + |frag|
    {
      hide Holds, Multiple, Robust, Visible, Shape, Fed, Complete, SameBelow;
      FedFacts(payload, fed);
      var done := 0;
      while done < |frag|
        invariant done <= |frag|
        invariant fed + done < |payload| ==> Fed(payload, fed + done)
        invariant fed + done == |payload| ==> Complete(payload)
        invariant Holds(g, bd.mem, payload, pages) == Some(scan)
        invariant SameBelow(bd.mem, old(bd.mem), g.data) && Paid(true, old(bd.power + End(g, pages)))
        invariant g.resume ==> Reaches(true, |payload|, old(Goal(|payload|)))
        invariant old(scan.data) <= scan.data && |scan.data| <= fed + done
      {
        SliceOfSlice(payload, fed, fed + |frag|, done, |frag|);
        var n;
        ghost var mem := bd.mem;
        ok, n, after := TakePart(frag[done..], last, payload, fed + done);
        SameBelowTrans(bd.mem, mem, old(bd.mem), g.data);
        if !ok { return; }
        done := done + n;
      }
      ok, after := true, payload;
    }

    method DirectPages(part: Bytes, ghost payload: Bytes, ghost fed: nat) returns (ok: bool)
      requires Shape() && Fed(payload, fed) && layout == Plain && !g.resume && pageBufOffset == 0
      requires 0 < |part| && Multiple(|part|, g.page) && fed + |part| <= |payload|
      requires part == payload[fed..fed + |part|]
      modifies this, bd
      ensures ok && fed + |part| < |payload| ==> Fed(payload, fed + |part|)
      ensures ok && fed + |part| == |payload| ==> Complete(payload)
      ensures ok || bd.power > 0 ==> Holds(g, bd.mem, payload, pages) == Some(scan)
      ensures !ok ==> Stuck(payload) && (bd.power > 0 ==> |scan.data| < |payload|)
      ensures SameBelow(bd.mem, old(bd.mem), g.data) && Paid(ok, old(bd.power + End(g, pages)))
      ensures old(scan.data) <= scan.data && |scan.data| <= fed + |part|
    {
      hide Holds, Multiple, Concat, Splice;
      ok := ProgramDirect(part, payload);
      if ok {
        HoldsFacts(g, bd.mem, payload, pages);
      }
    }

    method WholePages(size: nat) returns (chunk: nat)
      requires Shape() && g.eff == g.page && g.eff <= size
      ensures 0 < chunk <= size && Multiple(chunk, g.page)
    {
      chunk := AlignDown(size, g.eff);
      var q := size / g.eff;
      assert size == g.eff * q + size % g.eff;
      MulLe(1, q, g.eff);
      MultipleMod(q, g.eff);
      MultipleIsMod(chunk, g.page);
    }
  }
}
