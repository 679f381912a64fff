/** Picking a download up after a power cut: the scan of the candidate storage
    (fota.c, check_if_blank and analyze_resume_state). */
module Resume {
  import opened Bytes
  import opened BlockLayout
  import opened CandidateFormat
  import opened BlockDevice

  /** FOTA_CANDIDATE_READY_MAGIC as it lies in storage. */
  const READY_MAGIC: Bytes := [0x01, 0x4e, 0xd5, 0xfe]

  /** The candidate storage: the region reserved for the candidate ready header
      (a structure of `struct` bytes, its magic first and last), the firmware
      header in its programmed form, and the data area. */
  datatype Area = Area(start: nat, ready: nat, struct: nat, header: Bytes, g: Geometry)
  {
    ghost predicate Valid() {
      && g.Valid() && g.resume
      && 8 <= struct <= ready && 0 < |header|
      && g.data == start + ready + |header|
    }

    /** What the storage in front of the data area says about a download. */
    function Headers(mem: Bytes): Headers
      requires 8 <= struct <= ready && start + ready < g.data
    {
      if start + ready > |mem| then Unusable
      else if !IsBlank(mem[start..start + ready], g.erased) then
        if IsReady(mem[start..start + ready], struct) then Complete else Unusable
      else if g.data > |mem| || mem[g.data - 1] == g.erased then Unusable
      else Started
    }
  }

  /** Nothing to go on with, a complete candidate, or a download under way. */
  datatype Headers = Unusable | Complete | Started

  predicate IsReady(region: Bytes, struct: nat)
    requires 8 <= struct <= |region|
  {
    region[..4] == READY_MAGIC && region[struct - 4..struct] == READY_MAGIC
  }

  lemma BlocksNext(rest: nat, eff: nat)
    requires eff > 0
    ensures Blocks(rest, eff) == 0 <==> rest == 0
    ensures rest > 0 ==> Blocks(rest, eff) == 1 + Blocks(rest - Min(rest, eff), eff)
  {}

  lemma {:induction false} BlocksIsCeiling(rest: nat, eff: nat)
    requires eff > 0
    ensures Blocks(rest, eff) == AlignUp(rest, eff) / eff
  {
    if rest > eff {
      BlocksIsCeiling(rest - eff, eff);
      CeilingStep(rest - eff, eff);
    } else if rest > 0 {
      assert Blocks(rest - rest, eff) == 0;
      MultipleMod(1, eff);
      AlignUpUnique(rest, eff, 1 * eff);
    } else {
      MultipleMod(0, eff);
    }
  }

  lemma CeilingStep(rest: nat, eff: nat)
    requires rest > 0 && eff > 0
    ensures AlignUp(rest + eff, eff) / eff == AlignUp(rest, eff) / eff + 1
  {
    AlignUpIsLeast(rest, eff);
    var q := AlignUp(rest, eff) / eff;
    assert (q + 1) * eff == AlignUp(rest, eff) + eff;
    MultipleMod(q + 1, eff);
    AlignUpUnique(rest + eff, eff, (q + 1) * eff);
  }

  // ---- What a scan from the start of the data area has seen ------------------

  /** `pages` lie at the start of the data area and none of them looks erased. */
  predicate Walks(g: Geometry, mem: Bytes, pages: seq<Bytes>) {
    && Pages(g, pages)
    && (forall j :: 0 <= j < |pages| ==> !IsBlank(pages[j], g.erased))
    && End(g, pages) <= |mem|
    && mem[g.data..End(g, pages)] == Concat(pages)
  }

  function Traced(g: Geometry, mem: Bytes, size: nat, pages: seq<Bytes>): Option<Scan> {
    if Walks(g, mem, pages) then Some(After(g, size, pages)) else None
  }

  /** One more page. */
  lemma TracedSnoc(g: Geometry, mem: Bytes, size: nat, pages: seq<Bytes>, page: Bytes)
    requires Traced(g, mem, size, pages).Some? && g.Valid()
    requires |page| == g.page && End(g, pages) + g.page <= |mem| && !IsBlank(page, g.erased)
    requires page == mem[End(g, pages)..End(g, pages) + g.page]
    ensures Traced(g, mem, size, pages + [page])
         == Some(StepPage(g, size, Traced(g, mem, size, pages).value, page))
    ensures End(g, pages + [page]) == End(g, pages) + g.page
  {
    hide After, StepPage, IsBlank, Concat, Codec.Lawful;
    AfterSnoc(g, size, pages, page);
    WalksSnoc(g, mem, pages, page);
  }

  lemma WalksSnoc(g: Geometry, mem: Bytes, pages: seq<Bytes>, page: Bytes)
    requires Walks(g, mem, pages)
    requires |page| == g.page && End(g, pages) + g.page <= |mem| && !IsBlank(page, g.erased)
    requires page == mem[End(g, pages)..End(g, pages) + g.page]
    ensures Walks(g, mem, pages + [page]) && End(g, pages + [page]) == End(g, pages) + g.page
  {
    hide IsBlank, Concat;
    ConcatSnoc(pages, page);
    SliceJoin(mem, g.data, End(g, pages), End(g, pages) + g.page);
  }

  lemma PartInMem(mem: Bytes, base: nat, end: nat, whole: Bytes, o: nat, part: Bytes, a: nat, n: nat)
    requires base <= end <= |mem| && mem[base..end] == whole
    requires o + n <= |whole| && whole[o..o + n] == part && a == base + o
    ensures a + n <= |mem| && mem[a..a + n] == part
  {
    SliceOfSlice(mem, base, end, o, o + n);
  }

  lemma PageInMem(g: Geometry, mem: Bytes, pages: seq<Bytes>, j: nat)
    requires Pages(g, pages) && End(g, pages) <= |mem| && mem[g.data..End(g, pages)] == Concat(pages)
    requires j < |pages|
    ensures var a := End(g, pages[..j]); a + g.page <= |mem| && mem[a..a + g.page] == pages[j]
  {
    hide Concat, Pages;
    PageInConcat(g, pages, j);
    PageOffset(g, mem, pages, j, |Concat(pages[..j])|, End(g, pages[..j]));
  }

  lemma PageOffset(g: Geometry, mem: Bytes, pages: seq<Bytes>, j: nat, o: nat, a: nat)
    requires End(g, pages) <= |mem| && mem[g.data..End(g, pages)] == Concat(pages) && j < |pages|
    requires o + g.page <= |Concat(pages)| && Concat(pages)[o..o + g.page] == pages[j] && a == g.data + o
    ensures a + g.page <= |mem| && mem[a..a + g.page] == pages[j]
  {
    hide Concat;
    PartInMem(mem, g.data, End(g, pages), Concat(pages), o, pages[j], a, g.page);
  }

  lemma PageInConcat(g: Geometry, pages: seq<Bytes>, j: nat)
    requires Pages(g, pages) && j < |pages|
    ensures var o := |Concat(pages[..j])|;
            o + g.page <= |Concat(pages)| && Concat(pages)[o..o + g.page] == pages[j]
  {
    hide Concat;
    ConcatAt(pages, j);
  }

  /** Two scans of the same storage see the same pages. */
  lemma {:induction false} SamePages(g: Geometry, mem: Bytes, p: seq<Bytes>, q: seq<Bytes>, j: nat)
    requires Pages(g, p) && End(g, p) <= |mem| && mem[g.data..End(g, p)] == Concat(p)
    requires Pages(g, q) && End(g, q) <= |mem| && mem[g.data..End(g, q)] == Concat(q)
    requires j <= |p| && j <= |q|
    ensures p[..j] == q[..j]
  {
    if j > 0 {
      SamePages(g, mem, p, q, j - 1);
      PageInMem(g, mem, p, j - 1);
      PageInMem(g, mem, q, j - 1);
      assert p[..j] == p[..j - 1] + [p[j - 1]];
      assert q[..j] == q[..j - 1] + [q[j - 1]];
    }
  }

  /** A scan that stops at an erased page has seen exactly the stored pages. */
  lemma StopsBehindStored(g: Geometry, mem: Bytes, payload: Bytes, p: seq<Bytes>, q: seq<Bytes>)
    requires Holds(g, mem, payload, p).Some? && g.resume && Traced(g, mem, |payload|, q).Some?
    requires End(g, q) + g.page <= |mem| && IsBlank(mem[End(g, q)..End(g, q) + g.page], g.erased)
    ensures p == q
  {
    if |q| < |p| {
      SamePages(g, mem, p, q, |q|);
      assert q[..|q|] == q;
      PageInMem(g, mem, p, |q|);
    } else if |p| < |q| {
      SamePages(g, mem, p, q, |p|);
      assert p[..|p|] == p;
      PageInMem(g, mem, q, |p|);
    } else {
      SamePages(g, mem, p, q, |p|);
      assert p[..|p|] == p && q[..|q|] == q;
    }
  }

  lemma {:induction false} AfterGrows(g: Geometry, size: nat, pages: seq<Bytes>, j: nat)
    requires Pages(g, pages) && j <= |pages|
    ensures Pages(g, pages[..j]) && After(g, size, pages[..j]).data <= After(g, size, pages).data
  {
    if j == |pages| {
      assert pages[..j] == pages;
    } else {
      var front := pages[..|pages| - 1];
      AfterGrows(g, size, front, j);
      assert front[..j] == pages[..j];
    }
  }

  // ---- When a power cut can be resumed from ---------------------------------------

  /** After stopping the program of `page` at byte `t`, the data area is still one the scan
      can make sense of. */
  ghost predicate CutKept(g: Geometry, mem: Bytes, payload: Bytes, pages: seq<Bytes>, page: Bytes, t: nat)
    requires t <= |page| && End(g, pages) + |page| <= |mem|
  {
    exists pages' :: Holds(g, Splice(mem, End(g, pages), page[..t]), payload, pages').Some?
  }

  /** Every power cut in the program of the next block of every payload is survived. */
  ghost predicate SurvivesCuts(g: Geometry) {
    forall mem: Bytes, payload: Bytes, pages: seq<Bytes>, page: Bytes, t: nat ::
      Holds(g, mem, payload, pages).Some? && SealedNext(g, payload, Holds(g, mem, payload, pages).value, page)
      && t <= |page| && End(g, pages) + |page| <= |mem| ==>
        CutKept(g, mem, payload, pages, page, t)
  }

  /** 256 zero bytes whose page was stopped after its first byte: no list of pages fits. */
  lemma TornZerosLost(g: Geometry, mem: Bytes, page: Bytes, pages: seq<Bytes>)
    requires g.Valid() && g.resume && g.codec == CodecOf(Checksummed) && g.erased == 255 && g.eff > 255
    requires g.data + g.page <= |mem| && |page| == g.page && page[0] == 0
    requires mem[g.data..g.data + g.page] == Torn(page, 1, 255)
    ensures Holds(g, mem, Fill(0, 256), pages).None?
  {
    hide Used, After, Concat, Codec.Lawful, TornOnly;
    var payload, q := Fill(0, 256), Torn(page, 1, 255);
    assert !(Fill(255, 256) <= payload) by { assert Fill(255, 256)[0] != payload[0]; }
    if Stored(g, mem, payload, pages) {
      assert mem[g.data] == mem[g.data..g.data + g.page][0] == 0;
      FirstPage(g, mem, pages);
      PassesAs(g, page);
      assert pages[..1] == [q];
      AfterOne(g, 256, q);
      AfterGrows(g, 256, pages, 1);
    }
  }

  lemma AfterOne(g: Geometry, size: nat, page: Bytes)
    requires Pages(g, [page])
    ensures Pages(g, []) && After(g, size, [page]) == StepPage(g, size, START, page)
  {
    assert [page][..0] == [];
  }

  lemma PassesAs(g: Geometry, page: Bytes)
    requires g.Valid() && g.codec == CodecOf(Checksummed) && |page| == g.page && g.eff > 255 && page[0] == 0
    ensures OpenNext(g, 256, START, Torn(page, 1, 255)) == Some(Fill(255, 256))
  {
    var q, e := Torn(page, 1, 255), Fill(255, 256);
    SumFill(255, 256);
    assert q[..2] == [0, 255] == Le16(Checksum(e)) && q[2..2 + 256] == e;
  }

  /** A data area that does not start with an erased byte has a first page. */
  lemma FirstPage(g: Geometry, mem: Bytes, pages: seq<Bytes>)
    requires g.Valid() && Pages(g, pages) && Used(g, mem, pages)
    requires g.data + g.page <= |mem| && g.data < g.limit && mem[g.data] != g.erased
    ensures pages != [] && pages[0] == mem[g.data..g.data + g.page]
  {
    if pages != [] {
      PageInMem(g, mem, pages, 0);
      assert pages[..0] == [];
    }
  }

  /** Behind checksums on 0xFF-erased storage, a download can be resumed after every power
      cut if and only if a page holds at most 255 payload bytes. */
  lemma ResumeExactly(g: Geometry)
    requires g.Valid() && g.resume && g.codec == CodecOf(Checksummed) && g.erased == 255
    requires g.data + g.page <= g.limit
    ensures SurvivesCuts(g) <==> g.eff <= 255
  {
    if g.eff <= 255 {
      forall mem: Bytes, payload: Bytes, pages: seq<Bytes>, page: Bytes, t: nat |
        && Holds(g, mem, payload, pages).Some?
        && SealedNext(g, payload, Holds(g, mem, payload, pages).value, page)
        && t <= |page| && End(g, pages) + |page| <= |mem|
        ensures CutKept(g, mem, payload, pages, page, t)
      {
        hide Stored, After, SealedNext, Robust;
        ShortBlocksAreRobust(g, payload);
        var p, pages' := StoredAfterProgram(g, mem, payload, pages, page, t);
        assert Holds(g, Splice(mem, End(g, pages), page[..t]), payload, pages').Some?;
      }
    } else {
      ZerosNotSurvived(g);
    }
  }

  lemma ZerosNotSurvived(g: Geometry)
    requires g.Valid() && g.resume && g.codec == CodecOf(Checksummed) && g.erased == 255 && g.eff > 255
    requires g.data + g.page <= g.limit
    ensures !SurvivesCuts(g)
  {
    var payload, mem := Fill(0, 256), Fill(255, g.data + g.page);
    var page := ZerosPage(g);
    EmptyHolds(g, mem, payload);
    TornSplice(g, mem, g.data, page, 1);
    var mem' := Splice(mem, g.data, page[..1]);
    assert mem'[g.data..g.data + g.page] == Torn(page, 1, 255);
    forall pages'
      ensures Holds(g, mem', payload, pages').None?
    {
      TornZerosLost(g, mem', page, pages');
    }
    assert !CutKept(g, mem, payload, [], page, 1);
  }

  /** A scan that has seen as many bytes as the payload has, has seen the payload. */
  lemma CompleteIsPayload(g: Geometry, mem: Bytes, payload: Bytes, p: seq<Bytes>, q: seq<Bytes>)
    requires Holds(g, mem, payload, p).Some? && g.resume && Traced(g, mem, |payload|, q).Some?
    requires |Traced(g, mem, |payload|, q).value.data| == |payload|
    ensures Traced(g, mem, |payload|, q).value.data == payload
  {
    if |q| <= |p| {
      SamePages(g, mem, p, q, |q|);
      assert q[..|q|] == q;
      AfterGrows(g, |payload|, p, |q|);
    } else {
      SamePages(g, mem, p, q, |p|);
      assert p[..|p|] == p;
      PageInMem(g, mem, q, |p|);
    }
  }

  /** The bytes taken up by `used` pages and the pages for the `left` bytes to come. */
  function Needs(g: Geometry, left: nat, used: nat): nat
    requires g.eff > 0
  {
    Span(Blocks(left, g.eff) + used, g.page)
  }

  /** Behind `pages` there is no room for what is left: all pages together take up more than
      `available` bytes, or the next page lies outside. */
  predicate GivesUp(g: Geometry, mem: Bytes, size: nat, available: nat, pages: seq<Bytes>) {
    match Traced(g, mem, size, pages)
    case None => false
    case Some(s) =>
      && g.eff > 0 && |s.data| < size
      && (Needs(g, size - |s.data|, |pages|) > available || End(g, pages) + g.page > |mem|)
  }

  /** Counting in pages, as the scan does, is counting in bytes. */
  lemma PagesFit(k: nat, available: nat, page: nat)
    requires page > 0
    ensures Span(k, page) <= available <==> k <= available / page
  {
    hide Span;
    var q, r := available / page, available % page;
    assert available == q * page + r by { assert available == page * q + r; }
    if k <= q {
      MulLe(k, q, page);
    } else {
      MulLe(q + 1, k, page);
      assert (q + 1) * page == q * page + page;
    }
  }

  lemma NeedsFit(g: Geometry, left: nat, used: nat, available: nat)
    requires g.eff > 0 && g.page > 0
    ensures Needs(g, left, used) <= available <==> Blocks(left, g.eff) + used <= available / g.page
  {
    PagesFit(Blocks(left, g.eff) + used, available, g.page);
  }

  lemma {:induction false} AfterBounded(g: Geometry, size: nat, pages: seq<Bytes>)
    requires g.Valid() && Pages(g, pages)
    ensures |After(g, size, pages).data| <= size
  {
    hide Blocks, StepPage;
    if pages != [] {
      var front := pages[..|pages| - 1];
      AfterBounded(g, size, front);
      StepLeft(g, size, After(g, size, front), pages[|pages| - 1]);
    }
  }

  /** Every page uses up one page and stores at most one of the blocks left. */
  lemma {:induction false} BlocksLeft(g: Geometry, size: nat, pages: seq<Bytes>, j: nat)
    requires g.Valid() && Pages(g, pages) && j <= |pages|
    ensures var s, t := After(g, size, pages[..j]), After(g, size, pages);
            && |s.data| <= size && |t.data| <= size
            && Blocks(size - |s.data|, g.eff) + j <= Blocks(size - |t.data|, g.eff) + |pages|
  {
    hide Blocks, StepPage;
    AfterBounded(g, size, pages);
    AfterBounded(g, size, pages[..j]);
    if j == |pages| {
      assert pages[..j] == pages;
    } else {
      var front := pages[..|pages| - 1];
      BlocksLeft(g, size, front, j);
      assert front[..j] == pages[..j];
      StepLeft(g, size, After(g, size, front), pages[|pages| - 1]);
    }
  }

  lemma StepLeft(g: Geometry, size: nat, s: Scan, page: Bytes)
    requires g.Valid() && |page| == g.page && |s.data| <= size
    ensures var t := StepPage(g, size, s, page);
            |t.data| <= size && Blocks(size - |s.data|, g.eff) <= Blocks(size - |t.data|, g.eff) + 1
  {
    if OpenNext(g, size, s, page).Some? {
      OpenNextLength(g, size, s, page);
    }
  }

  /** The pages a scan walks over are among the stored ones. */
  lemma WalksStored(g: Geometry, mem: Bytes, payload: Bytes, p: seq<Bytes>, q: seq<Bytes>)
    requires Holds(g, mem, payload, p).Some? && g.resume && Traced(g, mem, |payload|, q).Some?
    ensures |q| <= |p| && q == p[..|q|]
  {
    if |p| < |q| {
      SamePages(g, mem, p, q, |p|);
      assert p[..|p|] == p;
      PageInMem(g, mem, q, |p|);
    } else {
      SamePages(g, mem, p, q, |q|);
      assert q[..|q|] == q;
    }
  }

  /** There is room for all of the payload: the stored pages and those for what is missing
      are no more than `available` bytes, and if something is missing, the next page is on
      the device. */
  predicate RoomFor(g: Geometry, mem: Bytes, size: nat, available: nat, data: Bytes, pages: seq<Bytes>) {
    && g.eff > 0 && |data| <= size && Needs(g, size - |data|, |pages|) <= available
    && (|data| < size ==> End(g, pages) + g.page <= |mem|)
  }

  /** With room for what is missing, the scan does not give up. */
  lemma RoomIsEnough(g: Geometry, mem: Bytes, payload: Bytes, p: seq<Bytes>, available: nat, q: seq<Bytes>)
    requires Holds(g, mem, payload, p).Some? && g.resume
    requires RoomFor(g, mem, |payload|, available, Holds(g, mem, payload, p).value.data, p)
    ensures !GivesUp(g, mem, |payload|, available, q)
  {
    hide Holds, Traced, Concat, Blocks, After;
    HoldsFacts(g, mem, payload, p);
    if GivesUp(g, mem, |payload|, available, q) {
      WalksStored(g, mem, payload, p, q);
      RoomFacts(g, mem, payload, p, q);
    }
  }

  lemma RoomFacts(g: Geometry, mem: Bytes, payload: Bytes, p: seq<Bytes>, q: seq<Bytes>)
    requires Holds(g, mem, payload, p).Some? && Traced(g, mem, |payload|, q).Some?
    requires |q| <= |p| && q == p[..|q|]
    ensures var s, t := Traced(g, mem, |payload|, q).value, Holds(g, mem, payload, p).value;
            && |s.data| <= |payload| && |t.data| <= |payload|
            && Needs(g, |payload| - |s.data|, |q|) <= Needs(g, |payload| - |t.data|, |p|)
            && (q == p ==> s == t)
    ensures q != p ==> End(g, q) + g.page <= |mem|
  {
    hide Concat, Blocks, After;
    BlocksLeft(g, |payload|, p, |q|);
    var s, t := Traced(g, mem, |payload|, q).value, Holds(g, mem, payload, p).value;
    SpanMono(Blocks(|payload| - |s.data|, g.eff) + |q|, Blocks(|payload| - |t.data|, g.eff) + |p|, g.page);
    if |q| < |p| {
      PageInMem(g, mem, p, |q|);
    } else {
      assert q == p;
    }
  }

  /** A download with something missing cannot be gone on with if and only if it lacks room. */
  lemma RoomExactly(g: Geometry, mem: Bytes, payload: Bytes, p: seq<Bytes>, available: nat)
    requires Holds(g, mem, payload, p).Some? && g.resume && |Holds(g, mem, payload, p).value.data| < |payload|
    ensures (exists q :: GivesUp(g, mem, |payload|, available, q))
        <==> !RoomFor(g, mem, |payload|, available, Holds(g, mem, payload, p).value.data, p)
  {
    hide Concat, Blocks, After, Needs, TornOnly;
    HoldsFacts(g, mem, payload, p);
    if RoomFor(g, mem, |payload|, available, Holds(g, mem, payload, p).value.data, p) {
      forall q
        ensures !GivesUp(g, mem, |payload|, available, q)
      {
        RoomIsEnough(g, mem, payload, p, available, q);
      }
    } else {
      assert GivesUp(g, mem, |payload|, available, p);
    }
  }

  // ---- The scan -----------------------------------------------------------------

  datatype Found = NoResume | ReadyFound | Downloading | AllWritten

  /** check_if_blank: the offset behind the last byte that is not erased. */
  method BlankOffset(page: Bytes, erased: byte) returns (o: nat)
    ensures o <= |page| && (forall i :: o <= i < |page| ==> page[i] == erased)
    ensures o > 0 ==> page[o - 1] != erased
    ensures o == 0 <==> IsBlank(page, erased)
  {
    o := |page|;
    while o > 0
      invariant o <= |page| && forall i :: o <= i < |page| ==> page[i] == erased
    {
      if page[o - 1] != erased {
        return;
      }
      o := o - 1;
    }
  }

  /** Opening by the layout is opening by the codec. */
  lemma OpenBlockIsNext(g: Geometry, layout: Layout, iv: nat, size: nat, s: Scan, page: Bytes)
    requires g.Valid() && g.codec.Implements(layout) && |page| == g.page && |s.data| < size
    requires layout.Encrypted? ==> iv == g.iv0 + s.good
    ensures var chunk := Min(size - |s.data|, g.eff);
            var o := Open(layout, iv, page[..g.codec.checker], page[g.codec.checker..g.codec.checker + chunk]);
            && o == OpenNext(g, size, s, page)
            && (o.Some? ==> |o.value| == chunk && StepPage(g, size, s, page) == Scan(s.good + 1, s.data + o.value))
            && (o.None? ==> StepPage(g, size, s, page) == s)
  {
    var chunk := Min(size - |s.data|, g.eff);
    var checker, body := page[..g.codec.checker], page[g.codec.checker..g.codec.checker + chunk];
    assert g.codec.ReadsAs(layout, g.iv0 + s.good, checker, body);
    assert g.codec.KeepsLength(g.iv0 + s.good, checker, body);
  }

  /** The part of fota_ctx that the resume scan sets. */
  class Context {
    const area: Area
    const layout: Layout
    const bd: Device
    const size: nat        // payload size
    const available: nat   // storage_available
    var storageAddr: nat
    var payloadOffset: nat
    var fwBytesWritten: nat
    var iv: nat
    var hashed: Bytes      // what payload_hash_ctx has taken in
    ghost var pages: seq<Bytes>
    ghost var scan: Scan

    ghost predicate Shape() {
      && area.Valid() && area.g.codec.Implements(layout)
      && area.g.erased == bd.erased && bd.readSize > 0
      && Multiple(area.start, bd.readSize) && Multiple(area.ready, bd.readSize)
      && Multiple(|area.header|, bd.readSize) && Multiple(area.g.page, bd.readSize)
    }

    /** The context of a download that starts from scratch. */
    ghost predicate Fresh()
      reads this
    {
      && storageAddr == area.g.data && payloadOffset == fwBytesWritten == 0
      && hashed == [] && iv == area.g.iv0
    }

    /** Position, byte counts, hash and initialisation vector are those of the
        pages the scan has walked over. */
    ghost predicate Tracks()
      reads this, bd
    {
      && bd.readSize > 0 && Traced(area.g, bd.mem, size, pages) == Some(scan)
      && storageAddr == End(area.g, pages) && Multiple(storageAddr, bd.readSize)
      && payloadOffset == fwBytesWritten == |scan.data| <= size
      && hashed == scan.data
      && (layout.Encrypted? ==> iv == area.g.iv0 + scan.good)
    }

    constructor (area: Area, layout: Layout, bd: Device, size: nat, available: nat)
      requires area.Valid() && area.g.codec.Implements(layout)
      requires area.g.erased == bd.erased && bd.readSize > 0
      requires Multiple(area.start, bd.readSize) && Multiple(area.ready, bd.readSize)
      requires Multiple(|area.header|, bd.readSize) && Multiple(area.g.page, bd.readSize)
      ensures this.area == area && this.layout == layout && this.bd == bd
      ensures this.size == size && this.available == available
      ensures Shape() && Fresh()
    {
      this.area, this.layout, this.bd, this.size, this.available := area, layout, bd, size, available;
      this.storageAddr, this.payloadOffset, this.fwBytesWritten := area.g.data, 0, 0;
      this.iv, this.hashed := area.g.iv0, [];
      this.pages, this.scan := [], START;
    }

    /** The no_resume exit. */
    method Restart()
      modifies this
      ensures Fresh()
    {
      storageAddr, payloadOffset, fwBytesWritten := area.g.data, 0, 0;
      iv, hashed := area.g.iv0, [];
      pages, scan := [], START;
    }

    /** The candidate ready header and the firmware header. */
    method CheckHeaders() returns (h: Headers)
      requires Shape()
      ensures h == area.Headers(bd.mem)
    {
      var g := area.g;
      var ok, region := bd.Read(area.start, area.ready);
      if !ok {
        return Unusable;
      }
      var o := BlankOffset(region, g.erased);
      if o > 0 {
        return if IsReady(region, area.struct) then Complete else Unusable;
      }
      MultipleAdd(area.start, area.ready, bd.readSize);
      var header;
      ok, header := bd.Read(area.start + area.ready, |area.header|);
      if !ok {
        return Unusable;
      }
      o := BlankOffset(header, g.erased);
      assert header[|header| - 1] == bd.mem[g.data - 1];
      return if o < |area.header| then Unusable else Started;
    }

    /** The loop over the data area. It stops at an erased page or behind the last
        block, if what is left fits; it gives up where that does not. */
    method ScanData() returns (found: Found, ghost walked: seq<Bytes>)
      requires Shape() && Fresh() && area.g.data <= |bd.mem|
      modifies this
      ensures found != ReadyFound
      ensures found == NoResume ==> Fresh() && GivesUp(area.g, bd.mem, size, available, walked)
      ensures found != NoResume ==> Tracks() && Needs(area.g, size - payloadOffset, |pages|) <= available
      ensures found == AllWritten ==> payloadOffset == size
      ensures found == Downloading ==>
                && payloadOffset < size && storageAddr + area.g.page <= |bd.mem|
                && IsBlank(bd.mem[storageAddr..storageAddr + area.g.page], area.g.erased)
    {
      hide Traced, Multiple, IsBlank, Blocks, Codec.Lawful, Codec.Implements, Span, Area.Headers, Concat, Needs;
      StartTraced();
      var left := Blocks(size, area.g.eff);
      var avail: nat := available / area.g.page;
      ghost var all := avail;
      while left > 0
        invariant Tracks() && left == Blocks(size - payloadOffset, area.g.eff)
        invariant avail + |pages| == all == available / area.g.page
        decreases avail
      {
        BlocksNext(size - payloadOffset, area.g.eff);
        NeedsFit(area.g, size - payloadOffset, |pages|, available);
        if left > avail {
          found, walked := NoResume, pages;
          Restart();
          return;
        }
        var ok, page := bd.Read(storageAddr, area.g.page);
        if !ok {
          found, walked := NoResume, pages;
          Restart();
          return;
        }
        var o := BlankOffset(page, area.g.erased);
        if o == 0 {
          return Downloading, pages;
        }
        var good := ScanPage(page);
        if good {
          left := left - 1;
        }
        avail := avail - 1;
      }
      BlocksNext(size - payloadOffset, area.g.eff);
      NeedsFit(area.g, size - payloadOffset, |pages|, available);
      return AllWritten, pages;
    }

    ghost method StartTraced()
      requires Shape() && Fresh() && area.g.data <= |bd.mem|
      modifies this`pages, this`scan
      ensures pages == [] && Tracks()
    {
      pages, scan := [], START;
      assert bd.mem[area.g.data..area.g.data] == [];
      MultipleAdd(area.start, area.ready, bd.readSize);
      MultipleAdd(area.start + area.ready, |area.header|, bd.readSize);
    }

    /** analyze_resume_state, entered with a resume state that is not inactive and
        a payload that is not a delta. */
    method Analyze(keyFound: bool) returns (found: Found, ghost walked: seq<Bytes>)
      requires Shape() && Fresh()
      modifies this
      ensures found == NoResume ==> Fresh()
      ensures found == NoResume ==>
                || area.Headers(bd.mem) == Unusable
                || (area.Headers(bd.mem) == Started
                    && (!keyFound || GivesUp(area.g, bd.mem, size, available, walked)))
      ensures found == ReadyFound ==> area.Headers(bd.mem) == Complete && Fresh()
      ensures found == AllWritten ==> area.Headers(bd.mem) == Started && Tracks() && payloadOffset == size
      ensures found == AllWritten || found == Downloading ==>
                keyFound && Tracks() && Needs(area.g, size - payloadOffset, |pages|) <= available
      ensures found == Downloading ==>
                && area.Headers(bd.mem) == Started && Tracks()
                && payloadOffset < size && storageAddr + area.g.page <= |bd.mem|
                && IsBlank(bd.mem[storageAddr..storageAddr + area.g.page], area.g.erased)
    {
      hide Traced, Multiple, IsBlank, Needs;
      walked := [];
      var h := CheckHeaders();
      if h == Complete {
        return ReadyFound, walked;
      }
      if h == Unusable || !keyFound {
        return NoResume, walked;
      }
      found, walked := ScanData();
    }

    /** One page of the scan that is not erased: a good block advances the
        position, a bad one only the address. */
    method ScanPage(page: Bytes) returns (good: bool)
      requires Shape() && Tracks() && payloadOffset < size
      requires storageAddr + area.g.page <= |bd.mem|
      requires page == bd.mem[storageAddr..storageAddr + area.g.page] && !IsBlank(page, area.g.erased)
      modifies this
      ensures Tracks() && storageAddr == old(storageAddr) + area.g.page && |pages| == old(|pages|) + 1
      ensures good ==> payloadOffset == old(payloadOffset) + Min(size - old(payloadOffset), area.g.eff)
      ensures !good ==> payloadOffset == old(payloadOffset)
    {
      hide Traced, After, Multiple, IsBlank, StepPage, OpenNext, Open, Concat;
      var g := area.g;
      var chunk := Min(size - payloadOffset, g.eff);
      var block := OpenBlock(layout, iv, page[..g.codec.checker], page[g.codec.checker..g.codec.checker + chunk]);
      OpenBlockIsNext(g, layout, iv, size, scan, page);
      TracedSnoc(g, bd.mem, size, pages, page);
      MultipleAdd(storageAddr, g.page, bd.readSize);
      pages, scan := pages + [page], StepPage(g, size, scan, page);
      storageAddr := storageAddr + g.page;
      good := block.Some?;
      if good {
        if layout.Encrypted? {
          iv := iv + 1;
        }
        hashed := hashed + block.value;
        payloadOffset, fwBytesWritten := payloadOffset + chunk, fwBytesWritten + chunk;
      }
    }
  }

  /** Decryption with its tag, or the comparison of the block checksum. */
  method OpenBlock(layout: Layout, iv: nat, checker: Bytes, body: Bytes) returns (o: Option<Bytes>)
    ensures o == Open(layout, iv, checker, body)
  {
    match layout
    case Plain => o := Some(body);
    case Checksummed =>
      var sum: nat := 0;
      for i := 0 to |body|
        invariant sum == Checksum(body[..i])
      {
        assert body[..i + 1][..i] == body[..i];
        sum := (sum + body[i] as int) % 0x1_0000;
      }
      assert body[..|body|] == body;
      o := if checker == Le16(sum) then Some(body) else None;
    case Encrypted(a) => o := a.Decrypt(iv, checker, body);
  }
}
