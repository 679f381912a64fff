/** Reading a candidate back: block by block, bad blocks skipped, fragments
    re-aligned for the installer, and nothing handed over before the digest has
    been checked (fota_candidate.c). */
module Candidate {
  import opened Bytes
  import opened BlockLayout
  import opened CandidateFormat
  import opened BlockDevice
  import opened Resume

  /** What is found at an address: the end of the image, an error, a bad block to
      be ignored, or a good one; the last two with the address to go on from. */
  datatype Read = AtEnd | Fault | Bad(next: nat) | Good(next: nat, block: Bytes)

  function ReadBlock(g: Geometry, size: nat, rs: nat, mem: Bytes, addr: nat, s: Scan): (r: Read)
    requires rs > 0
    ensures r.Bad? || r.Good? ==> addr < r.next <= |mem|
  {
    var c, n := g.codec.checker, Chunk(g, size, s);
    if n == 0 then AtEnd
    else
      AlignUpIsLeast(c + n, rs);
      var next := addr + AlignUp(c + n, rs);
      if next > |mem| then Fault
      else
        match g.codec.open(g.iv0 + s.good, mem[addr..addr + c], mem[addr + c..addr + c + n])
        case Some(d) => Good(next, d)
        case None => if g.resume then Bad(next) else Fault
  }

  /** The image as read from `addr` on, after the blocks in `s`. */
  function ReadAll(g: Geometry, size: nat, rs: nat, mem: Bytes, addr: nat, s: Scan): Option<Bytes>
    requires rs > 0
    decreases |mem| - addr
  {
    match ReadBlock(g, size, rs, mem, addr, s)
    case AtEnd => Some(s.data)
    case Fault => None
    case Bad(next) => ReadAll(g, size, rs, mem, next, s)
    case Good(next, d) => ReadAll(g, size, rs, mem, next, Scan(s.good + 1, s.data + d))
  }

  // ---- Writer and reader agree --------------------------------------------------

  /** How far the reader moves over a bad copy of the last block; the writer moves by a
      page. */
  function LastStep(g: Geometry, size: nat, rs: nat): (n: nat)
    requires rs > 0 && g.eff > 0
    ensures size > 0 ==> n > 0
  {
    AlignUpIsLeast(g.codec.checker + LastLen(size, g.eff), rs);
    AlignUp(g.codec.checker + LastLen(size, g.eff), rs)
  }

  /** Erased storage does not pass for the last block. */
  predicate RejectsLast(g: Geometry, size: nat)
    requires g.eff > 0
  {
    size == 0 || RejectsErased(g, LastLen(size, g.eff), g.iv0 + Blocks(size, g.eff) - 1)
  }

  /** Bad copies of the last block do not lead the reader astray: it moves by a page, or
      by a part of a page that divides it, over storage that is not taken for the block. */
  predicate SkipsWhole(g: Geometry, size: nat, rs: nat)
    requires rs > 0 && g.eff > 0
  {
    var step := LastStep(g, size, rs);
    || size == 0 || step == g.page
    || (step > 0 && Multiple(g.page, step) && RejectsLast(g, size))
  }

  /** How far a block of `n` bytes takes the reader. */
  lemma StepFits(g: Geometry, rs: nat, n: nat)
    requires g.Valid() && rs > 0 && Multiple(g.page, rs) && n <= g.eff
    ensures var step := AlignUp(g.codec.checker + n, rs);
            g.codec.checker + n <= step <= g.page && (n == g.eff ==> step == g.page)
  {
    hide AlignUp, Multiple;
    AlignUpMono(g.codec.checker + n, g.page, rs);
    MultipleIsMod(g.page, rs);
    AlignUpIsLeast(g.page, rs);
    AlignUpIsLeast(g.codec.checker + n, rs);
  }

  /** The reader at the start of a page. */
  lemma PageRead(g: Geometry, size: nat, rs: nat, mem: Bytes, a: nat, s: Scan, page: Bytes)
    requires g.Valid() && rs > 0 && Multiple(g.page, rs) && |s.data| < size
    requires |page| == g.page && a + g.page <= |mem| && mem[a..a + g.page] == page
    ensures var r, next := ReadBlock(g, size, rs, mem, a, s), a + AlignUp(g.codec.checker + Chunk(g, size, s), rs);
            match OpenNext(g, size, s, page) {
              case Some(d) => r == Good(next, d)
              case None => g.resume ==> r == Bad(next)
            }
  {
    hide AlignUp, Multiple;
    var c, n := g.codec.checker, Chunk(g, size, s);
    StepFits(g, rs, n);
    SliceOfSlice(mem, a, a + g.page, 0, c);
    SliceOfSlice(mem, a, a + g.page, c, c + n);
  }

  /** Scanning one page more. */
  lemma AfterNext(g: Geometry, size: nat, pages: seq<Bytes>, j: nat)
    requires Pages(g, pages) && j < |pages|
    ensures After(g, size, pages[..j + 1]) == StepPage(g, size, After(g, size, pages[..j]), pages[j])
    ensures End(g, pages[..j + 1]) == End(g, pages[..j]) + g.page
  {
    assert pages[..j + 1] == pages[..j] + [pages[j]];
    AfterSnoc(g, size, pages[..j], pages[j]);
    ConcatSnoc(pages[..j], pages[j]);
  }

  /** A bad page costs a block. */
  lemma {:induction false} BadPageCosts(g: Geometry, size: nat, pages: seq<Bytes>, j: nat, k: nat)
    requires Pages(g, pages) && j < k <= |pages|
    requires OpenNext(g, size, After(g, size, pages[..j]), pages[j]).None?
    ensures After(g, size, pages[..k]).good < k
  {
    hide OpenNext, After;
    AfterNext(g, size, pages, k - 1);
    if j < k - 1 {
      BadPageCosts(g, size, pages, j, k - 1);
    } else {
      GoodCount(g, size, pages[..j]);
    }
  }

  lemma {:induction false} GoodCount(g: Geometry, size: nat, pages: seq<Bytes>)
    requires Pages(g, pages)
    ensures After(g, size, pages).good <= |pages|
  {
    if pages != [] {
      GoodCount(g, size, pages[..|pages| - 1]);
    }
  }

  /** A torn page that is bad was torn inside its block, so that the rest is erased. */
  lemma BadPageTail(g: Geometry, n: nat, iv: nat, page: Bytes)
    requires g.Valid() && |page| == g.page && g.codec.checker + n <= g.page
    requires IsTorn(g, n, iv, page) && OpenPage(g.codec, iv, page, n) == None
    ensures forall i :: g.codec.checker + n <= i < |page| ==> page[i] == g.erased
  {
    var d: Bytes, whole: Bytes, t: nat :| IsTornOf(g, n, iv, page, d, whole, t);
    var c := g.codec.checker;
    if t >= c + n {
      assert page[..c] == whole[..c] && page[c..c + n] == whole[c..c + n];
      OpenSealed(g.codec, iv, d, page);
    } else {
      TornTail(whole, t, g.erased, t, |whole|);
    }
  }

  lemma ErasedIsBad(g: Geometry, size: nat, rs: nat, mem: Bytes, a: nat, s: Scan)
    requires g.resume && g.eff > 0 && rs > 0 && |s.data| < size
    requires var n := Chunk(g, size, s); var step := AlignUp(g.codec.checker + n, rs);
             && RejectsErased(g, n, g.iv0 + s.good) && g.codec.checker + n <= step && a + step <= |mem|
             && forall i :: a <= i < a + step ==> mem[i] == g.erased
    ensures ReadBlock(g, size, rs, mem, a, s) == Bad(a + AlignUp(g.codec.checker + Chunk(g, size, s), rs))
  {
    hide AlignUp;
    var c, n := g.codec.checker, Chunk(g, size, s);
    assert mem[a..a + c] == Fill(g.erased, c);
    assert mem[a + c..a + c + n] == Fill(g.erased, n);
  }

  /** From the second step on the reader walks over erased bytes. */
  lemma {:induction false} SkipsErased(g: Geometry, size: nat, rs: nat, mem: Bytes, a: nat, s: Scan, o: nat)
    requires g.Valid() && g.resume && rs > 0 && |s.data| < size && a + g.page <= |mem|
    requires var n := Chunk(g, size, s); var step := AlignUp(g.codec.checker + n, rs);
             && RejectsErased(g, n, g.iv0 + s.good)
             && g.codec.checker + n <= step && step <= o <= g.page && Multiple(g.page - o, step)
             && forall i :: a + g.codec.checker + n <= i < a + g.page ==> mem[i] == g.erased
    ensures ReadAll(g, size, rs, mem, a + o, s) == ReadAll(g, size, rs, mem, a + g.page, s)
    decreases g.page - o
  {
    hide AlignUp, ReadBlock, RejectsErased;
    if o < g.page {
      var c, n := g.codec.checker, Chunk(g, size, s);
      var step := AlignUp(c + n, rs);
      ErasedIsBad(g, size, rs, mem, a + o, s);
      SkipsErased(g, size, rs, mem, a, s, o + step);
    }
  }

  /** The next block in state `s` is a full one, or the last one. */
  predicate FullOrLast(g: Geometry, size: nat, s: Scan)
    requires g.eff > 0
  {
    var n := Chunk(g, size, s);
    n == g.eff || (n == LastLen(size, g.eff) && s.good + 1 == Blocks(size, g.eff))
  }

  lemma ChunkIsLast(g: Geometry, size: nat, pages: seq<Bytes>)
    requires g.Valid() && Pages(g, pages) && |After(g, size, pages).data| < size
    ensures FullOrLast(g, size, After(g, size, pages))
  {
    hide After, Multiple;
    var s := After(g, size, pages);
    WholeBlocks(g, size, pages);
    if size - |s.data| < g.eff {
      SpanIsMultiple(s.good, g.eff);
      LastLenIs(|s.data|, size, g.eff);
      BlocksOfSpan(s.good, size - |s.data|, g.eff);
      assert Blocks(size - |s.data|, g.eff) == 1 + Blocks(0, g.eff);
    }
  }

  /** Over a bad page the reader comes to the next one. */
  lemma BadPageSkipped(g: Geometry, size: nat, rs: nat, mem: Bytes, pages: seq<Bytes>, j: nat, a: nat, s: Scan)
    requires g.Valid() && g.resume && Pages(g, pages) && j < |pages| && rs > 0 && TornIfBad(g, size, pages, j)
    requires End(g, pages) <= |mem| && mem[g.data..End(g, pages)] == Concat(pages)
    requires a == End(g, pages[..j]) && s == After(g, size, pages[..j])
    requires Multiple(g.page, rs) && |s.data| < size && SkipsWhole(g, size, rs)
    requires OpenNext(g, size, s, pages[j]).None?
    ensures ReadAll(g, size, rs, mem, a, s) == ReadAll(g, size, rs, mem, a + g.page, s)
  {
    hide Concat, After, AlignUp, IsTorn, Multiple, SkipsWhole, ReadAll, OpenNext, LastLen, TornIfBad;
    PageInMem(g, mem, pages, j);
    TornIs(g, size, pages, j, s);
    ChunkIsLast(g, size, pages[..j]);
    TornPageSkipped(g, size, rs, mem, a, s, pages[j]);
  }

  lemma TornIs(g: Geometry, size: nat, pages: seq<Bytes>, j: nat, s: Scan)
    requires Pages(g, pages) && j < |pages| && TornIfBad(g, size, pages, j)
    requires s == After(g, size, pages[..j]) && OpenNext(g, size, s, pages[j]).None?
    ensures IsTorn(g, Chunk(g, size, s), g.iv0 + s.good, pages[j])
  {}

  lemma TornPageSkipped(g: Geometry, size: nat, rs: nat, mem: Bytes, a: nat, s: Scan, page: Bytes)
    requires g.Valid() && g.resume && rs > 0 && Multiple(g.page, rs) && |s.data| < size && SkipsWhole(g, size, rs)
    requires |page| == g.page && a + g.page <= |mem| && mem[a..a + g.page] == page
    requires OpenNext(g, size, s, page).None? && IsTorn(g, Chunk(g, size, s), g.iv0 + s.good, page)
    requires FullOrLast(g, size, s)
    ensures ReadAll(g, size, rs, mem, a, s) == ReadAll(g, size, rs, mem, a + g.page, s)
  {
    hide AlignUp, IsTorn, ReadBlock, RejectsErased, Multiple, Blocks, LastLen;
    var n := Chunk(g, size, s);
    var step := AlignUp(g.codec.checker + n, rs);
    StepFits(g, rs, n);
    PageRead(g, size, rs, mem, a, s, page);
    assert ReadAll(g, size, rs, mem, a, s) == ReadAll(g, size, rs, mem, a + step, s);
    if step < g.page {
      BadPageTail(g, n, g.iv0 + s.good, page);
      ErasedBehind(g, mem, a, page, g.codec.checker + n);
      StepLeaves(g.page, step);
      SkipsErased(g, size, rs, mem, a, s, step);
    }
  }

  lemma StepLeaves(page: nat, step: nat)
    requires 0 < step <= page && Multiple(page, step)
    ensures Multiple(page - step, step)
  {}

  lemma ErasedBehind(g: Geometry, mem: Bytes, a: nat, page: Bytes, n: nat)
    requires a + |page| <= |mem| && mem[a..a + |page|] == page
    requires forall i :: n <= i < |page| ==> page[i] == g.erased
    ensures forall i :: a + n <= i < a + |page| ==> mem[i] == g.erased
  {
    forall i | a + n <= i < a + |page|
      ensures mem[i] == g.erased
    {
      assert mem[i] == mem[a..a + |page|][i - a];
    }
  }

  /** From every page boundary on, the reader finds the rest of the stored payload. */
  lemma {:induction false} ReadsFrom(g: Geometry, mem: Bytes, payload: Bytes, pages: seq<Bytes>, rs: nat, j: nat)
    requires Stored(g, mem, payload, pages) && After(g, |payload|, pages).data == payload
    requires rs > 0 && Multiple(g.page, rs) && (g.resume ==> SkipsWhole(g, |payload|, rs)) && j <= |pages|
    ensures ReadAll(g, |payload|, rs, mem, End(g, pages[..j]), After(g, |payload|, pages[..j])) == Some(payload)
    decreases |pages| - j
  {
    hide Concat, After, StepPage, OpenNext, ReadBlock, SkipsWhole, TornIfBad, AlignUp;
    var size := |payload|;
    AfterGrows(g, size, pages, j);
    assert pages[..|pages|] == pages;
    var s, a := After(g, size, pages[..j]), End(g, pages[..j]);
    if |s.data| == size {
      assert s.data == payload;
      ReadsNothing(g, size, rs, mem, a, s);
    } else {
      AfterNext(g, size, pages, j);
      ReadsFrom(g, mem, payload, pages, rs, j + 1);
      StepIs(g, size, s, pages[j]);
      if OpenNext(g, size, s, pages[j]).None? {
        if g.resume {
          assert TornIfBad(g, size, pages, j);
          BadPageSkipped(g, size, rs, mem, pages, j, a, s);
        } else {
          BadPageCosts(g, size, pages, j, |pages|);
        }
      } else {
        GoodPageTaken(g, mem, payload, pages, rs, j);
      }
    }
  }

  lemma GoodPageTaken(g: Geometry, mem: Bytes, payload: Bytes, pages: seq<Bytes>, rs: nat, j: nat)
    requires Stored(g, mem, payload, pages) && After(g, |payload|, pages).data == payload && j < |pages|
    requires rs > 0 && Multiple(g.page, rs) && |After(g, |payload|, pages[..j]).data| < |payload|
    requires OpenNext(g, |payload|, After(g, |payload|, pages[..j]), pages[j]).Some?
    requires var s := After(g, |payload|, pages[..j + 1]);
             ReadAll(g, |payload|, rs, mem, End(g, pages[..j + 1]), s) == Some(payload)
    ensures ReadAll(g, |payload|, rs, mem, End(g, pages[..j]), After(g, |payload|, pages[..j])) == Some(payload)
  {
    hide Concat, After, StepPage, OpenNext, ReadBlock, TornOnly, AlignUp;
    var size, s := |payload|, After(g, |payload|, pages[..j]);
    PageInMem(g, mem, pages, j);
    StepFits(g, rs, Chunk(g, size, s));
    PageRead(g, size, rs, mem, End(g, pages[..j]), s, pages[j]);
    AfterNext(g, size, pages, j);
    StepIs(g, size, s, pages[j]);
    if Chunk(g, size, s) != g.eff {
      var r := ReadBlock(g, size, rs, mem, End(g, pages[..j]), s);
      ReadsNothing(g, size, rs, mem, r.next, After(g, size, pages[..j + 1]));
      AfterGrows(g, size, pages, j + 1);
      assert After(g, size, pages[..j + 1]).data == payload;
    }
  }

  lemma ReadsNothing(g: Geometry, size: nat, rs: nat, mem: Bytes, addr: nat, s: Scan)
    requires rs > 0 && |s.data| >= size
    ensures ReadAll(g, size, rs, mem, addr, s) == Some(s.data)
  {}

  lemma StepIs(g: Geometry, size: nat, s: Scan, page: Bytes)
    requires g.Valid() && |page| == g.page
    ensures match OpenNext(g, size, s, page) {
              case Some(d) => StepPage(g, size, s, page) == Scan(s.good + 1, s.data + d) && |d| == Chunk(g, size, s)
              case None => StepPage(g, size, s, page) == s
            }
  {
    if OpenNext(g, size, s, page).Some? {
      OpenNextLength(g, size, s, page);
    }
  }

  /** What has been read stays. */
  lemma {:induction false} ReadExtends(g: Geometry, size: nat, rs: nat, mem: Bytes, addr: nat, s: Scan)
    requires rs > 0
    ensures var all := ReadAll(g, size, rs, mem, addr, s); all.Some? ==> s.data <= all.value
    decreases |mem| - addr
  {
    match ReadBlock(g, size, rs, mem, addr, s)
    case AtEnd =>
    case Fault =>
    case Bad(next) => ReadExtends(g, size, rs, mem, next, s);
    case Good(next, d) => ReadExtends(g, size, rs, mem, next, Scan(s.good + 1, s.data + d));
  }

  lemma {:induction false} WholeBlocks(g: Geometry, size: nat, pages: seq<Bytes>)
    requires g.Valid() && Pages(g, pages)
    ensures var s := After(g, size, pages);
            |s.data| <= size && (|s.data| == size || |s.data| == Span(s.good, g.eff))
  {
    hide StepPage, OpenNext;
    if pages != [] {
      var front, page := pages[..|pages| - 1], pages[|pages| - 1];
      WholeBlocks(g, size, front);
      StepIs(g, size, After(g, size, front), page);
    }
  }

  /** A complete payload is stored. */
  ghost predicate HoldsAll(g: Geometry, mem: Bytes, payload: Bytes, pages: seq<Bytes>) {
    Holds(g, mem, payload, pages).Some? && Holds(g, mem, payload, pages).value.data == payload
  }

  /** Round trip: a stored payload is read back as it was, in every layout. */
  lemma ReadsStored(g: Geometry, mem: Bytes, payload: Bytes, pages: seq<Bytes>, rs: nat)
    requires HoldsAll(g, mem, payload, pages)
    requires rs > 0 && Multiple(g.page, rs) && (g.resume ==> SkipsWhole(g, |payload|, rs))
    ensures ReadAll(g, |payload|, rs, mem, g.data, START) == Some(payload)
  {
    ReadsFrom(g, mem, payload, pages, rs, 0);
    assert pages[..0] == [];
  }

  // ---- When bad pages do no harm -----------------------------------------------------

  /** A payload of full blocks is readable whatever was torn on the way. */
  lemma FullBlocksReadable(g: Geometry, size: nat, rs: nat)
    requires g.Valid() && rs > 0 && Multiple(g.page, rs) && Multiple(size, g.eff)
    ensures SkipsWhole(g, size, rs)
  {
    hide Multiple, AlignUp;
    if size > 0 {
      assert Multiple(g.eff, g.eff) by { OneUnit(g.eff); }
      LastLenFull(size, g.eff);
      MultipleIsMod(g.page, rs);
      AlignUpIsLeast(g.page, rs);
    }
  }

  lemma {:induction false} LastLenFull(size: nat, eff: nat)
    requires eff > 0 && size > 0 && Multiple(size, eff)
    ensures LastLen(size, eff) == eff
  {
    if size > eff {
      LastLenFull(size - eff, eff);
    }
  }

  // ---- A short last block that was torn ------------------------------------------------

  /** The builds that checksum their blocks, on 0xFF-erased storage. */
  ghost predicate Checked(g: Geometry) {
    g.Valid() && g.resume && g.codec == CodecOf(Checksummed) && g.erased == 255
  }

  /** Behind checksums only the sizes decide. */
  lemma ChecksumSkips(g: Geometry, size: nat, rs: nat)
    requires Checked(g) && size > 0 && rs > 0 && Multiple(g.page, rs)
    ensures var step := LastStep(g, size, rs);
            SkipsWhole(g, size, rs)
            <==> step == g.page || (Multiple(g.page, step) && LastLen(size, g.eff) % 0x1_0000 != 257)
  {
    hide Multiple, AlignUp, RejectsErased, LastLen, Codec.Lawful, CodecOf;
    BlocksAtLeast(1, size, g.eff);
    ChecksumRejects(g, LastLen(size, g.eff), g.iv0 + Blocks(size, g.eff) - 1);
  }

  function Zeros(g: Geometry, k: nat): (pages: seq<Bytes>)
    ensures |pages| == k && forall j :: 0 <= j < k ==> pages[j] == Fill(0, g.page)
  {
    seq(k, j => Fill(0, g.page))
  }

  /** A byte whose erased neighbour makes no checksum of `r` erased bytes. */
  function Mark(r: nat): (v: byte)
    ensures 0 < v < 255
  {
    if r % 0x1_0000 == 65535 then 2 else 1
  }

  lemma MarkDiffers(r: nat)
    ensures Le16(Checksum(Fill(255, r))) != [Mark(r), 255]
  {
    var c: nat, v: nat := Checksum(Fill(255, r)), Mark(r);
    SumFill(255, r);
    Times255(r, 65280 + v);
    Le16Injective(c, 65280 + v);
    assert Le16(65280 + v) == [v, 255];
  }

  /** The last block of the payload below, and the page that holds it. */
  function Tail(r: nat): (d: Bytes)
    requires r > 0
    ensures |d| == r && Checksum(d) == Mark(r) && d[r - 1] == Mark(r)
  {
    SumFill(0, r - 1);
    Fill(0, r - 1) + [Mark(r)]
  }

  function TailPage(g: Geometry, r: nat): (page: Bytes)
    requires g.page == 2 + g.eff && 0 < r <= g.eff
    ensures |page| == g.page && page[0] == Mark(r)
    ensures IsSealed(CodecOf(Checksummed), 0, Tail(r), page)
  {
    var page := [Mark(r), 0] + Tail(r) + Fill(255, g.eff - r);
    assert page[..2] == [Mark(r), 0] && page[2..2 + r] == Tail(r);
    page
  }

  /** Zero blocks, programmed one after the other. */
  lemma {:induction false} StoreZeros(g: Geometry, payload: Bytes, total: nat, k: nat) returns (mem: Bytes)
    requires Checked(g) && g.data + Span(k, g.page) <= total <= g.limit
    requires Span(k, g.eff) < |payload| && Fill(0, Span(k, g.eff)) <= payload
    ensures |mem| == total
    ensures Holds(g, mem, payload, Zeros(g, k)) == Some(Scan(k, Fill(0, Span(k, g.eff))))
  {
    hide Stored, After, Concat, Codec.Lawful, IsSealed, CodecOf;
    if k == 0 {
      mem := Fill(255, total);
      EmptyHolds(g, mem, payload);
      assert Zeros(g, 0) == [] && Fill(0, 0) == [];
    } else {
      var before := Fill(0, Span(k - 1, g.eff));
      assert before == Fill(0, Span(k, g.eff))[..|before|] && before <= payload;
      mem := StoreZeros(g, payload, total, k - 1);
      StoredFacts(g, mem, payload, Zeros(g, k - 1));
      HoldsFacts(g, mem, payload, Zeros(g, k - 1));
      var page, s := Fill(0, g.page), Scan(k - 1, before);
      ZeroBlock(g, payload, s);
      assert page[0] == 0;
      EndIs(g, Zeros(g, k - 1));
      StoredAfterBlock(g, mem, payload, Zeros(g, k - 1), page);
      mem := Splice(mem, End(g, Zeros(g, k - 1)), page);
      assert Zeros(g, k) == Zeros(g, k - 1) + [page];
      assert before + NextBlock(g, payload, s) == Fill(0, Span(k, g.eff));
    }
  }

  lemma ZeroBlock(g: Geometry, payload: Bytes, s: Scan)
    requires Checked(g) && |s.data| + g.eff < |payload| && Fill(0, |s.data| + g.eff) <= payload
    ensures NextBlock(g, payload, s) == Fill(0, g.eff)
    ensures IsSealed(g.codec, g.iv0 + s.good, Fill(0, g.eff), Fill(0, g.page))
  {
    var f, d, page := Fill(0, |s.data| + g.eff), Fill(0, g.eff), Fill(0, g.page);
    assert forall i :: 0 <= i < |f| ==> payload[i] == f[i];
    SumFill(0, g.eff);
    assert page[..2] == [0, 0] && page[2..2 + g.eff] == d;
  }

  /** Behind the zero blocks: a copy of the last block that was torn after one byte, and
      a whole one. */
  lemma StoreTorn(g: Geometry, payload: Bytes, mem: Bytes, pages: seq<Bytes>, s: Scan, r: nat)
    returns (mem': Bytes)
    requires Checked(g) && 0 < r < g.eff && Holds(g, mem, payload, pages) == Some(s)
    requires s.data + Tail(r) == payload && |mem| == End(g, pages) + g.page + g.page
    ensures |mem'| == |mem| && HoldsAll(g, mem', payload, pages + [Torn(TailPage(g, r), 1, 255)] + [TailPage(g, r)])
  {
    hide After, Concat, InStep, Span, Used, Tail, TailPage, Mark;
    var page, d := TailPage(g, r), Tail(r);
    var bad := Torn(page, 1, 255);
    StoredFacts(g, mem, payload, pages);
    HoldsFacts(g, mem, payload, pages);
    TornTailPage(g, r, s, |payload|);
    assert NextBlock(g, payload, s) == d;
    assert IsTornOf(g, r, g.iv0 + s.good, bad, d, page, 1);
    StoredExtend(g, mem, payload, pages, bad);
    mem' := Splice(mem, End(g, pages), bad);
    ConcatSnoc(pages, bad);
    var more := pages + [bad];
    StoredAfterBlock(g, mem', payload, more, page);
    mem' := Splice(mem', End(g, more), page);
  }

  lemma TornTailPage(g: Geometry, r: nat, s: Scan, size: nat)
    requires Checked(g) && 0 < r < g.eff && size == |s.data| + r
    ensures var bad := Torn(TailPage(g, r), 1, 255);
            !IsBlank(bad, 255) && OpenNext(g, size, s, bad) == None
  {
    hide Tail;
    var bad := Torn(TailPage(g, r), 1, 255);
    assert bad[0] == Mark(r);
    TornTail(TailPage(g, r), 1, 255, 2, 2 + r);
    MarkDiffers(r);
    hide Checksum, Mark;
    assert bad[..2] == [Mark(r), 255];
  }

  /** The two pages as bytes: only at the second one is there a mark with a zero behind it. */
  predicate TwoTails(g: Geometry, mem: Bytes, a: nat, r: nat) {
    && |mem| == a + g.page + g.page && 0 < r && 2 + r < g.page
    && mem[a] == mem[a + g.page] == mem[a + g.page + 1 + r] == Mark(r) && mem[a + g.page + 1] == 0
    && (forall i :: a < i < a + g.page ==> mem[i] == 255)
    && (forall i :: a + g.page + 2 <= i < a + g.page + 1 + r ==> mem[i] == 0)
    && (forall i :: a + g.page + 2 + r <= i < |mem| ==> mem[i] == 255)
  }

  lemma OnlyAtPage(g: Geometry, mem: Bytes, a: nat, r: nat, o: nat)
    requires TwoTails(g, mem, a, r) && a + o + 1 < |mem| && o != g.page
    ensures mem[a + o] != Mark(r) || mem[a + o + 1] != 0
  {}

  /** A reader that does not step on the second page does not find the last block. */
  lemma {:induction false} Misses(g: Geometry, rs: nat, mem: Bytes, a: nat, s: Scan, payload: Bytes, r: nat, o: nat)
    requires Checked(g) && rs > 0 && 0 < r < g.eff && TwoTails(g, mem, a, r) && s.data + Tail(r) == payload
    requires var step := AlignUp(2 + r, rs); step > 0 && !Multiple(g.page, step) && Multiple(o, step)
    ensures ReadAll(g, |payload|, rs, mem, a + o, s) != Some(payload)
    decreases |mem| - a - o
  {
    hide TwoTails, AlignUp, Tail, Multiple, ReadBlock;
    var step := AlignUp(2 + r, rs);
    ReadTail(g, rs, mem, a, s, payload, r, o);
    if ReadBlock(g, |payload|, rs, mem, a + o, s) == Bad(a + o + step) {
      OneUnit(step);
      MultipleAdd(o, step, step);
      Misses(g, rs, mem, a, s, payload, r, o + step);
    }
  }

  lemma ReadTail(g: Geometry, rs: nat, mem: Bytes, a: nat, s: Scan, payload: Bytes, r: nat, o: nat)
    requires Checked(g) && rs > 0 && 0 < r < g.eff && TwoTails(g, mem, a, r) && s.data + Tail(r) == payload
    requires o != g.page
    ensures var b, size, step := ReadBlock(g, |payload|, rs, mem, a + o, s), |payload|, AlignUp(2 + r, rs);
            || b == Fault || b == Bad(a + o + step)
            || (b.Good? && ReadAll(g, size, rs, mem, a + o, s) != Some(payload))
  {
    hide TwoTails, AlignUp, Tail, Checksum, ReadBlock, Codec.Lawful, CodecOf;
    var size, at, step := |payload|, a + o, AlignUp(2 + r, rs);
    assert Chunk(g, size, s) == r;
    ReadChecked(g, size, rs, mem, at, s, r);
    var b := ReadBlock(g, size, rs, mem, at, s);
    if b.Good? {
      OnlyAtPage(g, mem, a, r, o);
      assert b.block != Tail(r);
      ReadsNothing(g, size, rs, mem, at + step, Scan(s.good + 1, s.data + b.block));
      assert (s.data + b.block)[|s.data|..] == b.block && payload[|s.data|..] == Tail(r);
    }
  }

  lemma ReadChecked(g: Geometry, size: nat, rs: nat, mem: Bytes, at: nat, s: Scan, r: nat)
    requires Checked(g) && rs > 0 && r == Chunk(g, size, s) > 0
    ensures var b, step := ReadBlock(g, size, rs, mem, at, s), AlignUp(2 + r, rs);
            || b == Fault || b == Bad(at + step)
            || (b.Good? && b.next == at + step <= |mem| && 2 + r <= step && |b.block| == r
                && mem[at] == Checksum(b.block) % 256 && mem[at + 1] == Checksum(b.block) / 256)
  {
    hide AlignUp, Codec.Lawful;
    AlignUpIsLeast(2 + r, rs);
    var b, step := ReadBlock(g, size, rs, mem, at, s), AlignUp(2 + r, rs);
    if b.Good? {
      assert b.block == mem[at + 2..at + 2 + r] && mem[at..at + 2] == Le16(Checksum(b.block));
      assert mem[at..at + 2][0] == mem[at] && mem[at..at + 2][1] == mem[at + 1];
    }
  }

  /** A reader that takes erased bytes for the last block finds those instead. */
  lemma TakesErased(g: Geometry, rs: nat, mem: Bytes, a: nat, s: Scan, payload: Bytes, r: nat)
    requires Checked(g) && rs > 0 && 0 < r < g.eff && TwoTails(g, mem, a, r) && s.data + Tail(r) == payload
    requires var step := AlignUp(2 + r, rs); 0 < step < g.page && Multiple(g.page, step)
    requires r % 0x1_0000 == 257
    ensures ReadAll(g, |payload|, rs, mem, a, s) != Some(payload)
  {
    hide TwoTails, AlignUp, Tail, Multiple, ReadBlock, Codec.Lawful, CodecOf;
    var step := AlignUp(2 + r, rs);
    ReadTail(g, rs, mem, a, s, payload, r, 0);
    ReadTail(g, rs, mem, a, s, payload, r, step);
    StepLeaves(g.page, step);
    OneUnit(step);
    MultipleGap(0, g.page - step, step);
    assert Chunk(g, |payload|, s) == r;
    ErasedIsTaken(g, |payload|, rs, mem, a, s, r);
  }

  lemma ErasedIsTaken(g: Geometry, size: nat, rs: nat, mem: Bytes, a: nat, s: Scan, r: nat)
    requires Checked(g) && rs > 0 && r == Chunk(g, size, s) > 0 && TwoTails(g, mem, a, r) && r % 0x1_0000 == 257
    requires var step := AlignUp(2 + r, rs); 0 < step && step + step <= g.page
    ensures ReadBlock(g, size, rs, mem, a + AlignUp(2 + r, rs), s).Good?
  {
    hide AlignUp, Codec.Lawful, CodecOf, RejectsErased;
    var at := a + AlignUp(2 + r, rs);
    AlignUpIsLeast(2 + r, rs);
    ChecksumRejects(g, r, g.iv0 + s.good);
    assert mem[at..at + 2] == Fill(255, 2) && mem[at + 2..at + 2 + r] == Fill(255, r);
    ReadErased(g, size, rs, mem, at, s, r);
  }

  lemma ReadErased(g: Geometry, size: nat, rs: nat, mem: Bytes, at: nat, s: Scan, r: nat)
    requires Checked(g) && rs > 0 && r == Chunk(g, size, s) > 0 && !RejectsErased(g, r, g.iv0 + s.good)
    requires 2 + r <= AlignUp(2 + r, rs) && at + AlignUp(2 + r, rs) <= |mem|
    requires mem[at..at + 2] == Fill(255, 2) && mem[at + 2..at + 2 + r] == Fill(255, r)
    ensures ReadBlock(g, size, rs, mem, at, s).Good?
  {
    hide AlignUp, Codec.Lawful;
  }

  /** Over the zero blocks the reader comes to the last block. */
  lemma {:induction false} ReadsZeros(g: Geometry, size: nat, rs: nat, mem: Bytes, pages: seq<Bytes>, m: nat, j: nat)
    requires Checked(g) && rs > 0 && Multiple(g.page, rs) && Pages(g, pages) && j <= m <= |pages|
    requires pages[..m] == Zeros(g, m) && Span(m, g.eff) <= size
    requires End(g, pages) <= |mem| && mem[g.data..End(g, pages)] == Concat(pages)
    ensures var a := g.data + Span(j, g.page);
            ReadAll(g, size, rs, mem, g.data, START) == ReadAll(g, size, rs, mem, a, Scan(j, Fill(0, Span(j, g.eff))))
  {
    hide Concat, Multiple, ReadBlock, AlignUp;
    if j == 0 {
      assert Fill(0, 0) == [];
    } else {
      ReadsZeros(g, size, rs, mem, pages, m, j - 1);
      var a, s := g.data + Span(j - 1, g.page), Scan(j - 1, Fill(0, Span(j - 1, g.eff)));
      EndIs(g, pages[..j - 1]);
      PageInMem(g, mem, pages, j - 1);
      SpanMono(j, m, g.eff);
      assert pages[j - 1] == pages[..m][j - 1] == Fill(0, g.page);
      ZeroPageRead(g, size, rs, mem, a, s);
      assert s.data + Fill(0, g.eff) == Fill(0, Span(j, g.eff));
    }
  }

  lemma ZeroPageRead(g: Geometry, size: nat, rs: nat, mem: Bytes, a: nat, s: Scan)
    requires Checked(g) && rs > 0 && Multiple(g.page, rs) && |s.data| + g.eff <= size
    requires a + g.page <= |mem| && mem[a..a + g.page] == Fill(0, g.page)
    ensures ReadBlock(g, size, rs, mem, a, s) == Good(a + g.page, Fill(0, g.eff))
  {
    hide Multiple, ReadBlock, AlignUp;
    var page := Fill(0, g.page);
    SumFill(0, g.eff);
    assert page[..2] == [0, 0] && page[2..2 + g.eff] == Fill(0, g.eff);
    assert OpenNext(g, size, s, page) == Some(Fill(0, g.eff));
    StepFits(g, rs, g.eff);
    PageRead(g, size, rs, mem, a, s, page);
  }

  lemma TailsInMem(g: Geometry, mem: Bytes, pages: seq<Bytes>, r: nat, m: nat, a: nat)
    requires Checked(g) && 0 < r < g.eff && Pages(g, pages) && |pages| == m + 2
    requires End(g, pages) <= |mem| && mem[g.data..End(g, pages)] == Concat(pages)
    requires a == g.data + Span(m, g.page) && |mem| == a + g.page + g.page
    requires pages[m] == Torn(TailPage(g, r), 1, 255) && pages[m + 1] == TailPage(g, r)
    ensures TwoTails(g, mem, a, r)
  {
    hide Concat, TwoTails, TailPage, Pages, Torn, Codec.Lawful;
    PageAt(g, mem, pages, m, a);
    PageAt(g, mem, pages, m + 1, a + g.page);
    TailBytes(g, mem, a, r);
  }

  lemma PageAt(g: Geometry, mem: Bytes, pages: seq<Bytes>, j: nat, a: nat)
    requires Pages(g, pages) && End(g, pages) <= |mem| && mem[g.data..End(g, pages)] == Concat(pages)
    requires j < |pages| && a == g.data + Span(j, g.page)
    ensures a + g.page <= |mem| && mem[a..a + g.page] == pages[j]
  {
    hide Concat;
    EndIs(g, pages[..j]);
    PageInMem(g, mem, pages, j);
  }

  lemma TailBytes(g: Geometry, mem: Bytes, a: nat, r: nat)
    requires Checked(g) && 0 < r < g.eff && |mem| == a + g.page + g.page
    requires mem[a..a + g.page] == Torn(TailPage(g, r), 1, 255)
    requires mem[a + g.page..a + g.page + g.page] == TailPage(g, r)
    ensures TwoTails(g, mem, a, r)
  {
    var p, q := Torn(TailPage(g, r), 1, 255), TailPage(g, r);
    forall i | a <= i < a + g.page
      ensures mem[i] == p[i - a]
    {
      assert mem[i] == mem[a..a + g.page][i - a];
    }
    forall i | a + g.page <= i < |mem|
      ensures mem[i] == q[i - a - g.page]
    {
      assert mem[i] == mem[a + g.page..a + g.page + g.page][i - a - g.page];
    }
  }

  /** If bad copies of the last block are not skipped whole, there is a payload and a power
      cut after which the complete candidate is not read back. */
  lemma TornLastBlockUnreadable(g: Geometry, size: nat, rs: nat)
    returns (mem: Bytes, payload: Bytes, pages: seq<Bytes>)
    requires Checked(g) && size > 0 && rs > 0 && Multiple(g.page, rs)
    requires DataEnd(g, size) + g.page <= g.limit && !SkipsWhole(g, size, rs)
    ensures |payload| == size && HoldsAll(g, mem, payload, pages)
    ensures ReadAll(g, size, rs, mem, g.data, START) != Some(payload)
  {
    hide After, Concat, Multiple, AlignUp, Tail, TailPage, TwoTails, SkipsWhole, Codec.Lawful, ReadAll;
    var r := LastLen(size, g.eff);
    ChecksumSkips(g, size, rs);
    StepFits(g, rs, r);
    var m := LastLenSplit(size, g.eff);
    payload := Fill(0, Span(m, g.eff)) + Tail(r);
    assert Fill(0, Span(m, g.eff)) <= payload;
    var total := DataEnd(g, size) + g.page;
    mem := StoreZeros(g, payload, total, m);
    EndIs(g, Zeros(g, m));
    mem := StoreTorn(g, payload, mem, Zeros(g, m), Scan(m, Fill(0, Span(m, g.eff))), r);
    pages := Zeros(g, m) + [Torn(TailPage(g, r), 1, 255)] + [TailPage(g, r)];
    WitnessUnread(g, size, rs, mem, payload, pages, m, r);
  }

  lemma WitnessUnread(g: Geometry, size: nat, rs: nat, mem: Bytes, payload: Bytes, pages: seq<Bytes>, m: nat, r: nat)
    requires Checked(g) && rs > 0 && Multiple(g.page, rs) && 0 < r < g.eff && Holds(g, mem, payload, pages).Some?
    requires pages == Zeros(g, m) + [Torn(TailPage(g, r), 1, 255)] + [TailPage(g, r)]
    requires payload == Fill(0, Span(m, g.eff)) + Tail(r) && size == |payload|
    requires |mem| == g.data + Span(m + 2, g.page)
    requires var step := AlignUp(2 + r, rs);
             0 < step < g.page && (!Multiple(g.page, step) || r % 0x1_0000 == 257)
    ensures ReadAll(g, size, rs, mem, g.data, START) != Some(payload)
  {
    hide Holds, Concat, Multiple, AlignUp, Tail, TailPage, TwoTails, Torn, Codec.Lawful, CodecOf, ReadAll;
    HoldsPages(g, mem, payload, pages);
    var a, s := g.data + Span(m, g.page), Scan(m, Fill(0, Span(m, g.eff)));
    TailsInMem(g, mem, pages, r, m, a);
    assert pages[..m] == Zeros(g, m);
    ReadsZeros(g, size, rs, mem, pages, m, m);
    if Multiple(g.page, AlignUp(2 + r, rs)) {
      TakesErased(g, rs, mem, a, s, payload, r);
    } else {
      OneUnit(AlignUp(2 + r, rs));
      Misses(g, rs, mem, a, s, payload, r, 0);
    }
  }

  /** Every complete candidate of `size` bytes is read back, whatever power cuts its
      download went through, if and only if the reader's step over a bad copy of the last
      block is a page, or divides a page and that block does not have 257 bytes, for which
      erased storage passes. */
  lemma ReadBackExactly(g: Geometry, size: nat, rs: nat)
    requires Checked(g) && size > 0 && rs > 0 && Multiple(g.page, rs) && DataEnd(g, size) + g.page <= g.limit
    ensures (forall mem: Bytes, payload: Bytes, pages: seq<Bytes> ::
               |payload| == size && HoldsAll(g, mem, payload, pages) ==>
                 ReadAll(g, size, rs, mem, g.data, START) == Some(payload))
        <==> var step := LastStep(g, size, rs);
             step == g.page || (Multiple(g.page, step) && LastLen(size, g.eff) % 0x1_0000 != 257)
  {
    hide Multiple, HoldsAll, ReadAll, DataEnd, AlignUp, SkipsWhole;
    ChecksumSkips(g, size, rs);
    if SkipsWhole(g, size, rs) {
      forall mem: Bytes, payload: Bytes, pages: seq<Bytes> | |payload| == size && HoldsAll(g, mem, payload, pages)
        ensures ReadAll(g, size, rs, mem, g.data, START) == Some(payload)
      {
        ReadsStored(g, mem, payload, pages, rs);
      }
    } else {
      var mem, payload, pages := TornLastBlockUnreadable(g, size, rs);
    }
  }
}
