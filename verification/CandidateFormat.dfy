/** The on-storage format of a firmware candidate. No function of the client
    states it: the writer (fota.c), the scanner that resumes after a power cut
    (fota.c, analyze_resume_state) and the reader (fota_candidate.c) each follow
    it in their own code. Here it is one definition: the state reached after
    scanning a list of pages, with bad pages skipped. */
module CandidateFormat {
  import opened Bytes
  import opened BlockLayout

  /** The data area: its first address, the page size, the payload bytes per page, the
      block layout, the value of erased bytes, the first initialisation vector, whether
      the build resumes downloads (and so tolerates bad blocks), and how far the storage
      was erased for the download. */
  datatype Geometry = Geometry(data: nat, page: nat, eff: nat, codec: Codec, erased: byte, iv0: nat, resume: bool,
                               limit: nat)
  {
    ghost predicate Valid() {
      eff > 0 && page == codec.checker + eff && codec.Lawful()
    }
  }

  /** Blocks accepted so far and the payload bytes they held. */
  datatype Scan = Scan(good: nat, data: Bytes)

  const START: Scan := Scan(0, [])

  function Chunk(g: Geometry, size: nat, s: Scan): nat {
    if |s.data| < size then Min(size - |s.data|, g.eff) else 0
  }

  function OpenNext(g: Geometry, size: nat, s: Scan, page: Bytes): Option<Bytes>
    requires g.page == g.codec.checker + g.eff == |page|
  {
    OpenPage(g.codec, g.iv0 + s.good, page, Chunk(g, size, s))
  }

  function StepPage(g: Geometry, size: nat, s: Scan, page: Bytes): Scan
    requires g.page == g.codec.checker + g.eff == |page|
  {
    match OpenNext(g, size, s, page)
    case Some(d) => Scan(s.good + 1, s.data + d)
    case None => s
  }

  predicate Pages(g: Geometry, pages: seq<Bytes>) {
    && g.page == g.codec.checker + g.eff
    && forall j :: 0 <= j < |pages| ==> |pages[j]| == g.page
  }

  /** The state after scanning `pages`. */
  function After(g: Geometry, size: nat, pages: seq<Bytes>): Scan
    requires Pages(g, pages)
  {
    if pages == [] then START
    else StepPage(g, size, After(g, size, pages[..|pages| - 1]), pages[|pages| - 1])
  }

  lemma AfterSnoc(g: Geometry, size: nat, pages: seq<Bytes>, page: Bytes)
    requires Pages(g, pages) && |page| == g.page
    ensures Pages(g, pages + [page])
    ensures After(g, size, pages + [page]) == StepPage(g, size, After(g, size, pages), page)
  {
    assert (pages + [page])[..|pages|] == pages;
  }

  predicate ErasedFrom(g: Geometry, mem: Bytes, addr: nat) {
    forall i :: addr <= i < |mem| && i < g.limit ==> mem[i] == g.erased
  }

  /** The address behind the used pages. */
  function End(g: Geometry, pages: seq<Bytes>): nat {
    g.data + |Concat(pages)|
  }

  /** The data area of an interrupted or finished download of `payload`: used
      pages whose good blocks are a prefix of the payload, then erased storage. */
  ghost predicate Stored(g: Geometry, mem: Bytes, payload: Bytes, pages: seq<Bytes>) {
    && g.Valid() && Pages(g, pages)
    && (g.resume ==> forall j :: 0 <= j < |pages| ==> !IsBlank(pages[j], g.erased))
    && (!g.resume ==> After(g, |payload|, pages).good == |pages|)
    && (g.resume ==> |mem| <= g.limit && TornOnly(g, |payload|, pages))
    && Used(g, mem, pages)
    && InStep(g, payload, After(g, |payload|, pages))
  }

  /** `page` is what a power cut left of a page that was to hold a block of `n` bytes. */
  ghost predicate IsTorn(g: Geometry, n: nat, iv: nat, page: Bytes) {
    exists d: Bytes, whole: Bytes, t: nat :: IsTornOf(g, n, iv, page, d, whole, t)
  }

  predicate IsTornOf(g: Geometry, n: nat, iv: nat, page: Bytes, d: Bytes, whole: Bytes, t: nat) {
    && |d| == n && |whole| == g.page && IsSealed(g.codec, iv, d, whole)
    && t <= |whole| && page == Torn(whole, t, g.erased)
  }

  /** Every bad page is a torn one. */
  ghost predicate TornOnly(g: Geometry, size: nat, pages: seq<Bytes>)
    requires Pages(g, pages)
  {
    forall j :: 0 <= j < |pages| ==> TornIfBad(g, size, pages, j)
  }

  ghost predicate TornIfBad(g: Geometry, size: nat, pages: seq<Bytes>, j: nat)
    requires Pages(g, pages) && j < |pages|
  {
    var s := After(g, size, pages[..j]);
    OpenNext(g, size, s, pages[j]).None? ==> IsTorn(g, Chunk(g, size, s), g.iv0 + s.good, pages[j])
  }

  lemma TornOnlySnoc(g: Geometry, size: nat, pages: seq<Bytes>, page: Bytes)
    requires Pages(g, pages) && TornOnly(g, size, pages) && |page| == g.page
    requires var s := After(g, size, pages);
             OpenNext(g, size, s, page).None? ==> IsTorn(g, Chunk(g, size, s), g.iv0 + s.good, page)
    ensures Pages(g, pages + [page]) && TornOnly(g, size, pages + [page])
  {
    hide After, OpenNext, IsTorn;
    var more := pages + [page];
    forall j | 0 <= j < |more|
      ensures TornIfBad(g, size, more, j)
    {
      if j < |pages| {
        assert TornIfBad(g, size, pages, j);
        assert more[..j] == pages[..j];
      } else {
        assert more[..j] == pages;
      }
    }
  }

  /** The scan of a stored data area, if `pages` are its used pages. */
  ghost function Holds(g: Geometry, mem: Bytes, payload: Bytes, pages: seq<Bytes>): Option<Scan> {
    if Stored(g, mem, payload, pages) then Some(After(g, |payload|, pages)) else None
  }

  lemma HoldsFacts(g: Geometry, mem: Bytes, payload: Bytes, pages: seq<Bytes>)
    requires Holds(g, mem, payload, pages).Some?
    ensures g.Valid() && g.data <= End(g, pages) <= |mem|
    ensures ErasedFrom(g, mem, End(g, pages))
    ensures InStep(g, payload, Holds(g, mem, payload, pages).value)
  {}

  lemma HoldsPages(g: Geometry, mem: Bytes, payload: Bytes, pages: seq<Bytes>)
    requires Holds(g, mem, payload, pages).Some?
    ensures Pages(g, pages) && End(g, pages) <= |mem| && mem[g.data..End(g, pages)] == Concat(pages)
  {}

  /** The scan holds a prefix of the payload, in full blocks until it is complete. */
  predicate InStep(g: Geometry, payload: Bytes, s: Scan) {
    && s.data <= payload
    && (s.data == payload || |s.data| == Span(s.good, g.eff))
  }

  /** The block that comes next in state `s`. */
  function NextBlock(g: Geometry, payload: Bytes, s: Scan): (d: Bytes)
    requires |s.data| <= |payload|
    ensures |d| == Chunk(g, |payload|, s)
  {
    payload[|s.data|..|s.data| + Chunk(g, |payload|, s)]
  }

  /** `page` holds the sealed block that comes next in state `s`. */
  predicate SealedNext(g: Geometry, payload: Bytes, s: Scan, page: Bytes) {
    && |page| == g.page
    && InStep(g, payload, s) && |s.data| < |payload|
    && IsSealed(g.codec, g.iv0 + s.good, NextBlock(g, payload, s), page)
  }

  /** A page of this payload that was programmed completely never looks erased. */
  ghost predicate Visible(g: Geometry, payload: Bytes) {
    forall s: Scan, page: Bytes :: SealedNext(g, payload, s, page) ==> !IsBlank(page, g.erased)
  }

  /** Nor does one of any other payload of `size` bytes. */
  ghost predicate AllVisible(g: Geometry, size: nat) {
    forall p: Bytes :: |p| == size ==> Visible(g, p)
  }

  /** What the layout must promise for a power cut to leave nothing but a prefix of this
      payload: in addition, every tear of a page is detected. */
  ghost predicate Robust(g: Geometry, payload: Bytes) {
    && Visible(g, payload)
    && (forall s: Scan, page: Bytes, t: nat :: SealedNext(g, payload, s, page) && t <= |page| ==>
          Harmless(g, payload, s, page, t))
  }

  /** Stopping after byte `t` of `page` is detected. */
  predicate Harmless(g: Geometry, payload: Bytes, s: Scan, page: Bytes, t: nat)
    requires SealedNext(g, payload, s, page) && t <= |page|
  {
    TearDetected(g.codec, g.iv0 + s.good, NextBlock(g, payload, s), page, t, g.erased)
  }

  lemma EmptyHolds(g: Geometry, mem: Bytes, payload: Bytes)
    requires g.Valid() && g.data <= |mem| && ErasedFrom(g, mem, g.data) && (g.resume ==> |mem| <= g.limit)
    ensures Holds(g, mem, payload, []) == Some(START)
  {
    assert mem[g.data..g.data] == [];
  }

  /** The same storage, for a payload of the same length that starts with what is held. */
  lemma HoldsOther(g: Geometry, mem: Bytes, payload: Bytes, other: Bytes, pages: seq<Bytes>)
    requires Holds(g, mem, payload, pages).Some? && |other| == |payload|
    requires Holds(g, mem, payload, pages).value.data <= other
    ensures Holds(g, mem, other, pages) == Holds(g, mem, payload, pages)
  {
    hide After, Used, TornOnly, Span;
  }

  // ---- How much storage a payload takes --------------------------------------

  /** How many blocks the last `rest` bytes of a payload take. */
  function Blocks(rest: nat, eff: nat): (n: nat)
    requires eff > 0
  {
    if rest == 0 then 0 else 1 + Blocks(rest - Min(rest, eff), eff)
  }

  lemma {:induction false} BlocksMono(a: nat, b: nat, eff: nat)
    requires eff > 0 && a <= b
    ensures Blocks(a, eff) <= Blocks(b, eff)
  {
    if a > 0 {
      BlocksMono(a - Min(a, eff), b - Min(b, eff), eff);
    }
  }

  /** The length of the last block. */
  function LastLen(size: nat, eff: nat): (r: nat)
    requires eff > 0
    ensures r <= size && r <= eff && (size > 0 ==> r > 0)
  {
    if size <= eff then size else LastLen(size - eff, eff)
  }

  lemma {:induction false} LastLenIs(done: nat, size: nat, eff: nat)
    requires eff > 0 && Multiple(done, eff) && done < size <= done + eff
    ensures LastLen(size, eff) == size - done
  {
    if done > 0 {
      LastLenIs(done - eff, size - eff, eff);
    }
  }

  lemma {:induction false} LastLenSplit(size: nat, eff: nat) returns (m: nat)
    requires eff > 0 && size > 0
    ensures size == Span(m, eff) + LastLen(size, eff) && Blocks(size, eff) == m + 1
  {
    if size <= eff {
      m := 0;
      assert Blocks(size - Min(size, eff), eff) == 0;
    } else {
      m := LastLenSplit(size - eff, eff);
      m := m + 1;
    }
  }

  /** The end of the data area of a payload of `size` bytes, in whole pages. */
  function DataEnd(g: Geometry, size: nat): nat
    requires g.eff > 0
  {
    g.data + Span(Blocks(size, g.eff), g.page)
  }

  lemma {:induction false} BlocksOfSpan(k: nat, rest: nat, eff: nat)
    requires eff > 0
    ensures Blocks(Span(k, eff) + rest, eff) == k + Blocks(rest, eff)
  {
    if k > 0 {
      assert Span(k, eff) == Span(k - 1, eff) + eff;
      if Span(k, eff) + rest > eff {
        BlocksOfSpan(k - 1, rest, eff);
      } else {
        assert rest == 0 && Span(k - 1, eff) == 0;
        assert k == 1;
        assert Blocks(Span(k, eff) + rest - Min(Span(k, eff) + rest, eff), eff) == 0;
      }
    }
  }

  lemma {:induction false} EndIs(g: Geometry, pages: seq<Bytes>)
    requires Pages(g, pages)
    ensures End(g, pages) == g.data + Span(|pages|, g.page)
  {
    if pages != [] {
      EndIs(g, pages[..|pages| - 1]);
    }
  }

  lemma {:induction false} SpanSum(a: nat, b: nat, d: nat)
    ensures Span(a + b, d) == Span(a, d) + Span(b, d)
  {
    if b > 0 {
      SpanSum(a, b - 1, d);
    }
  }

  /** Without resume, the next `k` pages lie inside the data area computed from the payload
      size, if they are for full blocks, or `k` is one. */
  lemma NextPagesInside(g: Geometry, mem: Bytes, payload: Bytes, pages: seq<Bytes>, k: nat)
    requires Holds(g, mem, payload, pages).Some? && !g.resume
    requires var s := Holds(g, mem, payload, pages).value;
             |s.data| < |payload| && (k <= 1 || |s.data| + Span(k, g.eff) <= |payload|)
    ensures End(g, pages) + Span(k, g.page) <= DataEnd(g, |payload|)
  {
    hide Concat, After;
    var s := Holds(g, mem, payload, pages).value;
    EndIs(g, pages);
    BlocksOfSpan(s.good, |payload| - |s.data|, g.eff);
    BlocksAtLeast(k, |payload| - |s.data|, g.eff);
    SpanSum(|pages|, k, g.page);
    SpanMono(|pages| + k, Blocks(|payload|, g.eff), g.page);
  }

  /** Enough storage was erased for the download: to the end of the device, which resume
      builds need, or to the end of the data area of a payload of `size` bytes. */
  predicate Roomy(g: Geometry, mem: Bytes, size: nat) {
    g.eff > 0 && (|mem| <= g.limit || (!g.resume && DataEnd(g, size) <= g.limit))
  }

  /** The pages that come next are erased. */
  lemma NextPagesErased(g: Geometry, mem: Bytes, payload: Bytes, pages: seq<Bytes>, k: nat)
    requires Holds(g, mem, payload, pages).Some? && Roomy(g, mem, |payload|)
    requires var s := Holds(g, mem, payload, pages).value;
             |s.data| < |payload| && (k <= 1 || (!g.resume && |s.data| + Span(k, g.eff) <= |payload|))
    ensures forall i :: End(g, pages) <= i < End(g, pages) + Span(k, g.page) && i < |mem| ==> mem[i] == g.erased
    ensures !g.resume ==> End(g, pages) + Span(k, g.page) <= DataEnd(g, |payload|)
  {
    hide Holds, Concat, Span, Blocks;
    HoldsFacts(g, mem, payload, pages);
    if !g.resume {
      NextPagesInside(g, mem, payload, pages, k);
    }
  }

  lemma BlocksAtLeast(k: nat, rest: nat, eff: nat)
    requires eff > 0 && rest > 0 && (k <= 1 || Span(k, eff) <= rest)
    ensures k <= Blocks(rest, eff)
  {
    if k > 1 {
      BlocksOfSpan(k, rest - Span(k, eff), eff);
    }
  }

  // ---- Changing one page --------------------------------------------------

  /** The used part of the storage, and the erased rest. */
  predicate Used(g: Geometry, mem: Bytes, pages: seq<Bytes>) {
    && End(g, pages) <= |mem|
    && mem[g.data..End(g, pages)] == Concat(pages)
    && ErasedFrom(g, mem, End(g, pages))
  }

  lemma UsedExtend(g: Geometry, mem: Bytes, pages: seq<Bytes>, page: Bytes)
    requires Used(g, mem, pages) && End(g, pages) + |page| <= |mem|
    ensures Used(g, Splice(mem, End(g, pages), page), pages + [page])
  {
    ConcatSnoc(pages, page);
    var w := End(g, pages);
    var mem' := Splice(mem, w, page);
    assert mem'[g.data..w] == mem[g.data..w];
    assert mem'[w..w + |page|] == page;
    assert mem'[g.data..w + |page|] == mem'[g.data..w] + mem'[w..w + |page|];
  }

  /** The next block brings the scan one step further. */
  lemma InStepNext(g: Geometry, payload: Bytes, s: Scan)
    requires InStep(g, payload, s) && |s.data| < |payload|
    ensures InStep(g, payload, Scan(s.good + 1, s.data + NextBlock(g, payload, s)))
  {
    var d := NextBlock(g, payload, s);
    assert s.data + d == payload[..|s.data| + |d|];
  }

  /** Appending a bad page or the next block to the used part of the data area. */
  lemma StoredExtend(g: Geometry, mem: Bytes, payload: Bytes, pages: seq<Bytes>, page: Bytes)
    requires Stored(g, mem, payload, pages) && |page| == g.page
    requires End(g, pages) + g.page <= |mem|
    requires g.resume ==> !IsBlank(page, g.erased)
    requires var s := After(g, |payload|, pages);
             var o := OpenNext(g, |payload|, s, page);
             || (g.resume && o == None && IsTorn(g, Chunk(g, |payload|, s), g.iv0 + s.good, page))
             || (|s.data| < |payload| && o == Some(NextBlock(g, payload, s)))
    ensures Stored(g, Splice(mem, End(g, pages), page), payload, pages + [page])
    ensures After(g, |payload|, pages + [page]) == StepPage(g, |payload|, After(g, |payload|, pages), page)
  {
    hide After, Used, OpenNext, Splice, Concat, Span, TornOnly, IsTorn;
    if g.resume {
      TornOnlySnoc(g, |payload|, pages, page);
    }
    AfterSnoc(g, |payload|, pages, page);
    UsedExtend(g, mem, pages, page);
    if |After(g, |payload|, pages).data| < |payload| {
      InStepNext(g, payload, After(g, |payload|, pages));
    }
  }

  lemma StoredFacts(g: Geometry, mem: Bytes, payload: Bytes, pages: seq<Bytes>)
    requires Stored(g, mem, payload, pages)
    ensures g.Valid() && Pages(g, pages)
  {}

  /** Programming the whole next block adds it. */
  lemma StoredAfterBlock(g: Geometry, mem: Bytes, payload: Bytes, pages: seq<Bytes>, page: Bytes)
    requires Stored(g, mem, payload, pages) && SealedNext(g, payload, After(g, |payload|, pages), page)
    requires End(g, pages) + g.page <= |mem| && (g.resume ==> !IsBlank(page, g.erased))
    ensures Stored(g, Splice(mem, End(g, pages), page), payload, pages + [page])
    ensures var s := After(g, |payload|, pages);
            After(g, |payload|, pages + [page]) == Scan(s.good + 1, s.data + NextBlock(g, payload, s))
  {
    hide Stored, After, Splice, Concat, IsSealed, IsBlank;
    StoredFacts(g, mem, payload, pages);
    var s := After(g, |payload|, pages);
    OpenSealed(g.codec, g.iv0 + s.good, NextBlock(g, payload, s), page);
    StoredExtend(g, mem, payload, pages, page);
  }

  /** Programming the next block, completely or up to any byte, keeps the format: the page
      stays erased in effect, turns out bad, or adds a block. That block is the next one if
      every tear is detected; if not, it may be any other, and what is held is a prefix of
      another payload. */
  lemma StoredAfterProgram(g: Geometry, mem: Bytes, payload: Bytes, pages: seq<Bytes>, page: Bytes, t: nat)
    returns (payload': Bytes, pages': seq<Bytes>)
    requires Stored(g, mem, payload, pages) && g.resume
    requires SealedNext(g, payload, After(g, |payload|, pages), page) && t <= |page|
    requires End(g, pages) + g.page <= |mem|
    ensures |payload'| == |payload| && Stored(g, Splice(mem, End(g, pages), page[..t]), payload', pages')
    ensures var s, s' := After(g, |payload|, pages), After(g, |payload|, pages');
            && s.data <= payload' && s.data <= s'.data
            && |s'.data| <= |s.data| + Chunk(g, |payload|, s)
    ensures End(g, pages') <= End(g, pages) + g.page
    ensures Robust(g, payload) ==> payload' == payload
  {
    hide After, Stored, Splice, Concat, IsSealed, Visible, OpenNext;
    StoredFacts(g, mem, payload, pages);
    var s, q := After(g, |payload|, pages), Torn(page, t, g.erased);
    ConcatSnoc(pages, q);
    payload', pages' := payload, pages;
    if IsBlank(q, g.erased) {
      CutBlank(g, mem, payload, pages, page, t);
    } else if OpenNext(g, |payload|, s, q).None? {
      pages' := pages + [q];
      CutBad(g, mem, payload, pages, page, t);
    } else {
      pages' := pages + [q];
      payload' := CutPassed(g, mem, payload, pages, page, t);
    }
  }

  lemma CutBlank(g: Geometry, mem: Bytes, payload: Bytes, pages: seq<Bytes>, page: Bytes, t: nat)
    requires Stored(g, mem, payload, pages) && g.resume && |page| == g.page && t <= |page|
    requires End(g, pages) + g.page <= |mem| && IsBlank(Torn(page, t, g.erased), g.erased)
    ensures Splice(mem, End(g, pages), page[..t]) == mem
  {
    hide After, Concat, TornOnly, Splice;
    TornSplice(g, mem, End(g, pages), page, t);
    BlankSplice(g, mem, End(g, pages), Torn(page, t, g.erased));
  }

  lemma CutBad(g: Geometry, mem: Bytes, payload: Bytes, pages: seq<Bytes>, page: Bytes, t: nat)
    requires Stored(g, mem, payload, pages) && g.resume && t <= |page|
    requires var s := After(g, |payload|, pages);
             var q := Torn(page, t, g.erased);
             && SealedNext(g, payload, s, page) && !IsBlank(q, g.erased) && OpenNext(g, |payload|, s, q).None?
    requires End(g, pages) + g.page <= |mem|
    ensures var mem', q := Splice(mem, End(g, pages), page[..t]), Torn(page, t, g.erased);
            && Stored(g, mem', payload, pages + [q])
            && After(g, |payload|, pages + [q]) == After(g, |payload|, pages)
  {
    hide After, Concat, TornOnly, Splice, IsSealed;
    var s, q := After(g, |payload|, pages), Torn(page, t, g.erased);
    TornSplice(g, mem, End(g, pages), page, t);
    assert IsTornOf(g, Chunk(g, |payload|, s), g.iv0 + s.good, q, NextBlock(g, payload, s), page, t);
    StoredExtend(g, mem, payload, pages, q);
  }

  lemma CutPassed(g: Geometry, mem: Bytes, payload: Bytes, pages: seq<Bytes>, page: Bytes, t: nat)
    returns (payload': Bytes)
    requires Stored(g, mem, payload, pages) && g.resume && t <= |page|
    requires var s := After(g, |payload|, pages);
             var q := Torn(page, t, g.erased);
             && SealedNext(g, payload, s, page) && !IsBlank(q, g.erased) && OpenNext(g, |payload|, s, q).Some?
    requires End(g, pages) + g.page <= |mem|
    ensures var mem', q := Splice(mem, End(g, pages), page[..t]), Torn(page, t, g.erased);
            var s := After(g, |payload|, pages);
            && |payload'| == |payload| && s.data <= payload' && Stored(g, mem', payload', pages + [q])
            && After(g, |payload|, pages + [q]) == Scan(s.good + 1, s.data + NextBlock(g, payload', s))
    ensures Robust(g, payload) ==> payload' == payload
  {
    hide After, Concat, TornOnly, Splice, IsSealed, Visible;
    var s, q := After(g, |payload|, pages), Torn(page, t, g.erased);
    var d := OpenNext(g, |payload|, s, q).value;
    OpenNextLength(g, |payload|, s, q);
    payload' := Passed(payload, |s.data|, d);
    if Robust(g, payload) {
      assert Harmless(g, payload, s, page, t);
    }
    StoredOther(g, mem, payload, payload', pages);
    TornSplice(g, mem, End(g, pages), page, t);
    StoredExtend(g, mem, payload', pages, q);
  }

  lemma StoredOther(g: Geometry, mem: Bytes, payload: Bytes, other: Bytes, pages: seq<Bytes>)
    requires Stored(g, mem, payload, pages) && |other| == |payload|
    requires After(g, |payload|, pages).data <= other
    ensures Stored(g, mem, other, pages)
  {
    hide After, Used, TornOnly, Span;
  }

  lemma OpenNextLength(g: Geometry, size: nat, s: Scan, page: Bytes)
    requires g.Valid() && |page| == g.page && OpenNext(g, size, s, page).Some?
    ensures |OpenNext(g, size, s, page).value| == Chunk(g, size, s)
  {
    var c := g.codec.checker;
    assert g.codec.KeepsLength(g.iv0 + s.good, page[..c], page[c..c + Chunk(g, size, s)]);
  }

  /** The payload with other bytes from `at` on. */
  function Passed(payload: Bytes, at: nat, d: Bytes): (p: Bytes)
    ensures at + |d| <= |payload| ==> |p| == |payload| && p[..at] == payload[..at] && p[at..at + |d|] == d
    ensures at + |d| <= |payload| && d == payload[at..at + |d|] ==> p == payload
  {
    if at + |d| <= |payload| then payload[..at] + d + payload[at + |d|..] else payload
  }

  lemma TornSplice(g: Geometry, mem: Bytes, w: nat, page: Bytes, t: nat)
    requires w + |page| <= |mem| <= g.limit && ErasedFrom(g, mem, w) && t <= |page|
    ensures Splice(mem, w, page[..t]) == Splice(mem, w, Torn(page, t, g.erased))
  {
    var a, b := Splice(mem, w, page[..t]), Splice(mem, w, Torn(page, t, g.erased));
    forall i | 0 <= i < |mem|
      ensures a[i] == b[i]
    {
    }
  }

  lemma BlankSplice(g: Geometry, mem: Bytes, w: nat, q: Bytes)
    requires w + |q| <= |mem| <= g.limit && ErasedFrom(g, mem, w) && IsBlank(q, g.erased)
    ensures Splice(mem, w, q) == mem
  {
    var a := Splice(mem, w, q);
    forall i | 0 <= i < |mem|
      ensures a[i] == mem[i]
    {
    }
  }

  // ---- When a page never looks erased ------------------------------------------------

  predicate RejectsErased(g: Geometry, n: nat, iv: nat) {
    g.codec.open(iv, Fill(g.erased, g.codec.checker), Fill(g.erased, n)) == None
  }

  /** The length of the block with number `k`. */
  function BlockLen(g: Geometry, size: nat, k: nat): nat {
    if Span(k, g.eff) < size then Min(size - Span(k, g.eff), g.eff) else 0
  }

  /** Erased storage passes for none of the blocks of a payload of `size` bytes. */
  ghost predicate NoneErased(g: Geometry, size: nat) {
    forall k: nat :: Span(k, g.eff) < size ==> RejectsErased(g, BlockLen(g, size, k), g.iv0 + k)
  }

  lemma BlankIsErased(g: Geometry, payload: Bytes, s: Scan, page: Bytes)
    requires g.Valid() && SealedNext(g, payload, s, page) && IsBlank(page, g.erased)
    ensures Span(s.good, g.eff) < |payload| && !RejectsErased(g, BlockLen(g, |payload|, s.good), g.iv0 + s.good)
  {
    var c, n := g.codec.checker, Chunk(g, |payload|, s);
    OpenSealed(g.codec, g.iv0 + s.good, NextBlock(g, payload, s), page);
    assert page[..c] == Fill(g.erased, c) && page[c..c + n] == Fill(g.erased, n);
  }

  /** A block that is stored as erased bytes. */
  lemma ErasedBlock(g: Geometry, l: Layout, n: nat, iv: nat) returns (d: Bytes)
    requires g.Valid() && g.codec.Implements(l) && !l.Plain? && !RejectsErased(g, n, iv)
    ensures |d| == n && g.codec.seal(iv, d) == (Fill(g.erased, g.codec.checker), Fill(g.erased, n))
  {
    hide Codec.Lawful, Open, Seal;
    var c, b := Fill(g.erased, g.codec.checker), Fill(g.erased, n);
    assert g.codec.ReadsAs(l, iv, c, b);
    Reseals(l, iv, c, b);
    d := Open(l, iv, c, b).value;
    assert g.codec.SealsAs(l, iv, d);
  }

  /** A payload with that block as number `k`. */
  lemma ErasedIsBlank(g: Geometry, size: nat, k: nat, d: Bytes) returns (payload: Bytes)
    requires g.Valid() && Span(k, g.eff) < size && |d| == BlockLen(g, size, k)
    requires g.codec.seal(g.iv0 + k, d) == (Fill(g.erased, g.codec.checker), Fill(g.erased, |d|))
    ensures |payload| == size && !Visible(g, payload)
  {
    hide Codec.Lawful;
    var at, c := Span(k, g.eff), g.codec.checker;
    payload := Fill(0, at) + d + Fill(0, size - at - |d|);
    var s, page := Scan(k, Fill(0, at)), Fill(g.erased, g.page);
    assert s.data <= payload && NextBlock(g, payload, s) == d;
    assert page[..c] == Fill(g.erased, c) && page[c..c + |d|] == Fill(g.erased, |d|);
    assert SealedNext(g, payload, s, page) && IsBlank(page, g.erased);
  }

  /** No page of any payload of `size` bytes looks erased if and only if erased storage
      passes for none of its blocks. */
  lemma VisibleExactly(g: Geometry, l: Layout, size: nat)
    requires g.Valid() && g.codec.Implements(l) && !l.Plain?
    ensures AllVisible(g, size) <==> NoneErased(g, size)
  {
    hide Codec.Lawful, Codec.Implements, RejectsErased, SealedNext, IsBlank;
    if NoneErased(g, size) {
      forall p: Bytes | |p| == size
        ensures Visible(g, p)
      {
        forall s: Scan, page: Bytes | SealedNext(g, p, s, page)
          ensures !IsBlank(page, g.erased)
        {
          if IsBlank(page, g.erased) {
            BlankIsErased(g, p, s, page);
          }
        }
      }
    } else {
      var k: nat :| Span(k, g.eff) < size && !RejectsErased(g, BlockLen(g, size, k), g.iv0 + k);
      var d := ErasedBlock(g, l, BlockLen(g, size, k), g.iv0 + k);
      var p := ErasedIsBlank(g, size, k, d);
    }
  }

  /** Behind checksums, on 0xFF-erased storage, only the length of a block decides. */
  lemma ChecksumRejects(g: Geometry, n: nat, iv: nat)
    requires g.codec == CodecOf(Checksummed) && g.erased == 255
    ensures RejectsErased(g, n, iv) <==> n % 0x1_0000 != 257
  {
    ErasedChecksumExact(n);
    hide Checksum;
    assert g.codec.open(iv, Fill(255, 2), Fill(255, n)) == Open(Checksummed, iv, Fill(255, 2), Fill(255, n));
  }

  /** Its blocks are full ones and a last one. */
  lemma BlockLenIs(g: Geometry, size: nat, k: nat)
    requires g.eff > 0 && Span(k, g.eff) < size
    ensures var n := BlockLen(g, size, k); n == LastLen(size, g.eff) || (n == g.eff && size > g.eff)
  {
    if size - Span(k, g.eff) <= g.eff {
      SpanIsMultiple(k, g.eff);
      LastLenIs(Span(k, g.eff), size, g.eff);
    }
  }

  lemma {:induction false} SpanIsMultiple(k: nat, d: nat)
    requires d > 0
    ensures Multiple(Span(k, d), d)
  {
    if k > 0 {
      SpanIsMultiple(k - 1, d);
    }
  }

  /** Behind checksums, on 0xFF-erased storage: no page of any payload of `size` bytes looks
      erased if and only if neither its last block nor its full ones have 257 bytes, modulo
      65536. */
  lemma ChecksumsVisible(g: Geometry, size: nat)
    requires g.Valid() && g.codec == CodecOf(Checksummed) && g.erased == 255 && size > 0
    ensures AllVisible(g, size)
        <==> LastLen(size, g.eff) % 0x1_0000 != 257 && (size <= g.eff || g.eff % 0x1_0000 != 257)
  {
    hide AllVisible, RejectsErased, CodecOf, LastLen, Codec.Lawful;
    LayoutsLawful(Checksummed);
    VisibleExactly(g, Checksummed, size);
    var m := LastLenSplit(size, g.eff);
    ChecksumRejects(g, LastLen(size, g.eff), g.iv0 + m);
    ChecksumRejects(g, g.eff, g.iv0);
    if NoneErased(g, size) {
      assert RejectsErased(g, BlockLen(g, size, m), g.iv0 + m);
      assert Span(0, g.eff) == 0;
      assert RejectsErased(g, BlockLen(g, size, 0), g.iv0 + 0);
    } else {
      var k: nat :| Span(k, g.eff) < size && !RejectsErased(g, BlockLen(g, size, k), g.iv0 + k);
      BlockLenIs(g, size, k);
      ChecksumRejects(g, BlockLen(g, size, k), g.iv0 + k);
    }
  }

  /** A payload of short blocks behind checksums is robust on 0xFF-erased storage. */
  lemma ShortBlocksAreRobust(g: Geometry, payload: Bytes)
    requires g.Valid() && g.codec == CodecOf(Checksummed) && g.erased == 255 && g.eff <= 255
    ensures Robust(g, payload)
  {
    forall s: Scan, page: Bytes | SealedNext(g, payload, s, page)
      ensures !IsBlank(page, g.erased)
    {
      ShortBlockNotBlank(NextBlock(g, payload, s), page);
    }
    forall s: Scan, page: Bytes, t: nat | SealedNext(g, payload, s, page) && t <= |page|
      ensures Harmless(g, payload, s, page, t)
    {
      TearDetectionExact(|NextBlock(g, payload, s)|);
      assert TearDetected(CodecOf(Checksummed), 0, NextBlock(g, payload, s), page, t, 255);
    }
  }

  lemma ShortBlockNotBlank(d: Bytes, page: Bytes)
    requires |d| <= 255 && IsSealed(CodecOf(Checksummed), 0, d, page)
    ensures !IsBlank(page, 255)
  {
    var p := page[..2 + |d|];
    assert p[..2] == page[..2] && p[2..2 + |d|] == page[2..2 + |d|];
    NeverBlankExact(|d|, 255);
    assert IsSealed(CodecOf(Checksummed), 0, d, p);
  }

  /** A page with a block of 256 zero bytes. */
  function ZerosPage(g: Geometry): (page: Bytes)
    requires g.Valid() && g.codec == CodecOf(Checksummed) && g.eff > 255
    ensures |page| == g.page && page[0] == 0 && SealedNext(g, Fill(0, 256), START, page)
  {
    var d := Fill(0, 256);
    var page := [0, 0] + d + Fill(0, g.eff - 256);
    SumFill(0, 256);
    assert page[..2] == Le16(Checksum(d)) && page[2..2 + 256] == d;
    assert NextBlock(g, d, START) == d;
    page
  }
}
