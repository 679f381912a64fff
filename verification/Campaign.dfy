/** A whole update of a resume build, over any number of power cuts: boot, scan
    what is on storage, erase or go on, download, check the digest, mark the
    candidate ready (fota.c, fota_on_download_authorize to write_candidate_ready). */
module Campaign {
  import opened Bytes
  import opened BlockLayout
  import opened CandidateFormat
  import opened BlockDevice
  import opened Writer
  import opened Resume

  /** What the manifest and the build fix for the whole campaign. */
  datatype Update = Update(area: Area, layout: Layout, size: nat, digest: Bytes, readyHeader: Bytes, available: nat,
                           hash: Bytes -> Bytes)
  {
    ghost predicate Valid() {
      && area.Valid() && area.g.codec.Implements(layout) && !layout.Plain?
      && |readyHeader| == area.ready && IsReady(readyHeader, area.struct)
    }

    /** The headers and pages are whole program units, the storage ends with the device
        and consists of sectors, and an erase that stops between two of them is safe. */
    ghost predicate Fits(bd: Device)
      reads bd`mem
    {
      FitsSize(bd, |bd.mem|)
    }

    ghost predicate FitsSize(bd: Device, size: nat) {
      && area.g.erased == bd.erased && bd.readSize > 0 && bd.progSize > 0 && bd.eraseSize > 0
      && Multiple(bd.progSize, bd.readSize)
      && Multiple(area.start, bd.progSize) && Multiple(area.ready, bd.progSize)
      && Multiple(|area.header|, bd.progSize) && Multiple(area.g.page, bd.progSize)
      && Multiple(area.start, bd.eraseSize)
      && area.start <= area.g.data <= size <= area.g.limit && Multiple(size - area.start, bd.eraseSize)
      && ErasesSafely(area, bd.eraseSize)
    }
  }

  /** An erase that stops after `n` bytes leaves the firmware header alone or leaves nothing
      of it that counts. */
  predicate SafeStop(a: Area, n: nat) {
    || n <= a.ready || a.ready + |a.header| <= n
    || a.header[|a.header| - 1] == a.g.erased || IsBlank(a.header[..n - a.ready], a.g.erased)
  }

  ghost predicate ErasesSafely(a: Area, eraseSize: nat)
    requires eraseSize > 0
  {
    forall n: nat :: Multiple(n, eraseSize) ==> SafeStop(a, n)
  }

  /** Headers that share the first sector are never cut in two. */
  lemma FirstSectorSafe(a: Area, eraseSize: nat)
    requires eraseSize > 0 && a.ready + |a.header| <= eraseSize
    ensures ErasesSafely(a, eraseSize)
  {
    forall n: nat | Multiple(n, eraseSize)
      ensures SafeStop(a, n)
    {
      if n > 0 {
        MultipleGap(0, n, eraseSize);
      }
    }
  }

  predicate HeaderIn(a: Area, mem: Bytes)
    requires a.start + a.ready <= a.g.data
  {
    a.g.data <= |mem| && mem[a.start + a.ready..a.g.data] == a.header
  }

  /** The storage between two boots: whatever the headers claim is true. A candidate ready
      header, even a part of one, stands for a complete payload with the right digest, a
      firmware header for a prefix of the payload. */
  ghost predicate Truthful(u: Update, mem: Bytes, payload: Bytes, pages: seq<Bytes>)
    requires u.area.Valid()
  {
    var a := u.area;
    && |payload| == u.size && a.g.data <= |mem|
    && (if IsBlank(mem[a.start..a.start + a.ready], a.g.erased) then
          mem[a.g.data - 1] != a.g.erased ==> HeaderIn(a, mem) && Holds(a.g, mem, payload, pages).Some?
        else HeaderIn(a, mem) && Stores(u, mem, payload, pages) && u.hash(payload) == u.digest)
  }

  /** The good blocks are the whole payload. */
  ghost predicate Stores(u: Update, mem: Bytes, payload: Bytes, pages: seq<Bytes>) {
    var h := Holds(u.area.g, mem, payload, pages);
    h.Some? && h.value.data == payload
  }

  /** The header is in place, no candidate ready header is, and what the data area
      holds is a prefix of the payload. */
  ghost function Underway(u: Update, mem: Bytes, payload: Bytes, pages: seq<Bytes>): Option<Scan>
    requires u.area.Valid()
  {
    if |payload| == u.size && HeaderIn(u.area, mem)
       && IsBlank(mem[u.area.start..u.area.start + u.area.ready], u.area.g.erased)
    then Holds(u.area.g, mem, payload, pages) else None
  }

  // ---- Steps on the storage ---------------------------------------------------

  lemma HeadersBelow(a: Area, mem: Bytes, mem': Bytes)
    requires a.Valid() && SameBelow(mem', mem, a.g.data)
    ensures a.Headers(mem') == a.Headers(mem)
    ensures HeaderIn(a, mem') == HeaderIn(a, mem)
  {
    SliceBelow(mem', a.g.data, a.start, a.start + a.ready);
    SliceBelow(mem, a.g.data, a.start, a.start + a.ready);
    SliceBelow(mem', a.g.data, a.start + a.ready, a.g.data);
    SliceBelow(mem, a.g.data, a.start + a.ready, a.g.data);
    assert mem'[a.g.data - 1] == mem'[..a.g.data][a.g.data - 1];
    assert mem[a.g.data - 1] == mem[..a.g.data][a.g.data - 1];
  }

  lemma SliceBelow(mem: Bytes, n: nat, lo: nat, hi: nat)
    requires lo <= hi <= n <= |mem|
    ensures mem[lo..hi] == mem[..n][lo..hi]
  {
    SliceOfSlice(mem, 0, n, lo, hi);
  }

  /** An erase that stops at a safe place keeps the headers true; a complete one leaves
      everything erased. */
  lemma AfterErase(u: Update, mem: Bytes, payload: Bytes, pages: seq<Bytes>, n: nat)
    requires u.area.Valid() && Truthful(u, mem, payload, pages) && u.area.start + n <= |mem| && SafeStop(u.area, n)
    ensures var mem' := Splice(mem, u.area.start, Fill(u.area.g.erased, n));
            && Truthful(u, mem', payload, pages)
            && (u.area.start + n == |mem| ==> ErasedFrom(u.area.g, mem', u.area.start))
  {
    hide Holds;
    var a := u.area;
    var mem' := Splice(mem, a.start, Fill(a.g.erased, n));
    if n < a.ready + |a.header| {
      ErasedFront(u, mem, payload, pages, n);
    } else {
      assert mem'[a.g.data - 1] == a.g.erased;
      assert IsBlank(mem'[a.start..a.start + a.ready], a.g.erased);
    }
  }

  lemma ErasedFront(u: Update, mem: Bytes, payload: Bytes, pages: seq<Bytes>, n: nat)
    requires u.area.Valid() && Truthful(u, mem, payload, pages) && n < u.area.ready + |u.area.header|
    requires SafeStop(u.area, n)
    ensures Truthful(u, Splice(mem, u.area.start, Fill(u.area.g.erased, n)), payload, pages)
  {
    hide Holds, IsBlank, HeaderIn, Splice, Codec.Lawful;
    var a := u.area;
    var mem' := Splice(mem, a.start, Fill(a.g.erased, n));
    SpliceAt(mem, a.start, Fill(a.g.erased, n), a.g.data - 1);
    RegionErased(a, mem, n);
    if HeaderIn(a, mem) {
      HeaderErased(a, mem, n);
      LastByte(a, mem);
    }
    if Holds(a.g, mem, payload, pages).Some? {
      SpliceBelow(mem, a.start, Fill(a.g.erased, n), a.g.data);
      HoldsAbove(a.g, mem, mem', payload, pages);
    }
  }

  lemma SpliceBelow(mem: Bytes, at: nat, data: Bytes, n: nat)
    requires at + |data| <= n <= |mem|
    ensures Splice(mem, at, data)[n..] == mem[n..]
  {}

  lemma RegionErased(a: Area, mem: Bytes, n: nat)
    requires a.Valid() && a.g.data <= |mem| && n < a.ready + |a.header|
    ensures var mem' := Splice(mem, a.start, Fill(a.g.erased, n));
            IsBlank(mem[a.start..a.start + a.ready], a.g.erased) || a.ready <= n
            ==> IsBlank(mem'[a.start..a.start + a.ready], a.g.erased)
  {
    var r, r' := mem[a.start..a.start + a.ready], Splice(mem, a.start, Fill(a.g.erased, n))[a.start..a.start + a.ready];
    forall i | 0 <= i < a.ready
      ensures r'[i] == if i < n then a.g.erased else r[i]
    {
    }
  }

  lemma HeaderErased(a: Area, mem: Bytes, n: nat)
    requires a.Valid() && HeaderIn(a, mem) && n < a.ready + |a.header|
    ensures var mem' := Splice(mem, a.start, Fill(a.g.erased, n));
            HeaderIn(a, mem') <==> n <= a.ready || IsBlank(a.header[..n - a.ready], a.g.erased)
  {
    hide Splice, Codec.Lawful;
    var mem' := Splice(mem, a.start, Fill(a.g.erased, n));
    var h := mem'[a.start + a.ready..a.g.data];
    forall i | 0 <= i < |a.header|
      ensures h[i] == if a.ready + i < n then a.g.erased else a.header[i]
    {
      SpliceAt(mem, a.start, Fill(a.g.erased, n), a.start + a.ready + i);
      assert h[i] == mem'[a.start + a.ready + i];
      assert a.header[i] == mem[a.start + a.ready..a.g.data][i];
    }
    if n <= a.ready {
      assert h == a.header;
    } else {
      FrontKept(h, a.header, n - a.ready, a.g.erased);
    }
  }

  /** A header whose first `k` bytes were erased is unchanged if they were so before. */
  lemma FrontKept(h: Bytes, header: Bytes, k: nat, erased: byte)
    requires |h| == |header| && k < |header|
    requires forall i :: 0 <= i < |h| ==> h[i] == if i < k then erased else header[i]
    ensures h == header <==> IsBlank(header[..k], erased)
  {
    var front := header[..k];
    if IsBlank(front, erased) {
      forall i | 0 <= i < |h|
        ensures h[i] == header[i]
      {
        if i < k {
          assert header[i] == front[i];
        }
      }
    }
    if h == header {
      forall i | 0 <= i < k
        ensures front[i] == erased
      {
        assert front[i] == header[i] == h[i];
      }
    }
  }

  ghost predicate Explained(u: Update, mem: Bytes)
    requires u.area.Valid()
  {
    exists payload, pages :: Truthful(u, mem, payload, pages)
  }

  /** Whatever was on storage, an erase that stops after `n` bytes leaves headers that are
      true if and only if that is a safe place to stop; otherwise a part of the firmware
      header is taken for all of it. */
  lemma EraseStopExactly(u: Update, n: nat)
    requires u.Valid() && u.area.g.data <= u.area.g.limit
    ensures (forall mem, payload, pages :: Truthful(u, mem, payload, pages) && u.area.start + n <= |mem| ==>
               Explained(u, Splice(mem, u.area.start, Fill(u.area.g.erased, n))))
        <==> SafeStop(u.area, n)
  {
    if SafeStop(u.area, n) {
      forall mem, payload, pages | Truthful(u, mem, payload, pages) && u.area.start + n <= |mem|
        ensures Explained(u, Splice(mem, u.area.start, Fill(u.area.g.erased, n)))
      {
        hide Truthful, SafeStop;
        AfterErase(u, mem, payload, pages, n);
        assert Truthful(u, Splice(mem, u.area.start, Fill(u.area.g.erased, n)), payload, pages);
      }
    } else {
      var mem := PartOfHeader(u, n);
    }
  }

  /** A firmware header with nothing behind it, and an unsafe stop of the erase: the scan
      finds a download under way, but its header is not the one that was written. */
  lemma PartOfHeader(u: Update, n: nat) returns (mem: Bytes)
    requires u.Valid() && u.area.g.data <= u.area.g.limit && !SafeStop(u.area, n)
    ensures u.area.start + n <= |mem| && Truthful(u, mem, Fill(0, u.size), [])
    ensures var mem' := Splice(mem, u.area.start, Fill(u.area.g.erased, n));
            !Explained(u, mem') && u.area.Headers(mem') == Started
  {
    hide Holds, Codec.Lawful, Codec.Implements, IsBlank, HeaderIn;
    var a := u.area;
    mem := Fill(a.g.erased, a.start + a.ready) + a.header;
    HeaderAlone(a, mem);
    EmptyHolds(a.g, mem, Fill(0, u.size));
    PartTaken(a, mem, n);
  }

  lemma PartTaken(a: Area, mem: Bytes, n: nat)
    requires a.Valid() && HeaderIn(a, mem) && |mem| == a.g.data && !SafeStop(a, n)
    ensures var mem' := Splice(mem, a.start, Fill(a.g.erased, n));
            && IsBlank(mem'[a.start..a.start + a.ready], a.g.erased) && !HeaderIn(a, mem')
            && mem'[a.g.data - 1] != a.g.erased && a.Headers(mem') == Started
  {
    hide Codec.Lawful, HeaderIn, Splice, IsBlank, IsReady;
    var mem' := Splice(mem, a.start, Fill(a.g.erased, n));
    SpliceAt(mem, a.start, Fill(a.g.erased, n), a.g.data - 1);
    LastByte(a, mem);
    RegionErased(a, mem, n);
    HeaderErased(a, mem, n);
  }

  lemma LastByte(a: Area, mem: Bytes)
    requires a.Valid() && HeaderIn(a, mem)
    ensures mem[a.g.data - 1] == a.header[|a.header| - 1]
  {
    assert mem[a.g.data - 1] == mem[a.start + a.ready..a.g.data][|a.header| - 1];
  }

  lemma HeaderAlone(a: Area, mem: Bytes)
    requires a.Valid() && mem == Fill(a.g.erased, a.start + a.ready) + a.header
    ensures HeaderIn(a, mem) && IsBlank(mem[a.start..a.start + a.ready], a.g.erased)
  {}

  /** On erased storage, a torn program of the header leaves no header, and a
      complete one an empty data area behind it. */
  lemma AfterHeader(u: Update, mem: Bytes, payload: Bytes, t: nat)
    requires u.Valid() && |payload| == u.size && u.area.g.data <= |mem| <= u.area.g.limit
    requires ErasedFrom(u.area.g, mem, u.area.start) && t <= |u.area.header|
    ensures var mem' := Splice(mem, u.area.start + u.area.ready, u.area.header[..t]);
            && Truthful(u, mem', payload, [])
            && (t == |u.area.header| ==> Underway(u, mem', payload, []) == Some(START))
  {
    hide Holds;
    var a := u.area;
    var mem' := Splice(mem, a.start + a.ready, a.header[..t]);
    HeaderTorn(a, mem, t);
    if t == |a.header| {
      EmptyHolds(a.g, mem', payload);
    }
  }

  lemma HeaderTorn(a: Area, mem: Bytes, t: nat)
    requires a.Valid() && a.g.data <= |mem| <= a.g.limit && ErasedFrom(a.g, mem, a.start) && t <= |a.header|
    ensures var mem' := Splice(mem, a.start + a.ready, a.header[..t]);
            && IsBlank(mem'[a.start..a.start + a.ready], a.g.erased) && ErasedFrom(a.g, mem', a.g.data)
            && (if t < |a.header| then mem'[a.g.data - 1] == a.g.erased else HeaderIn(a, mem'))
  {
    var mem' := Splice(mem, a.start + a.ready, a.header[..t]);
    assert mem'[a.start..a.start + a.ready] == mem[a.start..a.start + a.ready];
    if t == |a.header| {
      assert mem'[a.start + a.ready..a.g.data] == a.header;
    }
  }

  /** The data area alone decides what is held. */
  lemma HoldsAbove(g: Geometry, mem: Bytes, mem': Bytes, payload: Bytes, pages: seq<Bytes>)
    requires Holds(g, mem, payload, pages).Some? && |mem'| == |mem|
    requires mem'[g.data..] == mem[g.data..]
    ensures Holds(g, mem', payload, pages) == Holds(g, mem, payload, pages)
  {
    HoldsFacts(g, mem, payload, pages);
    var e := End(g, pages);
    assert mem'[g.data..e] == mem'[g.data..][..e - g.data];
    assert mem[g.data..e] == mem[g.data..][..e - g.data];
    forall i | e <= i < |mem'| && i < g.limit
      ensures mem'[i] == g.erased
    {
      assert mem'[i] == mem'[g.data..][i - g.data];
      assert mem[i] == mem[g.data..][i - g.data];
    }
  }

  /** The candidate ready header is programmed last, so even a torn one is true. */
  lemma AfterReady(u: Update, mem: Bytes, payload: Bytes, pages: seq<Bytes>, t: nat)
    requires u.Valid() && HeaderIn(u.area, mem) && Stores(u, mem, payload, pages) && t <= u.area.ready
    requires |payload| == u.size && u.hash(payload) == u.digest
    ensures var mem' := Splice(mem, u.area.start, u.readyHeader[..t]);
            && Truthful(u, mem', payload, pages) && Stores(u, mem', payload, pages)
            && (t == u.area.ready ==> u.area.Headers(mem') == Complete)
  {
    hide Holds;
    var a := u.area;
    var mem' := Splice(mem, a.start, u.readyHeader[..t]);
    assert mem'[a.g.data..] == mem[a.g.data..];
    HoldsAbove(a.g, mem, mem', payload, pages);
    assert mem'[a.start + a.ready..a.g.data] == mem[a.start + a.ready..a.g.data];
    if t == a.ready {
      assert mem'[a.start..a.start + a.ready] == u.readyHeader;
      assert u.readyHeader[0] == u.readyHeader[..4][0] && u.readyHeader[1] == u.readyHeader[..4][1];
    }
  }

  /** On erased storage, a candidate ready header that is cut is taken for whole if and only
      if its last magic is whole. */
  lemma ReadyExactly(u: Update, mem: Bytes, t: nat)
    requires u.Valid() && t <= u.area.ready && u.area.g.data <= |mem|
    requires IsBlank(mem[u.area.start..u.area.start + u.area.ready], u.area.g.erased)
    requires u.area.g.erased != READY_MAGIC[0] && u.area.g.erased != READY_MAGIC[3]
    ensures u.area.Headers(Splice(mem, u.area.start, u.readyHeader[..t])) == Complete <==> t >= u.area.struct
  {
    hide Codec.Lawful, Codec.Implements, Splice;
    var a := u.area;
    var mem' := Splice(mem, a.start, u.readyHeader[..t]);
    var r, r' := mem[a.start..a.start + a.ready], mem'[a.start..a.start + a.ready];
    forall i | 0 <= i < a.ready
      ensures r'[i] == if i < t then u.readyHeader[i] else a.g.erased
    {
      SpliceAt(mem, a.start, u.readyHeader[..t], a.start + i);
      assert r'[i] == mem'[a.start + i] && r[i] == mem[a.start + i];
    }
    CutMagic(r', u.readyHeader, t, a.struct, a.g.erased);
  }

  lemma CutMagic(r: Bytes, h: Bytes, t: nat, struct: nat, erased: byte)
    requires 8 <= struct <= |r| == |h| && t <= |r| && IsReady(h, struct)
    requires forall i :: 0 <= i < |r| ==> r[i] == if i < t then h[i] else erased
    requires erased != READY_MAGIC[0] && erased != READY_MAGIC[3]
    ensures !IsBlank(r, erased) && IsReady(r, struct) <==> t >= struct
  {
    assert h[..4][0] == h[0] && h[struct - 4..struct][3] == h[struct - 1];
    if t >= struct {
      assert r[..4] == h[..4] && r[struct - 4..struct] == h[struct - 4..struct];
    } else {
      assert r[struct - 4..struct][3] == r[struct - 1] == erased;
    }
  }

  // ---- What the scan restores -----------------------------------------------------

  /** Where the scan stops at an erased page it has rebuilt exactly the state of
      the interrupted download, which is a whole number of full blocks. */
  lemma ScanRestores(g: Geometry, mem: Bytes, payload: Bytes, p: seq<Bytes>, q: seq<Bytes>)
    requires Holds(g, mem, payload, p).Some? && g.resume && Traced(g, mem, |payload|, q).Some?
    requires End(g, q) + g.page <= |mem| && IsBlank(mem[End(g, q)..End(g, q) + g.page], g.erased)
    ensures p == q && Traced(g, mem, |payload|, q) == Holds(g, mem, payload, p)
    ensures var s := Traced(g, mem, |payload|, q).value;
            s.data <= payload && (|s.data| < |payload| ==> |s.data| == Span(s.good, g.eff))
  {
    StopsBehindStored(g, mem, payload, p, q);
  }

  lemma {:induction false} EndAligned(g: Geometry, pages: seq<Bytes>, d: nat)
    requires d > 0 && Pages(g, pages) && Multiple(g.data, d) && Multiple(g.page, d)
    ensures Multiple(End(g, pages), d)
  {
    if pages != [] {
      EndAligned(g, pages[..|pages| - 1], d);
      MultipleAdd(End(g, pages[..|pages| - 1]), g.page, d);
    }
  }

  /** Once the scan counts as many bytes as the payload has, all of it is stored. */
  lemma ScanCompletes(u: Update, mem: Bytes, payload: Bytes, p: seq<Bytes>, q: seq<Bytes>)
    requires u.area.Valid() && Holds(u.area.g, mem, payload, p).Some?
    requires Traced(u.area.g, mem, |payload|, q).Some?
    requires |Traced(u.area.g, mem, |payload|, q).value.data| == |payload|
    ensures Traced(u.area.g, mem, |payload|, q).value.data == payload
    ensures Stores(u, mem, payload, p)
  {
    CompleteIsPayload(u.area.g, mem, payload, p, q);
    WalksStored(u.area.g, mem, payload, p, q);
    AfterGrows(u.area.g, |payload|, p, |q|);
  }

  /** In pages of more than 255 bytes, 256 zero bytes whose page was stopped after its first
      byte leave a storage that looks like a download under way and is none. */
  lemma TornZerosUntruthful(u: Update, mem: Bytes, page: Bytes, pages: seq<Bytes>)
    requires u.area.Valid() && u.area.g.codec == CodecOf(Checksummed) && u.area.g.erased == 255 && u.area.g.eff > 255
    requires u.area.g.data + u.area.g.page <= |mem| && |page| == u.area.g.page && page[0] == 0
    requires mem[u.area.g.data..u.area.g.data + u.area.g.page] == Torn(page, 1, 255)
    requires u.area.Headers(mem) == Started && u.size == 256
    ensures !Truthful(u, mem, Fill(0, 256), pages)
  {
    hide Holds;
    TornZerosLost(u.area.g, mem, page, pages);
  }

  // ---- One boot -------------------------------------------------------------------

  lemma UnderwayFacts(u: Update, mem: Bytes, payload: Bytes, pages: seq<Bytes>)
    requires u.Valid() && Underway(u, mem, payload, pages).Some?
    ensures Truthful(u, mem, payload, pages) && u.area.g.data <= |mem| && HeaderIn(u.area, mem) && |payload| == u.size
    ensures IsBlank(mem[u.area.start..u.area.start + u.area.ready], u.area.g.erased)
    ensures Holds(u.area.g, mem, payload, pages) == Underway(u, mem, payload, pages)
    ensures u.area.Headers(mem) != Complete
  {}

  lemma UnderwayBelow(u: Update, mem: Bytes, mem': Bytes, payload: Bytes, pages: seq<Bytes>,
                      payload': Bytes, pages': seq<Bytes>)
    requires u.Valid() && Underway(u, mem, payload, pages).Some? && SameBelow(mem', mem, u.area.g.data)
    requires |payload'| == |payload|
    ensures Underway(u, mem', payload', pages') == Holds(u.area.g, mem', payload', pages')
  {
    hide Holds, Area.Headers, IsBlank;
    HeadersBelow(u.area, mem, mem');
    var a := u.area;
    SliceBelow(mem', a.g.data, a.start, a.start + a.ready);
    SliceBelow(mem, a.g.data, a.start, a.start + a.ready);
  }

  method ProgramHeader(u: Update, bd: Device, ghost payload: Bytes) returns (ok: bool, ghost t: nat)
    requires u.Valid() && u.Fits(bd) && ErasedFrom(u.area.g, bd.mem, u.area.start) && |payload| == u.size
    modifies bd
    ensures |bd.mem| == |old(bd.mem)| && Truthful(u, bd.mem, payload, [])
    ensures t <= |u.area.header| && u.area.g.data == u.area.start + u.area.ready + |u.area.header| <= |bd.mem|
    ensures bd.mem == Splice(old(bd.mem), u.area.start + u.area.ready, u.area.header[..t])
    ensures ok <==> t == |u.area.header|
    ensures ok ==> Underway(u, bd.mem, payload, []) == Some(START)
    ensures bd.power == old(bd.power) - t && (!ok ==> bd.power == 0)
  {
    hide Multiple, Holds, Truthful, ErasesSafely;
    var a := u.area;
    MultipleAdd(a.start, a.ready, bd.progSize);
    t := Min(|a.header|, bd.power);
    AfterHeader(u, bd.mem, payload, t);
    ok := bd.Program(a.header, a.start + a.ready);
  }

  /** The storage after an erase of `n` bytes and the program of `t` bytes of the header. */
  function Restarted(a: Area, mem: Bytes, n: nat, t: nat): (mem': Bytes)
    requires a.start + a.ready <= a.g.data == a.start + a.ready + |a.header| <= |mem|
    requires a.start + n <= |mem| && t <= |a.header|
    ensures |mem'| == |mem|
  {
    Splice(Splice(mem, a.start, Fill(a.g.erased, n)), a.start + a.ready, a.header[..t])
  }

  /** calc_and_erase_needed_storage and prepare_and_program_header. `next` is what the
      source sends from now on; `n` and `t` are how far the erase and the program of the
      header came. */
  method StartAfresh(u: Update, bd: Device, ghost payload: Bytes, ghost pages: seq<Bytes>, ghost next: Bytes)
    returns (ok: bool, ghost n: nat, ghost t: nat)
    requires u.Valid() && u.Fits(bd) && Truthful(u, bd.mem, payload, pages) && |next| == u.size
    modifies bd
    ensures |bd.mem| == |old(bd.mem)| && u.area.start + n <= |bd.mem| && t <= |u.area.header| && SafeStop(u.area, n)
    ensures u.area.g.data == u.area.start + u.area.ready + |u.area.header| <= |bd.mem|
    ensures bd.mem == Restarted(u.area, old(bd.mem), n, t) && (t > 0 ==> u.area.start + n == |bd.mem|)
    ensures ok <==> u.area.start + n == |bd.mem| && t == |u.area.header|
    ensures ok ==> Underway(u, bd.mem, next, []) == Some(START) && bd.power == old(bd.power) - n - t
    ensures !ok ==> bd.power == 0 && old(bd.power) < 2 * |bd.mem|
    ensures !ok ==> if u.area.start + n < |bd.mem| then Truthful(u, bd.mem, payload, pages)
                    else Truthful(u, bd.mem, next, [])
  {
    hide Multiple, Holds, Truthful, SafeStop, Splice;
    var a := u.area;
    ghost var mem := bd.mem;
    TruthfulFacts(u, mem, payload, pages);
    ok, n := bd.Erase(a.start, |bd.mem| - a.start);
    AfterErase(u, mem, payload, pages, n);
    t := 0;
    SpliceNothing(bd.mem, a.start + a.ready);
    assert a.header[..0] == [];
    if ok {
      ok, t := ProgramHeader(u, bd, next);
    }
  }

  lemma TruthfulFacts(u: Update, mem: Bytes, payload: Bytes, pages: seq<Bytes>)
    requires u.Valid() && Truthful(u, mem, payload, pages)
    ensures |payload| == u.size && u.area.g.data <= |mem|
  {}

  datatype Status = More | Finished | Failed

  function Total(sizes: seq<nat>): nat {
    if sizes == [] then 0 else Total(sizes[..|sizes| - 1]) + sizes[|sizes| - 1]
  }

  /** The part of fota_ctx that lives while a download runs. `payload` is what is on
      storage, followed by what the source sends; a cut may leave something else. */
  class Session {
    const u: Update
    const writer: PageWriter
    var payloadOffset: nat
    var hashed: Bytes
    ghost var payload: Bytes

    ghost predicate Shape()
      reads this
    {
      && u.Valid() && writer.Shape() && writer.g == u.area.g && writer.layout == u.layout
      && |payload| == u.size && Visible(u.area.g, payload)
    }

    /** The payload up to the offset has been hashed and handed to the writer. */
    ghost predicate Running()
      requires Shape()
      reads this, writer, writer.bd`mem, writer.pageBuf
    {
      && payloadOffset <= u.size && hashed == payload[..payloadOffset]
      && writer.Fed(payload, payloadOffset)
      && Underway(u, writer.bd.mem, payload, writer.pages) == Some(writer.scan)
    }

    constructor (u: Update, writer: PageWriter, offset: nat, hashed: Bytes, ghost payload: Bytes)
      requires u.Valid() && writer.Shape() && writer.g == u.area.g && writer.layout == u.layout
      requires |payload| == u.size && Visible(u.area.g, payload)
      requires offset <= |payload| && hashed == payload[..offset] && writer.Fed(payload, offset)
      requires Underway(u, writer.bd.mem, payload, writer.pages) == Some(writer.scan)
      ensures this.u == u && this.writer == writer && this.payload == payload && payloadOffset == offset
      ensures Shape() && Running()
    {
      this.u, this.writer, this.payloadOffset, this.hashed, this.payload := u, writer, offset, hashed, payload;
    }

    /** Why a fragment cannot be stored. */
    ghost predicate Stuck()
      reads writer, writer.bd
    {
      writer.bd.power == 0 || End(u.area.g, writer.pages) + u.area.g.page > |writer.bd.mem|
    }

    /** fota_on_fragment, for a fragment that goes on with the payload or is too long. */
    method OnFragment(frag: Bytes) returns (status: Status)
      requires Shape() && Running() && payloadOffset < u.size
      requires |frag| <= u.size - payloadOffset ==> frag == payload[payloadOffset..payloadOffset + |frag|]
      modifies this, writer, writer.bd, writer.pageBuf
      ensures |payload| == u.size && (status != Failed ==> Shape())
      ensures status != Failed || writer.bd.power > 0 || Robust(u.area.g, old(payload)) ==> payload == old(payload)
      ensures Underway(u, writer.bd.mem, payload, writer.pages) == Some(writer.scan)
      ensures |writer.bd.mem| == |old(writer.bd.mem)| && old(writer.scan.data) <= writer.scan.data
      ensures SameBelow(writer.bd.mem, old(writer.bd.mem), u.area.g.data)
      ensures |frag| <= u.size - old(payloadOffset) ==> |writer.scan.data| <= old(payloadOffset) + |frag|
      ensures status == More ==> Running() && payloadOffset == old(payloadOffset) + |frag| < u.size
      ensures status == Finished ==> writer.scan.data == payload && hashed == payload
      ensures status == Failed ==> |frag| > u.size - old(payloadOffset) || Stuck()
      ensures writer.Paid(status != Failed, old(writer.bd.power + End(u.area.g, writer.pages)))
      ensures |writer.scan.data| <= u.size && writer.Reaches(status != Failed, u.size, old(writer.Goal(u.size)))
      ensures status == Failed && writer.bd.power > 0 ==> |writer.scan.data| < u.size
      ensures status == More || status == Finished ==> hashed == old(hashed) + frag
      ensures |frag| > u.size - old(payloadOffset) ==>
                && status == Failed && writer.bd.mem == old(writer.bd.mem) && writer.scan == old(writer.scan)
                && payload == old(payload)
    {
      hide Underway, Holds, Multiple, Robust, Visible, PageWriter.Shape, PageWriter.Fed, PageWriter.Complete;
      ghost var mem, pages := writer.bd.mem, writer.pages;
      RunningFacts();
      UnderwayFacts(u, mem, payload, pages);
      if |frag| > u.size - payloadOffset {
        EndInside(u, mem, payload, pages);
        return Failed;
      }
      hashed := hashed + frag;
      var last := payloadOffset + |frag| == u.size;
      var ok;
      ghost var after;
      ok, after := writer.HandleFragment(frag, last, payload, payloadOffset);
      UnderwayBelow(u, mem, writer.bd.mem, payload, pages, after, writer.pages);
      payload := after;
      if !ok {
        return Failed;
      }
      assert payload[..payloadOffset] + payload[payloadOffset..payloadOffset + |frag|]
          == payload[..payloadOffset + |frag|];
      payloadOffset := payloadOffset + |frag|;
      if !last {
        return More;
      }
      assert payload[..|payload|] == payload;
      writer.CompleteFacts(payload);
      return Finished;
    }

    /** Fragments of the given sizes of what the source has, until the last one, a failure,
        or the end of the connection. */
    method Download(source: Bytes, sizes: seq<nat>) returns (status: Status)
      requires Shape() && Running() && payloadOffset < u.size
      requires |source| == u.size && source[payloadOffset..] == payload[payloadOffset..]
      modifies this, writer, writer.bd, writer.pageBuf
      ensures |payload| == u.size
      ensures status != Failed || Robust(u.area.g, old(payload)) ==> payload == old(payload)
      ensures Underway(u, writer.bd.mem, payload, writer.pages) == Some(writer.scan)
      ensures |writer.bd.mem| == |old(writer.bd.mem)| && old(writer.scan.data) <= writer.scan.data
      ensures status == Finished ==> writer.scan.data == payload && hashed == payload
      ensures status == Failed ==> Stuck()
      ensures writer.Paid(status != Failed, old(writer.bd.power + End(u.area.g, writer.pages)))
      ensures |writer.scan.data| <= u.size && writer.Reaches(status != Failed, u.size, old(writer.Goal(u.size)))
      ensures status == Failed && writer.bd.power > 0 ==> |writer.scan.data| < u.size
      ensures status == More ==> old(payloadOffset) + Total(sizes) < u.size
    {
      hide Underway, Shape, Running, Robust;
      RunningFacts();
      status := More;
      assert sizes[..0] == [];
      ghost var from := payloadOffset;
      for i := 0 to |sizes|
        invariant payloadOffset == from + Total(sizes[..i])
        invariant status == More && Shape() && Running() && payloadOffset < u.size && payload == old(payload)
        invariant Underway(u, writer.bd.mem, payload, writer.pages) == Some(writer.scan)
        invariant |writer.bd.mem| == |old(writer.bd.mem)| && old(writer.scan.data) <= writer.scan.data
        invariant writer.Paid(true, old(writer.bd.power + End(u.area.g, writer.pages)))
        invariant |writer.scan.data| <= u.size && writer.Reaches(true, u.size, old(writer.Goal(u.size)))
      {
        var n := Min(sizes[i], u.size - payloadOffset);
        SliceOfTail(source, payload, from, payloadOffset, payloadOffset + n);
        status := OnFragment(source[payloadOffset..payloadOffset + n]);
        if status != More {
          return;
        }
        assert sizes[..i + 1][..i] == sizes[..i];
      }
      assert sizes[..|sizes|] == sizes;
    }

    /** What has been handed over stays; what is to come may turn out differently. */
    ghost method Retarget(other: Bytes)
      requires Shape() && Running() && |other| == u.size && Visible(u.area.g, other)
      requires other[..payloadOffset] == payload[..payloadOffset]
      modifies this`payload
      ensures Shape() && Running() && payload == other
    {
      hide Holds, Visible, Multiple, PageWriter.Shape, Roomy;
      RetargetFacts(other);
      payload := other;
    }

    lemma RetargetFacts(other: Bytes)
      requires Shape() && Running() && |other| == u.size
      requires other[..payloadOffset] == payload[..payloadOffset]
      ensures writer.Fed(other, payloadOffset)
      ensures Underway(u, writer.bd.mem, other, writer.pages) == Some(writer.scan)
    {
      hide Holds, Visible, Multiple, Roomy;
      HoldsFacts(u.area.g, writer.bd.mem, payload, writer.pages);
      assert writer.scan.data == payload[..payloadOffset][..|writer.scan.data|];
      assert other[..payloadOffset][..|writer.scan.data|] <= other;
      HoldsOther(u.area.g, writer.bd.mem, payload, other, writer.pages);
      var w := writer.fwBytesWritten;
      SliceBelow(payload, payloadOffset, w, payloadOffset);
      SliceBelow(other, payloadOffset, w, payloadOffset);
      RoomySame(u.area.g, writer.bd.mem, payload, other);
    }

    lemma RunningFacts()
      requires Shape() && Running()
      ensures u.area.Valid() && |payload| == u.size
      ensures Underway(u, writer.bd.mem, payload, writer.pages) == Some(writer.scan)
      ensures writer.g == u.area.g && writer.g.eff > 0 && |writer.scan.data| <= payloadOffset <= u.size
    {
      hide Holds, Codec.Lawful, Codec.Implements;
      writer.FedFacts(payload, payloadOffset);
    }
  }

  lemma RoomySame(g: Geometry, mem: Bytes, payload: Bytes, other: Bytes)
    requires Roomy(g, mem, |payload|) && |other| == |payload|
    ensures Roomy(g, mem, |other|)
  {}

  lemma SliceOfTail(a: Bytes, b: Bytes, from: nat, lo: nat, hi: nat)
    requires from <= lo <= hi <= |a| == |b| && a[from..] == b[from..]
    ensures a[lo..hi] == b[lo..hi]
  {
    forall i | lo <= i < hi
      ensures a[i] == b[i]
    {
      assert a[i] == a[from..][i - from] && b[i] == b[from..][i - from];
    }
  }

  /** How a boot ends: a candidate is ready; it was complete but not what the manifest
      promises; storage was too small; or power or the connection was lost. After the
      second and third the manifest is dropped. */
  datatype Ending = Ready | Rejected | NoRoom | Interrupted

  /** What the outcome says about the storage. */
  ghost predicate Accounts(u: Update, bd: Device, o: Ending, sizes: seq<nat>, payload: Bytes, pages: seq<Bytes>)
    requires u.Valid()
    reads bd
  {
    match o
    case Ready => u.area.Headers(bd.mem) == Complete && Stores(u, bd.mem, payload, pages) && u.hash(payload) == u.digest
    case Rejected =>
      u.area.Headers(bd.mem) != Complete && Stores(u, bd.mem, payload, pages) && u.hash(payload) != u.digest
    case NoRoom =>
      && Underway(u, bd.mem, payload, pages).Some? && |Underway(u, bd.mem, payload, pages).value.data| < u.size
      && End(u.area.g, pages) + u.area.g.page > |bd.mem|
    case Interrupted => bd.power == 0 || Total(sizes) < u.size
  }

  /** finalize_update and write_candidate_ready: the digest of what was hashed, then
      the candidate ready header. */
  method Finish(u: Update, bd: Device, hashed: Bytes, ghost pages: seq<Bytes>, ghost sizes: seq<nat>)
    returns (o: Ending)
    requires u.Valid() && u.Fits(bd) && Underway(u, bd.mem, hashed, pages).Some?
    requires Underway(u, bd.mem, hashed, pages).value.data == hashed
    modifies bd
    ensures |bd.mem| == |old(bd.mem)| && Truthful(u, bd.mem, hashed, pages) && Stores(u, bd.mem, hashed, pages)
    ensures o != NoRoom && Accounts(u, bd, o, sizes, hashed, pages)
    ensures o == Rejected ==> bd.mem == old(bd.mem)
    ensures o == Interrupted ==> old(bd.power) < u.area.ready
  {
    hide Underway, Holds, Multiple, Truthful, ErasesSafely, Area.Headers;
    UnderwayFacts(u, bd.mem, hashed, pages);
    if u.hash(hashed) != u.digest {
      return Rejected;
    }
    AfterReady(u, bd.mem, hashed, pages, Min(|u.readyHeader|, bd.power));
    var ok := bd.Program(u.readyHeader, u.area.start);
    o := if ok then Ready else Interrupted;
  }

  /** What the data area holds. */
  ghost function Kept(u: Update, mem: Bytes, payload: Bytes, pages: seq<Bytes>): Bytes {
    match Holds(u.area.g, mem, payload, pages)
    case Some(s) => s.data
    case None => []
  }

  /** There is a download to go on with, and room for what is missing. */
  ghost predicate Resumable(u: Update, mem: Bytes, payload: Bytes, pages: seq<Bytes>)
    requires u.Valid()
  {
    && u.area.Headers(mem) == Started
    && RoomFor(u.area.g, mem, |payload|, u.available, Kept(u, mem, payload, pages), pages)
  }

  /** Neither a candidate, nor all of the payload, nor something to go on with. */
  ghost predicate StartsOver(u: Update, mem: Bytes, payload: Bytes, pages: seq<Bytes>)
    requires u.Valid()
  {
    && u.area.Headers(mem) != Complete && !Resumable(u, mem, payload, pages)
    && |Kept(u, mem, payload, pages)| < |payload|
  }

  /** Where the data area will end, if `kept` in `pages` is gone on with. */
  function Target(u: Update, kept: Bytes, pages: seq<Bytes>): nat
    requires u.area.g.eff > 0
  {
    Ahead(u.area.g, u.size, kept, pages)
  }

  /** The farther of the ends, from scratch and behind `kept`. */
  ghost function Later(u: Update, kept: Bytes, pages: seq<Bytes>): (r: nat)
    requires u.area.g.eff > 0
    ensures Target(u, [], []) <= r && Target(u, kept, pages) <= r
  {
    if Target(u, [], []) < Target(u, kept, pages) then Target(u, kept, pages) else Target(u, [], [])
  }

  /** How far the data area may come to reach: from scratch, or behind what is held. */
  ghost function Reach(u: Update, mem: Bytes, payload: Bytes, pages: seq<Bytes>): nat
    requires u.area.Valid() && u.area.g.data <= |mem|
  {
    if mem[u.area.g.data - 1] != u.area.g.erased && Holds(u.area.g, mem, payload, pages).Some?
    then Later(u, Kept(u, mem, payload, pages), pages) else Target(u, [], [])
  }

  lemma ReachIs(u: Update, mem: Bytes, payload: Bytes, pages: seq<Bytes>, s: Scan)
    requires u.area.Valid() && u.area.g.data <= |mem| && Holds(u.area.g, mem, payload, pages) == Some(s)
    ensures Reach(u, mem, payload, pages) <= Later(u, s.data, pages)
    ensures u.area.Headers(mem) == Started ==> Reach(u, mem, payload, pages) == Later(u, s.data, pages)
  {
    hide Holds, Target, IsBlank;
  }

  lemma ReachScratch(u: Update, mem: Bytes, payload: Bytes)
    requires u.area.Valid() && u.area.g.data <= |mem|
    ensures Reach(u, mem, payload, []) == Later(u, [], []) == Target(u, [], []) && End(u.area.g, []) == u.area.g.data
  {
    hide Target;
  }

  lemma LeastReach(u: Update, mem: Bytes, payload: Bytes, pages: seq<Bytes>)
    requires u.area.Valid() && u.area.g.data <= |mem|
    ensures Target(u, [], []) <= Reach(u, mem, payload, pages)
  {
    hide Holds, Target;
  }

  lemma ReachResumed(u: Update, mem: Bytes, payload: Bytes, pages: seq<Bytes>)
    requires u.Valid() && Truthful(u, mem, payload, pages) && Resumable(u, mem, payload, pages)
    ensures u.area.g.data <= |mem| && Target(u, Kept(u, mem, payload, pages), pages) <= Reach(u, mem, payload, pages)
  {
    hide Holds, Target, RoomFor;
  }

  /** An erase does not make it reach farther. */
  lemma ReachErased(u: Update, mem: Bytes, payload: Bytes, pages: seq<Bytes>, n: nat)
    requires u.Valid() && Truthful(u, mem, payload, pages) && u.area.start + n <= |mem|
    ensures var mem' := Splice(mem, u.area.start, Fill(u.area.g.erased, n));
            Reach(u, mem', payload, pages) <= Reach(u, mem, payload, pages)
  {
    hide Stored, After, Target, Splice;
    SpliceAt(mem, u.area.start, Fill(u.area.g.erased, n), u.area.g.data - 1);
  }

  /** There is power to erase and program everything, and a connection to the end. */
  predicate Supplied(u: Update, storage: nat, power: nat, sizes: seq<nat>) {
    power >= 2 * storage && Total(sizes) >= u.size
  }

  method NewSession(u: Update, bd: Device, addr: nat, offset: nat, iv: nat, hashed: Bytes,
                    ghost payload: Bytes, ghost pages: seq<Bytes>, ghost scan: Scan) returns (session: Session)
    requires u.Valid() && u.Fits(bd) && Underway(u, bd.mem, payload, pages) == Some(scan) && Visible(u.area.g, payload)
    requires addr == End(u.area.g, pages) && offset == |scan.data| && hashed == scan.data
    requires u.layout.Encrypted? ==> iv == u.area.g.iv0 + scan.good
    requires offset < u.size
    ensures session.u == u && session.payload == payload && session.payloadOffset == offset
    ensures session.Shape() && session.Running()
    ensures fresh(session) && fresh(session.writer) && fresh(session.writer.pageBuf) && session.writer.bd == bd
    ensures session.writer.g == u.area.g && session.writer.pages == pages && session.writer.scan == scan
  {
    hide Multiple, Visible, ErasesSafely;
    var g := u.area.g;
    MultipleAdd(u.area.start, u.area.ready, bd.progSize);
    MultipleAdd(u.area.start + u.area.ready, |u.area.header|, bd.progSize);
    EndAligned(g, pages, bd.progSize);
    var writer := new PageWriter(g, u.layout, bd, addr, offset, iv, payload, pages, scan);
    session := new Session(u, writer, offset, hashed, payload);
  }

  // ---- What the sources have sent ---------------------------------------------------

  /** The first `n` bytes of one payload and the rest of another. */
  function Blend(p: Bytes, q: Bytes, n: nat): (r: Bytes)
    requires n <= |p| == |q|
    ensures |r| == |p| && r[..n] == p[..n] && r[n..] == q[n..]
  {
    p[..n] + q[n..]
  }

  lemma BlendEnds(p: Bytes, q: Bytes)
    requires |p| == |q|
    ensures Blend(p, q, 0) == q && Blend(p, q, |p|) == p
  {}

  /** Wherever the source takes over, the pages of what comes of it are visible. */
  ghost predicate VisibleBlends(g: Geometry, p: Bytes, q: Bytes)
    requires |p| == |q|
  {
    forall n: nat :: n <= |p| ==> Visible(g, Blend(p, q, n))
  }

  /** And its tears are detected. */
  ghost predicate RobustBlends(g: Geometry, p: Bytes, q: Bytes)
    requires |p| == |q|
  {
    forall n: nat :: n <= |p| ==> Robust(g, Blend(p, q, n))
  }

  /** One boot with the manifest pending, from the scan to a power cut, a failure or
      a candidate that is ready. What is on storage comes from `payload`; from byte `n` on
      it comes from `source`, unless a tear was not detected. */
  method Boot(u: Update, bd: Device, keyFound: bool, source: Bytes, sizes: seq<nat>,
              ghost payload: Bytes, ghost pages: seq<Bytes>)
    returns (o: Ending, ghost n: nat, ghost payload': Bytes, ghost pages': seq<Bytes>)
    requires u.Valid() && u.Fits(bd) && Truthful(u, bd.mem, payload, pages) && |source| == |payload| == u.size > 0
    requires VisibleBlends(u.area.g, payload, source)
    modifies bd
    ensures |bd.mem| == |old(bd.mem)| && n <= u.size == |payload'|
    ensures Truthful(u, bd.mem, payload', pages') && Accounts(u, bd, o, sizes, payload', pages')
    ensures RobustBlends(u.area.g, payload, source) ==> payload' == Blend(payload, source, n)
    ensures keyFound && Resumable(u, old(bd.mem), payload, pages) ==>
              Kept(u, old(bd.mem), payload, pages) <= Kept(u, bd.mem, payload', pages')
    ensures keyFound && u.area.Headers(old(bd.mem)) == Complete ==> o == Ready && bd.mem == old(bd.mem)
    ensures !keyFound || StartsOver(u, old(bd.mem), payload, pages) ==> n == 0 || bd.power == 0
    ensures o == NoRoom ==>
              |bd.mem| < if keyFound && Resumable(u, old(bd.mem), payload, pages)
                         then Target(u, Kept(u, old(bd.mem), payload, pages), pages) else Target(u, [], [])
    ensures Reach(u, bd.mem, payload', pages') <= Reach(u, old(bd.mem), payload, pages) + u.area.g.page
    ensures o == Interrupted ==> !Supplied(u, |bd.mem|, old(bd.power), sizes)
  {
    hide Holds, Multiple, Traced, Truthful, Underway, Visible, Robust, Context.Fresh, Area.Headers, Kept, Accounts,
         Resumable, Reach, Target, Codec.Lawful, Codec.Implements, Concat, Needs;
    BlendEnds(payload, source);
    assert Visible(u.area.g, Blend(payload, source, 0));
    assert RobustBlends(u.area.g, payload, source) ==> Robust(u.area.g, Blend(payload, source, 0));
    if !keyFound {
      o, n, payload', pages' := Again(u, bd, source, sizes, payload, pages);
      return;
    }
    var ctx := NewContext(u, bd);
    ghost var walked;
    var found;
    found, walked := ctx.Analyze(keyFound);
    ghost var mem := bd.mem;
    n, payload' := u.size, payload;
    match found
    case ReadyFound =>
      CompleteFacts(u, bd, sizes, payload, pages);
      return Ready, n, payload', pages;
    case AllWritten =>
      StartedFacts(u, mem, payload, pages);
      ScanCompletes(u, mem, payload, pages, ctx.pages);
      KeptAll(u, mem, payload, pages);
      ReachIs(u, mem, payload, pages, Holds(u.area.g, mem, payload, pages).value);
      o := Finish(u, bd, ctx.hashed, pages, sizes);
      StoresReach(u, bd.mem, payload, pages);
      return o, n, payload', pages;
    case Downloading =>
      StartedFacts(u, mem, payload, pages);
      ScanRestores(u.area.g, mem, payload, pages, ctx.pages);
      n := |ctx.scan.data|;
      WentOn(u, mem, payload, pages, ctx.scan);
      ReachIs(u, mem, payload, pages, ctx.scan);
      UnderwayOther(u, mem, payload, source, pages, ctx.scan);
      assert RobustBlends(u.area.g, payload, source) ==> Robust(u.area.g, Blend(payload, source, n));
      o, payload', pages' := GoOn(u, bd, ctx.storageAddr, ctx.payloadOffset, ctx.iv, ctx.hashed, source, sizes,
                                  Blend(payload, source, n), pages, ctx.scan);
    case NoResume =>
      GaveUp(u, mem, payload, pages, walked);
      o, n, payload', pages' := Again(u, bd, source, sizes, payload, pages);
  }

  /** What is kept changes hands. */
  lemma UnderwayOther(u: Update, mem: Bytes, payload: Bytes, source: Bytes, pages: seq<Bytes>, s: Scan)
    requires u.Valid() && Underway(u, mem, payload, pages) == Some(s) && |source| == |payload|
    ensures |s.data| <= |payload| && Underway(u, mem, Blend(payload, source, |s.data|), pages) == Some(s)
    ensures Kept(u, mem, payload, pages) == s.data
  {
    hide Holds;
    HoldsFacts(u.area.g, mem, payload, pages);
    HoldsOther(u.area.g, mem, payload, Blend(payload, source, |s.data|), pages);
  }

  lemma StartedFacts(u: Update, mem: Bytes, payload: Bytes, pages: seq<Bytes>)
    requires u.Valid() && Truthful(u, mem, payload, pages) && u.area.Headers(mem) == Started
    ensures Underway(u, mem, payload, pages) == Holds(u.area.g, mem, payload, pages)
    ensures Underway(u, mem, payload, pages).Some? && Kept(u, mem, payload, pages) <= payload
  {}

  /** The scan goes on only where there is room. */
  lemma WentOn(u: Update, mem: Bytes, payload: Bytes, pages: seq<Bytes>, s: Scan)
    requires u.Valid() && u.area.Headers(mem) == Started && Holds(u.area.g, mem, payload, pages) == Some(s)
    requires |s.data| < |payload| && Needs(u.area.g, |payload| - |s.data|, |pages|) <= u.available
    requires End(u.area.g, pages) + u.area.g.page <= |mem|
    ensures Resumable(u, mem, payload, pages) && Kept(u, mem, payload, pages) == s.data
  {
    hide Holds, Needs, Area.Headers;
  }

  lemma EndInside(u: Update, mem: Bytes, payload: Bytes, pages: seq<Bytes>)
    requires u.Valid() && Underway(u, mem, payload, pages).Some?
    ensures End(u.area.g, pages) <= |mem|
  {
    hide Holds, Codec.Lawful, Codec.Implements;
    HoldsFacts(u.area.g, mem, payload, pages);
  }

  lemma KeptAll(u: Update, mem: Bytes, payload: Bytes, pages: seq<Bytes>)
    requires Stores(u, mem, payload, pages)
    ensures Kept(u, mem, payload, pages) == payload
  {}

  lemma CompleteFacts(u: Update, bd: Device, sizes: seq<nat>, payload: Bytes, pages: seq<Bytes>)
    requires u.Valid() && Truthful(u, bd.mem, payload, pages) && u.area.Headers(bd.mem) == Complete
    ensures Accounts(u, bd, Ready, sizes, payload, pages) && !Resumable(u, bd.mem, payload, pages)
  {
    hide Holds;
  }

  /** The scan gives up only where there is nothing to go on with. */
  lemma GaveUp(u: Update, mem: Bytes, payload: Bytes, pages: seq<Bytes>, walked: seq<Bytes>)
    requires u.Valid()
    requires || u.area.Headers(mem) == Unusable
             || GivesUp(u.area.g, mem, |payload|, u.available, walked)
    requires Truthful(u, mem, payload, pages)
    ensures !Resumable(u, mem, payload, pages)
  {
    hide Holds, Truthful, Underway, GivesUp, Needs, Area.Headers;
    if Resumable(u, mem, payload, pages) {
      StartedFacts(u, mem, payload, pages);
      RoomIsEnough(u.area.g, mem, payload, pages, u.available, walked);
    }
  }

  method NewContext(u: Update, bd: Device) returns (ctx: Context)
    requires u.Valid() && u.Fits(bd)
    ensures fresh(ctx) && ctx.Shape() && ctx.Fresh() && ctx.area == u.area && ctx.layout == u.layout
    ensures ctx.bd == bd && ctx.size == u.size && ctx.available == u.available
  {
    hide Multiple, ErasesSafely;
    MultipleTrans(u.area.start, bd.progSize, bd.readSize);
    MultipleTrans(u.area.ready, bd.progSize, bd.readSize);
    MultipleTrans(|u.area.header|, bd.progSize, bd.readSize);
    MultipleTrans(u.area.g.page, bd.progSize, bd.readSize);
    ctx := new Context(u.area, u.layout, bd, u.size, u.available);
  }

  /** Where a download leads, and what it has cost, in terms of the update. */
  lemma Downloaded(u: Update, w: PageWriter, ok: bool, before: nat, goal: nat)
    requires w.g == u.area.g && u.area.g.eff > 0 && |w.scan.data| <= u.size && End(w.g, w.pages) <= |w.bd.mem|
    requires w.Paid(ok, before) && w.Reaches(ok, u.size, goal)
    ensures Target(u, w.scan.data, w.pages) <= goal + u.area.g.page
    ensures ok || w.bd.power > 0 ==> Target(u, w.scan.data, w.pages) == goal
    ensures |w.scan.data| < u.size ==> End(w.g, w.pages) + w.g.page <= Target(u, w.scan.data, w.pages)
    ensures ok ==> before <= w.bd.power + |w.bd.mem|
    ensures w.bd.power == 0 ==> before <= |w.bd.mem|
  {
    hide Concat;
  }

  lemma Targets(u: Update, w: PageWriter)
    requires w.g == u.area.g && u.area.g.eff > 0 && |w.scan.data| <= u.size
    ensures w.Goal(u.size) == Target(u, w.scan.data, w.pages)
  {
    hide Concat;
  }

  /** The download from a state found or made on storage. */
  method GoOn(u: Update, bd: Device, addr: nat, offset: nat, iv: nat, hashed: Bytes, source: Bytes, sizes: seq<nat>,
              ghost payload: Bytes, ghost pages: seq<Bytes>, ghost scan: Scan)
    returns (o: Ending, ghost payload': Bytes, ghost pages': seq<Bytes>)
    requires u.Valid() && u.Fits(bd) && Underway(u, bd.mem, payload, pages) == Some(scan) && Visible(u.area.g, payload)
    requires addr == End(u.area.g, pages) && offset == |scan.data| && hashed == scan.data
    requires u.layout.Encrypted? ==> iv == u.area.g.iv0 + scan.good
    requires offset < u.size == |source| == |payload| && source[offset..] == payload[offset..]
    modifies bd
    ensures |bd.mem| == |old(bd.mem)| && |payload'| == u.size
    ensures Truthful(u, bd.mem, payload', pages') && Accounts(u, bd, o, sizes, payload', pages')
    ensures Robust(u.area.g, payload) ==> payload' == payload
    ensures scan.data <= Kept(u, bd.mem, payload', pages')
    ensures o == NoRoom ==> Target(u, scan.data, pages) > |bd.mem|
    ensures Reach(u, bd.mem, payload', pages') <= Later(u, scan.data, pages) + u.area.g.page
    ensures o == Interrupted ==>
              old(bd.power) + End(u.area.g, pages) < |bd.mem| + u.area.ready || offset + Total(sizes) < u.size
  {
    hide Underway, Holds, Multiple, Truthful, Robust, Visible, PageWriter.Shape, PageWriter.Fed, Session.Running,
         Session.Shape, ErasesSafely, Area.Headers, Target, PageWriter.Goal, PageWriter.Paid, PageWriter.Reaches, Reach,
         Concat, Codec.Lawful, Codec.Implements;
    var session := NewSession(u, bd, addr, offset, iv, hashed, payload, pages, scan);
    Targets(u, session.writer);
    ghost var before := bd.power + End(u.area.g, pages);
    var status := session.Download(source, sizes);
    payload', pages' := session.payload, session.writer.pages;
    UnderwayFacts(u, bd.mem, payload', pages');
    EndInside(u, bd.mem, payload', pages');
    Downloaded(u, session.writer, status != Failed, before, Target(u, scan.data, pages));
    ReachIs(u, bd.mem, payload', pages', session.writer.scan);
    match status
    case Finished =>
      o := Finish(u, bd, session.hashed, pages', sizes);
      StoresReach(u, bd.mem, payload', pages');
    case Failed => o := if bd.power == 0 then Interrupted else NoRoom;
    case More => o := Interrupted;
  }

  lemma StoresReach(u: Update, mem: Bytes, payload: Bytes, pages: seq<Bytes>)
    requires u.area.Valid() && u.area.g.data <= |mem| && Stores(u, mem, payload, pages)
    ensures Kept(u, mem, payload, pages) == payload
    ensures Reach(u, mem, payload, pages) <= Later(u, payload, pages)
  {
    hide Holds, Target;
  }

  /** The download from scratch. */
  method Again(u: Update, bd: Device, source: Bytes, sizes: seq<nat>, ghost payload: Bytes, ghost pages: seq<Bytes>)
    returns (o: Ending, ghost n: nat, ghost payload': Bytes, ghost pages': seq<Bytes>)
    requires u.Valid() && u.Fits(bd) && Truthful(u, bd.mem, payload, pages) && |source| == |payload| == u.size > 0
    requires Visible(u.area.g, source)
    modifies bd
    ensures |bd.mem| == |old(bd.mem)| && n <= u.size == |payload'| && (n == 0 || bd.power == 0)
    ensures Truthful(u, bd.mem, payload', pages') && Accounts(u, bd, o, sizes, payload', pages')
    ensures Robust(u.area.g, source) ==> payload' == Blend(payload, source, n)
    ensures o == NoRoom ==> Target(u, [], []) > |bd.mem|
    ensures u.area.g.data <= |bd.mem|
    ensures Reach(u, bd.mem, payload', pages') <= Reach(u, old(bd.mem), payload, pages) + u.area.g.page
    ensures o == Interrupted ==> !Supplied(u, |bd.mem|, old(bd.power), sizes)
  {
    hide Underway, Holds, Truthful, Robust, Visible, ErasesSafely, Area.Headers, Blend, Multiple, Reach, Target, Concat,
         Codec.Lawful, Codec.Implements, Kept, Restarted;
    BlendEnds(payload, source);
    LeastReach(u, bd.mem, payload, pages);
    var ok;
    ghost var e, t;
    ghost var mem := bd.mem;
    ok, e, t := StartAfresh(u, bd, payload, pages, source);
    if !ok {
      o := Interrupted;
      if u.area.start + e < |bd.mem| {
        n, payload', pages' := u.size, payload, pages;
        ErasedOnly(u.area, mem, e);
        ReachErased(u, mem, payload, pages, e);
      } else {
        n, payload', pages' := 0, source, [];
        ReachScratch(u, bd.mem, source);
      }
      return;
    }
    n := 0;
    ReachScratch(u, bd.mem, source);
    o, payload', pages' := GoOn(u, bd, u.area.g.data, 0, u.area.g.iv0, [], source, sizes, source, [], START);
  }

  /** Without a part of the header there is only the erase. */
  lemma ErasedOnly(a: Area, mem: Bytes, n: nat)
    requires a.Valid() && a.g.data <= |mem| && a.start + n <= |mem|
    ensures Restarted(a, mem, n, 0) == Splice(mem, a.start, Fill(a.g.erased, n))
  {
    hide Splice;
    SpliceNothing(Splice(mem, a.start, Fill(a.g.erased, n)), a.start + a.ready);
    assert a.header[..0] == [];
  }

  // ---- Any number of boots ------------------------------------------------------------

  /** What one boot of a campaign meets. */
  datatype Conditions = Conditions(power: nat, keyFound: bool, source: Bytes, sizes: seq<nat>)

  /** Every byte of `p` was sent in some boot. */
  ghost predicate Sent(boots: seq<Conditions>, p: Bytes) {
    forall i :: 0 <= i < |p| ==> SentAt(boots, p, i)
  }

  ghost predicate SentAt(boots: seq<Conditions>, p: Bytes, i: nat)
    requires i < |p|
  {
    exists k :: 0 <= k < |boots| && i < |boots[k].source| && boots[k].source[i] == p[i]
  }

  lemma SentBlend(boots: seq<Conditions>, p: Bytes, k: nat, n: nat)
    requires Sent(boots, p) && k < |boots| && |boots[k].source| == |p| && n <= |p|
    ensures Sent(boots, Blend(p, boots[k].source, n))
  {
    var r := Blend(p, boots[k].source, n);
    forall i | 0 <= i < |r|
      ensures SentAt(boots, r, i)
    {
      if i < n {
        assert SentAt(boots, p, i) && r[i] == p[i];
      } else {
        assert boots[k].source[i] == r[i];
      }
    }
  }

  /** If every boot sends the same, that is what is stored. */
  lemma SentSame(boots: seq<Conditions>, p: Bytes, sent: Bytes)
    requires Sent(boots, p) && |p| == |sent|
    requires forall k :: 0 <= k < |boots| ==> boots[k].source == sent
    ensures p == sent
  {
    forall i | 0 <= i < |p|
      ensures p[i] == sent[i]
    {
      assert SentAt(boots, p, i);
    }
  }

  /** Whatever can come of the sources is robust. */
  ghost predicate Sturdy(u: Update, boots: seq<Conditions>) {
    forall p: Bytes :: |p| == u.size && Sent(boots, p) ==> Robust(u.area.g, p)
  }

  /** Behind checksums, on 0xFF-erased storage, pages of at most 255 payload bytes make
      every source sturdy. */
  lemma ShortBlocksAreSturdy(u: Update, boots: seq<Conditions>)
    requires u.area.Valid() && u.area.g.codec == CodecOf(Checksummed)
    requires u.area.g.erased == 255 && u.area.g.eff <= 255
    ensures Sturdy(u, boots)
  {
    hide Robust, Sent, Codec.Lawful;
    forall p: Bytes | |p| == u.size && Sent(boots, p)
      ensures Robust(u.area.g, p)
    {
      ShortBlocksAreRobust(u.area.g, p);
    }
  }

  lemma SturdyBlends(u: Update, boots: seq<Conditions>, p: Bytes, k: nat)
    requires Sized(u, boots) && Sturdy(u, boots) && |p| == u.size && Sent(boots, p) && k < |boots|
    ensures RobustBlends(u.area.g, p, boots[k].source)
  {
    hide Sent, Robust;
    forall n: nat | n <= |p|
      ensures Robust(u.area.g, Blend(p, boots[k].source, n))
    {
      SentBlend(boots, p, k, n);
    }
  }

  /** The sources send as much as the manifest says. */
  predicate Sized(u: Update, boots: seq<Conditions>) {
    forall k :: 0 <= k < |boots| ==> |boots[k].source| == u.size
  }

  /** A campaign on freshly erased storage, over any number of boots, power cuts, ways to
      cut the payload into fragments and contents of the source, whose pages never look
      erased: the headers never claim more than is true, and a candidate is ready only if
      all of it is stored and has the digest of the manifest. A campaign without a candidate
      has stored something else; or it has no room, which takes a payload that leaves less
      than one page for every boot before; or its last boot lacked power or the end of the
      payload. If in addition every tear is detected, every stored byte was sent. */
  method Run(u: Update, bd: Device, boots: seq<Conditions>)
    returns (o: Ending, last: nat, ghost payload: Bytes, ghost pages: seq<Bytes>)
    requires u.Valid() && u.Fits(bd) && u.size > 0 && boots != [] && Sized(u, boots)
    requires AllVisible(u.area.g, u.size) || Sturdy(u, boots)
    requires ErasedFrom(u.area.g, bd.mem, u.area.start)
    modifies bd
    ensures |payload| == u.size && Truthful(u, bd.mem, payload, pages) && |bd.mem| == |old(bd.mem)|
    ensures Sturdy(u, boots) ==> Sent(boots, payload)
    ensures last < |boots| && Accounts(u, bd, o, boots[last].sizes, payload, pages)
    ensures o == Interrupted ==>
              last == |boots| - 1 && !Supplied(u, |bd.mem|, boots[last].power, boots[last].sizes)
    ensures o == NoRoom ==> Target(u, [], []) + Span(last, u.area.g.page) > |bd.mem|
  {
    hide Holds, Multiple, Visible, AllVisible, Accounts, Truthful, Sent, Sturdy, ErasesSafely, RobustBlends,
         VisibleBlends, Reach, Target, Resumable, StartsOver, Codec.Lawful, Codec.Implements, Kept;
    FirstSent(u, boots);
    payload, pages := boots[0].source, [];
    ErasedTruthful(u, bd.mem, payload);
    ReachScratch(u, bd.mem, payload);
    last := 0;
    while true
      invariant last < |boots| && |payload| == u.size && |bd.mem| == |old(bd.mem)|
      invariant u.Fits(bd) && Truthful(u, bd.mem, payload, pages)
      invariant Sturdy(u, boots) ==> Sent(boots, payload)
      invariant Reach(u, bd.mem, payload, pages) <= Target(u, [], []) + Span(last, u.area.g.page)
      decreases |boots| - last
    {
      bd.power := boots[last].power;
      BlendsVisible(u, boots, payload, last);
      ghost var n, was := 0, payload;
      LeastReach(u, bd.mem, payload, pages);
      if Resumable(u, bd.mem, payload, pages) {
        ReachResumed(u, bd.mem, payload, pages);
      }
      o, n, payload, pages := Boot(u, bd, boots[last].keyFound, boots[last].source, boots[last].sizes, payload, pages);
      if Sturdy(u, boots) {
        SturdyBlends(u, boots, was, last);
        SentBlend(boots, was, last, n);
      }
      if o != Interrupted || last + 1 == |boots| {
        return;
      }
      last := last + 1;
    }
  }

  /** Erasing twice as much as the payload takes, as the source does, is enough for as many
      boots as the payload has blocks. */
  lemma TwiceIsEnough(u: Update, storage: nat, boots: nat)
    requires u.area.Valid() && boots <= Blocks(u.size, u.area.g.eff)
    requires u.area.g.data + 2 * Span(Blocks(u.size, u.area.g.eff), u.area.g.page) <= storage
    ensures Target(u, [], []) + Span(boots, u.area.g.page) <= storage
  {
    SpanMono(boots, Blocks(u.size, u.area.g.eff), u.area.g.page);
  }

  /** The room test of the scan counts the pages against all of the storage, the headers
      included. So a download passes it and has no room after all if and only if its data
      area would end behind the storage, by no more than the size of the headers. */
  lemma RoomTestExactly(u: Update, mem: Bytes, payload: Bytes, pages: seq<Bytes>)
    requires u.Valid() && u.available == |mem| - u.area.start && u.area.g.data <= |mem|
    requires u.area.Headers(mem) == Started && Holds(u.area.g, mem, payload, pages).Some? && |payload| == u.size
    requires |Kept(u, mem, payload, pages)| < u.size && End(u.area.g, pages) + u.area.g.page <= |mem|
    ensures var end := Target(u, Kept(u, mem, payload, pages), pages);
            Resumable(u, mem, payload, pages) && end > |mem|
            <==> |mem| < end <= |mem| + u.area.ready + |u.area.header|
  {
    hide Holds, Blocks, Area.Headers, Codec.Lawful, Codec.Implements, Span;
    var g, kept := u.area.g, Kept(u, mem, payload, pages);
    HoldsFacts(g, mem, payload, pages);
    HoldsPages(g, mem, payload, pages);
    EndIsSpan(g, pages);
    SpanAdd(Blocks(u.size - |kept|, g.eff), |pages|, g.page);
  }

  lemma HoldsPages(g: Geometry, mem: Bytes, payload: Bytes, pages: seq<Bytes>)
    requires Holds(g, mem, payload, pages).Some?
    ensures Pages(g, pages)
  {}

  lemma {:induction false} SpanAdd(a: nat, b: nat, d: nat)
    ensures Span(a + b, d) == Span(a, d) + Span(b, d)
  {
    if b > 0 {
      SpanAdd(a, b - 1, d);
    }
  }

  lemma {:induction false} EndIsSpan(g: Geometry, pages: seq<Bytes>)
    requires Pages(g, pages)
    ensures End(g, pages) == g.data + Span(|pages|, g.page)
  {
    if pages != [] {
      EndIsSpan(g, pages[..|pages| - 1]);
    }
  }

  lemma BlendsVisible(u: Update, boots: seq<Conditions>, p: Bytes, k: nat)
    requires Sized(u, boots) && |p| == u.size && k < |boots|
    requires AllVisible(u.area.g, u.size) || (Sturdy(u, boots) && Sent(boots, p))
    ensures VisibleBlends(u.area.g, p, boots[k].source)
  {
    hide Visible, Sent, Sturdy;
    forall n: nat | n <= |p|
      ensures Visible(u.area.g, Blend(p, boots[k].source, n))
    {
      if !AllVisible(u.area.g, u.size) {
        SturdyBlends(u, boots, p, k);
        assert Robust(u.area.g, Blend(p, boots[k].source, n));
      }
    }
  }

  lemma FirstSent(u: Update, boots: seq<Conditions>)
    requires Sized(u, boots) && boots != []
    ensures |boots[0].source| == u.size && Sent(boots, boots[0].source)
  {
    forall i | 0 <= i < u.size
      ensures SentAt(boots, boots[0].source, i)
    {
      assert boots[0].source[i] == boots[0].source[i];
    }
  }

  lemma ErasedTruthful(u: Update, mem: Bytes, payload: Bytes)
    requires u.Valid() && |payload| == u.size && u.area.g.data <= |mem| <= u.area.g.limit
    requires ErasedFrom(u.area.g, mem, u.area.start)
    ensures Truthful(u, mem, payload, [])
  {}
}
