/** From the download to the installer: a payload that went through any number of
    power cuts is installed as it was sent. */
module EndToEnd {
  import opened Bytes
  import opened BlockLayout
  import opened CandidateFormat
  import opened BlockDevice
  import opened Resume
  import opened Candidate
  import opened Writer
  import opened EraseRange
  import opened Campaign
  import opened Install

  // ---- Both sides find the data area ------------------------------------------------

  /** init_header: the writer reserves the two headers in program units. */
  function WriterStart(start: nat, ready: nat, header: nat, ps: nat): nat
    requires ps > 0
  {
    start + AlignUp(ready, ps) + AlignUp(header, ps)
  }

  /** fota_candidate_read_candidate_ready_header, fota_candidate_read_header and
      fota_candidate_extract_start: the reader rounds the first header to read units
      before it rounds to program units, and an encrypted image once more. */
  function ReaderStart(start: nat, ready: nat, header: nat, encrypted: bool, rs: nat, ps: nat): nat
    requires rs > 0 && ps > 0
  {
    var a := start + AlignUp(AlignUp(ready, rs), ps) + AlignUp(header, ps);
    if encrypted then AlignUp(a, ps) else a
  }

  /** On a storage that starts on a program unit, both agree if and only if rounding
      to read units does not pass the next program unit. */
  lemma SameStart(start: nat, ready: nat, header: nat, encrypted: bool, rs: nat, ps: nat)
    requires rs > 0 && ps > 0 && Multiple(start, ps)
    ensures ReaderStart(start, ready, header, encrypted, rs, ps) == WriterStart(start, ready, header, ps)
        <==> AlignUp(ready, rs) <= AlignUp(ready, ps)
  {
    hide AlignUp, Multiple;
    var r, a, b, h := AlignUp(ready, rs), AlignUp(AlignUp(ready, rs), ps), AlignUp(ready, ps), AlignUp(header, ps);
    UpFacts(ready, rs);
    UpFacts(ready, ps);
    UpFacts(r, ps);
    UpFacts(header, ps);
    MultipleAdd(start, a, ps);
    MultipleAdd(start + a, h, ps);
    UpFacts(start + a + h, ps);
    if r <= b {
      UpMost(r, ps, b);
      UpMost(ready, ps, a);
    }
  }

  lemma UpFacts(v: nat, d: nat)
    requires d > 0
    ensures v <= AlignUp(v, d) && Multiple(AlignUp(v, d), d)
    ensures Multiple(v, d) ==> AlignUp(v, d) == v
  {
    AlignUpIsLeast(v, d);
    MultipleIsMod(v, d);
    MultipleIsMod(AlignUp(v, d), d);
  }

  lemma UpMost(v: nat, d: nat, m: nat)
    requires d > 0 && v <= m && Multiple(m, d)
    ensures AlignUp(v, d) <= m
  {
    AlignUpIsLeast(v, d);
    MultipleIsMod(AlignUp(v, d), d);
    if AlignUp(v, d) > m {
      MultipleGap(m, AlignUp(v, d), d);
    }
  }

  /** The rounding agrees when program units consist of read units. */
  lemma UnitsNest(ready: nat, rs: nat, ps: nat)
    requires rs > 0 && ps > 0 && Multiple(ps, rs)
    ensures AlignUp(ready, rs) <= AlignUp(ready, ps)
  {
    UpFacts(ready, ps);
    MultipleTrans(AlignUp(ready, ps), ps, rs);
    UpMost(ready, rs, AlignUp(ready, ps));
  }

  /** A header of five bytes between units of four and six: rounded to eight and then to
      twelve, where the writer rounds to six. */
  lemma UnitsDisagree()
    ensures AlignUp(5, 4) > AlignUp(5, 6)
    ensures ReaderStart(0, 5, 6, false, 4, 6) != WriterStart(0, 5, 6, 6)
  {}

  // ---- What the reader finds in front of the data -------------------------------------

  /** The firmware header as the reader finds it: behind a candidate ready header, of which
      it looks at the first magic only, at its own address. */
  function HeaderAt(mem: Bytes, start: nat, struct: nat, headerSize: nat, rs: nat, ps: nat,
                    parse: Bytes -> Option<Header>): Option<Header>
    requires rs > 0 && ps > 0
  {
    var at := start + AlignUp(AlignUp(struct, rs), ps);
    if start + AlignUp(struct, rs) > |mem| || start + 4 > |mem| || mem[start..start + 4] != READY_MAGIC then None
    else if at + AlignUp(headerSize, rs) > |mem| || at + headerSize > |mem| then None
    else parse(mem[at..at + headerSize])
  }

  /** The first `n` bytes at `at`, read in whole units. */
  method ReadFirst(bd: Device, at: nat, n: nat, size: nat) returns (ok: bool, data: Bytes)
    requires bd.readSize > 0 && Multiple(at, bd.readSize) && n <= size
    ensures ok <==> at + AlignUp(size, bd.readSize) <= |bd.mem|
    ensures ok ==> at + n <= |bd.mem| && data == bd.mem[at..at + n]
  {
    hide AlignUp, Multiple;
    UpFacts(size, bd.readSize);
    data := [];
    var region;
    ok, region := bd.Read(at, AlignUp(size, bd.readSize));
    if ok {
      SliceOfSlice(bd.mem, at, at + |region|, 0, n);
      data := region[..n];
    }
  }

  /** fota_candidate_read_candidate_ready_header and fota_candidate_read_header */
  method ReadHeaders(bd: Device, start: nat, struct: nat, headerSize: nat, parse: Bytes -> Option<Header>)
    returns (h: Option<Header>)
    requires bd.readSize > 0 && bd.progSize > 0 && struct >= 4
    requires Multiple(start, bd.progSize) && Multiple(bd.progSize, bd.readSize)
    ensures h == HeaderAt(bd.mem, start, struct, headerSize, bd.readSize, bd.progSize, parse)
  {
    hide AlignUp, Multiple;
    var rs, ps := bd.readSize, bd.progSize;
    var at := start + AlignUp(AlignUp(struct, rs), ps);
    UpFacts(AlignUp(struct, rs), ps);
    MultipleAdd(start, AlignUp(AlignUp(struct, rs), ps), ps);
    MultipleTrans(start, ps, rs);
    MultipleTrans(at, ps, rs);
    var ok, magic := ReadFirst(bd, start, 4, struct);
    if !ok || magic != READY_MAGIC {
      return None;
    }
    var header;
    ok, header := ReadFirst(bd, at, headerSize, headerSize);
    h := if ok then parse(header) else None;
  }

  /** In nested units, rounding twice is rounding once. */
  lemma RoundTwice(v: nat, rs: nat, ps: nat)
    requires rs > 0 && ps > 0 && Multiple(ps, rs)
    ensures v <= AlignUp(v, rs) <= AlignUp(v, ps) && AlignUp(AlignUp(v, rs), ps) == AlignUp(v, ps)
  {
    hide AlignUp, Multiple;
    UnitsNest(v, rs, ps);
    UpFacts(v, rs);
    UpFacts(v, ps);
    UpFacts(AlignUp(v, rs), ps);
    UpMost(AlignUp(v, rs), ps, AlignUp(v, ps));
    UpMost(v, ps, AlignUp(AlignUp(v, rs), ps));
  }

  /** Behind a ready header the reader finds the header the writer has programmed. */
  lemma HeaderFound(u: Update, mem: Bytes, headerSize: nat, rs: nat, ps: nat, parse: Bytes -> Option<Header>)
    requires u.area.Valid() && rs > 0 && ps > 0 && Multiple(ps, rs)
    requires u.area.ready == AlignUp(u.area.struct, ps) && |u.area.header| == AlignUp(headerSize, ps)
    requires u.area.Headers(mem) == Complete && HeaderIn(u.area, mem)
    ensures headerSize <= |u.area.header|
    ensures HeaderAt(mem, u.area.start, u.area.struct, headerSize, rs, ps, parse) == parse(u.area.header[..headerSize])
  {
    hide AlignUp, Multiple, Codec.Lawful, IsBlank;
    var a := u.area;
    RoundTwice(headerSize, rs, ps);
    RoundTwice(a.struct, rs, ps);
    SliceOfSlice(mem, a.start, a.start + a.ready, 0, 4);
    SliceOfSlice(mem, a.start + a.ready, a.g.data, 0, headerSize);
  }

  /** The reader looks at the first magic only. So on erased storage it finds the header behind
      a candidate ready header that was cut if and only if its first four bytes are there. */
  lemma TornReadyFound(u: Update, mem: Bytes, t: nat, headerSize: nat, rs: nat, ps: nat, parse: Bytes -> Option<Header>)
    requires u.Valid() && rs > 0 && ps > 0 && Multiple(ps, rs) && HeaderIn(u.area, mem) && t <= u.area.ready
    requires u.area.ready == AlignUp(u.area.struct, ps) && |u.area.header| == AlignUp(headerSize, ps)
    requires IsBlank(mem[u.area.start..u.area.start + u.area.ready], u.area.g.erased)
    requires u.area.g.erased != READY_MAGIC[3]
    ensures headerSize <= |u.area.header|
    ensures var mem' := Splice(mem, u.area.start, u.readyHeader[..t]);
            HeaderAt(mem', u.area.start, u.area.struct, headerSize, rs, ps, parse)
            == if t >= 4 then parse(u.area.header[..headerSize]) else None
  {
    hide AlignUp, Multiple, Codec.Lawful, Codec.Implements, Splice;
    var a := u.area;
    var mem' := Splice(mem, a.start, u.readyHeader[..t]);
    RoundTwice(headerSize, rs, ps);
    RoundTwice(a.struct, rs, ps);
    FirstMagic(u, mem, t);
    SpliceBelow(mem, a.start, u.readyHeader[..t], a.start + a.ready);
    SliceOfSlice(mem, a.start + a.ready, a.g.data, 0, headerSize);
    var at := a.start + a.ready;
    assert mem'[at..at + headerSize] == mem'[at..][..headerSize] == mem[at..][..headerSize] == mem[at..at + headerSize];
  }

  lemma FirstMagic(u: Update, mem: Bytes, t: nat)
    requires u.Valid() && t <= u.area.ready && u.area.g.data <= |mem| && u.area.g.erased != READY_MAGIC[3]
    requires IsBlank(mem[u.area.start..u.area.start + u.area.ready], u.area.g.erased)
    ensures var mem' := Splice(mem, u.area.start, u.readyHeader[..t]);
            mem'[u.area.start..u.area.start + 4] == READY_MAGIC <==> t >= 4
  {
    hide Codec.Lawful, Codec.Implements, Splice;
    var a := u.area;
    var mem' := Splice(mem, a.start, u.readyHeader[..t]);
    var r, m := mem[a.start..a.start + a.ready], mem'[a.start..a.start + 4];
    forall i | 0 <= i < 4
      ensures m[i] == if i < t then READY_MAGIC[i] else a.g.erased
    {
      SpliceAt(mem, a.start, u.readyHeader[..t], a.start + i);
      assert m[i] == mem'[a.start + i] && r[i] == mem[a.start + i] && u.readyHeader[..4][i] == u.readyHeader[i];
    }
    if t >= 4 {
      assert m[0] == 0x01 && m[1] == 0x4e && m[2] == 0xd5 && m[3] == 0xfe;
      assert m == READY_MAGIC;
    } else {
      assert m[3] == a.g.erased;
    }
  }

  // ---- Download, then install ----------------------------------------------------------

  /** A campaign, then the installer, which reads the headers and finds the data area on its
      own. Whatever the power cuts, fragments, contents of the source and the installation
      alignment were: if a candidate is ready, the handler receives exactly what is stored,
      which has the digest of the manifest, and less than one unit of padding, provided the
      installation does not stall and bad copies of the last block are skipped whole. */
  method DownloadAndInstall(u: Update, bd: Device, headerSize: nat, parse: Bytes -> Option<Header>,
                            boots: seq<Conditions>, alignment: nat, patience: nat)
    returns (e: Ending, last: nat, o: Outcome, trace: seq<Event>, ghost payload: Bytes, ghost pages: seq<Bytes>)
    requires u.Valid() && u.Fits(bd) && u.size > 0 && boots != [] && Sized(u, boots)
    requires AllVisible(u.area.g, u.size) || Sturdy(u, boots)
    requires ErasedFrom(u.area.g, bd.mem, u.area.start)
    requires u.area.ready == AlignUp(u.area.struct, bd.progSize) && |u.area.header| == AlignUp(headerSize, bd.progSize)
    requires headerSize <= |u.area.header| && parse(u.area.header[..headerSize]) == Some(Header(u.size, u.digest))
    modifies bd
    ensures last < |boots| && Accounts(u, bd, e, boots[last].sizes, payload, pages)
    ensures e == Interrupted ==> last == |boots| - 1
    ensures |payload| == u.size && (Sturdy(u, boots) ==> Sent(boots, payload))
    ensures e != Ready ==> trace == []
    ensures var align := if alignment == 0 then 1 else alignment;
            e == Ready && SkipsWhole(u.area.g, u.size, bd.readSize) && !Stalls(u.size, u.area.g.eff, align)
            && patience >= u.size + 3 ==>
              && o == Done && Aligned(trace, align)
              && payload <= Received(trace) && |Received(trace)| < u.size + align
  {
    hide Multiple, AllVisible, Holds, ReadAll, Stalls, Received, AlignUp, SkipsWhole, Sturdy, Sent, ErasesSafely,
         Area.Headers, HeaderAt, Truthful;
    o, trace := ReadFailed, [];
    e, last, payload, pages := Run(u, bd, boots);
    if e != Ready {
      return;
    }
    CompleteHeader(u, bd.mem, payload, pages);
    var h := ReadHeaders(bd, u.area.start, u.area.struct, headerSize, parse);
    HeaderFound(u, bd.mem, headerSize, bd.readSize, bd.progSize, parse);
    var at := ReaderStart(u.area.start, u.area.struct, headerSize, u.layout.Encrypted?, bd.readSize, bd.progSize);
    SameStart(u.area.start, u.area.struct, headerSize, u.layout.Encrypted?, bd.readSize, bd.progSize);
    UnitsNest(u.area.struct, bd.readSize, bd.progSize);
    ReadAligned(u, bd);
    var g := u.area.g.(data := at);
    o, trace := Iterate(g, u.layout, bd, h.value, u.hash, true, alignment, patience);
    if SkipsWhole(g, u.size, bd.readSize) {
      ReadsStored(g, bd.mem, payload, pages, bd.readSize);
    }
  }

  lemma CompleteHeader(u: Update, mem: Bytes, payload: Bytes, pages: seq<Bytes>)
    requires u.area.Valid() && Truthful(u, mem, payload, pages) && u.area.Headers(mem) == Complete
    ensures HeaderIn(u.area, mem)
  {
    hide Holds;
  }

  lemma ReadAligned(u: Update, bd: Device)
    requires u.Valid() && u.Fits(bd)
    ensures Multiple(u.area.g.page, bd.readSize) && Multiple(u.area.g.data, bd.readSize)
  {
    hide Multiple, ErasesSafely;
    MultipleTrans(u.area.g.page, bd.progSize, bd.readSize);
    MultipleAdd(u.area.start, u.area.ready, bd.progSize);
    MultipleAdd(u.area.start + u.area.ready, |u.area.header|, bd.progSize);
    MultipleTrans(u.area.g.data, bd.progSize, bd.readSize);
  }

  /** Builds without resume, in the plain and the encrypted layout: whatever the sizes of
      the fragments, a payload that was written completely is read back as it was. */
  method WriteAndReadBack(g: Geometry, layout: Layout, bd: Device, payload: Bytes, sizes: seq<nat>)
    returns (stored: bool)
    requires g.Valid() && !g.resume && g.codec.Implements(layout) && g.erased == bd.erased && payload != []
    requires bd.progSize > 0 && bd.readSize > 0 && Multiple(g.page, bd.progSize) && Multiple(g.data, bd.progSize)
    requires Multiple(bd.progSize, bd.readSize) && g.data <= |bd.mem|
    requires ErasedFrom(g, bd.mem, g.data) && Roomy(g, bd.mem, |payload|)
    modifies bd
    ensures stored ==> ReadAll(g, |payload|, bd.readSize, bd.mem, g.data, START) == Some(payload)
    ensures !stored ==> || old(bd.power) + g.data <= |bd.mem| || Total(sizes) < |payload|
                        || DataEnd(g, |payload|) > |bd.mem|
    ensures |bd.mem| == |old(bd.mem)|
  {
    hide Holds, Multiple, ReadAll, PageWriter.Fed, PageWriter.Complete, PageWriter.Shape, DataEnd;
    EmptyHolds(g, bd.mem, payload);
    var writer := new PageWriter(g, layout, bd, g.data, 0, g.iv0, payload, [], START);
    var fed := 0;
    assert sizes[..0] == [];
    for i := 0 to |sizes|
      invariant 0 <= fed < |payload| && writer.Fed(payload, fed) && fed == Total(sizes[..i])
      invariant |bd.mem| == |old(bd.mem)| && writer.Paid(true, old(bd.power) + g.data)
    {
      var n := Min(sizes[i], |payload| - fed);
      var ok;
      ghost var after;
      ok, after := writer.HandleFragment(payload[fed..fed + n], fed + n == |payload|, payload, fed);
      if !ok {
        return false;
      }
      assert sizes[..i + 1][..i] == sizes[..i];
      fed := fed + n;
      if fed == |payload| {
        writer.CompleteFacts(payload);
        MultipleTrans(g.page, bd.progSize, bd.readSize);
        ReadsStored(g, bd.mem, payload, writer.pages, bd.readSize);
        return true;
      }
    }
    assert sizes[..|sizes|] == sizes;
    return false;
  }

  /** The same from storage in any state: as much is erased first as the payload size calls
      for, which is enough. */
  method EraseWriteAndReadBack(g: Geometry, layout: Layout, bd: Device, start: nat, storage: nat, payload: Bytes,
                               sizes: seq<nat>) returns (stored: bool)
    requires g.Valid() && !g.resume && g.codec.Implements(layout) && g.erased == bd.erased && payload != []
    requires bd.progSize > 0 && bd.readSize > 0 && Multiple(g.page, bd.progSize) && Multiple(g.data, bd.progSize)
    requires Multiple(bd.progSize, bd.readSize) && bd.eraseSize > 0 && start <= g.data
    requires Multiple(start, bd.eraseSize) && Multiple(start + storage, bd.eraseSize)
    requires g.limit == AlignUp(DataEnd(g, |payload|), bd.eraseSize)
    modifies bd
    ensures stored ==> ReadAll(g, |payload|, bd.readSize, bd.mem, g.data, START) == Some(payload)
    ensures !stored ==> || old(bd.power) <= 2 * |bd.mem| || Total(sizes) < |payload|
                        || DataEnd(g, |payload|) > start + storage || g.limit > |bd.mem|
    ensures |bd.mem| == |old(bd.mem)|
  {
    hide Multiple, ReadAll, Blocks, AlignUp;
    var ok, end := EraseNeeded(bd, g, start, storage, |payload|);
    if !ok {
      return false;
    }
    stored := WriteAndReadBack(g, layout, bd, payload, sizes);
  }
}
