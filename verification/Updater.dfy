/** The update state machine as fota.c runs it, over the bytes of the candidate storage: a
    context that comes and goes, a session while a download runs, and handlers that scan,
    erase and program the device. What the installation gate calls the state is computed
    from those bytes, and every handler makes one of its steps. */
module Updater {
  import opened Bytes
  import opened BlockLayout
  import opened CandidateFormat
  import opened BlockDevice
  import opened Writer
  import opened Resume
  import opened Campaign
  import G = InstallGate

  // ---- The storage as the gate sees it ------------------------------------------------

  function Expects(u: Update): G.Expected {
    G.Expected(u.size, (image: Bytes) => u.hash(image) == u.digest)
  }

  /** The region of the candidate ready header. */
  function ReadyView(a: Area, mem: Bytes): G.Ready
    requires 8 <= a.struct <= a.ready && a.start + a.ready <= |mem|
  {
    var region := mem[a.start..a.start + a.ready];
    if IsBlank(region, a.g.erased) then G.Blank else if IsReady(region, a.struct) then G.Whole else G.Torn
  }

  /** The two headers, and the good blocks of the data area if there is a firmware header. */
  ghost function StoreView(u: Update, mem: Bytes, payload: Bytes, pages: seq<Bytes>): G.Storage
    requires u.area.Valid() && u.area.g.data <= |mem|
  {
    var header := mem[u.area.g.data - 1] != u.area.g.erased;
    G.Storage(ReadyView(u.area, mem), header, if header then Kept(u, mem, payload, pages) else [])
  }

  /** What is asked of a build: a firmware header does not end in an erased byte, and a page
      that was programmed completely never looks erased. Nothing is asked about tears. */
  ghost predicate Suits(u: Update) {
    && u.Valid() && u.size > 0 && AllVisible(u.area.g, u.size)
    && u.area.header[|u.area.header| - 1] != u.area.g.erased && u.area.g.erased != READY_MAGIC[0]
  }

  /** Checksummed builds with pages of any size qualify on 0xFF-erased storage, unless a
      block has 257 bytes, modulo 65536; with the default pages of 1022 payload bytes that
      can only be the last one. */
  lemma ChecksummedSuits(u: Update)
    requires u.Valid() && u.size > 0 && u.area.g.codec == CodecOf(Checksummed)
    requires u.area.g.erased == 255 && u.area.header[|u.area.header| - 1] != 255
    ensures Suits(u) <==> && LastLen(u.size, u.area.g.eff) % 0x1_0000 != 257
                          && (u.size <= u.area.g.eff || u.area.g.eff % 0x1_0000 != 257)
  {
    hide AllVisible, Codec.Lawful, Codec.Implements;
    ChecksumsVisible(u.area.g, u.size);
  }

  /** Encrypted builds qualify if under their key no block of the payload, written as erased
      bytes, has the erased tag: one comparison per block. */
  lemma EncryptedSuits(u: Update)
    requires u.Valid() && u.size > 0 && u.layout.Encrypted?
    requires u.area.header[|u.area.header| - 1] != u.area.g.erased && u.area.g.erased != READY_MAGIC[0]
    ensures Suits(u) <==> forall k: nat :: Span(k, u.area.g.eff) < u.size ==> TagDiffers(u, k)
  {
    hide AllVisible, Codec.Lawful, Codec.Implements;
    VisibleExactly(u.area.g, u.layout, u.size);
    forall k: nat
      ensures RejectsErased(u.area.g, BlockLen(u.area.g, u.size, k), u.area.g.iv0 + k) <==> TagDiffers(u, k)
    {
      OpensErased(u, k);
    }
  }

  /** Block `k`, if its ciphertext were erased bytes, would not have an erased tag. */
  predicate TagDiffers(u: Update, k: nat)
    requires u.layout.Encrypted?
  {
    var a, iv := u.layout.ccm, u.area.g.iv0 + k;
    a.Tag(iv, a.Mask(iv, Fill(u.area.g.erased, BlockLen(u.area.g, u.size, k)))) != Fill(u.area.g.erased, TAG_SIZE)
  }

  lemma OpensErased(u: Update, k: nat)
    requires u.Valid() && u.layout.Encrypted?
    ensures RejectsErased(u.area.g, BlockLen(u.area.g, u.size, k), u.area.g.iv0 + k) <==> TagDiffers(u, k)
  {
    hide Codec.Lawful;
    var g := u.area.g;
    var c, b := Fill(g.erased, TAG_SIZE), Fill(g.erased, BlockLen(g, u.size, k));
    assert g.codec.ReadsAs(u.layout, g.iv0 + k, c, b);
  }

  /** The default build, with checksummed pages of 1024 bytes, is one: here for one full
      page, on storage for two. */
  lemma DefaultBuildSuits(bd: Device, digest: Bytes, hash: Bytes -> Bytes) returns (u: Update)
    requires bd.mem == Fill(255, 2064) && bd.erased == 255
    requires bd.readSize == bd.progSize == 1 && bd.eraseSize == 2064
    ensures Suits(u) && u.Fits(bd) && ErasedFrom(u.area.g, bd.mem, u.area.start) && u.area.g.page == 1024
    ensures u.digest == digest && u.hash == hash && u.size == u.area.g.eff
  {
    hide Multiple, Codec.Lawful, Codec.Implements, Suits;
    var g := Geometry(16, 1024, 1022, CodecOf(Checksummed), 255, 0, true, 2064);
    var area := Area(0, 8, 8, Fill(0, 8), g);
    u := Update(area, Checksummed, 1022, digest, READY_MAGIC + READY_MAGIC, 2064, hash);
    LayoutsLawful(Checksummed);
    assert IsReady(u.readyHeader, 8);
    ChecksummedSuits(u);
    FirstSectorSafe(area, 2064);
    ByteUnits(0);
    ByteUnits(1);
    ByteUnits(8);
    ByteUnits(1024);
    OneUnit(2064);
  }

  lemma {:induction false} ByteUnits(n: nat)
    ensures Multiple(n, 1)
  {
    if n > 0 {
      ByteUnits(n - 1);
    }
  }

  /** Nothing but a part of the candidate ready header has ever been in its place. */
  predicate Marked(u: Update, mem: Bytes)
    requires |u.readyHeader| == u.area.ready && u.area.start + u.area.ready <= |mem|
  {
    forall i :: 0 <= i < u.area.ready ==>
      mem[u.area.start + i] == u.area.g.erased || mem[u.area.start + i] == u.readyHeader[i]
  }

  /** What the headers claim, in terms of the gate. */
  lemma TruthView(u: Update, mem: Bytes, payload: Bytes, pages: seq<Bytes>)
    requires Suits(u) && Truthful(u, mem, payload, pages)
    ensures var st := StoreView(u, mem, payload, pages);
            && (st.ready != G.Blank ==> st.header && st.image == payload && u.hash(payload) == u.digest)
            && (st.header ==> HeaderIn(u.area, mem) && Holds(u.area.g, mem, payload, pages).Some?
                              && st.image <= payload)
            && (st.header && st.image == payload ==> Stores(u, mem, payload, pages))
            && (match u.area.Headers(mem)
                case Complete => st.ready == G.Whole
                case Started => st.ready == G.Blank && st.header
                case Unusable => st.ready == G.Torn || (st.ready == G.Blank && !st.header))
  {
    hide Holds, IsReady;
    var a := u.area;
    if HeaderIn(a, mem) {
      assert mem[a.g.data - 1] == mem[a.start + a.ready..a.g.data][|a.header| - 1];
    }
    if Holds(a.g, mem, payload, pages).Some? {
      HoldsFacts(a.g, mem, payload, pages);
    }
  }

  lemma UnderwayView(u: Update, mem: Bytes, payload: Bytes, pages: seq<Bytes>, s: Scan)
    requires Suits(u) && Underway(u, mem, payload, pages) == Some(s)
    ensures u.area.g.data <= |mem| && StoreView(u, mem, payload, pages) == G.Storage(G.Blank, true, s.data)
    ensures s.data <= payload && Truthful(u, mem, payload, pages)
  {
    hide Holds, IsReady, IsBlank;
    var a := u.area;
    assert mem[a.g.data - 1] == mem[a.start + a.ready..a.g.data][|a.header| - 1];
    HoldsFacts(a.g, mem, payload, pages);
  }

  // ---- A fresh start that was cut ---------------------------------------------------------

  lemma FrontErased(u: Update, mem: Bytes, payload: Bytes, pages: seq<Bytes>, n: nat)
    requires Suits(u) && Truthful(u, mem, payload, pages) && n < u.area.ready + |u.area.header|
    ensures var mem' := Splice(mem, u.area.start, Fill(u.area.g.erased, n));
            StoreView(u, mem', payload, pages) in G.Restarts(StoreView(u, mem, payload, pages))
  {
    hide Holds, IsReady, IsBlank, Truthful, AllVisible;
    var a := u.area;
    TruthfulFacts(u, mem, payload, pages);
    var mem' := Splice(mem, a.start, Fill(a.g.erased, n));
    TruthView(u, mem, payload, pages);
    assert mem'[a.g.data - 1] == mem[a.g.data - 1];
    if Holds(a.g, mem, payload, pages).Some? {
      assert mem'[a.g.data..] == mem[a.g.data..];
      HoldsAbove(a.g, mem, mem', payload, pages);
    }
    RegionErased(a, mem, n);
    if n == 0 {
      assert mem' == mem;
    } else {
      NotReady(u, mem', a.start);
    }
  }

  lemma NotReady(u: Update, mem: Bytes, at: nat)
    requires Suits(u) && at + u.area.ready <= |mem| && mem[at] == u.area.g.erased
    ensures !IsReady(mem[at..at + u.area.ready], u.area.struct)
  {
    var region := mem[at..at + u.area.ready];
    assert region[..4][0] == region[0] == mem[at];
  }

  lemma NotWhole(u: Update, mem: Bytes, payload: Bytes, pages: seq<Bytes>)
    requires Suits(u) && u.area.g.data <= |mem| && mem[u.area.start] == u.area.g.erased
    ensures StoreView(u, mem, payload, pages).ready != G.Whole
  {
    hide Kept, AllVisible;
    NotReady(u, mem, u.area.start);
  }

  lemma AllErased(u: Update, mem: Bytes, n: nat, t: nat, payload: Bytes, pages: seq<Bytes>)
    requires u.area.Valid() && u.area.ready + |u.area.header| <= n && u.area.start + n <= |mem| && t < |u.area.header|
    ensures StoreView(u, Restarted(u.area, mem, n, t), payload, pages) == G.ERASED
  {
    hide Holds, Kept;
    var a := u.area;
    var mem' := Restarted(a, mem, n, t);
    assert mem'[a.g.data - 1] == a.g.erased;
    assert IsBlank(mem'[a.start..a.start + a.ready], a.g.erased);
  }

  /** Whatever a cut fresh start leaves, the gate allows. */
  lemma RestartView(u: Update, mem: Bytes, n: nat, t: nat, payload: Bytes, pages: seq<Bytes>,
                    payload': Bytes, pages': seq<Bytes>)
    requires Suits(u) && Truthful(u, mem, payload, pages) && u.area.start + n <= |mem| && t <= |u.area.header|
    requires (t > 0 ==> u.area.start + n == |mem|) && !(u.area.start + n == |mem| && t == |u.area.header|)
    requires n < u.area.ready + |u.area.header| ==> payload' == payload && pages' == pages
    ensures u.area.g.data <= |mem|
    ensures var mem' := Restarted(u.area, mem, n, t);
            StoreView(u, mem', payload', pages') in G.Restarts(StoreView(u, mem, payload, pages))
  {
    hide StoreView, Truthful, Splice, AllVisible;
    TruthfulFacts(u, mem, payload, pages);
    var a := u.area;
    if n < a.ready + |a.header| {
      FrontErased(u, mem, payload, pages, n);
      SpliceNothing(Splice(mem, a.start, Fill(a.g.erased, n)), a.start + a.ready);
      assert a.header[..0] == [];
    } else {
      AllErased(u, mem, n, t, payload', pages');
    }
  }

  lemma MarkedRestart(u: Update, mem: Bytes, n: nat, t: nat)
    requires u.Valid() && u.area.g.data <= |mem| && Marked(u, mem)
    requires u.area.start + n <= |mem| && t <= |u.area.header|
    ensures Marked(u, Restarted(u.area, mem, n, t))
  {}

  lemma MarkedBelow(u: Update, mem: Bytes, mem': Bytes)
    requires u.Valid() && u.area.g.data <= |mem| && Marked(u, mem) && SameBelow(mem', mem, u.area.g.data)
    ensures Marked(u, mem')
  {
    assert forall i :: 0 <= i < u.area.g.data ==> mem'[i] == mem'[..u.area.g.data][i];
    assert forall i :: 0 <= i < u.area.g.data ==> mem[i] == mem[..u.area.g.data][i];
  }

  /** A data area that was written to, in front of which nothing was. */
  lemma AfterFeed(u: Update, mem: Bytes, mem': Bytes, payload: Bytes, pages: seq<Bytes>, s: Scan)
    requires Suits(u) && u.area.g.data <= |mem| && Marked(u, mem) && SameBelow(mem', mem, u.area.g.data)
    requires Underway(u, mem', payload, pages) == Some(s)
    ensures Marked(u, mem') && Truthful(u, mem', payload, pages) && |payload| == u.size && s.data <= payload
    ensures End(u.area.g, pages) <= |mem'|
  {
    hide Holds, Truthful, StoreView, Underway, AllVisible, Codec.Lawful, Codec.Implements, Marked;
    MarkedBelow(u, mem, mem');
    UnderwayFacts(u, mem', payload, pages);
    UnderwayView(u, mem', payload, pages, s);
    EndInside(u, mem', payload, pages);
  }

  // ---- The candidate ready header -------------------------------------------------------

  lemma MarkView(u: Update, mem: Bytes, payload: Bytes, pages: seq<Bytes>, t: nat)
    requires Suits(u) && Truthful(u, mem, payload, pages) && Holds(u.area.g, mem, payload, pages).Some?
    requires u.area.g.data <= |mem| && Marked(u, mem) && t <= u.area.ready
    ensures var mem', st := Splice(mem, u.area.start, u.readyHeader[..t]), StoreView(u, mem, payload, pages);
            && Marked(u, mem') && StoreView(u, mem', payload, pages) == st.(ready := ReadyView(u.area, mem'))
            && StoreView(u, mem', payload, pages) in G.Marks(st)
            && (t == u.area.ready ==> ReadyView(u.area, mem') == G.Whole)
  {
    hide Holds, IsReady, Truthful, AllVisible, IsBlank, Marked, Codec.Lawful, Codec.Implements;
    var a := u.area;
    var mem' := Splice(mem, a.start, u.readyHeader[..t]);
    assert mem'[a.g.data - 1] == mem[a.g.data - 1];
    assert mem'[a.g.data..] == mem[a.g.data..];
    HoldsAbove(a.g, mem, mem', payload, pages);
    MarkedMore(u, mem, t);
    if t == a.ready {
      assert mem'[a.start..a.start + a.ready] == u.readyHeader;
      ReadyNotBlank(u);
    }
  }

  lemma MarkedMore(u: Update, mem: Bytes, t: nat)
    requires u.Valid() && u.area.g.data <= |mem| && Marked(u, mem) && t <= u.area.ready
    ensures var mem' := Splice(mem, u.area.start, u.readyHeader[..t]);
            && Marked(u, mem')
            && (ReadyView(u.area, mem') == G.Blank ==> ReadyView(u.area, mem) == G.Blank)
  {
    hide IsReady, Splice, Codec.Lawful, Codec.Implements;
    var a := u.area;
    var mem' := Splice(mem, a.start, u.readyHeader[..t]);
    var r, r' := mem[a.start..a.start + a.ready], mem'[a.start..a.start + a.ready];
    forall i | 0 <= i < a.ready
      ensures r'[i] == mem'[a.start + i] == if i < t then u.readyHeader[i] else r[i]
      ensures r[i] == a.g.erased || r[i] == u.readyHeader[i]
    {
      SpliceAt(mem, a.start, u.readyHeader[..t], a.start + i);
      assert r[i] == mem[a.start + i] && r'[i] == mem'[a.start + i];
    }
    MarkedBlank(r, r', u.readyHeader, t, a.g.erased);
    forall i | 0 <= i < a.ready
      ensures mem'[a.start + i] == a.g.erased || mem'[a.start + i] == u.readyHeader[i]
    {
      assert r'[i] == mem'[a.start + i];
    }
  }

  lemma MarkedBlank(r: Bytes, r': Bytes, h: Bytes, t: nat, erased: byte)
    requires |r| == |r'| == |h|
    requires forall i :: 0 <= i < |r| ==> r'[i] == if i < t then h[i] else r[i]
    requires forall i :: 0 <= i < |r| ==> r[i] == erased || r[i] == h[i]
    ensures IsBlank(r', erased) ==> IsBlank(r, erased)
  {
    if !IsBlank(r, erased) {
      var i: nat :| i < |r| && r[i] != erased;
      assert r'[i] == h[i];
    }
  }

  lemma ReadyNotBlank(u: Update)
    requires Suits(u)
    ensures !IsBlank(u.readyHeader, u.area.g.erased) && IsReady(u.readyHeader, u.area.struct)
  {
    assert u.readyHeader[..4][0] == u.readyHeader[0];
  }

  /** What the application, the source and the power supply may ask for, in any order. */
  datatype Call =
    | Manifest
    | Authorize(keyFound: bool)
    | Defer(postpone: bool)
    | Reject
    | Resume(byUser: bool, askUser: bool, accepted: bool)
    | Fragment(data: Bytes)
    | Report(delivered: bool, keyFound: bool, cut: bool, erase: bool)
    | PowerCut

  /** The event is the one that was called for. */
  predicate Answers(call: Call, e: G.Event) {
    match call
    case Manifest => e == G.Manifest
    case Authorize(keyFound) => e.Authorize? && e.keyLost == !keyFound
    case Defer(postpone) => e.Defer? && e.postpone == postpone
    case Reject => e.Reject?
    case Resume(byUser, askUser, accepted) => e == G.Resume(byUser, askUser, accepted)
    case Fragment(data) => e.FragmentArrives? && e.data == data
    case Report(delivered, keyFound, cut, _) =>
      e.Report? && e.delivered == delivered && e.keyLost == !keyFound && e.cut == cut
    case PowerCut => e.PowerCut?
  }

  /** What became of the device, and whether a download was given up. */
  function FateOf(e: G.Event): G.Fate {
    match e
    case Authorize(device, _, _) => device
    case Defer(_, device, _) => device
    case FragmentArrives(_, device, _) => device
    case Report(_, device, _, _, _, _, _) => device
    case _ => G.Works
  }

  /** The event was called for, and with power for the whole storage none is cut. */
  predicate Called(call: Call, e: G.Event, power: nat, storage: nat) {
    Answers(call, e) && (power >= 2 * storage ==> !FateOf(e).Cut?)
  }

  predicate GivenUp(e: G.Event) {
    (e.Authorize? || e.Report?) && e.giveUp
  }

  /** Freshly erased storage and no manifest. */
  const INITIAL := G.State(false, G.ERASED, None, false, false, None)

  // ---- The handlers ---------------------------------------------------------------------

  class Updater {
    const u: Update
    const bd: Device
    var manifest: bool            // in non-volatile memory
    var active: bool              // fota_ctx exists; the next four are part of it
    var mode: G.Mode
    var resume: G.Resuming
    var pending: G.Callback
    var hashed: Bytes             // what the payload hash has taken in
    var session: Session?         // the rest of it, while a download runs
    var postponed: bool           // fota_install_state
    var deferred: bool            // fota_defer_by_user

    /** What the data area holds, and what the last installation was started with. */
    ghost var payload: Bytes
    ghost var pages: seq<Bytes>
    ghost var started: Option<Bytes>

    ghost function Parts(): set<object>
      reads this
    {
      if session == null then {} else {session, session.writer, session.writer.pageBuf}
    }

    /** The storage is in order. */
    ghost predicate Base()
      reads `payload, `pages, bd`mem
      ensures Base() ==> u.Valid() && u.area.Valid() && 0 < u.area.ready < u.area.g.data <= |bd.mem|
    {
      && Suits(u) && u.Fits(bd) && Truthful(u, bd.mem, payload, pages)
      && u.area.start + u.area.ready <= |bd.mem| && Marked(u, bd.mem)
    }

    /** The session of a running download works on it. */
    ghost predicate Linked()
      reads this, bd`mem, Parts()
    {
      && session != null && session.u == u && session.writer.bd == bd && session.payload == payload
      && session.Shape() && session.Running() && session.payloadOffset < u.size
      && session.writer.pages == pages && session.hashed == hashed
    }

    ghost function View(): G.State
      requires u.area.Valid() && u.area.g.data <= |bd.mem|
      reads this, bd`mem
    {
      var st := StoreView(u, bd.mem, payload, pages);
      G.State(manifest, if active && mode == G.Downloading then st.(image := hashed) else st,
              if active then Some(G.Context(mode, resume, hashed, pending)) else None, postponed, deferred, started)
    }

    /** What the data area holds, if there is a firmware header. */
    ghost function Stored(): Bytes
      requires u.area.Valid() && u.area.g.data <= |bd.mem|
      reads `payload, `pages, bd`mem
    {
      StoreView(u, bd.mem, payload, pages).image
    }

    /** Where the data area will end. */
    ghost function Goal(): nat
      requires u.area.Valid() && u.area.g.data <= |bd.mem|
      reads `payload, `pages, bd`mem
    {
      Target(u, Stored(), pages)
    }

    /** There is a candidate to install, or a download to go on with. */
    ghost predicate Keeps()
      requires u.Valid() && u.area.Valid() && u.area.g.data <= |bd.mem|
      reads `payload, `pages, bd`mem
    {
      StoreView(u, bd.mem, payload, pages).ready == G.Whole || Resumable(u, bd.mem, payload, pages)
    }

    ghost predicate Inner()
      reads this, bd`mem, Parts()
      ensures Inner() ==> Base()
    {
      Base() && (active && mode == G.Downloading ==> Linked())
    }

    /** In addition, the gate is sound. */
    ghost predicate Valid()
      reads this, bd`mem, Parts()
      ensures Valid() ==> Inner()
    {
      Inner() && G.Sound(Expects(u), View(), true)
    }

    /** A call that may erase what is stored: a fresh start where there is nothing to go on
        with or no key to do so, or the erase behind an installation. */
    ghost predicate MayErase(call: Call)
      requires Base()
      reads this, bd`mem
    {
      active && match call
                case Authorize(keyFound) => mode == G.AwaitDownload && !(resume == G.Begun && keyFound && Keeps())
                case Report(delivered, keyFound, cut, erase) =>
                  && delivered
                  && ((pending == G.StartDownload && !(resume == G.Begun && keyFound && Keeps()))
                      || (pending == G.InstallComponent && erase && !cut))
                case _ => false
    }

    /** The event is what was called for and what the device allows: it fails only without
        power or room, a download is given up only where there is none to go on with, and
        nothing else that is stored is lost. */
    twostate predicate Does(call: Call, e: G.Event)
      requires old(Base()) && Base()
      reads this, bd
    {
      && Answers(call, e) && |bd.mem| == |old(bd.mem)|
      && (FateOf(e).Cut? ==> old(bd.power) < 2 * |bd.mem|)
      && (FateOf(e).Fails? ==> call.Fragment? && old(Goal()) > |bd.mem|)
      && (GivenUp(e) ==> !old(Keeps()))
      && (old(active && mode == G.AwaitDownload && resume != G.Begun) && call.Authorize? && FateOf(e) == G.Works ==>
            pages == [])
      && (old(Stored()) <= Stored() || old(MayErase(call)))
    }

    lemma BaseFacts()
      requires Base()
      ensures u.Valid() && u.area.Valid() && u.area.g.data <= |bd.mem| && |payload| == u.size > 0
      ensures Truthful(u, bd.mem, payload, pages)
    {
      TruthfulFacts(u, bd.mem, payload, pages);
    }

    /** Freshly erased storage and no manifest. */
    constructor (u: Update, bd: Device)
      requires Suits(u) && u.Fits(bd) && ErasedFrom(u.area.g, bd.mem, u.area.start)
      ensures this.u == u && this.bd == bd && session == null && Valid()
      ensures View() == INITIAL
    {
      this.u, this.bd := u, bd;
      manifest, active, session, postponed, deferred := false, false, null, false, false;
      payload, pages, started := Fill(0, u.size), [], None;
      mode, resume, pending, hashed := G.AwaitDownload, G.Inactive, G.Nothing, [];
      new;
      hide Holds, AllVisible, Multiple, Truthful, ErasesSafely;
      ErasedTruthful(u, bd.mem, payload);
      ErasedView(u, bd.mem, payload);
    }

    /** A download that has just started ends where the payload size says. */
    lemma EmptyGoal()
      requires Valid() && active && mode == G.Downloading && hashed == [] && pages == []
      ensures Goal() == Target(u, [], [])
    {
      hide StoreView, Target, Base;
      BaseFacts();
      DownloadView();
    }

    /** update_cleanup: what is in RAM only is gone. */
    method Cleanup() returns (ghost keep: nat)
      requires Inner()
      modifies `active, `session
      ensures Base() && !active && session == null
      ensures View() == old(View()).(store := G.Kept(old(View()), keep), ctx := None)
    {
      hide Base, Area.Valid, StoreView, Session.Shape, Session.Running;
      BaseFacts();
      keep := 0;
      if active && mode == G.Downloading {
        keep := |session.writer.scan.data|;
        DownloadView();
      }
      active, session := false, null;
    }

    /** While a download runs, the storage has a prefix of what was hashed. */
    lemma DownloadView()
      requires Base() && Linked()
      ensures u.area.g.data <= |bd.mem|
      ensures StoreView(u, bd.mem, payload, pages) == G.Storage(G.Blank, true, session.writer.scan.data)
      ensures session.writer.scan.data <= hashed && hashed == payload[..session.payloadOffset]
    {
      hide Holds, StoreView, Truthful, AllVisible, Multiple, Underway;
      UnderwayView(u, bd.mem, payload, pages, session.writer.scan);
    }

    /** abort_update, for good or so that the update can be resumed. */
    method AbortUpdate(terminate: bool) returns (ghost keep: nat)
      requires Inner()
      modifies `active, `session, `manifest
      ensures Base() && !active && session == null
      ensures View() == G.Abort(old(View()), keep, terminate)
    {
      hide Base, Area.Valid, StoreView, Linked;
      BaseFacts();
      keep := Cleanup();
      if terminate {
        manifest := false;
      }
    }

    method LosePower() returns (ghost keep: nat)
      requires Inner()
      modifies `active, `session, `postponed, `deferred
      ensures Base() && !active && session == null
      ensures View() == G.PowerLost(old(View()), keep)
    {
      hide Base, Area.Valid, StoreView, Linked;
      BaseFacts();
      keep := Cleanup();
      postponed, deferred := false, false;
    }

    /** finalize_update, with the whole image on storage. */
    method FinalizeUpdate()
      requires Base() && active
      requires mode == G.Downloading ==>
                 u.area.Valid() && u.area.g.data <= |bd.mem| && StoreView(u, bd.mem, payload, pages).image == hashed
      modifies `active, `session, `manifest, `mode, `pending
      ensures Base() && session == null && (active ==> mode == G.AwaitInstall)
      ensures View() == G.Finalize(Expects(u), old(View()))
    {
      hide Base, Area.Valid, StoreView;
      BaseFacts();
      ghost var image := View().store.image;
      assert image[..|image|] == image;
      session := null;
      if resume != G.Ongoing {
        if u.hash(hashed) != u.digest {
          active, manifest := false, false;
          return;
        }
      }
      mode, pending := G.AwaitInstall, G.Nothing;
    }

    /** A download starts or goes on. */
    method Begin(addr: nat, iv: nat, data: Bytes, ghost s: Scan)
      requires Base() && active && mode == G.AwaitDownload
      requires u.area.Valid() && Underway(u, bd.mem, payload, pages) == Some(s)
      requires addr == End(u.area.g, pages) && data == s.data && |data| < u.size
      requires u.layout.Encrypted? ==> iv == u.area.g.iv0 + s.good
      modifies `session, `mode, `resume, `pending, `hashed
      ensures Inner() && fresh(Parts())
      ensures View() == old(View()).(store := G.Storage(G.Blank, true, data),
                                     ctx := Some(G.Context(G.Downloading, G.Inactive, data, G.Nothing)))
    {
      hide Base, Area.Valid, StoreView, Underway, Session.Shape, Session.Running;
      BaseFacts();
      StoredView(s);
      session := Opened(addr, iv, data, s);
      mode, resume, pending, hashed := G.Downloading, G.Inactive, G.Nothing, data;
    }

    /** The session for what the data area holds. */
    method Opened(addr: nat, iv: nat, data: Bytes, ghost s: Scan) returns (ses: Session)
      requires Base() && u.area.Valid() && Underway(u, bd.mem, payload, pages) == Some(s)
      requires addr == End(u.area.g, pages) && data == s.data && |data| < u.size
      requires u.layout.Encrypted? ==> iv == u.area.g.iv0 + s.good
      ensures ses.u == u && ses.writer.bd == bd && ses.payload == payload && ses.writer.pages == pages
      ensures ses.hashed == data && ses.payloadOffset == |data| && ses.Shape() && ses.Running()
      ensures fresh(ses) && fresh(ses.writer) && fresh(ses.writer.pageBuf)
    {
      hide Holds, Truthful, StoreView, Update.FitsSize, Underway, Session.Shape, Session.Running, Marked, AllVisible,
           Suits, Codec.Lawful, Codec.Implements, Area.Valid;
      BaseFacts();
      UnderwayView(u, bd.mem, payload, pages, s);
      EachVisible(u, payload);
      ses := NewSession(u, bd, addr, |data|, iv, data, payload, pages, s);
      SessionHashed(ses);
      assert s.data == payload[..|s.data|];
    }

    /** The erase and the header of a fresh start. */
    method Restart() returns (ghost fate: G.Fate)
      requires Inner() && active && mode == G.AwaitDownload
      modifies this, bd
      ensures Inner() && fresh(Parts())
      ensures G.Leaves(fate, G.Restarts(old(View()).store)) && View() == G.FreshStart(old(View()), fate)
      ensures |bd.mem| == |old(bd.mem)| && !fate.Fails? && (fate.Cut? ==> old(bd.power) < 2 * |bd.mem|)
      ensures fate == G.Works ==> pages == []
    {
      hide Holds, Multiple, Truthful, StoreView, ErasesSafely, Underway, AllVisible, Marked, Restarted, Splice,
           G.Restarts;
      BaseFacts();
      ghost var mem := bd.mem;
      var ok;
      ghost var n, t;
      ok, n, t := StartAfresh(u, bd, payload, pages, payload);
      MarkedRestart(u, mem, n, t);
      if ok {
        fate, pages := G.Works, [];
        UnderwayView(u, bd.mem, payload, pages, START);
        Begin(u.area.g.data, u.area.g.iv0, [], START);
      } else {
        ghost var was := pages;
        if u.area.start + n == |mem| {
          pages := [];
        }
        RestartView(u, mem, n, t, payload, was, payload, pages);
        fate := G.Cut(StoreView(u, bd.mem, payload, pages));
        ghost var keep := LosePower();
      }
    }

    /** fota_on_download_authorize: the scan decides between the installation, the rest of
        the download and a fresh start. */
    method OnDownloadAuthorize(keyFound: bool) returns (ghost fate: G.Fate, ghost giveUp: bool)
      requires Inner() && active && mode == G.AwaitDownload
      modifies this, bd
      ensures Inner() && fresh(Parts())
      ensures G.Leaves(fate, G.Restarts(old(View()).store))
      ensures View() == G.DownloadAuthorized(Expects(u), old(View()), fate, giveUp, !keyFound)
      ensures |bd.mem| == |old(bd.mem)| && !fate.Fails? && (fate.Cut? ==> old(bd.power) < 2 * |bd.mem|)
      ensures u.Valid() && (giveUp ==> !old(Keeps()))
      ensures fate == G.Works && (old(resume) != G.Begun || !keyFound) ==> pages == []
      ensures old(resume == G.Begun && Keeps()) && keyFound ==>
                Stored() == old(Stored()) && View().store == old(View()).store
    {
      hide Base, Area.Valid, StoreView, Linked, Truthful, Holds, Update.Valid, Update.Fits, G.Finalize, G.FreshStart,
           G.Restarts, Keeps, Resumable;
      BaseFacts();
      giveUp := false;
      if resume == G.Begun && keyFound {
        ghost var s := View();
        KeepsView();
        fate, giveUp := TakeUp();
        if s.store.ready == G.Whole || (s.store.ready == G.Blank && s.store.header && !giveUp) {
          G.TakenUp(Expects(u), s, fate, giveUp, false);
        }
        return;
      }
      fate := Restart();
    }

    lemma KeepsView()
      requires Base()
      ensures u.Valid() && u.area.Valid() && u.area.g.data <= |bd.mem|
      ensures Keeps() ==> var st := StoreView(u, bd.mem, payload, pages);
                          st.ready == G.Whole || (st.ready == G.Blank && st.header)
    {
      hide Truthful, Holds, AllVisible, RoomFor, Marked;
      BaseFacts();
      TruthView(u, bd.mem, payload, pages);
    }

    /** What the scan of the storage finds. */
    method Look() returns (found: Found, addr: nat, iv: nat, data: Bytes, ghost s: Scan)
      requires Base()
      ensures found == ReadyFound <==> StoreView(u, bd.mem, payload, pages).ready == G.Whole
      ensures found == AllWritten || found == Downloading ==>
                StoreView(u, bd.mem, payload, pages) == G.Storage(G.Blank, true, data)
      ensures u.Valid() && (found == NoResume ==> !Keeps())
      ensures found == AllWritten ==> |data| == u.size
      ensures found == Downloading ==> Resumable(u, bd.mem, payload, pages)
      ensures found == Downloading ==>
                && |data| < u.size && addr == End(u.area.g, pages)
                && Underway(u, bd.mem, payload, pages) == Some(s) && data == s.data
                && (u.layout.Encrypted? ==> iv == u.area.g.iv0 + s.good)
    {
      hide Holds, Multiple, Truthful, StoreView, Underway, Traced, Context.Fresh, Area.Headers, Suits, GivesUp,
           AllVisible, Marked, ErasesSafely, IsBlank;
      BaseFacts();
      TruthView(u, bd.mem, payload, pages);
      var ctx := NewContext(u, bd);
      ghost var walked;
      found, walked := ctx.Analyze(true);
      addr, iv, data, s := ctx.storageAddr, ctx.iv, ctx.hashed, ctx.scan;
      if found == AllWritten {
        GoesOn(ctx.pages, s);
      } else if found == Downloading {
        Restored(ctx.pages, s);
        WentOn(u, bd.mem, payload, pages, s);
      } else if found == NoResume {
        GaveUp(u, bd.mem, payload, pages, walked);
      }
    }

    /** Nothing is left to download. */
    method ToInstall(r: G.Resuming, data: Bytes)
      requires Base() && active && mode == G.AwaitDownload
      modifies `active, `session, `manifest, `mode, `pending, `resume, `hashed
      ensures Base() && session == null && (active ==> mode == G.AwaitInstall)
      ensures var s := old(View()).(ctx := Some(G.Context(G.AwaitDownload, r, data, G.Nothing)));
              View() == G.Finalize(Expects(u), s)
    {
      hide Base, Area.Valid, StoreView, G.Finalize;
      resume, pending, hashed := r, G.Nothing, data;
      FinalizeUpdate();
    }

    /** The scan decides. */
    method TakeUp() returns (ghost fate: G.Fate, ghost giveUp: bool)
      requires Inner() && active && mode == G.AwaitDownload && resume == G.Begun
      modifies this, bd
      ensures Inner() && fresh(Parts())
      ensures G.Leaves(fate, G.Restarts(old(View()).store))
      ensures View() == G.DownloadAuthorized(Expects(u), old(View()), fate, giveUp, false)
      ensures |bd.mem| == |old(bd.mem)| && !fate.Fails? && (fate.Cut? ==> old(bd.power) < 2 * |bd.mem|)
      ensures u.Valid() && (giveUp ==> !old(Keeps()))
      ensures !giveUp ==> Stored() == old(Stored())
    {
      hide Base, Area.Valid, StoreView, Underway, Linked, G.Finalize, G.FreshStart, G.Restarts, Keeps, Resumable,
           Update.Valid;
      BaseFacts();
      fate, giveUp := G.Works, false;
      var found, addr, iv, data;
      ghost var s;
      found, addr, iv, data, s := Look();
      match found
      case ReadyFound => ToInstall(G.Ongoing, hashed);
      case AllWritten => ToInstall(G.Inactive, data);
      case Downloading => Begin(addr, iv, data, s);
      case NoResume =>
        giveUp := true;
        fate := Restart();
    }

    /** A scan that counts the whole payload has found all of it. */
    lemma GoesOn(q: seq<Bytes>, s: Scan)
      requires Base() && u.area.Headers(bd.mem) == Started
      requires Traced(u.area.g, bd.mem, u.size, q) == Some(s) && |s.data| == u.size
      ensures StoreView(u, bd.mem, payload, pages) == G.Storage(G.Blank, true, s.data)
    {
      hide Holds, Multiple, Truthful, StoreView, Underway, AllVisible, Marked, Traced, Area.Headers, Suits;
      BaseFacts();
      StartedFacts(u, bd.mem, payload, pages);
      ScanCompletes(u, bd.mem, payload, pages, q);
      KeptAll(u, bd.mem, payload, pages);
      StartedView(u, bd.mem, payload, pages);
    }

    /** A scan that stops at an erased page has found what the data area holds. */
    lemma Restored(q: seq<Bytes>, s: Scan)
      requires Base() && u.area.Headers(bd.mem) == Started
      requires Traced(u.area.g, bd.mem, u.size, q) == Some(s)
      requires var a := End(u.area.g, q);
               a + u.area.g.page <= |bd.mem| && IsBlank(bd.mem[a..a + u.area.g.page], u.area.g.erased)
      ensures q == pages && Underway(u, bd.mem, payload, pages) == Holds(u.area.g, bd.mem, payload, pages) == Some(s)
      ensures StoreView(u, bd.mem, payload, pages) == G.Storage(G.Blank, true, s.data)
    {
      hide Holds, Multiple, Truthful, StoreView, Underway, AllVisible, Marked, Traced, Area.Headers, Suits, IsBlank;
      BaseFacts();
      StartedFacts(u, bd.mem, payload, pages);
      ScanRestores(u.area.g, bd.mem, payload, pages, q);
      StartedView(u, bd.mem, payload, pages);
      KeptIs(u, bd.mem, payload, pages, s);
    }

    /** What is to come turns out to start with `data`. */
    ghost method Adapt(data: Bytes)
      requires Base() && Linked() && |data| <= u.size - session.payloadOffset
      modifies `payload, session`payload
      ensures Base() && Linked() && session == old(session)
      ensures var from := session.payloadOffset;
              from + |data| <= u.size == |payload| && payload[from..from + |data|] == data
    {
      hide Holds, Truthful, StoreView, Update.FitsSize, Underway, Visible, AllVisible, Session.Shape, Session.Running,
           Suits, Marked, Codec.Lawful, Codec.Implements, PageWriter.Shape;
      BaseFacts();
      FedFacts();
      var from := session.payloadOffset;
      var other := payload[..from] + data + payload[from + |data|..];
      assert other[..from] == payload[..from] && other[from..from + |data|] == data;
      EachVisible(u, other);
      session.Retarget(other);
      payload := other;
      FedTruthful();
    }

    lemma FedTruthful()
      requires Suits(u) && session != null && session.u == u && session.writer.bd == bd
      requires session.Shape() && session.Running()
      ensures Truthful(u, bd.mem, session.payload, session.writer.pages)
    {
      hide Holds, Truthful;
      UnderwayFacts(u, bd.mem, session.payload, session.writer.pages);
    }

    /** The session hands the fragment to the writer; what is to come is adapted to it. A
        cut may leave other bytes than were sent. */
    method Feed(data: Bytes) returns (status: Status, ghost s: Scan)
      requires Base() && active && mode == G.Downloading && Linked()
      modifies this, bd, Parts()
      ensures Base() && session == old(session) && u.area.Valid()
      ensures unchanged(`manifest, `active, `mode, `resume, `pending, `postponed, `deferred, `started)
      ensures Underway(u, bd.mem, payload, pages) == Some(s)
      ensures status == More ==> Linked()
      ensures var long := |old(hashed)| + |data| > u.size;
              && (status == Failed ==> hashed == old(hashed))
              && (status != Failed ==> hashed == old(hashed) + data && (status == Finished <==> |hashed| == u.size))
              && (status == Finished ==> s.data == hashed)
              && (long ==> status == Failed && s.data <= old(hashed))
      ensures |bd.mem| == |old(bd.mem)| && old(session.writer.scan.data) <= s.data
      ensures status == Failed && |old(hashed)| + |data| <= u.size ==>
                if bd.power == 0 then old(bd.power) <= |bd.mem|
                else old(Target(u, session.writer.scan.data, pages)) > |bd.mem|
    {
      hide Holds, Truthful, StoreView, Update.FitsSize, Underway, Visible, AllVisible, Session.Shape, Session.Running,
           Splice, Suits, Marked, Codec.Lawful, Codec.Implements, PageWriter.Shape, Target, PageWriter.Goal,
           PageWriter.Paid, PageWriter.Reaches, Concat, Area.Valid, Update.Valid, Robust, IsReady;
      BaseFacts();
      FedFacts();
      ghost var from, mem, before, goal := session.payloadOffset, bd.mem, bd.power + End(u.area.g, pages),
                                           session.writer.Goal(u.size);
      Targets(u, session.writer);
      if |data| <= u.size - session.payloadOffset {
        Adapt(data);
      }
      status := session.OnFragment(data);
      payload, pages, s := session.payload, session.writer.pages, session.writer.scan;
      AfterFeed(u, mem, bd.mem, payload, pages, s);
      Downloaded(u, session.writer, status != Failed, before, goal);
      if status != Failed {
        hashed := session.hashed;
      }
    }

    lemma FedFacts()
      requires Base() && Linked()
      ensures session.hashed == payload[..session.payloadOffset] && session.payloadOffset < u.size == |payload|
      ensures session.Shape() && session.u.area.Valid() && session.writer.g == u.area.g && u.area.g.eff > 0
      ensures Underway(u, bd.mem, payload, pages) == Some(session.writer.scan)
      ensures session.writer.scan.data <= session.hashed && |session.writer.scan.data| <= u.size
      ensures StoreView(u, bd.mem, payload, pages).image == session.writer.scan.data
    {
      hide StoreView;
      DownloadView();
    }

    /** What that means for the gate. */
    method FeedView(data: Bytes) returns (status: Status, ghost s: Scan)
      requires Inner() && active && mode == G.Downloading
      modifies this, bd, Parts()
      ensures Base() && active && mode == G.Downloading && session == old(session)
      ensures StoreView(u, bd.mem, payload, pages) == G.Storage(G.Blank, true, s.data)
      ensures status == More ==> Linked()
      ensures status == Finished ==> s.data == hashed
      ensures status == Finished <==> status != Failed && |hashed| == u.size
      ensures var v, long := old(View()), |old(hashed)| + |data| > u.size;
              && v.store == G.Storage(G.Blank, true, old(hashed))
              && (long ==> status == Failed && s.data <= old(hashed))
              && View() == if status == Failed then v
                           else v.(store := v.store.(image := v.store.image + data),
                                   ctx := Some(v.ctx.value.(hashed := v.ctx.value.hashed + data)))
      ensures |bd.mem| == |old(bd.mem)| && old(Stored()) <= Stored()
      ensures status == Failed && |old(hashed)| + |data| <= u.size ==>
                if bd.power == 0 then old(bd.power) <= |bd.mem| else old(Goal()) > |bd.mem|
    {
      hide Base, Area.Valid, StoreView, Linked, Underway, Truthful, Update.Valid, Holds, Target;
      BaseFacts();
      DownloadView();
      status, s := Feed(data);
      StoredView(s);
    }

    /** The download ends, because of the fragment or the device. */
    method Stop(lost: bool)
      requires Base() && active
      modifies `active, `session, `manifest, `postponed, `deferred
      ensures Base() && !active && session == null
      ensures var v := old(View()).(store := StoreView(u, bd.mem, payload, pages), ctx := None);
              View() == if lost then v.(postponed := false, deferred := false) else v.(manifest := false)
    {
      hide Base, Area.Valid, StoreView;
      active, session := false, null;
      if lost {
        postponed, deferred := false, false;
      } else {
        manifest := false;
      }
    }

    /** A fragment for the running download, and what follows from it. */
    method TakeFragment(data: Bytes) returns (ghost device: G.Fate, ghost keep: nat)
      requires Inner() && active && mode == G.Downloading
      modifies this, bd, Parts()
      ensures Inner() && Parts() <= old(Parts()) && G.Physical(old(View()), G.FragmentArrives(data, device, keep))
      ensures View() == G.FragmentArrived(Expects(u), old(View()), data, device, keep)
      ensures |bd.mem| == |old(bd.mem)| && old(Stored()) <= Stored()
      ensures device.Cut? ==> old(bd.power) <= |bd.mem|
      ensures device.Fails? ==> old(Goal()) > |bd.mem|
    {
      hide Base, Area.Valid, StoreView, Linked, G.Finalize, Goal;
      device, keep := G.Works, 0;
      var long := |hashed| + |data| > u.size;
      var status;
      ghost var s;
      status, s := FeedView(data);
      if status == Failed {
        ghost var left := G.Storage(G.Blank, true, s.data);
        keep := |s.data|;
        device := if long then G.Works else if bd.power == 0 then G.Cut(left) else G.Fails(left);
        Stop(!long && bd.power == 0);
      } else if status == Finished {
        FinalizeUpdate();
      }
    }

    lemma StoredView(s: Scan)
      requires Base() && u.area.Valid() && Underway(u, bd.mem, payload, pages) == Some(s)
      ensures u.area.g.data <= |bd.mem|
      ensures StoreView(u, bd.mem, payload, pages) == G.Storage(G.Blank, true, s.data)
    {
      hide StoreView, Underway, Truthful;
      UnderwayView(u, bd.mem, payload, pages, s);
    }

    /** write_candidate_ready, unless it is there already, and the report that precedes the
        installation. */
    method OnInstallAuthorize(postpone: bool) returns (ghost device: G.Fate)
      requires Inner() && active && mode == G.AwaitInstall
      requires u.area.Valid() && u.area.g.data <= |bd.mem| && Expects(u).Verified(View().store.image)
      requires resume == G.Ongoing ==> View().store.ready == G.Whole
      modifies this, bd
      ensures Inner() && Parts() <= old(Parts())
      ensures G.Leaves(device, G.Marks(old(View()).store))
      ensures View() == G.InstallAuthorized(old(View()), postpone, device)
      ensures |bd.mem| == |old(bd.mem)| && Stored() == old(Stored())
      ensures !device.Fails? && (device.Cut? ==> old(bd.power) < u.area.ready)
    {
      hide Base, Area.Valid, StoreView, Linked, G.Marks;
      BaseFacts();
      device := G.Works;
      if resume == G.Ongoing {
        postponed, session, resume, pending := postpone, null, G.Inactive, G.InstallComponent;
      } else {
        device := Mark(postpone);
      }
    }

    method Mark(postpone: bool) returns (ghost device: G.Fate)
      requires Inner() && active && mode == G.AwaitInstall && resume != G.Ongoing
      requires Expects(u).Verified(StoreView(u, bd.mem, payload, pages).image)
      modifies this, bd
      ensures Inner() && session == null && G.Leaves(device, G.Marks(old(View()).store))
      ensures View() == G.InstallAuthorized(old(View()), postpone, device)
      ensures |bd.mem| == |old(bd.mem)| && Stored() == old(Stored())
      ensures !device.Fails? && (device.Cut? ==> old(bd.power) < u.area.ready)
    {
      hide Base, Area.Valid, StoreView, Linked, G.Marks;
      BaseFacts();
      device := G.Works;
      postponed, session := postpone, null;
      var ok := WriteReady();
      if ok {
        pending := G.InstallComponent;
      } else {
        device := G.Cut(StoreView(u, bd.mem, payload, pages));
        ghost var keep := LosePower();
      }
    }

    /** The program of the candidate ready header. */
    method WriteReady() returns (ok: bool)
      requires Base() && Expects(u).Verified(StoreView(u, bd.mem, payload, pages).image)
      modifies bd
      ensures Base() && |bd.mem| == |old(bd.mem)| && (!ok ==> old(bd.power) < u.area.ready)
      ensures var st := StoreView(u, bd.mem, payload, pages);
              && st in G.Marks(old(StoreView(u, bd.mem, payload, pages)))
              && st.image == old(StoreView(u, bd.mem, payload, pages)).image
              && (ok ==> st == old(StoreView(u, bd.mem, payload, pages)).(ready := G.Whole))
    {
      hide Holds, Multiple, Truthful, StoreView, ErasesSafely, AllVisible, Marked, Splice, IsReady, G.Marks,
           Geometry.Valid;
      BaseFacts();
      ghost var mem := bd.mem;
      ghost var t := Min(u.area.ready, bd.power);
      VerifiedStores(u, mem, payload, pages);
      MarkView(u, mem, payload, pages, t);
      AfterReady(u, mem, payload, pages, t);
      MarkedWritable(u, bd);
      ok := bd.Program(u.readyHeader, u.area.start);
    }

    /** fota_candidate_erase: the first sector, or nothing if power is lost. */
    method EraseCandidate() returns (ghost rest: G.Storage)
      requires Base() && !active
      modifies bd
      ensures Base() && rest in G.Restarts(old(View()).store) && View() == old(View()).(store := rest)
      ensures |bd.mem| == |old(bd.mem)| && (old(bd.power) >= bd.eraseSize ==> rest.ready != G.Whole)
    {
      hide Holds, Multiple, Truthful, StoreView, AllVisible, Marked, G.Restarts, Splice, SafeStop;
      BaseFacts();
      ghost var mem := bd.mem;
      ghost var n;
      var ok;
      OneUnit(bd.eraseSize);
      MultipleGap(0, |bd.mem| - u.area.start, bd.eraseSize);
      ok, n := bd.Erase(u.area.start, bd.eraseSize);
      AfterErase(u, mem, payload, pages, n);
      MarkedRestart(u, mem, n, 0);
      SpliceNothing(bd.mem, u.area.start + u.area.ready);
      assert u.area.header[..0] == [];
      RestartView(u, mem, n, 0, payload, pages, payload, pages);
      if n > 0 {
        SpliceAt(mem, u.area.start, Fill(u.area.g.erased, n), u.area.start);
        NotWhole(u, bd.mem, payload, pages);
      }
      rest := StoreView(u, bd.mem, payload, pages);
    }

    lemma SoundFacts()
      requires Valid()
      ensures u.area.Valid() && u.area.g.data <= |bd.mem| && Inner() && Base()
      ensures active && mode == G.AwaitInstall ==> Expects(u).Verified(View().store.image)
      ensures active && resume == G.Ongoing ==> View().store.ready == G.Whole
      ensures active && pending == G.InstallComponent ==> mode == G.AwaitInstall
      ensures active && pending == G.StartDownload ==> mode == G.AwaitDownload
    {
      hide StoreView, Truthful, Holds;
      BaseFacts();
    }

    /** The context of an update that waits for the download to be authorised. */
    method NewUpdate(r: G.Resuming, p: G.Callback)
      requires Inner() && !active
      modifies `active, `mode, `resume, `hashed, `pending
      ensures Inner() && Stored() == old(Stored())
      ensures View() == old(View()).(ctx := Some(G.Context(G.AwaitDownload, r, [], p)))
    {
      hide Base, Area.Valid, StoreView, Linked;
      active, mode, resume, hashed, pending := true, G.AwaitDownload, r, [], p;
    }

    /** fota_on_manifest, for a manifest that is accepted. */
    method OnManifest() returns (ghost e: G.Event)
      requires Valid()
      modifies this, bd, Parts()
      ensures Valid() && fresh(Parts() - old(Parts()))
      ensures G.Physical(old(View()), e) && View() == G.Next(Expects(u), old(View()), e)
      ensures Does(Manifest, e)
    {
      hide Base, Area.Valid, StoreView, Linked, G.Sound, Keeps, G.DownloadAuthorized, G.InstallAuthorized,
           G.FragmentArrived, G.Installed, G.Abort, G.PowerLost;
      SoundFacts();
      e := G.Manifest;
      G.SoundNext(Expects(u), View(), true, e);
      if !active && !manifest {
        NewUpdate(G.Inactive, G.Nothing);
        manifest := true;
      }
    }

    /** fota_on_authorize */
    method OnAuthorize(keyFound: bool) returns (ghost e: G.Event)
      requires Valid()
      modifies this, bd, Parts()
      ensures Valid() && fresh(Parts() - old(Parts()))
      ensures G.Physical(old(View()), e) && View() == G.Next(Expects(u), old(View()), e)
      ensures Does(Authorize(keyFound), e)
    {
      hide Base, Area.Valid, StoreView, Linked, G.Sound, G.DownloadAuthorized, G.InstallAuthorized, G.Restarts, G.Marks;
      SoundFacts();
      ghost var s := View();
      e := G.Authorize(G.Works, false, !keyFound);
      if active && mode == G.AwaitInstall {
        ghost var device := OnInstallAuthorize(false);
        e := G.Authorize(device, false, !keyFound);
      } else if active && mode == G.AwaitDownload {
        ghost var device, giveUp := OnDownloadAuthorize(keyFound);
        e := G.Authorize(device, giveUp, !keyFound);
      }
      G.SoundNext(Expects(u), s, true, e);
    }

    /** fota_on_defer, which also postpones the reboot after an installation. */
    method OnDefer(postpone: bool) returns (ghost e: G.Event)
      requires Valid()
      modifies this, bd, Parts()
      ensures Valid() && fresh(Parts() - old(Parts()))
      ensures G.Physical(old(View()), e) && View() == G.Next(Expects(u), old(View()), e)
      ensures Does(Defer(postpone), e)
    {
      hide Base, Area.Valid, StoreView, Linked, G.Sound, G.InstallAuthorized, G.Marks;
      SoundFacts();
      ghost var s := View();
      e := G.Defer(postpone, G.Works, 0);
      if active && mode != G.AwaitInstall {
        ghost var keep := AbortUpdate(false);
        deferred := true;
        e := G.Defer(postpone, G.Works, keep);
      } else if active {
        deferred := true;
        if postpone {
          ghost var device := OnInstallAuthorize(true);
          e := G.Defer(postpone, device, 0);
        } else {
          active, session, postponed := false, null, false;
        }
      }
      G.SoundNext(Expects(u), s, true, e);
    }

    /** fota_on_reject */
    method OnReject() returns (ghost e: G.Event)
      requires Valid()
      modifies this, bd, Parts()
      ensures Valid() && fresh(Parts() - old(Parts()))
      ensures G.Physical(old(View()), e) && View() == G.Next(Expects(u), old(View()), e)
      ensures Does(Reject, e)
    {
      hide Base, Area.Valid, StoreView, Linked, G.Sound;
      SoundFacts();
      ghost var s := View();
      e := G.Reject(0);
      if active || manifest {
        ghost var keep := AbortUpdate(true);
        e := G.Reject(keep);
      }
      G.SoundNext(Expects(u), s, true, e);
    }

    /** fota_on_resume and the part of handle_manifest it leads to */
    method OnResume(byUser: bool, askUser: bool, accepted: bool) returns (ghost e: G.Event)
      requires Valid()
      modifies this, bd, Parts()
      ensures Valid() && fresh(Parts() - old(Parts()))
      ensures G.Physical(old(View()), e) && View() == G.Next(Expects(u), old(View()), e)
      ensures Does(Resume(byUser, askUser, accepted), e)
    {
      hide Base, Area.Valid, StoreView, Linked, G.Sound, Keeps, G.DownloadAuthorized, G.InstallAuthorized,
           G.FragmentArrived, G.Installed, G.Abort, G.PowerLost;
      SoundFacts();
      e := G.Resume(byUser, askUser, accepted);
      G.SoundNext(Expects(u), View(), true, e);
      if !active && !postponed && !(deferred && !byUser) && manifest {
        deferred := false;
        if !accepted {
          manifest := false;
        } else {
          NewUpdate(G.Begun, if askUser then G.Nothing else G.StartDownload);
        }
      }
    }

    /** fota_on_fragment */
    method OnFragment(data: Bytes) returns (ghost e: G.Event)
      requires Valid()
      modifies this, bd, Parts()
      ensures Valid() && fresh(Parts() - old(Parts()))
      ensures G.Physical(old(View()), e) && View() == G.Next(Expects(u), old(View()), e)
      ensures Does(Fragment(data), e)
    {
      hide Base, Area.Valid, StoreView, Linked, G.Sound, G.FragmentArrived;
      SoundFacts();
      ghost var s := View();
      ghost var device, keep := G.Works, 0;
      if active && mode == G.Downloading {
        device, keep := TakeFragment(data);
      }
      e := G.FragmentArrives(data, device, keep);
      NotDownloading(s, data, device, keep);
      G.SoundNext(Expects(u), s, true, e);
    }

    lemma NotDownloading(s: G.State, data: Bytes, device: G.Fate, keep: nat)
      ensures s.ctx.Some? && s.ctx.value.mode != G.Downloading ==>
                G.FragmentArrived(Expects(u), s, data, device, keep) == s
    {}

    /** The outcome of a state report, and what waits for it: nothing, the download, or
        install_component. `cut` is a power cut while the installer runs. */
    method OnReport(delivered: bool, keyFound: bool, cut: bool, erase: bool) returns (ghost e: G.Event)
      requires Valid()
      modifies this, bd, Parts()
      ensures Valid() && fresh(Parts() - old(Parts()))
      ensures G.Physical(old(View()), e) && View() == G.Next(Expects(u), old(View()), e)
      ensures Does(Report(delivered, keyFound, cut, erase), e)
    {
      hide Base, Area.Valid, StoreView, Linked, G.Sound, G.DownloadAuthorized, G.Restarts, G.Installed;
      SoundFacts();
      ghost var s := View();
      SelfRestart(s.store);
      e := G.Report(delivered, G.Works, false, !keyFound, cut, s.store, 0);
      if active && !delivered {
        ghost var keep := AbortUpdate(false);
        e := G.Report(delivered, G.Works, false, !keyFound, cut, s.store, keep);
      } else if active && pending == G.StartDownload {
        ghost var device, giveUp := OnDownloadAuthorize(keyFound);
        e := G.Report(delivered, device, giveUp, !keyFound, cut, s.store, 0);
      } else if active && pending == G.InstallComponent {
        ghost var rest := InstallComponent(cut, erase);
        e := G.Report(delivered, G.Works, false, !keyFound, cut, rest, 0);
      }
      G.SoundNext(Expects(u), s, true, e);
    }

    /** install_component: the image on storage goes to the installer. */
    method InstallComponent(cut: bool, erase: bool) returns (ghost rest: G.Storage)
      requires Inner() && active && mode == G.AwaitInstall
      modifies this, bd
      ensures Inner() && Parts() == {} && rest in G.Restarts(old(View()).store)
      ensures View() == G.Installed(old(View()), cut, rest)
      ensures |bd.mem| == |old(bd.mem)| && (cut || !erase ==> Stored() == old(Stored()))
      ensures erase && !cut && old(bd.power) >= bd.eraseSize ==> View().store.ready != G.Whole
    {
      hide Base, Area.Valid, StoreView, Linked, G.Restarts;
      BaseFacts();
      rest := View().store;
      SelfRestart(rest);
      started := Some(rest.image);
      if cut {
        ghost var keep := LosePower();
        return;
      }
      manifest, active, session := false, false, null;
      if erase {
        rest := EraseCandidate();
      }
    }

    /** Power is lost between two events. */
    method OnPowerCut() returns (ghost e: G.Event)
      requires Valid()
      modifies this, bd, Parts()
      ensures Valid() && fresh(Parts() - old(Parts()))
      ensures G.Physical(old(View()), e) && View() == G.Next(Expects(u), old(View()), e)
      ensures Does(PowerCut, e)
    {
      hide Base, Area.Valid, StoreView, Linked, G.Sound;
      SoundFacts();
      ghost var s := View();
      ghost var keep := LosePower();
      e := G.PowerCut(keep);
      G.SoundNext(Expects(u), s, true, e);
    }

    method Handle(call: Call) returns (ghost e: G.Event)
      requires Valid()
      modifies this, bd, Parts()
      ensures Valid() && fresh(Parts() - old(Parts()))
      ensures G.Physical(old(View()), e) && View() == G.Next(Expects(u), old(View()), e)
      ensures Does(call, e)
    {
      hide Valid, View, G.Next, G.Physical, Base;
      match call
      case Manifest => e := OnManifest();
      case Authorize(keyFound) => e := OnAuthorize(keyFound);
      case Defer(postpone) => e := OnDefer(postpone);
      case Reject => e := OnReject();
      case Resume(byUser, askUser, accepted) => e := OnResume(byUser, askUser, accepted);
      case Fragment(data) => e := OnFragment(data);
      case Report(delivered, keyFound, cut, erase) => e := OnReport(delivered, keyFound, cut, erase);
      case PowerCut => e := OnPowerCut();
    }

    /** How much power there is for the next call. */
    method Supply(power: nat)
      requires Valid()
      modifies bd`power
      ensures Valid() && View() == old(View()) && bd.power == power
    {
      hide Valid, View, Inner, Base;
      assert bd as object !in Parts();
      bd.power := power;
    }

    method Step(call: Call, power: nat) returns (ghost e: G.Event)
      requires Valid()
      modifies this, bd, Parts()
      ensures Valid() && fresh(Parts() - old(Parts())) && |bd.mem| == |old(bd.mem)|
      ensures G.Physical(old(View()), e) && View() == G.Next(Expects(u), old(View()), e)
      ensures Called(call, e, power, |bd.mem|)
      ensures FateOf(e).Fails? ==> call.Fragment? && old(Goal()) > |bd.mem|
      ensures old(active && mode == G.AwaitDownload && resume != G.Begun) && call.Authorize? && FateOf(e) == G.Works ==>
                pages == []
    {
      hide Valid, View, G.Next, G.Physical, Base, Keeps, Stored, MayErase, Answers, FateOf, Goal;
      Supply(power);
      e := Handle(call);
    }
  }

  /** From freshly erased storage, over any sequence of calls, each with a supply that may
      fail after any byte: the machine makes the run of the gate that was called for, so that
      whatever was handed to the installer, and whatever stands behind a candidate ready
      header or a part of one, has the size and the digest of the manifest. */
  method Serve(u: Update, bd: Device, calls: seq<Call>, powers: seq<nat>) returns (m: Updater, ghost run: seq<G.Event>)
    requires Suits(u) && u.Fits(bd) && ErasedFrom(u.area.g, bd.mem, u.area.start) && |powers| == |calls|
    modifies bd
    ensures m.u == u && m.bd == bd && m.Valid() && |run| == |calls| && |bd.mem| == |old(bd.mem)|
    ensures forall i :: 0 <= i < |calls| ==> Called(calls[i], run[i], powers[i], |bd.mem|)
    ensures m.View() == G.After(Expects(u), INITIAL, run)
    ensures m.started.Some? ==> |m.started.value| == u.size && u.hash(m.started.value) == u.digest
    ensures ReadyView(u.area, bd.mem) != G.Blank ==>
              Stores(u, bd.mem, m.payload, m.pages) && |m.payload| == u.size && u.hash(m.payload) == u.digest
  {
    hide Suits, Update.Fits, ErasedFrom, Updater.Valid, Updater.Inner, Updater.Base, Updater.View, G.Physical, G.Next,
         Called;
    m := new Updater(u, bd);
    run := [];
    ghost var s := m.View();
    for i := 0 to |calls|
      invariant m.u == u && m.bd == bd && m.Valid() && |run| == i && fresh(m) && fresh(m.Parts())
      invariant m.View() == G.After(Expects(u), s, run) && |bd.mem| == |old(bd.mem)|
      invariant forall k :: 0 <= k < i ==> Called(calls[k], run[k], powers[k], |bd.mem|)
    {
      ghost var e := m.Step(calls[i], powers[i]);
      G.AfterSnoc(Expects(u), s, run, e);
      run := run + [e];
    }
    EndIsSound(m);
  }

  /** A manifest, and its download authorised: with enough power, on an empty data area. */
  method Begins(m: Updater, power: nat)
    requires m.Valid() && m.View() == INITIAL && power >= 2 * |m.bd.mem|
    modifies m, m.bd, m.Parts()
    ensures m.Valid() && fresh(m.Parts() - old(m.Parts())) && |m.bd.mem| == |old(m.bd.mem)| && m.pages == []
    ensures m.View() == INITIAL.(manifest := true, store := G.Storage(G.Blank, true, []),
                                 ctx := Some(G.Context(G.Downloading, G.Inactive, [], G.Nothing)))
  {
    hide Updater.Valid, Updater.Inner, Updater.Base, G.Physical, StoreView, Updater.Goal, G.Finalize, G.Restarts;
    ghost var e := m.Step(Manifest, power);
    e := m.Step(Authorize(true), power);
  }

  /** The whole image in one fragment: with power and room, it waits for its installation. */
  method Fills(m: Updater, image: Bytes, power: nat)
    requires m.Valid() && power >= 2 * |m.bd.mem| && m.pages == [] && Target(m.u, [], []) <= |m.bd.mem|
    requires m.View() == INITIAL.(manifest := true, store := G.Storage(G.Blank, true, []),
                                  ctx := Some(G.Context(G.Downloading, G.Inactive, [], G.Nothing)))
    requires Expects(m.u).Verified(image)
    modifies m, m.bd, m.Parts()
    ensures m.Valid() && fresh(m.Parts() - old(m.Parts())) && |m.bd.mem| == |old(m.bd.mem)|
    ensures m.View() == INITIAL.(manifest := true, store := G.Storage(G.Blank, true, image),
                                 ctx := Some(G.Context(G.AwaitInstall, G.Inactive, image, G.Nothing)))
  {
    hide Updater.Valid, Updater.Inner, Updater.Base, G.Physical, StoreView, Updater.Goal, Target;
    m.EmptyGoal();
    assert [] + image == image;
    ghost var e := m.Step(Fragment(image), power);
  }

  /** The installation authorised, and its report delivered. */
  method Installs(m: Updater, image: Bytes, power: nat)
    requires m.Valid() && power >= 2 * |m.bd.mem|
    requires m.View() == INITIAL.(manifest := true, store := G.Storage(G.Blank, true, image),
                                  ctx := Some(G.Context(G.AwaitInstall, G.Inactive, image, G.Nothing)))
    modifies m, m.bd, m.Parts()
    ensures m.Valid() && m.started == Some(image)
  {
    hide Updater.Valid, Updater.Inner, Updater.Base, G.Physical, StoreView, Updater.Goal;
    ghost var e := m.Step(Authorize(true), power);
    e := m.Step(Report(true, true, false, false), power);
  }

  /** One update with enough power and room: the image that was sent is installed. */
  method UpdateOnce(u: Update, bd: Device, image: Bytes, power: nat) returns (m: Updater)
    requires Suits(u) && u.Fits(bd) && ErasedFrom(u.area.g, bd.mem, u.area.start)
    requires |image| == u.size && u.hash(image) == u.digest
    requires power >= 2 * |bd.mem| && u.area.g.eff > 0 && Target(u, [], []) <= |bd.mem|
    modifies bd
    ensures m.u == u && m.bd == bd && m.Valid() && m.started == Some(image)
  {
    hide Suits, Update.Fits, ErasedFrom, Updater.Valid, Updater.Inner, Updater.Base, Target, StoreView, Updater.View;
    m := new Updater(u, bd);
    Begins(m, power);
    Fills(m, image, power);
    Installs(m, image, power);
  }

  lemma EndIsSound(m: Updater)
    requires m.Valid()
    ensures m.started.Some? ==> |m.started.value| == m.u.size && m.u.hash(m.started.value) == m.u.digest
    ensures m.u.area.Valid() && m.u.area.g.data <= |m.bd.mem|
    ensures ReadyView(m.u.area, m.bd.mem) != G.Blank ==>
              && Stores(m.u, m.bd.mem, m.payload, m.pages) && |m.payload| == m.u.size
              && m.u.hash(m.payload) == m.u.digest
  {
    hide Truthful, Holds;
    m.BaseFacts();
    TruthView(m.u, m.bd.mem, m.payload, m.pages);
  }

  lemma SelfRestart(st: G.Storage)
    ensures st in G.Restarts(st)
  {}

  /** A verified image is the payload, and all of it is stored. */
  lemma VerifiedStores(u: Update, mem: Bytes, payload: Bytes, pages: seq<Bytes>)
    requires Suits(u) && Truthful(u, mem, payload, pages) && u.area.g.data <= |mem|
    requires Expects(u).Verified(StoreView(u, mem, payload, pages).image)
    ensures HeaderIn(u.area, mem) && Stores(u, mem, payload, pages) && u.hash(payload) == u.digest
    ensures |payload| == u.size && Holds(u.area.g, mem, payload, pages).Some?
  {
    hide Holds, Truthful, AllVisible;
    TruthfulFacts(u, mem, payload, pages);
    TruthView(u, mem, payload, pages);
  }

  lemma MarkedWritable(u: Update, bd: Device)
    requires u.Valid() && u.area.g.erased == bd.erased && u.area.start + u.area.ready <= |bd.mem| && Marked(u, bd.mem)
    ensures bd.Writable(u.readyHeader, u.area.start)
  {}

  lemma StartedView(u: Update, mem: Bytes, payload: Bytes, pages: seq<Bytes>)
    requires u.area.Valid() && u.area.g.data <= |mem| && u.area.Headers(mem) == Started
    ensures StoreView(u, mem, payload, pages) == G.Storage(G.Blank, true, Kept(u, mem, payload, pages))
  {
    hide Kept;
  }

  lemma KeptIs(u: Update, mem: Bytes, payload: Bytes, pages: seq<Bytes>, s: Scan)
    requires Holds(u.area.g, mem, payload, pages) == Some(s)
    ensures Kept(u, mem, payload, pages) == s.data
  {}

  lemma EachVisible(u: Update, p: Bytes)
    requires Suits(u) && |p| == u.size
    ensures Visible(u.area.g, p)
  {}

  lemma SessionHashed(s: Session)
    requires s.Shape() && s.Running()
    ensures s.hashed == s.payload[..s.payloadOffset]
  {}

  lemma ErasedView(u: Update, mem: Bytes, payload: Bytes)
    requires u.Valid() && u.area.g.data <= |mem| <= u.area.g.limit && ErasedFrom(u.area.g, mem, u.area.start)
    ensures StoreView(u, mem, payload, []) == G.ERASED && Marked(u, mem)
  {
    hide Holds, Kept;
    assert mem[u.area.g.data - 1] == u.area.g.erased;
  }
}
