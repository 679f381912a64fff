/** The node of the protocol as libota.c keeps it: a state variable, the bit mask, the
    service table and the digest context, updated by command and timer handlers. Every
    handler does what the state machine does. */
module OtaDevice {
  import opened Bytes
  import opened MulticastStore
  import opened FragmentMask
  import opened FragmentService
  import opened OtaNode

  /** A full mask is one without zero bits. */
  lemma FullMask(bytes: seq<bv8>, count: nat)
    requires count <= 8 * |bytes|
    ensures |Unmarked(bytes, count)| == 0 <==> Marked(bytes, count) == IdsUpTo(count)
  {
    hide IsMarked;
    forall id: nat
      ensures id in IdsUpTo(count) <==> 1 <= id <= count
    {
      IdsIs(count, id);
    }
    if |Unmarked(bytes, count)| == 0 {
      forall id: nat
        ensures id in Marked(bytes, count) <==> id in IdsUpTo(count)
      {
        assert id !in Unmarked(bytes, count);
      }
    } else {
      var x :| x in Unmarked(bytes, count);
      assert x in IdsUpTo(count) && x !in Marked(bytes, count);
    }
  }

  /** The fragments of a segment that `have` lacks. */
  function Lacking(c: Campaign, have: set<nat>, segment: nat): set<nat> {
    set f: nat | 1 <= f <= c.image.count && f !in have && SegmentOf(f) == segment
  }

  lemma LackingFirst(c: Campaign, bytes: seq<bv8>, segment: nat)
    requires c.image.count <= 8 * |bytes| && segment > 0 && IsFirstMissing(bytes, c.image.count, segment)
    ensures var have, open := Marked(bytes, c.image.count), Unmarked(bytes, c.image.count);
            && Lacking(c, have, segment) == (set f | f in open && SegmentOf(f) == segment) != {}
            && forall k :: 0 < k < segment ==> Lacking(c, have, k) == {}
  {
    hide BitOf;
    var f :| f in Unmarked(bytes, c.image.count) && SegmentOf(f) == segment;
    assert f in Lacking(c, Marked(bytes, c.image.count), segment);
  }

  class Device {
    const c: Campaign
    const mask: Mask
    const service: Service
    var state: OtaState
    var store: Bytes
    var hashing: Option<Hashing>
    ghost var log: seq<nat>

    ghost predicate Valid()
      reads this, mask, mask.bytes, service, service.tbl
    {
      && c.Valid() && mask.Valid() && service.Valid() && mask.count == service.count == c.image.count
      && mask.bytes != service.tbl
      && |store| == |c.image.bytes|
      && (service.active ==> service.Open() != {})
      && (hashing.Some? ==> hashing.value.pos <= |store|)
    }

    /** The node of the state machine that this device is. */
    ghost function View(): Node
      requires Valid()
      reads this, mask, mask.bytes, service, service.tbl
    {
      Node(state, mask.Received(), store,
           if service.active then Some(Serving(service.segment, service.Open())) else None, hashing, log)
    }

    /** ota_manage_start_command */
    constructor (c: Campaign, store: Bytes)
      requires c.Valid() && |store| == |c.image.bytes|
      ensures Valid() && fresh(mask) && fresh(mask.bytes) && fresh(service) && fresh(service.tbl)
      ensures this.c == c && View() == RESET.(state := Started, store := store)
    {
      this.c, this.store, this.state, this.hashing, this.log := c, store, Started, None, [];
      this.mask := new Mask(c.image.count);
      this.service := new Service(c.image.count);
    }

    method AllReceived() returns (all: bool)
      requires Valid()
      ensures all <==> View().have == IdsUpTo(c.image.count)
    {
      var missing := mask.MissingCount();
      FullMask(mask.bytes[..], c.image.count);
      all := missing == 0;
    }

    /** ota_manage_fragment_command; `write` is what becomes of the write to storage. */
    method OnFragment(id: nat, data: Bytes, crc: bv16, write: Write)
      requires Valid() && Fitting(c, Receive(Fragment(id, data, crc), write))
      modifies this, mask.bytes, service, service.tbl
      ensures Valid() && View() == Next(c, old(View()), Receive(Fragment(id, data, crc), write))
    {
      hide FragmentMask.Marked, Wanted;
      if state != Started && state != Requesting && !service.active {
        return;
      }
      if crc != c.crc(data) || !c.IsId(id) {
        return;
      }
      if service.active {
        service.OnOverheard(id);
        return;
      }
      var already := mask.IsReceived(id);
      if already {
        return;
      }
      Store(id, data, write);
    }

    /** The write of a fragment that is new, and what follows when it was the last. */
    method Store(id: nat, data: Bytes, write: Write)
      requires Valid() && Fitting(c, Receive(Fragment(id, data, c.crc(data)), write))
      requires state in {Started, Requesting} && !service.active && c.IsId(id) && id !in mask.Received()
      modifies this, mask.bytes
      ensures Valid() && View() == OtaNode.OnFragment(c, old(View()), id, data, c.crc(data), write)
    {
      hide FragmentMask.Marked, Wanted;
      InPlace(c, id);
      match write
      case Spoiled(junk) =>
        store := Splice(store, c.At(id), junk);
      case Written =>
        store := Splice(store, c.At(id), data[..|c.Slice(id)|]);
        mask.Mark(id);
        log := log + [id];
        var all := AllReceived();
        if all {
          state, hashing := Calculating, Some(Hashing(0, []));
        }
    }

    /** ota_manage_end_fragments_command */
    method OnEndFragments()
      requires Valid()
      modifies `state
      ensures Valid() && View() == Next(c, old(View()), Receive(EndFragments, Written))
    {
      if state == Started {
        var all := AllReceived();
        if !all {
          state := Requesting;
        }
      }
    }

    /** ota_manage_fragments_request_command */
    method OnRequest(segment: nat, tbl: seq<bv8>)
      requires Valid() && |tbl| == REQUEST_BYTES
      modifies service, service.tbl
      ensures Valid() && View() == Next(c, old(View()), Receive(Request(segment, tbl), Written))
    {
      hide FragmentMask.Marked, Wanted;
      if state == Completed || state == UpdateFw {
        service.OnRequest(segment, tbl);
      }
    }

    /** ota_manage_update_fw_command */
    method OnUpdate()
      requires Valid()
      modifies `state
      ensures Valid() && View() == Next(c, old(View()), Receive(Update, Written))
    {
      if state == Completed {
        state := UpdateFw;
      }
    }

    /** ota_manage_abort_command */
    method OnAbort()
      requires Valid()
      modifies `state, `hashing, service`active
      ensures Valid() && View() == Next(c, old(View()), Receive(Abort, Written))
    {
      service.active := false;
      if state == Calculating {
        hashing := None;
      }
      if state != Aborted && state != UpdateFw {
        state := Aborted;
      }
    }

    /** OTA_FALLBACK_TIMER */
    method OnFallbackTimer()
      requires Valid()
      modifies `state
      ensures Valid() && View() == Next(c, old(View()), FallbackTimer)
    {
      if state != Aborted {
        var all := AllReceived();
        if !all {
          state := Requesting;
        }
      }
    }

    /** OTA_FRAGMENTS_REQUEST_SERVICE_TIMER: the fragment that is sent is the lowest one
        still open. */
    method OnServiceTimer() returns (sent: nat)
      requires Valid()
      modifies service`active, service.tbl
      ensures Valid() && View() == Next(c, old(View()), ServiceTimer)
      ensures old(service.active) ==> sent == Least(old(service.Open()))
      ensures !old(service.active) ==> sent == 0
    {
      hide FragmentMask.Marked, Wanted;
      sent := service.OnTimer();
    }

    /** OTA_CHECKSUM_CALCULATING_TIMER */
    method OnChecksumTimer(readable: bool)
      requires Valid()
      modifies `state, `hashing
      ensures Valid() && View() == Next(c, old(View()), ChecksumTimer(readable))
    {
      if state != Calculating || hashing.None? {
        return;
      }
      var h := hashing.value;
      var size := CHUNK;
      if h.pos + size > |store| {
        size := |store| - h.pos;
      }
      var pos, hashed := h.pos, h.hashed;
      if readable {
        pos, hashed := pos + size, hashed + store[h.pos..h.pos + size];
      }
      if pos == |store| || !readable {
        hashing := None;
        state := if c.hash(hashed) == c.Digest() then Completed else Failed;
      } else {
        hashing := Some(Hashing(pos, hashed));
      }
    }

    /** The request a node sends for its lowest incomplete segment is, for a server of the
        same session, a request for exactly the missing fragments of that segment. */
    method RequestMissing() returns (segment: nat, tbl: seq<bv8>)
      requires Valid()
      ensures segment == 0 <==> View().have == IdsUpTo(c.image.count)
      ensures segment > 0 ==>
                && |tbl| == REQUEST_BYTES
                && Wanted(tbl, FirstOf(segment), c.image.count) == Lacking(c, View().have, segment) != {}
                && forall k :: 0 < k < segment ==> Lacking(c, View().have, k) == {}
    {
      hide BitOf, Wanted, FirstOf;
      segment, tbl := mask.FirstMissingSegment();
      FullMask(mask.bytes[..], c.image.count);
      if segment > 0 {
        RequestMeansMissing(mask.bytes[..], c.image.count, segment, tbl);
        LackingFirst(c, mask.bytes[..], segment);
      }
    }

    /** ota_socket_receive_data and ota_timer_expired: every command and timer of a session
        goes to its handler. */
    method Handle(e: Event)
      requires Valid() && Handled(c, e)
      modifies this, mask.bytes, service, service.tbl
      ensures Valid() && View() == Next(c, old(View()), e)
    {
      hide OtaNode.OnFragment, OtaNode.OnChecksumTimer, FragmentMask.Marked, Wanted, IdsUpTo, Least;
      match e
      case Receive(Start, _) =>
      case Receive(Fragment(id, data, crc), write) => OnFragment(id, data, crc, write);
      case Receive(EndFragments, _) => OnEndFragments();
      case Receive(Request(segment, tbl), _) => OnRequest(segment, tbl);
      case Receive(Update, _) => OnUpdate();
      case Receive(Abort, _) => OnAbort();
      case FallbackTimer => OnFallbackTimer();
      case ServiceTimer => var sent := OnServiceTimer();
      case ChecksumTimer(readable) => OnChecksumTimer(readable);
    }
  }

  /** The events of a session that has been started: a new manifest would delete it. */
  predicate Handled(c: Campaign, e: Event)
    requires c.Valid()
  {
    && Fitting(c, e) && !(e.Receive? && e.cmd.Manifest?)
    && (e.Receive? && e.cmd.Request? ==> |e.cmd.tbl| == REQUEST_BYTES)
  }

  predicate AllHandled(c: Campaign, run: seq<Event>)
    requires c.Valid()
  {
    forall i :: 0 <= i < |run| ==> Handled(c, run[i])
  }

  predicate AllHonest(c: Campaign, run: seq<Event>)
    requires c.Valid()
  {
    forall i :: 0 <= i < |run| ==> Honest(c, run[i])
  }

  /** A session from its start command on, over any commands, timers, failing writes and
      failing reads in any order: the device with its bit mask, table and digest context
      makes the run of the state machine. So whatever arrived, the states keep their
      promises; and if what passed its checksum was genuine, a device that has checked,
      serves or activates an image stores that image. */
  method Live(c: Campaign, store: Bytes, run: seq<Event>) returns (d: Device)
    requires c.Valid() && |store| == |c.image.bytes| && AllHandled(c, run)
    ensures fresh(d) && d.Valid() && d.c == c && Steady(c, Begun(store), false)
    ensures d.View() == After(c, Begun(store), run) && Steady(c, d.View(), false)
    ensures ChecksumTimer(false) !in run ==> Steady(c, d.View(), true)
    ensures AllHonest(c, run) && (d.service.active || d.state in {Calculating, Completed, UpdateFw}) ==>
              d.store == c.image.bytes
  {
    hide OtaNode.OnFragment, OtaNode.OnChecksumTimer, FragmentMask.Marked, Wanted, Next, Steady, Sound, IdsUpTo;
    d := new Device(c, store);
    ghost var n := Begun(store);
    BegunIs(c, store);
    assert run[..0] == [];
    for i := 0 to |run|
      invariant d.c == c && d.Valid() && fresh(d) && fresh(d.mask.bytes) && fresh(d.service) && fresh(d.service.tbl)
      invariant d.View() == After(c, n, run[..i])
      invariant AllHonest(c, run) ==> Sound(c, d.View())
    {
      AfterNext(c, n, run, i);
      if AllHonest(c, run) {
        SoundNext(c, d.View(), run[i]);
      }
      d.Handle(run[i]);
    }
    assert run[..|run|] == run;
    if ChecksumTimer(false) !in run {
      ReliableRun(c, n, run);
    }
    if AllHonest(c, run) {
      StoresImage(c, d.View());
    }
  }

  lemma AfterNext(c: Campaign, n: Node, run: seq<Event>, i: nat)
    requires c.Valid() && Steady(c, n, false) && i < |run| && Fitting(c, run[i])
    ensures var m := After(c, n, run[..i]);
            && |m.store| == |c.image.bytes| && (m.hashing.Some? ==> m.hashing.value.pos <= |m.store|)
            && After(c, n, run[..i + 1]) == Next(c, m, run[i])
  {
    hide Next;
    assert run[..i + 1][..i] == run[..i];
  }

  lemma StoresImage(c: Campaign, n: Node)
    requires c.Valid() && Steady(c, n, false) && Sound(c, n)
    ensures n.serving.Some? || n.state in {Calculating, Completed, UpdateFw} ==> n.store == c.image.bytes
  {
    hide IdsUpTo, Sound;
    if n.serving.Some? || n.state in {Calculating, Completed, UpdateFw} {
      FullStore(c, n);
    }
  }

  // ---- One device helps another -----------------------------------------------------------

  /** Two devices of one session that share nothing. */
  ghost predicate Apart(a: Device, b: Device) {
    && a.c == b.c && a != b && a.mask != b.mask && a.service != b.service
    && a.mask.bytes != b.mask.bytes && a.mask.bytes != b.service.tbl
    && a.service.tbl != b.service.tbl && a.service.tbl != b.mask.bytes
  }

  /** ota_deliver_one_fragment: what the device has of fragment `id`, padded. */
  function DataOf(c: Campaign, store: Bytes, id: nat): (data: Bytes)
    requires c.Valid() && c.IsId(id) && store == c.image.bytes
    ensures |data| == c.image.fragSize && c.Slice(id) <= data
  {
    InPlace(c, id);
    store[c.At(id)..c.At(id) + |c.Slice(id)|] + Fill(0, c.image.fragSize - |c.Slice(id)|)
  }

  /** The books of a repair: what was sent is what `before` lacked and `have` does not lack
      any more, each fragment once. */
  ghost predicate Repaired(c: Campaign, before: set<nat>, have: set<nat>, sent: seq<nat>) {
    NoRepeats(sent) && have == before + (set i | 0 <= i < |sent| :: sent[i])
    && forall i :: 0 <= i < |sent| ==> sent[i] !in before && c.IsId(sent[i])
  }

  lemma RepairedNext(c: Campaign, before: set<nat>, have: set<nat>, sent: seq<nat>, id: nat)
    requires Repaired(c, before, have, sent) && id !in have && c.IsId(id)
    ensures Repaired(c, before, have + {id}, sent + [id])
  {
    var more := sent + [id];
    assert more[|sent|] == id && forall i :: 0 <= i < |sent| ==> more[i] == sent[i];
  }

  /** A device that lacks something, and one that has the image. */
  ghost predicate Pair(r: Device, s: Device)
    reads r, r.mask, r.mask.bytes, r.service, r.service.tbl, s, s.mask, s.mask.bytes, s.service, s.service.tbl
  {
    && Apart(r, s) && r.Valid() && s.Valid() && s.store == s.c.image.bytes
    && !r.service.active && Sound(r.c, r.View())
    && if r.View().have == IdsUpTo(r.c.image.count) then r.state == Calculating else r.state in {Started, Requesting}
  }

  /** `open` are fragments that `have` lacks. */
  ghost predicate Lacks(c: Campaign, have: set<nat>, open: set<nat>) {
    forall f :: f in open ==> c.IsId(f) && f !in have
  }

  lemma Moved(c: Campaign, have: set<nat>, open: set<nat>, id: nat)
    requires Lacks(c, have, open) && id in open
    ensures Lacks(c, have + {id}, open - {id}) && (have + {id}) + (open - {id}) == have + open
    ensures |open - {id}| < |open|
  {}

  /** What is being served. */
  ghost function Serves(s: Device): set<nat>
    requires s.Valid()
    reads s, s.mask, s.mask.bytes, s.service, s.service.tbl
  {
    if s.service.active then s.service.Open() else {}
  }

  /** One fragment goes from the server to the device that lacks it. */
  method ServeOne(r: Device, s: Device) returns (id: nat)
    requires Pair(r, s) && s.service.active && Lacks(r.c, r.View().have, Serves(s))
    modifies r, r.mask.bytes, r.service, r.service.tbl, s.service, s.service.tbl
    ensures Pair(r, s) && id in old(Serves(s)) && Serves(s) == old(Serves(s)) - {id}
    ensures r.View().have == old(r.View().have) + {id} && r.c.IsId(id) && id !in old(r.View().have)
  {
    hide FragmentMask.Marked, Wanted, Sound, IdsUpTo, OtaNode.OnFragment;
    ghost var n := r.View();
    Incomplete(r.c, n, s.service.Open());
    id := TakeTurn(s);
    var data := DataOf(r.c, s.store, id);
    ghost var e := Receive(Fragment(id, data, r.c.crc(data)), Written);
    FragmentCounts(r.c, n, id, data);
    SoundNext(r.c, n, e);
    r.OnFragment(id, data, r.c.crc(data), Written);
  }

  lemma Incomplete(c: Campaign, n: Node, open: set<nat>)
    requires open != {} && forall f :: f in open ==> c.IsId(f) && f !in n.have
    ensures n.have != IdsUpTo(c.image.count)
  {
    var f :| f in open;
    IdsIs(c.image.count, f);
  }

  method TakeTurn(s: Device) returns (id: nat)
    requires s.Valid() && s.service.active
    modifies s.service, s.service.tbl
    ensures s.Valid() && id in old(Serves(s)) && Serves(s) == old(Serves(s)) - {id}
  {
    hide FragmentMask.Marked, Wanted;
    id := s.OnServiceTimer();
  }

  /** One request: the server sends all that it was asked for. */
  method ServeAll(r: Device, s: Device, sent0: seq<nat>, ghost before: set<nat>) returns (sent: seq<nat>)
    requires Pair(r, s) && Lacks(r.c, r.View().have, Serves(s))
    requires Repaired(r.c, before, r.View().have, sent0)
    modifies r, r.mask.bytes, r.service, r.service.tbl, s.service, s.service.tbl
    ensures Pair(r, s) && !s.service.active && r.View().have == old(r.View().have + Serves(s))
    ensures Repaired(r.c, before, r.View().have, sent)
  {
    hide Pair, Repaired, Device.Valid, Device.View, Lacks, Serves;
    PairFacts(r, s);
    sent := sent0;
    ghost var have, open := r.View().have, Serves(s);
    ghost var all := have + open;
    while s.service.active
      invariant Pair(r, s) && r.Valid() && s.Valid() && have == r.View().have && open == Serves(s)
      invariant have + open == all && Lacks(r.c, have, open) && Repaired(r.c, before, have, sent)
      decreases |open|
    {
      var id := ServeOne(r, s);
      PairFacts(r, s);
      RepairedNext(r.c, before, have, sent, id);
      Moved(r.c, have, open, id);
      have, open := have + {id}, open - {id};
      sent := sent + [id];
    }
    NoneServed(s);
    assert have + {} == have;
  }

  lemma NoneServed(s: Device)
    requires s.Valid() && !s.service.active
    ensures Serves(s) == {}
  {}

  lemma PairFacts(r: Device, s: Device)
    requires Pair(r, s)
    ensures r.Valid() && s.Valid() && r != s && r.c == s.c
  {}

  lemma NothingSent(c: Campaign, before: set<nat>)
    ensures Repaired(c, before, before, [])
  {}

  /** The server takes the request on. */
  method Ask(r: Device, s: Device, segment: nat, tbl: seq<bv8>)
    requires Pair(r, s) && !s.service.active && s.state in {Completed, UpdateFw} && |tbl| == REQUEST_BYTES
    requires Wanted(tbl, FirstOf(segment), r.c.image.count) != {}
    modifies s.service, s.service.tbl
    ensures Pair(r, s) && s.service.active && Serves(s) == Wanted(tbl, FirstOf(segment), r.c.image.count)
    ensures r.View() == old(r.View())
  {
    hide FragmentMask.Marked, Wanted, Sound, IdsUpTo, FirstOf;
    s.OnRequest(segment, tbl);
  }

  lemma Fewer(c: Campaign, have: set<nat>, segment: nat)
    requires Lacking(c, have, segment) != {}
    ensures var all, more := IdsUpTo(c.image.count), have + Lacking(c, have, segment);
            |all - more| < |all - have|
  {
    var f :| f in Lacking(c, have, segment);
    IdsIs(c.image.count, f);
    var all, more := IdsUpTo(c.image.count), have + Lacking(c, have, segment);
    assert all - more <= (all - have) - {f};
    SubsetSmaller(all - more, (all - have) - {f});
  }

  lemma LackingIs(c: Campaign, have: set<nat>, segment: nat)
    ensures Lacks(c, have, Lacking(c, have, segment))
  {}

  lemma SubsetSmaller(a: set<nat>, b: set<nat>)
    requires a <= b
    ensures |a| <= |b|
  {
    assert b == a + (b - a);
  }

  lemma AllSent(c: Campaign, before: set<nat>, have: set<nat>, sent: seq<nat>)
    requires Repaired(c, before, have, sent) && have == IdsUpTo(c.image.count)
    ensures NoRepeats(sent) && forall f :: f in sent <==> c.IsId(f) && f !in before
  {
    forall f: nat
      ensures f in sent <==> c.IsId(f) && f !in before
    {
      IdsIs(c.image.count, f);
    }
  }

  lemma PairStores(r: Device, s: Device)
    requires Pair(r, s) && r.Valid() && r.View().have == IdsUpTo(r.c.image.count)
    ensures r.state == Calculating && r.store == r.c.image.bytes
  {
    hide Sound, IdsUpTo;
    FullStore(r.c, r.View());
  }

  /** One request and all that it brings. */
  method Round(r: Device, s: Device, segment: nat, tbl: seq<bv8>, sent0: seq<nat>, ghost before: set<nat>)
    returns (sent: seq<nat>)
    requires Pair(r, s) && !s.service.active && s.state in {Completed, UpdateFw} && |tbl| == REQUEST_BYTES
    requires Wanted(tbl, FirstOf(segment), r.c.image.count) == Lacking(r.c, r.View().have, segment) != {}
    requires Repaired(r.c, before, r.View().have, sent0)
    modifies r, r.mask.bytes, r.service, r.service.tbl, s.service, s.service.tbl
    ensures Pair(r, s) && !s.service.active
    ensures r.View().have == old(r.View().have + Lacking(r.c, r.View().have, segment))
    ensures Repaired(r.c, before, r.View().have, sent)
  {
    hide Pair, Repaired, Sound, Device.Valid, Device.View, Wanted, IdsUpTo, Serves, Lacking, Lacks;
    PairFacts(r, s);
    LackingIs(r.c, r.View().have, segment);
    Ask(r, s, segment, tbl);
    sent := ServeAll(r, s, sent0, before);
  }

  /** A device that lacks something asks a complete one, segment by segment, until nothing is
      missing: every missing fragment is sent exactly once, nothing else is, and then the
      device has the image and calculates its checksum. */
  method Repair(r: Device, s: Device) returns (sent: seq<nat>)
    requires Pair(r, s) && !s.service.active && s.state in {Completed, UpdateFw}
    modifies r, r.mask.bytes, r.service, r.service.tbl, s.service, s.service.tbl
    ensures Pair(r, s) && !s.service.active && r.state == Calculating && r.store == r.c.image.bytes
    ensures NoRepeats(sent) && forall f :: f in sent <==> r.c.IsId(f) && f !in old(r.View().have)
  {
    hide Pair, Repaired, Sound, Device.Valid, Device.View, Wanted, IdsUpTo, Serves, Lacking, Lacks;
    PairFacts(r, s);
    sent := [];
    ghost var before := r.View().have;
    ghost var have := before;
    NothingSent(r.c, before);
    var segment, tbl := r.RequestMissing();
    while segment > 0
      invariant Pair(r, s) && r.Valid() && s.Valid() && !s.service.active && s.state == old(s.state)
      invariant have == r.View().have && Repaired(r.c, before, have, sent)
      invariant segment == 0 <==> have == IdsUpTo(r.c.image.count)
      invariant segment > 0 ==>
                  && |tbl| == REQUEST_BYTES
                  && Wanted(tbl, FirstOf(segment), r.c.image.count) == Lacking(r.c, have, segment) != {}
      decreases |IdsUpTo(r.c.image.count) - have|
    {
      sent := Round(r, s, segment, tbl, sent, before);
      Fewer(r.c, have, segment);
      PairFacts(r, s);
      have := have + Lacking(r.c, have, segment);
      segment, tbl := r.RequestMissing();
    }
    AllSent(r.c, before, r.View().have, sent);
    PairStores(r, s);
  }
}
