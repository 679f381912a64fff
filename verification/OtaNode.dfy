/** A node of the multicast protocol as a state machine over commands and timers
    (libota.c). */
module OtaNode {
  import opened Bytes
  import opened MulticastStore
  import opened FragmentMask
  import opened FragmentService

  /** ota_state */
  datatype OtaState = Idle | Started | Aborted | Requesting | Calculating | Failed | Completed | UpdateFw

  /** The image of a session, and the functions all devices share: the digest of an
      image and the checksum of a fragment. */
  datatype Campaign = Campaign(image: Image, hash: Bytes -> Bytes, crc: Bytes -> bv16)
  {
    predicate Valid() {
      image.Valid() && 0 < image.count <= 65528 && 0 < |image.bytes|
    }

    predicate IsId(id: nat) {
      1 <= id <= image.count
    }

    /** The address and the bytes of fragment `id`; ids start at one. */
    function At(id: nat): nat
      requires id > 0
    {
      image.Offset(id - 1)
    }

    function Slice(id: nat): (d: Bytes)
      requires Valid() && IsId(id)
      ensures 0 < |d| <= image.fragSize
    {
      image.Fragment(id - 1)
    }

    function Digest(): Bytes {
      hash(image.bytes)
    }
  }

  /** The messages of a session. A fragment is padded to the fragment size with
      whatever the sender's buffer held. */
  datatype Command =
    | Start
    | Fragment(id: nat, data: Bytes, crc: bv16)
    | EndFragments
    | Request(segment: nat, tbl: seq<bv8>)
    | Update
    | Abort
    | Manifest

  /** A request under way: ota_fragments_request_service and its table. */
  datatype Serving = Serving(segment: nat, open: set<nat>)

  /** What the chunked digest has taken in so far. */
  datatype Hashing = Hashing(pos: nat, hashed: Bytes)

  /** `log` records the fragments successfully written since the session started. */
  datatype Node = Node(state: OtaState, have: set<nat>, store: Bytes, serving: Option<Serving>,
                       hashing: Option<Hashing>, log: seq<nat>)

  /** What the data storage makes of a write: it works, or leaves other bytes in the
      fragment's place. */
  datatype Write = Written | Spoiled(junk: Bytes)

  datatype Event =
    | Receive(cmd: Command, write: Write)
    | FallbackTimer
    | ServiceTimer
    | ChecksumTimer(readable: bool)

  function IdsUpTo(n: nat): set<nat> {
    if n == 0 then {} else IdsUpTo(n - 1) + {n}
  }

  lemma {:induction false} IdsIs(n: nat, id: nat)
    ensures id in IdsUpTo(n) <==> 1 <= id <= n
  {
    if n > 0 {
      IdsIs(n - 1, id);
    }
  }

  const RESET := Node(Idle, {}, [], None, None, [])

  /** ota_manage_fragment_command, once session and length have been checked. */
  function OnFragment(c: Campaign, n: Node, id: nat, data: Bytes, crc: bv16, write: Write): Node
    requires c.Valid() && |n.store| == |c.image.bytes| && (c.IsId(id) ==> |c.Slice(id)| <= |data|)
    requires c.IsId(id) && write.Spoiled? ==> |write.junk| == |c.Slice(id)|
  {
    if n.state !in {Started, Requesting} && n.serving.None? then n
    else if crc != c.crc(data) || !c.IsId(id) then n
    else
      match n.serving
      case Some(s) =>
        var open := if SegmentOf(id) == s.segment then s.open - {id} else s.open;
        n.(serving := if open == {} then None else Some(s.(open := open)))
      case None =>
        if id in n.have then n
        else
          InPlace(c, id);
          match write
          case Spoiled(junk) => n.(store := Splice(n.store, c.At(id), junk))
          case Written =>
            var n' := n.(store := Splice(n.store, c.At(id), data[..|c.Slice(id)|]),
                         have := n.have + {id}, log := n.log + [id]);
            if n'.have == IdsUpTo(c.image.count)
            then n'.(state := Calculating, hashing := Some(Hashing(0, [])))
            else n'
  }

  lemma InPlace(c: Campaign, id: nat)
    requires c.Valid() && c.IsId(id)
    ensures c.At(id) + |c.Slice(id)| <= |c.image.bytes|
    ensures c.Slice(id) == c.image.bytes[c.At(id)..c.At(id) + |c.Slice(id)|]
  {
    SpanMono(id - 1, c.image.count - 1, c.image.fragSize);
  }

  const CHUNK: nat := 512

  /** ota_manage_whole_fw_checksum_calculating: one chunk, or the comparison. */
  function OnChecksumTimer(c: Campaign, n: Node, readable: bool): Node
    requires n.hashing.Some? ==> n.hashing.value.pos <= |n.store|
  {
    if n.state != Calculating || n.hashing.None? then n
    else
      var h := n.hashing.value;
      var size := Min(CHUNK, |n.store| - h.pos);
      if readable && h.pos + size < |n.store| then
        n.(hashing := Some(Hashing(h.pos + size, h.hashed + n.store[h.pos..h.pos + size])))
      else
        var hashed := if readable then h.hashed + n.store[h.pos..h.pos + size] else h.hashed;
        n.(hashing := None, state := if c.hash(hashed) == c.Digest() then Completed else Failed)
  }

  /** One event of a node that is in the session. */
  ghost function Next(c: Campaign, n: Node, e: Event): Node
    requires c.Valid() && |n.store| == |c.image.bytes| && Fitting(c, e)
    requires n.hashing.Some? ==> n.hashing.value.pos <= |n.store|
  {
    match e
    case Receive(cmd, write) =>
      (match cmd
       case Start => n
       case Fragment(id, data, crc) => OnFragment(c, n, id, data, crc, write)
       case EndFragments =>
         if n.state == Started && n.have != IdsUpTo(c.image.count) then n.(state := Requesting) else n
       case Request(segment, tbl) =>
         var open := Wanted(tbl, FirstOf(segment), c.image.count);
         if n.state in {Completed, UpdateFw} && n.serving.None? && open != {}
         then n.(serving := Some(Serving(segment, open))) else n
       case Update => if n.state in {Completed, UpdateFw} then n.(state := UpdateFw) else n
       case Abort =>
         n.(serving := None, hashing := if n.state == Calculating then None else n.hashing,
            state := if n.state == UpdateFw then UpdateFw else Aborted)
       case Manifest => RESET.(store := n.store))
    case FallbackTimer =>
      if n.state != Aborted && n.have != IdsUpTo(c.image.count) then n.(state := Requesting) else n
    case ServiceTimer =>
      (match n.serving
       case None => n
       case Some(s) =>
         var open := if s.open == {} then {} else s.open - {Least(s.open)};
         n.(serving := if open == {} then None else Some(s.(open := open))))
    case ChecksumTimer(readable) => OnChecksumTimer(c, n, readable)
  }

  /** What an honest device sends, and the storage does, fits the session. */
  predicate Fitting(c: Campaign, e: Event)
    requires c.Valid()
  {
    match e
    case Receive(Fragment(id, data, _), write) =>
      c.IsId(id) ==> |data| == c.image.fragSize && (write.Spoiled? ==> |write.junk| == |c.Slice(id)|)
    case _ => true
  }

  // ---- Fragments tile the image -----------------------------------------------------------

  /** The fragment that byte `b` belongs to. */
  function TileOf(b: nat, size: nat): (id: nat)
    requires size > 0
    ensures id > 0
  {
    if b < size then 1 else TileOf(b - size, size) + 1
  }

  lemma {:induction false} TileHolds(b: nat, size: nat)
    requires size > 0
    ensures Span(TileOf(b, size) - 1, size) <= b < Span(TileOf(b, size) - 1, size) + size
  {
    if b >= size {
      TileHolds(b - size, size);
    }
  }

  lemma {:induction false} TileInside(b: nat, size: nat, count: nat)
    requires size > 0 && b < Span(count, size)
    ensures TileOf(b, size) <= count
  {
    if b >= size {
      TileInside(b - size, size, count - 1);
    }
  }

  /** Every byte of the image lies in exactly one fragment. */
  lemma Tiling(c: Campaign, b: nat, id: nat)
    requires c.Valid() && b < |c.image.bytes| && c.IsId(id)
    ensures c.IsId(TileOf(b, c.image.fragSize))
    ensures c.At(id) <= b < c.At(id) + |c.Slice(id)| <==> id == TileOf(b, c.image.fragSize)
  {
    var size, t := c.image.fragSize, TileOf(b, c.image.fragSize);
    TileHolds(b, size);
    TileInside(b, size, c.image.count);
    InPlace(c, id);
    if id < t {
      SpanMono(id, t - 1, size);
    } else if t < id {
      SpanMono(t, id - 1, size);
    }
  }

  // ---- The invariant of a node --------------------------------------------------------------

  predicate HasSlice(c: Campaign, store: Bytes, id: nat)
    requires c.Valid()
  {
    && c.IsId(id) && c.At(id) + |c.Slice(id)| <= |store|
    && store[c.At(id)..c.At(id) + |c.Slice(id)|] == c.Slice(id)
  }

  predicate NoRepeats(log: seq<nat>) {
    forall i, j :: 0 <= i < j < |log| ==> log[i] != log[j]
  }

  /** `k` bytes of the storage have the digest of the image. */
  predicate Matches(c: Campaign, store: Bytes, k: nat) {
    k <= |store| && c.hash(store[..k]) == c.Digest()
  }

  /** What the states promise, whatever was received: beyond the fragment states nothing
      is missing, only a device with a checked image serves it, the digest has covered
      the storage from its first byte on (all of it, if storage is reliable), and every
      fragment was written at most once. */
  ghost predicate Steady(c: Campaign, n: Node, reliable: bool)
    requires c.Valid()
  {
    && |n.store| == |c.image.bytes|
    && (n.state in {Calculating, Failed, Completed, UpdateFw} ==> n.have == IdsUpTo(c.image.count))
    && (n.state in {Completed, UpdateFw} ==> exists k :: Matches(c, n.store, k) && (reliable ==> k == |n.store|))
    && (n.serving.Some? ==> n.state in {Completed, UpdateFw} && n.serving.value.open != {}
                            && forall f :: f in n.serving.value.open ==> c.IsId(f))
    && (n.hashing.Some? ==> n.state == Calculating)
    && (n.hashing.Some? ==>
          var h := n.hashing.value; h.pos <= |n.store| && h.hashed == n.store[..h.pos])
    && NoRepeats(n.log) && (forall id :: id in n.log <==> id in n.have)
  }

  /** Every mask bit stands for the bytes of the image. */
  ghost predicate Sound(c: Campaign, n: Node)
    requires c.Valid()
  {
    && |n.store| == |c.image.bytes|
    && (forall id :: id in n.have ==> HasSlice(c, n.store, id))
  }

  /** With all fragments, the storage holds the image. */
  lemma FullStore(c: Campaign, n: Node)
    requires c.Valid() && Sound(c, n) && n.have == IdsUpTo(c.image.count)
    ensures n.store == c.image.bytes
  {
    forall b | 0 <= b < |n.store|
      ensures n.store[b] == c.image.bytes[b]
    {
      var t := TileOf(b, c.image.fragSize);
      Tiling(c, b, 1);
      Tiling(c, b, t);
      IdsIs(c.image.count, t);
      InPlace(c, t);
      assert n.store[b] == n.store[c.At(t)..c.At(t) + |c.Slice(t)|][b - c.At(t)];
      assert c.image.bytes[b] == c.Slice(t)[b - c.At(t)];
    }
  }

  /** Writing fragment `id` leaves the others alone. */
  lemma SliceKept(c: Campaign, store: Bytes, id: nat, part: Bytes, other: nat)
    requires c.Valid() && |store| == |c.image.bytes| && c.IsId(id) && |part| == |c.Slice(id)|
    requires HasSlice(c, store, other) && other != id && c.At(id) + |part| <= |store|
    ensures HasSlice(c, Splice(store, c.At(id), part), other)
  {
    InPlace(c, other);
    Disjoint(id - 1, other - 1, c.image.fragSize);
    SpliceOutside(store, c.At(id), part, c.At(other), c.At(other) + |c.Slice(other)|);
  }

  lemma SliceWritten(c: Campaign, store: Bytes, id: nat, data: Bytes)
    requires c.Valid() && |store| == |c.image.bytes| && c.IsId(id) && c.Slice(id) <= data
    ensures c.At(id) + |c.Slice(id)| <= |store|
    ensures HasSlice(c, Splice(store, c.At(id), data[..|c.Slice(id)|]), id)
  {
    InPlace(c, id);
    assert data[..|c.Slice(id)|] == c.Slice(id);
    SpliceInside(store, c.At(id), c.Slice(id), |c.Slice(id)|);
  }

  /** A fragment that passes its checksum carries the bytes of the image. */
  predicate Honest(c: Campaign, e: Event)
    requires c.Valid()
  {
    match e
    case Receive(Fragment(id, data, crc), _) => c.IsId(id) && crc == c.crc(data) ==> c.Slice(id) <= data
    case _ => true
  }

  lemma StoredOne(c: Campaign, n: Node, id: nat, data: Bytes)
    requires c.Valid() && Sound(c, n) && c.IsId(id) && c.Slice(id) <= data
    ensures c.At(id) + |c.Slice(id)| <= |n.store|
    ensures forall other :: other in n.have + {id} ==>
              HasSlice(c, Splice(n.store, c.At(id), data[..|c.Slice(id)|]), other)
  {
    InPlace(c, id);
    SliceWritten(c, n.store, id, data);
    var part := data[..|c.Slice(id)|];
    forall other | other in n.have + {id}
      ensures HasSlice(c, Splice(n.store, c.At(id), part), other)
    {
      if other != id {
        SliceKept(c, n.store, id, part, other);
      }
    }
  }

  lemma SpoiledOne(c: Campaign, n: Node, id: nat, junk: Bytes)
    requires c.Valid() && Sound(c, n) && c.IsId(id) && id !in n.have && |junk| == |c.Slice(id)|
    ensures c.At(id) + |c.Slice(id)| <= |n.store|
    ensures forall other :: other in n.have ==> HasSlice(c, Splice(n.store, c.At(id), junk), other)
  {
    InPlace(c, id);
    forall other | other in n.have
      ensures HasSlice(c, Splice(n.store, c.At(id), junk), other)
    {
      SliceKept(c, n.store, id, junk, other);
    }
  }

  /** An honest event keeps every mask bit true. */
  lemma SoundNext(c: Campaign, n: Node, e: Event)
    requires c.Valid() && Sound(c, n) && Fitting(c, e) && Honest(c, e)
    requires n.hashing.Some? ==> n.hashing.value.pos <= |n.store|
    ensures Sound(c, Next(c, n, e))
  {
    hide HasSlice, Wanted, FirstOf;
    match e
    case Receive(Fragment(id, data, crc), write) =>
      if n.serving.None? && crc == c.crc(data) && c.IsId(id) && id !in n.have {
        match write
        case Written => StoredOne(c, n, id, data);
        case Spoiled(junk) => SpoiledOne(c, n, id, junk);
      }
    case _ =>
  }

  lemma SteadyFragment(c: Campaign, n: Node, reliable: bool, id: nat, data: Bytes, crc: bv16, write: Write)
    requires c.Valid() && Steady(c, n, reliable) && Fitting(c, Receive(Fragment(id, data, crc), write))
    ensures Steady(c, OnFragment(c, n, id, data, crc, write), reliable)
  {
    if c.IsId(id) {
      InPlace(c, id);
    }
    assert forall x :: x in n.log + [id] <==> x in n.log || x == id;
  }

  lemma SteadyChecksum(c: Campaign, n: Node, reliable: bool, readable: bool)
    requires c.Valid() && Steady(c, n, reliable) && (reliable ==> readable)
    ensures Steady(c, OnChecksumTimer(c, n, readable), reliable)
  {
    if n.state == Calculating && n.hashing.Some? {
      var h := n.hashing.value;
      var size := Min(CHUNK, |n.store| - h.pos);
      assert n.store[..h.pos] + n.store[h.pos..h.pos + size] == n.store[..h.pos + size];
      var k := if readable then h.pos + size else h.pos;
      if c.hash(n.store[..k]) == c.Digest() {
        assert Matches(c, n.store, k);
      }
    }
  }

  lemma OpenAreIds(c: Campaign, segment: nat, tbl: seq<bv8>)
    requires c.Valid()
    ensures forall f :: f in Wanted(tbl, FirstOf(segment), c.image.count) ==> c.IsId(f)
  {}

  /** Every event, honest or not, keeps what the states promise. */
  lemma SteadyNext(c: Campaign, n: Node, reliable: bool, e: Event)
    requires c.Valid() && Steady(c, n, reliable) && Fitting(c, e)
    requires reliable ==> e != ChecksumTimer(false)
    ensures Steady(c, Next(c, n, e), reliable)
  {
    hide OnFragment, OnChecksumTimer, Wanted, FirstOf, NoRepeats;
    match e
    case Receive(cmd, write) =>
      match cmd {
        case Fragment(id, data, crc) => SteadyFragment(c, n, reliable, id, data, crc, write);
        case Request(segment, tbl) => OpenAreIds(c, segment, tbl);
        case Manifest => NoRepeatsEmpty();
        case _ =>
      }
    case ChecksumTimer(readable) => SteadyChecksum(c, n, reliable, readable);
    case _ =>
  }

  lemma NoRepeatsEmpty()
    ensures NoRepeats([])
  {}

  // ---- The state machine ---------------------------------------------------------------------

  /** Whatever arrives: every change of state has its one cause. UPDATE FW is entered only
      from PROCESS COMPLETED and by its command, PROCESS COMPLETED and CHECKSUM FAILED only
      from the checksum calculation, depending on the digest, that only with the last
      fragment, and ABORTED is left only by deleting the session. */
  lemma Transitions(c: Campaign, n: Node, reliable: bool, e: Event)
    requires c.Valid() && Steady(c, n, reliable) && Fitting(c, e)
    ensures var n' := Next(c, n, e);
            n'.state != n.state ==>
              match n'.state
              case Idle => e.Receive? && e.cmd.Manifest?
              case Started => false
              case Aborted => e.Receive? && e.cmd.Abort? && n.state != UpdateFw
              case Requesting =>
                && n.state != Aborted && n.have != IdsUpTo(c.image.count)
                && (e.FallbackTimer? || (e.Receive? && e.cmd.EndFragments? && n.state == Started))
              case Calculating =>
                && n.state in {Started, Requesting} && e.Receive? && e.cmd.Fragment? && e.cmd.id !in n.have
                && n'.have == n.have + {e.cmd.id} == IdsUpTo(c.image.count)
              case Failed =>
                n.state == Calculating && e.ChecksumTimer? && !Matches(c, n.store, Covered(n, e.readable))
              case Completed =>
                n.state == Calculating && e.ChecksumTimer? && Matches(c, n.store, Covered(n, e.readable))
              case UpdateFw => n.state == Completed && e.Receive? && e.cmd.Update?
    ensures var n' := Next(c, n, e);
            && (n'.store != n.store || n'.have != n.have ==> e.Receive? && (e.cmd.Fragment? || e.cmd.Manifest?))
            && (n'.serving.Some? && n.serving.None? ==>
                  n.state in {Completed, UpdateFw} && e.Receive? && e.cmd.Request?)
            && (n.serving.Some? && e.Receive? && e.cmd.Request? ==> n' == n)
            && (e.Receive? && e.cmd.Manifest? ==> n'.state == Idle && n'.have == {} && n'.serving.None?)
            && (e.Receive? && e.cmd.Abort? ==> n'.serving.None?)
  {
    match e
    case ChecksumTimer(readable) =>
      if n.hashing.Some? {
        var h := n.hashing.value;
        var size := Min(CHUNK, |n.store| - h.pos);
        assert n.store[..h.pos] + n.store[h.pos..h.pos + size] == n.store[..h.pos + size];
      }
    case _ =>
  }

  /** How many bytes the digest will have taken in with the next chunk. */
  function Covered(n: Node, readable: bool): nat {
    match n.hashing
    case None => 0
    case Some(h) => if readable && h.pos <= |n.store| then h.pos + Min(CHUNK, |n.store| - h.pos) else h.pos
  }

  /** The state of a node after a run; what does not fit the session does not occur. */
  ghost function After(c: Campaign, n: Node, run: seq<Event>): (n': Node)
    requires c.Valid() && Steady(c, n, false)
    ensures Steady(c, n', false)
  {
    if run == [] then n
    else
      var m, e := After(c, n, run[..|run| - 1]), run[|run| - 1];
      if Fitting(c, e) then SteadyNext(c, m, false, e); Next(c, m, e) else m
  }

  /** If no read fails, what counts as complete has the digest as a whole. */
  lemma {:induction false} ReliableRun(c: Campaign, n: Node, run: seq<Event>)
    requires c.Valid() && Steady(c, n, true) && Steady(c, n, false) && ChecksumTimer(false) !in run
    ensures Steady(c, After(c, n, run), true)
  {
    if run != [] {
      var front, e := run[..|run| - 1], run[|run| - 1];
      ReliableRun(c, n, front);
      if Fitting(c, e) {
        SteadyNext(c, After(c, n, front), true, e);
      }
    }
  }

  /** When the mask is full, every byte of the image has been written exactly once. */
  lemma WrittenOnce(c: Campaign, n: Node, reliable: bool, b: nat) returns (i: nat)
    requires c.Valid() && Steady(c, n, reliable) && n.have == IdsUpTo(c.image.count) && b < |c.image.bytes|
    ensures i < |n.log| && c.IsId(n.log[i]) && c.At(n.log[i]) <= b < c.At(n.log[i]) + |c.Slice(n.log[i])|
    ensures forall j :: 0 <= j < |n.log| && j != i ==>
              c.IsId(n.log[j]) && !(c.At(n.log[j]) <= b < c.At(n.log[j]) + |c.Slice(n.log[j])|)
  {
    var t := TileOf(b, c.image.fragSize);
    Tiling(c, b, 1);
    Tiling(c, b, t);
    IdsIs(c.image.count, t);
    assert t in n.log;
    i :| 0 <= i < |n.log| && n.log[i] == t;
    forall j | 0 <= j < |n.log| && j != i
      ensures c.IsId(n.log[j]) && !(c.At(n.log[j]) <= b < c.At(n.log[j]) + |c.Slice(n.log[j])|)
    {
      assert n.log[j] in n.have && n.log[j] != t;
      IdsIs(c.image.count, n.log[j]);
      Tiling(c, b, n.log[j]);
    }
  }

  // ---- Progress --------------------------------------------------------------------------------

  /** A new fragment that passes its checksum and can be written is received, and the last
      one starts the checksum calculation. */
  lemma FragmentCounts(c: Campaign, n: Node, id: nat, data: Bytes)
    requires c.Valid() && |n.store| == |c.image.bytes| && n.state in {Started, Requesting} && n.serving.None?
    requires c.IsId(id) && id !in n.have && |data| == c.image.fragSize
    ensures c.At(id) + |c.Slice(id)| <= |n.store|
    ensures var n' := OnFragment(c, n, id, data, c.crc(data), Written);
            && n'.have == n.have + {id} && n'.log == n.log + [id] && n'.serving.None?
            && (n'.state == Calculating <==> n.have + {id} == IdsUpTo(c.image.count))
            && (n'.state != Calculating ==> n'.state == n.state)
            && n'.store == Splice(n.store, c.At(id), data[..|c.Slice(id)|])
  {
    InPlace(c, id);
  }

  /** A node that has just been told to start. */
  function Begun(store: Bytes): Node {
    RESET.(state := Started, store := store)
  }

  lemma BegunIs(c: Campaign, store: Bytes)
    requires c.Valid() && |store| == |c.image.bytes|
    ensures Steady(c, Begun(store), true) && Steady(c, Begun(store), false) && Sound(c, Begun(store))
  {
    NoRepeatsEmpty();
  }

  /** Fragment `id` of the image arrives and can be written. */
  predicate Delivers(c: Campaign, e: Event, id: nat)
    requires c.Valid()
  {
    && e.Receive? && e.write == Written && e.cmd.Fragment? && e.cmd.id == id
    && c.IsId(id) && |e.cmd.data| == c.image.fragSize && c.Slice(id) <= e.cmd.data && e.cmd.crc == c.crc(e.cmd.data)
  }

  /** The sender is done, or nothing has come for a long time. */
  predicate Ends(e: Event) {
    e.FallbackTimer? || (e.Receive? && e.cmd.EndFragments?)
  }

  /** What happens while the fragments come in. */
  predicate Delivery(c: Campaign, e: Event)
    requires c.Valid()
  {
    Ends(e) || (e.Receive? && (e.cmd.Start? || (e.cmd.Fragment? && Delivers(c, e, e.cmd.id))))
  }

  predicate AllDelivery(c: Campaign, run: seq<Event>)
    requires c.Valid()
  {
    forall i :: 0 <= i < |run| ==> Delivery(c, run[i])
  }

  predicate Arrived(c: Campaign, run: seq<Event>, id: nat)
    requires c.Valid()
  {
    exists i :: 0 <= i < |run| && Delivers(c, run[i], id)
  }

  predicate HasEnded(run: seq<Event>) {
    exists i :: 0 <= i < |run| && Ends(run[i])
  }

  /** Where a node stands while the fragments come in. */
  ghost predicate Collecting(c: Campaign, n: Node, run: seq<Event>)
    requires c.Valid()
  {
    && Steady(c, n, false) && Sound(c, n) && n.serving.None?
    && (forall id :: id in n.have <==> Arrived(c, run, id))
    && (if n.have == IdsUpTo(c.image.count) then n.state == Calculating && n.hashing == Some(Hashing(0, []))
        else n.state == if HasEnded(run) then Requesting else Started)
  }

  /** Over every delivery, with the fragments in any order and any number of times: the node
      has exactly what arrived; once nothing is missing it calculates the checksum, and until
      then it asks for the rest if and only if the sender, or the fallback timer, has ended
      the delivery. */
  lemma {:induction false} Collects(c: Campaign, store: Bytes, run: seq<Event>)
    requires c.Valid() && |store| == |c.image.bytes| && AllDelivery(c, run)
    ensures Steady(c, Begun(store), false) && Collecting(c, After(c, Begun(store), run), run)
  {
    BegunIs(c, store);
    if run == [] {
      IdsIs(c.image.count, 1);
    } else {
      var front, e := run[..|run| - 1], run[|run| - 1];
      Collects(c, store, front);
      CollectsNext(c, After(c, Begun(store), front), front, e);
      assert front + [e] == run;
    }
  }

  lemma CollectsNext(c: Campaign, n: Node, front: seq<Event>, e: Event)
    requires c.Valid() && Collecting(c, n, front) && Delivery(c, e)
    ensures Fitting(c, e) && Collecting(c, Next(c, n, e), front + [e])
  {
    hide Steady, Sound, HasSlice, IdsUpTo, Arrived, HasEnded;
    SteadyFacts(c, n);
    SteadyNext(c, n, false, e);
    SoundNext(c, n, e);
    ArrivedSnoc(c, front, e);
    if e.Receive? && e.cmd.Fragment? {
      IdsIs(c.image.count, e.cmd.id);
      FragmentCollected(c, n, e);
    }
  }

  lemma FragmentCollected(c: Campaign, n: Node, e: Event)
    requires c.Valid() && n.serving.None? && |n.store| == |c.image.bytes|
    requires e.Receive? && e.cmd.Fragment? && Delivers(c, e, e.cmd.id)
    requires n.have == IdsUpTo(c.image.count) ==> n.state !in {Started, Requesting} && e.cmd.id in n.have
    requires n.have != IdsUpTo(c.image.count) ==> n.state in {Started, Requesting}
    ensures var n' := OnFragment(c, n, e.cmd.id, e.cmd.data, e.cmd.crc, e.write);
            && n'.have == n.have + {e.cmd.id} && n'.serving.None?
            && (if n'.have == IdsUpTo(c.image.count) && n.have != IdsUpTo(c.image.count)
                then n'.state == Calculating && n'.hashing == Some(Hashing(0, []))
                else n'.state == n.state && n'.hashing == n.hashing)
  {
    InPlace(c, e.cmd.id);
    if e.cmd.id in n.have {
      assert n.have + {e.cmd.id} == n.have;
    }
  }

  lemma SteadyFacts(c: Campaign, n: Node)
    requires c.Valid() && Steady(c, n, false)
    ensures |n.store| == |c.image.bytes| && (n.hashing.Some? ==> n.hashing.value.pos <= |n.store|)
  {}

  lemma ArrivedSnoc(c: Campaign, front: seq<Event>, e: Event)
    requires c.Valid()
    ensures HasEnded(front + [e]) <==> HasEnded(front) || Ends(e)
    ensures forall id :: Arrived(c, front + [e], id) <==> Arrived(c, front, id) || Delivers(c, e, id)
  {
    hide Delivers, Ends;
    var run := front + [e];
    assert run[|front|] == e && forall i :: 0 <= i < |front| ==> run[i] == front[i];
    forall id
      ensures Arrived(c, run, id) <==> Arrived(c, front, id) || Delivers(c, e, id)
    {
      if Arrived(c, front, id) {
        var i :| 0 <= i < |front| && Delivers(c, front[i], id);
        assert Delivers(c, run[i], id);
      }
    }
    if HasEnded(front) {
      var i :| 0 <= i < |front| && Ends(front[i]);
      assert Ends(run[i]);
    }
  }

  /** `k` chunks of the digest, with storage that can be read. */
  function Chunks(k: nat): seq<Event> {
    seq(k, i => ChecksumTimer(true))
  }

  /** The checksum calculation takes one chunk per timer, from the first byte to the last,
      and then completes the process, if the storage has the image. */
  lemma {:induction false} ChecksumCompletes(c: Campaign, n: Node, k: nat)
    requires c.Valid() && Steady(c, n, false) && n.store == c.image.bytes
    requires n.state == Calculating && n.hashing == Some(Hashing(0, []))
    ensures After(c, n, Chunks(k)) == Calculated(n, Span(k, CHUNK))
  {
    hide Steady, Calculated, Span;
    if k == 0 {
      assert Chunks(0) == [];
      NotCalculated(n);
    } else {
      ChecksumCompletes(c, n, k - 1);
      assert Chunks(k)[..k - 1] == Chunks(k - 1) && Chunks(k)[k - 1] == ChecksumTimer(true);
      OneChunk(c, n, Span(k - 1, CHUNK));
    }
  }

  /** A node in the checksum calculation that has taken in `p` bytes. */
  function Calculated(n: Node, p: nat): Node {
    if p < |n.store| then n.(hashing := Some(Hashing(p, n.store[..p]))) else n.(state := Completed, hashing := None)
  }

  lemma NotCalculated(n: Node)
    requires n.hashing == Some(Hashing(0, [])) && n.store != []
    ensures Span(0, CHUNK) == 0 && Calculated(n, 0) == n
  {}

  lemma OneChunk(c: Campaign, n: Node, p: nat)
    requires c.Valid() && n.state == Calculating && n.store == c.image.bytes
    ensures OnChecksumTimer(c, Calculated(n, p), true) == Calculated(n, p + CHUNK)
  {
    if p < |n.store| {
      var size := Min(CHUNK, |n.store| - p);
      assert n.store[..p] + n.store[p..p + size] == n.store[..p + size];
      assert n.store[..|n.store|] == n.store;
    }
  }

  /** From the start of a session to its activation: all fragments in any order, enough timers
      for the checksum, and the update command. */
  lemma Activates(c: Campaign, store: Bytes, run: seq<Event>, k: nat)
    requires c.Valid() && |store| == |c.image.bytes| && AllDelivery(c, run)
    requires (forall id :: c.IsId(id) ==> Arrived(c, run, id)) && Span(k, CHUNK) >= |c.image.bytes|
    ensures Steady(c, Begun(store), false)
    ensures var n := After(c, Begun(store), run + Chunks(k) + [Receive(Update, Written)]);
            n.state == UpdateFw && n.store == c.image.bytes
  {
    hide Steady, Sound, AllDelivery, Arrived, Next;
    Collects(c, store, run);
    var n := After(c, Begun(store), run);
    AllArrived(c, n, run);
    FullStore(c, n);
    ChecksumCompletes(c, n, k);
    AfterAppend(c, Begun(store), run, Chunks(k));
    AfterUpdate(c, Begun(store), run + Chunks(k));
  }

  lemma AllArrived(c: Campaign, n: Node, run: seq<Event>)
    requires c.Valid() && Collecting(c, n, run) && forall id :: c.IsId(id) ==> Arrived(c, run, id)
    ensures n.have == IdsUpTo(c.image.count)
  {
    hide Steady, Sound;
    forall id: nat
      ensures id in n.have <==> id in IdsUpTo(c.image.count)
    {
      IdsIs(c.image.count, id);
      if Arrived(c, run, id) {
        var i :| 0 <= i < |run| && Delivers(c, run[i], id);
      }
    }
  }

  lemma AfterUpdate(c: Campaign, n: Node, run: seq<Event>)
    requires c.Valid() && Steady(c, n, false) && After(c, n, run).state in {Completed, UpdateFw}
    ensures After(c, n, run + [Receive(Update, Written)]) == After(c, n, run).(state := UpdateFw)
  {
    assert (run + [Receive(Update, Written)])[..|run|] == run;
  }

  /** An abort ends the session for good, from every state but UPDATE FW: whatever comes
      then, short of a new manifest, the node stays aborted and serves nobody. */
  lemma {:induction false} AbortedForGood(c: Campaign, n: Node, run: seq<Event>)
    requires c.Valid() && Steady(c, n, false) && n.state != UpdateFw
    requires forall i :: 0 <= i < |run| && run[i].Receive? ==> !run[i].cmd.Manifest?
    ensures var n' := After(c, n, [Receive(Abort, Written)] + run);
            n'.state == Aborted && n'.serving.None? && n'.have == n.have
  {
    var e := Receive(Abort, Written);
    if run == [] {
      AfterOne(c, n, e);
      assert [e] + run == [e];
    } else {
      AbortedForGood(c, n, run[..|run| - 1]);
      assert ([e] + run)[..|run|] == [e] + run[..|run| - 1];
    }
  }

  lemma AfterOne(c: Campaign, n: Node, e: Event)
    requires c.Valid() && Steady(c, n, false) && Fitting(c, e)
    ensures After(c, n, [e]) == Next(c, n, e)
  {
    assert [e][..0] == [];
    assert After(c, n, []) == n;
  }

  lemma {:induction false} AfterAppend(c: Campaign, n: Node, a: seq<Event>, b: seq<Event>)
    requires c.Valid() && Steady(c, n, false)
    ensures After(c, n, a + b) == After(c, After(c, n, a), b)
  {
    if b == [] {
      assert a + b == a;
    } else {
      AfterAppend(c, n, a, b[..|b| - 1]);
      assert (a + b)[..|a + b| - 1] == a + b[..|b| - 1];
    }
  }
}
