/** A whole multicast network: a border router, any number of nodes, and a medium that
    loses, repeats and reorders packets, and may corrupt a byte of a fragment. */
module OtaNetwork {
  import opened Bytes
  import opened MulticastStore
  import opened OtaNode
  import opened FragmentMask
  import opened FragmentService
  import Crc16

  datatype Packet = Packet(session: nat, cmd: Command)

  /** A device outside any session, or in one. */
  datatype Device = Device(session: Option<nat>, node: Node)

  /** All packets ever sent can still arrive, any number of times and in any order;
      a packet is lost if it never does. */
  datatype Net = Net(devices: seq<Device>, sent: set<Packet>)

  type Sessions = nat -> Campaign

  /** Changing byte `at` of `data` to `b` is noticed by the checksum. */
  predicate Notices(crc: Bytes -> bv16, data: Bytes, at: nat, b: byte) {
    at < |data| && b != data[at] ==> crc(data[at := b]) != crc(data)
  }

  ghost predicate Lawful(ss: Sessions) {
    forall s :: ss(s).Valid() && forall data: Bytes, at: nat, b: byte :: Notices(ss(s).crc, data, at, b)
  }

  datatype Step =
    | Broadcast(p: Packet)                                   // anything but a fragment
    | Send(i: nat, id: nat, pad: Bytes)                      // the border router's delivery
    | Serve(i: nat, pad: Bytes)                              // the service timer
    | Arrive(i: nat, p: Packet, write: Write, blank: Bytes)
    | Garbled(i: nat, p: Packet, at: nat, b: byte, write: Write)
    | Expire(i: nat, e: Event)

  /** ota_deliver_one_fragment: the bytes come from the sender's own storage. */
  function FragmentOf(c: Campaign, store: Bytes, id: nat, pad: Bytes): Command
    requires c.Valid() && c.IsId(id) && |store| == |c.image.bytes|
  {
    InPlace(c, id);
    var data := store[c.At(id)..c.At(id) + |c.Slice(id)|] + pad;
    Fragment(id, data, c.crc(data))
  }

  /** A node in the session of a campaign, with the promises of its states. */
  ghost predicate Good(ss: Sessions, d: Device) {
    d.session.Some? ==>
      var c := ss(d.session.value);
      c.Valid() && Steady(c, d.node, false) && Sound(c, d.node)
  }

  /** A fragment in flight carries the bytes of its session's image. */
  predicate Genuine(ss: Sessions, p: Packet) {
    match p.cmd
    case Fragment(id, data, crc) =>
      var c := ss(p.session);
      c.Valid() && c.IsId(id) && |data| == c.image.fragSize && c.Slice(id) <= data && crc == c.crc(data)
    case _ => true
  }

  ghost predicate Safe(ss: Sessions, net: Net) {
    && (forall i :: 0 <= i < |net.devices| ==> Good(ss, net.devices[i]))
    && (forall p :: p in net.sent ==> Genuine(ss, p))
  }

  /** A device in PROCESS COMPLETED or UPDATE FW has the image, so it may serve it. */
  lemma CompletedHasImage(ss: Sessions, d: Device)
    requires Good(ss, d) && d.session.Some? && d.node.state in {Completed, UpdateFw}
    ensures d.node.store == ss(d.session.value).image.bytes
  {
    FullStore(ss(d.session.value), d.node);
  }

  /** A packet at a device: a start command opens a session, a manifest ends it, an
      update command is not tied to one, everything else must belong to it. */
  ghost function Received(ss: Sessions, d: Device, p: Packet, write: Write, blank: Bytes): Device
    requires Good(ss, d) && (forall s :: ss(s).Valid())
  {
    match d.session
    case None =>
      if p.cmd == Start && |blank| == |ss(p.session).image.bytes|
      then Device(Some(p.session), RESET.(state := Started, store := blank)) else d
    case Some(s) =>
      if p.cmd == Manifest then Device(None, RESET)
      else if (p.session == s || p.cmd == Update) && Fitting(ss(s), Receive(p.cmd, write))
      then d.(node := Next(ss(s), d.node, Receive(p.cmd, write))) else d
  }

  ghost function NextNet(ss: Sessions, net: Net, step: Step): Net
    requires Safe(ss, net) && (forall s :: ss(s).Valid())
  {
    var ds := net.devices;
    match step
    case Broadcast(p) => if p.cmd.Fragment? then net else net.(sent := net.sent + {p})
    case Send(i, id, pad) =>
      if i < |ds| && ds[i].session.Some? && ds[i].node.state in {Completed, UpdateFw} then
        var s := ds[i].session.value;
        if ss(s).IsId(id) && |pad| == ss(s).image.fragSize - |ss(s).Slice(id)|
        then net.(sent := net.sent + {Packet(s, FragmentOf(ss(s), ds[i].node.store, id, pad))}) else net
      else net
    case Serve(i, pad) =>
      if i < |ds| && ds[i].session.Some? && ds[i].node.serving.Some? then
        var s := ds[i].session.value;
        var id := Least(ds[i].node.serving.value.open);
        if |pad| == ss(s).image.fragSize - |ss(s).Slice(id)|
        then Net(ds[i := ds[i].(node := Next(ss(s), ds[i].node, ServiceTimer))],
                 net.sent + {Packet(s, FragmentOf(ss(s), ds[i].node.store, id, pad))})
        else net
      else net
    case Arrive(i, p, write, blank) =>
      if i < |ds| && p in net.sent then net.(devices := ds[i := Received(ss, ds[i], p, write, blank)]) else net
    case Garbled(i, p, at, b, write) =>
      if i < |ds| && p in net.sent && p.cmd.Fragment? && at < |p.cmd.data| && b != p.cmd.data[at]
      then net.(devices := ds[i := Received(ss, ds[i], Garble(p, at, b), write, [])])
      else net
    case Expire(i, e) =>
      if i < |ds| && ds[i].session.Some? && !e.Receive? && e != ServiceTimer
      then net.(devices := ds[i := ds[i].(node := Next(ss(ds[i].session.value), ds[i].node, e))]) else net
  }

  // ---- Every step keeps the network safe ----------------------------------------------------

  /** What a device that has the image sends is genuine. */
  lemma SentIsGenuine(ss: Sessions, d: Device, id: nat, pad: Bytes)
    requires Good(ss, d) && d.session.Some? && d.node.state in {Completed, UpdateFw}
    requires var c := ss(d.session.value); c.IsId(id) && |pad| == c.image.fragSize - |c.Slice(id)|
    ensures Genuine(ss, Packet(d.session.value, FragmentOf(ss(d.session.value), d.node.store, id, pad)))
  {
    CompletedHasImage(ss, d);
    InPlace(ss(d.session.value), id);
  }

  /** An event at a device in a session. */
  lemma GoodNext(ss: Sessions, d: Device, e: Event)
    requires Good(ss, d) && d.session.Some?
    requires Fitting(ss(d.session.value), e) && Honest(ss(d.session.value), e)
    ensures Good(ss, d.(node := Next(ss(d.session.value), d.node, e)))
  {
    SteadyNext(ss(d.session.value), d.node, false, e);
    SoundNext(ss(d.session.value), d.node, e);
  }

  lemma GenuineIsHonest(ss: Sessions, p: Packet, write: Write)
    requires Genuine(ss, p)
    ensures ss(p.session).Valid() ==> Honest(ss(p.session), Receive(p.cmd, write))
  {}

  /** Packet `p`, a fragment, with byte `at` of its data changed to `b`. */
  function Garble(p: Packet, at: nat, b: byte): Packet
    requires p.cmd.Fragment? && at < |p.cmd.data|
  {
    p.(cmd := p.cmd.(data := p.cmd.data[at := b]))
  }

  /** A garbled fragment does nothing at all to the device it reaches. */
  lemma GarbledIsIgnored(ss: Sessions, d: Device, p: Packet, at: nat, b: byte, write: Write)
    requires Lawful(ss) && Good(ss, d) && Genuine(ss, p) && p.cmd.Fragment? && at < |p.cmd.data| && b != p.cmd.data[at]
    ensures Received(ss, d, Garble(p, at, b), write, []) == d
  {
    assert Notices(ss(p.session).crc, p.cmd.data, at, b);
  }

  lemma GoodReceived(ss: Sessions, d: Device, p: Packet, write: Write, blank: Bytes)
    requires Lawful(ss) && Good(ss, d) && Honest(ss(p.session), Receive(p.cmd, write))
    ensures Good(ss, Received(ss, d, p, write, blank))
  {
    hide Next;
    match d.session
    case None =>
      assert ss(p.session).Valid();
    case Some(s) =>
      if p.cmd != Manifest && (p.session == s || p.cmd == Update) && Fitting(ss(s), Receive(p.cmd, write)) {
        GoodNext(ss, d, Receive(p.cmd, write));
      }
  }

  lemma SafeUpdate(ss: Sessions, net: Net, i: nat, d: Device, sent: set<Packet>)
    requires Safe(ss, net) && i < |net.devices| && Good(ss, d)
    requires forall p :: p in sent ==> Genuine(ss, p)
    ensures Safe(ss, Net(net.devices[i := d], sent))
  {
    hide Good, Genuine;
  }

  /** One step of the network. */
  lemma SafeNext(ss: Sessions, net: Net, step: Step)
    requires Lawful(ss) && Safe(ss, net)
    ensures Safe(ss, NextNet(ss, net, step))
  {
    hide Next, Received, Good, Genuine, FragmentOf, Steady, Sound;
    var ds := net.devices;
    match step
    case Arrive(i, p, write, blank) =>
      if i < |ds| && p in net.sent {
        assert ss(p.session).Valid();
        GenuineIsHonest(ss, p, write);
        GoodReceived(ss, ds[i], p, write, blank);
        SafeUpdate(ss, net, i, Received(ss, ds[i], p, write, blank), net.sent);
      }
    case Garbled(i, p, at, b, write) =>
      if i < |ds| && p in net.sent && p.cmd.Fragment? && at < |p.cmd.data| && b != p.cmd.data[at] {
        GarbledIsIgnored(ss, ds[i], p, at, b, write);
        SafeUpdate(ss, net, i, ds[i], net.sent);
      }
    case Broadcast(p) => SafeBroadcast(ss, net, p);
    case Send(i, id, pad) => SafeSend(ss, net, i, id, pad);
    case Serve(i, pad) => SafeServe(ss, net, i, pad);
    case Expire(i, e) => SafeExpire(ss, net, i, e);
  }

  lemma SafeBroadcast(ss: Sessions, net: Net, p: Packet)
    requires Lawful(ss) && Safe(ss, net)
    ensures Safe(ss, NextNet(ss, net, Broadcast(p)))
  {}

  lemma SafeSend(ss: Sessions, net: Net, i: nat, id: nat, pad: Bytes)
    requires Lawful(ss) && Safe(ss, net)
    ensures Safe(ss, NextNet(ss, net, Send(i, id, pad)))
  {
    hide FragmentOf, Genuine;
    var ds := net.devices;
    if i < |ds| && ds[i].session.Some? && ds[i].node.state in {Completed, UpdateFw} {
      var c := ss(ds[i].session.value);
      if c.IsId(id) && |pad| == c.image.fragSize - |c.Slice(id)| {
        SentIsGenuine(ss, ds[i], id, pad);
      }
    }
  }

  lemma SafeServe(ss: Sessions, net: Net, i: nat, pad: Bytes)
    requires Lawful(ss) && Safe(ss, net)
    ensures Safe(ss, NextNet(ss, net, Serve(i, pad)))
  {
    hide FragmentOf, Genuine, Next, Sound;
    var ds := net.devices;
    if i < |ds| && ds[i].session.Some? && ds[i].node.serving.Some? {
      var s := ds[i].session.value;
      var id := Least(ds[i].node.serving.value.open);
      if |pad| == ss(s).image.fragSize - |ss(s).Slice(id)| {
        SentIsGenuine(ss, ds[i], id, pad);
        GoodNext(ss, ds[i], ServiceTimer);
        SafeUpdate(ss, net, i, ds[i].(node := Next(ss(s), ds[i].node, ServiceTimer)),
                   net.sent + {Packet(s, FragmentOf(ss(s), ds[i].node.store, id, pad))});
      }
    }
  }

  lemma SafeExpire(ss: Sessions, net: Net, i: nat, e: Event)
    requires Lawful(ss) && Safe(ss, net)
    ensures Safe(ss, NextNet(ss, net, Expire(i, e)))
  {
    hide Next, Genuine, Sound;
    var ds := net.devices;
    if i < |ds| && ds[i].session.Some? && !e.Receive? && e != ServiceTimer {
      GoodNext(ss, ds[i], e);
      SafeUpdate(ss, net, i, ds[i].(node := Next(ss(ds[i].session.value), ds[i].node, e)), net.sent);
    }
  }

  // ---- Whole runs -------------------------------------------------------------------------------

  ghost function After(ss: Sessions, net: Net, run: seq<Step>): (net': Net)
    requires Lawful(ss) && Safe(ss, net)
    ensures Safe(ss, net')
  {
    if run == [] then net
    else
      var m := After(ss, net, run[..|run| - 1]);
      SafeNext(ss, m, run[|run| - 1]);
      NextNet(ss, m, run[|run| - 1])
  }

  /** A network in which every device is outside any session, except for those, like the
      border router, that have the image of theirs, and in which nothing has been sent. */
  ghost predicate Initial(ss: Sessions, net: Net) {
    && net.sent == {}
    && forall i :: 0 <= i < |net.devices| && net.devices[i].session.Some? ==>
         var c, n := ss(net.devices[i].session.value), net.devices[i].node;
         n == Node(Completed, IdsUpTo(c.image.count), c.image.bytes, None, None, n.log)
         && NoRepeats(n.log) && (forall id :: id in n.log <==> id in n.have)
  }

  /** Over every run of the network: what is in flight is genuine, every mask bit of
      every node is true, and every device that counts as complete stores the image. */
  lemma NetworkIsSafe(ss: Sessions, net: Net, run: seq<Step>)
    requires Lawful(ss) && Initial(ss, net)
    ensures Safe(ss, net)
    ensures var net' := After(ss, net, run);
            && (forall p :: p in net'.sent ==> Genuine(ss, p))
            && forall i :: 0 <= i < |net'.devices| && net'.devices[i].session.Some? ==>
                 var c, n := ss(net'.devices[i].session.value), net'.devices[i].node;
                 && c.Valid() && (forall id :: id in n.have ==> HasSlice(c, n.store, id))
                 && (n.state in {Completed, UpdateFw} ==> n.store == c.image.bytes)
  {
    InitialIsSafe(ss, net);
    var net' := After(ss, net, run);
    forall i | 0 <= i < |net'.devices| && net'.devices[i].session.Some?
      ensures var c, n := ss(net'.devices[i].session.value), net'.devices[i].node;
              && c.Valid() && (forall id :: id in n.have ==> HasSlice(c, n.store, id))
              && (n.state in {Completed, UpdateFw} ==> n.store == c.image.bytes)
    {
      assert Good(ss, net'.devices[i]);
      if net'.devices[i].node.state in {Completed, UpdateFw} {
        CompletedHasImage(ss, net'.devices[i]);
      }
    }
  }

  lemma InitialIsSafe(ss: Sessions, net: Net)
    requires Lawful(ss) && Initial(ss, net)
    ensures Safe(ss, net)
  {
    forall i | 0 <= i < |net.devices|
      ensures Good(ss, net.devices[i])
    {
      if net.devices[i].session.Some? {
        var c, n := ss(net.devices[i].session.value), net.devices[i].node;
        assert c.Valid();
        assert c.image.bytes[..|c.image.bytes|] == c.image.bytes;
        assert Matches(c, n.store, |n.store|);
        forall id | id in n.have
          ensures HasSlice(c, n.store, id)
        {
          IdsIs(c.image.count, id);
          InPlace(c, id);
        }
      }
    }
  }

  // ---- Distribution ---------------------------------------------------------------------------------

  lemma AfterStep(ss: Sessions, net: Net, run: seq<Step>, step: Step)
    requires Lawful(ss) && Safe(ss, net)
    ensures After(ss, net, run + [step]) == NextNet(ss, After(ss, net, run), step)
  {
    assert (run + [step])[..|run|] == run;
  }

  /** After `run`, device `j` is in session `s` and has seen `events`; device `i` is as before. */
  ghost predicate Joined(ss: Sessions, net: Net, run: seq<Step>, i: nat, j: nat, s: nat, blank: Bytes,
                         events: seq<Event>)
    requires Lawful(ss) && Safe(ss, net)
  {
    && ss(s).Valid() && Steady(ss(s), Begun(blank), false)
    && var ds := After(ss, net, run).devices;
       && |ds| == |net.devices| && i < |ds| && j < |ds| && i != j && ds[i] == net.devices[i]
       && ds[j] == Device(Some(s), OtaNode.After(ss(s), Begun(blank), events))
  }

  /** A packet that has been sent arrives. */
  lemma Reaches(ss: Sessions, net: Net, run: seq<Step>, i: nat, j: nat, s: nat, blank: Bytes, events: seq<Event>,
                cmd: Command)
    requires Lawful(ss) && Safe(ss, net) && Joined(ss, net, run, i, j, s, blank, events)
    requires Packet(s, cmd) in After(ss, net, run).sent && !cmd.Manifest? && Fitting(ss(s), Receive(cmd, Written))
    ensures Joined(ss, net, run + [Arrive(j, Packet(s, cmd), Written, [])], i, j, s, blank,
                   events + [Receive(cmd, Written)])
  {
    hide Next, Steady, Safe, Lawful, Good, After, OtaNode.After, Begun, FragmentOf;
    AfterStep(ss, net, run, Arrive(j, Packet(s, cmd), Written, []));
    InSession(ss, After(ss, net, run), j);
    AfterEvent(ss(s), Begun(blank), events, Receive(cmd, Written));
  }

  lemma InSession(ss: Sessions, net: Net, i: nat)
    requires Lawful(ss) && Safe(ss, net) && i < |net.devices|
    ensures Good(ss, net.devices[i]) && forall s :: ss(s).Valid()
  {}

  lemma AfterEvent(c: Campaign, n: Node, events: seq<Event>, e: Event)
    requires c.Valid() && Steady(c, n, false) && Fitting(c, e)
    ensures var m := OtaNode.After(c, n, events);
            && |m.store| == |c.image.bytes| && (m.hashing.Some? ==> m.hashing.value.pos <= |m.store|)
            && OtaNode.After(c, n, events + [e]) == Next(c, m, e)
  {
    hide Next;
    assert (events + [e])[..|events|] == events;
  }

  /** A timer of device `j` expires. */
  lemma Expires(ss: Sessions, net: Net, run: seq<Step>, i: nat, j: nat, s: nat, blank: Bytes, events: seq<Event>,
                e: Event)
    requires Lawful(ss) && Safe(ss, net) && Joined(ss, net, run, i, j, s, blank, events)
    requires e.ChecksumTimer? || e.FallbackTimer?
    ensures Joined(ss, net, run + [Expire(j, e)], i, j, s, blank, events + [e])
  {
    hide Next, Steady, Safe, Lawful, Good, After, OtaNode.After, Begun, FragmentOf;
    AfterStep(ss, net, run, Expire(j, e));
    InSession(ss, After(ss, net, run), j);
    AfterEvent(ss(s), Begun(blank), events, e);
  }

  /** A session starts at a device that is in none. */
  lemma Joins(ss: Sessions, net: Net, i: nat, j: nat, s: nat, blank: Bytes) returns (run: seq<Step>)
    requires Lawful(ss) && Safe(ss, net) && i < |net.devices| && j < |net.devices| && i != j
    requires net.devices[j].session.None? && |blank| == |ss(s).image.bytes|
    ensures Joined(ss, net, run, i, j, s, blank, [])
  {
    hide Next, Steady;
    assert ss(s).Valid();
    BegunIs(ss(s), blank);
    var p := Packet(s, Start);
    assert After(ss, net, []) == net;
    AfterStep(ss, net, [], Broadcast(p));
    AfterStep(ss, net, [] + [Broadcast(p)], Arrive(j, p, Written, blank));
    run := [] + [Broadcast(p)] + [Arrive(j, p, Written, blank)];
    assert OtaNode.After(ss(s), Begun(blank), []) == Begun(blank);
  }

  /** The fragments 1 to `m` have been sent and received. */
  lemma {:induction false} Sends(ss: Sessions, net: Net, i: nat, j: nat, s: nat, blank: Bytes, m: nat)
    returns (run: seq<Step>, events: seq<Event>)
    requires Lawful(ss) && Safe(ss, net) && i < |net.devices| && j < |net.devices| && i != j
    requires net.devices[j].session.None? && |blank| == |ss(s).image.bytes| && m <= ss(s).image.count
    requires net.devices[i].session == Some(s) && net.devices[i].node.state in {Completed, UpdateFw}
    ensures Joined(ss, net, run, i, j, s, blank, events) && AllDelivery(ss(s), events)
    ensures forall id :: 1 <= id <= m ==> Arrived(ss(s), events, id)
  {
    hide Next, Steady, Arrived, Delivers, FragmentOf, Genuine;
    if m == 0 {
      run := Joins(ss, net, i, j, s, blank);
      events := [];
    } else {
      run, events := Sends(ss, net, i, j, s, blank, m - 1);
      run, events := SendsOne(ss, net, run, i, j, s, blank, events, m);
    }
  }

  /** A fragment goes out, with the bytes of the image. */
  lemma GoesOut(ss: Sessions, net: Net, run: seq<Step>, i: nat, j: nat, s: nat, blank: Bytes, events: seq<Event>,
                id: nat)
    returns (run': seq<Step>, cmd: Command)
    requires Lawful(ss) && Safe(ss, net) && Joined(ss, net, run, i, j, s, blank, events)
    requires net.devices[i].session == Some(s) && net.devices[i].node.state in {Completed, UpdateFw}
    requires ss(s).IsId(id)
    ensures Joined(ss, net, run', i, j, s, blank, events) && Packet(s, cmd) in After(ss, net, run').sent
    ensures Delivers(ss(s), Receive(cmd, Written), id)
  {
    hide Next, Steady, After, OtaNode.After;
    var c, d := ss(s), net.devices[i];
    var pad := Fill(0, c.image.fragSize - |c.Slice(id)|);
    cmd := FragmentOf(c, d.node.store, id, pad);
    SentIsGenuine(ss, d, id, pad);
    AfterStep(ss, net, run, Send(i, id, pad));
    run' := run + [Send(i, id, pad)];
  }

  lemma SendsOne(ss: Sessions, net: Net, run: seq<Step>, i: nat, j: nat, s: nat, blank: Bytes, events: seq<Event>,
                 id: nat)
    returns (run': seq<Step>, events': seq<Event>)
    requires Lawful(ss) && Safe(ss, net) && Joined(ss, net, run, i, j, s, blank, events) && AllDelivery(ss(s), events)
    requires net.devices[i].session == Some(s) && net.devices[i].node.state in {Completed, UpdateFw}
    requires ss(s).IsId(id)
    ensures Joined(ss, net, run', i, j, s, blank, events') && AllDelivery(ss(s), events')
    ensures forall k :: k == id || Arrived(ss(s), events, k) ==> Arrived(ss(s), events', k)
  {
    hide Joined, Arrived;
    assert ss(s).Valid();
    var cmd;
    run', cmd := GoesOut(ss, net, run, i, j, s, blank, events, id);
    Reaches(ss, net, run', i, j, s, blank, events, cmd);
    run' := run' + [Arrive(j, Packet(s, cmd), Written, [])];
    events' := events + [Receive(cmd, Written)];
    ArrivedSnoc(ss(s), events, Receive(cmd, Written));
  }

  lemma {:induction false} Calculates(ss: Sessions, net: Net, run: seq<Step>, i: nat, j: nat, s: nat, blank: Bytes,
                                      events: seq<Event>, k: nat) returns (run': seq<Step>)
    requires Lawful(ss) && Safe(ss, net) && Joined(ss, net, run, i, j, s, blank, events)
    ensures Joined(ss, net, run', i, j, s, blank, events + Chunks(k))
  {
    hide Joined;
    if k == 0 {
      run' := run;
      assert events + Chunks(0) == events;
    } else {
      run' := Calculates(ss, net, run, i, j, s, blank, events, k - 1);
      Expires(ss, net, run', i, j, s, blank, events + Chunks(k - 1), ChecksumTimer(true));
      run' := run' + [Expire(j, ChecksumTimer(true))];
      assert events + Chunks(k - 1) + [ChecksumTimer(true)] == events + Chunks(k);
    }
  }

  /** In every safe network, a device that has an image can bring it to every device outside
      a session: there is a run that ends with that image stored and being activated there. */
  lemma Distributes(ss: Sessions, net: Net, i: nat, j: nat, s: nat) returns (run: seq<Step>)
    requires Lawful(ss) && Safe(ss, net) && i < |net.devices| && j < |net.devices| && i != j
    requires net.devices[i].session == Some(s) && net.devices[i].node.state in {Completed, UpdateFw}
    requires net.devices[j].session.None?
    ensures var ds := After(ss, net, run).devices;
            && |ds| == |net.devices| && ds[j].session == Some(s)
            && ds[j].node.state == UpdateFw && ds[j].node.store == ss(s).image.bytes
  {
    hide Next, Steady, AllDelivery, Arrived;
    var c := ss(s);
    var blank := Fill(0, |c.image.bytes|);
    var events, p := [], Packet(s, Update);
    run, events := Sends(ss, net, i, j, s, blank, c.image.count);
    run := Calculates(ss, net, run, i, j, s, blank, events, |c.image.bytes|);
    AfterStep(ss, net, run, Broadcast(p));
    run := run + [Broadcast(p)];
    assert Joined(ss, net, run, i, j, s, blank, events + Chunks(|c.image.bytes|));
    Reaches(ss, net, run, i, j, s, blank, events + Chunks(|c.image.bytes|), Update);
    run := run + [Arrive(j, p, Written, [])];
    Activates(c, blank, events, |c.image.bytes|);
  }

  /** A manifest takes the device it reaches out of its session. */
  lemma ManifestEnds(ss: Sessions, net: Net, i: nat, p: Packet)
    requires Lawful(ss) && Safe(ss, net) && i < |net.devices| && p in net.sent && p.cmd == Manifest
    ensures NextNet(ss, net, Arrive(i, p, Written, [])).devices[i].session.None?
  {}

  /** The update command is not tied to a session: that of any session activates a device that
      has completed its own. */
  lemma UpdateOfAnySession(ss: Sessions, net: Net, i: nat, p: Packet)
    requires Lawful(ss) && Safe(ss, net) && i < |net.devices| && p in net.sent && p.cmd == Update
    requires net.devices[i].session.Some? && net.devices[i].node.state == Completed
    ensures var d := NextNet(ss, net, Arrive(i, p, Written, [])).devices[i];
            d == net.devices[i].(node := net.devices[i].node.(state := UpdateFw))
  {
    InSession(ss, net, i);
  }

  // ---- Serving ----------------------------------------------------------------------------------------

  /** Fragment `id` of session `s` is in flight. */
  ghost predicate OnAir(ss: Sessions, sent: set<Packet>, s: nat, id: nat) {
    exists data: Bytes :: Packet(s, Fragment(id, data, ss(s).crc(data))) in sent
  }

  lemma {:induction false} AfterCons(ss: Sessions, net: Net, step: Step, run: seq<Step>)
    requires Lawful(ss) && Safe(ss, net) && Safe(ss, NextNet(ss, net, step))
    ensures After(ss, net, [step] + run) == After(ss, NextNet(ss, net, step), run)
  {
    hide NextNet, Safe;
    if run == [] {
      assert [step] + run == [] + [step];
      AfterStep(ss, net, [], step);
      assert After(ss, net, []) == net;
    } else {
      var front, last := run[..|run| - 1], run[|run| - 1];
      AfterCons(ss, net, step, front);
      AfterStep(ss, net, [step] + front, last);
      AfterStep(ss, NextNet(ss, net, step), front, last);
      assert [step] + run == ([step] + front) + [last] && run == front + [last];
    }
  }

  lemma ServesOne(ss: Sessions, net: Net, i: nat, s: nat) returns (step: Step)
    requires Lawful(ss) && Safe(ss, net) && i < |net.devices| && net.devices[i].session == Some(s)
    requires net.devices[i].node.serving.Some?
    ensures var n, net' := net.devices[i].node, NextNet(ss, net, step);
            var open := n.serving.value.open;
            && open != {} && |net'.devices| == |net.devices| && net'.devices[i].session == Some(s)
            && net'.devices[i].node == Next(ss(s), n, ServiceTimer)
            && OnAir(ss, net'.sent, s, Least(open)) && net.sent <= net'.sent
  {
    var n := net.devices[i].node;
    assert Good(ss, net.devices[i]);
    var id := Least(n.serving.value.open);
    var pad := Fill(0, ss(s).image.fragSize - |ss(s).Slice(id)|);
    step := Serve(i, pad);
    var cmd := FragmentOf(ss(s), n.store, id, pad);
    assert Packet(s, Fragment(id, cmd.data, ss(s).crc(cmd.data))) in NextNet(ss, net, step).sent;
  }

  /** A device that serves a request sends every fragment it was asked for. */
  lemma {:induction false} ServesAll(ss: Sessions, net: Net, i: nat, s: nat) returns (run: seq<Step>)
    requires Lawful(ss) && Safe(ss, net) && i < |net.devices| && net.devices[i].session == Some(s)
    ensures var net' := After(ss, net, run);
            && |net'.devices| == |net.devices| && net'.devices[i].node.serving.None? && net.sent <= net'.sent
            && (net.devices[i].node.serving.Some? ==>
                  forall id :: id in net.devices[i].node.serving.value.open ==> OnAir(ss, net'.sent, s, id))
    decreases if net.devices[i].node.serving.Some? then |net.devices[i].node.serving.value.open| else 0
  {
    hide NextNet, Safe;
    var n := net.devices[i].node;
    if n.serving.None? {
      run := [];
    } else {
      var open := n.serving.value.open;
      var step := ServesOne(ss, net, i, s);
      SafeNext(ss, net, step);
      var net1 := NextNet(ss, net, step);
      var rest := ServesAll(ss, net1, i, s);
      run := [step] + rest;
      AfterCons(ss, net, step, rest);
      forall id | id in open
        ensures OnAir(ss, After(ss, net, run).sent, s, id)
      {
        if id == Least(open) {
          StaysOnAir(ss, net1.sent, After(ss, net, run).sent, s, id);
        }
      }
    }
  }

  lemma StaysOnAir(ss: Sessions, sent: set<Packet>, more: set<Packet>, s: nat, id: nat)
    requires OnAir(ss, sent, s, id) && sent <= more
    ensures OnAir(ss, more, s, id)
  {
    var data: Bytes :| Packet(s, Fragment(id, data, ss(s).crc(data))) in sent;
    assert Packet(s, Fragment(id, data, ss(s).crc(data))) in more;
  }

  /** A request that has been sent can reach a complete device that is not busy, and then every
      fragment it asks for is sent. */
  lemma RequestIsServed(ss: Sessions, net: Net, i: nat, s: nat, segment: nat, tbl: seq<bv8>) returns (run: seq<Step>)
    requires Lawful(ss) && Safe(ss, net) && i < |net.devices| && net.devices[i].session == Some(s)
    requires net.devices[i].node.state in {Completed, UpdateFw} && net.devices[i].node.serving.None?
    requires Packet(s, Request(segment, tbl)) in net.sent
    ensures var net' := After(ss, net, run);
            forall id :: id in Wanted(tbl, FirstOf(segment), ss(s).image.count) ==> OnAir(ss, net'.sent, s, id)
  {
    hide Safe, Wanted, FirstOf;
    var step := Arrive(i, Packet(s, Request(segment, tbl)), Written, []);
    SafeNext(ss, net, step);
    InSession(ss, net, i);
    var rest := ServesAll(ss, NextNet(ss, net, step), i, s);
    run := [step] + rest;
    AfterCons(ss, net, step, rest);
  }

  // ---- The checksum in use ---------------------------------------------------------------------

  function Power(j: nat): nat
    requires j <= 8
  {
    if j == 0 then 1 else 2 * Power(j - 1)
  }

  function With(b: bv8, j: nat): bv8
    requires j < 8
  {
    b | Single(j)
  }

  lemma WithBit(b: bv8, j: nat, i: nat)
    requires j < 8 && i < 8
    ensures Has(With(b, j), i) <==> i == j || Has(b, i)
  {
    OrBit(b, j, i);
  }

  lemma WithoutBit(a: bv8, b: bv8, j: nat)
    requires j < 8 && !Has(a, j) && !Has(b, j) && With(a, j) == With(b, j)
    ensures a == b
  {}

  /** A number below two to the `j` as bits. */
  function Spell(x: nat, j: nat): bv8
    requires j <= 8 && x < Power(j)
  {
    if j == 0 then 0
    else if x >= Power(j - 1) then With(Spell(x - Power(j - 1), j - 1), j - 1)
    else Spell(x, j - 1)
  }

  lemma {:induction false} SpellShort(x: nat, j: nat, i: nat)
    requires j <= i < 8 && x < Power(j)
    ensures !Has(Spell(x, j), i)
  {
    if j > 0 {
      if x >= Power(j - 1) {
        SpellShort(x - Power(j - 1), j - 1, i);
        WithBit(Spell(x - Power(j - 1), j - 1), j - 1, i);
      } else {
        SpellShort(x, j - 1, i);
      }
    }
  }

  lemma {:induction false} SpellOneToOne(x: nat, y: nat, j: nat)
    requires j <= 8 && x < Power(j) && y < Power(j) && Spell(x, j) == Spell(y, j)
    ensures x == y
  {
    hide Has, With;
    if j > 0 {
      var p := Power(j - 1);
      var a, b := if x >= p then x - p else x, if y >= p then y - p else y;
      SpellShort(a, j - 1, j - 1);
      SpellShort(b, j - 1, j - 1);
      WithBit(Spell(a, j - 1), j - 1, j - 1);
      WithBit(Spell(b, j - 1), j - 1, j - 1);
      if x >= p && y >= p {
        WithoutBit(Spell(a, j - 1), Spell(b, j - 1), j - 1);
      }
      SpellOneToOne(a, b, j - 1);
    }
  }

  function ToBits(data: Bytes): (r: seq<bv8>)
    ensures |r| == |data|
  {
    seq(|data|, i requires 0 <= i < |data| => Spell(data[i], 8))
  }

  function CrcOf(data: Bytes): bv16 {
    Crc16.Checksum(ToBits(data))
  }

  /** The nibble-wise CRC-16 of the protocol is such a checksum. */
  lemma CrcNotices(data: Bytes, at: nat, b: byte)
    ensures Notices(CrcOf, data, at, b)
  {
    hide Spell, Crc16.Checksum;
    if at < |data| && b != data[at] {
      var x, y := ToBits(data), ToBits(data[at := b]);
      if x[at] == y[at] {
        SpellOneToOne(b, data[at], 8);
      }
      Crc16.CorruptByteNoticed(x, y, at);
    }
  }
}
