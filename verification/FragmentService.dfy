/** Serving a request for missing fragments (libota.c,
    ota_manage_fragments_request_command, ota_get_next_missing_fragment_id_for_requester
    and the service timer). */
module FragmentService {
  import opened FragmentMask

  /** The id of the first fragment of a segment, in the 16 bits of the source. */
  function FirstOf(segment: nat): nat {
    (1 + (segment as int - 1) * SEGMENT) % 0x1_0000
  }

  predicate IsWanted(tbl: seq<bv8>, base: nat, count: nat, f: nat) {
    |tbl| == REQUEST_BYTES && base <= f < base + SEGMENT && f <= count && !BitOf(tbl, f - base)
  }

  /** The fragments a request asks for: those of its segment with a zero bit. */
  function Wanted(tbl: seq<bv8>, base: nat, count: nat): set<nat> {
    set f | base <= f < base + SEGMENT && IsWanted(tbl, base, count, f)
  }

  lemma AddBit(b: bv8, j: nat)
    requires j < 8 && !Has(b, j)
    ensures b + Single(j) == b | Single(j)
  {}

  class Service {
    const count: nat            // fw_fragment_count
    const tbl: array<bv8>       // ota_fragments_request_service_bitmask_tbl
    var segment: nat
    var active: bool            // ota_fragments_request_service

    ghost predicate Valid() {
      0 < count <= 65528 && tbl.Length == REQUEST_BYTES
    }

    ghost function Open(): set<nat>
      requires Valid()
      reads this, tbl
    {
      Wanted(tbl[..], FirstOf(segment), count)
    }

    constructor (count: nat)
      requires 0 < count <= 65528
      ensures Valid() && fresh(tbl) && this.count == count && !active
    {
      this.count, this.segment, this.active := count, 0, false;
      this.tbl := new bv8[REQUEST_BYTES];
    }

    /** ota_get_next_missing_fragment_id_for_requester: the lowest fragment that is
        still wanted, crossed off if asked for, or zero. */
    method NextMissing(change: bool) returns (id: nat)
      requires Valid()
      modifies tbl
      ensures id == 0 <==> old(Open()) == {}
      ensures id > 0 ==> id in old(Open()) && forall f :: f in old(Open()) ==> id <= f
      ensures Open() == if change then old(Open()) - {id} else old(Open())
    {
      hide BitOf;
      ghost var before := tbl[..];
      var base := FirstOf(segment);
      id := base;
      if id > count {
        NoneWanted(before, base, count);
        return 0;
      }
      var i := REQUEST_BYTES;
      while i > 0
        invariant 0 <= i <= REQUEST_BYTES && SameBits(before, tbl[..], base, count)
        invariant id <= count + 1 && id <= base + 8 * (REQUEST_BYTES - i)
        invariant id == base + 8 * (REQUEST_BYTES - i) || id == count + 1
        invariant forall m :: 0 <= m < 8 * (REQUEST_BYTES - i) && base + m <= count ==> BitOf(before, m)
      {
        i := i - 1;
        var hit;
        hit, id := ScanByte(i, base, id, change);
        if hit {
          FirstWanted(before, base, count, id);
          if change {
            OneLess(before, tbl[..], base, count, id);
          } else {
            SameWanted(before, tbl[..], base, count);
          }
          assert id > 0;
          return;
        }
      }
      NoneWanted(before, base, count);
      SameWanted(before, tbl[..], base, count);
      id := 0;
    }

    /** ota_manage_fragments_request_command, on a device that has the image. */
    method OnRequest(segment: nat, bits: seq<bv8>)
      requires Valid() && |bits| == REQUEST_BYTES
      modifies this, tbl
      ensures old(active) ==> active && Open() == old(Open()) && this.segment == old(this.segment)
      ensures !old(active) ==>
                this.segment == segment && Open() == Wanted(bits, FirstOf(segment), count) && (active <==> Open() != {})
    {
      if active {
        return;
      }
      this.segment := segment;
      for i := 0 to REQUEST_BYTES
        invariant this.segment == segment && forall j :: 0 <= j < i ==> tbl[j] == bits[j]
      {
        tbl[i] := bits[i];
      }
      assert tbl[..] == bits;
      var id := NextMissing(false);
      active := id > 0;
    }

    /** The service timer: one fragment is sent, and serving goes on while there are
        more. */
    method OnTimer() returns (sent: nat)
      requires Valid()
      modifies `active, tbl
      ensures !old(active) ==> sent == 0 && !active && Open() == old(Open())
      ensures old(active) ==>
                && (sent == 0 <==> old(Open()) == {})
                && (sent > 0 ==> sent in old(Open()) && forall f :: f in old(Open()) ==> sent <= f)
                && Open() == old(Open()) - {sent} && (active <==> Open() != {})
    {
      sent := 0;
      if active {
        sent := NextMissing(true);
        var id := NextMissing(false);
        active := id > 0;
      }
    }

    /** A fragment somebody else sends while this device is serving need not be sent
        again. */
    method OnOverheard(id: nat)
      requires Valid() && 1 <= id <= count && active
      modifies `active, tbl
      ensures Open() == if SegmentOf(id) == segment then old(Open()) - {id} else old(Open())
      ensures active <==> Open() != {}
    {
      hide BitOf, Wanted, FirstOf, Single;
      if SegmentOf(id) == segment {
        CrossOff(tbl[..], segment, count, id);
        MarkId(id);
      }
      var next := NextMissing(false);
      active := next > 0;
    }

    method MarkId(id: nat)
      requires Valid() && 1 <= id <= count
      modifies tbl
      ensures var k := (id - 1) % SEGMENT;
              var i := REQUEST_BYTES - 1 - k / 8;
              tbl[..] == old(tbl[..])[i := old(tbl[..])[i] | Single(k % 8)]
    {
      hide Single;
      var i := REQUEST_BYTES - 1 - ((id - 1) % SEGMENT) / 8;
      assert ((id - 1) % SEGMENT) % 8 == (id - 1) % 8;
      tbl[i] := tbl[i] | Single((id - 1) % 8);
    }

    /** One byte of the table, which holds bits `o` to `o + 7` of the segment. */
    method ScanByte(i: nat, base: nat, start: nat, change: bool) returns (hit: bool, id: nat)
      requires Valid() && i < REQUEST_BYTES
      requires start == base + 8 * (REQUEST_BYTES - 1 - i) || start == count + 1
      requires start <= count + 1 && start <= base + 8 * (REQUEST_BYTES - 1 - i)
      modifies tbl
      ensures Scanned(old(tbl[..]), tbl[..], base, count, 8 * (REQUEST_BYTES - 1 - i), change, hit, id)
    {
      hide BitOf, Has, Single;
      id := start;
      hit := false;
      ghost var before := tbl[..];
      ghost var o := 8 * (REQUEST_BYTES - 1 - i);
      for bit := 0 to 8
        invariant tbl[..] == before && !hit && id <= count + 1
        invariant id == base + o + bit || (bit == 0 && id == count + 1 <= base + o)
        invariant forall m :: o <= m < o + bit ==> BitOf(before, m)
      {
        if id > count {
          tbl[i] := 0xFF;
          assert tbl[..] == before[i := 0xFF];
          FillByte(before, i);
          return;
        }
        ByteBit(before, i, bit);
        if !Has(tbl[i], bit) {
          if change {
            AddBit(tbl[i], bit);
            tbl[i] := tbl[i] + Single(bit);
            assert tbl[..] == before[i := before[i] | Single(bit)];
            MarkBit(before, i, bit);
          }
          hit := true;
          return;
        }
        id := id + 1;
      }
    }
  }

  /** Two tables with the same bits for fragments. */
  ghost predicate SameBits(a: seq<bv8>, b: seq<bv8>, base: nat, count: nat)
    requires |a| == |b| == REQUEST_BYTES
  {
    forall m :: 0 <= m < SEGMENT && base + m <= count ==> (BitOf(a, m) <==> BitOf(b, m))
  }

  lemma SameWanted(a: seq<bv8>, b: seq<bv8>, base: nat, count: nat)
    requires |a| == |b| == REQUEST_BYTES && SameBits(a, b, base, count)
    ensures Wanted(a, base, count) == Wanted(b, base, count)
  {
    hide BitOf;
  }

  lemma NoneWanted(t: seq<bv8>, base: nat, count: nat)
    requires |t| == REQUEST_BYTES && forall m :: 0 <= m < SEGMENT && base + m <= count ==> BitOf(t, m)
    ensures Wanted(t, base, count) == {}
  {
    hide BitOf;
  }

  lemma FirstWanted(t: seq<bv8>, base: nat, count: nat, id: nat)
    requires |t| == REQUEST_BYTES && base <= id < base + SEGMENT && id <= count && !BitOf(t, id - base)
    requires forall m :: 0 <= m < id - base ==> BitOf(t, m)
    ensures id in Wanted(t, base, count) && forall f :: f in Wanted(t, base, count) ==> id <= f
  {
    hide BitOf;
  }

  lemma OneLess(a: seq<bv8>, b: seq<bv8>, base: nat, count: nat, id: nat)
    requires |a| == |b| == REQUEST_BYTES && base <= id < base + SEGMENT && BitOf(b, id - base)
    requires forall m :: 0 <= m < SEGMENT && base + m <= count && base + m != id ==> (BitOf(a, m) <==> BitOf(b, m))
    ensures Wanted(b, base, count) == Wanted(a, base, count) - {id}
  {
    hide BitOf;
  }

  /** The effect of scanning the byte that holds bits `o` to `o + 7`: the first zero bit
      of a fragment in it, or no such bit; only padding bits change, and, if asked for,
      the bit that was found. */
  ghost predicate Scanned(a: seq<bv8>, b: seq<bv8>, base: nat, count: nat, o: nat, change: bool, hit: bool, id: nat)
    requires |a| == |b| == REQUEST_BYTES && o + 8 <= SEGMENT
  {
    && (forall m :: 0 <= m < SEGMENT && base + m <= count && !(hit && change && base + m == id) ==>
          (BitOf(b, m) <==> BitOf(a, m)))
    && (if hit then
          && base + o <= id < base + o + 8 && id <= count && !BitOf(a, id - base)
          && (change ==> BitOf(b, id - base))
          && (forall m :: o <= m < id - base ==> BitOf(a, m))
        else
          && id <= count + 1 && id <= base + o + 8 && (id == base + o + 8 || id == count + 1)
          && (forall m :: o <= m < o + 8 && base + m <= count ==> BitOf(a, m)))
  }

  lemma ByteBit(t: seq<bv8>, i: nat, bit: nat)
    requires |t| == REQUEST_BYTES && i < REQUEST_BYTES && bit < 8
    ensures Has(t[i], bit) <==> BitOf(t, 8 * (REQUEST_BYTES - 1 - i) + bit)
  {
    hide Has;
  }

  lemma FillByte(t: seq<bv8>, i: nat)
    requires |t| == REQUEST_BYTES && i < REQUEST_BYTES
    ensures forall m :: 0 <= m < SEGMENT && m / 8 != REQUEST_BYTES - 1 - i ==> (BitOf(t[i := 0xFF], m) <==> BitOf(t, m))
    ensures forall m :: 0 <= m < SEGMENT && m / 8 == REQUEST_BYTES - 1 - i ==> BitOf(t[i := 0xFF], m)
  {
    hide Has;
    forall m | 0 <= m < SEGMENT && m / 8 == REQUEST_BYTES - 1 - i
      ensures BitOf(t[i := 0xFF], m)
    {
      AllBits(m % 8);
    }
  }

  lemma MarkBit(t: seq<bv8>, i: nat, bit: nat)
    requires |t| == REQUEST_BYTES && i < REQUEST_BYTES && bit < 8
    ensures var k := 8 * (REQUEST_BYTES - 1 - i) + bit;
            forall m :: 0 <= m < SEGMENT ==> (BitOf(t[i := t[i] | Single(bit)], m) <==> m == k || BitOf(t, m))
  {
    hide BitOf;
    var k := 8 * (REQUEST_BYTES - 1 - i) + bit;
    assert Put(t, k, true) == t[i := t[i] | Single(bit)];
    forall m | 0 <= m < SEGMENT
      ensures BitOf(t[i := t[i] | Single(bit)], m) <==> m == k || BitOf(t, m)
    {
      PutIs(t, k, true, m);
    }
  }

  lemma CrossOff(t: seq<bv8>, segment: nat, count: nat, id: nat)
    requires |t| == REQUEST_BYTES && 0 < segment <= 512 && id > 0 && SegmentOf(id) == segment
    ensures var k := (id - 1) % SEGMENT;
            var i := REQUEST_BYTES - 1 - k / 8;
            Wanted(t[i := t[i] | Single(k % 8)], FirstOf(segment), count) == Wanted(t, FirstOf(segment), count) - {id}
  {
    var k := (id - 1) % SEGMENT;
    var i := REQUEST_BYTES - 1 - k / 8;
    MarkBit(t, i, k % 8);
    assert 8 * (REQUEST_BYTES - 1 - i) + k % 8 == k;
    assert BitOf(t[i := t[i] | Single(k % 8)], k);
    assert id == FirstOf(segment) + k;
    OneLess(t, t[i := t[i] | Single(k % 8)], FirstOf(segment), count, id);
  }

  lemma OtherSegment(t: seq<bv8>, segment: nat, count: nat, id: nat)
    requires 0 < segment <= 512 && id > 0
    ensures SegmentOf(id) != segment ==>
              Wanted(t, FirstOf(segment), count) - {id} == Wanted(t, FirstOf(segment), count)
  {}

  // ---- Requester and server ------------------------------------------------------------

  /** What a node asks for is what the server understands: exactly the missing fragments
      of its lowest incomplete segment. */
  lemma RequestMeansMissing(mask: seq<bv8>, count: nat, segment: nat, tbl: seq<bv8>)
    requires 0 < count <= 65528 && count <= 8 * |mask| && |tbl| == REQUEST_BYTES
    requires 0 < segment && SEGMENT * segment <= 8 * |mask| && SEGMENT * (segment - 1) < count
    requires forall o :: 0 <= o < SEGMENT ==> (BitOf(tbl, o) <==> BitOf(mask, SEGMENT * (segment - 1) + o))
    ensures Wanted(tbl, FirstOf(segment), count) == set f | f in Unmarked(mask, count) && SegmentOf(f) == segment
  {
    hide BitOf;
    assert FirstOf(segment) == 1 + SEGMENT * (segment - 1);
    forall f: nat
      ensures f in Wanted(tbl, FirstOf(segment), count) <==> f in Unmarked(mask, count) && SegmentOf(f) == segment
    {
      if SEGMENT * (segment - 1) < f <= SEGMENT * segment {
        assert SegmentOf(f) == segment;
      }
    }
  }

  /** What happens at a server: its timer expires, or it hears a fragment. */
  datatype ServiceEvent = Timer | Overheard(id: nat)

  ghost predicate Ascending(sent: seq<nat>) {
    forall i, j :: 0 <= i < j < |sent| ==> sent[i] < sent[j]
  }

  /** How a service stands: what was sent, heard, and is still open of what was asked. */
  ghost predicate Standing(asked: set<nat>, sent: seq<nat>, heard: set<nat>, open: set<nat>) {
    && Ascending(sent)
    && (forall i :: 0 <= i < |sent| ==> sent[i] in asked && sent[i] !in open)
    && (forall i, f :: 0 <= i < |sent| && f in open ==> sent[i] < f)
    && open <= asked && open !! heard
    && (forall f :: f in asked && f !in open && f !in heard ==> f in sent)
  }

  lemma SendNext(asked: set<nat>, sent: seq<nat>, heard: set<nat>, open: set<nat>, id: nat)
    requires Standing(asked, sent, heard, open) && id in open && forall f :: f in open ==> id <= f
    ensures Standing(asked, sent + [id], heard, open - {id})
  {}

  lemma HearOne(asked: set<nat>, sent: seq<nat>, heard: set<nat>, open: set<nat>, id: nat)
    requires Standing(asked, sent, heard, open)
    ensures Standing(asked, sent, heard + {id}, open - {id})
  {}

  function Timers(events: seq<ServiceEvent>, n: nat): nat
    requires n <= |events|
  {
    if n == 0 then 0 else Timers(events, n - 1) + (if events[n - 1].Timer? then 1 else 0)
  }

  lemma Fewer(open: set<nat>, id: nat)
    ensures |open - {id}| == if id in open then |open| - 1 else |open|
  {
    if id in open {
      assert open == (open - {id}) + {id};
    } else {
      assert open - {id} == open;
    }
  }

  lemma HasLeast(s: set<nat>)
    requires s != {}
    ensures exists m :: m in s && forall x :: x in s ==> m <= x
  {
    var y :| y in s;
    if s != {y} {
      HasLeast(s - {y});
      var m :| m in s - {y} && forall x :: x in s - {y} ==> m <= x;
      var k := if y < m then y else m;
      assert k in s && forall x :: x in s ==> k <= x by {
        forall x | x in s
          ensures k <= x
        {
          assert x == y || x in s - {y};
        }
      }
    }
  }

  /** The least id in a set. */
  ghost function Least(s: set<nat>): (m: nat)
    requires s != {}
    ensures m in s && forall x :: x in s ==> m <= x
  {
    HasLeast(s);
    var m :| m in s && forall x :: x in s ==> m <= x;
    m
  }

  /** The course of a service: what has been sent after `n` events, and what is still open.
      A timer sends the lowest open fragment, and a fragment that is heard is open no more. */
  ghost function Course(asked: set<nat>, events: seq<ServiceEvent>, n: nat): (seq<nat>, set<nat>)
    requires n <= |events|
  {
    if n == 0 then ([], asked)
    else
      var c := Course(asked, events, n - 1);
      match events[n - 1]
      case Timer => if c.1 == {} then c else (c.0 + [Least(c.1)], c.1 - {Least(c.1)})
      case Overheard(id) => (c.0, c.1 - {id})
  }

  lemma CourseNext(asked: set<nat>, events: seq<ServiceEvent>, n: nat, sent: seq<nat>, open: set<nat>, id: nat)
    requires n < |events| && Course(asked, events, n) == (sent, open)
    ensures events[n].Timer? && open == {} ==> Course(asked, events, n + 1) == (sent, open - {id})
    ensures events[n].Timer? && id in open && (forall f :: f in open ==> id <= f) ==>
              Course(asked, events, n + 1) == (sent + [id], open - {id})
    ensures events[n] == Overheard(id) ==> Course(asked, events, n + 1) == (sent, open - {id})
  {
    if open == {} {
      assert open - {id} == open;
    }
  }

  /** A whole service: from the request on, every wanted fragment is sent once, in
      ascending order, unless it was overheard before its turn, and nothing else is
      sent; serving stops when nothing is open any more, which takes at most one timer
      for each fragment asked for. */
  method Serve(s: Service, segment: nat, bits: seq<bv8>, events: seq<ServiceEvent>)
    returns (sent: seq<nat>, ghost heard: set<nat>)
    requires s.Valid() && !s.active && |bits| == REQUEST_BYTES && 0 < segment <= 512
    requires forall i :: 0 <= i < |events| && events[i].Overheard? ==> 1 <= events[i].id <= s.count
    modifies s, s.tbl
    ensures forall f :: f in heard ==> Overheard(f) in events
    ensures (sent, s.Open()) == Course(Wanted(bits, FirstOf(segment), s.count), events, |events|)
    ensures Standing(Wanted(bits, FirstOf(segment), s.count), sent, heard, s.Open())
    ensures s.active <==> s.Open() != {}
    ensures s.active ==> Timers(events, |events|) < |Wanted(bits, FirstOf(segment), s.count)|
  {
    hide Wanted, Standing, FirstOf, Course;
    sent, heard := [], {};
    s.OnRequest(segment, bits);
    ghost var asked := s.Open();
    NothingYet(asked, events);
    for n := 0 to |events|
      invariant Standing(asked, sent, heard, s.Open()) && Course(asked, events, n) == (sent, s.Open())
      invariant s.segment == segment && (s.active <==> s.Open() != {})
      invariant s.active ==> |s.Open()| + Timers(events, n) <= |asked|
      invariant forall f :: f in heard ==> Overheard(f) in events
    {
      ghost var open := s.Open();
      match events[n]
      case Timer =>
        var id := s.OnTimer();
        Fewer(open, id);
        CourseNext(asked, events, n, sent, open, id);
        if id > 0 {
          SendNext(asked, sent, heard, open, id);
          sent := sent + [id];
        }
      case Overheard(id) =>
        HearOne(asked, sent, heard, open, id);
        CourseNext(asked, events, n, sent, open, id);
        Fewer(open, id);
        assert open == {} ==> open - {id} == open;
        heard := heard + {id};
        OtherSegment(s.tbl[..], segment, s.count, id);
        if s.active {
          s.OnOverheard(id);
        }
    }
  }

  lemma NothingYet(asked: set<nat>, events: seq<ServiceEvent>)
    ensures Standing(asked, [], {}, asked) && Course(asked, events, 0) == ([], asked)
  {}
}
