/** Validation and installation of a candidate (fota_candidate_iterate_image): the
    image is read twice, and the handler sees it only after its digest has been
    checked, in fragments that suit the installer. */
module Install {
  import opened Bytes
  import opened BlockLayout
  import opened CandidateFormat
  import opened BlockDevice
  import opened Candidate
  import opened Extractor

  /** The calls of the installation handler. */
  datatype Event = Start | Fragment(data: Bytes) | Finish

  datatype Outcome = Done | ReadFailed | Corrupt | HandlerFailed

  /** All bytes the handler has received. */
  function Received(trace: seq<Event>): Bytes {
    if trace == [] then []
    else
      var front, e := trace[..|trace| - 1], trace[|trace| - 1];
      if e.Fragment? then Received(front) + e.data else Received(front)
  }

  predicate Aligned(trace: seq<Event>, align: nat)
    requires align > 0
  {
    forall i :: 0 <= i < |trace| && trace[i].Fragment? ==> Multiple(|trace[i].data|, align)
  }

  /** One start, then fragments, and one finish at the end if the installation is done. */
  predicate InOrder(trace: seq<Event>, done: bool) {
    && (forall i :: 0 <= i < |trace| ==> (trace[i] == Start <==> i == 0))
    && (forall i :: 0 <= i < |trace| ==> (trace[i] == Finish <==> done && i == |trace| - 1))
    && (done ==> trace != [])
  }

  lemma FirstInOrder()
    ensures InOrder([], false) && InOrder([Start], false)
  {}

  lemma InOrderSnoc(trace: seq<Event>, e: Event)
    requires InOrder(trace, false) && trace != [] && e != Start
    ensures InOrder(trace + [e], e == Finish)
  {}

  lemma ReceivedSnoc(trace: seq<Event>, e: Event)
    ensures Received(trace + [e]) == Received(trace) + (if e.Fragment? then e.data else [])
  {
    assert (trace + [e])[..|trace|] == trace;
  }

  // ---- Re-alignment ---------------------------------------------------------------

  /** The carried bytes and the last block fill a block but leave a remainder, which
      is carried over to a fragment that never comes. */
  predicate Stalls(size: nat, eff: nat, align: nat)
    requires eff > 0 && align > 0
  {
    var r := LastLen(size, eff);
    (size - r) % align + r >= eff && size % align != 0
  }

  /** A payload of one full block stalls if and only if the block is not a whole number of
      installation units. */
  lemma FullBlockStalls(eff: nat, align: nat)
    requires eff > 0 && align > 0
    ensures Stalls(eff, eff, align) <==> eff % align != 0
  {
    Remainder(0, 0, align);
  }

  lemma EmptyNeverStalls(eff: nat, align: nat)
    requires eff > 0 && align > 0
    ensures !Stalls(0, eff, align)
  {
    Remainder(0, 0, align);
  }

  lemma Remainder(m: nat, c: nat, d: nat)
    requires d > 0 && Multiple(m, d) && c < d
    ensures (m + c) % d == c
  {
    MultipleIsMod(m, d);
    assert m == m / d * d by { assert m == d * (m / d) + m % d; }
    DivModUnique(m + c, d, m / d, c);
  }

  /** A block in front of the last one: everything but a carry goes out. */
  lemma InnerFragment(size: nat, eff: nat, align: nat, out: Bytes, c: Bytes, d: Bytes, frag: Bytes, carry: Bytes)
    requires eff > 0 && align > 0 && Multiple(|out|, align) && Multiple(|out + c|, eff)
    requires |out + c| + eff < size && |d| == eff && Realigned(eff, align, c + d, frag, carry)
    ensures Multiple(|out + frag|, align) && Multiple(|frag|, align)
    ensures out + frag + carry == out + c + d && |carry| < align
    ensures Multiple(|out + c + d|, eff) && |out + c + d| < size && |out + frag| < size
  {
    hide Multiple;
    MultipleAdd(|out|, |frag|, align);
    OneUnit(eff);
    MultipleAdd(|out + c|, eff, eff);
    Regroup(out, c, d, frag, carry);
  }

  lemma Regroup(out: Bytes, c: Bytes, d: Bytes, frag: Bytes, carry: Bytes)
    requires frag + carry == c + d
    ensures out + frag + carry == out + c + d
  {
    assert out + (frag + carry) == out + frag + carry;
    assert out + (c + d) == out + c + d;
  }

  /** The last block behind a carry: everything goes out, unless together they fill a block
      and leave a remainder. */
  lemma LastFragment(size: nat, eff: nat, align: nat, out: Bytes, c: Bytes, d: Bytes, frag: Bytes, carry: Bytes)
    requires eff > 0 && align > 0 && Multiple(|out|, align) && |c| < align && Multiple(|out + c|, eff)
    requires |out + c| < size == |out + c + d| && |d| <= eff && Realigned(eff, align, c + d, frag, carry)
    ensures Multiple(|out + frag|, align) && Multiple(|frag|, align)
    ensures |c + d| >= eff ==> out + frag + carry == out + c + d && |carry| < align
    ensures |c + d| >= eff ==> (|out + frag| < size <==> Stalls(size, eff, align))
    ensures |c + d| < eff ==>
              out + c + d <= out + frag && |out + frag| < size + align && !Stalls(size, eff, align)
  {
    hide Multiple, LastLen;
    MultipleAdd(|out|, |frag|, align);
    Remainder(|out|, |c|, align);
    LastLenIs(|out + c|, size, eff);
    if |c + d| >= eff {
      Regroup(out, c, d, frag, carry);
      assert |out + frag| + |carry| == size;
      Remainder(|out + frag|, |carry|, align);
    } else {
      assert out + (c + d) == out + c + d;
    }
  }

  /** One more block: before the last one everything but a carry goes out; with the
      last one everything goes out, unless the installation stalls. */
  lemma NextFragment(size: nat, eff: nat, align: nat, out: Bytes, c: Bytes, d: Bytes, frag: Bytes, carry: Bytes)
    requires eff > 0 && align > 0 && Multiple(|out|, align) && |c| < align
    requires Multiple(|out + c|, eff) && |out + c| < size && |d| == Min(size - |out + c|, eff)
    requires Realigned(eff, align, c + d, frag, carry)
    ensures Multiple(|out + frag|, align) && Multiple(|frag|, align)
    ensures |c + d| >= eff ==> out + frag + carry == out + c + d && |carry| < align
    ensures |c + d| >= eff && |out + c + d| < size ==> Multiple(|out + c + d|, eff) && |out + frag| < size
    ensures |c + d| >= eff && |out + c + d| == size ==> (|out + frag| < size <==> Stalls(size, eff, align))
    ensures |c + d| < eff ==>
              && |out + c + d| == size && out + c + d <= out + frag && |out + frag| < size + align
              && !Stalls(size, eff, align)
  {
    hide Multiple, Realigned, Stalls;
    if |out + c| + |d| == size {
      LastFragment(size, eff, align, out, c, d, frag, carry);
    } else {
      InnerFragment(size, eff, align, out, c, d, frag, carry);
    }
  }

  // ---- The two passes --------------------------------------------------------------

  /** What is left to read from the extractor's position. */
  ghost function Rest(e: Fragments): Option<Bytes>
    requires e.Shape()
    reads e, e.bd
  {
    ReadAll(e.g, e.size, e.bd.readSize, e.bd.mem, e.currAddr, e.scan)
  }

  /** The validation pass hashes exactly what is read from storage. */
  method HashImage(e: Fragments) returns (ok: bool, hashed: Bytes)
    requires e.Shape() && e.Ready() && e.align == 1 && e.Carry() == [] && e.scan == START
    modifies e, e.fragBuf
    ensures old(Rest(e)) == if ok then Some(hashed) else None
  {
    hide Multiple, Realigned, ReadBlock;
    ok, hashed := true, [];
    while true
      invariant e.Ready() && e.Carry() == [] && hashed == e.scan.data && Rest(e) == old(Rest(e))
      decreases |e.bd.mem| - e.currAddr
    {
      var frag;
      ghost var r := ReadBlock(e.g, e.size, e.bd.readSize, e.bd.mem, e.currAddr, e.scan);
      ok, frag := e.ExtractFragment();
      assert r.AtEnd? ==> hashed + frag == hashed;
      if !ok {
        return;
      }
      if !e.ignore {
        hashed := hashed + frag;
      }
      if e.actualSize == 0 {
        return;
      }
    }
  }

  /** The installation pass in the middle: everything read so far has gone out, but
      for a carry; if all has been read, the installation is stuck. */
  ghost predicate Underway(e: Fragments, out: Bytes)
    requires e.Shape()
    reads e, e.fragBuf
  {
    && e.Ready() && out + e.Carry() == e.scan.data && Multiple(|out|, e.align)
    && (|e.scan.data| < e.size ==> Multiple(|e.scan.data|, e.g.eff))
    && (|e.scan.data| == e.size && |out| < e.size ==> Stalls(e.size, e.g.eff, e.align))
  }

  /** Everything read has gone out, with less than an installation unit of padding. */
  ghost predicate Delivered(e: Fragments, out: Bytes)
    requires e.Shape()
    reads e
  {
    && |e.scan.data| == e.size && e.scan.data <= out && |out| < e.size + e.align
    && Multiple(|out|, e.align) && !Stalls(e.size, e.g.eff, e.align)
  }

  lemma ReadsOn(g: Geometry, size: nat, rs: nat, mem: Bytes, addr: nat, s: Scan)
    requires rs > 0
    ensures ReadAll(g, size, rs, mem, addr, s)
         == match ReadBlock(g, size, rs, mem, addr, s) {
              case AtEnd => Some(s.data)
              case Fault => None
              case Bad(next) => ReadAll(g, size, rs, mem, next, s)
              case Good(next, d) => ReadAll(g, size, rs, mem, next, Scan(s.good + 1, s.data + d))
            }
  {
    hide ReadBlock;
  }

  /** The next call of the extractor in the installation pass. */
  method NextPart(e: Fragments, ghost out: Bytes) returns (ok: bool, frag: Bytes)
    requires e.Shape() && Underway(e, out) && (|out| < e.size || e.size == 0)
    modifies e, e.fragBuf
    ensures !ok ==> old(Rest(e)) == None
    ensures ok ==> Rest(e) == old(Rest(e))
    ensures ok && e.ignore ==> Underway(e, out) && old(e.currAddr) < e.currAddr <= |e.bd.mem| && e.scan == old(e.scan)
    ensures ok && !e.ignore ==>
              && e.actualSize == |frag| && Multiple(|frag|, e.align)
              && (|out + frag| < e.size ==> Underway(e, out + frag))
              && (|out + frag| >= e.size ==> Delivered(e, out + frag))
              && (|e.scan.data| > |old(e.scan).data|
                  || (e.scan == old(e.scan) && (e.size == 0 || Stalls(e.size, e.g.eff, e.align))))
  {
    hide Multiple, Realigned, ReadBlock, ReadAll, Stalls, Codec.Lawful, Codec.Implements, LastLen, Fragments.Carry;
    ghost var r := ReadBlock(e.g, e.size, e.bd.readSize, e.bd.mem, e.currAddr, e.scan);
    ghost var c := e.Carry();
    ReadsOn(e.g, e.size, e.bd.readSize, e.bd.mem, e.currAddr, e.scan);
    e.EndIs();
    ok, frag := e.ExtractFragment();
    match r
    case Fault =>
    case Bad(_) =>
    case AtEnd =>
      EmptyNeverStalls(e.g.eff, e.align);
      MultipleAdd(|out|, 0, e.align);
      assert out + frag == out;
    case Good(_, d) =>
      assert out + c + d == e.scan.data;
      NextFragment(e.size, e.g.eff, e.align, out, c, d, frag, if |c + d| >= e.g.eff then e.Carry() else []);
  }

  /** What the installation pass does with an image `all` of `size` bytes, for a
      handler that fails after `patience` calls. */
  ghost predicate Installs(all: Option<Bytes>, size: nat, eff: nat, align: nat, patience: nat,
                           o: Outcome, trace: seq<Event>)
    requires eff > 0 && align > 0
  {
    && Aligned(trace, align) && o != Corrupt && |trace| <= patience && InOrder(trace, o == Done)
    && (o == ReadFailed ==> all.None?) && (o == HandlerFailed ==> |trace| == patience)
    && (all.Some? ==> Received(trace) <= all.value || all.value <= Received(trace))
    && (o == Done ==> all.Some? && |all.value| == size <= |Received(trace)| < size + align)
    && (o == Done ==> !Stalls(size, eff, align))
    && (all.Some? && Stalls(size, eff, align) ==> o == HandlerFailed)
    && (all.Some? && !Stalls(size, eff, align) && patience >= size + 3 ==> o == Done)
  }

  /** The installation pass. */
  method DeliverImage(e: Fragments, patience: nat) returns (o: Outcome, trace: seq<Event>)
    requires e.Shape() && e.Ready() && e.Carry() == [] && e.scan == START
    modifies e, e.fragBuf
    ensures Installs(old(Rest(e)), e.size, e.g.eff, e.align, patience, o, trace)
  {
    hide Multiple, Realigned, ReadBlock, ReadAll, Stalls, Received, Codec.Lawful, Codec.Implements, Fragments.Carry,
         InOrder;
    trace := [];
    ReceivedSnoc([], Start);
    FirstInOrder();
    EmptyUnderway(e);
    if patience == 0 {
      return HandlerFailed, trace;
    }
    trace := [Start];
    assert [] + [Start] == [Start];
    var fragPos, first := 0, true;
    while first || fragPos < e.size
      invariant fragPos == |Received(trace)| && Aligned(trace, e.align) && 0 < |trace| <= patience
      invariant InOrder(trace, false)
      invariant Rest(e) == old(Rest(e)) && (first ==> fragPos == 0)
      invariant first || fragPos < e.size ==> Underway(e, Received(trace))
      invariant !first && fragPos >= e.size ==> Delivered(e, Received(trace))
      invariant || |trace| <= 1 + |e.scan.data| || Stalls(e.size, e.g.eff, e.align)
                || (!first && e.size == 0 && |trace| <= 2)
      decreases patience - |trace|, |e.bd.mem| - e.currAddr
    {
      ReadExtends(e.g, e.size, e.bd.readSize, e.bd.mem, e.currAddr, e.scan);
      var ok, frag := NextPart(e, Received(trace));
      if !ok {
        return ReadFailed, trace;
      }
      if !e.ignore {
        if |trace| == patience {
          return HandlerFailed, trace;
        }
        ReadExtends(e.g, e.size, e.bd.readSize, e.bd.mem, e.currAddr, e.scan);
        ReceivedSnoc(trace, Fragment(frag));
        InOrderSnoc(trace, Fragment(frag));
        trace := trace + [Fragment(frag)];
        fragPos := fragPos + e.actualSize;
        first := false;
      }
    }
    ReadsNothing(e.g, e.size, e.bd.readSize, e.bd.mem, e.currAddr, e.scan);
    if |trace| == patience {
      return HandlerFailed, trace;
    }
    ReceivedSnoc(trace, Finish);
    InOrderSnoc(trace, Finish);
    return Done, trace + [Finish];
  }

  lemma EmptyUnderway(e: Fragments)
    requires e.Shape() && e.Ready() && e.Carry() == [] && e.scan == START
    ensures Underway(e, []) && Received([]) == [] && Multiple(0, e.align)
  {
    assert [] + e.Carry() == [];
  }

  // ---- fota_candidate_iterate_image ------------------------------------------------------

  /** What the candidate's header says about its image. */
  datatype Header = Header(size: nat, digest: Bytes)

  /** Validation, unless it is to be skipped, then installation. `all` is what the
      storage holds as read by the format. */
  method Iterate(g: Geometry, layout: Layout, bd: Device, h: Header, hash: Bytes -> Bytes, validate: bool,
                 alignment: nat, patience: nat) returns (o: Outcome, trace: seq<Event>)
    requires g.Valid() && g.codec.Implements(layout) && bd.readSize > 0
    requires Multiple(g.page, bd.readSize) && Multiple(g.data, bd.readSize)
    ensures var all := ReadAll(g, h.size, bd.readSize, bd.mem, g.data, START);
            var align := if alignment == 0 then 1 else alignment;
            var checked := all.Some? && hash(all.value) == h.digest;
            && (validate && trace != [] ==> checked)
            && (validate && !checked ==> o == if all.None? then ReadFailed else Corrupt)
            && (!validate || checked ==> Installs(all, h.size, g.eff, align, patience, o, trace))
  {
    hide Multiple, Installs, ReadAll;
    if validate {
      var v := new Fragments(g, layout, bd, h.size, 1);
      var ok, hashed := HashImage(v);
      if !ok {
        return ReadFailed, [];
      }
      if hash(hashed) != h.digest {
        return Corrupt, [];
      }
    }
    var e := new Fragments(g, layout, bd, h.size, if alignment == 0 then 1 else alignment);
    o, trace := DeliverImage(e, patience);
  }
}
