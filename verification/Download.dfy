/** Fetching the payload in aligned blocks (fota_source_profile_lite.c,
    fota_source_firmware_request_fragment and data_req_callback; fota.c,
    fota_on_fragment). */
module Download {
  import opened Bytes
  import opened Campaign
  import F = CandidateFormat

  /** A block-wise server: block `num` of blocks of `max` bytes, the last one short
      (section 2.2 of RFC 7959). */
  function ServeBlock(payload: Bytes, num: nat, max: nat): Bytes
    requires num * max <= |payload|
  {
    payload[num * max..Min(num * max + max, |payload|)]
  }

  /** fota_source_config */
  datatype Source = Source(max: nat, unaligned: bool)

  /** The address asked for, and how much in front of `offset` that is. */
  method Request(src: Source, offset: nat) returns (at: nat, extra: nat)
    requires src.max > 0
    ensures at + extra == offset && extra < src.max
    ensures src.unaligned ==> extra == 0
    ensures !src.unaligned ==> at == offset / src.max * src.max
  {
    extra := 0;
    if !src.unaligned {
      extra := offset % src.max;
    }
    at := offset - extra;
    assert offset == src.max * (offset / src.max) + offset % src.max;
  }

  /** The number of the block that holds byte `at`, and the end of that block. */
  function BlockOf(at: nat, max: nat): nat
    requires max > 0
  {
    at / max
  }

  function BlockEnd(at: nat, max: nat): nat
    requires max > 0
  {
    (at / max + 1) * max
  }

  /** One request and its answer, trimmed: the next bytes of the payload. */
  method Fetch(src: Source, payload: Bytes, offset: nat) returns (frag: Bytes)
    requires src.max > 0 && offset < |payload|
    ensures frag != [] && |frag| <= src.max && offset + |frag| <= |payload|
    ensures frag == payload[offset..offset + |frag|]
    ensures !src.unaligned ==> offset + |frag| == Min(BlockEnd(offset, src.max), |payload|)
  {
    hide BlockEnd, ServeBlock;
    var at, extra := Request(src, offset);
    var buffer := Answer(src, payload, offset, at);
    Trimmed(payload, at, Min(at + src.max, |payload|), extra);
    frag := buffer[extra..];
  }

  /** What the server sends for the block at `at`. */
  method Answer(src: Source, payload: Bytes, offset: nat, at: nat) returns (buffer: Bytes)
    requires src.max > 0 && at <= offset < |payload| && (!src.unaligned ==> at == offset / src.max * src.max)
    ensures buffer == payload[at..Min(at + src.max, |payload|)]
    ensures !src.unaligned ==> BlockEnd(offset, src.max) == at + src.max
  {
    hide BlockEnd, ServeBlock;
    if src.unaligned {
      buffer := payload[at..Min(at + src.max, |payload|)];
    } else {
      AlignedBlock(payload, offset, at, src.max);
      buffer := ServeBlock(payload, offset / src.max, src.max);
    }
  }

  lemma AlignedBlock(payload: Bytes, offset: nat, at: nat, max: nat)
    requires max > 0 && at == offset / max * max <= offset < |payload|
    ensures BlockEnd(offset, max) == at + max && offset / max * max <= |payload|
    ensures ServeBlock(payload, offset / max, max) == payload[at..Min(at + max, |payload|)]
  {
    var num := offset / max;
    assert (num + 1) * max == num * max + max;
  }

  lemma Trimmed(payload: Bytes, at: nat, end: nat, extra: nat)
    requires at + extra <= end <= |payload|
    ensures payload[at..end][extra..] == payload[at + extra..end]
  {}

  /** A whole download from any offset: exactly the rest of the payload, in order, and
      every block from the one at the offset to the last one asked for once. */
  method FetchRest(src: Source, payload: Bytes, offset: nat) returns (received: Bytes, blocks: seq<nat>)
    requires src.max > 0 && offset <= |payload|
    ensures received == payload[offset..]
    ensures !src.unaligned && offset < |payload| ==>
              && |blocks| == BlockOf(|payload| - 1, src.max) - BlockOf(offset, src.max) + 1
              && forall i :: 0 <= i < |blocks| ==> blocks[i] == BlockOf(offset, src.max) + i
  {
    hide BlockOf, BlockEnd;
    received, blocks := [], [];
    var at := offset;
    while at < |payload|
      invariant offset <= at <= |payload| && received == payload[offset..at]
      invariant forall i :: 0 <= i < |blocks| && !src.unaligned ==> blocks[i] == BlockOf(offset, src.max) + i
      invariant !src.unaligned && at < |payload| ==> |blocks| == BlockOf(at, src.max) - BlockOf(offset, src.max)
      invariant !src.unaligned && at == |payload| && offset < |payload| ==>
                  |blocks| == BlockOf(|payload| - 1, src.max) - BlockOf(offset, src.max) + 1
    {
      var frag := Fetch(src, payload, at);
      var num := BlockOf(at, src.max);
      if !src.unaligned {
        NextBlock(at, |frag|, |payload|, src.max);
      }
      assert payload[offset..at + |frag|] == payload[offset..at] + frag;
      received, blocks := received + frag, blocks + [num];
      at := at + |frag|;
    }
  }

  lemma NextBlock(at: nat, n: nat, size: nat, max: nat)
    requires max > 0 && at < size && n > 0 && at + n == Min(BlockEnd(at, max), size)
    ensures at + n < size ==> BlockOf(at + n, max) == BlockOf(at, max) + 1
    ensures at + n == size ==> BlockOf(size - 1, max) == BlockOf(at, max)
  {
    var q := at / max;
    assert at == q * max + at % max by { assert at == max * q + at % max; }
    assert (q + 1) * max == q * max + max;
    if at + n < size {
      DivModUnique(at + n, max, q + 1, 0);
    } else {
      DivModUnique(size - 1, max, q, size - 1 - q * max);
    }
  }

  /** The download of a running session from a source that goes on with what is on
      storage: it ends, and unless storage fails the stored blocks and the hash are those of
      the whole payload. */
  method FetchInto(src: Source, source: Bytes, session: Session) returns (status: Status)
    requires session.Shape() && session.Running() && session.payloadOffset < session.u.size && src.max > 0
    requires |source| == |session.payload| == session.u.size
    requires source[session.payloadOffset..] == session.payload[session.payloadOffset..]
    modifies session, session.writer, session.writer.bd, session.writer.pageBuf
    ensures status != More && (status == Finished ==> session.payload == old(session.payload))
    ensures status == Finished ==> session.writer.scan.data == session.hashed == session.payload
    ensures status == Failed ==> session.Stuck()
    ensures session.writer.Paid(status == Finished,
                                old(session.writer.bd.power + F.End(session.u.area.g, session.writer.pages)))
  {
    hide Session.Shape, Session.Running, Underway;
    status := More;
    ghost var from := session.payloadOffset;
    ghost var before := session.writer.bd.power + F.End(session.u.area.g, session.writer.pages);
    session.RunningFacts();
    while status == More
      invariant status != Failed ==> session.Shape() && session.payload == old(session.payload)
      invariant status == More ==> session.Running() && from <= session.payloadOffset < session.u.size
      invariant status == Finished ==> session.writer.scan.data == session.hashed == session.payload
      invariant status == Failed ==> session.Stuck()
      invariant session.writer.Paid(status != Failed, before)
      decreases if status == More then session.u.size - session.payloadOffset else 0
    {
      var frag := Fetch(src, source, session.payloadOffset);
      SliceOfTail(source, session.payload, from, session.payloadOffset, session.payloadOffset + |frag|);
      status := session.OnFragment(frag);
    }
  }
}
