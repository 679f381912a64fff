/** The buffering between a fragmented patch and the patch engine (fota_delta.c), and
    the loop that drives it (fota.c, fota_on_fragment). The engine itself is not part
    of the model: it may ask for any reads and seeks and make any writes. */
module Delta {
  import opened Bytes

  /** What the engine does next; it is done when there is nothing left to do. */
  datatype Action = ReadPatch(n: nat) | WriteNew(data: Bytes) | SeekOld | Break

  /** next_event_to_post */
  datatype Posting = StartPatch | ReadDone | WriteDone | SeekDone

  datatype Status = Success | MoreNeeded | Error

  predicate WritesSomething(script: seq<Action>) {
    forall i :: 0 <= i < |script| && script[i].WriteNew? ==> script[i].data != []
  }

  /** The sizes of the reads among the engine's first `pos` actions. */
  function Asked(script: seq<Action>, pos: nat): seq<nat>
    requires pos <= |script|
  {
    if pos == 0 then []
    else Asked(script, pos - 1) + (if script[pos - 1].ReadPatch? then [script[pos - 1].n] else [])
  }

  lemma AskedNext(script: seq<Action>, pos: nat)
    requires pos < |script|
    ensures Asked(script, pos + 1)
         == if script[pos].ReadPatch? then Asked(script, pos) + [script[pos].n] else Asked(script, pos)
  {}

  /** What the engine's first `pos` actions have written. */
  function Output(script: seq<Action>, pos: nat): Bytes
    requires pos <= |script|
  {
    if pos == 0 then []
    else Output(script, pos - 1) + (if script[pos - 1].WriteNew? then script[pos - 1].data else [])
  }

  lemma OutputNext(script: seq<Action>, pos: nat)
    requires pos < |script|
    ensures Output(script, pos + 1)
         == if script[pos].WriteNew? then Output(script, pos) + script[pos].data else Output(script, pos)
  {}

  /** The sizes of the completed reads, and of the unfinished one, if there is one. */
  function Served(got: seq<Bytes>, unfinished: bool, n: nat): seq<nat> {
    seq(|got|, i requires 0 <= i < |got| => |got[i]|) + (if unfinished then [n] else [])
  }

  lemma ServedNext(got: seq<Bytes>, part: Bytes, n: nat)
    ensures Served(got, true, n) == Served(got, false, 0) + [n]
    ensures |part| == n ==> Served(got + [part], false, n) == Served(got, true, n)
    ensures Served(got, false, n) == Served(got, false, 0)
  {}

  /** The payload as the engine sees it: completed reads, the unfinished one, and
      what waits in the fragment. */
  function Flow(got: seq<Bytes>, partial: Bytes, rest: Bytes): Bytes {
    Concat(got) + partial + rest
  }

  lemma FlowRead(got: seq<Bytes>, rest: Bytes, copy: nat)
    requires copy <= |rest|
    ensures Flow(got, rest[..copy], rest[copy..]) == Flow(got, [], rest)
    ensures Flow(got + [rest[..copy]], [], rest[copy..]) == Flow(got, [], rest)
  {
    ConcatSnoc(got, rest[..copy]);
    assert rest == rest[..copy] + rest[copy..];
  }

  lemma FlowFeed(got: seq<Bytes>, p: Bytes, f: Bytes, copy: nat)
    requires copy <= |f|
    ensures Flow(got, p + f[..copy], f[copy..]) == Flow(got, p, []) + f
    ensures Flow(got + [p + f[..copy]], [], f[copy..]) == Flow(got, p, []) + f
    ensures Flow(got, [], f) == Flow(got, [], []) + f
  {
    ConcatSnoc(got, p + f[..copy]);
    assert f == f[..copy] + f[copy..];
  }

  method Append(buf: array<byte>, at: nat, part: Bytes)
    requires at + |part| <= buf.Length
    modifies buf
    ensures buf[..at + |part|] == old(buf[..at]) + part
  {
    CopyInto(buf, at, part);
  }

  method NewBuffer(n: nat, part: Bytes) returns (buf: array<byte>)
    requires |part| <= n
    ensures fresh(buf) && buf.Length == n && buf[..|part|] == part
  {
    buf := new byte[n];
    CopyInto(buf, 0, part);
  }

  class Stream {
    const script: seq<Action>
    var pos: nat                  // actions the engine has taken
    var post: Posting
    var readBuf: array<byte>      // the engine's buffer of the current read
    var remaining: nat
    var frag: Bytes               // incoming fragment
    var fragOffset: nat
    var out: Bytes                // outgoing fragment
    var outOffset: nat
    var got: seq<Bytes>           // the buffers the engine was given, complete
    ghost var fed: Bytes          // the payload handed over so far
    ghost var taken: Bytes        // what has been taken out

    /** Nothing is lost, repeated or reordered on the way in and on the way out, and
        an unfinished read has consumed the fragment. */
    ghost predicate Valid()
      reads this, readBuf
    {
      && pos <= |script|
      && remaining <= readBuf.Length && fragOffset <= |frag| && outOffset <= |out|
      && Flow(got, Partial(), frag[fragOffset..]) == fed
      && Asked(script, pos) == Served(got, remaining > 0, readBuf.Length)
      && taken + out[outOffset..] == Output(script, pos)
      && (post == ReadDone && remaining == 0 ==> got != [] && readBuf[..] == got[|got| - 1])
      && (remaining > 0 ==> post == ReadDone && fragOffset == |frag|)
      && (post != WriteDone ==> outOffset == |out|)
    }

    /** What an unfinished read has got so far. */
    ghost function Partial(): Bytes
      reads this, readBuf
      requires remaining <= readBuf.Length
    {
      if remaining > 0 then readBuf[..readBuf.Length - remaining] else []
    }

    /** The engine has written nothing, and waits for that to be taken out. */
    ghost predicate Stalled()
      reads this
    {
      post == WriteDone && out == [] && 0 < pos <= |script| && script[pos - 1] == WriteNew([])
    }

    /** Between two calls: a write is under way, or a read is, for lack of payload, or
        the engine is done, or it has not begun. */
    ghost predicate Waiting()
      reads this, readBuf
    {
      && Valid()
      && (if post == WriteDone then outOffset < |out| || pos == |script| || Stalled()
          else pos == |script| || remaining > 0 || (pos == 0 && frag == []))
    }

    /** fota_delta_start */
    constructor (script: seq<Action>)
      ensures Waiting() && this.script == script && fresh(readBuf)
      ensures fed == [] && taken == [] && frag == [] && out == [] && remaining == 0 && fragOffset == outOffset == 0
    {
      this.script, pos, post, remaining := script, 0, StartPatch, 0;
      frag, fragOffset, out, outOffset := [], 0, [], 0;
      assert Served([], false, 0) == [];
      fed, got, taken := [], [], [];
      readBuf := new byte[0];
    }

    /** read_patch: what there is of `n` bytes goes into a buffer of the engine. */
    method Read(n: nat) returns (done: bool)
      requires Valid() && remaining == 0 && outOffset == |out| && pos < |script| && script[pos] == ReadPatch(n)
      modifies `pos, `readBuf, `remaining, `fragOffset, `post, `got
      ensures Valid() && fresh(readBuf) && readBuf.Length == n && post == ReadDone && pos == old(pos) + 1
      ensures old(fragOffset) <= fragOffset && readBuf[..n - remaining] == frag[old(fragOffset)..fragOffset]
      ensures done <==> n <= |frag| - old(fragOffset)
      ensures done <==> remaining == 0
      ensures done ==> fragOffset == old(fragOffset) + n && got == old(got) + [frag[old(fragOffset)..fragOffset]]
      ensures !done ==> got == old(got)
    {
      hide Flow, Served, Asked, Output;
      AskedNext(script, pos);
      OutputNext(script, pos);
      pos := pos + 1;
      ServedNext(got, [], readBuf.Length);
      var rest := frag[fragOffset..];
      var copy := Min(n, |rest|);
      FlowRead(got, rest, copy);
      ServedNext(got, rest[..copy], n);
      readBuf := NewBuffer(n, rest[..copy]);
      remaining := n - copy;
      fragOffset := fragOffset + copy;
      assert rest[copy..] == frag[fragOffset..];
      post := ReadDone;
      done := n <= |rest|;
      assert rest[..copy] == frag[old(fragOffset)..fragOffset];
      if done {
        assert readBuf[..] == readBuf[..n] == rest[..copy];
        got := got + [readBuf[..]];
      }
    }

    /** do_patching: the engine goes on until it has to wait, is done, or fails. It comes
        back for no other reason (bspatch.c, ARM_BS_ProcessPatchEvent), so that the loop
        condition of do_patching, which looks at the fragment, never decides. */
    method DoPatching() returns (status: Status)
      requires Valid() && remaining == 0 && outOffset == |out|
      modifies this
      ensures Valid() && (readBuf == old(readBuf) || fresh(readBuf))
      ensures frag == old(frag) && fed == old(fed) && taken == old(taken)
      ensures old(pos) <= pos && (pos == old(pos) ==> pos == |script| && out == old(out) && outOffset == |out|)
      ensures status != MoreNeeded && (status == Success ==> Waiting())
      ensures status == Error ==> pos > 0 && script[pos - 1] == Break
    {
      hide Flow, Served, Asked, Output;
      while pos < |script|
        invariant Valid() && remaining == 0 && outOffset == |out| && old(pos) <= pos
        invariant readBuf == old(readBuf) || fresh(readBuf)
        invariant frag == old(frag) && fed == old(fed) && taken == old(taken)
        invariant pos == old(pos) ==> out == old(out)
        decreases |script| - pos
      {
        AskedNext(script, pos);
        OutputNext(script, pos);
        match script[pos]
        case ReadPatch(n) =>
          var done := Read(n);
          if !done {
            return Success;
          }
        case WriteNew(data) =>
          pos := pos + 1;
          out, outOffset, post := data, 0, WriteDone;
          return Success;
        case SeekOld =>
          pos := pos + 1;
          post := SeekDone;
        case Break =>
          pos := pos + 1;
          return Error;
      }
      return Success;
    }

    /** fota_delta_new_payload_frag, called once the fragment before is used up. */
    method NewPayload(f: Bytes) returns (status: Status)
      requires Waiting() && fragOffset == |frag| && outOffset == |out|
      modifies this, readBuf
      ensures Valid() && (readBuf == old(readBuf) || fresh(readBuf))
      ensures frag == f && fed == old(fed) + f && taken == old(taken) && old(pos) <= pos
      ensures status != Error ==> Waiting()
      ensures status == MoreNeeded ==> remaining > 0
      ensures status == Error ==> pos > 0 && script[pos - 1] == Break
    {
      hide Flow, Served, Output;
      TakeIn(f);
      if remaining == 0 {
        status := DoPatching();
      } else {
        status := MoreNeeded;
      }
    }

    /** What there is of the new fragment completes an unfinished read. */
    method TakeIn(f: Bytes)
      requires Waiting() && fragOffset == |frag| && outOffset == |out|
      modifies `frag, `fragOffset, `remaining, `fed, `got, readBuf
      ensures Valid() && frag == f && fed == old(fed) + f && old(pos) <= pos
      ensures old(remaining) > 0 ==>
                && fragOffset == Min(|f|, old(remaining)) && remaining == old(remaining) - fragOffset
                && readBuf[..readBuf.Length - remaining] == old(readBuf[..readBuf.Length - remaining]) + f[..fragOffset]
    {
      hide Flow, Served, Asked, Output;
      ghost var p := Partial();
      assert frag[fragOffset..] == [];
      var copy := 0;
      if post == ReadDone && remaining > 0 {
        copy := Min(|f|, remaining);
        FlowFeed(got, p, f, copy);
        Append(readBuf, readBuf.Length - remaining, f[..copy]);
        remaining := remaining - copy;
        if remaining == 0 {
          ServedNext(got, p + f[..copy], readBuf.Length);
          assert readBuf[..] == readBuf[..readBuf.Length] == p + f[..copy];
          got := got + [readBuf[..]];
        }
      } else {
        FlowFeed(got, p, f, 0);
        assert f[0..] == f;
      }
      frag, fragOffset, fed := f, copy, fed + f;
    }

    /** fota_delta_get_next_fw_frag */
    method GetNext(max: nat) returns (status: Status, piece: Bytes)
      requires Waiting() && max > 0
      modifies this
      ensures Valid() && (readBuf == old(readBuf) || fresh(readBuf)) && |piece| <= max
      ensures frag == old(frag) && fed == old(fed) && taken == old(taken) + piece
      ensures status == Success ==> Waiting()
      ensures status != Success ==> pos > 0 && script[pos - 1] == Break
      ensures status == Success && piece == [] ==>
                outOffset == |out| && (pos == |script| || fragOffset == |frag| || Stalled())
      ensures piece != [] ==> pos > old(pos) || (pos == old(pos) && |out| - outOffset < old(|out| - outOffset))
    {
      hide Flow, Served, Output;
      status, piece := Success, [];
      if out != [] && post == WriteDone {
        var copy := Min(max, |out| - outOffset);
        piece := out[outOffset..outOffset + copy];
        assert out[outOffset..] == piece + out[outOffset + copy..];
        outOffset, taken := outOffset + copy, taken + piece;
        if outOffset >= |out| {
          status := DoPatching();
        }
      }
    }
  }

  /** fota_on_fragment for a delta payload: one fragment in, then all firmware
      fragments out. */
  method OnFragment(s: Stream, f: Bytes, max: nat) returns (ok: bool, out: Bytes)
    requires s.Waiting() && s.fragOffset == |s.frag| && s.outOffset == |s.out| && max > 0
    modifies s, s.readBuf
    ensures s.Valid() && (s.readBuf == old(s.readBuf) || fresh(s.readBuf))
    ensures s.fed == old(s.fed) + f && s.taken == old(s.taken) + out
    ensures ok ==> s.Waiting() && s.outOffset == |s.out|
    ensures ok ==> s.pos == |s.script| || s.fragOffset == |s.frag| || s.Stalled()
    ensures !ok ==> s.pos > 0 && s.script[s.pos - 1] == Break
  {
    hide Flow, Served, Output;
    out := [];
    var status := s.NewPayload(f);
    if status != Success {
      return status == MoreNeeded, out;
    }
    while true
      invariant s.Waiting() && s.fed == old(s.fed) + f && s.taken == old(s.taken) + out
      invariant s.readBuf == old(s.readBuf) || fresh(s.readBuf)
      decreases |s.script| - s.pos, |s.out| - s.outOffset
    {
      var piece;
      status, piece := s.GetNext(max);
      out := out + piece;
      if status != Success || piece == [] {
        return status == Success, out;
      }
    }
  }

  /** A whole patch: however it is cut up and however the engine reads, the buffers it is
      `given` are the payload from its first byte on, in order, an unfinished one has
      got all the rest, and everything the engine has written has been taken out. The one
      exception, exactly, is an engine that waits behind an empty write in front of bytes it
      has not read (`lost`), since an empty write is taken for the end of the output. The
      engine of the client makes no empty writes. */
  method Patch(script: seq<Action>, frags: seq<Bytes>, max: nat)
    returns (ok: bool, lost: bool, out: Bytes, given: seq<Bytes>, s: Stream)
    requires max > 0
    ensures fresh(s) && s.Valid() && s.script == script && out == s.taken && given == s.got
    ensures Concat(given) <= Concat(frags) && Asked(script, s.pos) == Served(given, s.remaining > 0, s.readBuf.Length)
    ensures out <= Output(script, s.pos) && (ok ==> out == Output(script, s.pos))
    ensures !ok ==> (s.pos > 0 && script[s.pos - 1] == Break) || (s.pos == |script| && s.fragOffset < |s.frag|)
    ensures ok && !lost && s.pos < |script| ==> Concat(given) + s.Partial() == Concat(frags)
    ensures lost <==> ok && s.Stalled() && s.fragOffset < |s.frag| && s.pos < |script|
    ensures lost ==> Concat(given) < Concat(frags)
    ensures WritesSomething(script) ==> !lost
  {
    hide Flow, Served, Concat, Asked, Stream.Partial, Output;
    s := new Stream(script);
    out, ok := [], true;
    var i := 0;
    ConcatEmpty(frags);
    while i < |frags| && ok && s.fragOffset == |s.frag|
      invariant i <= |frags| && fresh(s) && fresh(s.readBuf) && s.Valid() && s.script == script
      invariant !ok ==> s.pos > 0 && script[s.pos - 1] == Break
      invariant ok ==> s.Waiting() && s.outOffset == |s.out|
      invariant ok ==> s.pos == |script| || s.fragOffset == |s.frag| || s.Stalled()
      invariant s.fed == Concat(frags[..i]) && out == s.taken
      decreases |frags| - i
    {
      assert frags[..i + 1] == frags[..i] + [frags[i]];
      ConcatSnoc(frags[..i], frags[i]);
      var piece;
      ok, piece := OnFragment(s, frags[i], max);
      out := out + piece;
      i := i + 1;
    }
    if ok && i < |frags| && s.pos == |script| {
      ok := false;
    }
    lost := ok && s.fragOffset < |s.frag| && s.pos < |script|;
    given := s.got;
    FlowPrefix(given, s.Partial(), s.frag[s.fragOffset..], frags, i);
  }

  lemma ConcatEmpty(frags: seq<Bytes>)
    ensures Concat(frags[..0]) == []
  {}

  lemma FlowPrefix(got: seq<Bytes>, p: Bytes, rest: Bytes, frags: seq<Bytes>, i: nat)
    requires i <= |frags| && Flow(got, p, rest) == Concat(frags[..i])
    ensures Concat(got) <= Concat(frags)
    ensures i == |frags| && rest == [] ==> Concat(got) + p == Concat(frags)
    ensures rest != [] ==> Concat(got) < Concat(frags)
  {
    ConcatAppend(frags[..i], frags[i..]);
    assert frags == frags[..i] + frags[i..];
    assert Concat(got) + p + [] == Concat(got) + p;
  }
}
