/** The repeated START, MANIFEST and ACTIVATE messages of the border router (libota.c):
    one shared buffer, one shared counter, several timers. */
module CriticalResend {
  import opened Bytes

  /** CRITICAL_MESSAGE_SEND_COUNT, OTA_ONE_FRAGMENT_WAITTIME_SECS, OTA_MULTICAST_INTERVAL
      and OTA_MISSING_FRAGMENT_FALLBACK_TIMEOUT. */
  datatype Timing = Timing(count: nat, wait: nat, interval: nat, fallback: nat)
  {
    predicate Valid() {
      2 <= count <= wait
    }

    /** OTA_RESEND_DELAY and OTA_START_RESEND_DELAY */
    function ResendDelay(): nat
      requires Valid()
    {
      wait / count
    }

    function StartDelay(): nat
      requires Valid()
    {
      fallback / count
    }
  }

  /** The values of ordinary and of small networks. */
  const ORDINARY := Timing(3, 3600, 60, 1800)
  const SMALL := Timing(2, 120, 5, 120)

  lemma BothValid()
    ensures ORDINARY.Valid() && SMALL.Valid()
    ensures ORDINARY.ResendDelay() == 1200 && SMALL.ResendDelay() == 60
  {}

  /** What the socket buffer holds. */
  datatype Message = Start(info: Bytes) | Manifest(info: Bytes) | Activate(delay: nat) | Other

  /** One transmission. */
  datatype Copy = Copy(at: nat, msg: Message)

  /** One fragment that was sent. */
  datatype Sending = Sending(id: nat, at: nat)

  /** The router. `ending` says that the END FRAGMENTS timer runs, `copies` lists the
      transmissions of the last critical message, `sent` the fragments of the last delivery,
      and `ends` counts the END FRAGMENTS messages behind them. */
  datatype Router = Router(session: bool, pulling: bool, complete: bool, delivering: bool, ending: bool,
                           nextId: nat, fragments: nat, buf: Message, counter: nat, deliverAt: Option<nat>,
                           manifestAt: Option<nat>, activateAt: Option<nat>, copies: seq<Copy>, sent: seq<Sending>,
                           ends: nat)

  datatype Event =
    | ManifestCommand(info: Bytes)
    | ActivateCommand(delay: nat)
    | FirmwareCommand
    | Pulled(info: Bytes, fragments: nat)   // the image has been fetched and checked
    | DeliverTimer(works: bool)            // reading or sending a fragment may fail
    | ManifestTimer
    | ActivateTimer
    | EndTimer                             // after a delay with a random part
    | ServeFragment                        // a request is served from the shared buffer
    | DeleteSession

  /** ota_delete_process, which leaves the activation timer alone. */
  function Deleted(r: Router): Router {
    r.(session := false, pulling := false, complete := false, delivering := false, ending := false,
       deliverAt := None, manifestAt := None)
  }

  /** The first transmission of a critical message. */
  function First(r: Router, m: Message, now: nat): Router {
    r.(buf := m, counter := 0, copies := [Copy(now, m)])
  }

  /** A repetition sends what is in the buffer. */
  function Again(r: Router, now: nat): Router {
    r.(copies := r.copies + [Copy(now, r.buf)])
  }

  /** ota_border_router_manage_command: a session that exists is an error, which ends
      with the deletion of that session. */
  function Managed(t: Timing, r: Router, e: Event, now: nat): Router
    requires t.Valid()
  {
    var r1 := if e.ActivateCommand? then Deleted(r) else r;
    if r1.session then Deleted(r1)
    else
      var r2 := r1.(session := true, manifestAt := None, activateAt := None);
      match e
      case ManifestCommand(info) => First(r2, Manifest(info), now).(manifestAt := Some(now + t.interval))
      case ActivateCommand(delay) =>
        First(r2, Activate(if delay < t.wait then t.wait else delay), now).(activateAt := Some(now + t.interval))
      case _ => r2.(pulling := true)
  }

  /** modify_reboot_delay_from_socket */
  function Shortened(m: Message, cut: nat): Message {
    if m.Activate? && cut < m.delay then Activate(m.delay - cut) else m
  }

  function OnDeliverTimer(t: Timing, r: Router, works: bool, now: nat): Router
    requires t.Valid()
  {
    var r1 := r.(deliverAt := None);
    if !r.delivering then r1
    else if r.counter < t.count - 1 then
      var r2 := Again(r1.(counter := r.counter + 1), now);
      r2.(deliverAt := Some(now + if r2.counter < t.count - 1 then t.StartDelay() else t.interval))
    else if r.nextId <= r.fragments then
      var r2 := r1.(buf := Other, deliverAt := Some(now + t.interval));
      if works then r2.(nextId := r.nextId + 1, sent := r.sent + [Sending(r.nextId, now)]) else r2
    else r1.(delivering := false, ending := true)
  }

  function OnManifestTimer(t: Timing, r: Router, now: nat): Router
    requires t.Valid()
  {
    var r1 := r.(counter := r.counter + 1, manifestAt := None);
    var r2 := if r1.counter == 1 then Deleted(r1) else Again(r1, now);
    if r2.counter < t.count then r2.(manifestAt := Some(now + t.ResendDelay())) else r2
  }

  function OnActivateTimer(t: Timing, r: Router, now: nat): Router
    requires t.Valid()
  {
    var r1 := r.(counter := r.counter + 1, activateAt := None);
    var r2 := if r1.counter == 1 then r1 else Again(r1.(buf := Shortened(r1.buf, t.ResendDelay())), now);
    if r2.counter < t.count then r2.(activateAt := Some(now + t.ResendDelay())) else r2
  }

  /** One event at time `now`; a timer expires when it is due. */
  function Next(t: Timing, r: Router, e: Event, now: nat): Router
    requires t.Valid()
  {
    match e
    case ManifestCommand(_) => Managed(t, r, e, now)
    case ActivateCommand(_) => Managed(t, r, e, now)
    case FirmwareCommand => Managed(t, r, e, now)
    case Pulled(info, fragments) =>
      if !r.pulling then r
      else First(r, Start(info), now).(pulling := false, complete := true, delivering := true, nextId := 1, sent := [],
                                       ends := 0, fragments := fragments, deliverAt := Some(now + t.StartDelay()))
    case DeliverTimer(works) => if r.deliverAt == Some(now) then OnDeliverTimer(t, r, works, now) else r
    case ManifestTimer => if r.manifestAt == Some(now) then OnManifestTimer(t, r, now) else r
    case ActivateTimer => if r.activateAt == Some(now) then OnActivateTimer(t, r, now) else r
    case EndTimer => if r.ending then r.(ending := false, buf := Other, ends := r.ends + 1) else r
    case ServeFragment => if r.complete && !r.delivering then r.(buf := Other) else r
    case DeleteSession => Deleted(r)
  }

  // ---- What every event keeps ------------------------------------------------------------------

  function Max(a: nat, b: nat): nat {
    if a < b then b else a
  }

  /** Transmission number `k` of a critical message, after the first: a START is repeated as
      it is at equal distances; a MANIFEST too, but one interval later; so is an ACTIVATE,
      with a delay that is shorter by the time between the repetitions. */
  predicate IsRepeat(t: Timing, first: Copy, c: Copy, k: nat)
    requires t.Valid()
  {
    match first.msg
    case Start(_) => c == Copy(first.at + Span(k, t.StartDelay()), first.msg)
    case Manifest(_) => c == Copy(first.at + t.interval + Span(k, t.ResendDelay()), first.msg)
    case Activate(delay) =>
      && Span(k, t.ResendDelay()) < delay
      && c == Copy(first.at + t.interval + Span(k, t.ResendDelay()), Activate(delay - Span(k, t.ResendDelay())))
    case Other => false
  }

  /** The transmissions of a critical message are its repetitions, and not too many. */
  ghost predicate Timed(t: Timing, copies: seq<Copy>)
    requires t.Valid()
  {
    && |copies| <= t.count
    && (forall k :: 1 <= k < |copies| ==> IsRepeat(t, copies[0], copies[k], k))
    && (copies != [] && copies[0].msg.Activate? ==> copies[0].msg.delay >= t.wait)
  }

  /** The message whose transmissions are listed. */
  function Original(r: Router): Message {
    if r.copies == [] then Other else r.copies[0].msg
  }

  /** The fragments 1 to `n` have been sent, once each and in this order, not before `from`
      and at least one interval apart. */
  ghost predicate SentUpTo(t: Timing, sent: seq<Sending>, from: nat, n: nat) {
    && |sent| == n
    && forall k :: 0 <= k < n ==> sent[k].id == k + 1 && sent[k].at >= from + Span(k + 1, t.interval)
  }

  /** When the last START has been sent. */
  function Ready(t: Timing, r: Router): nat
    requires t.Valid() && r.copies != []
  {
    r.copies[0].at + Span(t.count - 1, t.StartDelay())
  }

  /** A delivery: its repetitions of START, then its fragments. */
  ghost predicate Delivery(t: Timing, r: Router)
    requires t.Valid()
  {
    && r.copies != [] && Original(r).Start? && r.nextId == |r.sent| + 1 <= r.fragments + 1
    && SentUpTo(t, r.sent, Ready(t, r), |r.sent|) && r.ends == (if r.delivering || r.ending then 0 else 1)
    && (if r.delivering then
          && r.counter < t.count && |r.copies| == r.counter + 1 && r.deliverAt.Some?
          && (if r.counter < t.count - 1 then
                && r.buf == Original(r) && r.sent == []
                && r.deliverAt.value == r.copies[0].at + Span(r.counter + 1, t.StartDelay())
              else r.deliverAt.value >= Ready(t, r) + Span(|r.sent| + 1, t.interval))
        else |r.copies| == t.count && |r.sent| == r.fragments)
  }

  ghost predicate Orderly(t: Timing, r: Router)
    requires t.Valid()
  {
    && Timed(t, r.copies)
    && (r.pulling || r.complete || r.delivering ==> r.session && r.manifestAt.None? && r.activateAt.None?)
    && (r.pulling ==> !r.complete) && (r.ending ==> r.complete && !r.delivering) && (r.delivering ==> r.complete)
    && (r.complete ==> Delivery(t, r))
    && (r.manifestAt.Some? ==> && Original(r).Manifest? && r.buf == Original(r) && r.activateAt.None?
                               && r.counter < t.count && |r.copies| == Max(1, r.counter)
                               && r.manifestAt.value == Due(t, r))
    && (r.activateAt.Some? ==> && Original(r).Activate? && r.counter < t.count && |r.copies| == Max(1, r.counter)
                               && r.buf == r.copies[|r.copies| - 1].msg && r.activateAt.value == Due(t, r))
  }

  /** When the repetitions of MANIFEST and ACTIVATE are due. */
  function Due(t: Timing, r: Router): nat
    requires t.Valid()
  {
    if r.copies == [] then 0 else r.copies[0].at + t.interval + Span(r.counter, t.ResendDelay())
  }

  lemma SpanFits(k: nat, t: Timing)
    requires t.Valid() && k < t.count
    ensures Span(k, t.ResendDelay()) + t.ResendDelay() <= t.wait && t.ResendDelay() > 0
  {
    SpanMono(k + 1, t.count, t.ResendDelay());
    assert t.wait == t.count * (t.wait / t.count) + t.wait % t.count;
  }

  lemma SpanSteps(k: nat, d: nat)
    ensures Span(0, d) == 0 && Span(1, d) == d && Span(k + 1, d) == Span(k, d) + d
  {}

  /** One repetition more. */
  lemma TimedNext(t: Timing, copies: seq<Copy>, c: Copy)
    requires t.Valid() && Timed(t, copies) && copies != [] && |copies| < t.count
    requires IsRepeat(t, copies[0], c, |copies|)
    ensures Timed(t, copies + [c])
  {
    hide IsRepeat;
  }

  lemma OrderlyActivate(t: Timing, r: Router, now: nat)
    requires t.Valid() && Orderly(t, r) && r.activateAt == Some(now)
    ensures Orderly(t, OnActivateTimer(t, r, now))
  {
    hide Span, Timed;
    SpanSteps(r.counter, t.ResendDelay());
    if r.counter > 0 {
      ActivateRepeats(t, r, now);
    }
  }

  lemma ActivateRepeats(t: Timing, r: Router, now: nat)
    requires t.Valid() && Orderly(t, r) && r.activateAt == Some(now) && r.counter > 0
    ensures var c := Copy(now, Shortened(r.buf, t.ResendDelay()));
            Timed(t, r.copies + [c])
  {
    hide Span, Delivery;
    var c := Copy(now, Shortened(r.buf, t.ResendDelay()));
    var k := r.counter;
    SpanFits(k, t);
    SpanSteps(k - 1, t.ResendDelay());
    assert k > 1 ==> IsRepeat(t, r.copies[0], r.copies[k - 1], k - 1);
    TimedNext(t, r.copies, c);
  }

  lemma OrderlyManifest(t: Timing, r: Router, now: nat)
    requires t.Valid() && Orderly(t, r) && r.manifestAt == Some(now)
    ensures Orderly(t, OnManifestTimer(t, r, now))
  {
    hide Span, Timed, Delivery;
    SpanSteps(r.counter, t.ResendDelay());
    if r.counter > 0 {
      TimedNext(t, r.copies, Copy(now, r.buf));
    }
  }

  lemma OrderlyDeliver(t: Timing, r: Router, works: bool, now: nat)
    requires t.Valid() && Orderly(t, r) && r.deliverAt == Some(now)
    ensures Orderly(t, OnDeliverTimer(t, r, works, now))
  {
    hide Span, Timed;
    if r.delivering {
      SpanSteps(r.counter + 1, t.StartDelay());
      SpanSteps(|r.sent| + 1, t.interval);
      SpanSteps(0, t.interval);
      if r.counter < t.count - 1 {
        TimedNext(t, r.copies, Copy(now, r.buf));
      }
    }
  }

  lemma OrderlyManaged(t: Timing, r: Router, e: Event, now: nat)
    requires t.Valid() && Orderly(t, r)
    ensures Orderly(t, Managed(t, r, e, now))
  {
    hide Span;
    SpanSteps(0, t.ResendDelay());
  }

  lemma OrderlyPulled(t: Timing, r: Router, info: Bytes, fragments: nat, now: nat)
    requires t.Valid() && Orderly(t, r)
    ensures Orderly(t, Next(t, r, Pulled(info, fragments), now))
  {
    hide Span;
    SpanSteps(0, t.StartDelay());
  }

  /** Every event, in any order, keeps the router orderly. */
  lemma OrderlyNext(t: Timing, r: Router, e: Event, now: nat)
    requires t.Valid() && Orderly(t, r)
    ensures Orderly(t, Next(t, r, e, now))
  {
    hide Span, Managed, OnDeliverTimer, OnManifestTimer, OnActivateTimer, Timed, SentUpTo, First;
    match e
    case DeliverTimer(works) =>
      if r.deliverAt == Some(now) {
        OrderlyDeliver(t, r, works, now);
      }
    case ManifestTimer =>
      if r.manifestAt == Some(now) {
        OrderlyManifest(t, r, now);
      }
    case ActivateTimer =>
      if r.activateAt == Some(now) {
        OrderlyActivate(t, r, now);
      }
    case Pulled(info, fragments) => OrderlyPulled(t, r, info, fragments, now);
    case EndTimer =>
    case ServeFragment =>
    case DeleteSession =>
    case _ => OrderlyManaged(t, r, e, now);
  }

  // ---- Whole runs ----------------------------------------------------------------------------------

  const SILENT := Router(false, false, false, false, false, 0, 0, Other, 0, None, None, None, [], [], 0)

  type Run = seq<(Event, nat)>

  function After(t: Timing, run: Run): Router
    requires t.Valid()
  {
    if run == [] then SILENT
    else Next(t, After(t, run[..|run| - 1]), run[|run| - 1].0, run[|run| - 1].1)
  }

  lemma {:induction false} OrderlyRun(t: Timing, run: Run)
    requires t.Valid()
    ensures Orderly(t, After(t, run))
  {
    if run != [] {
      OrderlyRun(t, run[..|run| - 1]);
      OrderlyNext(t, After(t, run[..|run| - 1]), run[|run| - 1].0, run[|run| - 1].1);
    }
  }

  /** Over every run: a critical message is sent at most so many times, and every time it is
      what it should be and comes when it should. */
  lemma ResendsAreRight(t: Timing, run: Run, k: nat)
    requires t.Valid() && 1 <= k < |After(t, run).copies|
    ensures var copies := After(t, run).copies;
            |copies| <= t.count && IsRepeat(t, copies[0], copies[k], k)
  {
    hide After, Delivery, IsRepeat;
    OrderlyRun(t, run);
  }

  /** All copies of an activation, whenever they arrive, ask for an activation within one
      interval, and none of them for an immediate one. */
  lemma ActivationTogether(t: Timing, run: Run, i: nat)
    requires t.Valid() && i < |After(t, run).copies| && After(t, run).copies[0].msg.Activate?
    ensures var copies := After(t, run).copies;
            var due := copies[0].at + copies[0].msg.delay;
            && copies[i].msg.Activate? && copies[i].msg.delay > 0
            && due <= copies[i].at + copies[i].msg.delay <= due + t.interval
  {
    hide After, Span, Timing.ResendDelay;
    OrderlyRun(t, run);
    if i > 0 {
      ResendsAreRight(t, run, i);
    }
  }

  /** What may happen without disturbing a message that is being repeated. */
  predicate Quiet(e: Event) {
    e.DeliverTimer? || e.ManifestTimer? || e.ActivateTimer? || e.EndTimer? || e.ServeFragment?
  }

  predicate AllQuiet(run: Run) {
    forall i :: 0 <= i < |run| ==> Quiet(run[i].0)
  }

  /** The repetitions of the message sent first as `c` are complete, or the next one is due. */
  ghost predicate Repeating(t: Timing, r: Router, c: Copy)
    requires t.Valid()
  {
    && r.copies != [] && r.copies[0] == c
    && (|r.copies| < t.count ==>
          match c.msg
          case Start(_) => r.delivering && r.deliverAt.Some?
          case Manifest(_) => r.manifestAt.Some?
          case Activate(_) => r.activateAt.Some?
          case Other => false)
  }

  lemma RepeatingNext(t: Timing, r: Router, c: Copy, e: Event, now: nat)
    requires t.Valid() && Orderly(t, r) && Repeating(t, r, c) && Quiet(e)
    ensures Repeating(t, Next(t, r, e, now), c)
  {
    hide Span, SentUpTo, Timed;
  }

  lemma {:induction false} RepeatingRun(t: Timing, front: Run, c: Copy, rest: Run)
    requires t.Valid() && Repeating(t, After(t, front), c) && AllQuiet(rest)
    ensures Repeating(t, After(t, front + rest), c)
  {
    hide Repeating, Orderly, Next;
    if rest == [] {
      assert front + rest == front;
    } else {
      var less, last := rest[..|rest| - 1], rest[|rest| - 1];
      RepeatingRun(t, front, c, less);
      assert (front + rest)[..|front + rest| - 1] == front + less;
      OrderlyRun(t, front + less);
      RepeatingNext(t, After(t, front + less), c, last.0, last.1);
    }
  }

  /** An activation, whenever it is asked for, is sent at once, with the delay asked for or
      the least one there is, if that is longer; and then as often as it should be, unless
      another command or the deletion of the session comes in between. */
  lemma ActivationIsSent(t: Timing, front: Run, delay: nat, now: nat, rest: Run)
    requires t.Valid() && AllQuiet(rest)
    ensures var r := After(t, front + [(ActivateCommand(delay), now)] + rest);
            && r.copies != [] && r.copies[0].at == now && r.copies[0].msg.Activate?
            && r.copies[0].msg.delay >= delay && r.copies[0].msg.delay >= t.wait
            && (r.copies[0].msg.delay == delay || r.copies[0].msg.delay == t.wait)
            && (r.activateAt.None? ==> |r.copies| == t.count)
  {
    var cmd := (ActivateCommand(delay), now);
    AfterCommand(t, front, cmd);
    OrderlyRun(t, front + [cmd] + rest);
    RepeatingRun(t, front + [cmd], Copy(now, Activate(Max(delay, t.wait))), rest);
  }

  /** A manifest that finds no session is sent as it is, and repeated likewise; one that finds
      a session ends that and sends nothing. */
  lemma ManifestIsSent(t: Timing, front: Run, info: Bytes, now: nat, rest: Run)
    requires t.Valid() && AllQuiet(rest)
    ensures !After(t, front).session ==>
              var r := After(t, front + [(ManifestCommand(info), now)] + rest);
              && r.copies != [] && r.copies[0] == Copy(now, Manifest(info))
              && (r.manifestAt.None? ==> |r.copies| == t.count)
    ensures After(t, front).session ==>
              var r := After(t, front + [(ManifestCommand(info), now)]);
              !r.session && r.copies == After(t, front).copies
  {
    var cmd := (ManifestCommand(info), now);
    AfterCommand(t, front, cmd);
    if !After(t, front).session {
      OrderlyRun(t, front + [cmd] + rest);
      RepeatingRun(t, front + [cmd], Copy(now, Manifest(info)), rest);
    }
  }

  /** A firmware command that finds no session leads to the image being pulled; that is
      announced as it is, and repeated likewise. */
  lemma StartIsSent(t: Timing, front: Run, before: nat, info: Bytes, fragments: nat, now: nat, rest: Run)
    requires t.Valid() && AllQuiet(rest) && !After(t, front).session
    ensures var r := After(t, front + [(FirmwareCommand, before)] + [(Pulled(info, fragments), now)] + rest);
            && r.copies != [] && r.copies[0] == Copy(now, Start(info))
            && (!r.delivering ==> |r.copies| == t.count)
            && (r.complete ==> r.fragments == fragments)
  {
    var cmd := (Pulled(info, fragments), now);
    var called := front + [(FirmwareCommand, before)];
    AfterCommand(t, front, (FirmwareCommand, before));
    AfterCommand(t, called, cmd);
    OrderlyRun(t, called + [cmd] + rest);
    RepeatingRun(t, called + [cmd], Copy(now, Start(info)), rest);
    SameFragments(t, called + [cmd], rest);
  }

  lemma {:induction false} SameFragments(t: Timing, front: Run, rest: Run)
    requires t.Valid() && AllQuiet(rest)
    ensures After(t, front + rest).fragments == After(t, front).fragments
  {
    hide Next;
    if rest == [] {
      assert front + rest == front;
    } else {
      var less, last := rest[..|rest| - 1], rest[|rest| - 1];
      SameFragments(t, front, less);
      assert (front + rest)[..|front + rest| - 1] == front + less;
      QuietKeeps(t, After(t, front + less), last.0, last.1);
    }
  }

  lemma QuietKeeps(t: Timing, r: Router, e: Event, now: nat)
    requires t.Valid() && Quiet(e)
    ensures Next(t, r, e, now).fragments == r.fragments
  {
    hide Timing.ResendDelay, Timing.StartDelay, Managed, Shortened;
    match e
    case DeliverTimer(works) =>
    case ManifestTimer =>
    case ActivateTimer =>
    case _ =>
  }

  /** A deleted session falls silent, except for an activation that is being repeated. */
  lemma {:induction false} DeletedIsSilent(t: Timing, front: Run, now: nat, rest: Run)
    requires t.Valid() && AllQuiet(rest)
    ensures var r, r' := After(t, front), After(t, front + [(DeleteSession, now)] + rest);
            && Silent(r') && r'.sent == r.sent && r'.ends == r.ends
            && (r.activateAt.None? ==> r'.activateAt.None? && r'.copies == r.copies)
  {
    hide Next;
    var cmd := (DeleteSession, now);
    if rest == [] {
      AfterCommand(t, front, cmd);
      SilentFirst(t, After(t, front), now);
      assert front + [cmd] + rest == front + [cmd];
    } else {
      var less, last := rest[..|rest| - 1], rest[|rest| - 1];
      DeletedIsSilent(t, front, now, less);
      AfterCommand(t, front + [cmd] + less, last);
      SilentNext(t, After(t, front + [cmd] + less), last.0, last.1);
      assert front + [cmd] + rest == (front + [cmd] + less) + [last];
    }
  }

  predicate Silent(r: Router) {
    !r.session && !r.delivering && !r.ending && r.deliverAt.None? && r.manifestAt.None?
  }

  lemma SilentFirst(t: Timing, r: Router, now: nat)
    requires t.Valid()
    ensures var r' := Next(t, r, DeleteSession, now);
            && Silent(r') && r'.sent == r.sent && r'.ends == r.ends
            && r'.copies == r.copies && r'.activateAt == r.activateAt
  {}

  lemma SilentNext(t: Timing, r: Router, e: Event, now: nat)
    requires t.Valid() && Silent(r) && Quiet(e)
    ensures var r' := Next(t, r, e, now);
            && Silent(r') && r'.sent == r.sent && r'.ends == r.ends
            && (r.activateAt.None? ==> r'.activateAt.None? && r'.copies == r.copies)
  {
    hide Managed, Timing.ResendDelay, Timing.StartDelay;
  }

  lemma AfterCommand(t: Timing, front: Run, cmd: (Event, nat))
    requires t.Valid()
    ensures After(t, front + [cmd]) == Next(t, After(t, front), cmd.0, cmd.1)
  {
    assert (front + [cmd])[..|front|] == front;
  }

  /** Over every run, a delivery that is over has sent every fragment exactly once, in
      ascending order, after the last START and at least one interval apart, and then END
      FRAGMENTS once. */
  lemma FragmentsAreSent(t: Timing, run: Run)
    requires t.Valid() && After(t, run).complete
    ensures var r := After(t, run);
            && r.copies != [] && SentUpTo(t, r.sent, Ready(t, r), |r.sent|) && |r.sent| <= r.fragments
            && (r.delivering || |r.sent| == r.fragments) && r.ends == (if r.delivering || r.ending then 0 else 1)
  {
    hide After;
    OrderlyRun(t, run);
  }

  /** A delivery that is not over goes on: its timer runs, and leads to the next fragment or,
      behind the last one, to the END FRAGMENTS message. */
  lemma DeliveryGoesOn(t: Timing, run: Run)
    requires t.Valid() && After(t, run).delivering && |After(t, run).copies| == t.count
    ensures var r := After(t, run);
            && r.deliverAt.Some?
            && var later := After(t, run + [(DeliverTimer(true), r.deliverAt.value)]);
               if |r.sent| < r.fragments
               then later.delivering && later.sent == r.sent + [Sending(|r.sent| + 1, r.deliverAt.value)]
               else Next(t, later, EndTimer, r.deliverAt.value).ends == 1
  {
    hide Span;
    OrderlyRun(t, run);
    AfterCommand(t, run, (DeliverTimer(true), After(t, run).deliverAt.value));
  }
}
