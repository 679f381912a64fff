/** What stands between a download and its installation, over whole runs of the
    update state machine (fota.c): manifest, authorisation, fragments, defer,
    postpone, reject, resume, undelivered reports and power cuts in any order. */
module InstallGate {
  import opened Bytes

  /** The candidate ready header on storage. */
  datatype Ready = Blank | Torn | Whole

  datatype Mode = AwaitDownload | Downloading | AwaitInstall

  /** resume_state */
  datatype Resuming = Inactive | Begun | Ongoing

  /** What runs once a state report has been delivered. */
  datatype Callback = Nothing | StartDownload | InstallComponent

  /** fota_ctx; `hashed` is what the payload hash has taken in, so that its length
      is payload_offset. */
  datatype Context = Context(mode: Mode, resume: Resuming, hashed: Bytes, pending: Callback)

  /** The candidate storage: the two headers, and the image in the data area
      together with what is still in the page buffer. */
  datatype Storage = Storage(ready: Ready, header: bool, image: Bytes)

  const ERASED := Storage(Blank, false, [])

  /** `started` records the image the last installation was started with. */
  datatype State = State(manifest: bool, store: Storage, ctx: Option<Context>, postponed: bool, deferred: bool,
                         started: Option<Bytes>)

  /** The payload size, and the comparison of the digest, or the signature check,
      over an image. */
  datatype Expected = Expected(size: nat, accepts: Bytes -> bool)
  {
    predicate Verified(image: Bytes) {
      |image| == size && accepts(image)
    }
  }

  /** How much of an operation on storage takes place before it fails or power is
      lost. */
  datatype Fate = Works | Fails(store: Storage) | Cut(store: Storage)

  datatype Event =
    | Manifest
    | Authorize(device: Fate, giveUp: bool, keyLost: bool)
    | Defer(postpone: bool, device: Fate, keep: nat)
    | Reject(keep: nat)
    | Resume(byUser: bool, askUser: bool, accepted: bool)
    | FragmentArrives(data: Bytes, device: Fate, keep: nat)
    | Report(delivered: bool, device: Fate, giveUp: bool, keyLost: bool, cut: bool, rest: Storage, keep: nat)
    | PowerCut(keep: nat)

  /** The RAM of a download is gone: only whole blocks of its image stay. */
  function Kept(s: State, keep: nat): Storage {
    if s.ctx.Some? && s.ctx.value.mode == Downloading
    then s.store.(image := s.store.image[..Min(keep, |s.store.image|)])
    else s.store
  }

  /** abort_update for good, or so that the update can be resumed. */
  function Abort(s: State, keep: nat, terminate: bool): State {
    s.(store := Kept(s, keep), ctx := None, manifest := s.manifest && !terminate)
  }

  /** finalize_update with `s.ctx` in place. */
  function Finalize(x: Expected, s: State): State
    requires s.ctx.Some?
  {
    var c := s.ctx.value;
    if c.resume == Ongoing || x.accepts(c.hashed)
    then s.(ctx := Some(c.(mode := AwaitInstall, pending := Nothing)))
    else Abort(s, |s.store.image|, true)
  }

  /** fota_on_download_authorize: what analyze_resume_state finds decides between the
      installation, the rest of the download and a fresh start on erased storage. Without
      the key of the download there is only the fresh start. */
  function DownloadAuthorized(x: Expected, s: State, device: Fate, giveUp: bool, keyLost: bool): State
    requires s.ctx.Some?
  {
    var c, st := s.ctx.value.(pending := Nothing), s.store;
    if c.resume == Begun && !keyLost && st.ready == Whole then
      Finalize(x, s.(ctx := Some(c.(resume := Ongoing))))
    else if c.resume == Begun && !keyLost && st.ready == Blank && st.header && !giveUp then
      var c' := c.(resume := Inactive, hashed := st.image);
      if |st.image| == x.size then Finalize(x, s.(ctx := Some(c')))
      else s.(ctx := Some(c'.(mode := Downloading)))
    else FreshStart(s, device)
  }

  /** Whatever is taken up, the image stays. */
  lemma TakenUp(x: Expected, s: State, device: Fate, giveUp: bool, keyLost: bool)
    requires s.ctx.Some? && s.ctx.value.mode == AwaitDownload && s.ctx.value.resume == Begun && !keyLost
    requires s.store.ready == Whole || (s.store.ready == Blank && s.store.header && !giveUp)
    ensures DownloadAuthorized(x, s, device, giveUp, keyLost).store == s.store
  {
    var image := s.store.image;
    assert image[..|image|] == image;
  }

  function FreshStart(s: State, device: Fate): State {
    match device
    case Works => s.(store := Storage(Blank, true, []), ctx := Some(Context(Downloading, Inactive, [], Nothing)))
    case Fails(left) => Abort(s.(store := left), 0, true)
    case Cut(left) => PowerLost(s.(store := left), 0)
  }

  /** RAM is lost. */
  function PowerLost(s: State, keep: nat): State {
    s.(store := Kept(s, keep), ctx := None, postponed := false, deferred := false)
  }

  /** write_candidate_ready, and the report that precedes the installation. */
  function InstallAuthorized(s: State, postpone: bool, device: Fate): State
    requires s.ctx.Some?
  {
    var c := s.ctx.value;
    var there := c.resume == Ongoing && s.store.ready == Whole;
    var s' := s.(postponed := postpone);
    if there then s'.(ctx := Some(c.(resume := Inactive, pending := InstallComponent)))
    else
      match device
      case Works => s'.(store := s.store.(ready := Whole), ctx := Some(c.(pending := InstallComponent)))
      case Fails(left) => Abort(s'.(store := left), 0, true)
      case Cut(left) => PowerLost(s'.(store := left), 0)
  }

  /** fota_on_fragment for a raw payload. */
  function FragmentArrived(x: Expected, s: State, data: Bytes, device: Fate, keep: nat): State
    requires s.ctx.Some?
  {
    var c := s.ctx.value;
    if c.mode != Downloading then s
    else if |c.hashed| + |data| > x.size then Abort(s, keep, true)
    else
      var s' := s.(store := s.store.(image := s.store.image + data), ctx := Some(c.(hashed := c.hashed + data)));
      match device
      case Works => if |c.hashed| + |data| == x.size then Finalize(x, s') else s'
      case Fails(left) => Abort(s'.(store := left), |left.image|, true)
      case Cut(left) => PowerLost(s'.(store := left), |left.image|)
  }

  /** install_component: the image goes to the installer; then the manifest is deleted and
      the start of the storage may be erased, which leaves `rest`. Power may be lost before
      that. */
  function Installed(s: State, cut: bool, rest: Storage): State {
    var s' := s.(started := Some(s.store.image), ctx := None);
    if cut then PowerLost(s', 0) else s'.(manifest := false, store := rest)
  }

  function Next(x: Expected, s: State, e: Event): State {
    match e
    case Manifest =>
      if s.ctx.Some? || s.manifest then s
      else s.(manifest := true, ctx := Some(Context(AwaitDownload, Inactive, [], Nothing)))
    case Authorize(device, giveUp, keyLost) =>
      if s.ctx.None? || s.ctx.value.mode == Downloading then s
      else if s.ctx.value.mode == AwaitInstall then InstallAuthorized(s, false, device)
      else DownloadAuthorized(x, s, device, giveUp, keyLost)
    case Defer(postpone, device, keep) =>
      if s.ctx.None? then s
      else
        var s' := s.(deferred := true);
        if s.ctx.value.mode != AwaitInstall then Abort(s', keep, false)
        else if postpone then InstallAuthorized(s', true, device)
        else s'.(ctx := None, postponed := false)
    case Reject(keep) =>
      if s.ctx.None? && !s.manifest then s else Abort(s, keep, true)
    case Resume(byUser, askUser, accepted) =>
      if s.ctx.Some? || s.postponed || (s.deferred && !byUser) || !s.manifest then s
      else if !accepted then s.(manifest := false, deferred := false)
      else
        s.(deferred := false,
           ctx := Some(Context(AwaitDownload, Begun, [], if askUser then Nothing else StartDownload)))
    case FragmentArrives(data, device, keep) =>
      if s.ctx.None? then s else FragmentArrived(x, s, data, device, keep)
    case Report(delivered, device, giveUp, keyLost, cut, rest, keep) =>
      if s.ctx.None? then s
      else if !delivered then Abort(s, keep, false)
      else
        (match s.ctx.value.pending
         case Nothing => s
         case StartDownload => DownloadAuthorized(x, s, device, giveUp, keyLost)
         case InstallComponent => Installed(s, cut, rest))
    case PowerCut(keep) => PowerLost(s, keep)
  }

  // ---- The invariant ------------------------------------------------------------------

  /** What an erase of any length, and the program of a new header behind it, may leave:
      the old storage, with or without its candidate ready header or a part of that, or the
      erased one, with or without the new header. */
  function Restarts(st: Storage): set<Storage> {
    {st, st.(ready := Blank), ERASED, ERASED.(header := true)}
    + if st.ready == Blank then {} else {st.(ready := Torn)}
  }

  /** What the program of the candidate ready header may leave when cut. */
  function Marks(st: Storage): set<Storage> {
    {st, st.(ready := Torn), st.(ready := Whole)}
  }

  predicate Leaves(device: Fate, outcomes: set<Storage>) {
    device == Works || device.store in outcomes
  }

  /** A program of a page that fails or is cut leaves the headers alone; of the image it may
      leave anything, since a torn block can pass for another one. */
  predicate Physical(s: State, e: Event) {
    match e
    case Authorize(device, _, _) =>
      Leaves(device, if s.ctx.Some? && s.ctx.value.mode == AwaitInstall then Marks(s.store) else Restarts(s.store))
    case Defer(_, device, _) => Leaves(device, Marks(s.store))
    case Report(_, device, _, _, _, rest, _) => Leaves(device, Restarts(s.store)) && rest in Restarts(s.store)
    case FragmentArrives(_, device, _) => device == Works || device.store == s.store.(image := device.store.image)
    case _ => true
  }

  /** There is a candidate ready header, or, if torn ones count, a part of one. */
  predicate Claimed(st: Storage, torn: bool) {
    st.ready == Whole || (torn && st.ready == Torn)
  }

  /** A candidate ready header, an installation, and the states that lead to one,
      stand for a verified image; a download has hashed what it stored. */
  predicate Sound(x: Expected, s: State, torn: bool) {
    && (Claimed(s.store, torn) ==> x.Verified(s.store.image))
    && (s.started.Some? ==> x.Verified(s.started.value))
    && (s.ctx.Some? ==>
          var c := s.ctx.value;
          && (c.mode == Downloading ==> s.store.ready == Blank && c.hashed == s.store.image && c.pending == Nothing)
          && (c.mode == AwaitInstall ==> x.Verified(s.store.image))
          && (c.pending == InstallComponent ==> c.mode == AwaitInstall)
          && (c.pending == StartDownload ==> c.mode == AwaitDownload)
          && (c.resume == Ongoing ==> s.store.ready == Whole))
  }

  lemma SoundFinalize(x: Expected, s: State, torn: bool)
    requires s.ctx.Some? && s.ctx.value.pending == Nothing
    requires Claimed(s.store, torn) ==> x.Verified(s.store.image)
    requires s.started.Some? ==> x.Verified(s.started.value)
    requires var c := s.ctx.value;
             if c.resume == Ongoing then s.store.ready == Whole
             else c.hashed == s.store.image && |c.hashed| == x.size
    ensures Sound(x, Finalize(x, s), torn)
  {
    assert s.store.image[..|s.store.image|] == s.store.image;
  }

  lemma SoundDownload(x: Expected, s: State, torn: bool, device: Fate, giveUp: bool, keyLost: bool)
    requires Sound(x, s, torn) && s.ctx.Some? && s.ctx.value.mode == AwaitDownload
    requires Leaves(device, Restarts(s.store))
    ensures Sound(x, DownloadAuthorized(x, s, device, giveUp, keyLost), torn)
  {
    hide Finalize;
    var c, st := s.ctx.value.(pending := Nothing), s.store;
    if c.resume == Begun && !keyLost && st.ready == Whole {
      SoundFinalize(x, s.(ctx := Some(c.(resume := Ongoing))), torn);
    } else if c.resume == Begun && !keyLost && st.ready == Blank && st.header && !giveUp && |st.image| == x.size {
      SoundFinalize(x, s.(ctx := Some(c.(resume := Inactive, hashed := st.image))), torn);
    }
  }

  lemma SoundFragment(x: Expected, s: State, torn: bool, data: Bytes, device: Fate, keep: nat)
    requires Sound(x, s, torn) && s.ctx.Some? && Physical(s, FragmentArrives(data, device, keep))
    ensures Sound(x, FragmentArrived(x, s, data, device, keep), torn)
  {
    var c := s.ctx.value;
    if c.mode == Downloading && |c.hashed| + |data| == x.size && device == Works {
      SoundFinalize(x, s.(store := s.store.(image := s.store.image + data),
                          ctx := Some(c.(hashed := c.hashed + data))), torn);
    }
  }

  lemma SoundInstall(x: Expected, s: State, torn: bool, postpone: bool, device: Fate)
    requires Sound(x, s, torn) && s.ctx.Some? && s.ctx.value.mode == AwaitInstall
    requires Leaves(device, Marks(s.store))
    ensures Sound(x, InstallAuthorized(s, postpone, device), torn)
  {}

  /** Every event keeps the invariant. */
  lemma SoundNext(x: Expected, s: State, torn: bool, e: Event)
    requires Sound(x, s, torn) && Physical(s, e)
    ensures Sound(x, Next(x, s, e), torn)
  {
    hide DownloadAuthorized, InstallAuthorized, FragmentArrived;
    match e
    case Authorize(device, giveUp, keyLost) =>
      if s.ctx.Some? && s.ctx.value.mode == AwaitDownload {
        SoundDownload(x, s, torn, device, giveUp, keyLost);
      } else if s.ctx.Some? && s.ctx.value.mode == AwaitInstall {
        SoundInstall(x, s, torn, false, device);
      }
    case Defer(postpone, device, _) =>
      if s.ctx.Some? && s.ctx.value.mode == AwaitInstall {
        SoundInstall(x, s.(deferred := true), torn, postpone, device);
      }
    case FragmentArrives(data, device, keep) =>
      if s.ctx.Some? {
        SoundFragment(x, s, torn, data, device, keep);
      }
    case Report(delivered, device, giveUp, keyLost, _, _, _) =>
      if s.ctx.Some? && delivered && s.ctx.value.pending == StartDownload {
        SoundDownload(x, s, torn, device, giveUp, keyLost);
      }
    case _ =>
  }

  // ---- Whole runs -----------------------------------------------------------------------

  /** The state after a run; events that the storage cannot bring about do not occur. */
  function After(x: Expected, s: State, run: seq<Event>): State {
    if run == [] then s
    else
      var s' := After(x, s, run[..|run| - 1]);
      if Physical(s', run[|run| - 1]) then Next(x, s', run[|run| - 1]) else s'
  }

  lemma {:induction false} SoundRun(x: Expected, s: State, torn: bool, run: seq<Event>)
    requires Sound(x, s, torn)
    ensures Sound(x, After(x, s, run), torn)
  {
    if run != [] {
      SoundRun(x, s, torn, run[..|run| - 1]);
      if Physical(After(x, s, run[..|run| - 1]), run[|run| - 1]) {
        SoundNext(x, After(x, s, run[..|run| - 1]), torn, run[|run| - 1]);
      }
    }
  }

  /** Since the erase for a manifest, a candidate ready header, whole or torn, and
      every image handed to the installer are those of a verified image. */
  lemma GatedSinceErase(x: Expected, s: State, run: seq<Event>)
    requires s.store.ready == Blank && s.started.None?
    requires s.ctx == None || s.ctx == Some(Context(Downloading, Inactive, s.store.image, Nothing))
    ensures var s' := After(x, s, run);
            && (s'.store.ready != Blank ==> x.Verified(s'.store.image))
            && (s'.started.Some? ==> x.Verified(s'.started.value))
  {
    SoundRun(x, s, true, run);
  }

  predicate InstallsOnlyVerified(x: Expected, s: State, run: seq<Event>) {
    var s' := After(x, s, run);
    s'.started.Some? ==> x.Verified(s'.started.value)
  }

  /** From a boot with a pending manifest, whatever is on storage, no run installs an
      image that is not verified if and only if the storage does not hold a whole
      candidate ready header in front of such an image: the resume shortcut, which
      skips the check, trusts that header. */
  lemma GatedExactly(x: Expected, st: Storage)
    ensures (forall run :: InstallsOnlyVerified(x, State(true, st, None, false, false, None), run))
        <==> (st.ready == Whole ==> x.Verified(st.image))
  {
    var s := State(true, st, None, false, false, None);
    if st.ready == Whole ==> x.Verified(st.image) {
      forall run
        ensures InstallsOnlyVerified(x, s, run)
      {
        SoundRun(x, s, false, run);
      }
    } else {
      var run := Shortcut(x, st);
      assert !InstallsOnlyVerified(x, s, run);
    }
  }

  /** The resume shortcut: from a whole candidate ready header straight to the
      installer. */
  lemma Shortcut(x: Expected, st: Storage) returns (run: seq<Event>)
    requires st.ready == Whole
    ensures After(x, State(true, st, None, false, false, None), run).started == Some(st.image)
  {
    var s := State(true, st, None, false, false, None);
    var e0 := Resume(true, false, true);
    var e1 := Report(true, Works, false, false, false, st, 0);
    var e2 := Authorize(Works, false, false);
    assert After(x, s, []) == s;
    AfterSnoc(x, s, [], e0);
    AfterSnoc(x, s, [] + [e0], e1);
    AfterSnoc(x, s, [] + [e0] + [e1], e2);
    AfterSnoc(x, s, [] + [e0] + [e1] + [e2], e1);
    run := [] + [e0] + [e1] + [e2] + [e1];
  }

  /** The check decides: a complete download waits for the installation if and only if
      its image is accepted, and otherwise the update is over. */
  lemma CheckDecides(x: Expected, s: State, data: Bytes)
    requires s.ctx == Some(Context(Downloading, Inactive, s.store.image, Nothing))
    requires |s.store.image| + |data| == x.size
    ensures var s' := Next(x, s, FragmentArrives(data, Works, 0));
            && s'.store.image == s.store.image + data
            && (if x.accepts(s.store.image + data) then s'.ctx.Some? && s'.ctx.value.mode == AwaitInstall
                else s'.ctx.None? && !s'.manifest)
  {
    var image := s.store.image + data;
    assert image[..|image|] == image;
  }

  /** A verified image does get installed, after any interruption of its download that
      kept `kept` bytes. */
  lemma VerifiedIsInstalled(x: Expected, image: Bytes, kept: nat) returns (run: seq<Event>)
    requires x.Verified(image) && kept < |image|
    ensures var st := ERASED.(header := true, image := image[..kept]);
            After(x, State(true, st, None, false, false, None), run).started == Some(image)
  {
    var s := State(true, ERASED.(header := true, image := image[..kept]), None, false, false, None);
    var e0 := Resume(true, false, true);
    var e1 := Report(true, Works, false, false, false, s.store, 0);
    var e2 := FragmentArrives(image[kept..], Works, 0);
    var e3 := Authorize(Works, false, false);
    assert After(x, s, []) == s;
    AfterSnoc(x, s, [], e0);
    AfterSnoc(x, s, [] + [e0], e1);
    assert image[..kept] + image[kept..] == image;
    CheckDecides(x, After(x, s, [] + [e0] + [e1]), image[kept..]);
    AfterSnoc(x, s, [] + [e0] + [e1], e2);
    AfterSnoc(x, s, [] + [e0] + [e1] + [e2], e3);
    var e4 := Report(true, Works, false, false, false, ERASED, 0);
    AfterSnoc(x, s, [] + [e0] + [e1] + [e2] + [e3], e4);
    run := [] + [e0] + [e1] + [e2] + [e3] + [e4];
  }

  // ---- Interruptions ------------------------------------------------------------------------

  /** From every state, a verified image can be installed: what is under way is rejected, and
      a new manifest leads through the download to the installer. */
  lemma AlwaysInstallable(x: Expected, s: State, image: Bytes) returns (run: seq<Event>)
    requires x.Verified(image)
    ensures After(x, s, run).started == Some(image)
  {
    hide After, Expected.Verified;
    var front := Anew(x, s);
    var rest := ToInstaller(x, After(x, s, front), image);
    AfterAppend(x, s, front, rest);
    run := front + rest;
  }

  /** A download from scratch. */
  lemma Anew(x: Expected, s: State) returns (run: seq<Event>)
    ensures var s' := After(x, s, run);
            s'.store == Storage(Blank, true, []) && s'.ctx == Some(Context(Downloading, Inactive, [], Nothing))
  {
    var e := Authorize(Works, false, false);
    assert After(x, s, []) == s;
    AfterSnoc(x, s, [], Reject(0));
    AfterSnoc(x, s, [] + [Reject(0)], Manifest);
    AfterSnoc(x, s, [] + [Reject(0)] + [Manifest], e);
    run := [] + [Reject(0)] + [Manifest] + [e];
  }

  /** From there to the installer. */
  lemma ToInstaller(x: Expected, s: State, image: Bytes) returns (run: seq<Event>)
    requires x.Verified(image)
    requires s.store == Storage(Blank, true, []) && s.ctx == Some(Context(Downloading, Inactive, [], Nothing))
    ensures After(x, s, run).started == Some(image)
  {
    var e0 := FragmentArrives(image, Works, 0);
    var e1 := Authorize(Works, false, false);
    var e2 := Report(true, Works, false, false, false, Storage(Whole, true, image), 0);
    assert After(x, s, []) == s && [] + image == image;
    CheckDecides(x, s, image);
    AfterSnoc(x, s, [], e0);
    AfterSnoc(x, s, [] + [e0], e1);
    AfterSnoc(x, s, [] + [e0] + [e1], e2);
    run := [] + [e0] + [e1] + [e2];
  }

  /** A reject is final: without a new manifest nothing is installed any more. */
  lemma {:induction false} RejectedForGood(x: Expected, s: State, keep: nat, run: seq<Event>)
    requires Manifest !in run
    ensures var s' := After(x, s, [Reject(keep)] + run);
            s'.ctx.None? && !s'.manifest && s'.started == s.started
  {
    if run == [] {
      assert [Reject(keep)] + run == [] + [Reject(keep)];
      assert After(x, s, []) == s;
      AfterSnoc(x, s, [], Reject(keep));
    } else {
      RejectedForGood(x, s, keep, run[..|run| - 1]);
      assert ([Reject(keep)] + run)[..|run|] == [Reject(keep)] + run[..|run| - 1];
    }
  }

  /** What stops a download without ending the update. */
  predicate Interrupts(e: Event) {
    (e.Defer? && !e.postpone) || (e.Report? && !e.delivered) || e.PowerCut?
  }

  function KeepOf(e: Event): nat
    requires Interrupts(e)
  {
    match e
    case Defer(_, _, keep) => keep
    case Report(_, _, _, _, _, _, keep) => keep
    case PowerCut(keep) => keep
  }

  /** The events of a resumed update up to its authorised download. */
  const RESUME := Resume(true, false, true)

  function Delivered(st: Storage): Event {
    Report(true, Works, false, false, false, st, 0)
  }

  /** A download that was deferred, whose report was lost or that lost power goes on with
      exactly the bytes that were kept; a deferred one only if the user resumes it. */
  lemma InterruptedGoesOn(x: Expected, s: State, e: Event)
    requires s.manifest && !s.postponed && s.store.ready == Blank && s.store.header && Physical(s, e)
    requires s.ctx == Some(Context(Downloading, Inactive, s.store.image, Nothing)) && Interrupts(e)
    requires KeepOf(e) < |s.store.image| < x.size
    ensures var kept := s.store.image[..KeepOf(e)];
            var s1 := Next(x, s, e);
            && s1.ctx.None? && s1.manifest && s1.store == s.store.(image := kept)
            && (if e.PowerCut? || (e.Report? && !s.deferred) then Next(x, s1, Resume(false, false, true)).ctx.Some?
                else Next(x, s1, Resume(false, false, true)) == s1)
            && var s3 := Next(x, Next(x, s1, RESUME), Delivered(s1.store));
               s3 == s1.(deferred := false, ctx := Some(Context(Downloading, Inactive, kept, Nothing)))
  {}

  /** An installation that was deferred is asked for again, with the same image; one whose
      reboot was postponed takes place, and is not resumed meanwhile. */
  lemma DeferredInstallation(x: Expected, s: State)
    requires s.manifest && !s.postponed && s.store.ready == Blank && s.store.header && x.Verified(s.store.image)
    requires s.ctx == Some(Context(AwaitInstall, Inactive, s.store.image, Nothing))
    ensures var s1 := Next(x, s, Defer(false, Works, 0));
            var s3 := Next(x, Next(x, s1, RESUME), Delivered(s1.store));
            && s1.ctx.None? && Next(x, s1, Resume(false, false, true)) == s1
            && s3.ctx == s.ctx && s3.store == s.store && s3.started == s.started
    ensures var s1 := Next(x, s, Defer(true, Works, 0));
            && Next(x, s1, RESUME) == s1
            && var s2 := Next(x, s1, Delivered(s1.store));
               s2.started == Some(s.store.image) && !s2.manifest && s2.postponed && Next(x, s2, RESUME) == s2
    ensures var s1 := Next(x, Next(x, s, Defer(true, Works, 0)), PowerCut(0));
            var s3 := Next(x, Next(x, s1, RESUME), Delivered(s1.store));
            s3.ctx.Some? && s3.ctx.value.mode == AwaitInstall && s3.store == s.store.(ready := Whole)
  {}

  /** What `e` may make of `s`. */
  predicate Caused(x: Expected, s: State, e: Event, s': State) {
    && (s'.manifest && !s.manifest ==> e.Manifest? && s.ctx.None?)
    && (s.manifest ==> (s'.manifest <==> !Drops(x, s, e)))
    && (s'.store.ready == Whole && s.store.ready != Whole ==>
          && s.ctx.Some? && s.ctx.value.mode == AwaitInstall && x.Verified(s.store.image)
          && (e.Authorize? || (e.Defer? && e.postpone)))
    && (s'.started != s.started ==>
          && e.Report? && e.delivered && s.ctx.Some? && s.ctx.value.pending == InstallComponent
          && s'.started == Some(s.store.image))
    && (s'.deferred && !s.deferred ==> e.Defer? && s.ctx.Some?)
    && (s'.postponed && !s.postponed ==> e.Defer? && e.postpone)
  }

  /** Every change has its cause: which events bring a manifest, mark a candidate ready, start
      an installation, defer and postpone; and exactly which ones end the update. */
  lemma Causes(x: Expected, s: State, torn: bool, e: Event)
    requires Sound(x, s, torn) && Physical(s, e)
    ensures Caused(x, s, e, Next(x, s, e))
  {
    hide DownloadAuthorized, InstallAuthorized, FragmentArrived, Expected.Verified, Restarts, Marks, Kept,
         DropsDownload;
    KeptReady(s);
    KeptReady(s.(deferred := true));
    match e
    case Authorize(device, giveUp, keyLost) =>
      if s.ctx.Some? && s.ctx.value.mode == AwaitDownload {
        CausesDownload(x, s, torn, e, device, giveUp, keyLost);
      } else if s.ctx.Some? && s.ctx.value.mode == AwaitInstall {
        CausesInstall(x, s, torn, e, false, device);
      }
    case Defer(postpone, device, _) =>
      if s.ctx.Some? && s.ctx.value.mode == AwaitInstall && postpone {
        CausesInstall(x, s.(deferred := true), torn, e, postpone, device);
      }
    case FragmentArrives(data, device, keep) =>
      if s.ctx.Some? {
        CausesFragment(x, s, torn, data, device, keep);
      }
    case Report(_, _, _, _, _, _, _) => CausesReport(x, s, torn, e);
    case _ =>
  }

  lemma CausesReport(x: Expected, s: State, torn: bool, e: Event)
    requires Sound(x, s, torn) && Physical(s, e) && e.Report?
    ensures Caused(x, s, e, Next(x, s, e))
  {
    hide DownloadAuthorized, Expected.Verified, Restarts, Kept, DropsDownload;
    KeptReady(s);
    NoneMarked(s.store, e.rest);
    KeptReady(s.(started := Some(s.store.image), ctx := None));
    if s.ctx.Some? && e.delivered && s.ctx.value.pending == StartDownload {
      CausesDownload(x, s, torn, e, e.device, e.giveUp, e.keyLost);
    }
  }

  lemma KeptReady(s: State)
    ensures forall keep :: Kept(s, keep).ready == s.store.ready
  {}

  lemma NoneMarked(st: Storage, rest: Storage)
    ensures rest in Restarts(st) && rest.ready == Whole ==> st.ready == Whole
  {}

  lemma CausesDownload(x: Expected, s: State, torn: bool, e: Event, device: Fate, giveUp: bool, keyLost: bool)
    requires Sound(x, s, torn) && s.ctx.Some? && s.ctx.value.mode == AwaitDownload
    requires Leaves(device, Restarts(s.store))
    requires e.Authorize? || (e.Report? && e.delivered && s.ctx.value.pending == StartDownload)
    requires e.device == device && e.giveUp == giveUp && e.keyLost == keyLost
    ensures Caused(x, s, e, DownloadAuthorized(x, s, device, giveUp, keyLost))
  {
    hide Expected.Verified, Finalize, Restarts, Kept;
    var c := s.ctx.value.(pending := Nothing);
    CausesFinalize(x, s.(ctx := Some(c.(resume := Ongoing))));
    CausesFinalize(x, s.(ctx := Some(c.(resume := Inactive, hashed := s.store.image))));
    if device != Works {
      NoneMarked(s.store, device.store);
      KeptReady(s.(store := device.store));
    }
  }

  lemma CausesFinalize(x: Expected, s: State)
    requires s.ctx.Some?
    ensures var s' := Finalize(x, s);
            && s'.manifest == (s.manifest && (s.ctx.value.resume == Ongoing || x.accepts(s.ctx.value.hashed)))
            && s'.store.ready == s.store.ready && s'.started == s.started
            && s'.deferred == s.deferred && s'.postponed == s.postponed
  {}

  lemma CausesInstall(x: Expected, s: State, torn: bool, e: Event, postpone: bool, device: Fate)
    requires Sound(x, s, torn) && s.ctx.Some? && s.ctx.value.mode == AwaitInstall && Leaves(device, Marks(s.store))
    requires if postpone then e.Defer? && e.postpone && e.device == device else e.Authorize? && e.device == device
    ensures Caused(x, s, e, InstallAuthorized(s, postpone, device))
  {}

  lemma CausesFragment(x: Expected, s: State, torn: bool, data: Bytes, device: Fate, keep: nat)
    requires Sound(x, s, torn) && s.ctx.Some? && Physical(s, FragmentArrives(data, device, keep))
    ensures Caused(x, s, FragmentArrives(data, device, keep), FragmentArrived(x, s, data, device, keep))
  {
    hide Expected.Verified;
  }

  /** The ways in which an update ends: it is rejected or not accepted, its image is too long
      or not accepted, the device fails, or it is installed. */
  predicate Drops(x: Expected, s: State, e: Event) {
    match e
    case Reject(_) => true
    case Resume(byUser, _, accepted) => s.ctx.None? && !s.postponed && (byUser || !s.deferred) && !accepted
    case Authorize(device, giveUp, keyLost) =>
      && s.ctx.Some?
      && (match s.ctx.value.mode
          case AwaitDownload => DropsDownload(x, s, device, giveUp, keyLost)
          case AwaitInstall => device.Fails? && s.ctx.value.resume != Ongoing
          case Downloading => false)
    case Defer(postpone, device, _) =>
      && s.ctx.Some? && s.ctx.value.mode == AwaitInstall
      && postpone && device.Fails? && s.ctx.value.resume != Ongoing
    case FragmentArrives(data, device, _) =>
      && s.ctx.Some? && s.ctx.value.mode == Downloading
      && (|| |s.store.image| + |data| > x.size || device.Fails?
          || (device == Works && |s.store.image| + |data| == x.size && !x.accepts(s.store.image + data)))
    case Report(delivered, device, giveUp, keyLost, cut, _, _) =>
      && delivered && s.ctx.Some?
      && (match s.ctx.value.pending
          case StartDownload => DropsDownload(x, s, device, giveUp, keyLost)
          case InstallComponent => !cut
          case Nothing => false)
    case _ => false
  }

  /** An image that was complete is not accepted, or the device fails a fresh start. */
  predicate DropsDownload(x: Expected, s: State, device: Fate, giveUp: bool, keyLost: bool)
    requires s.ctx.Some?
  {
    if s.ctx.value.resume == Begun && !keyLost && s.store.ready == Whole then false
    else if s.ctx.value.resume == Begun && !keyLost && s.store.ready == Blank && s.store.header && !giveUp
    then |s.store.image| == x.size && !x.accepts(s.store.image)
    else device.Fails?
  }

  // ---- From one manifest to the next ------------------------------------------------------

  /** An image that was verified for one manifest and marked ready stays on storage when the
      update is rejected. If power is lost after the next manifest has been authorised and
      before its erase, the resume shortcut hands that image to the installer, whatever the
      new manifest asks for. */
  lemma StaleCandidate(x0: Expected, x1: Expected, image: Bytes) returns (old0: seq<Event>, new1: seq<Event>)
    requires x0.Verified(image) && image != []
    ensures var s := After(x0, State(false, ERASED, None, false, false, None), old0);
            && s.started.None? && After(x1, s, new1).started == Some(image)
  {
    var s := State(false, ERASED, None, false, false, None);
    var undelivered := Report(false, Works, false, false, false, ERASED, |image|);
    var e0 := Authorize(Works, false, false);
    var e1 := FragmentArrives(image, Works, 0);
    assert After(x0, s, []) == s;
    AfterSnoc(x0, s, [], Manifest);
    AfterSnoc(x0, s, [] + [Manifest], e0);
    var s2 := After(x0, s, [] + [Manifest] + [e0]);
    assert [] + image == image;
    CheckDecides(x0, s2, image);
    AfterSnoc(x0, s, [] + [Manifest] + [e0], e1);
    AfterSnoc(x0, s, [] + [Manifest] + [e0] + [e1], e0);
    AfterSnoc(x0, s, [] + [Manifest] + [e0] + [e1] + [e0], undelivered);
    AfterSnoc(x0, s, [] + [Manifest] + [e0] + [e1] + [e0] + [undelivered], Reject(0));
    old0 := [] + [Manifest] + [e0] + [e1] + [e0] + [undelivered] + [Reject(0)];
    var stale := Storage(Whole, true, image);
    assert After(x0, s, old0) == s.(store := stale);
    new1 := NextManifest(x1, stale);
  }

  lemma NextManifest(x: Expected, st: Storage) returns (run: seq<Event>)
    requires st.ready == Whole
    ensures After(x, State(false, st, None, false, false, None), run).started == Some(st.image)
  {
    var s := State(false, st, None, false, false, None);
    var cut := Authorize(Cut(st), false, true);
    assert After(x, s, []) == s;
    AfterSnoc(x, s, [], Manifest);
    AfterSnoc(x, s, [] + [Manifest], cut);
    assert After(x, s, [] + [Manifest] + [cut]) == s.(manifest := true);
    var rest := Shortcut(x, st);
    AfterAppend(x, s, [] + [Manifest] + [cut], rest);
    run := [] + [Manifest] + [cut] + rest;
  }

  lemma {:induction false} AfterAppend(x: Expected, s: State, a: seq<Event>, b: seq<Event>)
    ensures After(x, s, a + b) == After(x, After(x, s, a), b)
  {
    if b == [] {
      assert a + b == a;
    } else {
      AfterAppend(x, s, a, b[..|b| - 1]);
      assert (a + b)[..|a + b| - 1] == a + b[..|b| - 1];
    }
  }

  lemma AfterSnoc(x: Expected, s: State, run: seq<Event>, e: Event)
    requires Physical(After(x, s, run), e)
    ensures After(x, s, run + [e]) == Next(x, After(x, s, run), e)
  {
    assert (run + [e])[..|run|] == run;
  }
}
