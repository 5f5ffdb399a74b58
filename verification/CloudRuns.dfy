/** All interleavings of any number of devices on one account and title, their requests in flight and the
    server, whose handler first checks the expected revision and only later writes. */
module CloudRuns {
  import opened Wrappers
  import opened CloudSync

  /** The server's slot. `version` numbers the write that produced it; two writes may share a revision. */
  datatype Slot = Slot(revision: nat, version: nat)

  datatype Request =
    | StatusAsked
    | StatusAnswered(ok: bool, cloud: Option<Slot>)
    | PushAsked(expected: nat)
    | PushChecked(snapshot: Option<Slot>)      // the server found the revision it expected and is about to write
    | PushAnswered(answer: PushAnswer)
    | PullAsked
    | PullAnswered(ok: bool, cloud: Option<Slot>, imported: bool)

  /** A request in flight; not live once its screen is gone, when nobody handles the answer. */
  datatype Flight = Flight(live: bool, request: Request)

  /** `known`: versions this device wrote, imported as a backup, or was shown and chose to overwrite. */
  datatype Device = Device(ui: Ui, dialogs: seq<Slot>, flights: seq<Flight>, known: set<nat>)

  datatype System = System(slot: Option<Slot>, commits: nat, devices: seq<Device>)

  datatype Event =
    | TapUpload(d: nat, session: bool)
    | TapDownload(d: nat, session: bool)
    | SendMine(d: nat, j: nat)
    | KeepCloud(d: nat, j: nat, session: bool)
    | Reopen(d: nat)
    | ServeStatus(d: nat, i: nat, ok: bool)
    | DeliverStatus(d: nat, i: nat)
    | FailPush(d: nat, i: nat, answer: PushAnswer)   // any answer but acceptance, for any reason
    | CheckPush(d: nat, i: nat)
    | CommitPush(d: nat, i: nat, answered: bool)
    | DeliverPush(d: nat, i: nat, session: bool)
    | ServePull(d: nat, i: nat, ok: bool, imported: bool)
    | DeliverPull(d: nat, i: nat)

  function Init(n: nat): System {
    System(None, 0, seq(n, _ => Device(Ui(false, 0, 0), [], [], {})))
  }

  predicate HasFlight(s: System, d: nat, i: nat) {
    d < |s.devices| && i < |s.devices[d].flights|
  }

  predicate Enabled(s: System, e: Event) {
    match e
    case TapUpload(d, _) => d < |s.devices|
    case TapDownload(d, _) => d < |s.devices|
    case SendMine(d, j) => d < |s.devices| && j < |s.devices[d].dialogs|
    case KeepCloud(d, j, _) => d < |s.devices| && j < |s.devices[d].dialogs|
    case Reopen(d) => d < |s.devices|
    case ServeStatus(d, i, _) => HasFlight(s, d, i) && s.devices[d].flights[i].request.StatusAsked?
    case DeliverStatus(d, i) => HasFlight(s, d, i) && s.devices[d].flights[i].request.StatusAnswered?
    case FailPush(d, i, answer) => HasFlight(s, d, i) && s.devices[d].flights[i].request.PushAsked? && !answer.Accepted?
    case CheckPush(d, i) => HasFlight(s, d, i) && s.devices[d].flights[i].request.PushAsked?
    case CommitPush(d, i, _) => HasFlight(s, d, i) && s.devices[d].flights[i].request.PushChecked?
    case DeliverPush(d, i, _) => HasFlight(s, d, i) && s.devices[d].flights[i].request.PushAnswered?
    case ServePull(d, i, _, _) => HasFlight(s, d, i) && s.devices[d].flights[i].request.PullAsked?
    case DeliverPull(d, i) => HasFlight(s, d, i) && s.devices[d].flights[i].request.PullAnswered?
  }

  function Remove<T>(xs: seq<T>, i: nat): seq<T>
    requires i < |xs|
  {
    xs[..i] + xs[i + 1..]
  }

  /** Carry out a screen's effect; the dialog shows the slot the screen just saw. */
  function Perform(dev: Device, step: (Ui, Effect), seen: Slot): Device {
    var dev' := dev.(ui := step.0);
    match step.1
    case Nothing => dev'
    case AskStatus => dev'.(flights := dev.flights + [Flight(true, StatusAsked)])
    case AskPush(revision) => dev'.(flights := dev.flights + [Flight(true, PushAsked(revision))])
    case AskPull => dev'.(flights := dev.flights + [Flight(true, PullAsked)])
    case Prompt(_) => dev'.(dialogs := dev.dialogs + [seen])
  }

  const NO_SLOT := Slot(0, 0)

  function Seen(cloud: Option<Slot>): Slot {
    if cloud.Some? then cloud.value else NO_SLOT
  }

  function Answer(dev: Device, i: nat, r: Request): Device
    requires i < |dev.flights|
  {
    dev.(flights := dev.flights[i := dev.flights[i].(request := r)])
  }

  /** The server's check of the expected revision. */
  predicate Matches(slot: Option<Slot>, expected: nat) {
    match slot case None => expected == 0 case Some(s) => expected == s.revision
  }

  function ApplyDevice(s: System, e: Event): Device
    requires Enabled(s, e)
  {
    var dev := s.devices[e.d];
    match e
    case TapUpload(_, session) => Perform(dev, DoUpload(dev.ui, false, session), NO_SLOT)
    case TapDownload(_, session) => Perform(dev, DoDownload(dev.ui, session), NO_SLOT)
    case SendMine(_, j) =>
      var shown := dev.dialogs[j];
      Perform(dev.(dialogs := Remove(dev.dialogs, j), known := dev.known + {shown.version}),
              PushAtRevision(dev.ui, shown.revision), NO_SLOT)
    case KeepCloud(_, j, session) =>
      Perform(dev.(dialogs := Remove(dev.dialogs, j)), DoDownload(dev.ui, session), NO_SLOT)
    case Reopen(_) =>
      Device(Ui(false, 0, dev.ui.synced), [], seq(|dev.flights|, i requires 0 <= i < |dev.flights| => dev.flights[i].(live := false)),
             dev.known)
    case ServeStatus(_, i, ok) => Answer(dev, i, StatusAnswered(ok, if ok then s.slot else None))
    case DeliverStatus(_, i) =>
      var f := dev.flights[i];
      var rest := dev.(flights := Remove(dev.flights, i));
      if !f.live then rest
      else Perform(rest, OnStatus(dev.ui, f.request.ok, f.request.cloud.Some?, Seen(f.request.cloud).revision), Seen(f.request.cloud))
    case FailPush(_, i, answer) => Answer(dev, i, PushAnswered(answer))
    case CheckPush(_, i) =>
      Answer(dev, i, if Matches(s.slot, dev.flights[i].request.expected) then PushChecked(s.slot) else PushAnswered(Conflict))
    case CommitPush(_, i, answered) =>
      Answer(dev.(known := dev.known + {s.commits}), i,
             PushAnswered(if answered then Accepted(Written(dev.flights[i].request.snapshot, s.commits).revision) else Failed))
    case DeliverPush(_, i, session) =>
      var f := dev.flights[i];
      var rest := dev.(flights := Remove(dev.flights, i));
      if !f.live then rest else Perform(rest, OnPush(dev.ui, f.request.answer, session), NO_SLOT)
    case ServePull(_, i, ok, imported) =>
      var got := ok && s.slot.Some? && imported;
      Answer(dev.(known := if got then dev.known + {s.slot.value.version} else dev.known), i,
             PullAnswered(ok, if ok then s.slot else None, imported))
    case DeliverPull(_, i) =>
      var f := dev.flights[i];
      var rest := dev.(flights := Remove(dev.flights, i));
      if !f.live then rest
      else rest.(ui := OnPull(dev.ui, f.request.ok, f.request.cloud.Some?, f.request.imported, Seen(f.request.cloud).revision))
  }

  /** What the handler writes: the revision after the one it found, computed from its own earlier read. */
  function Written(snapshot: Option<Slot>, commits: nat): Slot {
    Slot(if snapshot.Some? then snapshot.value.revision + 1 else 1, commits)
  }

  function Apply(s: System, e: Event): System
    requires Enabled(s, e)
  {
    var s' := s.(devices := s.devices[e.d := ApplyDevice(s, e)]);
    if e.CommitPush? then s'.(slot := Some(Written(s.devices[e.d].flights[e.i].request.snapshot, s.commits)), commits := s.commits + 1)
    else s'
  }

  ghost predicate ValidRun(s: System, es: seq<Event>)
    decreases |es|
  {
    es == [] || (Enabled(s, es[0]) && ValidRun(Apply(s, es[0]), es[1..]))
  }

  function After(s: System, es: seq<Event>): System
    requires ValidRun(s, es)
    decreases |es|
  {
    if es == [] then s else After(Apply(s, es[0]), es[1..])
  }

  // ----- no silent lost update

  /** A write replaces nothing, or a version its device knows. */
  predicate Justified(s: System, e: Event)
    requires Enabled(s, e)
  {
    e.CommitPush? && s.slot.Some? ==> s.slot.value.version in s.devices[e.d].known
  }

  /** Between the handler's check and its write nobody else wrote. */
  predicate Fresh(s: System, e: Event)
    requires Enabled(s, e)
  {
    e.CommitPush? ==> s.devices[e.d].flights[e.i].request.snapshot == s.slot
  }

  ghost predicate AllJustified(s: System, es: seq<Event>)
    requires ValidRun(s, es)
    decreases |es|
  {
    es == [] || (Justified(s, es[0]) && AllJustified(Apply(s, es[0]), es[1..]))
  }

  ghost predicate AllFresh(s: System, es: seq<Event>)
    requires ValidRun(s, es)
    decreases |es|
  {
    es == [] || (Fresh(s, es[0]) && AllFresh(Apply(s, es[0]), es[1..]))
  }

  /** A slot the server once held: revisions count the writes. */
  predicate Genuine(slot: Slot, commits: nat) {
    slot.revision == slot.version + 1 <= commits
  }

  /** An expected revision that, if it is still the current one, is of a version the device knows. */
  predicate Backed(revision: nat, known: set<nat>, commits: nat) {
    revision < commits || revision == 0 || (revision - 1 in known && revision == commits)
  }

  predicate FlightInv(f: Flight, known: set<nat>, commits: nat) {
    match f.request
    case StatusAsked => true
    case StatusAnswered(_, cloud) => cloud.Some? ==> Genuine(cloud.value, commits)
    case PushAsked(expected) => Backed(expected, known, commits)
    case PushChecked(snapshot) =>
      snapshot.Some? ==> Genuine(snapshot.value, commits) && Backed(snapshot.value.revision, known, commits)
    case PushAnswered(answer) => answer.Accepted? ==> 1 <= answer.revision <= commits && answer.revision - 1 in known
    case PullAsked => true
    case PullAnswered(ok, cloud, imported) =>
      (cloud.Some? ==> Genuine(cloud.value, commits)) && (ok && imported && cloud.Some? ==> cloud.value.version in known)
  }

  predicate DeviceInv(dev: Device, commits: nat) {
    && dev.ui.synced <= commits && (dev.ui.synced > 0 ==> dev.ui.synced - 1 in dev.known)
    && (forall j :: 0 <= j < |dev.dialogs| ==> Genuine(dev.dialogs[j], commits))
    && forall i :: 0 <= i < |dev.flights| ==> FlightInv(dev.flights[i], dev.known, commits)
  }

  predicate Inv(s: System) {
    && (if s.commits == 0 then s.slot == None else s.slot == Some(Slot(s.commits, s.commits - 1)))
    && forall d :: 0 <= d < |s.devices| ==> DeviceInv(s.devices[d], s.commits)
  }

  lemma InvInit(n: nat)
    ensures Inv(Init(n))
  {
  }

  /** More writes make no revision unbacked and no slot ungenuine. */
  lemma DeviceLater(dev: Device, commits: nat)
    requires DeviceInv(dev, commits)
    ensures DeviceInv(dev, commits + 1)
  {
    forall i | 0 <= i < |dev.flights|
      ensures FlightInv(dev.flights[i], dev.known, commits + 1)
    {
      assert FlightInv(dev.flights[i], dev.known, commits);
    }
  }

  predicate UiInv(ui: Ui, known: set<nat>, commits: nat) {
    ui.synced <= commits && (ui.synced > 0 ==> ui.synced - 1 in known)
  }

  lemma PerformInv(dev: Device, step: (Ui, Effect), seen: Slot, commits: nat)
    requires DeviceInv(dev, commits) && UiInv(step.0, dev.known, commits)
    requires step.1.AskPush? ==> Backed(step.1.revision, dev.known, commits)
    requires step.1.Prompt? ==> Genuine(seen, commits)
    ensures DeviceInv(Perform(dev, step, seen), commits)
  {
  }

  lemma RemoveFlight(dev: Device, i: nat, commits: nat)
    requires DeviceInv(dev, commits) && i < |dev.flights|
    ensures DeviceInv(dev.(flights := Remove(dev.flights, i)), commits)
  {
    var rest := Remove(dev.flights, i);
    forall k | 0 <= k < |rest|
      ensures FlightInv(rest[k], dev.known, commits)
    {
      assert rest[k] == dev.flights[if k < i then k else k + 1];
    }
  }

  lemma KnowMore(dev: Device, known: set<nat>, commits: nat)
    requires DeviceInv(dev, commits) && dev.known <= known
    ensures DeviceInv(dev.(known := known), commits)
  {
    forall i | 0 <= i < |dev.flights|
      ensures FlightInv(dev.flights[i], known, commits)
    {
      assert FlightInv(dev.flights[i], dev.known, commits);
    }
  }

  lemma AnswerInv(dev: Device, i: nat, r: Request, commits: nat)
    requires DeviceInv(dev, commits) && i < |dev.flights| && FlightInv(dev.flights[i].(request := r), dev.known, commits)
    ensures DeviceInv(Answer(dev, i, r), commits)
  {
  }

  /** Steps of the screen: taps and dialog choices. */
  lemma ScreenStep(s: System, e: Event)
    requires Inv(s) && Enabled(s, e)
    requires e.TapUpload? || e.TapDownload? || e.SendMine? || e.KeepCloud? || e.Reopen?
    ensures DeviceInv(ApplyDevice(s, e), s.commits)
  {
    hide Perform;
    var dev := s.devices[e.d];
    match e
    case TapUpload(_, session) => PerformInv(dev, DoUpload(dev.ui, false, session), NO_SLOT, s.commits);
    case TapDownload(_, session) => PerformInv(dev, DoDownload(dev.ui, session), NO_SLOT, s.commits);
    case SendMine(_, j) =>
      var shown := dev.dialogs[j];
      KnowMore(dev, dev.known + {shown.version}, s.commits);
      var dev' := dev.(dialogs := Remove(dev.dialogs, j), known := dev.known + {shown.version});
      PerformInv(dev', PushAtRevision(dev.ui, shown.revision), NO_SLOT, s.commits);
    case KeepCloud(_, j, session) =>
      PerformInv(dev.(dialogs := Remove(dev.dialogs, j)), DoDownload(dev.ui, session), NO_SLOT, s.commits);
    case Reopen(_) =>
      forall i | 0 <= i < |dev.flights|
        ensures FlightInv(ApplyDevice(s, e).flights[i], dev.known, s.commits)
      {
        assert FlightInv(dev.flights[i], dev.known, s.commits);
      }
  }

  /** Steps of the server, except the write. */
  lemma ServerStep(s: System, e: Event)
    requires Inv(s) && Enabled(s, e)
    requires e.ServeStatus? || e.FailPush? || e.CheckPush? || e.ServePull?
    ensures DeviceInv(ApplyDevice(s, e), s.commits)
  {
    hide Answer;
    var dev := s.devices[e.d];
    assert FlightInv(dev.flights[e.i], dev.known, s.commits);
    match e
    case ServeStatus(_, i, ok) => AnswerInv(dev, i, StatusAnswered(ok, if ok then s.slot else None), s.commits);
    case FailPush(_, i, answer) => AnswerInv(dev, i, PushAnswered(answer), s.commits);
    case CheckPush(_, i) =>
      AnswerInv(dev, i, if Matches(s.slot, dev.flights[i].request.expected) then PushChecked(s.slot) else PushAnswered(Conflict), s.commits);
    case ServePull(_, i, ok, imported) =>
      var known := if ok && s.slot.Some? && imported then dev.known + {s.slot.value.version} else dev.known;
      KnowMore(dev, known, s.commits);
      AnswerInv(dev.(known := known), i, PullAnswered(ok, if ok then s.slot else None, imported), s.commits);
  }

  /** Continuations of the screen. */
  lemma DeliverStep(s: System, e: Event)
    requires Inv(s) && Enabled(s, e) && (e.DeliverStatus? || e.DeliverPush? || e.DeliverPull?)
    ensures DeviceInv(ApplyDevice(s, e), s.commits)
  {
    hide Perform, Remove;
    var dev := s.devices[e.d];
    var f := dev.flights[e.i];
    var rest := dev.(flights := Remove(dev.flights, e.i));
    assert FlightInv(f, dev.known, s.commits);
    RemoveFlight(dev, e.i, s.commits);
    if f.live {
      match e
      case DeliverStatus(_, i) =>
        PerformInv(rest, OnStatus(dev.ui, f.request.ok, f.request.cloud.Some?, Seen(f.request.cloud).revision),
                   Seen(f.request.cloud), s.commits);
      case DeliverPush(_, i, session) => PerformInv(rest, OnPush(dev.ui, f.request.answer, session), NO_SLOT, s.commits);
      case DeliverPull(_, i) =>
    }
  }

  /** A fresh write replaces what its device knows, and keeps revisions counting the writes. */
  lemma CommitStep(s: System, e: Event)
    requires Inv(s) && Enabled(s, e) && e.CommitPush? && Fresh(s, e)
    ensures Justified(s, e) && DeviceInv(ApplyDevice(s, e), s.commits + 1)
    ensures Written(s.devices[e.d].flights[e.i].request.snapshot, s.commits) == Slot(s.commits + 1, s.commits)
  {
    hide Answer;
    var dev := s.devices[e.d];
    assert FlightInv(dev.flights[e.i], dev.known, s.commits);
    DeviceLater(dev, s.commits);
    var known := dev.known + {s.commits};
    KnowMore(dev, known, s.commits + 1);
    AnswerInv(dev.(known := known), e.i, PushAnswered(if e.answered then Accepted(s.commits + 1) else Failed), s.commits + 1);
  }

  lemma InvStep(s: System, e: Event)
    requires Inv(s) && Enabled(s, e) && Fresh(s, e)
    ensures Inv(Apply(s, e)) && Justified(s, e)
  {
    hide ApplyDevice, DeviceInv;
    if e.CommitPush? {
      CommitStep(s, e);
      forall d | 0 <= d < |s.devices|
        ensures DeviceInv(Apply(s, e).devices[d], s.commits + 1)
      {
        DeviceLater(s.devices[d], s.commits);
      }
    } else if e.DeliverStatus? || e.DeliverPush? || e.DeliverPull? {
      DeliverStep(s, e);
    } else if e.ServeStatus? || e.FailPush? || e.CheckPush? || e.ServePull? {
      ServerStep(s, e);
    } else {
      ScreenStep(s, e);
    }
  }

  /** Over every run of every number of devices in which the server's writes are fresh, no write replaces a
      version its device neither wrote, nor imported, nor was shown and chose to overwrite. */
  lemma {:induction false} NoSilentLostUpdate(n: nat, es: seq<Event>)
    requires ValidRun(Init(n), es) && AllFresh(Init(n), es)
    ensures AllJustified(Init(n), es)
  {
    InvInit(n);
    NoSilentLostUpdateFrom(Init(n), es);
  }

  lemma {:induction false} NoSilentLostUpdateFrom(s: System, es: seq<Event>)
    requires Inv(s) && ValidRun(s, es) && AllFresh(s, es)
    ensures AllJustified(s, es)
    decreases |es|
  {
    if es != [] {
      InvStep(s, es[0]);
      NoSilentLostUpdateFrom(Apply(s, es[0]), es[1..]);
    }
  }

  // ----- when the handler's writes are fresh

  predicate IsChecked(s: System, d: nat, i: nat) {
    HasFlight(s, d, i) && s.devices[d].flights[i].request.PushChecked?
  }

  /** A handler that serves one write at a time starts a check only while no other write is pending. */
  ghost predicate OneAtATime(s: System, es: seq<Event>)
    requires ValidRun(s, es)
    decreases |es|
  {
    es == [] || ((es[0].CheckPush? ==> forall d: nat, i: nat :: !IsChecked(s, d, i)) && OneAtATime(Apply(s, es[0]), es[1..]))
  }

  /** At most one write is pending, and it has seen the current slot. */
  ghost predicate OnePending(s: System) {
    && (forall d: nat, i: nat :: IsChecked(s, d, i) ==> s.devices[d].flights[i].request.snapshot == s.slot)
    && forall d: nat, i: nat, d': nat, i': nat :: IsChecked(s, d, i) && IsChecked(s, d', i') ==> d == d' && i == i'
  }

  predicate Delivers(e: Event) {
    e.DeliverStatus? || e.DeliverPush? || e.DeliverPull?
  }

  /** Where a flight of the next state stood before the step. */
  function Before(e: Event, d: nat, i: nat): nat {
    if Delivers(e) && d == e.d && i >= e.i then i + 1 else i
  }

  lemma PerformAddsNoCheck(dev: Device, step: (Ui, Effect), seen: Slot, i: nat)
    requires i < |Perform(dev, step, seen).flights| && Perform(dev, step, seen).flights[i].request.PushChecked?
    ensures i < |dev.flights| && Perform(dev, step, seen).flights[i] == dev.flights[i]
  {
  }

  lemma CheckedBefore(s: System, e: Event, d: nat, i: nat)
    requires Enabled(s, e) && IsChecked(Apply(s, e), d, i) && !(e.CheckPush? && d == e.d && i == e.i)
    ensures IsChecked(s, d, Before(e, d, i)) && !(e.CommitPush? && d == e.d && i == e.i)
    ensures Apply(s, e).devices[d].flights[i].request == s.devices[d].flights[Before(e, d, i)].request
  {
    if d == e.d {
      if Delivers(e) {
        CheckedBeforeDelivery(s, e, i);
      } else if e.TapUpload? || e.TapDownload? || e.SendMine? || e.KeepCloud? || e.Reopen? {
        CheckedBeforeScreen(s, e, i);
      }
    }
  }

  lemma CheckedBeforeDelivery(s: System, e: Event, i: nat)
    requires Enabled(s, e) && Delivers(e)
    requires i < |ApplyDevice(s, e).flights| && ApplyDevice(s, e).flights[i].request.PushChecked?
    ensures var k := if i >= e.i then i + 1 else i;
      k < |s.devices[e.d].flights| && ApplyDevice(s, e).flights[i] == s.devices[e.d].flights[k]
  {
    hide Perform, DoUpload, DoDownload, OnStatus, OnPush, OnPull;
    var dev := s.devices[e.d];
    var f := dev.flights[e.i];
    var rest := dev.(flights := Remove(dev.flights, e.i));
    if f.live {
      match e
      case DeliverStatus(_, _) =>
        PerformAddsNoCheck(rest, OnStatus(dev.ui, f.request.ok, f.request.cloud.Some?, Seen(f.request.cloud).revision),
                           Seen(f.request.cloud), i);
      case DeliverPush(_, _, session) => PerformAddsNoCheck(rest, OnPush(dev.ui, f.request.answer, session), NO_SLOT, i);
      case DeliverPull(_, _) =>
    }
  }

  lemma CheckedBeforeScreen(s: System, e: Event, i: nat)
    requires Enabled(s, e) && (e.TapUpload? || e.TapDownload? || e.SendMine? || e.KeepCloud? || e.Reopen?)
    requires i < |ApplyDevice(s, e).flights| && ApplyDevice(s, e).flights[i].request.PushChecked?
    ensures i < |s.devices[e.d].flights| && ApplyDevice(s, e).flights[i].request == s.devices[e.d].flights[i].request
  {
    hide Perform, DoUpload, DoDownload, PushAtRevision;
    var dev := s.devices[e.d];
    match e
    case TapUpload(_, session) => PerformAddsNoCheck(dev, DoUpload(dev.ui, false, session), NO_SLOT, i);
    case TapDownload(_, session) => PerformAddsNoCheck(dev, DoDownload(dev.ui, session), NO_SLOT, i);
    case SendMine(_, j) =>
      var shown := dev.dialogs[j];
      var dev' := dev.(dialogs := Remove(dev.dialogs, j), known := dev.known + {shown.version});
      PerformAddsNoCheck(dev', PushAtRevision(dev.ui, shown.revision), NO_SLOT, i);
    case KeepCloud(_, j, session) =>
      PerformAddsNoCheck(dev.(dialogs := Remove(dev.dialogs, j)), DoDownload(dev.ui, session), NO_SLOT, i);
    case Reopen(_) =>
  }

  lemma OnePendingStep(s: System, e: Event)
    requires Enabled(s, e) && OnePending(s) && (e.CheckPush? ==> forall d: nat, i: nat :: !IsChecked(s, d, i))
    ensures OnePending(Apply(s, e)) && Fresh(s, e)
  {
    hide ApplyDevice;
    assert e.CommitPush? ==> IsChecked(s, e.d, e.i);
    var s' := Apply(s, e);
    forall d: nat, i: nat | IsChecked(s', d, i)
      ensures s'.devices[d].flights[i].request.snapshot == s'.slot
    {
      if e.CheckPush? && d == e.d && i == e.i {
        NewlyChecked(s, e);
      } else {
        CheckedBefore(s, e, d, i);
      }
    }
    forall d: nat, i: nat, d': nat, i': nat | IsChecked(s', d, i) && IsChecked(s', d', i')
      ensures d == d' && i == i'
    {
      if !(e.CheckPush? && d == e.d && i == e.i) { CheckedBefore(s, e, d, i); }
      if !(e.CheckPush? && d' == e.d && i' == e.i) { CheckedBefore(s, e, d', i'); }
    }
  }

  lemma NewlyChecked(s: System, e: Event)
    requires Enabled(s, e) && e.CheckPush? && IsChecked(Apply(s, e), e.d, e.i)
    ensures Apply(s, e).devices[e.d].flights[e.i].request == PushChecked(s.slot)
  {
  }

  /** Serving one write at a time makes every write fresh. */
  lemma {:induction false} OneAtATimeIsFresh(s: System, es: seq<Event>)
    requires OnePending(s) && ValidRun(s, es) && OneAtATime(s, es)
    ensures AllFresh(s, es)
    decreases |es|
  {
    if es != [] {
      OnePendingStep(s, es[0]);
      OneAtATimeIsFresh(Apply(s, es[0]), es[1..]);
    }
  }

  /** So a server that serves one write at a time never loses an update silently. */
  lemma SerializedServerIsSafe(n: nat, es: seq<Event>)
    requires ValidRun(Init(n), es) && OneAtATime(Init(n), es)
    ensures AllJustified(Init(n), es)
  {
    OneAtATimeIsFresh(Init(n), es);
    NoSilentLostUpdate(n, es);
  }

  // ----- and when they are not

  lemma RunCons(s: System, e: Event, es: seq<Event>)
    requires Enabled(s, e) && ValidRun(Apply(s, e), es)
    ensures ValidRun(s, [e] + es)
    ensures AllJustified(s, [e] + es) <==> Justified(s, e) && AllJustified(Apply(s, e), es)
  {
    hide Apply, Enabled, Justified;
    assert ([e] + es)[1..] == es;
  }

  function Idle(): Device {
    Device(Ui(false, 0, 0), [], [], {})
  }

  /** A device whose only flight is `r`. */
  function Waiting(r: Request, known: set<nat>): Device {
    Device(Ui(true, 0, 0), [], [Flight(true, r)], known)
  }

  function Both(a: Request, b: Request): System {
    System(None, 0, [Waiting(a, {}), Waiting(b, {})])
  }

  /** The handler is not atomic: two first uploads that are both checked before either is written are both
      accepted, and the second silently replaces the first. */
  lemma RaceLosesUpdate() returns (es: seq<Event>)
    ensures ValidRun(Init(2), es) && !AllJustified(Init(2), es)
  {
    var first := System(Some(Slot(1, 0)), 1, [Waiting(PushAnswered(Accepted(1)), {0}), Waiting(PushChecked(None), {})]);
    es := RaceStep(first, CommitPush(1, 0, true), []);
    AnswerWaiting(PushChecked(None), PushAnswered(Accepted(1)), {0});
    AnswerWaiting(PushAsked(0), PushChecked(None), {});
    assert {} + {0} == {0};
    assert Apply(Both(PushChecked(None), PushChecked(None)), CommitPush(0, 0, true)) == first by {
      assert Apply(Both(PushChecked(None), PushChecked(None)), CommitPush(0, 0, true)).devices == first.devices;
    }
    es := RaceStep(Both(PushChecked(None), PushChecked(None)), CommitPush(0, 0, true), es);
    assert Apply(Both(PushChecked(None), PushAsked(0)), CheckPush(1, 0)) == Both(PushChecked(None), PushChecked(None)) by {
      assert Apply(Both(PushChecked(None), PushAsked(0)), CheckPush(1, 0)).devices == Both(PushChecked(None), PushChecked(None)).devices;
    }
    es := RaceStep(Both(PushChecked(None), PushAsked(0)), CheckPush(1, 0), es);
    assert Apply(Both(PushAsked(0), PushAsked(0)), CheckPush(0, 0)) == Both(PushChecked(None), PushAsked(0)) by {
      assert Apply(Both(PushAsked(0), PushAsked(0)), CheckPush(0, 0)).devices == Both(PushChecked(None), PushAsked(0)).devices;
    }
    es := RaceStep(Both(PushAsked(0), PushAsked(0)), CheckPush(0, 0), es);
    es := BothAsk(es);
  }

  lemma AnswerWaiting(r: Request, r': Request, known: set<nat>)
    ensures Answer(Waiting(r, known), 0, r') == Waiting(r', known)
  {
    assert [Flight(true, r)][0 := Flight(true, r')] == [Flight(true, r')];
  }

  lemma TapIdle(s: System, d: nat)
    requires d < |s.devices| && s.devices[d] == Idle()
    ensures ApplyDevice(s, TapUpload(d, true)) == Waiting(StatusAsked, {})
  {
    assert [] + [Flight(true, StatusAsked)] == [Flight(true, StatusAsked)];
  }

  lemma DeliverEmptyStatus(s: System, d: nat)
    requires d < |s.devices| && s.devices[d] == Waiting(StatusAnswered(true, None), {})
    ensures ApplyDevice(s, DeliverStatus(d, 0)) == Waiting(PushAsked(0), {})
  {
    var dev := s.devices[d];
    assert Remove(dev.flights, 0) == [];
    assert [] + [Flight(true, PushAsked(0))] == [Flight(true, PushAsked(0))];
  }

  lemma RaceStep(s: System, e: Event, es: seq<Event>) returns (es': seq<Event>)
    requires Enabled(s, e) && ValidRun(Apply(s, e), es) && (Justified(s, e) ==> !AllJustified(Apply(s, e), es))
    ensures es' == [e] + es && ValidRun(s, es') && !AllJustified(s, es')
  {
    RunCons(s, e, es);
    es' := [e] + es;
  }

  /** Both devices find the cloud empty and ask to write revision 0. */
  lemma BothAsk(tail: seq<Event>) returns (es: seq<Event>)
    requires ValidRun(Both(PushAsked(0), PushAsked(0)), tail) && !AllJustified(Both(PushAsked(0), PushAsked(0)), tail)
    ensures ValidRun(Init(2), es) && !AllJustified(Init(2), es)
  {
    var none := StatusAnswered(true, None);
    AnswerWaiting(StatusAsked, none, {});
    DeliverEmptyStatus(Both(PushAsked(0), none), 1);
    DeliverEmptyStatus(Both(none, none), 0);
    assert Apply(Both(PushAsked(0), none), DeliverStatus(1, 0)) == Both(PushAsked(0), PushAsked(0)) by {
      assert Apply(Both(PushAsked(0), none), DeliverStatus(1, 0)).devices == Both(PushAsked(0), PushAsked(0)).devices;
    }
    es := RaceStep(Both(PushAsked(0), none), DeliverStatus(1, 0), tail);
    assert Apply(Both(none, none), DeliverStatus(0, 0)) == Both(PushAsked(0), none) by {
      assert Apply(Both(none, none), DeliverStatus(0, 0)).devices == Both(PushAsked(0), none).devices;
    }
    es := RaceStep(Both(none, none), DeliverStatus(0, 0), es);
    assert Apply(Both(none, StatusAsked), ServeStatus(1, 0, true)) == Both(none, none) by {
      assert Apply(Both(none, StatusAsked), ServeStatus(1, 0, true)).devices == Both(none, none).devices;
    }
    es := RaceStep(Both(none, StatusAsked), ServeStatus(1, 0, true), es);
    assert Apply(Both(StatusAsked, StatusAsked), ServeStatus(0, 0, true)) == Both(none, StatusAsked) by {
      assert Apply(Both(StatusAsked, StatusAsked), ServeStatus(0, 0, true)).devices == Both(none, StatusAsked).devices;
    }
    es := RaceStep(Both(StatusAsked, StatusAsked), ServeStatus(0, 0, true), es);
    es := BothTap(es);
  }

  /** Both users tap upload. */
  lemma BothTap(tail: seq<Event>) returns (es: seq<Event>)
    requires ValidRun(Both(StatusAsked, StatusAsked), tail) && !AllJustified(Both(StatusAsked, StatusAsked), tail)
    ensures ValidRun(Init(2), es) && !AllJustified(Init(2), es)
  {
    es := tail;
    var one := System(None, 0, [Waiting(StatusAsked, {}), Idle()]);
    TapIdle(one, 1);
    TapIdle(System(None, 0, [Idle(), Idle()]), 0);
    assert Apply(one, TapUpload(1, true)) == Both(StatusAsked, StatusAsked) by {
      assert Apply(one, TapUpload(1, true)).devices == Both(StatusAsked, StatusAsked).devices;
    }
    es := RaceStep(one, TapUpload(1, true), es);
    assert Init(2) == System(None, 0, [Idle(), Idle()]);
    assert Apply(Init(2), TapUpload(0, true)) == one by {
      assert Apply(Init(2), TapUpload(0, true)).devices == one.devices;
    }
    es := RaceStep(Init(2), TapUpload(0, true), es);
  }

  // ----- exactly when no run loses an update

  /** Further devices that do nothing change nothing for the others. */
  lemma {:induction false} RunWithOthers(s: System, others: seq<Device>, es: seq<Event>)
    requires ValidRun(s, es)
    ensures
      var wide := s.(devices := s.devices + others);
      ValidRun(wide, es) && (AllJustified(wide, es) <==> AllJustified(s, es))
    decreases |es|
  {
    if es != [] {
      var wide, e := s.(devices := s.devices + others), es[0];
      StepWithOthers(s, others, e);
      RunWithOthers(Apply(s, e), others, es[1..]);
    }
  }

  lemma StepWithOthers(s: System, others: seq<Device>, e: Event)
    requires Enabled(s, e)
    ensures
      var wide := s.(devices := s.devices + others);
      && Enabled(wide, e) && (Justified(wide, e) <==> Justified(s, e))
      && Apply(wide, e) == Apply(s, e).(devices := Apply(s, e).devices + others)
  {
    var wide := s.(devices := s.devices + others);
    assert wide.devices[e.d] == s.devices[e.d];
    assert ApplyDevice(wide, e) == ApplyDevice(s, e);
    assert wide.devices[e.d := ApplyDevice(wide, e)] == s.devices[e.d := ApplyDevice(s, e)] + others;
  }

  /** A device that is alone wrote every version there is. */
  ghost predicate WroteAll(s: System) {
    && |s.devices| <= 1
    && (s.slot.Some? ==> s.slot.value.version < s.commits)
    && (s.devices != [] ==> forall v: nat :: v < s.commits ==> v in s.devices[0].known)
  }

  lemma {:induction false} AloneIsSafe(s: System, es: seq<Event>)
    requires WroteAll(s) && ValidRun(s, es)
    ensures AllJustified(s, es)
    decreases |es|
  {
    if es != [] {
      KnownGrows(s, es[0]);
      AloneIsSafe(Apply(s, es[0]), es[1..]);
    }
  }

  lemma KnownGrows(s: System, e: Event)
    requires Enabled(s, e)
    ensures s.devices[e.d].known <= ApplyDevice(s, e).known
    ensures e.CommitPush? ==> s.commits in ApplyDevice(s, e).known
  {
  }

  /** With the handler as it is, no run loses an update silently exactly when there are not two devices. */
  lemma SafeExactlyAlone(n: nat)
    ensures (forall es :: ValidRun(Init(n), es) ==> AllJustified(Init(n), es)) <==> n <= 1
  {
    if n <= 1 {
      forall es | ValidRun(Init(n), es)
        ensures AllJustified(Init(n), es)
      {
        AloneIsSafe(Init(n), es);
      }
    } else {
      var es := RaceLosesUpdate();
      var others := Init(n - 2).devices;
      RunWithOthers(Init(2), others, es);
      assert Init(2).(devices := Init(2).devices + others) == Init(n);
    }
  }
}
