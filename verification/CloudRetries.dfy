/** The guard and the retry cap over whole runs: one operation at a time per screen, and a bounded number of
    requests between two actions of the user, whatever the server answers. */
module CloudRetries {
  import opened Wrappers
  import opened CloudSync
  import opened CloudRuns

  /** A dialog covers the screen: the buttons under it cannot be tapped. */
  predicate Modal(s: System, e: Event)
    requires Enabled(s, e)
  {
    e.TapUpload? || e.TapDownload? ==> s.devices[e.d].dialogs == []
  }

  ghost predicate ModalRun(s: System, es: seq<Event>)
    decreases |es|
  {
    es == [] || (Enabled(s, es[0]) && Modal(s, es[0]) && ModalRun(Apply(s, es[0]), es[1..]))
  }

  // ----- sums over flights

  function Sum(fs: seq<Flight>, v: Flight -> nat): nat {
    if fs == [] then 0 else Sum(fs[..|fs| - 1], v) + v(fs[|fs| - 1])
  }

  lemma {:induction false} SumRemove(fs: seq<Flight>, i: nat, v: Flight -> nat)
    requires i < |fs|
    ensures Sum(fs, v) == Sum(Remove(fs, i), v) + v(fs[i])
  {
    var init := fs[..|fs| - 1];
    if i == |init| {
      assert Remove(fs, i) == init;
    } else {
      SumRemove(init, i, v);
      assert Remove(fs, i)[..|fs| - 2] == Remove(init, i);
    }
  }

  lemma {:induction false} SumUpdate(fs: seq<Flight>, i: nat, f: Flight, v: Flight -> nat)
    requires i < |fs|
    ensures Sum(fs[i := f], v) + v(fs[i]) == Sum(fs, v) + v(f)
  {
    var init := fs[..|fs| - 1];
    if i == |init| {
      assert fs[i := f][..|fs| - 1] == init;
    } else {
      SumUpdate(init, i, f, v);
      assert fs[i := f][..|fs| - 1] == init[i := f];
    }
  }

  lemma SumAppend(fs: seq<Flight>, f: Flight, v: Flight -> nat)
    ensures Sum(fs + [f], v) == Sum(fs, v) + v(f)
  {
    assert (fs + [f])[..|fs|] == fs;
  }

  lemma {:induction false} SumDead(fs: seq<Flight>, v: Flight -> nat)
    requires forall f: Flight :: !f.live ==> v(f) == 0
    requires Sum(fs, IsLive) == 0
    ensures Sum(fs, v) == 0
  {
    if fs != [] {
      SumDead(fs[..|fs| - 1], v);
    }
  }

  lemma {:induction false} SumKilled(fs: seq<Flight>)
    ensures Sum(Killed(fs), IsLive) == 0
  {
    if fs != [] {
      SumKilled(fs[..|fs| - 1]);
      assert Killed(fs)[..|fs| - 1] == Killed(fs[..|fs| - 1]);
    }
  }

  /** The flights of a screen that is gone. */
  function Killed(fs: seq<Flight>): seq<Flight> {
    seq(|fs|, i requires 0 <= i < |fs| => fs[i].(live := false))
  }

  function IsLive(f: Flight): nat {
    if f.live then 1 else 0
  }

  predicate AskingStatus(r: Request) {
    r.StatusAsked? || r.StatusAnswered?
  }

  predicate Pushing(r: Request) {
    r.PushAsked? || r.PushChecked? || r.PushAnswered?
  }

  /** Pushes the screen may still send on its own after this flight, `r` automatic retries into its budget. */
  function PushValue(r: nat): Flight -> nat {
    (f: Flight) =>
      if f.live && AskingStatus(f.request) && r <= 3 then 3 - r
      else if f.live && Pushing(f.request) && r <= 2 then 2 - r else 0
  }

  function UploadValue(r: nat): Flight -> nat {
    (f: Flight) => if f.live && (AskingStatus(f.request) || Pushing(f.request)) && r <= 2 then 2 - r else 0
  }

  function PushBudget(dev: Device): nat {
    Sum(dev.flights, PushValue(dev.ui.retries))
  }

  function UploadBudget(dev: Device): nat {
    Sum(dev.flights, UploadValue(dev.ui.retries))
  }

  // ----- one operation at a time

  /** The guard is set exactly while one live request is in flight; a dialog waits only while it is clear. */
  predicate Single(dev: Device) {
    && Sum(dev.flights, IsLive) == (if dev.ui.busy then 1 else 0)
    && dev.ui.retries <= MAX_CONFLICT_RETRIES
    && (dev.dialogs != [] ==> |dev.dialogs| == 1 && !dev.ui.busy)
  }

  predicate AllSingle(s: System) {
    forall d :: 0 <= d < |s.devices| ==> Single(s.devices[d])
  }

  /** From a screen with no live request, an effect leaves at most one. */
  lemma PerformSingle(dev: Device, step: (Ui, Effect), seen: Slot)
    requires Sum(dev.flights, IsLive) == 0 && step.0.retries <= MAX_CONFLICT_RETRIES && dev.dialogs == []
    requires step.0.busy <==> step.1.AskStatus? || step.1.AskPush? || step.1.AskPull?
    ensures Single(Perform(dev, step, seen))
    ensures PushBudget(Perform(dev, step, seen))
      == if step.1.AskStatus? then 3 - step.0.retries else if step.1.AskPush? then 2 - step.0.retries else 0
    ensures UploadBudget(Perform(dev, step, seen))
      == if step.1.AskStatus? || step.1.AskPush? then 2 - step.0.retries else 0
  {
    hide Sum;
    var r := step.0.retries;
    SumDead(dev.flights, PushValue(r));
    SumDead(dev.flights, UploadValue(r));
    if step.1.AskStatus? || step.1.AskPush? || step.1.AskPull? {
      var f := Perform(dev, step, seen).flights[|dev.flights|];
      SumAppend(dev.flights, f, IsLive);
      SumAppend(dev.flights, f, PushValue(r));
      SumAppend(dev.flights, f, UploadValue(r));
    }
  }

  // ----- what the screen sends on its own

  /** The push a status continuation sends. */
  function PushesSent(s: System, e: Event, d: nat): nat
    requires Enabled(s, e)
  {
    if e.DeliverStatus? && e.d == d && Live(s, e) && StatusStep(s, e).1.AskPush? then 1 else 0
  }

  /** The re-upload a push continuation starts. */
  function Reuploads(s: System, e: Event, d: nat): nat
    requires Enabled(s, e)
  {
    if e.DeliverPush? && e.d == d && Live(s, e) && PushStep(s, e).1.AskStatus? then 1 else 0
  }

  predicate Live(s: System, e: Event)
    requires Enabled(s, e) && Delivers(e)
  {
    s.devices[e.d].flights[e.i].live
  }

  function StatusStep(s: System, e: Event): (Ui, Effect)
    requires Enabled(s, e) && e.DeliverStatus?
  {
    var f := s.devices[e.d].flights[e.i].request;
    OnStatus(s.devices[e.d].ui, f.ok, f.cloud.Some?, Seen(f.cloud).revision)
  }

  function PushStep(s: System, e: Event): (Ui, Effect)
    requires Enabled(s, e) && e.DeliverPush?
  {
    OnPush(s.devices[e.d].ui, s.devices[e.d].flights[e.i].request.answer, e.session)
  }

  predicate UserActs(e: Event, d: nat) {
    e.d == d && (e.TapUpload? || e.TapDownload? || e.SendMine? || e.KeepCloud? || e.Reopen?)
  }

  ghost predicate NoUser(es: seq<Event>, d: nat) {
    forall k :: 0 <= k < |es| ==> !UserActs(es[k], d)
  }

  ghost function TotalPushes(s: System, es: seq<Event>, d: nat): nat
    requires ModalRun(s, es)
    decreases |es|
  {
    if es == [] then 0 else PushesSent(s, es[0], d) + TotalPushes(Apply(s, es[0]), es[1..], d)
  }

  ghost function TotalReuploads(s: System, es: seq<Event>, d: nat): nat
    requires ModalRun(s, es)
    decreases |es|
  {
    if es == [] then 0 else Reuploads(s, es[0], d) + TotalReuploads(Apply(s, es[0]), es[1..], d)
  }

  ghost predicate Spends(s: System, e: Event)
    requires Enabled(s, e)
  {
    var dev, dev' := s.devices[e.d], ApplyDevice(s, e);
    Single(dev') && (!UserActs(e, e.d) ==>
      PushesSent(s, e, e.d) + PushBudget(dev') <= PushBudget(dev)
      && Reuploads(s, e, e.d) + UploadBudget(dev') <= UploadBudget(dev))
  }

  lemma UserSpends(s: System, e: Event)
    requires Enabled(s, e) && Modal(s, e) && Single(s.devices[e.d]) && UserActs(e, e.d)
    ensures Spends(s, e)
  {
    hide Perform, PushBudget, UploadBudget, Sum;
    var dev := s.devices[e.d];
    match e
    case TapUpload(_, session) =>
      var step := DoUpload(dev.ui, false, session);
      if step.1.AskStatus? { PerformSingle(dev, step, NO_SLOT); } else { PerformNothing(dev, step, NO_SLOT); }
    case TapDownload(_, session) =>
      var step := DoDownload(dev.ui, session);
      if step.1.AskPull? { PerformSingle(dev, step, NO_SLOT); } else { PerformNothing(dev, step, NO_SLOT); }
    case SendMine(_, j) =>
      var shown := dev.dialogs[j];
      var dev' := dev.(dialogs := Remove(dev.dialogs, j), known := dev.known + {shown.version});
      PerformSingle(dev', PushAtRevision(dev.ui, shown.revision), NO_SLOT);
    case KeepCloud(_, j, session) =>
      PerformSingle(dev.(dialogs := Remove(dev.dialogs, j)), DoDownload(dev.ui, session), NO_SLOT);
    case Reopen(_) =>
      SumKilled(dev.flights);
      assert ApplyDevice(s, e).flights == Killed(dev.flights);
  }

  lemma PerformNothing(dev: Device, step: (Ui, Effect), seen: Slot)
    requires step == (dev.ui, Nothing)
    ensures Perform(dev, step, seen) == dev
  {
  }

  lemma ServerSpends(s: System, e: Event)
    requires Enabled(s, e) && Single(s.devices[e.d])
    requires e.ServeStatus? || e.FailPush? || e.CheckPush? || e.CommitPush? || e.ServePull?
    ensures Spends(s, e)
  {
    hide Sum;
    var dev, dev' := s.devices[e.d], ApplyDevice(s, e);
    var f' := dev'.flights[e.i];
    assert dev'.flights == dev.flights[e.i := f'] && dev'.ui == dev.ui && dev'.dialogs == dev.dialogs;
    SumUpdate(dev.flights, e.i, f', IsLive);
    SumUpdate(dev.flights, e.i, f', PushValue(dev.ui.retries));
    SumUpdate(dev.flights, e.i, f', UploadValue(dev.ui.retries));
  }

  lemma DeliverSpends(s: System, e: Event)
    requires Enabled(s, e) && Single(s.devices[e.d]) && Delivers(e)
    ensures Spends(s, e)
  {
    hide Sum, Perform, Remove;
    var dev := s.devices[e.d];
    var f := dev.flights[e.i];
    var rest := dev.(flights := Remove(dev.flights, e.i));
    SumRemove(dev.flights, e.i, IsLive);
    SumRemove(dev.flights, e.i, PushValue(dev.ui.retries));
    SumRemove(dev.flights, e.i, UploadValue(dev.ui.retries));
    if f.live {
      match e
      case DeliverStatus(_, _) => PerformSingle(rest, StatusStep(s, e), Seen(f.request.cloud));
      case DeliverPush(_, _, _) => PerformSingle(rest, PushStep(s, e), NO_SLOT);
      case DeliverPull(_, _) => SumDead(rest.flights, PushValue(dev.ui.retries));
        SumDead(rest.flights, UploadValue(dev.ui.retries));
    }
  }

  lemma StepSpends(s: System, e: Event, d: nat)
    requires Enabled(s, e) && Modal(s, e) && AllSingle(s) && d < |s.devices| && !UserActs(e, d)
    ensures PushesSent(s, e, d) + PushBudget(Apply(s, e).devices[d]) <= PushBudget(s.devices[d])
    ensures Reuploads(s, e, d) + UploadBudget(Apply(s, e).devices[d]) <= UploadBudget(s.devices[d])
  {
    hide PushBudget, UploadBudget, ApplyDevice;
    if e.d == d {
      if Delivers(e) { DeliverSpends(s, e); } else { ServerSpends(s, e); }
    }
  }

  lemma StepSingle(s: System, e: Event)
    requires Enabled(s, e) && Modal(s, e) && AllSingle(s)
    ensures AllSingle(Apply(s, e))
  {
    hide ApplyDevice, PushBudget, UploadBudget, Single;
    if Delivers(e) {
      DeliverSpends(s, e);
    } else if UserActs(e, e.d) {
      UserSpends(s, e);
    } else {
      ServerSpends(s, e);
    }
  }

  lemma {:induction false} RunSpends(s: System, es: seq<Event>, d: nat)
    requires AllSingle(s) && ModalRun(s, es) && d < |s.devices| && NoUser(es, d)
    ensures TotalPushes(s, es, d) <= PushBudget(s.devices[d])
    ensures TotalReuploads(s, es, d) <= UploadBudget(s.devices[d])
    decreases |es|
  {
    hide PushBudget, UploadBudget, Apply, PushesSent, Reuploads;
    if es != [] {
      assert !UserActs(es[0], d);
      StepSpends(s, es[0], d);
      StepSingle(s, es[0]);
      SameDevices(s, es[0]);
      RunSpends(Apply(s, es[0]), es[1..], d);
    }
  }

  lemma SameDevices(s: System, e: Event)
    requires Enabled(s, e)
    ensures |Apply(s, e).devices| == |s.devices|
  {
  }

  /** A screen that holds one request at a time can have at most three pushes and two re-uploads ahead of it. */
  lemma {:induction false} BudgetBound(fs: seq<Flight>, r: nat)
    requires r <= 2 && Sum(fs, IsLive) <= 1
    ensures Sum(fs, PushValue(r)) <= 3 && Sum(fs, UploadValue(r)) <= 2
  {
    if fs != [] {
      var init, f := fs[..|fs| - 1], fs[|fs| - 1];
      if f.live {
        SumDead(init, PushValue(r));
        SumDead(init, UploadValue(r));
      } else {
        BudgetBound(init, r);
      }
    }
  }

  lemma {:induction false} RunSingle(s: System, es: seq<Event>)
    requires AllSingle(s) && ModalRun(s, es)
    ensures ValidRun(s, es) && AllSingle(After(s, es)) && |After(s, es).devices| == |s.devices|
    decreases |es|
  {
    hide Apply;
    if es != [] {
      StepSingle(s, es[0]);
      SameDevices(s, es[0]);
      RunSingle(Apply(s, es[0]), es[1..]);
    }
  }

  lemma InitSingle(n: nat)
    ensures AllSingle(Init(n))
  {
  }

  /** From any state a run can reach, until its user acts again, a screen sends at most three pushes and starts
      at most two re-uploads on its own, whatever the server answers and however the steps interleave. */
  lemma BoundedRetry(n: nat, before: seq<Event>, es: seq<Event>, d: nat)
    requires ModalRun(Init(n), before) && ValidRun(Init(n), before) && d < n
    requires ModalRun(After(Init(n), before), es) && NoUser(es, d)
    ensures TotalPushes(After(Init(n), before), es, d) <= 3
    ensures TotalReuploads(After(Init(n), before), es, d) <= 2
  {
    var s := After(Init(n), before);
    InitSingle(n);
    RunSingle(Init(n), before);
    RunSpends(s, es, d);
    BudgetBound(s.devices[d].flights, s.devices[d].ui.retries);
  }
}
