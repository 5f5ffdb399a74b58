/** What the stored revision is for: a device that has just sent or fetched the cloud's save can send again without
    being asked. */
module CloudSettles {
  import opened Wrappers
  import opened CloudSync
  import opened CloudRuns
  import opened CloudRetries

  // ----- answers that tell of the slot as it is

  predicate Current(f: Flight, slot: Slot) {
    match f.request
    case StatusAnswered(ok, cloud) => ok ==> cloud == Some(slot)
    case PushAnswered(answer) => answer.Accepted? ==> answer.revision == slot.revision
    case PullAnswered(ok, cloud, _) => ok ==> cloud == Some(slot)
    case _ => true
  }

  /** Every answer on its way to a screen of the device tells of the current slot. */
  predicate AllCurrent(s: System, d: nat) {
    && d < |s.devices| && s.slot.Some?
    && forall i :: 0 <= i < |s.devices[d].flights| && s.devices[d].flights[i].live ==>
         Current(s.devices[d].flights[i], s.slot.value)
  }

  /** And the device has stored the slot's revision. */
  predicate Settled(s: System, d: nat) {
    AllCurrent(s, d) && s.devices[d].ui.synced == s.slot.value.revision
  }

  predicate NoWrites(es: seq<Event>) {
    forall k :: 0 <= k < |es| ==> !es[k].CommitPush?
  }

  predicate FlightsCurrent(fs: seq<Flight>, slot: Slot) {
    forall i :: 0 <= i < |fs| && fs[i].live ==> Current(fs[i], slot)
  }

  lemma RemoveCurrent(fs: seq<Flight>, k: nat, slot: Slot)
    requires k < |fs| && FlightsCurrent(fs, slot)
    ensures FlightsCurrent(Remove(fs, k), slot)
  {
  }

  lemma PerformCurrent(dev: Device, step: (Ui, Effect), seen: Slot, slot: Slot)
    requires FlightsCurrent(dev.flights, slot)
    ensures FlightsCurrent(Perform(dev, step, seen).flights, slot) && Perform(dev, step, seen).ui == step.0
  {
  }

  lemma AnswerCurrent(dev: Device, i: nat, r: Request, slot: Slot)
    requires i < |dev.flights| && FlightsCurrent(dev.flights, slot) && Current(dev.flights[i].(request := r), slot)
    ensures FlightsCurrent(Answer(dev, i, r).flights, slot) && Answer(dev, i, r).ui == dev.ui
  {
  }

  /** What a step keeps for the device that takes it. */
  ghost predicate Keeps(s: System, e: Event)
    requires Enabled(s, e) && s.slot.Some?
  {
    var dev, dev' := s.devices[e.d], ApplyDevice(s, e);
    FlightsCurrent(dev'.flights, s.slot.value)
    && (dev.ui.synced == s.slot.value.revision ==> dev'.ui.synced == s.slot.value.revision)
  }

  lemma ScreenKeeps(s: System, e: Event)
    requires Enabled(s, e) && s.slot.Some? && FlightsCurrent(s.devices[e.d].flights, s.slot.value) && UserActs(e, e.d)
    ensures Keeps(s, e)
  {
    hide Perform, FlightsCurrent;
    var dev, slot := s.devices[e.d], s.slot.value;
    match e
    case TapUpload(_, session) => PerformCurrent(dev, DoUpload(dev.ui, false, session), NO_SLOT, slot);
    case TapDownload(_, session) => PerformCurrent(dev, DoDownload(dev.ui, session), NO_SLOT, slot);
    case SendMine(_, j) =>
      var shown := dev.dialogs[j];
      var dev' := dev.(dialogs := Remove(dev.dialogs, j), known := dev.known + {shown.version});
      PerformCurrent(dev', PushAtRevision(dev.ui, shown.revision), NO_SLOT, slot);
    case KeepCloud(_, j, session) =>
      PerformCurrent(dev.(dialogs := Remove(dev.dialogs, j)), DoDownload(dev.ui, session), NO_SLOT, slot);
    case Reopen(_) =>
      DeadCurrent(ApplyDevice(s, e).flights, slot);
  }

  lemma DeadCurrent(fs: seq<Flight>, slot: Slot)
    requires forall i :: 0 <= i < |fs| ==> !fs[i].live
    ensures FlightsCurrent(fs, slot)
  {
  }

  lemma ServerKeeps(s: System, e: Event)
    requires Enabled(s, e) && s.slot.Some? && FlightsCurrent(s.devices[e.d].flights, s.slot.value)
    requires e.ServeStatus? || e.FailPush? || e.CheckPush? || e.ServePull?
    ensures Keeps(s, e)
  {
    hide Answer, FlightsCurrent;
    var dev, slot := s.devices[e.d], s.slot.value;
    match e
    case ServeStatus(_, i, ok) => AnswerCurrent(dev, i, StatusAnswered(ok, if ok then s.slot else None), slot);
    case FailPush(_, i, answer) => AnswerCurrent(dev, i, PushAnswered(answer), slot);
    case CheckPush(_, i) =>
      AnswerCurrent(dev, i, if Matches(s.slot, dev.flights[i].request.expected) then PushChecked(s.slot) else PushAnswered(Conflict), slot);
    case ServePull(_, i, ok, imported) =>
      var dev' := dev.(known := if ok && imported then dev.known + {slot.version} else dev.known);
      AnswerCurrent(dev', i, PullAnswered(ok, if ok then s.slot else None, imported), slot);
  }

  lemma DeliverKeeps(s: System, e: Event)
    requires Enabled(s, e) && s.slot.Some? && FlightsCurrent(s.devices[e.d].flights, s.slot.value) && Delivers(e)
    ensures Keeps(s, e)
  {
    var dev, slot := s.devices[e.d], s.slot.value;
    var f := dev.flights[e.i];
    assert f.live ==> Current(f, slot);
    hide Perform, Remove, FlightsCurrent;
    var rest := dev.(flights := Remove(dev.flights, e.i));
    RemoveCurrent(dev.flights, e.i, slot);
    if f.live {
      match e
      case DeliverStatus(_, i) =>
        PerformCurrent(rest, OnStatus(dev.ui, f.request.ok, f.request.cloud.Some?, Seen(f.request.cloud).revision),
                       Seen(f.request.cloud), slot);
      case DeliverPush(_, i, session) => PerformCurrent(rest, OnPush(dev.ui, f.request.answer, session), NO_SLOT, slot);
      case DeliverPull(_, i) =>
    }
  }

  /** Only a write makes an answer out of date; nothing else moves a stored revision away from the slot's. */
  lemma StepSettles(s: System, e: Event, d: nat)
    requires AllCurrent(s, d) && Enabled(s, e) && !e.CommitPush?
    ensures AllCurrent(Apply(s, e), d) && Apply(s, e).slot == s.slot
    ensures Settled(s, d) ==> Settled(Apply(s, e), d)
  {
    hide ApplyDevice, Current;
    if e.d == d {
      if Delivers(e) {
        DeliverKeeps(s, e);
      } else if UserActs(e, d) {
        ScreenKeeps(s, e);
      } else {
        ServerKeeps(s, e);
      }
    }
  }

  lemma {:induction false} RunSettles(s: System, es: seq<Event>, d: nat)
    requires AllCurrent(s, d) && ValidRun(s, es) && NoWrites(es)
    ensures AllCurrent(After(s, es), d) && After(s, es).slot == s.slot
    ensures Settled(s, d) ==> Settled(After(s, es), d)
    decreases |es|
  {
    hide AllCurrent, Settled, Apply, Enabled;
    if es != [] {
      assert !es[0].CommitPush?;
      StepSettles(s, es[0], d);
      RunSettles(Apply(s, es[0]), es[1..], d);
    }
  }

  // ----- the next upload after a push or a pull

  /** Delivering the status sends a push at the slot's revision, and opens no dialog. */
  predicate SendsAtSlot(s: System, d: nat, k: nat)
    requires Enabled(s, DeliverStatus(d, k))
  {
    var dev, dev' := s.devices[d], Apply(s, DeliverStatus(d, k)).devices[d];
    && s.slot.Some? && dev'.dialogs == dev.dialogs
    && dev'.flights == dev.flights[..k] + dev.flights[k + 1..] + [Flight(true, PushAsked(s.slot.value.revision))]
  }

  predicate StatusSucceeded(s: System, d: nat, k: nat) {
    && Enabled(s, DeliverStatus(d, k))
    && s.devices[d].flights[k].live && s.devices[d].flights[k].request.ok
  }

  lemma SettledSends(s: System, d: nat, k: nat)
    requires Settled(s, d) && StatusSucceeded(s, d, k)
    ensures SendsAtSlot(s, d, k)
  {
    assert Current(s.devices[d].flights[k], s.slot.value);
  }

  lemma {:induction false} OthersDead(fs: seq<Flight>, i: nat, j: nat)
    requires i < |fs| && j < |fs| && i != j && fs[i].live && Sum(fs, IsLive) <= 1
    ensures !fs[j].live
  {
    SumRemove(fs, i, IsLive);
    var rest := Remove(fs, i);
    var k := if j < i then j else j - 1;
    assert rest[k] == fs[j];
    SumRemove(rest, k, IsLive);
  }

  /** A screen that holds one request at a time, and that one current. */
  lemma OnlyCurrent(s: System, d: nat, i: nat)
    requires d < |s.devices| && Single(s.devices[d]) && i < |s.devices[d].flights| && s.slot.Some?
    requires s.devices[d].flights[i].live && Current(s.devices[d].flights[i], s.slot.value)
    ensures AllCurrent(s, d)
  {
    hide Sum, Current;
    forall j | 0 <= j < |s.devices[d].flights| && s.devices[d].flights[j].live
      ensures Current(s.devices[d].flights[j], s.slot.value)
    {
      if j != i {
        OthersDead(s.devices[d].flights, i, j);
      }
    }
  }

  /** A device's push is written while its screen waits for the answer. */
  predicate PushWritten(s: System, d: nat, i: nat) {
    Enabled(s, CommitPush(d, i, true)) && s.devices[d].flights[i].live
  }

  /** The accepted push reaches the screen. */
  predicate AcceptedArrives(s: System, d: nat, j: nat, session: bool) {
    && Enabled(s, DeliverPush(d, j, session))
    && s.devices[d].flights[j].live && s.devices[d].flights[j].request.answer.Accepted?
  }

  /** A push is written, nobody else writes, and the accepted answer reaches the live screen. */
  ghost predicate PushDelivered(s: System, d: nat, i: nat, mid: seq<Event>, j: nat, session: bool) {
    && PushWritten(s, d, i) && ValidRun(Apply(s, CommitPush(d, i, true)), mid) && NoWrites(mid)
    && AcceptedArrives(After(Apply(s, CommitPush(d, i, true)), mid), d, j, session)
  }

  ghost function PushOver(s: System, d: nat, i: nat, mid: seq<Event>, j: nat, session: bool): System
    requires PushDelivered(s, d, i, mid, j, session)
  {
    Apply(After(Apply(s, CommitPush(d, i, true)), mid), DeliverPush(d, j, session))
  }

  /** A device whose accepted push was delivered, with no write since: whatever else happens, every upload whose status
      succeeds is sent at the slot's revision, without a dialog. */
  lemma UploadAfterPush(n: nat, before: seq<Event>, d: nat, i: nat, mid: seq<Event>, j: nat, session: bool,
                        es: seq<Event>, k: nat)
    requires ModalRun(Init(n), before) && ValidRun(Init(n), before)
    requires PushDelivered(After(Init(n), before), d, i, mid, j, session)
    requires ValidRun(PushOver(After(Init(n), before), d, i, mid, j, session), es) && NoWrites(es)
    requires StatusSucceeded(After(PushOver(After(Init(n), before), d, i, mid, j, session), es), d, k)
    ensures SendsAtSlot(After(PushOver(After(Init(n), before), d, i, mid, j, session), es), d, k)
  {
    hide Single, AllCurrent, SendsAtSlot, Sum, StatusSucceeded, NoWrites;
    var s0 := After(Init(n), before);
    InitSingle(n);
    RunSingle(Init(n), before);
    var s1 := WrittenCurrent(s0, d, i);
    RunSettles(s1, mid, d);
    ArrivalSettles(After(s1, mid), d, j, session);
    var s2 := PushOver(s0, d, i, mid, j, session);
    RunSettles(s2, es, d);
    SettledSends(After(s2, es), d, k);
  }

  lemma WrittenCurrent(s: System, d: nat, i: nat) returns (s': System)
    requires AllSingle(s) && PushWritten(s, d, i)
    ensures s' == Apply(s, CommitPush(d, i, true)) && AllCurrent(s', d)
  {
    var e := CommitPush(d, i, true);
    s' := Apply(s, e);
    StepSingle(s, e);
    OnlyCurrent(s', d, i);
  }

  lemma ArrivalSettles(s: System, d: nat, j: nat, session: bool)
    requires AllCurrent(s, d) && AcceptedArrives(s, d, j, session)
    ensures Settled(Apply(s, DeliverPush(d, j, session)), d)
  {
    assert Current(s.devices[d].flights[j], s.slot.value);
    StepSettles(s, DeliverPush(d, j, session), d);
  }

  /** The server answers a pull with the slot, and the device imports it, while its screen waits. */
  predicate PullServed(s: System, d: nat, i: nat) {
    Enabled(s, ServePull(d, i, true, true)) && s.devices[d].flights[i].live && s.slot.Some?
  }

  predicate ImportArrives(s: System, d: nat, j: nat) {
    && Enabled(s, DeliverPull(d, j)) && s.devices[d].flights[j].live
    && s.devices[d].flights[j].request.ok && s.devices[d].flights[j].request.imported
  }

  ghost predicate PullDelivered(s: System, d: nat, i: nat, mid: seq<Event>, j: nat) {
    && PullServed(s, d, i) && ValidRun(Apply(s, ServePull(d, i, true, true)), mid) && NoWrites(mid)
    && ImportArrives(After(Apply(s, ServePull(d, i, true, true)), mid), d, j)
  }

  ghost function PullOver(s: System, d: nat, i: nat, mid: seq<Event>, j: nat): System
    requires PullDelivered(s, d, i, mid, j)
  {
    Apply(After(Apply(s, ServePull(d, i, true, true)), mid), DeliverPull(d, j))
  }

  /** The same after an imported pull was delivered. */
  lemma UploadAfterPull(n: nat, before: seq<Event>, d: nat, i: nat, mid: seq<Event>, j: nat, es: seq<Event>, k: nat)
    requires ModalRun(Init(n), before) && ValidRun(Init(n), before)
    requires PullDelivered(After(Init(n), before), d, i, mid, j)
    requires ValidRun(PullOver(After(Init(n), before), d, i, mid, j), es) && NoWrites(es)
    requires StatusSucceeded(After(PullOver(After(Init(n), before), d, i, mid, j), es), d, k)
    ensures SendsAtSlot(After(PullOver(After(Init(n), before), d, i, mid, j), es), d, k)
  {
    hide Single, AllCurrent, SendsAtSlot, Sum, StatusSucceeded, NoWrites;
    var s0 := After(Init(n), before);
    InitSingle(n);
    RunSingle(Init(n), before);
    var s1 := ServedCurrent(s0, d, i);
    RunSettles(s1, mid, d);
    ImportSettles(After(s1, mid), d, j);
    var s2 := PullOver(s0, d, i, mid, j);
    RunSettles(s2, es, d);
    SettledSends(After(s2, es), d, k);
  }

  lemma ServedCurrent(s: System, d: nat, i: nat) returns (s': System)
    requires AllSingle(s) && PullServed(s, d, i)
    ensures s' == Apply(s, ServePull(d, i, true, true)) && AllCurrent(s', d)
  {
    var e := ServePull(d, i, true, true);
    s' := Apply(s, e);
    StepSingle(s, e);
    OnlyCurrent(s', d, i);
  }

  lemma ImportSettles(s: System, d: nat, j: nat)
    requires AllCurrent(s, d) && ImportArrives(s, d, j)
    ensures Settled(Apply(s, DeliverPull(d, j)), d)
  {
    assert Current(s.devices[d].flights[j], s.slot.value);
    StepSettles(s, DeliverPull(d, j), d);
  }
}
