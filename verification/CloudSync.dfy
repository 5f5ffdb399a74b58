/** The cloud-save screen: its decisions, as functions of its guard, its retry counter and the stored
    synced revision, and the class whose methods take them. */
module CloudSync {
  import opened Wrappers

  const MAX_CONFLICT_RETRIES := 2

  datatype Situation = NoCloud | InSync | CloudAhead

  datatype PushPlan = PushPlan(revision: nat, isConflict: bool)

  function Classify(cloudExists: bool, cloudRevision: nat, syncedRevision: nat): Situation {
    if !cloudExists then NoCloud
    else if cloudRevision > syncedRevision then CloudAhead
    else InSync
  }

  function PlanPush(situation: Situation, cloudRevision: nat): PushPlan {
    match situation
    case NoCloud => PushPlan(0, false)
    case CloudAhead => PushPlan(cloudRevision, true)
    case InSync => PushPlan(cloudRevision, false)
  }

  /** What the screen keeps between steps. */
  datatype Ui = Ui(busy: bool, retries: nat, synced: nat)

  /** What a step sets off: a request, or the conflict dialog. */
  datatype Effect = Nothing | AskStatus | AskPush(revision: nat) | AskPull | Prompt(shown: nat)

  datatype PushAnswer = NothingPackaged | Accepted(revision: nat) | Conflict | Failed

  function DoUpload(ui: Ui, autoRetry: bool, session: bool): (Ui, Effect) {
    if ui.busy || !session then (ui, Nothing)
    else (ui.(busy := true, retries := if autoRetry then ui.retries else 0), AskStatus)
  }

  function OnStatus(ui: Ui, ok: bool, exists_: bool, revision: nat): (Ui, Effect) {
    if !ok then (ui.(busy := false), Nothing)
    else
      var plan := PlanPush(Classify(exists_, revision, ui.synced), revision);
      if plan.isConflict then (ui.(busy := false), Prompt(plan.revision)) else PushAtRevision(ui, plan.revision)
  }

  function PushAtRevision(ui: Ui, revision: nat): (Ui, Effect) {
    (ui.(busy := true), AskPush(revision))
  }

  function OnPush(ui: Ui, answer: PushAnswer, session: bool): (Ui, Effect) {
    match answer
    case NothingPackaged => (ui.(busy := false), Nothing)
    case Accepted(revision) => (Ui(false, 0, revision), Nothing)
    case Conflict =>
      if ui.retries >= MAX_CONFLICT_RETRIES then (ui.(busy := false, retries := 0), Nothing)
      else DoUpload(ui.(busy := false, retries := ui.retries + 1), true, session)
    case Failed => (ui.(busy := false), Nothing)
  }

  function DoDownload(ui: Ui, session: bool): (Ui, Effect) {
    if ui.busy || !session then (ui, Nothing) else (ui.(busy := true), AskPull)
  }

  function OnPull(ui: Ui, ok: bool, exists_: bool, imported: bool, revision: nat): Ui {
    if ok && exists_ && imported then ui.(busy := false, synced := revision) else ui.(busy := false)
  }

  /** The screen object. Each method leaves the state, and sets off the effect, its function says. */
  class SaveDetailActivity {
    var cloudBusy: bool
    var cloudConflictRetries: nat
    var syncedRevision: nat   // persisted outside the screen, read and written through it

    ghost function State(): Ui
      reads this
    {
      Ui(cloudBusy, cloudConflictRetries, syncedRevision)
    }

    constructor (stored: nat)
      ensures State() == Ui(false, 0, stored)
    {
      cloudBusy, cloudConflictRetries, syncedRevision := false, 0, stored;
    }

    method UploadTapped(autoRetry: bool, session: bool) returns (effect: Effect)
      modifies this
      ensures (State(), effect) == DoUpload(old(State()), autoRetry, session)
    {
      if cloudBusy { return Nothing; }
      if !session { return Nothing; }
      if !autoRetry { cloudConflictRetries := 0; }
      cloudBusy := true;
      return AskStatus;
    }

    method StatusArrived(ok: bool, exists_: bool, revision: nat) returns (effect: Effect)
      modifies this
      ensures (State(), effect) == OnStatus(old(State()), ok, exists_, revision)
    {
      if !ok {
        cloudBusy := false;
        return Nothing;
      }
      var situation := Classify(exists_, revision, syncedRevision);
      var plan := PlanPush(situation, revision);
      if plan.isConflict {
        cloudBusy := false;
        return Prompt(plan.revision);
      }
      effect := Push(plan.revision);
    }

    method Push(revision: nat) returns (effect: Effect)
      modifies this
      ensures (State(), effect) == PushAtRevision(old(State()), revision)
    {
      cloudBusy := true;
      return AskPush(revision);
    }

    method PushArrived(answer: PushAnswer, session: bool) returns (effect: Effect)
      modifies this
      ensures (State(), effect) == OnPush(old(State()), answer, session)
    {
      if answer.NothingPackaged? {
        cloudBusy := false;
        return Nothing;
      }
      cloudBusy := false;
      if answer.Accepted? {
        cloudConflictRetries := 0;
        syncedRevision := answer.revision;
        return Nothing;
      }
      if answer.Conflict? {
        if cloudConflictRetries >= MAX_CONFLICT_RETRIES {
          cloudConflictRetries := 0;
          return Nothing;
        }
        cloudConflictRetries := cloudConflictRetries + 1;
        effect := UploadTapped(true, session);
        return;
      }
      return Nothing;
    }

    method DownloadTapped(session: bool) returns (effect: Effect)
      modifies this
      ensures (State(), effect) == DoDownload(old(State()), session)
    {
      if cloudBusy { return Nothing; }
      if !session { return Nothing; }
      cloudBusy := true;
      return AskPull;
    }

    method PullArrived(ok: bool, exists_: bool, imported: bool, revision: nat)
      modifies this
      ensures State() == OnPull(old(State()), ok, exists_, imported, revision)
    {
      cloudBusy := false;
      if !ok { return; }
      if !exists_ { return; }
      if !imported { return; }
      syncedRevision := revision;
    }
  }
}
