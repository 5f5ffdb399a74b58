/** Whole uploads, downloads and retries of a device that nobody disturbs. */
module CloudRounds {
  import opened Wrappers
  import opened CloudSync
  import opened CloudRuns
  import opened CloudRetries
  import opened CloudSettles

  /** A screen with nothing going on. */
  predicate Resting(s: System, d: nat) {
    d < |s.devices| && !s.devices[d].ui.busy && s.devices[d].dialogs == []
  }

  /** The cloud holds nothing newer than the device knows of. */
  predicate NotAhead(s: System, d: nat) {
    d < |s.devices| && (s.slot.Some? ==> s.slot.value.revision <= s.devices[d].ui.synced)
  }

  function SlotRevision(s: System): nat {
    if s.slot.Some? then s.slot.value.revision else 0
  }

  /** The device's newest flight is `r`, after `fs`; no dialog. */
  predicate Waits(s: System, d: nat, fs: seq<Flight>, r: Request, retries: nat, synced: nat) {
    && d < |s.devices| && s.devices[d].flights == fs + [Flight(true, r)] && s.devices[d].dialogs == []
    && s.devices[d].ui == Ui(true, retries, synced)
  }

  lemma Tapped(s: System, d: nat)
    requires Resting(s, d)
    ensures Enabled(s, TapUpload(d, true)) && Modal(s, TapUpload(d, true))
    ensures
      var s' := Apply(s, TapUpload(d, true));
      Waits(s', d, s.devices[d].flights, StatusAsked, 0, s.devices[d].ui.synced) && s'.slot == s.slot && s'.commits == s.commits
  {
  }

  lemma LastRemoved(fs: seq<Flight>, f: Flight)
    ensures Remove(fs + [f], |fs|) == fs
  {
  }

  /** A status that finds nothing newer: the push goes out at the slot's revision. */
  lemma StatusRound(s: System, d: nat, fs: seq<Flight>, retries: nat, synced: nat) returns (s1: System, s2: System)
    requires Waits(s, d, fs, StatusAsked, retries, synced) && NotAhead(s, d)
    ensures Enabled(s, ServeStatus(d, |fs|, true)) && s1 == Apply(s, ServeStatus(d, |fs|, true))
    ensures Enabled(s1, DeliverStatus(d, |fs|)) && s2 == Apply(s1, DeliverStatus(d, |fs|))
    ensures s1.devices[d].flights[|fs|].live && s2.slot == s.slot && s2.commits == s.commits
    ensures Waits(s2, d, fs, PushAsked(SlotRevision(s)), retries, synced)
  {
    s1 := Apply(s, ServeStatus(d, |fs|, true));
    var f := Flight(true, StatusAnswered(true, s.slot));
    assert s1.devices[d].flights == fs + [f];
    s2 := Apply(s1, DeliverStatus(d, |fs|));
    LastRemoved(fs, f);
  }

  function UploadEvents(d: nat, k: nat): seq<Event> {
    [TapUpload(d, true), ServeStatus(d, k, true), DeliverStatus(d, k), CheckPush(d, k), CommitPush(d, k, true),
     DeliverPush(d, k, true)]
  }

  /** An upload from a device that is not behind, with nobody in between: it is accepted without a dialog, the slot moves
      on by one, and the device is not behind afterwards, so the next upload goes the same way. */
  lemma UploadRound(s: System, d: nat)
    requires Resting(s, d) && NotAhead(s, d)
    ensures ValidRun(s, UploadEvents(d, |s.devices[d].flights|))
    ensures
      var s' := After(s, UploadEvents(d, |s.devices[d].flights|));
      && Resting(s', d) && NotAhead(s', d) && s'.devices[d].flights == s.devices[d].flights
      && s'.slot == Some(Slot(SlotRevision(s) + 1, s.commits)) && s'.devices[d].ui.synced == SlotRevision(s) + 1
  {
    hide Apply, Enabled;
    var fs, synced := s.devices[d].flights, s.devices[d].ui.synced;
    var k := |fs|;
    Tapped(s, d);
    var s1 := Apply(s, TapUpload(d, true));
    var s2, s3 := StatusRound(s1, d, fs, 0, synced);
    var s4, s5, s6 := PushRound(s3, d, fs, 0, synced);
    Six(s, UploadEvents(d, k), s1, s2, s3, s4, s5, s6);
  }

  lemma PushRound(s: System, d: nat, fs: seq<Flight>, retries: nat, synced: nat)
    returns (s1: System, s2: System, s3: System)
    requires Waits(s, d, fs, PushAsked(SlotRevision(s)), retries, synced)
    ensures Enabled(s, CheckPush(d, |fs|)) && s1 == Apply(s, CheckPush(d, |fs|))
    ensures Enabled(s1, CommitPush(d, |fs|, true)) && s2 == Apply(s1, CommitPush(d, |fs|, true))
    ensures Enabled(s2, DeliverPush(d, |fs|, true)) && s3 == Apply(s2, DeliverPush(d, |fs|, true))
    ensures Resting(s3, d) && s3.devices[d].flights == fs && s3.devices[d].ui.synced == SlotRevision(s) + 1
    ensures s3.slot == Some(Slot(SlotRevision(s) + 1, s.commits))
  {
    s1 := Apply(s, CheckPush(d, |fs|));
    assert s1.devices[d].flights == fs + [Flight(true, PushChecked(s.slot))];
    s2 := Apply(s1, CommitPush(d, |fs|, true));
    var f := Flight(true, PushAnswered(Accepted(SlotRevision(s) + 1)));
    assert s2.devices[d].flights == fs + [f];
    s3 := Apply(s2, DeliverPush(d, |fs|, true));
    LastRemoved(fs, f);
  }

  lemma Four(s: System, es: seq<Event>, s1: System, s2: System, s3: System, s4: System)
    requires |es| == 4 && Enabled(s, es[0]) && s1 == Apply(s, es[0]) && Enabled(s1, es[1]) && s2 == Apply(s1, es[1])
    requires Enabled(s2, es[2]) && s3 == Apply(s2, es[2]) && Enabled(s3, es[3]) && s4 == Apply(s3, es[3])
    ensures ValidRun(s, es) && After(s, es) == s4
  {
    hide Apply, Enabled;
    assert ValidRun(s3, es[3..]) && After(s3, es[3..]) == s4;
    assert es[2..][1..] == es[3..];
    assert ValidRun(s2, es[2..]) && After(s2, es[2..]) == s4;
    assert es[1..][1..] == es[2..];
    assert ValidRun(s1, es[1..]) && After(s1, es[1..]) == s4;
  }

  /** Six enabled steps are a run. */
  lemma Six(s: System, es: seq<Event>, s1: System, s2: System, s3: System, s4: System, s5: System, s6: System)
    requires |es| == 6 && Enabled(s, es[0]) && s1 == Apply(s, es[0]) && Enabled(s1, es[1]) && s2 == Apply(s1, es[1])
    requires Enabled(s2, es[2]) && s3 == Apply(s2, es[2]) && Enabled(s3, es[3]) && s4 == Apply(s3, es[3])
    requires Enabled(s4, es[4]) && s5 == Apply(s4, es[4]) && Enabled(s5, es[5]) && s6 == Apply(s5, es[5])
    ensures ValidRun(s, es) && After(s, es) == s6
  {
    hide Apply, Enabled;
    Four(s2, es[2..], s3, s4, s5, s6);
    assert es[1..][1..] == es[2..];
    assert ValidRun(s1, es[1..]) && After(s1, es[1..]) == s6;
  }

  function DownloadEvents(d: nat, k: nat): seq<Event> {
    [TapDownload(d, true), ServePull(d, k, true, true), DeliverPull(d, k)]
  }

  /** A download of what the cloud holds leaves a device that is not behind, however far behind it was. */
  lemma DownloadRound(s: System, d: nat)
    requires Resting(s, d) && s.slot.Some?
    ensures ValidRun(s, DownloadEvents(d, |s.devices[d].flights|))
    ensures
      var s' := After(s, DownloadEvents(d, |s.devices[d].flights|));
      && Resting(s', d) && NotAhead(s', d) && s'.slot == s.slot && s'.devices[d].ui.synced == SlotRevision(s)
  {
    var fs := s.devices[d].flights;
    var k := |fs|;
    var es := DownloadEvents(d, k);
    var s1 := Apply(s, es[0]);
    assert s1.devices[d].flights == fs + [Flight(true, PullAsked)];
    var s2 := Apply(s1, es[1]);
    var f := Flight(true, PullAnswered(true, s.slot, true));
    assert s2.devices[d].flights == fs + [f];
    LastRemoved(fs, f);
    var s3 := Apply(s2, es[2]);
    assert s3.devices[d].ui.synced == SlotRevision(s);
    assert es[1..][1..] == es[2..] && es[2..][1..] == [];
    hide Apply, Enabled, Resting, NotAhead;
    assert ValidRun(s2, es[2..]) && After(s2, es[2..]) == s3;
    assert ValidRun(s1, es[1..]) && After(s1, es[1..]) == s3;
  }

  /** A device that is behind is asked: its status opens a dialog about the slot that was found, and sends nothing. */
  lemma BehindAsks(s: System, d: nat, k: nat)
    requires StatusSucceeded(s, d, k) && s.devices[d].flights[k].request.cloud.Some?
    requires s.devices[d].flights[k].request.cloud.value.revision > s.devices[d].ui.synced
    ensures
      var dev, dev' := s.devices[d], Apply(s, DeliverStatus(d, k)).devices[d];
      && dev'.dialogs == dev.dialogs + [dev.flights[k].request.cloud.value] && !dev'.ui.busy
      && dev'.flights == dev.flights[..k] + dev.flights[k + 1..]
  {
  }

  function SendMineEvents(d: nat, k: nat): seq<Event> {
    [SendMine(d, 0), CheckPush(d, k), CommitPush(d, k, true), DeliverPush(d, k, true)]
  }

  /** "Send mine" on a dialog about the slot as it still is replaces it, and the device is not behind afterwards. */
  lemma SendMineRound(s: System, d: nat)
    requires d < |s.devices| && s.slot.Some? && s.devices[d].dialogs == [s.slot.value]
    ensures ValidRun(s, SendMineEvents(d, |s.devices[d].flights|))
    ensures
      var s' := After(s, SendMineEvents(d, |s.devices[d].flights|));
      && Resting(s', d) && NotAhead(s', d) && s'.slot == Some(Slot(SlotRevision(s) + 1, s.commits))
      && s'.devices[d].ui.synced == SlotRevision(s) + 1
  {
    var fs, ui := s.devices[d].flights, s.devices[d].ui;
    var k := |fs|;
    var es := SendMineEvents(d, k);
    var s1 := Apply(s, es[0]);
    assert s1.devices[d].dialogs == [];
    var s2, s3, s4 := PushRound(s1, d, fs, ui.retries, ui.synced);
    hide Apply, Enabled, Resting, NotAhead, Waits;
    Four(s, es, s1, s2, s3, s4);
  }

  /** "Keep cloud" fetches the slot like a tapped download. */
  lemma KeepCloudAsks(s: System, d: nat, j: nat)
    requires Enabled(s, KeepCloud(d, j, true)) && !s.devices[d].ui.busy
    ensures
      var dev, dev' := s.devices[d], Apply(s, KeepCloud(d, j, true)).devices[d];
      && dev'.dialogs == dev.dialogs[..j] + dev.dialogs[j + 1..] && dev'.ui.busy
      && dev'.flights == dev.flights + [Flight(true, PullAsked)]
  {
  }

  /** A conflict below the cap asks for the status again; at the cap the screen gives up and clears its count. */
  lemma ConflictRound(s: System, d: nat, fs: seq<Flight>, revision: nat, retries: nat, synced: nat)
    returns (s1: System, s2: System)
    requires Waits(s, d, fs, PushAsked(revision), retries, synced)
    ensures Enabled(s, FailPush(d, |fs|, Conflict)) && s1 == Apply(s, FailPush(d, |fs|, Conflict))
    ensures Enabled(s1, DeliverPush(d, |fs|, true)) && s2 == Apply(s1, DeliverPush(d, |fs|, true))
    ensures s1.devices[d].flights[|fs|].live && s2.slot == s.slot
    ensures retries < 2 ==> Waits(s2, d, fs, StatusAsked, retries + 1, synced)
    ensures retries >= 2 ==> Resting(s2, d) && s2.devices[d].flights == fs && s2.devices[d].ui == Ui(false, 0, synced)
  {
    s1 := Apply(s, FailPush(d, |fs|, Conflict));
    var f := Flight(true, PushAnswered(Conflict));
    assert s1.devices[d].flights == fs + [f];
    s2 := Apply(s1, DeliverPush(d, |fs|, true));
    LastRemoved(fs, f);
  }

  lemma TotalsCons(s: System, e: Event, es: seq<Event>, d: nat)
    requires Enabled(s, e) && Modal(s, e) && ModalRun(Apply(s, e), es)
    ensures ModalRun(s, [e] + es)
    ensures TotalPushes(s, [e] + es, d) == PushesSent(s, e, d) + TotalPushes(Apply(s, e), es, d)
    ensures TotalReuploads(s, [e] + es, d) == Reuploads(s, e, d) + TotalReuploads(Apply(s, e), es, d)
    ensures ValidRun(Apply(s, e), es) && ValidRun(s, [e] + es)
    ensures After(s, [e] + es) == After(Apply(s, e), es) && (!UserActs(e, d) && NoUser(es, d) ==> NoUser([e] + es, d))
  {
    hide Apply, Enabled, PushesSent, Reuploads, Modal;
    assert ([e] + es)[1..] == es;
    ModalIsValid(Apply(s, e), es);
    assert ValidRun(s, [e] + es);
  }

  lemma {:induction false} ModalIsValid(s: System, es: seq<Event>)
    requires ModalRun(s, es)
    ensures ValidRun(s, es)
    decreases |es|
  {
    if es != [] {
      ModalIsValid(Apply(s, es[0]), es[1..]);
    }
  }

  lemma {:induction false} Retries(s: System, d: nat, fs: seq<Flight>, retries: nat, synced: nat) returns (es: seq<Event>)
    requires Waits(s, d, fs, StatusAsked, retries, synced) && NotAhead(s, d) && retries <= 2
    ensures ModalRun(s, es) && ValidRun(s, es) && NoUser(es, d)
    ensures TotalPushes(s, es, d) == 3 - retries && TotalReuploads(s, es, d) == 2 - retries
    ensures var s' := After(s, es); Resting(s', d) && s'.devices[d].flights == fs && s'.devices[d].ui == Ui(false, 0, synced)
    decreases 2 - retries
  {
    var k := |fs|;
    var s1, s2 := StatusRound(s, d, fs, retries, synced);
    var s3, s4 := ConflictRound(s2, d, fs, SlotRevision(s), retries, synced);
    OnePush(s, s1, s2, s3, d, fs, retries, synced);
    var tail := [];
    if retries < 2 {
      tail := Retries(s4, d, fs, retries + 1, synced);
    }
    hide Apply, Enabled, PushesSent, Reuploads, Waits, NotAhead;
    TotalsCons(s3, DeliverPush(d, k, true), tail, d);
    es := [DeliverPush(d, k, true)] + tail;
    TotalsCons(s2, FailPush(d, k, Conflict), es, d);
    es := [FailPush(d, k, Conflict)] + es;
    TotalsCons(s1, DeliverStatus(d, k), es, d);
    es := [DeliverStatus(d, k)] + es;
    TotalsCons(s, ServeStatus(d, k, true), es, d);
    es := [ServeStatus(d, k, true)] + es;
  }

  lemma OnePush(s: System, s1: System, s2: System, s3: System, d: nat, fs: seq<Flight>, retries: nat, synced: nat)
    requires Waits(s, d, fs, StatusAsked, retries, synced) && NotAhead(s, d)
    requires Enabled(s, ServeStatus(d, |fs|, true)) && s1 == Apply(s, ServeStatus(d, |fs|, true))
    requires Enabled(s1, DeliverStatus(d, |fs|)) && s2 == Apply(s1, DeliverStatus(d, |fs|))
    requires Waits(s2, d, fs, PushAsked(SlotRevision(s)), retries, synced)
    requires Enabled(s2, FailPush(d, |fs|, Conflict)) && s3 == Apply(s2, FailPush(d, |fs|, Conflict))
    requires Enabled(s3, DeliverPush(d, |fs|, true))
    ensures PushesSent(s, ServeStatus(d, |fs|, true), d) == 0 && Reuploads(s, ServeStatus(d, |fs|, true), d) == 0
    ensures PushesSent(s1, DeliverStatus(d, |fs|), d) == 1 && Reuploads(s1, DeliverStatus(d, |fs|), d) == 0
    ensures PushesSent(s2, FailPush(d, |fs|, Conflict), d) == 0 && Reuploads(s2, FailPush(d, |fs|, Conflict), d) == 0
    ensures PushesSent(s3, DeliverPush(d, |fs|, true), d) == 0
    ensures Reuploads(s3, DeliverPush(d, |fs|, true), d) == (if retries < 2 then 1 else 0)
  {
    assert s1.devices[d].flights[|fs|] == Flight(true, StatusAnswered(true, s.slot));
    assert s3.devices[d].flights[|fs|] == Flight(true, PushAnswered(Conflict));
  }

  /** The cap is reached: whenever a device that is not behind taps upload and the server answers every push with a
      conflict, three pushes go out, two of them retries, and then the screen rests with its count cleared. */
  lemma RetriesReachTheCap(s: System, d: nat) returns (es: seq<Event>)
    requires Resting(s, d) && NotAhead(s, d)
    ensures ModalRun(s, [TapUpload(d, true)] + es) && NoUser(es, d) && ModalRun(Apply(s, TapUpload(d, true)), es)
    ensures TotalPushes(Apply(s, TapUpload(d, true)), es, d) == 3
    ensures TotalReuploads(Apply(s, TapUpload(d, true)), es, d) == 2
    ensures ValidRun(Apply(s, TapUpload(d, true)), es)
    ensures
      var s' := After(Apply(s, TapUpload(d, true)), es);
      Resting(s', d) && s'.devices[d].ui.retries == 0 && s'.devices[d].flights == s.devices[d].flights
  {
    var fs, synced := s.devices[d].flights, s.devices[d].ui.synced;
    Tapped(s, d);
    var s0 := Apply(s, TapUpload(d, true));
    es := Retries(s0, d, fs, 0, synced);
    TotalsCons(s, TapUpload(d, true), es, d);
  }
}
