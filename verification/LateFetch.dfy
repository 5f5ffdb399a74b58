/** Image fetches that return after their screen has moved on: the generation counter and the alive flag. */
module LateFetch {
  import opened Wrappers

  /** The counter is an unsigned 64-bit number and wraps. */
  const Wrap: nat := 0x1_0000_0000_0000_0000

  datatype Picture = Picture(url: string, bytes: seq<int>)

  /** An image view on the screen, for one entry. */
  datatype Card = Card(url: string, shown: Option<Picture>)

  /** What the worker came back with. */
  datatype Answer = Waiting | Failed | Fetched(picture: Picture)

  /** A fetch on its way: the view it is for, the generation it was dispatched in, the true number of rebuilds at that
      moment (which the program does not keep) and its answer. */
  datatype Job = Job(view: nat, url: string, gen: nat, born: nat, answer: Answer)

  /** A screen, its fetches, and whether a picture was ever written to a view that no longer exists. Views are
      numbered by allocation and never again with the same number. */
  datatype State = State(
    alive: bool,
    gen: nat,
    rebuilds: nat,
    cards: map<nat, Card>,
    made: nat,
    jobs: seq<Job>,
    wroteFreed: bool)

  datatype Event =
    | Rebuild(urls: seq<string>)
    | Finish(job: nat, ok: bool, bytes: seq<int>)
    | Deliver(job: nat)
    | Destroy

  const Opened := State(true, 0, 0, map[], 0, [], false)

  // ----- the steps

  /** Adding a card and asking for its picture; an entry without an address gets no fetch. */
  function AddCard(s: State, url: string): State {
    s.(
      cards := s.cards[s.made := Card(url, None)],
      made := s.made + 1,
      jobs := if url == "" then s.jobs else s.jobs + [Job(s.made, url, s.gen, s.rebuilds, Waiting)])
  }

  function AddCards(s: State, urls: seq<string>): State {
    if urls == [] then s else AddCard(AddCards(s, urls[..|urls| - 1]), urls[|urls| - 1])
  }

  function Cleared(s: State): State {
    s.(gen := (s.gen + 1) % Wrap, rebuilds := s.rebuilds + 1, cards := map[])
  }

  /** Both guards let the continuation through. */
  predicate Passes(s: State, j: Job) {
    s.alive && s.gen == j.gen
  }

  function Delivered(s: State, k: nat): State
    requires k < |s.jobs|
  {
    var j := s.jobs[k];
    var rest := s.(jobs := s.jobs[..k] + s.jobs[k + 1..]);
    if !Passes(s, j) || !j.answer.Fetched? then rest
    else if j.view in s.cards then rest.(cards := s.cards[j.view := s.cards[j.view].(shown := Some(j.answer.picture))])
    else rest.(wroteFreed := true)
  }

  /** An event that is not possible in a state leaves it as it is. */
  function Next(s: State, e: Event): State {
    match e
    case Rebuild(urls) => if s.alive then AddCards(Cleared(s), urls) else s
    case Finish(k, ok, bytes) =>
      if k < |s.jobs| && s.jobs[k].answer == Waiting then
        s.(jobs := s.jobs[k := s.jobs[k].(answer := if ok then Fetched(Picture(s.jobs[k].url, bytes)) else Failed)])
      else s
    case Deliver(k) => if k < |s.jobs| && s.jobs[k].answer != Waiting then Delivered(s, k) else s
    case Destroy => s.(alive := false, cards := map[])
  }

  function Run(s: State, events: seq<Event>): State {
    if events == [] then s else Next(Run(s, events[..|events| - 1]), events[|events| - 1])
  }

  // ----- what every run keeps

  /** A fetch was born in some rebuild; its view is on the screen exactly while that rebuild is the last one and the
      screen is alive. */
  predicate JobFits(s: State, j: Job) {
    && j.born <= s.rebuilds && j.gen == j.born % Wrap && j.view < s.made
    && (j.view in s.cards <==> s.alive && j.born == s.rebuilds)
    && (j.view in s.cards ==> s.cards[j.view].url == j.url)
    && (j.answer.Fetched? ==> j.answer.picture.url == j.url)
  }

  predicate CardFits(s: State, v: nat)
    requires v in s.cards
  {
    v < s.made && (s.cards[v].shown.Some? ==> s.cards[v].shown.value.url == s.cards[v].url)
  }

  predicate Fits(s: State) {
    && s.gen == s.rebuilds % Wrap
    && (forall k :: 0 <= k < |s.jobs| ==> JobFits(s, s.jobs[k]))
    && (forall v :: v in s.cards ==> CardFits(s, v))
  }

  lemma {:induction false} AddCardsFits(s: State, urls: seq<string>)
    requires Fits(s) && s.alive
    ensures
      var r := AddCards(s, urls);
      Fits(r) && r.alive && r.rebuilds == s.rebuilds && r.wroteFreed == s.wroteFreed
  {
    if urls != [] {
      AddCardsFits(s, urls[..|urls| - 1]);
      var p, r := AddCards(s, urls[..|urls| - 1]), AddCards(s, urls);
      forall k | 0 <= k < |r.jobs|
        ensures JobFits(r, r.jobs[k])
      {
        if k < |p.jobs| {
          assert JobFits(p, p.jobs[k]);
        }
      }
      forall v | v in r.cards
        ensures CardFits(r, v)
      {
        if v != p.made {
          assert CardFits(p, v);
        }
      }
    }
  }

  lemma ClearedFits(s: State)
    requires Fits(s)
    ensures Fits(Cleared(s))
  {
    var r := Cleared(s);
    forall k | 0 <= k < |r.jobs|
      ensures JobFits(r, r.jobs[k])
    {
      assert JobFits(s, s.jobs[k]);
    }
  }

  lemma NextFits(s: State, e: Event)
    requires Fits(s)
    ensures Fits(Next(s, e))
  {
    var r := Next(s, e);
    if e.Rebuild? {
      if s.alive {
        ClearedFits(s);
        AddCardsFits(Cleared(s), e.urls);
      }
    } else {
      forall k | 0 <= k < |r.jobs|
        ensures JobFits(r, r.jobs[k])
      {
        assert k < |s.jobs| && JobFits(s, s.jobs[k]);
        if k + 1 < |s.jobs| {
          assert JobFits(s, s.jobs[k + 1]);
        }
      }
      forall v | v in r.cards
        ensures CardFits(r, v)
      {
        assert CardFits(s, v);
        if e.Deliver? && e.job < |s.jobs| {
          assert JobFits(s, s.jobs[e.job]);
        }
      }
    }
  }

  lemma {:induction false} RunFits(events: seq<Event>)
    ensures Fits(Run(Opened, events))
  {
    if events != [] {
      RunFits(events[..|events| - 1]);
      NextFits(Run(Opened, events[..|events| - 1]), events[|events| - 1]);
    }
  }

  // ----- the guarantees

  /** Whatever happened before, a continuation passes both guards exactly when its screen is alive and the rebuilds since
      its dispatch are a multiple of 2^64, and its view is then one of the current grid exactly when there were none. */
  lemma PassesExactly(events: seq<Event>, k: nat)
    requires k < |Run(Opened, events).jobs|
    ensures
      var s := Run(Opened, events);
      var j := s.jobs[k];
      && (Passes(s, j) <==> s.alive && (s.rebuilds - j.born) % Wrap == 0)
      && (j.view in s.cards <==> s.alive && s.rebuilds == j.born)
  {
    RunFits(events);
    var s := Run(Opened, events);
    assert JobFits(s, s.jobs[k]);
    SameRemainder(s.rebuilds, s.jobs[k].born);
  }

  lemma SameRemainder(a: nat, b: nat)
    requires b <= a
    ensures a % Wrap == b % Wrap <==> (a - b) % Wrap == 0
  {
    assert a == a / Wrap * Wrap + a % Wrap && b == b / Wrap * Wrap + b % Wrap;
    if (a - b) % Wrap == 0 {
      assert a - b == (a - b) / Wrap * Wrap;
    }
  }

  function Rebuilds(events: seq<Event>): nat {
    if events == [] then 0
    else Rebuilds(events[..|events| - 1]) + if events[|events| - 1].Rebuild? then 1 else 0
  }

  /** In every interleaving with fewer than 2^64 rebuilds, no picture is ever written to a view that is gone. */
  lemma {:induction false} NeverWritesFreed(events: seq<Event>)
    requires Rebuilds(events) < Wrap
    ensures Run(Opened, events).rebuilds <= Rebuilds(events)
    ensures !Run(Opened, events).wroteFreed
  {
    if events != [] {
      var before, e := events[..|events| - 1], events[|events| - 1];
      var s := Run(Opened, before);
      NeverWritesFreed(before);
      RunFits(before);
      if e.Rebuild? && s.alive {
        ClearedFits(s);
        AddCardsFits(Cleared(s), e.urls);
      } else if e.Deliver? && e.job < |s.jobs| {
        PassesExactly(before, e.job);
        assert JobFits(s, s.jobs[e.job]);
      }
    }
  }

  /** Every picture on the screen was fetched for the entry it is shown on, however long the run. */
  lemma OwnPictures(events: seq<Event>, v: nat)
    requires v in Run(Opened, events).cards && Run(Opened, events).cards[v].shown.Some?
    ensures Run(Opened, events).cards[v].shown.value.url == Run(Opened, events).cards[v].url
  {
    RunFits(events);
    assert CardFits(Run(Opened, events), v);
  }

  /** The guards drop nothing that is still wanted: a fetched picture whose view is still there gets shown. */
  lemma WantedIsShown(events: seq<Event>, k: nat)
    requires
      var s := Run(Opened, events);
      k < |s.jobs| && s.jobs[k].answer.Fetched? && s.jobs[k].view in s.cards
    ensures
      var j := Run(Opened, events).jobs[k];
      var r := Run(Opened, events + [Deliver(k)]);
      j.view in r.cards && r.cards[j.view] == Card(j.url, Some(j.answer.picture))
  {
    var s := Run(Opened, events);
    assert (events + [Deliver(k)])[..|events|] == events;
    RunFits(events);
    assert JobFits(s, s.jobs[k]);
    PassesExactly(events, k);
  }

  /** The generation alone would not do: when a screen is destroyed, the fetches of its last grid still carry the
      right generation, their views are gone, and only the alive flag stops them. */
  lemma AliveIsNeeded(events: seq<Event>, k: nat)
    requires
      var s := Run(Opened, events);
      k < |s.jobs| && s.jobs[k].view in s.cards
    ensures
      var r := Run(Opened, events + [Destroy]);
      k < |r.jobs| && r.gen == r.jobs[k].gen && r.jobs[k].view !in r.cards && !Passes(r, r.jobs[k])
  {
    assert (events + [Destroy])[..|events|] == events;
    RunFits(events);
    assert JobFits(Run(Opened, events), Run(Opened, events).jobs[k]);
  }

  /** A fetch for the card is on its way, dispatched in the current generation. */
  predicate Awaited(s: State, view: nat, url: string) {
    exists i :: 0 <= i < |s.jobs| && s.jobs[i] == Job(view, url, s.gen, s.rebuilds, Waiting)
  }

  /** After a rebuild every entry has its card, in order, and every entry with an address a fetch on its way for that
      very card, which the guards will let through. */
  lemma RebuildAsks(s: State, urls: seq<string>, k: nat)
    requires s.alive && k < |urls|
    ensures
      var r := Next(s, Rebuild(urls));
      && r.alive && |r.cards| == |urls|
      && s.made + k in r.cards && r.cards[s.made + k] == Card(urls[k], None)
      && (urls[k] != "" ==> Awaited(r, s.made + k, urls[k]))
  {
    CardsAdded(Cleared(s), urls, k);
  }

  lemma {:induction false} CardsAdded(s: State, urls: seq<string>, k: nat)
    requires s.cards == map[] && s.alive
    ensures
      var r := AddCards(s, urls);
      && r.made == s.made + |urls| && r.alive && r.gen == s.gen && r.rebuilds == s.rebuilds && |r.cards| == |urls|
      && (forall v :: v in r.cards ==> s.made <= v < r.made)
      && (k < |urls| ==> s.made + k in r.cards && r.cards[s.made + k] == Card(urls[k], None))
      && (k < |urls| && urls[k] != "" ==> Awaited(r, s.made + k, urls[k]))
  {
    if urls != [] {
      var before, url := urls[..|urls| - 1], urls[|urls| - 1];
      CardsAdded(s, before, k);
      var p, r := AddCards(s, before), AddCards(s, urls);
      assert p.made !in p.cards;
      assert r.cards.Keys == p.cards.Keys + {p.made};
      if k < |before| && urls[k] != "" {
        var i :| 0 <= i < |p.jobs| && p.jobs[i] == Job(s.made + k, before[k], p.gen, p.rebuilds, Waiting);
        assert r.jobs[i] == p.jobs[i];
      } else if k == |before| && url != "" {
        assert r.jobs[|p.jobs|] == Job(p.made, url, p.gen, p.rebuilds, Waiting);
      }
    }
  }

  // ----- the screen as the program keeps it

  class Screen {
    var alive: bool
    var listGen: nat
    var cards: map<nat, Card>
    var jobs: seq<Job>
    // Only for stating the properties: allocations so far, rebuilds so far, and whether a freed view was written.
    var made: nat
    var rebuilds: nat
    var wroteFreed: bool

    function Now(): State
      reads this
    {
      State(alive, listGen, rebuilds, cards, made, jobs, wroteFreed)
    }

    constructor ()
      ensures Now() == Opened
    {
      alive, listGen, cards, jobs := true, 0, map[], [];
      made, rebuilds, wroteFreed := 0, 0, false;
    }

    method LoadThumb(url: string, into: nat)
      modifies this`jobs
      ensures jobs == if url == "" then old(jobs) else old(jobs) + [Job(into, url, listGen, rebuilds, Waiting)]
    {
      if url == "" {
        return;
      }
      jobs := jobs + [Job(into, url, listGen, rebuilds, Waiting)];
    }

    method Populate(urls: seq<string>)
      requires alive
      modifies this
      ensures Now() == Next(old(Now()), Rebuild(urls))
    {
      listGen := (listGen + 1) % Wrap;
      rebuilds := rebuilds + 1;
      cards := map[];
      for i := 0 to |urls|
        invariant Now() == AddCards(Cleared(old(Now())), urls[..i])
      {
        assert urls[..i + 1][..i] == urls[..i];
        var image := made;
        cards := cards[image := Card(urls[i], None)];
        made := made + 1;
        LoadThumb(urls[i], image);
      }
      assert urls[..|urls|] == urls;
    }

    /** The worker comes back; it touches nothing of the screen but its own answer. */
    method FinishFetch(k: nat, ok: bool, bytes: seq<int>)
      requires k < |jobs| && jobs[k].answer == Waiting
      modifies this`jobs
      ensures Now() == Next(old(Now()), Finish(k, ok, bytes))
    {
      var job := jobs[k];
      jobs := jobs[k := job.(answer := if ok then Fetched(Picture(job.url, bytes)) else Failed)];
    }

    /** The continuation, on the thread of the screen. */
    method RunContinuation(k: nat)
      requires k < |jobs| && jobs[k].answer != Waiting
      modifies this
      ensures Now() == Next(old(Now()), Deliver(k))
    {
      var job := jobs[k];
      jobs := jobs[..k] + jobs[k + 1..];
      if !alive {
        return;
      }
      if listGen != job.gen {
        return;
      }
      if !job.answer.Fetched? {
        return;
      }
      if job.view in cards {
        cards := cards[job.view := cards[job.view].(shown := Some(job.answer.picture))];
      } else {
        wroteFreed := true;
      }
    }

    method Close()
      modifies this
      ensures Now() == Next(old(Now()), Destroy)
    {
      alive := false;
      cards := map[];
    }
  }
}
