/** The display of chat messages in chunks, as a protocol: what is still to be shown, and what
    each event of the view's life does to it. */
module MessageQueue {

  datatype Entry = Entry(msg: string, context: bool, firstUnread: bool)

  datatype Shown = Shown(entry: Entry, noAutoScroll: bool)

  /** What an idle deadline answers each time it is asked how much time remains. */
  type Timing = nat -> int

  /** `appended` and `shown` count from the last page load. `idle` callbacks are outstanding. */
  datatype Queue = Queue(backlog: seq<Entry>, shown: seq<Shown>, appended: seq<Entry>,
                         draining: bool, active: bool, loaded: bool, destroyed: bool,
                         listening: bool, idle: nat)

  datatype Event =
    | Append(entry: Entry)
    | SetActive(value: bool, timing: Timing)
    | Idle(timing: Timing)
    | Init
    | Load
    | Destroy

  /** How many of `total` messages are shown when `done` have been: one more, and then on until
      they run out or no more than 2 ms remain. */
  function Quota(timing: Timing, total: nat, done: nat): (n: nat)
    requires done <= total
    ensures done <= n <= total
    ensures done < total ==> done < n
    decreases total - done
  {
    if done == total then total
    else if timing(done) > 2 then Quota(timing, total, done + 1)
    else done + 1
  }

  /** A backlog as it is shown: only its last message may scroll the view. */
  function Marked(backlog: seq<Entry>): (s: seq<Shown>)
    ensures |s| == |backlog|
  {
    seq(|backlog|, i requires 0 <= i < |backlog| => Shown(backlog[i], i + 1 < |backlog|))
  }

  function Display(q: Queue, timing: Timing): Queue {
    if !q.draining then q
    else
      var n := Quota(timing, |q.backlog|, 0);
      var q' := q.(backlog := q.backlog[n..], shown := q.shown + Marked(q.backlog)[..n]);
      if q'.backlog != [] then q'.(idle := q.idle + 1) else q'.(draining := false)
  }

  function Step(q: Queue, e: Event): Queue {
    match e
    case Append(entry) =>
      var q' := q.(backlog := q.backlog + [entry], appended := q.appended + [entry]);
      if q.active && !q.draining then q'.(draining := true, idle := q.idle + 1) else q'
    case SetActive(value, timing) =>
      var q' := q.(active := value);
      if value && q.backlog != [] && !q.draining then Display(q'.(draining := true), timing) else q'
    case Idle(timing) =>
      if q.idle == 0 then q else Display(q.(idle := q.idle - 1), timing)
    case Init =>
      q.(draining := false, listening := true, loaded := false)
    case Load =>
      if q.listening then
        q.(backlog := [], shown := [], appended := [], draining := false, listening := false, loaded := true)
      else q
    case Destroy =>
      if q.destroyed then q else q.(draining := false, loaded := false, destroyed := true)
  }

  function Start(active: bool): Queue {
    Queue([], [], [], false, active, false, false, false, 0)
  }

  function Run(q: Queue, events: seq<Event>): Queue
    decreases |events|
  {
    if events == [] then q else Run(Step(q, events[0]), events[1..])
  }

  function Entries(shown: seq<Shown>): (es: seq<Entry>)
    ensures |es| == |shown|
  {
    seq(|shown|, i requires 0 <= i < |shown| => shown[i].entry)
  }

  // ---- what every reachable state satisfies --------------------------------------------------

  /** First in, first out, nothing lost and nothing twice. */
  ghost predicate InOrder(q: Queue) {
    q.appended == Entries(q.shown) + q.backlog
  }

  /** A drain has something to show and a callback that will show it; in a loaded, active view
      whatever is unshown is being drained. */
  ghost predicate NotStranded(q: Queue) {
    && (q.draining ==> q.backlog != [] && q.idle > 0)
    && (q.loaded && q.active && q.backlog != [] ==> q.draining)
  }

  /** Once everything is shown, the last message shown was allowed to scroll. */
  ghost predicate Settled(q: Queue) {
    q.backlog == [] && q.shown != [] ==> !q.shown[|q.shown| - 1].noAutoScroll
  }

  ghost predicate Inv(q: Queue) {
    InOrder(q) && NotStranded(q) && Settled(q)
  }

  lemma EntriesMarked(backlog: seq<Entry>, n: nat, shown: seq<Shown>)
    requires n <= |backlog|
    ensures Entries(shown + Marked(backlog)[..n]) == Entries(shown) + backlog[..n]
  {
  }

  lemma DisplayInv(q: Queue, timing: Timing)
    requires InOrder(q) && Settled(q)
    requires q.draining ==> q.backlog != []
    requires !q.draining ==> NotStranded(q)
    ensures Inv(Display(q, timing))
  {
    if q.draining {
      hide Quota, Entries;
      var n := Quota(timing, |q.backlog|, 0);
      EntriesMarked(q.backlog, n, q.shown);
      assert q.backlog == q.backlog[..n] + q.backlog[n..];
    }
  }

  lemma StepInv(q: Queue, e: Event)
    requires Inv(q)
    ensures Inv(Step(q, e))
  {
    match e
    case SetActive(value, timing) =>
      if value && q.backlog != [] && !q.draining {
        DisplayInv(q.(active := value, draining := true), timing);
      }
    case Idle(timing) =>
      if q.idle > 0 {
        DisplayInv(q.(idle := q.idle - 1), timing);
      }
    case _ =>
  }

  /** Over every run from a fresh view, stale callbacks included. */
  lemma {:induction false} RunInv(q: Queue, events: seq<Event>)
    requires Inv(q)
    ensures Inv(Run(q, events))
    decreases |events|
  {
    if events != [] {
      StepInv(q, events[0]);
      RunInv(Step(q, events[0]), events[1..]);
    }
  }

  /** What happens to the view from outside, the messages sent to it included. */
  datatype Page = Page(sent: seq<Entry>, active: bool, loaded: bool, listening: bool, destroyed: bool)

  function PageStep(p: Page, e: Event): Page {
    match e
    case Append(entry) => p.(sent := p.sent + [entry])
    case SetActive(value, _) => p.(active := value)
    case Idle(_) => p
    case Init => p.(listening := true, loaded := false)
    case Load => if p.listening then p.(sent := [], listening := false, loaded := true) else p
    case Destroy => if p.destroyed then p else p.(loaded := false, destroyed := true)
  }

  /** The page after `events`, which no display has any part in. */
  function PageRun(p: Page, events: seq<Event>): Page
    decreases |events|
  {
    if events == [] then p else PageRun(PageStep(p, events[0]), events[1..])
  }

  function PageOf(q: Queue): Page {
    Page(q.appended, q.active, q.loaded, q.listening, q.destroyed)
  }

  lemma StepPage(q: Queue, e: Event)
    ensures PageOf(Step(q, e)) == PageStep(PageOf(q), e)
  {
    hide Quota, Marked;
  }

  lemma {:induction false} RunPage(q: Queue, events: seq<Event>)
    ensures PageOf(Run(q, events)) == PageRun(PageOf(q), events)
    decreases |events|
  {
    hide Step, PageStep, PageOf;
    if events != [] {
      StepPage(q, events[0]);
      RunPage(Step(q, events[0]), events[1..]);
    }
  }

  /** The messages sent since the page was loaded are those shown and then those still to show, in
      a loaded active view a backlog is being drained, and the last message was allowed to scroll
      when nothing is left. */
  lemma Safety(active: bool, events: seq<Event>)
    ensures
      var q, p := Run(Start(active), events), PageRun(Page([], active, false, false, false), events);
      && Inv(q)
      && p.sent == Entries(q.shown) + q.backlog
      && (p.loaded && p.active && q.backlog != [] ==> q.draining && q.idle > 0)
  {
    RunInv(Start(active), events);
    RunPage(Start(active), events);
  }

  // ---- when a drain begins and ends, and how many callbacks are outstanding ------------------

  /** The three events that stop a drain. */
  predicate Stops(q: Queue, e: Event) {
    e.Init? || (e.Load? && q.listening) || (e.Destroy? && !q.destroyed)
  }

  predicate Fires(q: Queue, e: Event) {
    e.Idle? && q.idle > 0
  }

  /** A drain goes on or begins exactly if messages are left, nothing stopped it, and it was on or a
      message or activation came to a view that is active then. Each start and each callback that
      leaves messages requests one callback, and nothing else does. */
  lemma StepDrains(q: Queue, e: Event)
    requires Inv(q)
    ensures
      var q' := Step(q, e);
      && q'.active == (if e.SetActive? then e.value else q.active)
      && (q'.draining <==> q'.backlog != [] && !Stops(q, e)
                           && (q.draining || (q'.active && (e.Append? || e.SetActive?))))
      && q'.idle == (if Fires(q, e) then q.idle - 1 else q.idle)
                    + (if q'.draining && (Fires(q, e) || !q.draining) then 1 else 0)
  {
  }

  /** The view is activated at some point. */
  ghost predicate Activated(events: seq<Event>) {
    exists e :: e in events && e.SetActive? && e.value
  }

  /** A view that is never active shows nothing and requests nothing. */
  lemma {:induction false} InactiveIsQuiet(q: Queue, events: seq<Event>)
    requires Inv(q) && !q.active && !q.draining && !Activated(events)
    ensures
      var q' := Run(q, events);
      && !q'.draining && !q'.active && q'.idle <= q.idle
      && (q'.shown == q.shown || q'.shown == [])
    decreases |events|
  {
    hide Step, Inv;
    if events != [] {
      var e := events[0];
      assert e in events && forall f :: f in events[1..] ==> f in events;
      StepInv(q, e);
      StepDrains(q, e);
      if e.Load? && q.listening {
        LoadClears(q);
      } else {
        var n := StepShows(q, e);
        assert q.shown + Marked(q.backlog)[..0] == q.shown;
      }
      InactiveIsQuiet(Step(q, e), events[1..]);
    }
  }

  lemma LoadClears(q: Queue)
    requires q.listening
    ensures Step(q, Load).shown == [] && Step(q, Load).backlog == []
  {
  }

  /** From a fresh view in the background: whatever is sent, loaded or called back. */
  lemma BackgroundView(events: seq<Event>)
    requires !Activated(events)
    ensures
      var q, p := Run(Start(false), events), PageRun(Page([], false, false, false, false), events);
      q.shown == [] && q.idle == 0 && !q.draining && q.backlog == p.sent
  {
    Safety(false, events);
    InactiveIsQuiet(Start(false), events);
  }

  /** The three events that can stop a drain. */
  predicate Reset(e: Event) {
    e.Init? || e.Load? || e.Destroy?
  }

  function Resets(events: seq<Event>): nat {
    if events == [] then 0
    else (if Reset(events[0]) then 1 else 0) + Resets(events[1..])
  }

  /** The callbacks that no drain waits for. */
  function Stale(q: Queue): int {
    q.idle - if q.draining then 1 else 0
  }

  lemma StaleStep(q: Queue, e: Event)
    requires Inv(q)
    ensures Stale(Step(q, e)) <= Stale(q) + if Reset(e) then 1 else 0
  {
    hide Marked, InOrder, Settled;
  }

  lemma {:induction false} FewStale(q: Queue, events: seq<Event>)
    requires Inv(q)
    ensures 0 <= Stale(Run(q, events)) <= Stale(q) + Resets(events)
    decreases |events|
  {
    hide Step, Reset, InOrder, Settled;
    if events != [] {
      StepInv(q, events[0]);
      StaleStep(q, events[0]);
      FewStale(Step(q, events[0]), events[1..]);
    }
  }

  /** A drain waits for one callback, however many messages come; every other one outstanding is
      left over from a drain that was stopped. */
  lemma OneCallback(active: bool, events: seq<Event>)
    ensures
      var q := Run(Start(active), events);
      && (if q.draining then 1 else 0) <= q.idle <= (if q.draining then 1 else 0) + Resets(events)
  {
    FewStale(Start(active), events);
  }

  // ---- what one event shows ------------------------------------------------------------------

  /** The time an event gives to a display, and whether it displays at all: a callback in a drain,
      and the activation of a view with a backlog that is not being drained. */
  predicate Displays(q: Queue, e: Event) {
    || (Fires(q, e) && q.draining)
    || (e.SetActive? && e.value && q.backlog != [] && !q.draining)
  }

  /** Of `total` messages `n` are shown: a first one, and then one for each time that more than 2 ms
      remain, until they do not or all are shown. */
  ghost predicate ChunkEnds(timing: Timing, total: nat, n: nat) {
    && 0 < n <= total
    && (forall k :: 0 <= k < n - 1 ==> timing(k) > 2)
    && (n < total ==> timing(n - 1) <= 2)
  }

  lemma {:induction false} QuotaEnds(timing: Timing, total: nat, done: nat)
    requires done < total
    ensures
      var n := Quota(timing, total, done);
      && (forall k :: done <= k < n - 1 ==> timing(k) > 2)
      && (n < total ==> timing(n - 1) <= 2)
    decreases total - done
  {
    if timing(done) > 2 && done + 1 < total {
      QuotaEnds(timing, total, done + 1);
    }
  }

  /** Any event but a reload shows some front part of the backlog there was when it began, marked
      as a whole backlog is marked: scrolling is allowed for its last message and no other. */
  lemma StepShows(q: Queue, e: Event) returns (n: nat)
    requires Inv(q) && !(e.Load? && q.listening)
    ensures n <= |q.backlog|
    ensures Step(q, e).shown == q.shown + Marked(q.backlog)[..n]
    ensures Step(q, e).backlog == (if e.Append? then q.backlog + [e.entry] else q.backlog)[n..]
    ensures q.draining && e.Idle? ==> n > 0 && Step(q, e).draining == (Step(q, e).backlog != [])
    ensures Displays(q, e) ==> ChunkEnds(e.timing, |q.backlog|, n)
    ensures !Displays(q, e) ==> n == 0
  {
    n := 0;
    if Displays(q, e) {
      QuotaEnds(e.timing, |q.backlog|, 0);
    }
    match e
    case SetActive(value, timing) =>
      if value && q.backlog != [] && !q.draining {
        n := Quota(timing, |q.backlog|, 0);
      }
    case Idle(timing) =>
      if q.draining {
        n := Quota(timing, |q.backlog|, 0);
      }
    case _ =>
    assert q.shown + Marked(q.backlog)[..0] == q.shown;
  }

  /** With time to spare a drain ends with the callback; without, it shows one message. */
  lemma ChunkBounds(q: Queue, e: Event)
    requires Inv(q) && Displays(q, e)
    ensures (forall k :: 0 <= k < |q.backlog| ==> e.timing(k) > 2) ==>
      Step(q, e).backlog == [] && Step(q, e).shown == q.shown + Marked(q.backlog)
    ensures e.timing(0) <= 2 ==>
      Step(q, e).backlog == q.backlog[1..] && Step(q, e).shown == q.shown + Marked(q.backlog)[..1]
  {
    hide Step, Inv, Marked;
    var n := StepShows(q, e);
    assert Marked(q.backlog)[..|q.backlog|] == Marked(q.backlog);
  }

  /** A message that has just been shown was allowed to scroll if and only if nothing is left. */
  lemma ScrollsWhenDrained(q: Queue, e: Event)
    requires Inv(q) && !(e.Load? && q.listening)
    ensures
      var q' := Step(q, e);
      && |q.shown| <= |q'.shown| && q'.shown[..|q.shown|] == q.shown
      && forall i :: |q.shown| <= i < |q'.shown| ==>
           (q'.shown[i].noAutoScroll <==> i + 1 < |q'.shown| || q'.backlog != [])
  {
    hide Step, Inv;
    var n := StepShows(q, e);
  }

  // ---- draining ------------------------------------------------------------------------------

  function IdleCount(events: seq<Event>): nat {
    if events == [] then 0 else (if events[0].Idle? then 1 else 0) + IdleCount(events[1..])
  }

  /** No message arrives and the page stays: only callbacks and changes of activity. */
  ghost predicate Quiet(events: seq<Event>) {
    forall e :: e in events ==> e.Idle? || e.SetActive?
  }

  lemma MarkedSplit(backlog: seq<Entry>, n: nat)
    requires n < |backlog|
    ensures Marked(backlog) == Marked(backlog)[..n] + Marked(backlog[n..])
  {
  }

  lemma DrainHasBacklog(q: Queue)
    requires Inv(q) && q.draining
    ensures q.backlog != []
  {
  }

  /** Once drained, nothing more happens until a message arrives. */
  lemma {:induction false} StaysDrained(q: Queue, events: seq<Event>)
    requires Inv(q) && q.backlog == [] && Quiet(events)
    ensures Run(q, events).backlog == [] && Run(q, events).shown == q.shown
    decreases |events|
  {
    if events != [] {
      assert events[0] in events && forall e :: e in events[1..] ==> e in events;
      StepInv(q, events[0]);
      StaysDrained(Step(q, events[0]), events[1..]);
    }
  }

  /** A drain ends after at most as many callbacks as there are messages, and shows exactly the
      backlog marked as one: where the chunks were cut leaves no trace. */
  lemma {:induction false} Drains(q: Queue, events: seq<Event>)
    requires Inv(q) && q.draining && Quiet(events) && IdleCount(events) >= |q.backlog|
    ensures Run(q, events).backlog == [] && Run(q, events).shown == q.shown + Marked(q.backlog)
    decreases |events|
  {
    hide Step, InOrder, NotStranded, Settled, Marked;
    assert q.backlog != [] by { DrainHasBacklog(q); }
    var e, rest := events[0], events[1..];
    assert e in events && forall e :: e in rest ==> e in events;
    var q' := Step(q, e);
    StepInv(q, e);
    StepDrains(q, e);
    var n := StepShows(q, e);
    assert q.shown + [] == q.shown;
    if e.Idle? {
      if n < |q.backlog| {
        MarkedSplit(q.backlog, n);
        Drains(q', rest);
        assert (q.shown + Marked(q.backlog)[..n]) + Marked(q.backlog[n..])
            == q.shown + (Marked(q.backlog)[..n] + Marked(q.backlog[n..]));
      } else {
        assert Marked(q.backlog)[..n] == Marked(q.backlog);
        StaysDrained(q', rest);
      }
    } else {
      Drains(q', rest);
    }
  }
}
