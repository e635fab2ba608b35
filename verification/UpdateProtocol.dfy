/** The update protocol between the screen callback, the thread that reads a client's
    requests and the thread that sends to it, as a state machine. Steps under a client's
    mutex are atomic; only the sender keeps the mutex over several steps. */
module UpdateProtocol {

  type Point = (int, int)

  /** Where the sender of a client is. It holds the mutex while Checking, Taking and
      Sending; in Locking it waits for the mutex, in Blocked for the condition. */
  datatype Sender = Locking | Checking | Blocked | Deferring | Taking | Sending

  /** view is what the client shows; pending is damage that no callback has reported yet;
      update is what the current update was taken to be, sending what of it is still to
      go, sent how often each of its points has gone. The two flags say that a thread has
      changed the regions and let go of the mutex, but not signalled yet. */
  datatype Client = Client(
    view: Point -> int,
    pending: iset<Point>,
    modified: iset<Point>,
    requested: iset<Point>,
    update: iset<Point>,
    sending: iset<Point>,
    sent: Point -> nat,
    sender: Sender,
    callbackSignal: bool,
    inputSignal: bool)
  {
    predicate MutexFree() {
      !sender.Checking? && !sender.Taking? && !sender.Sending?
    }
  }

  datatype World = World(screen: iset<Point>, fb: Point -> int, clients: map<nat, Client>)

  datatype Event =
    | Damage(area: iset<Point>)
    | Connect(c: nat)
    | Report(c: nat, area: iset<Point>)
    | CallbackSignals(c: nat)
    | Request(c: nat, area: iset<Point>, incremental: bool)
    | InputSignals(c: nat)
    | Acquire(c: nat)
    | Check(c: nat, deferred: bool, other: bool)
    | WakeUp(c: nat)
    | Resume(c: nat)
    | Take(c: nat)
    | SendPiece(c: nat, area: iset<Point>)
    | Finish(c: nat)

  // ---- What each event does to the client it concerns ----

  /** rfbNewClient: everything is modified, nothing requested. */
  ghost predicate NewClient(screen: iset<Point>, k: Client) {
    && k.modified == screen && k.requested == iset{} && k.pending == iset{}
    && k.update == iset{} && k.sending == iset{} && (forall p :: k.sent(p) == 0)
    && k.sender == Locking && !k.callbackSignal && !k.inputSignal
  }

  /** refreshCallback on one rectangle. */
  ghost predicate Reports(k: Client, k': Client, area: iset<Point>) {
    && k.MutexFree() && !k.callbackSignal
    && k' == k.(modified := k.modified + area, pending := k.pending - area, callbackSignal := true)
  }

  /** A framebuffer update request. */
  ghost predicate Requests(k: Client, k': Client, area: iset<Point>, incremental: bool) {
    && k.MutexFree() && !k.inputSignal
    && k' == k.(requested := k.requested + area,
                modified := if incremental then k.modified else k.modified + area,
                inputSignal := true)
  }

  function Signalled(s: Sender): Sender {
    if s.Blocked? then Locking else s
  }

  /** The sender's test for something to send; other stands for a cursor or a screen size
      to be sent, which also waits for a request. */
  ghost predicate HaveUpdate(k: Client, deferred: bool, other: bool) {
    k.requested != iset{} && (other || !deferred || k.modified * k.requested != iset{})
  }

  ghost predicate Checks(k: Client, k': Client, deferred: bool, other: bool) {
    && k.sender.Checking?
    && if HaveUpdate(k, deferred, other)
       then k' == k.(sender := Deferring) || k' == k.(sender := Taking)
       else k' == k.(sender := Blocked)
  }

  /** The sender takes what is modified and requested out of the modified region before it
      sends any of it, and forgets the requests. */
  ghost predicate Takes(k: Client, k': Client) {
    && k.sender.Taking?
    && k'.update == k.modified * k.requested && k'.sending == k'.update
    && k'.modified == k.modified - k'.update && k'.requested == iset{}
    && (forall p :: k'.sent(p) == 0)
    && k' == k.(update := k'.update, sending := k'.sending, modified := k'.modified, requested := k'.requested,
                sent := k'.sent, sender := Sending)
  }

  /** Some of the update goes to the client, as the framebuffer is at that moment. */
  ghost predicate Sends(k: Client, k': Client, fb: Point -> int, area: iset<Point>) {
    && k.sender.Sending? && area <= k.sending
    && (forall p :: k'.view(p) == if p in area then fb(p) else k.view(p))
    && (forall p :: k'.sent(p) == if p in area then k.sent(p) + 1 else k.sent(p))
    && k' == k.(view := k'.view, sent := k'.sent, sending := k.sending - area)
  }

  ghost predicate ClientStep(k: Client, k': Client, fb: Point -> int, e: Event) {
    match e
    case Report(_, area) => Reports(k, k', area)
    case CallbackSignals(_) => k.callbackSignal && k' == k.(callbackSignal := false, sender := Signalled(k.sender))
    case Request(_, area, incremental) => Requests(k, k', area, incremental)
    case InputSignals(_) => k.inputSignal && k' == k.(inputSignal := false, sender := Signalled(k.sender))
    case Acquire(_) => k.sender.Locking? && k' == k.(sender := Checking)
    case Check(_, deferred, other) => Checks(k, k', deferred, other)
    case WakeUp(_) => k.sender.Blocked? && k' == k.(sender := Locking)
    case Resume(_) => k.sender.Deferring? && k' == k.(sender := Taking)
    case Take(_) => Takes(k, k')
    case SendPiece(_, area) => Sends(k, k', fb, area)
    case Finish(_) => k.sender.Sending? && k.sending == iset{} && k' == k.(sender := Locking)
    case Damage(_) => false
    case Connect(_) => false
  }

  ghost predicate Step(w: World, e: Event, w': World) {
    && w'.screen == w.screen
    && match e
       case Damage(area) =>
         && (forall p :: p !in area ==> w'.fb(p) == w.fb(p))
         && w'.clients.Keys == w.clients.Keys
         && (forall c :: c in w.clients ==> w'.clients[c] == w.clients[c].(pending := w.clients[c].pending + area))
       case Connect(c) =>
         && c !in w.clients && w'.fb == w.fb
         && w'.clients.Keys == w.clients.Keys + {c} && NewClient(w.screen, w'.clients[c])
         && (forall d :: d in w.clients ==> w'.clients[d] == w.clients[d])
       case _ =>
         && e.c in w.clients && w'.fb == w.fb && w'.clients.Keys == w.clients.Keys
         && ClientStep(w.clients[e.c], w'.clients[e.c], w.fb, e)
         && (forall d :: d in w.clients && d != e.c ==> w'.clients[d] == w.clients[d])
  }

  /** A run: it starts without clients and each event takes a state to the next. */
  ghost predicate IsRun(states: seq<World>, events: seq<Event>) {
    && |states| == |events| + 1
    && states[0].clients == map[]
    && (forall i :: 0 <= i < |events| ==> Step(states[i], events[i], states[i+1]))
  }

  // ---- Safety ----

  /** A difference between what a client shows and the framebuffer is known about. */
  ghost predicate NoDamageLost(k: Client, screen: iset<Point>, fb: Point -> int) {
    forall p :: p in screen && k.view(p) != fb(p) ==> p in k.modified || p in k.sending || p in k.pending
  }

  ghost predicate Deliverable(k: Client) {
    k.modified * k.requested != iset{}
  }

  /** A blocked sender with something to deliver has a signal coming. */
  ghost predicate NeverSleepsOnUpdate(k: Client) {
    k.sender.Blocked? && Deliverable(k) ==> k.callbackSignal || k.inputSignal
  }

  /** Of the current update every point has gone out once or is still to go. */
  ghost predicate SentOnce(k: Client) {
    && k.sending <= k.update
    && (!k.sender.Sending? ==> k.sending == iset{})
    && (forall p :: k.sent(p) == if p in k.update && p !in k.sending then 1 else 0)
  }

  ghost predicate ClientInv(k: Client, screen: iset<Point>, fb: Point -> int) {
    NoDamageLost(k, screen, fb) && NeverSleepsOnUpdate(k) && SentOnce(k)
  }

  ghost predicate Inv(w: World) {
    forall c :: c in w.clients ==> ClientInv(w.clients[c], w.screen, w.fb)
  }

  lemma ClientStepKeepsInv(k: Client, k': Client, screen: iset<Point>, fb: Point -> int, e: Event)
    requires ClientInv(k, screen, fb) && ClientStep(k, k', fb, e)
    ensures ClientInv(k', screen, fb)
  {
    match e
    case Report(_, area) =>
      assert forall p :: p in k.pending ==> p in k'.modified || p in k'.pending;
    case Request(_, area, incremental) =>
      assert k.modified <= k'.modified;
    case Check(_, deferred, other) =>
      assert Deliverable(k) ==> HaveUpdate(k, deferred, other) by {
        if p :| p in k.modified * k.requested {
          assert p in k.requested;
        }
      }
    case Take(_) =>
    case SendPiece(_, area) =>
    case _ =>
  }

  lemma StepKeepsInv(w: World, e: Event, w': World)
    requires Inv(w) && Step(w, e, w')
    ensures Inv(w')
  {
    forall c | c in w'.clients
      ensures ClientInv(w'.clients[c], w'.screen, w'.fb)
    {
      match e
      case Damage(area) =>
        var k, k' := w.clients[c], w'.clients[c];
        assert k.modified == k'.modified && k.sending == k'.sending;
        assert forall p :: p in k.pending || p in area ==> p in k'.pending;
      case Connect(d) =>
        if c in w.clients {
          assert w'.clients[c] == w.clients[c];
        }
      case _ =>
        if c == e.c {
          ClientStepKeepsInv(w.clients[c], w'.clients[c], w.screen, w.fb, e);
        }
    }
  }

  /** In every state of every run no damage is lost, the sender sleeps on no update it
      could deliver, and each update sends each of its points once. */
  lemma {:induction false} RunsAreSafe(states: seq<World>, events: seq<Event>, i: nat)
    requires IsRun(states, events) && i < |states|
    ensures Inv(states[i])
    decreases i
  {
    if i > 0 {
      RunsAreSafe(states, events, i - 1);
      StepKeepsInv(states[i-1], events[i-1], states[i]);
    }
  }

  /** While a client is being sent to, the last Take decided what. */
  lemma {:induction false} SendingWasTaken(states: seq<World>, events: seq<Event>, i: nat, c: nat) returns (j: nat)
    requires IsRun(states, events) && i < |states|
    requires c in states[i].clients && states[i].clients[c].sender.Sending?
    ensures j < i && events[j] == Take(c) && c in states[j].clients
    ensures states[i].clients[c].update == states[j].clients[c].modified * states[j].clients[c].requested
    ensures forall m :: j < m < i ==> events[m] != Take(c)
    decreases i
  {
    assert Step(states[i-1], events[i-1], states[i]);
    SendingBefore(states[i-1], events[i-1], states[i], c);
    hide Step;
    if events[i-1] == Take(c) {
      j := i - 1;
    } else {
      j := SendingWasTaken(states, events, i - 1, c);
    }
  }

  lemma SendingBefore(w: World, e: Event, w': World, c: nat)
    requires Step(w, e, w') && c in w'.clients && w'.clients[c].sender.Sending?
    ensures c in w.clients
    ensures w'.clients[c].update ==
      if e == Take(c) then w.clients[c].modified * w.clients[c].requested else w.clients[c].update
    ensures e != Take(c) ==> w.clients[c].sender.Sending?
  {
  }

  /** When an update is finished, exactly what was modified and requested when the sender
      took it has been sent, each point once. */
  lemma FinishedUpdateIsComplete(states: seq<World>, events: seq<Event>, i: nat, c: nat) returns (j: nat)
    requires IsRun(states, events) && i < |events| && events[i] == Finish(c)
    ensures j < i && events[j] == Take(c) && c in states[j].clients && c in states[i].clients
    ensures forall m :: j < m < i ==> events[m] != Take(c)
    ensures var due := states[j].clients[c].modified * states[j].clients[c].requested;
      forall p :: states[i].clients[c].sent(p) == if p in due then 1 else 0
  {
    assert Step(states[i], events[i], states[i+1]);
    RunsAreSafe(states, events, i);
    j := SendingWasTaken(states, events, i, c);
  }

  /** At rest the client's picture is exact: its sender is blocked, no signal and no report
      is outstanding, and all of the screen is requested. */
  lemma ExactAtRest(states: seq<World>, events: seq<Event>, i: nat, c: nat, p: Point)
    requires IsRun(states, events) && i < |states| && c in states[i].clients
    requires var k := states[i].clients[c];
      && k.sender.Blocked? && !k.callbackSignal && !k.inputSignal
      && k.pending == iset{} && states[i].screen <= k.requested
    requires p in states[i].screen
    ensures states[i].clients[c].view(p) == states[i].fb(p)
  {
    RunsAreSafe(states, events, i);
    var k := states[i].clients[c];
    assert ClientInv(k, states[i].screen, states[i].fb);
    assert p in k.modified ==> p in k.modified * k.requested;
  }

  // ---- Nothing holds the sender up ----

  /** An event of the sender of c. */
  predicate OfSender(e: Event, c: nat) {
    match e
    case Acquire(d) => d == c
    case Check(d, _, _) => d == c
    case WakeUp(d) => d == c
    case Resume(d) => d == c
    case Take(d) => d == c
    case SendPiece(d, _) => d == c
    case Finish(d) => d == c
    case _ => false
  }

  /** How many steps the sender is from the end of its update, sending it in one piece. */
  function Remaining(k: Client): nat {
    match k.sender
    case Locking => 6
    case Checking => 5
    case Deferring => 4
    case Taking => 3
    case Sending => if k.sending == iset{} then 1 else 2
    case Blocked => 0
  }

  /** Unless it is blocked, a sender can always go on, and within six steps of its own it has
      finished its update or is blocked. */
  lemma SenderGoesOn(w: World, c: nat) returns (e: Event, w': World)
    requires c in w.clients && !w.clients[c].sender.Blocked?
    ensures OfSender(e, c) && Step(w, e, w')
    ensures e == Finish(c) || Remaining(w'.clients[c]) < Remaining(w.clients[c])
  {
    var k := w.clients[c];
    var k';
    e, k' := SenderStep(k, c, w.fb);
    w' := w.(clients := w.clients[c := k']);
  }

  lemma SenderStep(k: Client, c: nat, fb: Point -> int) returns (e: Event, k': Client)
    requires !k.sender.Blocked?
    ensures OfSender(e, c) && ClientStep(k, k', fb, e)
    ensures e == Finish(c) || Remaining(k') < Remaining(k)
  {
    match k.sender
    case Locking =>
      e, k' := Acquire(c), k.(sender := Checking);
    case Checking =>
      e := Check(c, false, false);
      k' := k.(sender := if HaveUpdate(k, false, false) then Taking else Blocked);
    case Deferring =>
      e, k' := Resume(c), k.(sender := Taking);
    case Taking =>
      var due := k.modified * k.requested;
      e := Take(c);
      k' := k.(update := due, sending := due, modified := k.modified - due, requested := iset{}, sent := p => 0, sender := Sending);
    case Sending =>
      if k.sending == iset{} {
        e, k' := Finish(c), k.(sender := Locking);
      } else {
        var area := k.sending;
        e := SendPiece(c, area);
        k' := k.(view := p => if p in area then fb(p) else k.view(p),
                 sent := p => if p in area then k.sent(p) + 1 else k.sent(p), sending := iset{});
        assert k.sending - area == iset{};
      }
  }

  /** A sender that could deliver something is not left blocked: it has a signal coming, and
      when that comes it can go on. */
  lemma BlockedIsSignalled(states: seq<World>, events: seq<Event>, i: nat, c: nat) returns (e: Event, w: World)
    requires IsRun(states, events) && i < |states| && c in states[i].clients
    requires states[i].clients[c].sender.Blocked? && Deliverable(states[i].clients[c])
    ensures Step(states[i], e, w) && (e == CallbackSignals(c) || e == InputSignals(c)) && w.clients[c].sender.Locking?
  {
    RunsAreSafe(states, events, i);
    var k := states[i].clients[c];
    assert NeverSleepsOnUpdate(k);
    var k' := if k.callbackSignal then k.(callbackSignal := false, sender := Locking) else k.(inputSignal := false, sender := Locking);
    e := if k.callbackSignal then CallbackSignals(c) else InputSignals(c);
    w := states[i].(clients := states[i].clients[c := k']);
  }

  // ---- Keeping to the screen ----

  /** What the event marks as modified. */
  function Adds(e: Event): iset<Point> {
    match e
    case Report(_, area) => area
    case Request(_, area, incremental) => if incremental then iset{} else area
    case _ => iset{}
  }

  ghost predicate OnScreen(w: World) {
    forall c :: c in w.clients ==> w.clients[c].modified <= w.screen
  }

  /** No step clips its area: it leaves the screen exactly when its area does. */
  lemma StepOnScreen(w: World, e: Event, w': World)
    requires Step(w, e, w') && OnScreen(w)
    ensures OnScreen(w') <==> Adds(e) <= w.screen
  {
    match e
    case Report(c, area) =>
      assert w'.clients[c].modified == w.clients[c].modified + area;
    case Request(c, area, incremental) =>
      assert w'.clients[c].modified == w.clients[c].modified + Adds(e);
    case _ =>
  }

  lemma {:induction false} SameScreen(states: seq<World>, events: seq<Event>, i: nat)
    requires IsRun(states, events) && i < |states|
    ensures states[i].screen == states[0].screen
    decreases i
  {
    if i > 0 {
      SameScreen(states, events, i - 1);
      assert Step(states[i-1], events[i-1], states[i]);
    }
  }

  /** In all of a run only points of the screen are modified, exactly when no report and no
      request that is not incremental ever reaches beyond it. */
  lemma RunsOnScreen(states: seq<World>, events: seq<Event>)
    requires IsRun(states, events)
    ensures (forall i :: 0 <= i < |states| ==> OnScreen(states[i]))
      <==> (forall i :: 0 <= i < |events| ==> Adds(events[i]) <= states[0].screen)
  {
    if forall i :: 0 <= i < |events| ==> Adds(events[i]) <= states[0].screen {
      forall i | 0 <= i < |states|
        ensures OnScreen(states[i])
      {
        StaysOnScreen(states, events, i);
      }
    }
    if forall i :: 0 <= i < |states| ==> OnScreen(states[i]) {
      forall i | 0 <= i < |events|
        ensures Adds(events[i]) <= states[0].screen
      {
        SameScreen(states, events, i);
        assert OnScreen(states[i]) && OnScreen(states[i+1]);
        StepOnScreen(states[i], events[i], states[i+1]);
      }
    }
  }

  lemma {:induction false} StaysOnScreen(states: seq<World>, events: seq<Event>, i: nat)
    requires IsRun(states, events) && i < |states|
    requires forall j :: 0 <= j < i ==> Adds(events[j]) <= states[0].screen
    ensures OnScreen(states[i])
    decreases i
  {
    if i > 0 {
      StaysOnScreen(states, events, i - 1);
      SameScreen(states, events, i - 1);
      StepOnScreen(states[i-1], events[i-1], states[i]);
    }
  }

  /** A point off the screen that is modified was in an area that a report or a request
      marked for this client. */
  lemma {:induction false} OffScreenWasMarked(states: seq<World>, events: seq<Event>, i: nat, c: nat, p: Point) returns (j: nat)
    requires IsRun(states, events) && i < |states| && c in states[i].clients
    requires p in states[i].clients[c].modified && p !in states[0].screen
    ensures j < i && p in Adds(events[j]) && (events[j].Report? || events[j].Request?) && events[j].c == c
    decreases i
  {
    SameScreen(states, events, i);
    assert Step(states[i-1], events[i-1], states[i]);
    var e := events[i-1];
    if (e.Report? || e.Request?) && e.c == c && p in Adds(e) {
      j := i - 1;
    } else {
      j := OffScreenWasMarked(states, events, i - 1, c, p);
    }
  }

  function Alone(screen: iset<Point>, fb: Point -> int, k: Client): World {
    World(screen, fb, map[0 := k])
  }

  lemma OneStep(screen: iset<Point>, fb: Point -> int, k: Client, k': Client, e: Event)
    requires !e.Damage? && !e.Connect? && e.c == 0 && ClientStep(k, k', fb, e)
    ensures Step(Alone(screen, fb, k), e, Alone(screen, fb, k'))
  {
  }

  /** A new client has asked for the area, and its sender has come this far. */
  function Asking(screen: iset<Point>, area: iset<Point>, sender: Sender): Client {
    var all := screen + area;
    if sender.Sending? then Client(p => 0, iset{}, all - area, iset{}, area, area, p => 0, sender, false, true)
    else Client(p => 0, iset{}, all, area, iset{}, iset{}, p => 0, sender, false, true)
  }

  lemma AreaIsTaken(screen: iset<Point>, area: iset<Point>)
    requires area != iset{}
    ensures Checks(Asking(screen, area, Checking), Asking(screen, area, Taking), false, false)
    ensures Takes(Asking(screen, area, Taking), Asking(screen, area, Sending))
  {
    assert (screen + area) * area == area;
  }

  lemma AreaIsAskedFor(screen: iset<Point>, fb: Point -> int, area: iset<Point>) returns (k: Client)
    ensures Step(World(screen, fb, map[]), Connect(0), Alone(screen, fb, k))
    ensures Requests(k, Asking(screen, area, Locking), area, false)
  {
    k := Client(p => 0, iset{}, screen, iset{}, iset{}, iset{}, p => 0, Locking, false, false);
    assert k.requested + area == area;
  }

  /** Any area can be taken for an update: a new client asks for it, not incrementally. */
  lemma AnyAreaCanBeTaken(screen: iset<Point>, fb: Point -> int, area: iset<Point>) returns (states: seq<World>, events: seq<Event>)
    requires area != iset{}
    ensures IsRun(states, events) && |states| == 6 && states[0].screen == screen
    ensures 0 in states[5].clients && states[5].clients[0].sender.Sending? && states[5].clients[0].update == area
  {
    var k0 := AreaIsAskedFor(screen, fb, area);
    var k1, k2 := Asking(screen, area, Locking), Asking(screen, area, Checking);
    var k3, k4 := Asking(screen, area, Taking), Asking(screen, area, Sending);
    AreaIsTaken(screen, area);
    assert ClientStep(k0, k1, fb, Request(0, area, false)) && ClientStep(k1, k2, fb, Acquire(0));
    assert ClientStep(k2, k3, fb, Check(0, false, false)) && ClientStep(k3, k4, fb, Take(0));
    assert k4.sender.Sending? && k4.update == area;
    hide Step;
    hide ClientStep;
    hide Asking;
    hide IsRun;
    StartOfRun(World(screen, fb, map[]));
    states, events := RunMore([World(screen, fb, map[])], [], Connect(0), Alone(screen, fb, k0));
    states, events := OneMore(states, events, screen, fb, k0, k1, Request(0, area, false));
    states, events := OneMore(states, events, screen, fb, k1, k2, Acquire(0));
    states, events := OneMore(states, events, screen, fb, k2, k3, Check(0, false, false));
    states, events := OneMore(states, events, screen, fb, k3, k4, Take(0));
  }

  lemma StartOfRun(w: World)
    requires w.clients == map[]
    ensures IsRun([w], [])
  {
  }

  lemma RunMore(states: seq<World>, events: seq<Event>, e: Event, w: World) returns (states': seq<World>, events': seq<Event>)
    requires IsRun(states, events) && Step(states[|states| - 1], e, w)
    ensures states' == states + [w] && events' == events + [e] && IsRun(states', events')
  {
    hide Step;
    states', events' := states + [w], events + [e];
    forall i | 0 <= i < |events'|
      ensures Step(states'[i], events'[i], states'[i+1])
    {
      assert i < |events| ==> Step(states[i], events[i], states[i+1]);
    }
  }

  lemma OneMore(states: seq<World>, events: seq<Event>, screen: iset<Point>, fb: Point -> int, k: Client, k': Client, e: Event)
    returns (states': seq<World>, events': seq<Event>)
    requires IsRun(states, events) && states[|states| - 1] == Alone(screen, fb, k)
    requires !e.Damage? && !e.Connect? && e.c == 0 && ClientStep(k, k', fb, e)
    ensures states' == states + [Alone(screen, fb, k')] && events' == events + [e] && IsRun(states', events')
  {
    hide Step;
    hide ClientStep;
    OneStep(screen, fb, k, k', e);
    states', events' := RunMore(states, events, e, Alone(screen, fb, k'));
  }
}
