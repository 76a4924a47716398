// The in-memory channel transport: callers of the same name meet through a shared registry of waiting endpoints
// (crates/transport/src/channel.rs). A connect is two separate steps on the registry, so connects interleave.
module Rendezvous {
  import opened Bytes

  type Name = string
  type CallerId = nat

  // The two ends of an in-memory duplex: A is put in the registry, B stays with its creator.
  datatype Side = A | B
  datatype Half = Half(duplex: nat, side: Side)

  datatype TransportError = InvalidUrl | UnsupportedTransport
  datatype ConnectResult<+T> = Success(value: T) | Failure(error: TransportError)

  // What URL parsing, which is not modelled, makes of the caller's string.
  datatype ParsedUrl = Unparsable | Url(scheme: string, host: Option<string>)

  function ChannelName(url: ParsedUrl): ConnectResult<Name>
  {
    match url
    case Unparsable => Failure(InvalidUrl)
    case Url(scheme, host) =>
      if scheme != "chan" then Failure(UnsupportedTransport)
      else if host.None? || host.value == "" then Failure(InvalidUrl)
      else Success(host.value)
  }

  // A URL names a channel exactly when its scheme is "chan" and its host is there and not empty.
  predicate NamesChannel(url: ParsedUrl, name: Name)
  {
    url == Url("chan", Some(name)) && name != ""
  }

  // The refusal of a URL that names no channel: of another scheme as unsupported, of anything else as invalid.
  predicate RefusedFor(url: ParsedUrl, error: TransportError)
  {
    && (error == UnsupportedTransport <==> url.Url? && url.scheme != "chan")
    && (error == InvalidUrl <==> url.Unparsable? || (url.scheme == "chan" && (url.host.None? || url.host == Some(""))))
  }

  lemma ChannelNameExactly(url: ParsedUrl)
    ensures match ChannelName(url)
            case Success(name) => NamesChannel(url, name)
            case Failure(error) => RefusedFor(url, error) && forall name :: !NamesChannel(url, name)
  {
  }

  // ----- The registry -----

  type Registry = map<Name, seq<Half>>

  function Waiting(reg: Registry, name: Name): seq<Half>
  {
    if name in reg then reg[name] else []
  }

  function TakeWaiting(reg: Registry, name: Name): (Option<Half>, Registry)
  {
    if Waiting(reg, name) == [] then (None, reg)
    else (Some(reg[name][0]), reg[name := reg[name][1..]])
  }

  function Park(reg: Registry, name: Name, half: Half): Registry
  {
    reg[name := Waiting(reg, name) + [half]]
  }

  class ChannelRegistry {
    var waiting: Registry
    var created: nat

    constructor ()
      ensures waiting == map[] && created == 0
    {
      waiting := map[];
      created := 0;
    }

    // The first locked step: pop the oldest waiting endpoint.
    method PopWaiting(name: Name) returns (half: Option<Half>)
      modifies `waiting
      ensures (half, waiting) == TakeWaiting(old(waiting), name)
    {
      half := None;
      if name in waiting {
        var queue := waiting[name];
        if queue != [] {
          half := Some(queue[0]);
          waiting := waiting[name := queue[1..]];
        }
      }
    }

    // The second locked step: make a duplex, queue one half, keep the other.
    method CreateAndPark(name: Name) returns (half: Half)
      modifies this
      ensures half == Half(old(created), B) && created == old(created) + 1
      ensures waiting == Park(old(waiting), name, Half(old(created), A))
    {
      var d := created;
      created := created + 1;
      if name !in waiting {
        waiting := waiting[name := []];
      }
      waiting := waiting[name := waiting[name] + [Half(d, A)]];
      half := Half(d, B);
    }

    // A connect with nothing in between its two steps.
    method Connect(url: ParsedUrl) returns (r: ConnectResult<Half>)
      modifies this
      ensures r.Success? <==> url.Url? && url.scheme == "chan" && url.host.Some? && url.host.value != ""
      ensures r.Failure? ==>
                && r.error == (if url.Url? && url.scheme != "chan" then UnsupportedTransport else InvalidUrl)
                && waiting == old(waiting) && created == old(created)
      ensures r.Success? ==>
                var name := url.host.value;
                var queue := Waiting(old(waiting), name);
                && (forall n | n != name :: Waiting(waiting, n) == Waiting(old(waiting), n))
                && (queue != [] ==>
                      r.value == queue[0] && Waiting(waiting, name) == queue[1..] && created == old(created))
                && (queue == [] ==>
                      && r.value == Half(old(created), B) && created == old(created) + 1
                      && Waiting(waiting, name) == [Half(old(created), A)])
    {
      var name := ChannelName(url);
      if name.Failure? {
        return Failure(name.error);
      }
      var found := PopWaiting(name.value);
      if found.Some? {
        return Success(found.value);
      }
      var kept := CreateAndPark(name.value);
      return Success(kept);
    }
  }

  // ----- Any number of connects, interleaved -----

  datatype Phase =
    | Looking(name: Name)               // called, lookup not done yet
    | Missed(name: Name)                // found nobody waiting, not yet in the queue
    | Connected(name: Name, half: Half)
    | Refused(error: TransportError)

  datatype Made = Made(caller: CallerId, name: Name)

  // What happened on one name, in order.
  datatype Event = Parked(duplex: nat) | Paired(duplex: nat)

  // made, taker and history are a record of the run: who created each duplex, who took its other half, and the
  // events of each name. The protocol itself never reads taker or history, and uses only the length of made.
  datatype State = State(
    registry: Registry,
    callers: map<CallerId, Phase>,
    made: seq<Made>,
    taker: map<nat, CallerId>,
    history: map<Name, seq<Event>>)

  const EMPTY := State(map[], map[], [], map[], map[])

  datatype Step = Call(c: CallerId, url: ParsedUrl) | Lookup(c: CallerId) | Create(c: CallerId)

  function History(s: State, name: Name): seq<Event>
  {
    if name in s.history then s.history[name] else []
  }

  predicate Enabled(s: State, step: Step)
  {
    match step
    case Call(c, _) => c !in s.callers
    case Lookup(c) => c in s.callers && s.callers[c].Looking?
    case Create(c) => c in s.callers && s.callers[c].Missed?
  }

  function Apply(s: State, step: Step): State
    requires Enabled(s, step)
  {
    match step
    case Call(c, url) =>
      var name := ChannelName(url);
      s.(callers := s.callers[c := if name.Failure? then Refused(name.error) else Looking(name.value)])
    case Lookup(c) =>
      var name := s.callers[c].name;
      var (found, reg) := TakeWaiting(s.registry, name);
      if found.None? then s.(callers := s.callers[c := Missed(name)])
      else
        var d := found.value.duplex;
        s.(registry := reg,
           callers := s.callers[c := Connected(name, found.value)],
           taker := s.taker[d := c],
           history := s.history[name := History(s, name) + [Paired(d)]])
    case Create(c) =>
      var name := s.callers[c].name;
      var d := |s.made|;
      s.(registry := Park(s.registry, name, Half(d, A)),
         callers := s.callers[c := Connected(name, Half(d, B))],
         made := s.made + [Made(c, name)],
         history := s.history[name := History(s, name) + [Parked(d)]])
  }

  predicate Next(s: State, step: Step, s': State)
  {
    Enabled(s, step) && s' == Apply(s, step)
  }

  // A run: every state follows from the one before by the given step.
  predicate IsRun(states: seq<State>, steps: seq<Step>)
  {
    && |states| == |steps| + 1
    && states[0] == EMPTY
    && forall i | 0 <= i < |steps| :: Next(states[i], steps[i], states[i + 1])
  }

  // The registry follows any run: driven through its steps it goes through the registries of the states, and hands each
  // caller what the state says.
  method Execute(registry: ChannelRegistry, steps: seq<Step>, ghost states: seq<State>)
    returns (callers: map<CallerId, Phase>)
    requires IsRun(states, steps)
    requires registry.waiting == map[] && registry.created == 0
    modifies registry
    ensures var s := states[|steps|];
            registry.waiting == s.registry && registry.created == |s.made| && callers == s.callers
  {
    callers := map[];
    for i := 0 to |steps|
      invariant var s := states[i];
                registry.waiting == s.registry && registry.created == |s.made| && callers == s.callers
    {
      assert Next(states[i], steps[i], states[i + 1]);
      hide IsRun;
      match steps[i] {
        case Call(c, url) =>
          var name := ChannelName(url);
          callers := callers[c := if name.Failure? then Refused(name.error) else Looking(name.value)];
        case Lookup(c) =>
          var name := callers[c].name;
          var found := registry.PopWaiting(name);
          callers := callers[c := if found.None? then Missed(name) else Connected(name, found.value)];
        case Create(c) =>
          var name := callers[c].name;
          var kept := registry.CreateAndPark(name);
          callers := callers[c := Connected(name, kept)];
      }
    }
  }

  // ----- Conservation -----

  predicate Holds(s: State, c: CallerId, name: Name, half: Half)
  {
    c in s.callers && s.callers[c] == Connected(name, half)
  }

  // Each created duplex has one half with its creator.
  predicate CreatorsKeepB(s: State)
  {
    && (forall d | 0 <= d < |s.made| :: Holds(s, s.made[d].caller, s.made[d].name, Half(d, B)))
    && (forall c | c in s.callers && s.callers[c].Connected? && s.callers[c].half.side == B ::
          s.callers[c].half.duplex < |s.made| && s.made[s.callers[c].half.duplex] == Made(c, s.callers[c].name))
  }

  // The other half is with its taker, if it has one, and otherwise in the queue of its name.
  predicate OtherHalfInOnePlace(s: State)
  {
    && (forall d | 0 <= d < |s.made| ::
          if d in s.taker then
            Holds(s, s.taker[d], s.made[d].name, Half(d, A)) && Half(d, A) !in Waiting(s.registry, s.made[d].name)
          else Half(d, A) in Waiting(s.registry, s.made[d].name))
    && (forall d | d in s.taker :: d < |s.made|)
    && (forall c | c in s.callers && s.callers[c].Connected? && s.callers[c].half.side == A ::
          s.callers[c].half.duplex in s.taker && s.taker[s.callers[c].half.duplex] == c)
  }

  // Queues hold only A halves of duplexes made for their name, each once.
  ghost predicate QueuesAreGenuine(s: State)
  {
    && (forall n, i | 0 <= i < |Waiting(s.registry, n)| ::
          var h := Waiting(s.registry, n)[i];
          h.side == A && h.duplex < |s.made| && s.made[h.duplex].name == n)
    && (forall n, i, j | 0 <= i < j < |Waiting(s.registry, n)| ::
          Waiting(s.registry, n)[i] != Waiting(s.registry, n)[j])
  }

  ghost predicate Conserved(s: State)
  {
    CreatorsKeepB(s) && OtherHalfInOnePlace(s) && QueuesAreGenuine(s)
  }

  lemma CallConserves(s: State, step: Step)
    requires Conserved(s) && Enabled(s, step)
    requires step.Call? || (step.Lookup? && Waiting(s.registry, s.callers[step.c].name) == [])
    ensures Conserved(Apply(s, step))
  {
    var s' := Apply(s, step);
    assert s'.registry == s.registry && s'.made == s.made && s'.taker == s.taker;
    var phase := s'.callers[step.c];
    assert !phase.Connected? && s'.callers == s.callers[step.c := phase];
    hide Apply, Waiting, TakeWaiting;
    assert CreatorsKeepB(s') by {
      hide OtherHalfInOnePlace, QueuesAreGenuine;
    }
    assert OtherHalfInOnePlace(s') by {
      hide CreatorsKeepB, QueuesAreGenuine;
    }
    hide CreatorsKeepB, OtherHalfInOnePlace;
  }

  lemma Popped(reg: Registry, name: Name)
    requires Waiting(reg, name) != []
    ensures var (found, reg') := TakeWaiting(reg, name);
            && found == Some(Waiting(reg, name)[0])
            && Waiting(reg', name) == Waiting(reg, name)[1..]
            && forall n | n != name :: Waiting(reg', n) == Waiting(reg, n)
  {
  }

  lemma Pushed(reg: Registry, name: Name, half: Half)
    ensures var reg' := Park(reg, name, half);
            && Waiting(reg', name) == Waiting(reg, name) + [half]
            && forall n | n != name :: Waiting(reg', n) == Waiting(reg, n)
  {
  }

  lemma PairingKeepsCreators(s: State, c: CallerId, s': State)
    requires CreatorsKeepB(s) && Enabled(s, Lookup(c)) && s'.made == s.made
    requires c in s'.callers && s'.callers[c].Connected? && s'.callers[c].half.side == A
    requires s'.callers == s.callers[c := s'.callers[c]]
    ensures CreatorsKeepB(s')
  {
  }

  lemma PairingKeepsQueues(s: State, s': State, name: Name)
    requires QueuesAreGenuine(s) && Waiting(s.registry, name) != []
    requires Waiting(s'.registry, name) == Waiting(s.registry, name)[1..]
    requires (forall n | n != name :: Waiting(s'.registry, n) == Waiting(s.registry, n)) && s'.made == s.made
    ensures QueuesAreGenuine(s')
  {
    hide Waiting;
  }

  lemma PairingMovesOneHalf(s: State, c: CallerId, s': State, d: nat)
    requires OtherHalfInOnePlace(s) && Enabled(s, Lookup(c))
    requires var name := s.callers[c].name;
             && d < |s.made| && s.made[d].name == name
             && Half(d, A) in Waiting(s.registry, name) && Half(d, A) !in Waiting(s'.registry, name)
             && (forall h | h != Half(d, A) :: h in Waiting(s'.registry, name) <==> h in Waiting(s.registry, name))
             && (forall n | n != name :: Waiting(s'.registry, n) == Waiting(s.registry, n))
             && s'.callers == s.callers[c := Connected(name, Half(d, A))]
             && s'.taker == s.taker[d := c] && s'.made == s.made
    ensures OtherHalfInOnePlace(s')
  {
    hide Waiting, CreatorsKeepB;
    assert d !in s.taker;
  }

  // A caller pairs with the oldest waiting half of its name: that half leaves the queue for the caller.
  lemma PairingConserves(s: State, c: CallerId)
    requires Conserved(s) && Enabled(s, Lookup(c)) && Waiting(s.registry, s.callers[c].name) != []
    ensures Conserved(Apply(s, Lookup(c)))
  {
    var s' := Apply(s, Lookup(c));
    var name := s.callers[c].name;
    var queue := Waiting(s.registry, name);
    var d := queue[0].duplex;
    Popped(s.registry, name);
    hide TakeWaiting, Waiting, Apply;
    assert queue[0] == Half(d, A) && s.made[d].name == name && queue == [queue[0]] + queue[1..];
    assert queue[0] !in queue[1..];
    PairingMovesOneHalf(s, c, s', d);
    PairingKeepsQueues(s, s', name);
    hide QueuesAreGenuine, OtherHalfInOnePlace;
    PairingKeepsCreators(s, c, s');
  }

  lemma CreatingMovesOneHalf(s: State, c: CallerId, s': State)
    requires OtherHalfInOnePlace(s) && Enabled(s, Create(c))
    requires var name := s.callers[c].name;
             var d := |s.made|;
             && Waiting(s'.registry, name) == Waiting(s.registry, name) + [Half(d, A)]
             && (forall n | n != name :: Waiting(s'.registry, n) == Waiting(s.registry, n))
             && s'.callers == s.callers[c := Connected(name, Half(d, B))]
             && s'.made == s.made + [Made(c, name)] && s'.taker == s.taker
    ensures OtherHalfInOnePlace(s')
  {
    hide Waiting;
    var name := s.callers[c].name;
    assert forall h :: h in Waiting(s'.registry, name) <==> h in Waiting(s.registry, name) || h == Half(|s.made|, A);
  }

  lemma CreatingKeepsQueues(s: State, s': State, name: Name, caller: CallerId)
    requires QueuesAreGenuine(s) && s'.made == s.made + [Made(caller, name)]
    requires Waiting(s'.registry, name) == Waiting(s.registry, name) + [Half(|s.made|, A)]
    requires forall n | n != name :: Waiting(s'.registry, n) == Waiting(s.registry, n)
    ensures QueuesAreGenuine(s')
  {
    hide Waiting;
  }

  // A caller that missed queues one half of a new duplex and keeps the other.
  lemma CreatingConserves(s: State, c: CallerId)
    requires Conserved(s) && Enabled(s, Create(c))
    ensures Conserved(Apply(s, Create(c)))
  {
    var s' := Apply(s, Create(c));
    var name := s.callers[c].name;
    var d := |s.made|;
    Pushed(s.registry, name, Half(d, A));
    hide Park, Waiting, Apply;
    assert CreatorsKeepB(s') by {
      hide QueuesAreGenuine;
    }
    CreatingMovesOneHalf(s, c, s');
    CreatingKeepsQueues(s, s', name, c);
    hide CreatorsKeepB, OtherHalfInOnePlace, QueuesAreGenuine;
  }

  lemma EmptyConserves()
    ensures Conserved(EMPTY)
  {
  }

  lemma StepConserves(s: State, step: Step, s': State)
    requires Conserved(s) && Next(s, step, s')
    ensures Conserved(s')
  {
    hide Conserved, Apply;
    match step {
      case Call(_, _) => CallConserves(s, step);
      case Lookup(c) =>
        if Waiting(s.registry, s.callers[c].name) == [] {
          CallConserves(s, step);
        } else {
          PairingConserves(s, c);
        }
      case Create(c) => CreatingConserves(s, c);
    }
  }

  // Under every interleaving of any number of connects on any names, no endpoint is lost or handed out twice.
  lemma {:induction false} RunsConserve(states: seq<State>, steps: seq<Step>, i: nat)
    requires IsRun(states, steps) && i < |states|
    ensures Conserved(states[i])
  {
    hide Conserved, Apply;
    if i == 0 {
      EmptyConserves();
    } else {
      RunsConserve(states, steps, i - 1);
      StepConserves(states[i - 1], steps[i - 1], states[i]);
    }
  }

  // What a caller has come to fits the URL it called with.
  predicate Reflects(phase: Phase, url: ParsedUrl)
  {
    match phase
    case Looking(name) => NamesChannel(url, name)
    case Missed(name) => NamesChannel(url, name)
    case Connected(name, _) => NamesChannel(url, name)
    case Refused(error) => RefusedFor(url, error)
  }

  lemma StepKeepsUrl(s: State, step: Step, s': State, c: CallerId, url: ParsedUrl)
    requires Next(s, step, s') && c in s'.callers
    requires if c in s.callers then Reflects(s.callers[c], url) else step == Call(c, url)
    ensures Reflects(s'.callers[c], url)
  {
    ChannelNameExactly(url);
  }

  // Every caller got where it is by one call, and under the host of that URL or refused for it.
  lemma {:induction false} CallersKeepTheirUrl(states: seq<State>, steps: seq<Step>, i: nat, c: CallerId)
    returns (j: nat)
    requires IsRun(states, steps) && i < |states| && c in states[i].callers
    ensures j < i && steps[j].Call? && steps[j].c == c && Reflects(states[i].callers[c], steps[j].url)
  {
    assert i > 0;
    var s, step, s' := states[i - 1], steps[i - 1], states[i];
    assert Next(s, step, s');
    if c in s.callers {
      j := CallersKeepTheirUrl(states, steps, i - 1, c);
    } else {
      j := i - 1;
    }
    hide IsRun, Reflects;
    StepKeepsUrl(s, step, s', c, steps[j].url);
  }

  lemma MakerOfWaiting(s: State, n: Name) returns (c: CallerId)
    requires Conserved(s) && Waiting(s.registry, n) != []
    ensures c in s.callers && s.callers[c].Connected? && s.callers[c].name == n
  {
    var half := Waiting(s.registry, n)[0];
    c := s.made[half.duplex].caller;
    assert Holds(s, c, n, Half(half.duplex, B));
  }

  // So no reachable state has a caller or a waiting endpoint under the empty name.
  lemma NobodyIsNameless(states: seq<State>, steps: seq<Step>, i: nat)
    requires IsRun(states, steps) && i < |states|
    ensures var s := states[i];
            && (forall c | c in s.callers && !s.callers[c].Refused? :: s.callers[c].name != "")
            && Waiting(s.registry, "") == []
  {
    var s := states[i];
    RunsConserve(states, steps, i);
    hide Waiting, IsRun;
    forall c | c in s.callers && !s.callers[c].Refused?
      ensures s.callers[c].name != ""
    {
      var j := CallersKeepTheirUrl(states, steps, i, c);
    }
    hide Conserved;
    if Waiting(s.registry, "") != [] {
      var c := MakerOfWaiting(s, "");
    }
  }

  // The same, said of the endpoints alone: no endpoint has two owners, one in a caller's hands is in no queue, and
  // the other end of a caller's endpoint is either with exactly one other caller of that name or waiting under it.
  lemma EveryEndpointHasOneOwner(states: seq<State>, steps: seq<Step>, i: nat)
    requires IsRun(states, steps) && i < |states|
    ensures var s := states[i];
            forall c, c' | c in s.callers && c' in s.callers && s.callers[c].Connected? && s.callers[c'].Connected? ::
              s.callers[c].half == s.callers[c'].half ==> c == c'
    ensures var s := states[i];
            forall c, n | c in s.callers && s.callers[c].Connected? :: s.callers[c].half !in Waiting(s.registry, n)
    ensures var s := states[i];
            forall c | c in s.callers && s.callers[c].Connected? ::
              var d := s.callers[c].half.duplex;
              var n := s.callers[c].name;
              if s.callers[c].half.side == A then exists c' :: c' != c && Holds(s, c', n, Half(d, B))
              else Half(d, A) in Waiting(s.registry, n) || exists c' :: c' != c && Holds(s, c', n, Half(d, A))
  {
    RunsConserve(states, steps, i);
    var s := states[i];
    hide Waiting, IsRun;
    forall c | c in s.callers && s.callers[c].Connected?
      ensures var d := s.callers[c].half.duplex;
              var n := s.callers[c].name;
              if s.callers[c].half.side == A then exists c' :: c' != c && Holds(s, c', n, Half(d, B))
              else Half(d, A) in Waiting(s.registry, n) || exists c' :: c' != c && Holds(s, c', n, Half(d, A))
    {
      var d := s.callers[c].half.duplex;
      assert d < |s.made| && Holds(s, s.made[d].caller, s.made[d].name, Half(d, B));
    }
  }

  // ----- Counting -----

  function ConnectedOn(s: State, name: Name): set<CallerId>
  {
    set c | c in s.callers && s.callers[c].Connected? && s.callers[c].name == name
  }

  function HoldersOn(s: State, name: Name, side: Side): set<CallerId>
  {
    set c | c in s.callers && s.callers[c].Connected? && s.callers[c].name == name && s.callers[c].half.side == side
  }

  function MissedOn(s: State, name: Name): set<CallerId>
  {
    set c | c in s.callers && s.callers[c] == Missed(name)
  }

  function InFlightOn(s: State, name: Name): set<CallerId>
  {
    set c | c in s.callers && (s.callers[c] == Missed(name) || s.callers[c] == Looking(name))
  }

  predicate Pairs(s: State, step: Step, n: Name)
    requires Enabled(s, step)
  {
    step.Lookup? && s.callers[step.c].name == n && Waiting(s.registry, n) != []
  }

  predicate Creates(s: State, step: Step, n: Name)
    requires Enabled(s, step)
  {
    step.Create? && s.callers[step.c].name == n
  }

  // What one step does to the callers and the queue of a name.
  lemma StepHolders(s: State, step: Step, s': State, n: Name)
    requires Conserved(s) && Next(s, step, s')
    ensures HoldersOn(s', n, A) == HoldersOn(s, n, A) + (if Pairs(s, step, n) then {step.c} else {})
    ensures HoldersOn(s', n, B) == HoldersOn(s, n, B) + (if Creates(s, step, n) then {step.c} else {})
    ensures Pairs(s, step, n) || Creates(s, step, n) ==> step.c !in HoldersOn(s, n, A) && step.c !in HoldersOn(s, n, B)
  {
    hide CreatorsKeepB, OtherHalfInOnePlace;
    if step.Lookup? && Waiting(s.registry, s.callers[step.c].name) != [] {
      Popped(s.registry, s.callers[step.c].name);
      assert Waiting(s.registry, s.callers[step.c].name)[0].side == A;
    }
    hide QueuesAreGenuine, Park;
  }

  predicate Misses(s: State, step: Step, n: Name)
    requires Enabled(s, step)
  {
    step.Lookup? && s.callers[step.c].name == n && Waiting(s.registry, n) == []
  }

  lemma StepMissed(s: State, step: Step, s': State, n: Name)
    requires Next(s, step, s')
    ensures MissedOn(s', n) ==
              if Misses(s, step, n) then MissedOn(s, n) + {step.c}
              else if Creates(s, step, n) then MissedOn(s, n) - {step.c}
              else MissedOn(s, n)
    ensures Creates(s, step, n) ==> step.c in MissedOn(s, n)
  {
    hide Park;
  }

  lemma HistoryStep(s: State, step: Step, s': State, n: Name)
    requires Next(s, step, s')
    ensures Pairs(s, step, n) ==>
              && Waiting(s'.registry, n) == Waiting(s.registry, n)[1..]
              && History(s', n) == History(s, n) + [Paired(Waiting(s.registry, n)[0].duplex)]
    ensures Creates(s, step, n) ==>
              && Waiting(s'.registry, n) == Waiting(s.registry, n) + [Half(|s.made|, A)]
              && History(s', n) == History(s, n) + [Parked(|s.made|)]
    ensures !Pairs(s, step, n) && !Creates(s, step, n) ==>
              Waiting(s'.registry, n) == Waiting(s.registry, n) && History(s', n) == History(s, n)
  {
    if step.Lookup? && Waiting(s.registry, s.callers[step.c].name) != [] {
      Popped(s.registry, s.callers[step.c].name);
    }
    if step.Create? {
      Pushed(s.registry, s.callers[step.c].name, Half(|s.made|, A));
    }
  }

  lemma StepNumbers(s: State, step: Step, s': State, n: Name)
    requires Conserved(s) && Next(s, step, s')
    ensures |HoldersOn(s', n, A)| == |HoldersOn(s, n, A)| + (if Pairs(s, step, n) then 1 else 0)
    ensures |HoldersOn(s', n, B)| == |HoldersOn(s, n, B)| + (if Creates(s, step, n) then 1 else 0)
    ensures |MissedOn(s', n)| <=
              |MissedOn(s, n)| + (if Misses(s, step, n) then 1 else 0) - (if Creates(s, step, n) then 1 else 0)
    ensures |Waiting(s'.registry, n)| ==
              |Waiting(s.registry, n)| + (if Creates(s, step, n) then 1 else 0) - (if Pairs(s, step, n) then 1 else 0)
    ensures Misses(s, step, n) ==> |Waiting(s.registry, n)| == 0
  {
    StepHolders(s, step, s', n);
    StepMissed(s, step, s', n);
    HistoryStep(s, step, s', n);
    hide Conserved, Next, Apply, HoldersOn, MissedOn, InFlightOn, Waiting;
  }

  lemma NobodyAtFirst(n: Name)
    ensures HoldersOn(EMPTY, n, A) == HoldersOn(EMPTY, n, B) == MissedOn(EMPTY, n) == {}
    ensures Waiting(EMPTY.registry, n) == [] && History(EMPTY, n) == []
  {
  }

  lemma HoldersPartition(s: State, n: Name)
    ensures |ConnectedOn(s, n)| == |HoldersOn(s, n, A)| + |HoldersOn(s, n, B)|
  {
    assert ConnectedOn(s, n) == HoldersOn(s, n, A) + HoldersOn(s, n, B);
    assert HoldersOn(s, n, A) !! HoldersOn(s, n, B);
  }

  // On every name, in every reachable state, the completed connects are twice the pairs plus those still waiting.
  lemma {:induction false} CompletedIsTwicePairsPlusWaiting(states: seq<State>, steps: seq<Step>, i: nat, n: Name)
    requires IsRun(states, steps) && i < |states|
    ensures var s := states[i];
            && |HoldersOn(s, n, B)| == |HoldersOn(s, n, A)| + |Waiting(s.registry, n)|
            && |ConnectedOn(s, n)| == 2 * |HoldersOn(s, n, A)| + |Waiting(s.registry, n)|
  {
    hide Conserved, Apply, HoldersOn, ConnectedOn, MissedOn, Waiting;
    var s := states[i];
    if i == 0 {
      NobodyAtFirst(n);
    } else {
      RunsConserve(states, steps, i - 1);
      CompletedIsTwicePairsPlusWaiting(states, steps, i - 1, n);
      assert Next(states[i - 1], steps[i - 1], s);
      StepNumbers(states[i - 1], steps[i - 1], s, n);
    }
    HoldersPartition(s, n);
  }

  // ----- The bound -----

  // At most k connects on the name are in flight at any moment of the run.
  predicate AtMostInFlight(states: seq<State>, n: Name, k: nat)
  {
    forall i | 0 <= i < |states| :: |InFlightOn(states[i], n)| <= k
  }

  // At most k callers are between their lookup and their push at any moment of the run.
  predicate AtMostMissed(states: seq<State>, n: Name, k: nat)
  {
    forall i | 0 <= i < |states| :: |MissedOn(states[i], n)| <= k
  }

  // Then the waiting endpoints, together with the callers about to add one, never exceed k.
  lemma {:induction false} MissesBoundWaiting(states: seq<State>, steps: seq<Step>, i: nat, n: Name, k: nat)
    requires IsRun(states, steps) && i < |states|
    requires AtMostMissed(states, n, k)
    ensures |Waiting(states[i].registry, n)| + |MissedOn(states[i], n)| <= k
  {
    hide Conserved, Apply, HoldersOn, MissedOn, Waiting;
    var s' := states[i];
    if i == 0 {
      NobodyAtFirst(n);
    } else {
      var s := states[i - 1];
      RunsConserve(states, steps, i - 1);
      MissesBoundWaiting(states, steps, i - 1, n, k);
      assert Next(s, steps[i - 1], s');
      assert |MissedOn(s', n)| <= k;
      StepNumbers(s, steps[i - 1], s', n);
    }
  }

  lemma SubsetSize(a: set<CallerId>, b: set<CallerId>)
    requires a <= b
    ensures |a| <= |b|
  {
    assert b == a + (b - a);
  }

  lemma MissedAreInFlight(s: State, n: Name)
    ensures |MissedOn(s, n)| <= |InFlightOn(s, n)|
  {
    SubsetSize(MissedOn(s, n), InFlightOn(s, n));
  }

  // In particular with at most k connects in flight.
  lemma WaitingIsBounded(states: seq<State>, steps: seq<Step>, i: nat, n: Name, k: nat)
    requires IsRun(states, steps) && i < |states|
    requires AtMostInFlight(states, n, k)
    ensures |Waiting(states[i].registry, n)| + |MissedOn(states[i], n)| <= k
  {
    forall j | 0 <= j < |states|
      ensures |MissedOn(states[j], n)| <= k
    {
      MissedAreInFlight(states[j], n);
      assert |InFlightOn(states[j], n)| <= k;
    }
    MissesBoundWaiting(states, steps, i, n, k);
  }

  // ----- Order -----

  // The duplexes parked under a name, and those paired off, each in order.
  function ParkedIn(events: seq<Event>): seq<nat>
  {
    if events == [] then []
    else
      var e := events[|events| - 1];
      ParkedIn(events[..|events| - 1]) + (if e.Parked? then [e.duplex] else [])
  }

  function PairedIn(events: seq<Event>): seq<nat>
  {
    if events == [] then []
    else
      var e := events[|events| - 1];
      PairedIn(events[..|events| - 1]) + (if e.Paired? then [e.duplex] else [])
  }

  function Duplexes(queue: seq<Half>): seq<nat>
  {
    seq(|queue|, i requires 0 <= i < |queue| => queue[i].duplex)
  }

  predicate IsFifo(events: seq<Event>, queue: seq<Half>)
  {
    ParkedIn(events) == PairedIn(events) + Duplexes(queue)
  }

  lemma EventAdded(events: seq<Event>, e: Event)
    ensures ParkedIn(events + [e]) == ParkedIn(events) + (if e.Parked? then [e.duplex] else [])
    ensures PairedIn(events + [e]) == PairedIn(events) + (if e.Paired? then [e.duplex] else [])
  {
    assert (events + [e])[..|events + [e]| - 1] == events;
  }

  lemma FifoAfterPairing(events: seq<Event>, queue: seq<Half>)
    requires IsFifo(events, queue) && queue != []
    ensures IsFifo(events + [Paired(queue[0].duplex)], queue[1..])
  {
    var d := queue[0].duplex;
    EventAdded(events, Paired(d));
    assert Duplexes(queue) == [d] + Duplexes(queue[1..]);
    assert PairedIn(events) + ([d] + Duplexes(queue[1..])) == (PairedIn(events) + [d]) + Duplexes(queue[1..]);
  }

  lemma FifoAfterParking(events: seq<Event>, queue: seq<Half>, d: nat)
    requires IsFifo(events, queue)
    ensures IsFifo(events + [Parked(d)], queue + [Half(d, A)])
  {
    EventAdded(events, Parked(d));
    assert Duplexes(queue + [Half(d, A)]) == Duplexes(queue) + [d];
    assert PairedIn(events) + (Duplexes(queue) + [d]) == (PairedIn(events) + Duplexes(queue)) + [d];
  }

  // First in, first out: what has been handed out, then what is waiting, is what has been parked, in that order.
  lemma {:induction false} HandOutIsFifo(states: seq<State>, steps: seq<Step>, i: nat, n: Name)
    requires IsRun(states, steps) && i < |states|
    ensures IsFifo(History(states[i], n), Waiting(states[i].registry, n))
  {
    if i == 0 {
    } else {
      var s, s' := states[i - 1], states[i];
      var step := steps[i - 1];
      HandOutIsFifo(states, steps, i - 1, n);
      assert Next(s, step, s');
      HistoryStep(s, step, s', n);
      var queue := Waiting(s.registry, n);
      var events := History(s, n);
      hide Waiting, History, Apply, Next;
      if Pairs(s, step, n) {
        FifoAfterPairing(events, queue);
      } else if Creates(s, step, n) {
        FifoAfterParking(events, queue, |s.made|);
      }
    }
  }

  predicate InTurn(events: seq<Event>, i: nat)
    requires i < |events|
  {
    if i % 2 == 0 then events[i].Parked? else events[i] == Paired(events[i - 1].duplex)
  }

  // Park, pair, park, pair: every second event takes what the one before it left.
  predicate Alternates(events: seq<Event>)
  {
    forall i | 0 <= i < |events| :: InTurn(events, i)
  }

  predicate OneLeftAfterPark(events: seq<Event>, queue: seq<Half>)
  {
    queue == if |events| % 2 == 0 then [] else [Half(events[|events| - 1].duplex, A)]
  }

  lemma AlternateMore(events: seq<Event>, e: Event)
    requires Alternates(events)
    requires if |events| % 2 == 0 then e.Parked? else e == Paired(events[|events| - 1].duplex)
    ensures Alternates(events + [e])
  {
    var more := events + [e];
    forall i | 0 <= i < |more|
      ensures InTurn(more, i)
    {
      if i < |events| {
        assert InTurn(events, i);
      }
    }
  }

  // Every push under the name so far found its queue empty: what a connect knew at its lookup and does not check again.
  ghost predicate PushesFindNobody(states: seq<State>, steps: seq<Step>, i: nat, n: Name)
  {
    forall j | 0 <= j < i && j < |steps| && j < |states| && Enabled(states[j], steps[j]) ::
      Creates(states[j], steps[j], n) ==> Waiting(states[j].registry, n) == []
  }

  lemma PushesFindNobodyNext(states: seq<State>, steps: seq<Step>, i: nat, n: Name)
    requires IsRun(states, steps) && 0 < i < |states|
    ensures Next(states[i - 1], steps[i - 1], states[i])
    ensures PushesFindNobody(states, steps, i, n) <==>
              && PushesFindNobody(states, steps, i - 1, n)
              && (Creates(states[i - 1], steps[i - 1], n) ==> Waiting(states[i - 1].registry, n) == [])
  {
    hide Waiting, Apply, Creates, Enabled;
    assert Next(states[i - 1], steps[i - 1], states[i]);
  }

  lemma AlternatesBefore(events: seq<Event>, e: Event)
    requires Alternates(events + [e])
    ensures Alternates(events)
  {
    var more := events + [e];
    forall i | 0 <= i < |events|
      ensures InTurn(events, i)
    {
      assert InTurn(more, i);
    }
  }

  lemma ParkingOutOfTurn(events: seq<Event>, d: nat)
    requires |events| % 2 == 1
    ensures !Alternates(events + [Parked(d)])
  {
    assert !InTurn(events + [Parked(d)], |events|);
  }

  lemma NothingYet(states: seq<State>, steps: seq<Step>, n: Name)
    requires IsRun(states, steps)
    ensures History(states[0], n) == [] && Waiting(states[0].registry, n) == []
    ensures Alternates([]) && PushesFindNobody(states, steps, 0, n)
  {
  }

  lemma AlternatesAfterPark(events: seq<Event>, queue: seq<Half>, d: nat)
    requires Alternates(events) ==> OneLeftAfterPark(events, queue)
    ensures Alternates(events + [Parked(d)]) <==> Alternates(events) && queue == []
    ensures queue == [] && Alternates(events) ==> OneLeftAfterPark(events + [Parked(d)], queue + [Half(d, A)])
  {
    if Alternates(events + [Parked(d)]) {
      AlternatesBefore(events, Parked(d));
    }
    hide Alternates;
    if Alternates(events) {
      if queue == [] {
        AlternateMore(events, Parked(d));
      } else {
        ParkingOutOfTurn(events, d);
      }
    }
  }

  lemma AlternatesAfterPair(events: seq<Event>, queue: seq<Half>)
    requires queue != []
    requires Alternates(events) ==> OneLeftAfterPark(events, queue)
    ensures Alternates(events + [Paired(queue[0].duplex)]) <==> Alternates(events)
    ensures Alternates(events) ==> OneLeftAfterPark(events + [Paired(queue[0].duplex)], queue[1..])
  {
    var e := Paired(queue[0].duplex);
    if Alternates(events + [e]) {
      AlternatesBefore(events, e);
    }
    hide Alternates;
    if Alternates(events) {
      AlternateMore(events, e);
    }
  }

  // Callers of a name are paired strictly two by two, in order, exactly as long as every push finds the queue empty.
  lemma {:induction false} AlternatesExactly(states: seq<State>, steps: seq<Step>, i: nat, n: Name)
    requires IsRun(states, steps) && i < |states|
    ensures Alternates(History(states[i], n)) <==> PushesFindNobody(states, steps, i, n)
    ensures PushesFindNobody(states, steps, i, n) ==>
              OneLeftAfterPark(History(states[i], n), Waiting(states[i].registry, n))
  {
    hide Apply, Waiting, History, Alternates, PushesFindNobody;
    if i == 0 {
      NothingYet(states, steps, n);
    } else {
      var s, s', step := states[i - 1], states[i], steps[i - 1];
      AlternatesExactly(states, steps, i - 1, n);
      PushesFindNobodyNext(states, steps, i, n);
      HistoryStep(s, step, s', n);
      var events, queue := History(s, n), Waiting(s.registry, n);
      if Creates(s, step, n) {
        AlternatesAfterPark(events, queue, |s.made|);
      } else if Pairs(s, step, n) {
        AlternatesAfterPair(events, queue);
      }
    }
  }

  // In particular as long as no two callers of the name are between lookup and push at once.
  lemma WithoutRaceConnectsAlternate(states: seq<State>, steps: seq<Step>, i: nat, n: Name)
    requires IsRun(states, steps) && i < |states|
    requires AtMostMissed(states, n, 1)
    ensures Alternates(History(states[i], n))
    ensures OneLeftAfterPark(History(states[i], n), Waiting(states[i].registry, n))
  {
    AlternatesExactly(states, steps, i, n);
    hide Waiting, Apply, Alternates;
    forall j | 0 <= j < i && Enabled(states[j], steps[j]) && Creates(states[j], steps[j], n)
      ensures Waiting(states[j].registry, n) == []
    {
      MissesBoundWaiting(states, steps, j, n, 1);
      assert steps[j].c in MissedOn(states[j], n);
    }
  }

  // In particular with one connect in flight at a time.
  lemma SequentialConnectsAlternate(states: seq<State>, steps: seq<Step>, i: nat, n: Name)
    requires IsRun(states, steps) && i < |states|
    requires AtMostInFlight(states, n, 1)
    ensures Alternates(History(states[i], n))
    ensures OneLeftAfterPark(History(states[i], n), Waiting(states[i].registry, n))
  {
    forall j | 0 <= j < |states|
      ensures |MissedOn(states[j], n)| <= 1
    {
      MissedAreInFlight(states[j], n);
      assert |InFlightOn(states[j], n)| <= 1;
    }
    WithoutRaceConnectsAlternate(states, steps, i, n);
  }

  // ----- The bound is reached -----

  lemma ExtendRun(states: seq<State>, steps: seq<Step>, step: Step)
    requires IsRun(states, steps) && Enabled(states[|steps|], step)
    ensures IsRun(states + [Apply(states[|steps|], step)], steps + [step])
  {
    var states', steps' := states + [Apply(states[|steps|], step)], steps + [step];
    forall i | 0 <= i < |steps'|
      ensures Next(states'[i], steps'[i], states'[i + 1])
    {
      if i < |steps| {
        assert Next(states[i], steps[i], states[i + 1]);
      }
    }
  }

  // And whenever two callers of a name are there at once, the history can be made not to alternate: if both push,
  // the second finds the first.
  lemma RaceBreaksAlternation(states: seq<State>, steps: seq<Step>, n: Name, c: CallerId, c': CallerId)
    returns (states': seq<State>)
    requires IsRun(states, steps)
    requires c != c' && {c, c'} <= MissedOn(states[|steps|], n)
    ensures IsRun(states', steps + [Create(c), Create(c')])
    ensures states <= states' && !Alternates(History(states'[|steps| + 2], n))
  {
    var s := states[|steps|];
    assert c in MissedOn(s, n) && c' in MissedOn(s, n);
    var s1 := Apply(s, Create(c));
    assert Enabled(s1, Create(c'));
    HistoryStep(s, Create(c), s1, n);
    ExtendRun(states, steps, Create(c));
    ExtendRun(states + [s1], steps + [Create(c)], Create(c'));
    var steps' := steps + [Create(c), Create(c')];
    assert (steps + [Create(c)]) + [Create(c')] == steps';
    states' := (states + [s1]) + [Apply(s1, Create(c'))];
    AlternatesExactly(states', steps', |steps| + 2, n);
    assert Creates(s1, Create(c'), n) && Waiting(s1.registry, n) != [];
    hide Apply, Waiting, IsRun;
    var j := |steps| + 1;
    assert states'[j] == s1 && steps'[j] == Create(c');
  }

  function FirstCallers(k: nat): (callers: set<CallerId>)
    ensures forall c: CallerId :: c in callers <==> c < k
    ensures |callers| == k
  {
    if k == 0 then {} else FirstCallers(k - 1) + {k - 1}
  }

  predicate CallersBelow(s: State, k: nat)
  {
    forall c <- s.callers :: c < k
  }

  lemma FewInFlight(s: State, n: Name, k: nat)
    requires CallersBelow(s, k)
    ensures |InFlightOn(s, n)| <= k
  {
    SubsetSize(InFlightOn(s, n), FirstCallers(k));
  }

  // The callers below `parked` wait with an endpoint in the queue, the others below `called` have just missed.
  ghost predicate Overlapping(s: State, n: Name, called: nat, parked: nat)
  {
    && parked <= called && CallersBelow(s, called)
    && (forall c: CallerId | c < called ::
          c in s.callers && if c < parked then s.callers[c].Connected? else s.callers[c] == Missed(n))
    && |Waiting(s.registry, n)| == |History(s, n)| == parked
    && (forall i | 0 <= i < parked :: History(s, n)[i].Parked?)
  }

  lemma Longer(states: seq<State>, steps: seq<Step>, step: Step, n: Name, k: nat)
    returns (states': seq<State>, steps': seq<Step>)
    requires IsRun(states, steps) && AtMostInFlight(states, n, k) && Enabled(states[|steps|], step)
    requires CallersBelow(Apply(states[|steps|], step), k)
    ensures IsRun(states', steps') && AtMostInFlight(states', n, k)
    ensures states'[|steps'|] == Apply(states[|steps|], step)
  {
    ExtendRun(states, steps, step);
    FewInFlight(Apply(states[|steps|], step), n, k);
    states', steps' := states + [Apply(states[|steps|], step)], steps + [step];
  }

  lemma ParkOne(s: State, n: Name, called: nat, parked: nat)
    requires Overlapping(s, n, called, parked) && parked < called
    ensures Enabled(s, Create(parked))
    ensures Overlapping(Apply(s, Create(parked)), n, called, parked + 1)
  {
    var s' := Apply(s, Create(parked));
    HistoryStep(s, Create(parked), s', n);
    assert s'.callers == s.callers[parked := Connected(n, Half(|s.made|, B))];
    hide Apply, Waiting, History;
  }

  lemma MissOne(s: State, n: Name, called: nat)
    requires n != "" && Overlapping(s, n, called, 0)
    ensures Enabled(s, Call(called, Url("chan", Some(n))))
    ensures var s' := Apply(s, Call(called, Url("chan", Some(n))));
            && CallersBelow(s', called + 1)
            && Enabled(s', Lookup(called))
            && Overlapping(Apply(s', Lookup(called)), n, called + 1, 0)
  {
    var s' := Apply(s, Call(called, Url("chan", Some(n))));
    var s'' := Apply(s', Lookup(called));
    assert s'' == s.(callers := s.callers[called := Missed(n)]) by {
      assert s.callers[called := Looking(n)][called := Missed(n)] == s.callers[called := Missed(n)];
    }
    hide Apply, Waiting, History;
  }

  // A run of k overlapping connects in which all of them look before any parks.
  lemma {:induction false} OverlappingRun(n: Name, k: nat, called: nat, parked: nat)
    returns (states: seq<State>, steps: seq<Step>)
    requires n != "" && parked <= called <= k && (parked > 0 ==> called == k)
    ensures IsRun(states, steps) && AtMostInFlight(states, n, k)
    ensures Overlapping(states[|steps|], n, called, parked)
    decreases called + parked
  {
    if parked > 0 {
      states, steps := OverlappingRun(n, k, called, parked - 1);
      var s := states[|steps|];
      ParkOne(s, n, called, parked - 1);
      states, steps := Longer(states, steps, Create(parked - 1), n, k);
    } else if called > 0 {
      var url := Url("chan", Some(n));
      states, steps := OverlappingRun(n, k, called - 1, 0);
      var s := states[|steps|];
      MissOne(s, n, called - 1);
      states, steps := Longer(states, steps, Call(called - 1, url), n, k);
      states, steps := Longer(states, steps, Lookup(called - 1), n, k);
    } else {
      states, steps := [EMPTY], [];
      assert InFlightOn(EMPTY, n) == {};
    }
  }

  // For every k, k overlapping connects can all find nobody and all end up waiting: the bound on waiters is reached,
  // and with two or more callers nobody is paired although two connects have completed.
  lemma OverlappingConnectsCanAllWait(n: Name, k: nat) returns (states: seq<State>, steps: seq<Step>)
    requires n != ""
    ensures IsRun(states, steps) && AtMostInFlight(states, n, k)
    ensures var s := states[|steps|];
            && InFlightOn(s, n) == {}
            && |Waiting(s.registry, n)| == k
            && (k >= 2 ==> !Alternates(History(s, n)))
  {
    states, steps := OverlappingRun(n, k, k, k);
    var s := states[|steps|];
    if k >= 2 {
      assert !InTurn(History(s, n), 1);
    }
  }

  // With 0 waiting and 1 just having missed, caller 2 comes and takes the endpoint of 0, and then 1 parks its own.
  lemma ThirdTakesFirst(s: State, n: Name) returns (s1: State, s2: State, s3: State)
    requires n != "" && Overlapping(s, n, 2, 1) && OneLeftAfterPark(History(s, n), Waiting(s.registry, n))
    ensures Next(s, Call(2, Url("chan", Some(n))), s1) && Next(s1, Lookup(2), s2) && Next(s2, Create(1), s3)
    ensures MissedOn(s3, n) == {}
    ensures |History(s3, n)| == 3 && Alternates(History(s3, n))
  {
    var call := Call(2, Url("chan", Some(n)));
    s1 := Apply(s, call);
    s2 := Apply(s1, Lookup(2));
    s3 := Apply(s2, Create(1));
    HistoryStep(s, call, s1, n);
    HistoryStep(s1, Lookup(2), s2, n);
    HistoryStep(s2, Create(1), s3, n);
    hide Apply, Waiting, History;
    AlternatesAfterPair(History(s, n), Waiting(s.registry, n));
    AlternatesAfterPark(History(s2, n), Waiting(s2.registry, n), |s2.made|);
  }

  // A race need not break it: here two callers are between lookup and push at once, but a third takes the endpoint of
  // the first before the second pushes.
  lemma RaceCanBeHarmless(n: Name) returns (states: seq<State>, steps: seq<Step>)
    requires n != ""
    ensures IsRun(states, steps)
    ensures exists i | 0 <= i < |states| :: MissedOn(states[i], n) == {0, 1}
    ensures MissedOn(states[|steps|], n) == {}
    ensures |History(states[|steps|], n)| == 3 && Alternates(History(states[|steps|], n))
  {
    var url := Url("chan", Some(n));
    states, steps := OverlappingRun(n, 2, 2, 0);
    var missed := |steps|;
    assert MissedOn(states[missed], n) == {0, 1};
    ParkOne(states[missed], n, 2, 0);
    ExtendRun(states, steps, Create(0));
    states, steps := states + [Apply(states[missed], Create(0))], steps + [Create(0)];
    hide Apply, IsRun;
    AlternatesExactly(states, steps, missed + 1, n);
    var s1, s2, s3 := ThirdTakesFirst(states[missed + 1], n);
    ExtendRun(states, steps, Call(2, url));
    ExtendRun(states + [s1], steps + [Call(2, url)], Lookup(2));
    ExtendRun(states + [s1] + [s2], steps + [Call(2, url)] + [Lookup(2)], Create(1));
    states, steps := states + [s1] + [s2] + [s3], steps + [Call(2, url)] + [Lookup(2)] + [Create(1)];
    assert MissedOn(states[missed], n) == {0, 1};
  }
}
