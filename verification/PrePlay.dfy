/**
  The packet sequence of a connection before play: handshake, login and configuration. The state
  owns the player's identity from login to play.
 */
module PrePlay {
  import opened Bytes

  datatype Profile = Profile(id: seq<nat>, name: string, properties: seq<string>)

  datatype Protocol = HandshakeProtocol | PlayProtocol | StatusProtocol | LoginProtocol | ConfigProtocol

  datatype ConfigurationPhase = SynchronizeRegistries | JoinWorld

  datatype LoginState =
    | Hello
    | Key(requestedUsername: string)
    | Authenticating
    | ProtocolSwitching(authenticatedProfile: Profile)

  datatype State =
    | Handshake
    | Status
    | Login(login: LoginState)
    | Configuration(phase: ConfigurationPhase, profile: Profile)
    | Play

  datatype LoginPhase = HelloPhase | KeyPhase | AuthenticatingPhase | SwitchingPhase

  datatype Phase =
    | InHandshake | InStatus | InLogin(l: LoginPhase) | InConfiguration(c: ConfigurationPhase) | InPlay

  datatype Packet =
    | ClientIntention | HelloPacket | KeyPacket | LoginAcknowledged | SelectKnownPacksPacket | FinishPacket

  datatype Result<+T> = Ok(value: T) | Err(packet: Packet, phase: Phase)

  function PhaseOf(s: State): (p: Phase)
  {
    match s
    case Handshake => InHandshake
    case Status => InStatus
    case Login(Hello) => InLogin(HelloPhase)
    case Login(Key(_)) => InLogin(KeyPhase)
    case Login(Authenticating) => InLogin(AuthenticatingPhase)
    case Login(ProtocolSwitching(_)) => InLogin(SwitchingPhase)
    case Configuration(phase, _) => InConfiguration(phase)
    case Play => InPlay
  }

  /** The one packet that each waiting state expects. */
  predicate Expected(s: State, packet: Packet)
  {
    match (s, packet)
    case (Login(Hello), HelloPacket) => true
    case (Login(Key(_)), KeyPacket) => true
    case (Login(ProtocolSwitching(_)), LoginAcknowledged) => true
    case (Configuration(SynchronizeRegistries, _), SelectKnownPacksPacket) => true
    case (Configuration(JoinWorld, _), FinishPacket) => true
    case _ => false
  }

  // ----- The calls as one transition function -----

  datatype Call =
    | SelectProtocol(protocol: Protocol)
    | WaitForKey(username: string)
    | BeginAuthentication
    | CompleteLogin(profile: Profile)
    | AcknowledgeLogin
    | SelectKnownPacks
    | FinishConfiguration

  datatype Reply = Done | Username(name: string) | Identity(profile: Profile) | Rejected(packet: Packet, phase: Phase)

  function Apply(s: State, call: Call): (r: (State, Reply))
  {
    match call
    case SelectProtocol(protocol) =>
      if s == Handshake && protocol == StatusProtocol then (Status, Done)
      else if s == Handshake && protocol == LoginProtocol then (Login(Hello), Done)
      else (s, Rejected(ClientIntention, PhaseOf(s)))
    case WaitForKey(username) =>
      if Expected(s, HelloPacket) then (Login(Key(username)), Done) else (s, Rejected(HelloPacket, PhaseOf(s)))
    case BeginAuthentication =>
      if Expected(s, KeyPacket) then (Login(Authenticating), Username(s.login.requestedUsername))
      else (s, Rejected(KeyPacket, PhaseOf(s)))
    case CompleteLogin(profile) =>
      if s == Login(Hello) || s == Login(Authenticating) then (Login(ProtocolSwitching(profile)), Done)
      else (s, Rejected(LoginAcknowledged, PhaseOf(s)))
    case AcknowledgeLogin =>
      if Expected(s, LoginAcknowledged)
      then (Configuration(SynchronizeRegistries, s.login.authenticatedProfile), Done)
      else (s, Rejected(LoginAcknowledged, PhaseOf(s)))
    case SelectKnownPacks =>
      if Expected(s, SelectKnownPacksPacket) then (s.(phase := JoinWorld), Done)
      else (s, Rejected(SelectKnownPacksPacket, PhaseOf(s)))
    case FinishConfiguration =>
      if Expected(s, FinishPacket) then (Play, Identity(s.profile)) else (s, Rejected(FinishPacket, PhaseOf(s)))
  }

  /** The packet that each phase waits for. */
  function WaitsFor(phase: Phase): (packet: Option<Packet>)
  {
    match phase
    case InLogin(HelloPhase) => Some(HelloPacket)
    case InLogin(KeyPhase) => Some(KeyPacket)
    case InLogin(SwitchingPhase) => Some(LoginAcknowledged)
    case InConfiguration(SynchronizeRegistries) => Some(SelectKnownPacksPacket)
    case InConfiguration(JoinWorld) => Some(FinishPacket)
    case _ => None
  }

  /** The packet whose arrival makes a call. */
  function PacketOf(call: Call): (packet: Option<Packet>)
  {
    match call
    case WaitForKey(_) => Some(HelloPacket)
    case BeginAuthentication => Some(KeyPacket)
    case AcknowledgeLogin => Some(LoginAcknowledged)
    case SelectKnownPacks => Some(SelectKnownPacksPacket)
    case FinishConfiguration => Some(FinishPacket)
    case _ => None
  }

  /**
    A packet passes in exactly one phase, and there the call that it makes is accepted: testing a
    packet first and then making its call never disagree.
   */
  lemma PassingMeansAccepted(s: State, call: Call)
    requires PacketOf(call).Some?
    ensures WaitsFor(PhaseOf(s)) == PacketOf(call) <==> !Apply(s, call).1.Rejected?
    ensures forall t :: WaitsFor(PhaseOf(t)) == PacketOf(call) == WaitsFor(PhaseOf(s)) ==> PhaseOf(t) == PhaseOf(s)
    ensures Apply(s, call).1.Rejected? ==> Apply(s, call) == (s, Rejected(PacketOf(call).value, PhaseOf(s)))
  {
  }

  /** The two calls that no packet test guards: where they are accepted, and what is said otherwise. */
  lemma UnguardedCallsAreRejectedExactly(s: State, protocol: Protocol, profile: Profile)
    ensures var r := Apply(s, Call.SelectProtocol(protocol));
            if PhaseOf(s) == InHandshake && protocol == StatusProtocol then r == (Status, Done)
            else if PhaseOf(s) == InHandshake && protocol == LoginProtocol then r == (Login(Hello), Done)
            else r == (s, Rejected(ClientIntention, PhaseOf(s)))
    ensures var r := Apply(s, Call.CompleteLogin(profile));
            if PhaseOf(s) == InLogin(HelloPhase) || PhaseOf(s) == InLogin(AuthenticatingPhase)
            then r == (Login(ProtocolSwitching(profile)), Done)
            else r == (s, Rejected(LoginAcknowledged, PhaseOf(s)))
  {
  }

  function AsReply(r: Result<()>): (reply: Reply)
  {
    if r.Ok? then Done else Rejected(r.packet, r.phase)
  }

  class PrePlayState {
    var state: State

    constructor ()
      ensures state == Handshake
    {
      state := Handshake;
    }

    function Unexpected<T>(packet: Packet): (r: Result<T>)
      reads this
    {
      Err(packet, PhaseOf(state))
    }

    method Expect(packet: Packet) returns (r: Result<()>)
      ensures r.Ok? <==> WaitsFor(PhaseOf(state)) == Some(packet)
      ensures r.Err? ==> r.packet == packet && r.phase == PhaseOf(state)
    {
      if Expected(state, packet) {
        return Ok(());
      }
      return Unexpected(packet);
    }

    method SelectProtocol(protocol: Protocol) returns (r: Result<()>)
      modifies this
      ensures (state, AsReply(r)) == Apply(old(state), Call.SelectProtocol(protocol))
    {
      if !state.Handshake? {
        return Unexpected(ClientIntention);
      }
      match protocol {
        case StatusProtocol => state := Status;
        case LoginProtocol => state := Login(Hello);
        case _ => return Unexpected(ClientIntention);
      }
      return Ok(());
    }

    method WaitForKey(username: string) returns (r: Result<()>)
      modifies this
      ensures (state, AsReply(r)) == Apply(old(state), Call.WaitForKey(username))
    {
      r := Expect(HelloPacket);
      if r.Ok? {
        state := Login(Key(username));
      }
    }

    method BeginAuthentication() returns (r: Result<string>)
      modifies this
      ensures (state, if r.Ok? then Username(r.value) else Rejected(r.packet, r.phase))
           == Apply(old(state), Call.BeginAuthentication)
    {
      var expected := Expect(KeyPacket);
      if expected.Err? {
        return Err(expected.packet, expected.phase);
      }
      var username := state.login.requestedUsername;
      state := Login(Key([]));
      state := Login(Authenticating);
      return Ok(username);
    }

    method CompleteLogin(profile: Profile) returns (r: Result<()>)
      modifies this
      ensures (state, AsReply(r)) == Apply(old(state), Call.CompleteLogin(profile))
    {
      if !(state.Login? && (state.login.Hello? || state.login.Authenticating?)) {
        return Unexpected(LoginAcknowledged);
      }
      state := Login(ProtocolSwitching(profile));
      return Ok(());
    }

    /** The state is swapped for `Play` while the profile moves over, and never left there. */
    method AcknowledgeLogin() returns (r: Result<()>)
      modifies this
      ensures (state, AsReply(r)) == Apply(old(state), Call.AcknowledgeLogin)
    {
      r := Expect(LoginAcknowledged);
      if r.Err? {
        return;
      }
      var previous := state;
      state := Play;
      state := Configuration(SynchronizeRegistries, previous.login.authenticatedProfile);
    }

    method SelectKnownPacks() returns (r: Result<()>)
      modifies this
      ensures (state, AsReply(r)) == Apply(old(state), Call.SelectKnownPacks)
    {
      r := Expect(SelectKnownPacksPacket);
      if r.Ok? {
        state := state.(phase := JoinWorld);
      }
    }

    method FinishConfiguration() returns (r: Result<Profile>)
      modifies this
      ensures (state, if r.Ok? then Identity(r.value) else Rejected(r.packet, r.phase))
           == Apply(old(state), Call.FinishConfiguration)
    {
      var expected := Expect(FinishPacket);
      if expected.Err? {
        return Err(expected.packet, expected.phase);
      }
      var previous := state;
      state := Play;
      return Ok(previous.profile);
    }
  }

  // ----- Whole runs -----

  function Final(s: State, calls: seq<Call>): (r: State)
    decreases |calls|
  {
    if calls == [] then s else Final(Apply(s, calls[0]).0, calls[1..])
  }

  /** The calls of a run that were not rejected, in order. */
  function Accepted(s: State, calls: seq<Call>): (r: seq<Call>)
    decreases |calls|
  {
    if calls == [] then []
    else
      var (next, reply) := Apply(s, calls[0]);
      (if reply.Rejected? then [] else [calls[0]]) + Accepted(next, calls[1..])
  }

  /** How a login may begin: without encryption, or through a key exchange. */
  predicate Opening(a: seq<Call>)
  {
    || a == [Call.SelectProtocol(LoginProtocol)]
    || (|a| == 3 && a[0] == Call.SelectProtocol(LoginProtocol) && a[1].WaitForKey? && a[2] == Call.BeginAuthentication)
  }

  /** The calls after the opening, on the way to play. */
  function Closing(p: Profile): (c: seq<Call>)
  {
    [Call.CompleteLogin(p), Call.AcknowledgeLogin, Call.SelectKnownPacks, Call.FinishConfiguration]
  }

  /** An opening, then the first `n` calls of the closing for `p`. */
  ghost predicate Reaches(a: seq<Call>, p: Profile, n: nat)
  {
    n <= |a| && n <= 4 && Opening(a[..|a| - n]) && a[|a| - n..] == Closing(p)[..n]
  }

  /** The state says exactly which calls have been accepted, up to the data they carried. */
  ghost predicate Tracks(s: State, a: seq<Call>)
  {
    match s
    case Handshake => a == []
    case Status => a == [Call.SelectProtocol(StatusProtocol)]
    case Login(Hello) => a == [Call.SelectProtocol(LoginProtocol)]
    case Login(Key(u)) => a == [Call.SelectProtocol(LoginProtocol), Call.WaitForKey(u)]
    case Login(Authenticating) => Opening(a) && |a| == 3
    case Login(ProtocolSwitching(p)) => Reaches(a, p, 1)
    case Configuration(SynchronizeRegistries, p) => Reaches(a, p, 2)
    case Configuration(JoinWorld, p) => Reaches(a, p, 3)
    case Play => exists p :: Reaches(a, p, 4)
  }

  lemma Extend(a: seq<Call>, p: Profile, n: nat)
    requires Reaches(a, p, n) && n < 4
    ensures Reaches(a + [Closing(p)[n]], p, n + 1)
  {
    var b := a + [Closing(p)[n]];
    assert b[..|b| - (n + 1)] == a[..|a| - n];
    assert b[|b| - (n + 1)..] == a[|a| - n..] + [Closing(p)[n]];
  }

  lemma EarlyCallKeepsTrack(s: State, a: seq<Call>, call: Call)
    requires Tracks(s, a) && (s.Handshake? || s.Status? || s.Play? || (s.Login? && !s.login.ProtocolSwitching?))
    requires !Apply(s, call).1.Rejected?
    ensures Tracks(Apply(s, call).0, a + [call])
  {
    hide Reaches;
    if call.CompleteLogin? {
      assert a[..|a| - 0] == a;
      ReachesStart(a, call.profile);
      Extend(a, call.profile, 0);
    }
  }

  lemma ReachesStart(a: seq<Call>, p: Profile)
    requires Opening(a)
    ensures Reaches(a, p, 0)
  {
    assert a[..|a| - 0] == a;
  }

  lemma LateCallKeepsTrack(s: State, a: seq<Call>, call: Call)
    requires Tracks(s, a) && (s.Configuration? || (s.Login? && s.login.ProtocolSwitching?))
    requires !Apply(s, call).1.Rejected?
    ensures Tracks(Apply(s, call).0, a + [call])
  {
    hide Reaches;
    match s
    case Login(l) => Extend(a, l.authenticatedProfile, 1);
    case Configuration(phase, p) => Extend(a, p, if phase == SynchronizeRegistries then 2 else 3);
  }

  /** A rejected call changes nothing; an accepted one is recorded. */
  lemma CallKeepsTrack(s: State, a: seq<Call>, call: Call)
    requires Tracks(s, a)
    ensures if Apply(s, call).1.Rejected? then Apply(s, call).0 == s else Tracks(Apply(s, call).0, a + [call])
  {
    if !Apply(s, call).1.Rejected? {
      hide Tracks, Apply;
      if s.Configuration? || (s.Login? && s.login.ProtocolSwitching?) {
        LateCallKeepsTrack(s, a, call);
      } else {
        EarlyCallKeepsTrack(s, a, call);
      }
    }
  }

  lemma Associative(x: seq<Call>, y: seq<Call>, z: seq<Call>)
    ensures (x + y) + z == x + (y + z)
  {
  }

  lemma {:induction false} RunKeepsTrack(s: State, a: seq<Call>, calls: seq<Call>)
    requires Tracks(s, a)
    ensures Tracks(Final(s, calls), a + Accepted(s, calls))
    decreases |calls|
  {
    hide Tracks, Apply;
    if calls == [] {
      assert a + Accepted(s, calls) == a;
    } else {
      CallKeepsTrack(s, a, calls[0]);
      var step := Apply(s, calls[0]);
      var now := if step.1.Rejected? then [] else [calls[0]];
      assert step.1.Rejected? ==> a + now == a;
      RunKeepsTrack(step.0, a + now, calls[1..]);
      Associative(a, now, Accepted(step.0, calls[1..]));
    }
  }

  /**
    Play is reached only through a whole login: protocol selection, an optional key exchange, one
    completed login, acknowledgement, known packs and finish, in that order. The state is a record
    of that path, at most seven calls are ever accepted, and at most one login is completed.
   */
  lemma PlayNeedsTheWholeSequence(calls: seq<Call>)
    ensures var a := Accepted(Handshake, calls);
            && Tracks(Final(Handshake, calls), a)
            && (Final(Handshake, calls) == Play ==> exists p :: Reaches(a, p, 4))
            && |a| <= 7 && OneLogin(a)
  {
    hide Reaches, OneLogin, Final, Accepted;
    RunKeepsTrack(Handshake, [], calls);
    var a := Accepted(Handshake, calls);
    assert [] + a == a;
    ShapeOfPath(Final(Handshake, calls), a);
  }

  ghost predicate OneLogin(a: seq<Call>)
  {
    forall i, j | 0 <= i < |a| && 0 <= j < |a| && a[i].CompleteLogin? && a[j].CompleteLogin? :: i == j
  }

  /** Only the first call of the closing completes a login. */
  lemma ReachedShape(a: seq<Call>, p: Profile, n: nat)
    requires Reaches(a, p, n)
    ensures |a| <= 7 && forall i | 0 <= i < |a| && a[i].CompleteLogin? :: i == |a| - n
  {
    var m := |a| - n;
    assert forall i | 0 <= i < m :: a[i] == a[..m][i];
    assert forall i | m <= i < |a| :: a[i] == a[m..][i - m];
  }

  lemma ShapeOfPath(s: State, a: seq<Call>)
    requires Tracks(s, a)
    ensures |a| <= 7 && OneLogin(a)
  {
    hide Reaches;
    match s
    case Login(ProtocolSwitching(p)) => ReachedShape(a, p, 1);
    case Configuration(SynchronizeRegistries, p) => ReachedShape(a, p, 2);
    case Configuration(JoinWorld, p) => ReachedShape(a, p, 3);
    case Play => var p :| Reaches(a, p, 4); ReachedShape(a, p, 4);
    case _ =>
  }

  /** The identity handed to play is the one given to the accepted `complete_login`. */
  lemma IdentityIsTheCompletedLogin(calls: seq<Call>, p: Profile)
    requires Apply(Final(Handshake, calls), Call.FinishConfiguration).1 == Identity(p)
    ensures Reaches(Accepted(Handshake, calls), p, 3)
    ensures Call.CompleteLogin(p) in Accepted(Handshake, calls)
  {
    RunKeepsTrack(Handshake, [], calls);
    var a := Accepted(Handshake, calls);
    assert [] + a == a;
    assert a[|a| - 3..][0] == Closing(p)[0];
  }

  /** The name handed to authentication is the one given to the accepted `wait_for_key`. */
  lemma UsernameIsTheRequestedOne(calls: seq<Call>, name: string)
    requires Apply(Final(Handshake, calls), Call.BeginAuthentication).1 == Username(name)
    ensures Accepted(Handshake, calls) == [Call.SelectProtocol(LoginProtocol), Call.WaitForKey(name)]
  {
    RunKeepsTrack(Handshake, [], calls);
    assert [] + Accepted(Handshake, calls) == Accepted(Handshake, calls);
  }

  // ----- Which runs are accepted whole -----

  const STATUS_PATH: seq<Call> := [Call.SelectProtocol(StatusProtocol)]

  /** A whole login: an opening, with or without a key exchange, and the closing. */
  ghost predicate LoginPath(a: seq<Call>)
  {
    exists opening, p :: Opening(opening) && a == opening + Closing(p)
  }

  /** The beginning of the status path or of a login. */
  ghost predicate OnAPath(a: seq<Call>)
  {
    a <= STATUS_PATH || exists path :: LoginPath(path) && a <= path
  }

  lemma {:induction false} AcceptedSplit(s: State, a: seq<Call>, b: seq<Call>)
    ensures Accepted(s, a + b) == Accepted(s, a) + Accepted(Final(s, a), b)
    ensures |Accepted(s, a)| <= |a|
    decreases |a|
  {
    hide Apply;
    if a == [] {
      assert a + b == b && [] + Accepted(s, b) == Accepted(s, b);
    } else {
      var step := Apply(s, a[0]);
      assert (a + b)[0] == a[0] && (a + b)[1..] == a[1..] + b;
      AcceptedSplit(step.0, a[1..], b);
      var now := if step.1.Rejected? then [] else [a[0]];
      Associative(now, Accepted(step.0, a[1..]), Accepted(Final(step.0, a[1..]), b));
    }
  }

  /** A call that is accepted, and the rest. */
  lemma AcceptedCons(s: State, call: Call, rest: seq<Call>)
    requires !Apply(s, call).1.Rejected? && Accepted(Apply(s, call).0, rest) == rest
    ensures Accepted(s, [call] + rest) == [call] + rest
  {
    hide Apply;
    assert ([call] + rest)[1..] == rest;
  }

  lemma ClosingIsAccepted(s: State, p: Profile)
    requires s == Login(Hello) || s == Login(Authenticating)
    ensures Accepted(s, Closing(p)) == Closing(p)
  {
    hide Accepted;
    AcceptedNothing(Play);
    AcceptedCons(Configuration(JoinWorld, p), Call.FinishConfiguration, []);
    AcceptedCons(Configuration(SynchronizeRegistries, p), Call.SelectKnownPacks, [Call.FinishConfiguration] + []);
    var last3 := [Call.SelectKnownPacks] + ([Call.FinishConfiguration] + []);
    AcceptedCons(Login(ProtocolSwitching(p)), Call.AcknowledgeLogin, last3);
    AcceptedCons(s, Call.CompleteLogin(p), [Call.AcknowledgeLogin] + last3);
    assert Closing(p) == [Call.CompleteLogin(p)] + ([Call.AcknowledgeLogin] + last3);
  }

  lemma AcceptedNothing(s: State)
    ensures Accepted(s, []) == []
  {
  }

  lemma LoginPathIsAccepted(opening: seq<Call>, p: Profile)
    requires Opening(opening)
    ensures Accepted(Handshake, opening + Closing(p)) == opening + Closing(p)
  {
    hide Accepted;
    var select := Call.SelectProtocol(LoginProtocol);
    if |opening| == 1 {
      ClosingIsAccepted(Login(Hello), p);
      AcceptedCons(Handshake, select, Closing(p));
    } else {
      ClosingIsAccepted(Login(Authenticating), p);
      var name := opening[1].username;
      AcceptedCons(Login(Key(name)), Call.BeginAuthentication, Closing(p));
      AcceptedCons(Login(Hello), opening[1], [Call.BeginAuthentication] + Closing(p));
      AcceptedCons(Handshake, select, [opening[1]] + ([Call.BeginAuthentication] + Closing(p)));
      assert opening + Closing(p) == [select] + ([opening[1]] + ([Call.BeginAuthentication] + Closing(p)));
    }
  }

  lemma PrefixIsAccepted(path: seq<Call>, a: seq<Call>)
    requires Accepted(Handshake, path) == path && a <= path
    ensures Accepted(Handshake, a) == a
  {
    hide Accepted, Final;
    var b := path[|a|..];
    assert path == a + b;
    AcceptedSplit(Handshake, a, b);
    AcceptedSplit(Final(Handshake, a), b, []);
    var x, y := Accepted(Handshake, a), Accepted(Final(Handshake, a), b);
    assert |x| == |a|;
    assert x == (x + y)[..|a|] == path[..|a|] == a;
  }

  lemma TrackedIsOnAPath(s: State, a: seq<Call>)
    requires Tracks(s, a)
    ensures OnAPath(a)
  {
    hide Reaches;
    var p := Profile([], [], []);
    var select := Call.SelectProtocol(LoginProtocol);
    match s
    case Handshake =>
    case Status =>
    case Login(Hello) =>
      assert Opening([select]);
      assert LoginPath([select] + Closing(p)) && a <= [select] + Closing(p);
    case Login(Key(u)) =>
      var opening := [select, Call.WaitForKey(u), Call.BeginAuthentication];
      assert Opening(opening) && LoginPath(opening + Closing(p)) && a <= opening + Closing(p);
    case Login(Authenticating) =>
      assert Opening(a);
      assert LoginPath(a + Closing(p)) && a <= a + Closing(p);
    case Login(ProtocolSwitching(q)) => ReachedIsOnAPath(a, q, 1);
    case Configuration(SynchronizeRegistries, q) => ReachedIsOnAPath(a, q, 2);
    case Configuration(JoinWorld, q) => ReachedIsOnAPath(a, q, 3);
    case Play => var q :| Reaches(a, q, 4); ReachedIsOnAPath(a, q, 4);
  }

  lemma ReachedIsOnAPath(a: seq<Call>, p: Profile, n: nat)
    requires Reaches(a, p, n)
    ensures OnAPath(a)
  {
    var opening := a[..|a| - n];
    assert a == opening + Closing(p)[..n];
    assert LoginPath(opening + Closing(p)) && a <= opening + Closing(p);
  }

  /**
    The calls that are accepted, one and all, are exactly the beginnings of two paths: the status
    request, and a login with or without a key exchange.
   */
  lemma AcceptedWholeExactlyOnAPath(a: seq<Call>)
    ensures Accepted(Handshake, a) == a <==> OnAPath(a)
  {
    if OnAPath(a) {
      if a <= STATUS_PATH {
        AcceptedNothing(Status);
        AcceptedCons(Handshake, Call.SelectProtocol(StatusProtocol), []);
        assert STATUS_PATH == [Call.SelectProtocol(StatusProtocol)] + [];
        hide Accepted;
        PrefixIsAccepted(STATUS_PATH, a);
      } else {
        var path :| LoginPath(path) && a <= path;
        var opening, p :| Opening(opening) && path == opening + Closing(p);
        hide Accepted;
        LoginPathIsAccepted(opening, p);
        PrefixIsAccepted(path, a);
      }
    }
    if Accepted(Handshake, a) == a {
      hide Accepted, Final, OnAPath;
      RunKeepsTrack(Handshake, [], a);
      assert [] + a == a;
      TrackedIsOnAPath(Final(Handshake, a), a);
    }
  }
}
