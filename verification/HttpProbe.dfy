/** The HTTP snapshot probe: paths are asked anonymously, and credentials are sent only once a
    path asked for a login and the gate agreed, until one login is rejected.
 */
module HttpProbe {
  import opened Options

  datatype Failure = Auth | Timeout | Unreachable | Other

  // The outcome of one GET: an image, or why there is none and a refusal to send Basic over HTTP.
  datatype Reply = Image | NoImage(failure: Option<Failure>, refused: Option<string>)

  predicate FailsWith(r: Reply, f: Failure) { r.NoImage? && r.failure == Some(f) }

  datatype Event = Get(path: nat, login: bool, reply: Reply) | Gate(allowed: bool)

  datatype Sending = Undecided | Yes | No

  datatype Candidate = Found(path: nat) | NotFound(reason: Option<Failure>, refusal: Option<string>)

  // What the camera and the gate would answer. A path is asked at most once each way.
  datatype World = World(anonymous: nat -> Reply, withLogin: nat -> Reply, gate: Option<bool>)

  predicate IsLogin(e: Event) { e.Get? && e.login }
  predicate IsRejectedLogin(e: Event) { IsLogin(e) && FailsWith(e.reply, Auth) }
  predicate IsRefusal(e: Event) { e.Get? && !e.login && FailsWith(e.reply, Auth) }

  // Some anonymous request was refused before, and the gate, if there is one, then agreed.
  ghost predicate Asked(trace: seq<Event>, n: nat, w: World)
    requires n <= |trace|
  {
    exists m :: 0 <= m < n && IsRefusal(trace[m])
                && (w.gate.Some? ==> exists g :: m < g < n && trace[g] == Gate(true))
  }

  ghost predicate Careful(trace: seq<Event>, w: World, hasCredentials: bool) {
    && (forall n :: 0 <= n < |trace| && IsLogin(trace[n]) ==> hasCredentials && Asked(trace, n, w))
    && (forall m, n :: 0 <= m < n < |trace| && trace[m].Gate? ==> !trace[n].Gate?)
    && (forall m, n :: 0 <= m < n < |trace| && IsRejectedLogin(trace[m]) ==> !IsLogin(trace[n]))
  }

  // What the three-state flag says about the requests made so far.
  ghost predicate Consistent(trace: seq<Event>, w: World, hasCredentials: bool, send: Sending) {
    && Careful(trace, w, hasCredentials)
    && (send == Undecided ==> hasCredentials && forall n :: 0 <= n < |trace| ==> !trace[n].Gate? && !IsLogin(trace[n]))
    && (send == Yes ==>
          hasCredentials && Asked(trace, |trace|, w) && forall n :: 0 <= n < |trace| ==> !IsRejectedLogin(trace[n]))
  }

  lemma AskedLater(trace: seq<Event>, e: Event, n: nat, w: World)
    requires n <= |trace| && Asked(trace, n, w)
    ensures Asked(trace + [e], n, w) && Asked(trace + [e], |trace| + 1, w)
  {
    var m :| 0 <= m < n && IsRefusal(trace[m]) && (w.gate.Some? ==> exists g :: m < g < n && trace[g] == Gate(true));
    assert (trace + [e])[m] == trace[m];
    if w.gate.Some? {
      var g :| m < g < n && trace[g] == Gate(true);
      assert (trace + [e])[g] == Gate(true);
    }
  }

  lemma StaysCareful(trace: seq<Event>, e: Event, w: World, hasCredentials: bool)
    requires Careful(trace, w, hasCredentials)
    requires IsLogin(e) ==>
             hasCredentials && Asked(trace, |trace|, w) && forall n :: 0 <= n < |trace| ==> !IsRejectedLogin(trace[n])
    requires e.Gate? ==> forall n :: 0 <= n < |trace| ==> !trace[n].Gate?
    ensures Careful(trace + [e], w, hasCredentials)
  {
    hide Asked;
    var longer := trace + [e];
    forall n | 0 <= n < |longer| && IsLogin(longer[n]) ensures hasCredentials && Asked(longer, n, w) {
      AskedLater(trace, e, n, w);
    }
  }

  // The reply that settled each path: the last one the path gave.
  ghost predicate Settles(trace: seq<Event>, outcomes: seq<Reply>) {
    && (forall p: nat :: p < |outcomes| ==> SettledBy(trace, p, outcomes[p]))
    && (forall n :: 0 <= n < |trace| && trace[n].Get? ==> trace[n].path < |outcomes|)
    && (forall n :: 0 <= n < |trace| && IsRejectedLogin(trace[n]) ==> FailsWith(outcomes[trace[n].path], Auth))
  }

  ghost predicate SettledBy(trace: seq<Event>, p: nat, reply: Reply) {
    exists n :: 0 <= n < |trace| && trace[n].Get? && trace[n].path == p && trace[n].reply == reply
                && forall m :: n < m < |trace| && trace[m].Get? ==> trace[m].path > p
  }

  // Why nothing was found: a refused login if there was one, else the last failure.
  function Reason(outcomes: seq<Reply>): Option<Failure> {
    if outcomes == [] then None
    else
      var n := |outcomes| - 1;
      var before := Reason(outcomes[..n]);
      if before != Some(Auth) && outcomes[n].NoImage? && outcomes[n].failure.Some? then outcomes[n].failure else before
  }

  // The last refusal to send Basic.
  function Refusal(outcomes: seq<Reply>): Option<string> {
    if outcomes == [] then None
    else
      var n := |outcomes| - 1;
      if outcomes[n].NoImage? && outcomes[n].refused.Some? then outcomes[n].refused else Refusal(outcomes[..n])
  }

  /** A login refused on any path is what the probe reports, whatever failed elsewhere; without
      one it reports the failure of the last path that failed. */
  lemma {:induction false} ReasonIs(outcomes: seq<Reply>)
    ensures Reason(outcomes) == Some(Auth) <==> exists n :: 0 <= n < |outcomes| && FailsWith(outcomes[n], Auth)
    ensures Reason(outcomes) == None <==>
            forall n :: 0 <= n < |outcomes| ==> outcomes[n].Image? || outcomes[n].failure == None
    ensures Reason(outcomes).Some? && Reason(outcomes) != Some(Auth) ==>
              exists n :: 0 <= n < |outcomes| && FailsWith(outcomes[n], Reason(outcomes).value)
                          && forall m :: n < m < |outcomes| ==> outcomes[m].Image? || outcomes[m].failure == None
  {
    if outcomes != [] {
      var n := |outcomes| - 1;
      ReasonIs(outcomes[..n]);
      assert forall i :: 0 <= i < n ==> outcomes[..n][i] == outcomes[i];
      assert outcomes[n].NoImage? && outcomes[n].failure.Some? ==> FailsWith(outcomes[n], outcomes[n].failure.value);
    }
  }

  /** The refusal reported is that of the last path that gave one. */
  lemma {:induction false} RefusalIs(outcomes: seq<Reply>)
    ensures match Refusal(outcomes)
            case None => forall n :: 0 <= n < |outcomes| ==> outcomes[n].Image? || outcomes[n].refused == None
            case Some(text) =>
              exists n :: 0 <= n < |outcomes| && outcomes[n].NoImage? && outcomes[n].refused == Some(text)
                          && forall m :: n < m < |outcomes| ==> outcomes[m].Image? || outcomes[m].refused == None
  {
    if outcomes != [] {
      var n := |outcomes| - 1;
      RefusalIs(outcomes[..n]);
      assert forall i :: 0 <= i < n ==> outcomes[..n][i] == outcomes[i];
    }
  }

  // One more path, settled by event `at`.
  lemma SettlesMore(before: seq<Event>, outcomes: seq<Reply>, trace: seq<Event>, at: nat, reply: Reply)
    requires Settles(before, outcomes) && before <= trace && before != trace
    requires forall n :: |before| <= n < |trace| && trace[n].Get? ==> trace[n].path == |outcomes|
    requires forall n :: |before| <= n < |trace| && IsRejectedLogin(trace[n]) ==> FailsWith(reply, Auth)
    requires |before| <= at < |trace| && trace[at].Get? && trace[at].reply == reply
             && forall m :: at < m < |trace| ==> trace[m].Gate?
    ensures Settles(trace, outcomes + [reply])
  {
    var longer := outcomes + [reply];
    assert forall n :: 0 <= n < |before| ==> trace[n] == before[n];
    forall p: nat | p < |longer| ensures SettledBy(trace, p, longer[p]) {
      if p < |outcomes| {
        assert SettledBy(before, p, outcomes[p]);
        var n :| 0 <= n < |before| && before[n].Get? && before[n].path == p && before[n].reply == outcomes[p]
                 && forall m :: n < m < |before| && before[m].Get? ==> before[m].path > p;
        assert trace[n] == before[n];
      } else {
        assert trace[at].path == p;
      }
    }
  }

  // The first path that asks for a login.
  predicate IsFirstRefusal(w: World, k: nat) {
    FailsWith(w.anonymous(k), Auth) && forall q: nat :: q < k ==> !FailsWith(w.anonymous(q), Auth)
  }

  // Whether path p is settled with credentials: there are some, the gate does not refuse, a
  // login has been asked for, and none was rejected since.
  ghost predicate LoggedIn(w: World, hasCredentials: bool, p: nat) {
    && hasCredentials && w.gate != Some(false)
    && exists k: nat :: k <= p && IsFirstRefusal(w, k) && NoneRejected(w, k, p)
  }

  predicate NoneRejected(w: World, k: nat, p: nat) {
    forall q: nat :: k <= q < p ==> !FailsWith(w.withLogin(q), Auth)
  }

  // What the three-state flag says about the paths before p.
  ghost predicate Decided(w: World, hasCredentials: bool, p: nat, send: Sending) {
    match send
    case Undecided => hasCredentials && forall q: nat :: q < p ==> !FailsWith(w.anonymous(q), Auth)
    case Yes =>
      hasCredentials && w.gate != Some(false) && exists k: nat :: k < p && IsFirstRefusal(w, k) && NoneRejected(w, k, p)
    case No =>
      !hasCredentials
      || exists k: nat :: k < p && IsFirstRefusal(w, k) && (w.gate == Some(false) || !NoneRejected(w, k, p))
  }

  // The flag after path p.
  function NextSend(w: World, p: nat, send: Sending): Sending {
    var asks := FailsWith(w.anonymous(p), Auth);
    if send == No || (send == Undecided && !asks) then send
    else if send == Undecided && w.gate == Some(false) then No
    else if FailsWith(w.withLogin(p), Auth) then No else Yes
  }

  lemma DecidedMore(w: World, hasCredentials: bool, p: nat, send: Sending)
    requires Decided(w, hasCredentials, p, send)
    ensures Decided(w, hasCredentials, p + 1, NextSend(w, p, send))
    ensures LoggedIn(w, hasCredentials, p) <==>
            send == Yes || (send == Undecided && FailsWith(w.anonymous(p), Auth) && w.gate != Some(false))
  {
    if send == Undecided && FailsWith(w.anonymous(p), Auth) {
      assert IsFirstRefusal(w, p) && NoneRejected(w, p, p);
    }
    if send == Yes {
      var k: nat :| k < p && IsFirstRefusal(w, k) && NoneRejected(w, k, p);
      assert NoneRejected(w, k, p + 1) <==> !FailsWith(w.withLogin(p), Auth);
    }
    if send == No && hasCredentials {
      var k: nat :| k < p && IsFirstRefusal(w, k) && (w.gate == Some(false) || !NoneRejected(w, k, p));
      assert !NoneRejected(w, k, p) ==> !NoneRejected(w, k, p + 1);
      forall j: nat | IsFirstRefusal(w, j) ensures j == k {}
    }
  }

  /** In any run of the probe, whatever the camera and the gate answer: no credentials are sent
      before an anonymous request was refused and the gate agreed, the gate is asked at most
      once, and at most one login is rejected, after which none is made. Paths are tried in
      order up to the first image; without one, all are, and the verdict is that of the replies
      that settled them. Each path is settled with credentials exactly when that is allowed. */
  method ProbeHttp(paths: nat, hasCredentials: bool, w: World)
    returns (r: Candidate, trace: seq<Event>, outcomes: seq<Reply>)
    ensures Careful(trace, w, hasCredentials) && Settles(trace, outcomes)
    ensures forall p :: 0 <= p < |outcomes| ==>
              outcomes[p] == if LoggedIn(w, hasCredentials, p) then w.withLogin(p) else w.anonymous(p)
    ensures forall p :: 0 <= p < |outcomes| && outcomes[p].Image? ==> p == |outcomes| - 1 && r == Found(p)
    ensures r.Found? ==> r.path < |outcomes| <= paths && outcomes[r.path].Image?
    ensures r.NotFound? ==> |outcomes| == paths && r == NotFound(Reason(outcomes), Refusal(outcomes))
  {
    hide Careful, Asked, Settles, Reason, Refusal, LoggedIn, Decided;
    trace, outcomes := [], [];
    var send := if hasCredentials then Undecided else No;
    var reason: Option<Failure>, refusal: Option<string> := None, None;
    NothingYet(w, hasCredentials);
    NothingDecided(w, hasCredentials);
    for p := 0 to paths
      invariant Consistent(trace, w, hasCredentials, send) && Settles(trace, outcomes)
      invariant |outcomes| == p && forall q :: 0 <= q < p ==> !outcomes[q].Image?
      invariant reason == Reason(outcomes) && refusal == Refusal(outcomes)
      invariant Decided(w, hasCredentials, p, send)
      invariant forall q :: 0 <= q < p ==>
                  outcomes[q] == if LoggedIn(w, hasCredentials, q) then w.withLogin(q) else w.anonymous(q)
    {
      DecidedMore(w, hasCredentials, p, send);
      ghost var before := trace;
      var reply := if send == Yes then w.withLogin(p) else w.anonymous(p);
      var get := Get(p, send == Yes, reply);
      StaysCareful(trace, get, w, hasCredentials);
      if send == Yes { AskedLater(trace, get, |trace|, w); }
      trace := trace + [get];
      ghost var at := |before|;
      if FailsWith(reply, Auth) && send == Undecided {
        AskedNow(trace, w);
        var allowed := w.gate.None? || w.gate.value;
        if w.gate.Some? {
          StaysCareful(trace, Gate(allowed), w, hasCredentials);
          if allowed { GateOpens(trace, w); }
          trace := trace + [Gate(allowed)];
        }
        send := if allowed then Yes else No;
        if allowed {
          reply := w.withLogin(p);
          StaysCareful(trace, Get(p, true, reply), w, hasCredentials);
          AskedLater(trace, Get(p, true, reply), |trace|, w);
          at := |trace|;
          trace := trace + [Get(p, true, reply)];
        }
      }
      SettlesMore(before, outcomes, trace, at, reply);
      VerdictMore(outcomes, reply);
      outcomes := outcomes + [reply];
      if reply.NoImage? && reply.refused.Some? { refusal := reply.refused; }
      if reply.Image? { return Found(p), trace, outcomes; }
      if FailsWith(reply, Auth) && send == Yes { send := No; }
      if reply.failure.Some? && reason != Some(Auth) { reason := reply.failure; }
    }
    return NotFound(reason, refusal), trace, outcomes;
  }

  lemma VerdictMore(outcomes: seq<Reply>, reply: Reply)
    ensures Refusal(outcomes + [reply]) ==
            if reply.NoImage? && reply.refused.Some? then reply.refused else Refusal(outcomes)
    ensures Reason(outcomes + [reply]) ==
            if Reason(outcomes) != Some(Auth) && reply.NoImage? && reply.failure.Some?
            then reply.failure
            else Reason(outcomes)
  {
    assert (outcomes + [reply])[..|outcomes|] == outcomes;
  }

  lemma NothingDecided(w: World, hasCredentials: bool)
    ensures Decided(w, hasCredentials, 0, if hasCredentials then Undecided else No)
  {}

  lemma NothingYet(w: World, hasCredentials: bool)
    ensures Careful([], w, hasCredentials) && Settles([], []) && Reason([]) == None && Refusal([]) == None
  {}

  // Right after a refusal, with no gate to ask, credentials may go out.
  lemma AskedNow(trace: seq<Event>, w: World)
    requires trace != [] && IsRefusal(trace[|trace| - 1])
    ensures w.gate.None? ==> Asked(trace, |trace|, w)
  {}

  lemma GateOpens(trace: seq<Event>, w: World)
    requires trace != [] && IsRefusal(trace[|trace| - 1])
    ensures Asked(trace + [Gate(true)], |trace| + 1, w)
  {
    var longer := trace + [Gate(true)];
    assert IsRefusal(longer[|trace| - 1]) && longer[|trace|] == Gate(true);
  }
}
