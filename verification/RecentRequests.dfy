/** The bounded memory of each user's recent requests. A Python dictionary keeps the order its
    keys were inserted in, so it is a sequence of entries here.
 */
module RecentRequests {

  const PER_USER := 20
  const MAX_USERS := 500

  datatype Request = Request(id: string, verb: string, path: string, at: int)

  datatype Entry = Entry(user: int, requests: seq<Request>)

  type Memory = seq<Entry>

  // The last n elements, or all of them.
  function Last<T>(s: seq<T>, n: nat): seq<T> { if |s| <= n then s else s[|s| - n..] }

  function Without(m: Memory, user: int): Memory {
    if m == [] then []
    else Without(m[..|m| - 1], user) + if m[|m| - 1].user == user then [] else [m[|m| - 1]]
  }

  function Find(m: Memory, user: int): seq<Request> {
    if m == [] then [] else if m[|m| - 1].user == user then m[|m| - 1].requests else Find(m[..|m| - 1], user)
  }

  // Append to a deque of bounded length, unless the last request is repeated.
  function Appended(requests: seq<Request>, r: Request): seq<Request> {
    if requests != [] && requests[|requests| - 1].id == r.id then requests else Last(requests + [r], PER_USER)
  }

  // The memory after one recorded request.
  function Recorded(m: Memory, user: int, r: Request): Memory {
    Last(Without(m, user) + [Entry(user, Appended(Find(m, user), r))], MAX_USERS)
  }

  class Recent {
    var byUser: Memory

    constructor ()
      ensures byUser == []
    {
      byUser := [];
    }

    method Record(user: int, r: Request)
      modifies this
      ensures byUser == Recorded(old(byUser), user, r)
    {
      var entries := Find(byUser, user);
      byUser := Without(byUser, user);
      if entries == [] || entries[|entries| - 1].id != r.id {
        entries := entries + [r];
        if |entries| > PER_USER { entries := entries[|entries| - PER_USER..]; }
      }
      byUser := byUser + [Entry(user, entries)];
      ghost var full := byUser;
      while |byUser| > MAX_USERS
        invariant Last(byUser, MAX_USERS) == Last(full, MAX_USERS)
        decreases |byUser|
      {
        byUser := byUser[1..];
      }
    }

    // The user's own entry, or nothing for a user who is not remembered.
    method ForUser(user: int) returns (requests: seq<Request>)
      ensures requests == Find(byUser, user)
      ensures if user in Users(byUser) then Entry(user, requests) in byUser else requests == []
    {
      requests := Find(byUser, user);
      if user in Users(byUser) { FindIs(byUser, user); } else { FindStranger(byUser, user); }
    }
  }

  // ---------------------------------------------------------------------------------------
  // The memory as a function of the history
  // ---------------------------------------------------------------------------------------

  datatype Event = Event(user: int, request: Request)

  function Run(h: seq<Event>): Memory {
    if h == [] then [] else Recorded(Run(h[..|h| - 1]), h[|h| - 1].user, h[|h| - 1].request)
  }

  function Users(m: Memory): (us: seq<int>)
    ensures |us| == |m| && forall i :: 0 <= i < |m| ==> us[i] == m[i].user
  {
    seq(|m|, i requires 0 <= i < |m| => m[i].user)
  }

  function Drop(us: seq<int>, user: int): seq<int> {
    if us == [] then [] else Drop(us[..|us| - 1], user) + if us[|us| - 1] == user then [] else [us[|us| - 1]]
  }

  // The users of a history, each once, in the order of their last activity.
  function ByActivity(h: seq<Event>): seq<int> {
    if h == [] then [] else Drop(ByActivity(h[..|h| - 1]), h[|h| - 1].user) + [h[|h| - 1].user]
  }

  // The last activity of a user, or -1.
  function LastAt(h: seq<Event>, user: int): (k: int)
    ensures -1 <= k < |h| && (k >= 0 ==> h[k].user == user)
    ensures forall j :: k < j < |h| ==> h[j].user != user
  {
    if h == [] then -1 else if h[|h| - 1].user == user then |h| - 1 else LastAt(h[..|h| - 1], user)
  }

  predicate Distinct(us: seq<int>) { forall i, j :: 0 <= i < j < |us| ==> us[i] != us[j] }

  lemma {:induction false} DropMembers(us: seq<int>, user: int, v: int)
    ensures v in Drop(us, user) <==> v in us && v != user
  {
    if us != [] {
      DropMembers(us[..|us| - 1], user, v);
      assert v in us <==> v in us[..|us| - 1] || v == us[|us| - 1];
    }
  }

  lemma {:induction false} DropAbsent(us: seq<int>, user: int)
    requires user !in us
    ensures Drop(us, user) == us
  {
    if us != [] {
      assert us[|us| - 1] in us;
      DropAbsent(us[..|us| - 1], user);
    }
  }

  lemma {:induction false} DropLength(us: seq<int>, user: int)
    requires Distinct(us)
    ensures |Drop(us, user)| == if user in us then |us| - 1 else |us|
  {
    if us != [] {
      var n := |us| - 1;
      assert user in us <==> user in us[..n] || user == us[n];
      assert us[n] !in us[..n];
      DropLength(us[..n], user);
    }
  }

  lemma {:induction false} DropSplits(a: seq<int>, b: seq<int>, user: int)
    ensures Drop(a + b, user) == Drop(a, user) + Drop(b, user)
  {
    if b == [] {
      assert a + b == a;
    } else {
      assert (a + b)[..|a + b| - 1] == a + b[..|b| - 1];
      DropSplits(a, b[..|b| - 1], user);
    }
  }

  // Positions in the list follow the times of last activity.
  predicate InActivityOrder(h: seq<Event>, us: seq<int>) {
    forall i, j :: 0 <= i < j < |us| ==> LastAt(h, us[i]) < LastAt(h, us[j])
  }

  lemma LastAtMore(h: seq<Event>, user: int)
    requires h != []
    ensures LastAt(h, user) == if h[|h| - 1].user == user then |h| - 1 else LastAt(h[..|h| - 1], user)
  {}

  /** The list holds every user of the history exactly once, ordered by last activity. */
  lemma {:induction false} ActivityOrder(h: seq<Event>)
    ensures forall v :: v in ByActivity(h) <==> LastAt(h, v) >= 0
    ensures InActivityOrder(h, ByActivity(h)) && Distinct(ByActivity(h))
  {
    hide Drop, LastAt;
    if h == [] {
      assert forall v :: LastAt(h, v) == -1;
    } else {
      var n := |h| - 1;
      var front := Drop(ByActivity(h[..n]), h[n].user);
      ActivityOrder(h[..n]);
      forall v ensures v in ByActivity(h) <==> LastAt(h, v) >= 0 {
        DropMembers(ByActivity(h[..n]), h[n].user, v);
        LastAtMore(h, v);
      }
      DropKeepsOrder(h[..n], ByActivity(h[..n]), h[n].user);
      forall v | v in front ensures LastAt(h, v) == LastAt(h[..n], v) < n {
        DropMembers(ByActivity(h[..n]), h[n].user, v);
        LastAtMore(h, v);
      }
      LastAtMore(h, h[n].user);
      OrderWithLast(h, front, h[n].user);
    }
  }

  lemma OrderWithLast(h: seq<Event>, front: seq<int>, user: int)
    requires h != [] && LastAt(h, user) == |h| - 1
    requires InActivityOrder(h[..|h| - 1], front)
    requires forall v :: v in front ==> LastAt(h, v) == LastAt(h[..|h| - 1], v) < |h| - 1
    ensures InActivityOrder(h, front + [user]) && Distinct(front + [user])
  {
    hide LastAt;
    var us := front + [user];
    forall i, j | 0 <= i < j < |us| ensures LastAt(h, us[i]) < LastAt(h, us[j]) {
      assert us[i] == front[i] && front[i] in front;
      if j < |front| { assert us[j] == front[j] && front[j] in front; }
    }
  }

  lemma {:induction false} DropKeepsOrder(h: seq<Event>, us: seq<int>, user: int)
    requires InActivityOrder(h, us)
    ensures InActivityOrder(h, Drop(us, user))
  {
    hide LastAt;
    if us != [] {
      var n := |us| - 1;
      DropKeepsOrder(h, us[..n], user);
      var front := Drop(us[..n], user);
      forall i | 0 <= i < |front| ensures LastAt(h, front[i]) < LastAt(h, us[n]) {
        assert front[i] in front;
        DropMembers(us[..n], user, front[i]);
      }
    }
  }

  lemma {:induction false} UsersWithout(m: Memory, user: int)
    ensures Users(Without(m, user)) == Drop(Users(m), user)
  {
    if m != [] {
      var n := |m| - 1;
      UsersWithout(m[..n], user);
      assert Users(m)[..n] == Users(m[..n]);
    }
  }

  lemma LastOfSuffix(a: seq<int>, b: seq<int>, n: nat)
    requires |b| >= n
    ensures Last(a + b, n) == Last(b, n)
  {}

  // Keeping the last n users before or after a user is moved to the end comes to the same.
  lemma LastOfMoved(us: seq<int>, user: int, n: nat)
    requires Distinct(us) && n > 0
    ensures Last(Drop(Last(us, n), user) + [user], n) == Last(Drop(us, user) + [user], n)
  {
    hide Drop;
    if |us| > n {
      var a, b := us[..|us| - n], us[|us| - n..];
      assert us == a + b;
      DropSplits(a, b, user);
      DropLength(b, user);
      assert Drop(us, user) + [user] == Drop(a, user) + (Drop(b, user) + [user]);
      LastOfSuffix(Drop(a, user), Drop(b, user) + [user], n);
    }
  }

  /** After any history, the users remembered are exactly the 500 most recently active, in
      order of last activity. */
  lemma {:induction false} RememberedUsers(h: seq<Event>)
    ensures Users(Run(h)) == Last(ByActivity(h), 500)
  {
    hide Appended, Find, Without;
    if h != [] {
      var n := |h| - 1;
      var m, user := Run(h[..n]), h[n].user;
      RememberedUsers(h[..n]);
      ActivityOrder(h[..n]);
      UsersWithout(m, user);
      LastOfMoved(ByActivity(h[..n]), user, MAX_USERS);
      var all := Without(m, user) + [Entry(user, Appended(Find(m, user), h[n].request))];
      assert Users(all) == Users(Without(m, user)) + [user];
      assert Users(Last(all, MAX_USERS)) == Last(Users(all), MAX_USERS);
    }
  }

  // ---------------------------------------------------------------------------------------
  // What each user's entry holds
  // ---------------------------------------------------------------------------------------

  predicate Resident(h: seq<Event>, user: int) { user in Last(ByActivity(h), 500) }

  // Where a user's present stay in the memory began: the user was not remembered before that
  // event and has been ever since.
  function Since(h: seq<Event>, user: int): (k: nat)
    requires Resident(h, user)
    ensures k < |h| && !Resident(h[..k], user)
    ensures forall j :: k < j <= |h| ==> Resident(h[..j], user)
  {
    var n := |h| - 1;
    assert h[..n + 1] == h;
    if !Resident(h[..n], user) then n
    else
      assert forall j :: 0 <= j <= n ==> h[..n][..j] == h[..j];
      Since(h[..n], user)
  }

  function RequestsOf(h: seq<Event>, user: int): seq<Request> {
    if h == [] then []
    else RequestsOf(h[..|h| - 1], user) + if h[|h| - 1].user == user then [h[|h| - 1].request] else []
  }

  // Consecutive repeats of a request id collapsed to the first.
  function Collapsed(rs: seq<Request>): seq<Request> {
    if rs == [] then []
    else
      var n := |rs| - 1;
      var front := Collapsed(rs[..n]);
      if front != [] && front[|front| - 1].id == rs[n].id then front else front + [rs[n]]
  }

  // What a user's entry should hold.
  function Expected(h: seq<Event>, user: int): seq<Request>
    requires Resident(h, user)
  {
    Last(Collapsed(RequestsOf(h[Since(h, user)..], user)), 20)
  }

  lemma {:induction false} FindWithout(m: Memory, user: int, other: int)
    ensures Find(Without(m, user), other) == if other == user then [] else Find(m, other)
  {
    if m != [] {
      var n := |m| - 1;
      FindWithout(m[..n], user, other);
      var front := Without(m[..n], user);
      if m[n].user != user { assert (front + [m[n]])[..|front|] == front; } else { assert front + [] == front; }
    }
  }

  lemma {:induction false} FindKept(m: Memory, user: int, k: nat)
    requires k <= |m| && user in Users(m[k..])
    ensures Find(m[k..], user) == Find(m, user)
  {
    var n := |m| - 1;
    if m[n].user != user {
      assert m[k..][..|m[k..]| - 1] == m[..n][k..];
      assert user in Users(m[..n][k..]) by {
        var i :| 0 <= i < |m[k..]| && Users(m[k..])[i] == user;
        assert Users(m[..n][k..])[i] == user;
      }
      FindKept(m[..n], user, k);
    }
  }

  lemma FindRecorded(m: Memory, user: int, r: Request, other: int)
    requires other in Users(Recorded(m, user, r))
    ensures Find(Recorded(m, user, r), other) == if other == user then Appended(Find(m, user), r) else Find(m, other)
  {
    hide Appended;
    var all := Without(m, user) + [Entry(user, Appended(Find(m, user), r))];
    if |all| > MAX_USERS { FindKept(all, other, |all| - MAX_USERS); }
    assert all[..|all| - 1] == Without(m, user);
    FindWithout(m, user, other);
  }

  lemma {:induction false} FindIs(m: Memory, user: int)
    requires user in Users(m)
    ensures Entry(user, Find(m, user)) in m
  {
    var n := |m| - 1;
    if m[n].user == user {
      assert m[n] == Entry(user, Find(m, user));
    } else {
      var i :| 0 <= i < |m| && Users(m)[i] == user;
      assert Users(m[..n])[i] == user;
      FindIs(m[..n], user);
    }
  }

  lemma {:induction false} FindStranger(m: Memory, user: int)
    requires user !in Users(m)
    ensures Find(m, user) == []
  {
    if m != [] {
      var n := |m| - 1;
      assert Users(m)[n] == m[n].user;
      assert Users(m)[..n] == Users(m[..n]);
      FindStranger(m[..n], user);
    }
  }

  // Bounding as one goes keeps the same requests as bounding at the end.
  lemma AppendedCollapsed(rs: seq<Request>, r: Request)
    ensures Appended(Last(Collapsed(rs), PER_USER), r) == Last(Collapsed(rs + [r]), PER_USER)
  {
    hide Collapsed;
    var c := Collapsed(rs);
    CollapsedMore(rs, r);
    var kept := Last(c, PER_USER);
    if c != [] { assert kept[|kept| - 1] == c[|c| - 1]; }
    assert Last(kept + [r], PER_USER) == Last(c + [r], PER_USER);
    assert Last(kept, PER_USER) == kept;
  }

  lemma CollapsedMore(rs: seq<Request>, r: Request)
    ensures var c := Collapsed(rs);
            Collapsed(rs + [r]) == if c != [] && c[|c| - 1].id == r.id then c else c + [r]
  {
    assert (rs + [r])[..|rs|] == rs;
  }

  /** Each remembered user's entry holds the last 20 requests, repeats collapsed, made since the
      user was last admitted to the memory. */
  lemma {:induction false} RememberedRequests(h: seq<Event>, user: int)
    requires Resident(h, user)
    ensures Find(Run(h), user) == Expected(h, user)
  {
    hide Appended, Find, Without, Collapsed, ByActivity, RequestsOf;
    assert Since(h, user) < |h|;
    var n := |h| - 1;
    var m, e := Run(h[..n]), h[n];
    RememberedUsers(h);
    RememberedUsers(h[..n]);
    FindRecorded(m, e.user, e.request, user);
    StayGrows(h, user);
    if Resident(h[..n], user) {
      var before := RequestsOf(h[..n][Since(h[..n], user)..], user);
      RememberedRequests(h[..n], user);
      AppendedCollapsed(before, e.request);
      assert before + [] == before;
    } else {
      FindStranger(m, user);
      Admitted(h, user);
      AppendedCollapsed([], e.request);
      assert [] + [e.request] == [e.request] && Collapsed([]) == [] by { CollapsedNone(); }
    }
  }

  lemma CollapsedNone()
    ensures Collapsed([]) == []
  {}

  // The requests of a stay after one more event.
  lemma StayGrows(h: seq<Event>, user: int)
    requires Resident(h, user)
    ensures var n := |h| - 1;
            RequestsOf(h[Since(h, user)..], user) ==
              (if Resident(h[..n], user) then RequestsOf(h[..n][Since(h[..n], user)..], user) else [])
              + (if h[n].user == user then [h[n].request] else [])
  {
    hide Resident;
    var n, k := |h| - 1, Since(h, user);
    var stay := h[k..];
    assert stay[..|stay| - 1] == h[..n][k..] && stay[|stay| - 1] == h[n];
    if k == n { assert h[..n][k..] == []; }
  }

  // Only the user's own request admits the user.
  lemma Admitted(h: seq<Event>, user: int)
    requires h != [] && Resident(h, user) && !Resident(h[..|h| - 1], user)
    ensures h[|h| - 1].user == user
  {
    hide Drop;
    var n := |h| - 1;
    var us := ByActivity(h[..n]);
    ActivityOrder(h[..n]);
    LastOfMoved(us, h[n].user, MAX_USERS);
    var moved := Drop(Last(us, MAX_USERS), h[n].user) + [h[n].user];
    assert user in Last(moved, MAX_USERS) && user in moved;
    DropMembers(Last(us, MAX_USERS), h[n].user, user);
  }
}
