/** The merge of user accounts whose names differ only by case or spaces. The user table is a
    sequence of rows in id order, each with the comparison key of its username (stripped,
    normalised and case-folded); each of the four foreign keys to it is a column, from the
    referencing row to the user it names, if any.
 */
module UserMerge {
  import opened Options

  datatype User = User(id: int, key: string, source: string, role: string, enabled: bool)

  type Column = map<int, Option<int>>

  function Rank(role: string): nat { if role == "admin" then 2 else if role == "operator" then 1 else 0 }

  predicate InIdOrder(users: seq<User>) {
    forall i, j :: 0 <= i < j < |users| ==> users[i].id < users[j].id
  }

  // ---------------------------------------------------------------------------------------
  // What the merge means
  // ---------------------------------------------------------------------------------------

  // The rows that share a key, in id order.
  function Group(users: seq<User>, k: string): seq<User> {
    if users == [] then []
    else
      var n := |users| - 1;
      Group(users[..n], k) + if users[n].key == k then [users[n]] else []
  }

  // The highest role of a group, of equals the first.
  function TopRole(g: seq<User>): string
    requires g != []
  {
    var n := |g| - 1;
    if n == 0 then g[0].role
    else
      var role := TopRole(g[..n]);
      if Rank(g[n].role) > Rank(role) then g[n].role else role
  }

  predicate AllEnabled(g: seq<User>) { forall i :: 0 <= i < |g| ==> g[i].enabled }

  // A group in one row: the lowest id, the highest role, enabled if all were.
  function Combined(g: seq<User>): User
    requires g != []
  {
    g[0].(role := TopRole(g), enabled := AllEnabled(g))
  }

  // What becomes of one row when the groups of the given keys are merged.
  function Kept(users: seq<User>, keys: set<string>, u: User): seq<User> {
    var g := Group(users, u.key);
    if u.key !in keys || g == [] then [u] else if g[0] == u then [Combined(g)] else []
  }

  // The first n rows of the table after that merge.
  function Merged(users: seq<User>, keys: set<string>, n: nat): seq<User>
    requires n <= |users|
  {
    if n == 0 then [] else Merged(users, keys, n - 1) + Kept(users, keys, users[n - 1])
  }

  function RowOf(users: seq<User>, id: int): Option<User> {
    if users == [] then None
    else if users[|users| - 1].id == id then Some(users[|users| - 1])
    else RowOf(users[..|users| - 1], id)
  }

  // The user a reference names after that merge.
  function Target(users: seq<User>, keys: set<string>, id: int): int {
    match RowOf(users, id)
    case None => id
    case Some(u) => var g := Group(users, u.key); if u.key !in keys || g == [] then id else g[0].id
  }

  function Repointed(c: Column, users: seq<User>, keys: set<string>): Column {
    map r | r in c :: if c[r].None? then None else Some(Target(users, keys, c[r].value))
  }

  function KeysOf(users: seq<User>): set<string> { set i | 0 <= i < |users| :: users[i].key }

  // Two accounts share a key and one of them is local.
  predicate Blocked(users: seq<User>) {
    exists i, j :: && 0 <= i < |users| && 0 <= j < |users| && i != j
                   && users[i].key == users[j].key && users[i].source != "ldap"
  }

  // ---------------------------------------------------------------------------------------
  // The statements
  // ---------------------------------------------------------------------------------------

  predicate HasId(g: seq<User>, id: int) { exists i :: 0 <= i < |g| && g[i].id == id }

  // UPDATE user SET role, enabled WHERE id
  function UpdateUser(users: seq<User>, id: int, role: string, enabled: bool): seq<User> {
    if users == [] then []
    else
      var n := |users| - 1;
      UpdateUser(users[..n], id, role, enabled) +
      [if users[n].id == id then users[n].(role := role, enabled := enabled) else users[n]]
  }

  // DELETE FROM user WHERE id IN the extras
  function DeleteUsers(users: seq<User>, extras: seq<User>): seq<User> {
    if users == [] then []
    else
      var n := |users| - 1;
      DeleteUsers(users[..n], extras) + if HasId(extras, users[n].id) then [] else [users[n]]
  }

  // UPDATE table SET column = keeper WHERE column IN the extras
  function Repoint(c: Column, keeper: int, extras: seq<User>): Column {
    map r | r in c :: if c[r].Some? && HasId(extras, c[r].value) then Some(keeper) else c[r]
  }

  class Database {
    var users: seq<User>
    // event.actor_user_id, event.alert_cleared_by, milestone.user_id, session.user_id
    var refs: seq<Column>

    method ResolveDuplicates() returns (refused: bool)
      requires InIdOrder(users) && |refs| == 4
      modifies this
      ensures refused <==> Blocked(old(users))
      ensures refused ==> users == old(users) && refs == old(refs)
      ensures !refused ==> users == Merged(old(users), KeysOf(old(users)), |old(users)|)
      ensures !refused ==> |refs| == 4
      ensures !refused ==>
              forall c :: 0 <= c < 4 ==> refs[c] == Repointed(old(refs)[c], old(users), KeysOf(old(users)))
    {
      hide Group, Merged, Repointed, UpdateUser, DeleteUsers, Repoint, TopRole, AllEnabled, Blocked;
      var rows := users;
      var order, groups := GroupRows(rows);
      refused := AnyBlocking(rows, order, groups);
      if refused { return; }
      ghost var done := {};
      MergedNothing(rows, |rows|);
      forall c | 0 <= c < 4 ensures refs[c] == Repointed(refs[c], rows, {}) { RepointedNothing(refs[c], rows); }
      for i := 0 to |order|
        invariant done == (set j | 0 <= j < i :: order[j])
        invariant users == Merged(rows, done, |rows|) && |refs| == 4
        invariant forall c :: 0 <= c < 4 ==> refs[c] == Repointed(old(refs)[c], rows, done)
      {
        var k := order[i];
        assert k !in done && k in groups;
        InAGroup(rows, k);
        MergeRows(rows, done, k, |rows|);
        forall c | 0 <= c < 4
          ensures Repoint(refs[c], groups[k][0].id, groups[k][1..]) == Repointed(old(refs)[c], rows, done + {k})
          ensures |groups[k]| == 1 ==> refs[c] == Repointed(old(refs)[c], rows, done + {k})
        {
          RepointStep(old(refs)[c], rows, done, k);
        }
        if |groups[k]| > 1 { MergeGroup(groups[k]); }
        done := done + {k};
      }
      assert done == groups.Keys;
    }

    // The statements for one conflicting group.
    method MergeGroup(group: seq<User>)
      requires group != [] && |refs| == 4
      modifies this
      ensures users == DeleteUsers(UpdateUser(old(users), group[0].id, TopRole(group), AllEnabled(group)), group[1..])
      ensures |refs| == 4 && forall c :: 0 <= c < 4 ==> refs[c] == Repoint(old(refs)[c], group[0].id, group[1..])
    {
      hide UpdateUser, DeleteUsers, Repoint, TopRole, AllEnabled;
      var keeper, extras := group[0], group[1..];
      for c := 0 to 4
        invariant users == old(users) && |refs| == 4
        invariant forall j :: 0 <= j < c ==> refs[j] == Repoint(old(refs)[j], keeper.id, extras)
        invariant forall j :: c <= j < 4 ==> refs[j] == old(refs)[j]
      {
        refs := refs[c := Repoint(refs[c], keeper.id, extras)];
      }
      users := UpdateUser(users, keeper.id, TopRole(group), AllEnabled(group));
      users := DeleteUsers(users, extras);
    }
  }

  // The keys in the order they were first seen, and the rows of each.
  predicate Grouping(rows: seq<User>, order: seq<string>, groups: map<string, seq<User>>) {
    && groups.Keys == KeysOf(rows) && (forall k :: k in groups ==> groups[k] == Group(rows, k))
    && (forall i :: 0 <= i < |order| ==> order[i] in groups)
    && (forall k :: k in groups ==> k in order)
    && (forall i, j :: 0 <= i < j < |order| ==> order[i] != order[j])
  }

  method GroupRows(rows: seq<User>) returns (order: seq<string>, groups: map<string, seq<User>>)
    ensures Grouping(rows, order, groups)
  {
    hide Group, KeysOf;
    order, groups := [], map[];
    assert Grouping(rows[..0], order, groups) by { NoGroups(rows); }
    for n := 0 to |rows|
      invariant Grouping(rows[..n], order, groups)
    {
      var u := rows[n];
      GroupGrows(rows, n);
      if u.key !in groups {
        order := order + [u.key];
        groups := groups[u.key := [u]];
      } else {
        groups := groups[u.key := groups[u.key] + [u]];
      }
    }
    assert rows[..|rows|] == rows;
  }

  lemma NoGroups(rows: seq<User>)
    ensures Grouping(rows[..0], [], map[])
  {}

  lemma GroupGrows(rows: seq<User>, n: nat)
    requires n < |rows|
    ensures KeysOf(rows[..n + 1]) == KeysOf(rows[..n]) + {rows[n].key}
    ensures forall k :: Group(rows[..n + 1], k) == Group(rows[..n], k) + if k == rows[n].key then [rows[n]] else []
    ensures rows[n].key !in KeysOf(rows[..n]) ==> Group(rows[..n], rows[n].key) == []
  {
    assert rows[..n + 1][..n] == rows[..n];
    if rows[n].key !in KeysOf(rows[..n]) { NoGroup(rows[..n], rows[n].key); }
  }

  // Whether some conflicting group holds an account that is not a directory one.
  method AnyBlocking(rows: seq<User>, order: seq<string>, groups: map<string, seq<User>>) returns (blocking: bool)
    requires Grouping(rows, order, groups)
    ensures blocking <==> Blocked(rows)
  {
    hide Blocked, Group;
    blocking := false;
    for i := 0 to |order|
      invariant blocking <==> exists j :: 0 <= j < i && Blocking(Group(rows, order[j]))
    {
      assert order[i] in groups;
      if Blocking(groups[order[i]]) { blocking := true; }
    }
    BlockedByGroup(rows);
  }

  predicate Blocking(g: seq<User>) { |g| > 1 && exists i :: 0 <= i < |g| && g[i].source != "ldap" }

  // ---------------------------------------------------------------------------------------
  // Groups
  // ---------------------------------------------------------------------------------------

  lemma {:induction false} NoGroup(users: seq<User>, k: string)
    requires k !in KeysOf(users)
    ensures Group(users, k) == []
  {
    if users != [] {
      var n := |users| - 1;
      assert forall i :: 0 <= i < n ==> users[..n][i] == users[i];
      assert users[n].key in KeysOf(users);
      NoGroup(users[..n], k);
    }
  }

  // A group holds rows of its key, in id order and each from the table.
  lemma {:induction false} GroupRow(users: seq<User>, k: string, i: nat) returns (at: nat)
    requires i < |Group(users, k)|
    ensures at < |users| && users[at] == Group(users, k)[i] && users[at].key == k
  {
    var n := |users| - 1;
    if i < |Group(users[..n], k)| { at := GroupRow(users[..n], k, i); } else { at := n; }
  }

  // Every row of a key is in its group.
  lemma {:induction false} RowInGroup(users: seq<User>, at: nat) returns (i: nat)
    requires at < |users|
    ensures i < |Group(users, users[at].key)| && Group(users, users[at].key)[i] == users[at]
  {
    var n := |users| - 1;
    if at < n { i := RowInGroup(users[..n], at); } else { i := |Group(users[..n], users[at].key)|; }
  }

  lemma {:induction false} GroupInIdOrder(users: seq<User>, k: string)
    requires InIdOrder(users)
    ensures InIdOrder(Group(users, k))
  {
    if users != [] {
      var n := |users| - 1;
      var g := Group(users[..n], k);
      GroupInIdOrder(users[..n], k);
      forall i | 0 <= i < |g| ensures g[i].id < users[n].id {
        var at := GroupRow(users[..n], k, i);
      }
    }
  }

  lemma InAGroup(users: seq<User>, k: string)
    requires k in KeysOf(users)
    ensures Group(users, k) != []
  {
    var at :| 0 <= at < |users| && users[at].key == k;
    var i := RowInGroup(users, at);
  }

  // A row of the table has an extra row's id exactly if it is in the group and not first.
  lemma ExtraIds(users: seq<User>, k: string, at: nat)
    requires InIdOrder(users) && at < |users| && Group(users, k) != []
    ensures var g := Group(users, k);
            && (users[at].id == g[0].id <==> users[at] == g[0])
            && (HasId(g[1..], users[at].id) <==> users[at].key == k && users[at] != g[0])
  {
    var g, u := Group(users, k), users[at];
    GroupInIdOrder(users, k);
    var first := GroupRow(users, k, 0);
    if HasId(g[1..], u.id) {
      var i :| 0 <= i < |g[1..]| && g[1..][i].id == u.id;
      var from := GroupRow(users, k, i + 1);
      assert from == at;
    }
    if u.key == k && u != g[0] {
      var i := RowInGroup(users, at);
      assert g[1..][i - 1].id == u.id;
    }
  }

  lemma BlockedByGroup(users: seq<User>)
    ensures Blocked(users) <==> exists k :: k in KeysOf(users) && Blocking(Group(users, k))
  {
    if Blocked(users) { BlockedHasGroup(users); }
    if exists k :: k in KeysOf(users) && Blocking(Group(users, k)) {
      var k :| k in KeysOf(users) && Blocking(Group(users, k));
      GroupBlocks(users, k);
    }
  }

  lemma BlockedHasGroup(users: seq<User>)
    requires Blocked(users)
    ensures exists k :: k in KeysOf(users) && Blocking(Group(users, k))
  {
    var i, j :| && 0 <= i < |users| && 0 <= j < |users| && i != j
                && users[i].key == users[j].key && users[i].source != "ldap";
    var m := RowInGroup(users, i);
    GroupOfTwo(users, i, j);
    assert users[i].key in KeysOf(users) && Blocking(Group(users, users[i].key));
  }

  lemma {:induction false} GroupOfTwo(users: seq<User>, i: nat, j: nat)
    requires i < |users| && j < |users| && i != j && users[i].key == users[j].key
    ensures |Group(users, users[i].key)| > 1
  {
    var n := |users| - 1;
    if i < n && j < n { GroupOfTwo(users[..n], i, j); }
    else { var m := RowInGroup(users[..n], if i < n then i else j); }
  }

  lemma {:induction false} GroupBlocks(users: seq<User>, k: string)
    requires Blocking(Group(users, k))
    ensures Blocked(users)
  {
    var g := Group(users, k);
    var m :| 0 <= m < |g| && g[m].source != "ldap";
    var i, j := TwoRows(users, k, m, if m == 0 then 1 else 0);
  }

  // Two places in a group come from two rows.
  lemma {:induction false} TwoRows(users: seq<User>, k: string, m: nat, n: nat) returns (i: nat, j: nat)
    requires m < |Group(users, k)| && n < |Group(users, k)| && m != n
    ensures i < |users| && j < |users| && i != j && users[i].key == users[j].key == k
    ensures users[i] == Group(users, k)[m] && users[j] == Group(users, k)[n]
  {
    var last := |users| - 1;
    var g := Group(users[..last], k);
    if m < |g| && n < |g| { i, j := TwoRows(users[..last], k, m, n); }
    else if m < |g| { i := GroupRow(users[..last], k, m); j := last; }
    else { i := last; j := GroupRow(users[..last], k, n); }
  }

  // Row i holds the highest role, and no row before it does.
  predicate HoldsTop(g: seq<User>, i: nat)
    requires i < |g|
  {
    && g[i].role == TopRole(g)
    && (forall j :: 0 <= j < |g| ==> Rank(g[j].role) <= Rank(g[i].role))
    && (forall j :: 0 <= j < i ==> Rank(g[j].role) < Rank(g[i].role))
  }

  lemma {:induction false} TopRoleIsTop(g: seq<User>) returns (i: nat)
    requires g != []
    ensures i < |g| && HoldsTop(g, i)
  {
    var n := |g| - 1;
    if n == 0 {
      i := 0;
    } else {
      i := TopRoleIsTop(g[..n]);
      assert g[..n][i] == g[i] && forall j :: 0 <= j < n ==> g[..n][j] == g[j];
      if Rank(g[n].role) > Rank(TopRole(g[..n])) { i := n; }
    }
  }

  // ---------------------------------------------------------------------------------------
  // One group after another
  // ---------------------------------------------------------------------------------------

  lemma {:induction false} MergedNothing(users: seq<User>, n: nat)
    requires n <= |users|
    ensures Merged(users, {}, n) == users[..n]
  {
    if n > 0 { MergedNothing(users, n - 1); }
  }

  lemma {:induction false} RowOfIs(users: seq<User>, id: int)
    ensures RowOf(users, id).Some? ==>
            exists i :: 0 <= i < |users| && users[i] == RowOf(users, id).value && users[i].id == id
    ensures RowOf(users, id).None? ==> forall i :: 0 <= i < |users| ==> users[i].id != id
  {
    if users != [] {
      var n := |users| - 1;
      RowOfIs(users[..n], id);
      assert forall i :: 0 <= i < n ==> users[..n][i] == users[i];
    }
  }

  lemma RepointedNothing(c: Column, users: seq<User>)
    ensures Repointed(c, users, {}) == c
  {
    hide Group, RowOf;
    forall r | r in c && c[r].Some? ensures Target(users, {}, c[r].value) == c[r].value {}
    assert Repointed(c, users, {}).Keys == c.Keys;
    assert forall r :: r in c ==> Repointed(c, users, {})[r] == c[r];
  }

  // The update and the delete of one group, on what became of one row so far.
  lemma MergeRow(users: seq<User>, keys: set<string>, k: string, at: nat)
    requires InIdOrder(users) && at < |users| && k !in keys && Group(users, k) != []
    ensures var g := Group(users, k);
            DeleteUsers(UpdateUser(Kept(users, keys, users[at]), g[0].id, TopRole(g), AllEnabled(g)), g[1..])
            == Kept(users, keys + {k}, users[at])
  {
    hide Group, TopRole, AllEnabled, HasId, UpdateUser, DeleteUsers;
    var g, u := Group(users, k), users[at];
    ExtraIds(users, k, at);
    var first := GroupRow(users, k, 0);
    var own := Group(users, u.key);
    if u.key in keys && own != [] {
      if own[0] == u { UpdateOne(Combined(own), g); } else { UpdateNone(g); }
    } else {
      UpdateOne(u, g);
    }
  }

  lemma UpdateOne(row: User, g: seq<User>)
    requires g != []
    ensures var row' := if row.id == g[0].id then row.(role := TopRole(g), enabled := AllEnabled(g)) else row;
            DeleteUsers(UpdateUser([row], g[0].id, TopRole(g), AllEnabled(g)), g[1..]) ==
              if HasId(g[1..], row.id) then [] else [row']
  {
    hide TopRole, AllEnabled, HasId, UpdateUser, DeleteUsers;
    var row' := if row.id == g[0].id then row.(role := TopRole(g), enabled := AllEnabled(g)) else row;
    UpdateSingle(row, g[0].id, TopRole(g), AllEnabled(g));
    DeleteSingle(row', g[1..]);
  }

  lemma {:induction false} UpdateSingle(row: User, id: int, role: string, enabled: bool)
    ensures UpdateUser([row], id, role, enabled) ==
            [if row.id == id then row.(role := role, enabled := enabled) else row]
  {
    assert [row][..0] == [];
  }

  lemma {:induction false} DeleteSingle(row: User, extras: seq<User>)
    ensures DeleteUsers([row], extras) == if HasId(extras, row.id) then [] else [row]
  {
    assert [row][..0] == [];
  }

  lemma UpdateNone(g: seq<User>)
    requires g != []
    ensures DeleteUsers(UpdateUser([], g[0].id, TopRole(g), AllEnabled(g)), g[1..]) == []
  {}

  lemma {:induction false} StatementsDistribute(a: seq<User>, b: seq<User>, g: seq<User>)
    requires g != []
    ensures DeleteUsers(UpdateUser(a + b, g[0].id, TopRole(g), AllEnabled(g)), g[1..])
            == DeleteUsers(UpdateUser(a, g[0].id, TopRole(g), AllEnabled(g)), g[1..])
               + DeleteUsers(UpdateUser(b, g[0].id, TopRole(g), AllEnabled(g)), g[1..])
  {
    UpdateDistributes(a, b, g[0].id, TopRole(g), AllEnabled(g));
    DeleteDistributes(UpdateUser(a, g[0].id, TopRole(g), AllEnabled(g)),
                      UpdateUser(b, g[0].id, TopRole(g), AllEnabled(g)), g[1..]);
  }

  lemma {:induction false} UpdateDistributes(a: seq<User>, b: seq<User>, id: int, role: string, enabled: bool)
    ensures UpdateUser(a + b, id, role, enabled) == UpdateUser(a, id, role, enabled) + UpdateUser(b, id, role, enabled)
  {
    if b == [] {
      assert a + b == a;
    } else {
      assert (a + b)[..|a + b| - 1] == a + b[..|b| - 1];
      UpdateDistributes(a, b[..|b| - 1], id, role, enabled);
    }
  }

  lemma {:induction false} DeleteDistributes(a: seq<User>, b: seq<User>, extras: seq<User>)
    ensures DeleteUsers(a + b, extras) == DeleteUsers(a, extras) + DeleteUsers(b, extras)
  {
    hide HasId;
    if b == [] {
      assert a + b == a;
    } else {
      assert (a + b)[..|a + b| - 1] == a + b[..|b| - 1];
      DeleteDistributes(a, b[..|b| - 1], extras);
    }
  }

  // Merging one more group is its update and delete; for a group of one it is nothing.
  lemma {:induction false} MergeRows(users: seq<User>, keys: set<string>, k: string, n: nat)
    requires InIdOrder(users) && n <= |users| && k !in keys && Group(users, k) != []
    ensures var g := Group(users, k);
            DeleteUsers(UpdateUser(Merged(users, keys, n), g[0].id, TopRole(g), AllEnabled(g)), g[1..]) ==
              Merged(users, keys + {k}, n)
    ensures |Group(users, k)| == 1 ==> Merged(users, keys, n) == Merged(users, keys + {k}, n)
  {
    hide Group, TopRole, AllEnabled, Kept, DeleteUsers, UpdateUser;
    if n == 0 {
      UpdateNone(Group(users, k));
    } else {
      MergeRows(users, keys, k, n - 1);
      MergeRow(users, keys, k, n - 1);
      StatementsDistribute(Merged(users, keys, n - 1), Kept(users, keys, users[n - 1]), Group(users, k));
      if |Group(users, k)| == 1 { KeptAlone(users, keys, k, users[n - 1]); }
    }
  }

  lemma KeptAlone(users: seq<User>, keys: set<string>, k: string, u: User)
    requires u in users && |Group(users, k)| == 1
    ensures Kept(users, keys, u) == Kept(users, keys + {k}, u)
    ensures u.key == k ==> Group(users, k)[0] == u && Combined(Group(users, k)) == u
  {
    hide Group;
    var at :| 0 <= at < |users| && users[at] == u;
    if u.key == k { var i := RowInGroup(users, at); }
  }

  lemma TargetStep(users: seq<User>, keys: set<string>, k: string, id: int)
    requires InIdOrder(users) && k !in keys && Group(users, k) != []
    ensures var g, t := Group(users, k), Target(users, keys, id);
            Target(users, keys + {k}, id) == if HasId(g[1..], t) then g[0].id else t
    ensures |Group(users, k)| == 1 ==> Target(users, keys + {k}, id) == Target(users, keys, id)
  {
    hide Group, RowOf, HasId;
    RowOfIs(users, id);
    var g := Group(users, k);
    if RowOf(users, id).Some? {
      var u := RowOf(users, id).value;
      var at :| 0 <= at < |users| && users[at] == u && users[at].id == id;
      ExtraIds(users, k, at);
      if u.key in keys && Group(users, u.key) != [] {
        var first := GroupRow(users, u.key, 0);
        ExtraIds(users, k, first);
      }
      if |g| == 1 { KeptAlone(users, keys, k, u); }
    } else {
      NoExtra(users, k, id);
    }
  }

  lemma NoExtra(users: seq<User>, k: string, id: int)
    requires Group(users, k) != [] && forall i :: 0 <= i < |users| ==> users[i].id != id
    ensures !HasId(Group(users, k)[1..], id)
  {
    hide Group;
    var g := Group(users, k);
    forall i | 0 <= i < |g[1..]| ensures g[1..][i].id != id { var at := GroupRow(users, k, i + 1); }
  }

  lemma RepointStep(c: Column, users: seq<User>, keys: set<string>, k: string)
    requires InIdOrder(users) && k !in keys && Group(users, k) != []
    ensures var g := Group(users, k);
            Repoint(Repointed(c, users, keys), g[0].id, g[1..]) == Repointed(c, users, keys + {k})
    ensures |Group(users, k)| == 1 ==> Repointed(c, users, keys) == Repointed(c, users, keys + {k})
  {
    hide Group, Target, HasId;
    forall r | r in c && c[r].Some?
      ensures var g, t := Group(users, k), Target(users, keys, c[r].value);
              && Target(users, keys + {k}, c[r].value) == (if HasId(g[1..], t) then g[0].id else t)
              && (|g| == 1 ==> Target(users, keys + {k}, c[r].value) == t)
    {
      TargetStep(users, keys, k, c[r].value);
    }
  }

  // ---------------------------------------------------------------------------------------
  // What a merge that went through guarantees
  // ---------------------------------------------------------------------------------------

  lemma {:induction false} MergedHas(users: seq<User>, keys: set<string>, n: nat, at: nat)
    requires at < n <= |users| && users[at].key in keys && Group(users, users[at].key) != []
             && Group(users, users[at].key)[0] == users[at]
    ensures Combined(Group(users, users[at].key)) in Merged(users, keys, n)
  {
    hide Group, Combined;
    if at < n - 1 { MergedHas(users, keys, n - 1, at); }
  }

  lemma {:induction false} MergedOnly(users: seq<User>, keys: set<string>, n: nat, r: User)
    requires n <= |users| && KeysOf(users) <= keys && r in Merged(users, keys, n)
    ensures exists at :: 0 <= at < n && Group(users, users[at].key) != [] && Group(users, users[at].key)[0] == users[at]
                         && r == Combined(Group(users, users[at].key))
  {
    hide Group, Combined;
    if r in Merged(users, keys, n - 1) {
      MergedOnly(users, keys, n - 1, r);
    } else {
      assert users[n - 1].key in KeysOf(users);
      InAGroup(users, users[n - 1].key);
    }
  }

  // One group, from its members' side: its first row is the lowest id of the key.
  lemma GroupIs(users: seq<User>, at: nat)
    requires InIdOrder(users) && at < |users|
    ensures var g := Group(users, users[at].key);
            && g != [] && g[0] in users && g[0].key == users[at].key
            && (forall j :: 0 <= j < |users| && users[j].key == users[at].key ==> g[0].id <= users[j].id)
  {
    hide Group;
    var k := users[at].key;
    var g := Group(users, k);
    var i := RowInGroup(users, at);
    var first := GroupRow(users, k, 0);
    GroupInIdOrder(users, k);
    forall j | 0 <= j < |users| && users[j].key == k ensures g[0].id <= users[j].id {
      var m := RowInGroup(users, j);
    }
  }

  lemma KeptIsOne(users: seq<User>, keys: set<string>, u: User)
    ensures |Kept(users, keys, u)| <= 1 && forall r :: r in Kept(users, keys, u) ==> r.id == u.id
  {
    hide Group, TopRole, AllEnabled;
  }

  lemma OrderGrows(before: seq<User>, last: seq<User>, id: int)
    requires InIdOrder(before) && |last| <= 1 && forall r :: r in last ==> r.id == id
    requires forall i :: 0 <= i < |before| ==> before[i].id < id
    ensures InIdOrder(before + last) && forall i :: 0 <= i < |before + last| ==> (before + last)[i].id <= id
  {
    if last != [] { assert last[0] in last; }
  }

  lemma {:induction false} MergedInIdOrder(users: seq<User>, keys: set<string>, n: nat)
    requires InIdOrder(users) && n <= |users|
    ensures var after := Merged(users, keys, n);
            InIdOrder(after) && forall i :: 0 <= i < |after| ==> n > 0 && after[i].id <= users[n - 1].id
  {
    hide Kept;
    if n > 0 {
      MergedInIdOrder(users, keys, n - 1);
      KeptIsOne(users, keys, users[n - 1]);
      OrderGrows(Merged(users, keys, n - 1), Kept(users, keys, users[n - 1]), users[n - 1].id);
    }
  }

  /** After a merge no two rows share a key, as the unique index asks, and the rows are still in
      id order. */
  lemma MergedKeysAreUnique(users: seq<User>)
    requires InIdOrder(users)
    ensures var after := Merged(users, KeysOf(users), |users|);
            InIdOrder(after) && forall i, j :: 0 <= i < j < |after| ==> after[i].key != after[j].key
  {
    hide Group, Merged;
    var after := Merged(users, KeysOf(users), |users|);
    MergedInIdOrder(users, KeysOf(users), |users|);
    forall i, j | 0 <= i < j < |after| ensures after[i].key != after[j].key {
      var m := MergedFrom(users, after[i]);
      var n := MergedFrom(users, after[j]);
      assert after[i].id < after[j].id;
    }
  }

  lemma MergedFrom(users: seq<User>, r: User) returns (at: nat)
    requires r in Merged(users, KeysOf(users), |users|)
    ensures at < |users| && users[at].key == r.key && Group(users, r.key) != [] && r == Combined(Group(users, r.key))
  {
    hide Group, Merged, TopRole;
    MergedOnly(users, KeysOf(users), |users|, r);
    at :| 0 <= at < |users| && Group(users, users[at].key) != [] && Group(users, users[at].key)[0] == users[at]
          && r == Combined(Group(users, users[at].key));
  }

  /** A merge leaves one row for each key: the lowest id, with the highest role among the
      accounts of that key and enabled only if they all were. */
  lemma MergedRow(users: seq<User>, at: nat)
    requires InIdOrder(users) && at < |users|
    ensures var g, after := Group(users, users[at].key), Merged(users, KeysOf(users), |users|);
            && g != [] && Combined(g) in after
            && (forall r :: r in after && r.key == users[at].key ==> r == Combined(g))
            && (forall j :: 0 <= j < |users| && users[j].key == users[at].key ==> Combined(g).id <= users[j].id)
            && (forall j :: 0 <= j < |users| && users[j].key == users[at].key ==>
                Rank(users[j].role) <= Rank(Combined(g).role))
            && (exists j :: 0 <= j < |users| && users[j].key == users[at].key && users[j].role == Combined(g).role)
            && (Combined(g).enabled <==>
                forall j :: 0 <= j < |users| && users[j].key == users[at].key ==> users[j].enabled)
  {
    hide Group, Merged;
    var k := users[at].key;
    var g, after := Group(users, k), Merged(users, KeysOf(users), |users|);
    GroupIs(users, at);
    var first := GroupRow(users, k, 0);
    assert users[first].key in KeysOf(users);
    MergedHas(users, KeysOf(users), |users|, first);
    forall r | r in after && r.key == k ensures r == Combined(g) { MergedOnly(users, KeysOf(users), |users|, r); }
    CombinedIs(users, at);
  }

  ghost predicate HasRole(users: seq<User>, key: string, role: string) {
    exists j :: 0 <= j < |users| && users[j].key == key && users[j].role == role
  }

  /** A key with an admin keeps admin; otherwise one with an operator keeps operator. */
  lemma HighestRoleIsKept(users: seq<User>, at: nat)
    requires InIdOrder(users) && at < |users| && Group(users, users[at].key) != []
    ensures var key, kept := users[at].key, Combined(Group(users, users[at].key)).role;
            && HasRole(users, key, kept)
            && (HasRole(users, key, "admin") ==> kept == "admin")
            && (HasRole(users, key, "operator") ==> kept == "admin" || kept == "operator")
  {
    hide Group, TopRole;
    CombinedIs(users, at);
  }

  lemma CombinedIs(users: seq<User>, at: nat)
    requires at < |users| && Group(users, users[at].key) != []
    ensures var g := Group(users, users[at].key);
            && (forall j :: 0 <= j < |users| && users[j].key == users[at].key ==>
                Rank(users[j].role) <= Rank(Combined(g).role))
            && (exists j :: 0 <= j < |users| && users[j].key == users[at].key && users[j].role == Combined(g).role)
            && (Combined(g).enabled <==>
                forall j :: 0 <= j < |users| && users[j].key == users[at].key ==> users[j].enabled)
  {
    hide Group, TopRole;
    var k := users[at].key;
    var g := Group(users, k);
    var m := TopRoleIsTop(g);
    forall j | 0 <= j < |users| && users[j].key == k
      ensures Rank(users[j].role) <= Rank(TopRole(g)) && (AllEnabled(g) ==> users[j].enabled)
    {
      var m := RowInGroup(users, j);
    }
    var from := GroupRow(users, k, m);
    assert users[from].key == k && users[from].role == TopRole(g);
    if !AllEnabled(g) {
      var d :| 0 <= d < |g| && !g[d].enabled;
      var off := GroupRow(users, k, d);
      assert users[off].key == k && !users[off].enabled;
    }
  }

  /** Every account alone in its key is left as it was. */
  lemma LoneIsUntouched(users: seq<User>, at: nat)
    requires InIdOrder(users) && at < |users| && |Group(users, users[at].key)| == 1
    ensures users[at] in Merged(users, KeysOf(users), |users|)
  {
    hide Group, Merged;
    MergedRow(users, at);
    KeptAlone(users, {}, users[at].key, users[at]);
  }

  /** Every reference that named a user still names one, and with the same key. */
  lemma ReferencesResolve(users: seq<User>, at: nat)
    requires InIdOrder(users) && at < |users|
    ensures exists r :: r in Merged(users, KeysOf(users), |users|)
                        && r.id == Target(users, KeysOf(users), users[at].id) && r.key == users[at].key
  {
    hide Group, Merged, RowOf;
    MergedRow(users, at);
    RowOfIs(users, users[at].id);
    GroupIs(users, at);
    assert users[at].key in KeysOf(users);
    var g := Group(users, users[at].key);
    assert RowOf(users, users[at].id) == Some(users[at]);
    assert Combined(g).id == g[0].id;
  }
}
