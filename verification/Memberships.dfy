/**
 Migration 0011 (apps/api/alembic/versions/0011_workspaces_and_memberships.py): one
 account per person, one membership per workspace they may enter, and back.

 A statement is a function on the tables; the migration is a class whose fields the
 statements reassign in order. Columns a schema does not have hold None or false.
 */
module Memberships {
  import opened Prelude
  import opened Letters

  type Id = nat
  type Stamp = int

  datatype Role = Admin | Operator | Approver | Viewer
  datatype Status = Invited | Active | Disabled

  datatype User = User(
    email: string,
    status: Status,
    created: Stamp,
    updated: Stamp,
    workspace: Option<Id>,       // before 0011
    role: Option<Role>,          // before 0011
    superadmin: bool,            // since 0011
    lastWorkspace: Option<Id>)   // since 0011

  /** `tag` is the first eight characters of the id's text. */
  datatype Workspace = Workspace(
    name: string,
    tag: string,
    created: Stamp,
    archived: Option<Stamp>,     // since 0011
    createdBy: Option<Id>)       // since 0011

  datatype Membership = Membership(workspace: Id, user: Id, role: Role, status: Status, created: Stamp, updated: Stamp)

  datatype Tables = Tables(users: map<Id, User>, workspaces: map<Id, Workspace>, memberships: map<Id, Membership>)

  // ----- the least of a set by creation, then id -------------------------------------

  predicate Before(created: map<Id, Stamp>, a: Id, b: Id)
    requires a in created && b in created
  {
    created[a] < created[b] || (created[a] == created[b] && a <= b)
  }

  ghost predicate IsLeast(s: set<Id>, created: map<Id, Stamp>, a: Id)
    requires s <= created.Keys
  {
    a in s && forall b :: b in s ==> Before(created, a, b)
  }

  lemma {:induction false} LeastExists(s: set<Id>, created: map<Id, Stamp>)
    requires s != {} && s <= created.Keys
    ensures exists a :: IsLeast(s, created, a)
    decreases s
  {
    var x :| x in s;
    if s == {x} {
      assert IsLeast(s, created, x);
    } else {
      LeastExists(s - {x}, created);
      var a :| IsLeast(s - {x}, created, a);
      var least := if Before(created, a, x) then a else x;
      forall b | b in s
        ensures Before(created, least, b)
      {
        if b != x {
          assert b in s - {x};
        }
      }
      assert IsLeast(s, created, least);
    }
  }

  /** `ORDER BY created_at, id LIMIT 1` */
  ghost function Least(s: set<Id>, created: map<Id, Stamp>): (r: Option<Id>)
    requires s <= created.Keys
    ensures r.None? <==> s == {}
    ensures r.Some? ==> IsLeast(s, created, r.value)
  {
    if s == {} then None
    else
      LeastExists(s, created);
      var a :| IsLeast(s, created, a);
      Some(a)
  }

  lemma LeastIsUnique(s: set<Id>, created: map<Id, Stamp>, a: Id)
    requires s <= created.Keys && IsLeast(s, created, a)
    ensures Least(s, created) == Some(a)
  {
  }

  /** The same order, computed by scanning. */
  method FindLeast(s: set<Id>, created: map<Id, Stamp>) returns (r: Option<Id>)
    requires s <= created.Keys
    ensures r == Least(s, created)
  {
    if s == {} {
      return None;
    }
    var best :| best in s;
    var todo := s - {best};
    while todo != {}
      invariant todo <= s && best in s
      invariant forall b :: b in s - todo ==> Before(created, best, b)
      decreases todo
    {
      var x :| x in todo;
      ghost var was, scanned := best, s - todo;
      todo := todo - {x};
      if !Before(created, best, x) {
        best := x;
      }
      forall b | b in s - todo
        ensures Before(created, best, b)
      {
        assert b == x || b in scanned;
        assert b in scanned ==> Before(created, was, b);
      }
    }
    LeastIsUnique(s, created, best);
    r := Some(best);
  }

  // ----- what the queries select -------------------------------------------------------

  function ActiveAdmins(users: map<Id, User>): set<Id> {
    set u | u in users && users[u].role == Some(Admin) && users[u].status == Active
  }

  function UserCreated(users: map<Id, User>): (m: map<Id, Stamp>)
    ensures m.Keys == users.Keys
  {
    map u | u in users :: users[u].created
  }

  function WorkspaceCreated(workspaces: map<Id, Workspace>): (m: map<Id, Stamp>)
    ensures m.Keys == workspaces.Keys
  {
    map w | w in workspaces :: workspaces[w].created
  }

  function MembershipCreated(memberships: map<Id, Membership>): (m: map<Id, Stamp>)
    ensures m.Keys == memberships.Keys
  {
    map k | k in memberships :: memberships[k].created
  }

  function MembershipsOf(memberships: map<Id, Membership>, user: Id): set<Id> {
    set k | k in memberships && memberships[k].user == user
  }

  ghost function Oldest(workspaces: map<Id, Workspace>): (r: Option<Id>)
    ensures r.None? <==> workspaces == map[]
    ensures r.Some? ==> r.value in workspaces
  {
    assert workspaces.Keys == {} <==> workspaces == map[];
    Least(workspaces.Keys, WorkspaceCreated(workspaces))
  }

  /** `DISTINCT ON (user_id) ... ORDER BY user_id, created_at, id` */
  ghost function Earliest(memberships: map<Id, Membership>, user: Id): (r: Option<Id>)
    ensures r.Some? ==> r.value in memberships && memberships[r.value].user == user
    ensures r.None? <==> forall k :: k in memberships ==> memberships[k].user != user
  {
    assert forall k :: k in memberships && memberships[k].user == user ==> k in MembershipsOf(memberships, user);
    Least(MembershipsOf(memberships, user), MembershipCreated(memberships))
  }

  // ----- the upgrade, statement by statement --------------------------------------------

  function MembershipFor(user: Id, u: User): Membership
    requires u.workspace.Some? && u.role.Some?
  {
    Membership(u.workspace.value, user, u.role.value, u.status, u.created, u.updated)
  }

  /** `minted` holds the fresh id of each user's membership, read the other way. */
  ghost predicate Minted(users: map<Id, User>, minted: map<Id, Id>) {
    && minted.Values == users.Keys
    && forall a, b :: a in minted && b in minted && a != b ==> minted[a] != minted[b]
  }

  predicate HasOlderNamesake(workspaces: map<Id, Workspace>, w: Id)
    requires w in workspaces
  {
    exists other :: other in workspaces && other < w && Lower(workspaces[other].name) == Lower(workspaces[w].name)
  }

  /** The name a workspace gets when an older one has its name. */
  function NewName(w: Workspace): string {
    w.name + (" (" + w.tag + ")")
  }

  function Deduplicated(workspaces: map<Id, Workspace>): map<Id, Workspace> {
    map w | w in workspaces ::
      if HasOlderNamesake(workspaces, w) then workspaces[w].(name := NewName(workspaces[w])) else workspaces[w]
  }

  /** The unique index on `lower(name)` can be built. */
  predicate NamesDiffer(workspaces: map<Id, Workspace>) {
    forall v, w :: v in workspaces && w in workspaces && v != w ==>
      Lower(workspaces[v].name) != Lower(workspaces[w].name)
  }

  /** A renamed workspace's new name is another's old one, or another renamed one's
      new one. */
  predicate Collide(workspaces: map<Id, Workspace>, v: Id, w: Id)
    requires v in workspaces && w in workspaces
  {
    && v != w && HasOlderNamesake(workspaces, v)
    && (|| Lower(NewName(workspaces[v])) == Lower(workspaces[w].name)
        || (HasOlderNamesake(workspaces, w) && Lower(NewName(workspaces[v])) == Lower(NewName(workspaces[w]))))
  }

  /** The renaming runs into a name. */
  ghost predicate RenamingCollides(workspaces: map<Id, Workspace>) {
    exists v, w :: v in workspaces && w in workspaces && Collide(workspaces, v, w)
  }

  /** Of the workspaces with one name, the oldest keeps it. */
  lemma {:induction false} SomeoneKeepsTheName(workspaces: map<Id, Workspace>, w: Id) returns (u: Id)
    requires w in workspaces
    ensures u in workspaces && Lower(workspaces[u].name) == Lower(workspaces[w].name)
    ensures !HasOlderNamesake(workspaces, u)
    decreases w
  {
    if other :| other in workspaces && other < w && Lower(workspaces[other].name) == Lower(workspaces[w].name) {
      u := SomeoneKeepsTheName(workspaces, other);
    } else {
      u := w;
    }
  }

  /** The index can be built after the renaming exactly when the renaming runs into
      no name. */
  lemma NamesDifferExactly(workspaces: map<Id, Workspace>)
    ensures NamesDiffer(Deduplicated(workspaces)) <==> !RenamingCollides(workspaces)
  {
    var renamed := Deduplicated(workspaces);
    if v, w :| v in workspaces && w in workspaces && Collide(workspaces, v, w) {
      if Lower(NewName(workspaces[v])) == Lower(workspaces[w].name) {
        var u := SomeoneKeepsTheName(workspaces, w);
        assert |Lower(workspaces[v].name)| < |Lower(NewName(workspaces[v]))|;
        assert Lower(renamed[u].name) == Lower(renamed[v].name) && u != v;
      } else {
        assert Lower(renamed[v].name) == Lower(renamed[w].name);
      }
    }
    if v, w :| v in renamed && w in renamed && v != w && Lower(renamed[v].name) == Lower(renamed[w].name) {
      if !HasOlderNamesake(workspaces, v) && !HasOlderNamesake(workspaces, w) {
        UnrenamedDiffer(workspaces, v, w);
      } else {
        assert Collide(workspaces, v, w) || Collide(workspaces, w, v);
      }
    }
  }

  lemma UnrenamedDiffer(workspaces: map<Id, Workspace>, v: Id, w: Id)
    requires v in workspaces && w in workspaces && v != w
    requires !HasOlderNamesake(workspaces, v) && !HasOlderNamesake(workspaces, w)
    ensures Lower(workspaces[v].name) != Lower(workspaces[w].name)
  {
  }

  ghost function Promoted(users: map<Id, User>): map<Id, User> {
    var chosen := Least(ActiveAdmins(users), UserCreated(users));
    map u | u in users :: users[u].(superadmin := chosen == Some(u))
  }

  function Remembered(users: map<Id, User>): map<Id, User> {
    map u | u in users :: users[u].(lastWorkspace := users[u].workspace)
  }

  function WithoutOldColumns(users: map<Id, User>): map<Id, User> {
    map u | u in users :: users[u].(workspace := None, role := None)
  }

  /** The schema before 0011: every user in a workspace, and at most one workspace. */
  ghost predicate OldValid(t: Tables) {
    && t.memberships == map[]
    && (forall v, w :: v in t.workspaces && w in t.workspaces ==> v == w)
    && (forall w :: w in t.workspaces ==> t.workspaces[w].archived.None? && t.workspaces[w].createdBy.None?)
    && (forall u :: u in t.users ==>
          && t.users[u].workspace.Some? && t.users[u].workspace.value in t.workspaces
          && t.users[u].role.Some? && !t.users[u].superadmin && t.users[u].lastWorkspace.None?)
  }

  /** The schema 0011 leaves behind. */
  ghost predicate NewValid(t: Tables) {
    && NamesDiffer(t.workspaces)
    && (forall u :: u in t.users ==> t.users[u].workspace.None? && t.users[u].role.None?)
    && (forall u :: u in t.users && t.users[u].lastWorkspace.Some? ==> t.users[u].lastWorkspace.value in t.workspaces)
    && (forall k :: k in t.memberships ==>
         t.memberships[k].user in t.users && t.memberships[k].workspace in t.workspaces)
    && (forall j, k :: j in t.memberships && k in t.memberships && j != k ==>
          t.memberships[j].user != t.memberships[k].user || t.memberships[j].workspace != t.memberships[k].workspace)
  }

  ghost predicate EveryUserPlaced(users: map<Id, User>) {
    forall u :: u in users ==> users[u].workspace.Some? && users[u].role.Some?
  }

  function MembershipsFor(users: map<Id, User>, minted: map<Id, Id>): map<Id, Membership>
    requires EveryUserPlaced(users) && Minted(users, minted)
  {
    map k | k in minted :: MembershipFor(minted[k], users[minted[k]])
  }

  ghost function Upgraded(t: Tables, minted: map<Id, Id>): Tables
    requires EveryUserPlaced(t.users) && Minted(t.users, minted)
  {
    Tables(
      WithoutOldColumns(Promoted(Remembered(t.users))),
      Deduplicated(t.workspaces),
      MembershipsFor(t.users, minted))
  }

  // ----- the downgrade, statement by statement ------------------------------------------------

  ghost function Placed(t: Tables, user: Id): User
    requires user in t.users
  {
    var first := Earliest(t.memberships, user);
    if first.None? then t.users[user]
    else
      var m := t.memberships[first.value];
      t.users[user].(workspace := Some(m.workspace), role := Some(m.role))
  }

  /** A user without any membership is attached to the oldest workspace. */
  function Attached(u: User, oldest: Option<Id>): User {
    if u.workspace.None? then u.(workspace := oldest, role := Some(u.role.GetOr(Viewer))) else u
  }

  /** Dropping the new columns, and every workspace but the oldest with the users in
      it; a user still without a workspace has been deleted before. */
  ghost function Downgraded(t: Tables): Tables {
    var oldest := Oldest(t.workspaces);
    Tables(
      map u | u in t.users && oldest.Some? && Attached(Placed(t, u), oldest).workspace == oldest ::
        Attached(Placed(t, u), oldest).(superadmin := false, lastWorkspace := None),
      KeptWorkspaces(t.workspaces, oldest),
      map[])
  }

  function KeptWorkspaces(workspaces: map<Id, Workspace>, oldest: Option<Id>): map<Id, Workspace> {
    map w | w in workspaces && oldest == Some(w) :: workspaces[w].(archived := None, createdBy := None)
  }

  // ----- the migration ---------------------------------------------------------------------------

  class Database {
    var users: map<Id, User>
    var workspaces: map<Id, Workspace>
    var memberships: map<Id, Membership>

    ghost function Model(): Tables
      reads this
    {
      Tables(users, workspaces, memberships)
    }

    constructor (t: Tables)
      ensures Model() == t
    {
      users, workspaces, memberships := t.users, t.workspaces, t.memberships;
    }

    /** False is the failed unique index: the transaction is rolled back. */
    method Upgrade(minted: map<Id, Id>) returns (ok: bool)
      requires EveryUserPlaced(users) && Minted(users, minted)
      modifies this
      ensures ok <==> !RenamingCollides(old(workspaces))
      ensures Model() == if ok then Upgraded(old(Model()), minted) else old(Model())
    {
      var renamed := Deduplicated(workspaces);
      NamesDifferExactly(workspaces);
      if !NamesDiffer(renamed) {
        return false;
      }
      memberships := MembershipsFor(users, minted);
      workspaces := renamed;
      Promote();
      users := WithoutOldColumns(users);
      ok := true;
    }

    /** The user columns 0011 adds, and the choice of the superadmin. */
    method Promote()
      modifies this`users
      ensures users == Promoted(Remembered(old(users)))
    {
      users := map u | u in users :: users[u].(lastWorkspace := users[u].workspace);
      var chosen := FindLeast(ActiveAdmins(users), UserCreated(users));
      users := map u | u in users :: users[u].(superadmin := chosen == Some(u));
    }

    /** The columns are added empty, then filled from each user's earliest membership. */
    method PlaceUsers()
      modifies this`users
      ensures users == AllPlaced(old(Model()))
    {
      ghost var before := Model();
      var placed := users;
      var todo := users.Keys;
      while todo != {}
        invariant Model() == before && todo <= users.Keys && placed.Keys == users.Keys
        invariant forall u :: u in before.users ==> placed[u] == if u in todo then users[u] else Placed(before, u)
        decreases todo
      {
        var u :| u in todo;
        var first := FindLeast(MembershipsOf(memberships, u), MembershipCreated(memberships));
        if first.Some? {
          placed := placed[u := users[u].(workspace := Some(memberships[first.value].workspace),
                                         role := Some(memberships[first.value].role))];
        }
        todo := todo - {u};
      }
      users := placed;
    }

    method Downgrade()
      modifies this
      ensures Model() == Downgraded(old(Model()))
    {
      ghost var before := Model();
      PlaceUsers();
      var oldest := FindLeast(workspaces.Keys, WorkspaceCreated(workspaces));
      users := Surviving(DeleteHomeless(AttachAll(users, oldest)), oldest);
      workspaces := KeptWorkspaces(workspaces, oldest);
      memberships := map[];
      DowngradeSteps(before, oldest);
    }
  }

  function AttachAll(users: map<Id, User>, oldest: Option<Id>): map<Id, User> {
    map u | u in users :: Attached(users[u], oldest)
  }

  function DeleteHomeless(users: map<Id, User>): map<Id, User> {
    map u | u in users && users[u].workspace.Some? :: users[u]
  }

  /** The users left once every workspace but the oldest is deleted, without the
      columns 0011 added. */
  function Surviving(users: map<Id, User>, oldest: Option<Id>): map<Id, User> {
    map u | u in users && users[u].workspace == oldest :: users[u].(superadmin := false, lastWorkspace := None)
  }

  ghost function AllPlaced(t: Tables): map<Id, User> {
    map u | u in t.users :: Placed(t, u)
  }

  /** What the statements after the placing leave, taken together. */
  lemma DowngradeSteps(t: Tables, oldest: Option<Id>)
    requires oldest == Oldest(t.workspaces)
    ensures Surviving(DeleteHomeless(AttachAll(AllPlaced(t), oldest)), oldest) == Downgraded(t).users
  {
    var attached := AttachAll(AllPlaced(t), oldest);
    var users := Surviving(DeleteHomeless(attached), oldest);
    assert forall u :: u in t.users ==> attached[u] == Attached(Placed(t, u), oldest);
    assert users.Keys == Downgraded(t).users.Keys;
    assert users == Downgraded(t).users;
  }

  // ----- the upgrade preserves meaning ------------------------------------------------------------

  /** Who may do what where, and since when. */
  type Access = (Id, Id, Role, Status, Stamp)

  ghost function OldAccess(t: Tables): set<Access>
    requires EveryUserPlaced(t.users)
  {
    set u | u in t.users ::
      (u, t.users[u].workspace.value, t.users[u].role.value, t.users[u].status, t.users[u].created)
  }

  ghost function NewAccess(t: Tables): set<Access> {
    set k | k in t.memberships ::
      var m := t.memberships[k];
      (m.user, m.workspace, m.role, m.status, m.created)
  }

  /** The access relation read off the user columns before the upgrade is the one read
      off the memberships after it. */
  lemma UpgradePreservesAccess(t: Tables, minted: map<Id, Id>)
    requires EveryUserPlaced(t.users) && Minted(t.users, minted)
    ensures NewAccess(Upgraded(t, minted)) == OldAccess(t)
    ensures |Upgraded(t, minted).memberships| == |minted|
  {
    var after := Upgraded(t, minted);
    forall a | a in OldAccess(t)
      ensures a in NewAccess(after)
    {
      var u :| u in t.users
        && a == (u, t.users[u].workspace.value, t.users[u].role.value, t.users[u].status, t.users[u].created);
      assert u in minted.Values;
      var k :| k in minted && minted[k] == u;
      assert k in after.memberships;
    }
    assert after.memberships.Keys == minted.Keys;
  }

  /** The new schema's constraints hold after an upgrade. */
  lemma UpgradeIsValid(t: Tables, minted: map<Id, Id>)
    requires OldValid(t) && Minted(t.users, minted)
    ensures NewValid(Upgraded(t, minted))
  {
    SingletonIsNotRenamed(t.workspaces);
    var after := Upgraded(t, minted);
    forall k | k in after.memberships
      ensures after.memberships[k].user in after.users && after.memberships[k].workspace in after.workspaces
    {
      assert minted[k] in minted.Values;
    }
  }

  lemma SingletonIsNotRenamed(workspaces: map<Id, Workspace>)
    requires forall v, w :: v in workspaces && w in workspaces ==> v == w
    ensures Deduplicated(workspaces) == workspaces && NamesDiffer(workspaces)
  {
  }

  /** Two workspaces of one name, and a third with the name the second would get. */
  lemma ARenamingCanCollide(first: Workspace)
    requires first.name == "a"
    ensures var workspaces := map[1 := first, 2 := first.(tag := "0000002b"), 3 := first.(name := "a (0000002b)")];
      RenamingCollides(workspaces) && !NamesDiffer(Deduplicated(workspaces))
  {
    var workspaces := map[1 := first, 2 := first.(tag := "0000002b"), 3 := first.(name := "a (0000002b)")];
    assert HasOlderNamesake(workspaces, 2) by {
      assert 1 in workspaces && Lower(workspaces[1].name) == Lower(workspaces[2].name);
    }
    assert NewName(workspaces[2]) == workspaces[3].name;
    assert Collide(workspaces, 2, 3);
    NamesDifferExactly(workspaces);
  }

  ghost function Superadmins(users: map<Id, User>): set<Id> {
    set u | u in users && users[u].superadmin
  }

  /** Exactly one account is promoted if there was an active admin, the oldest by
      creation and then id, and none otherwise. */
  lemma OneSuperadmin(t: Tables, minted: map<Id, Id>, admin: Id)
    requires EveryUserPlaced(t.users) && Minted(t.users, minted)
    ensures admin in Superadmins(Upgraded(t, minted).users) <==> OldestActiveAdmin(t.users, admin)
    ensures Superadmins(Upgraded(t, minted).users) == {} <==> ActiveAdmins(t.users) == {}
  {
    var users := Remembered(t.users);
    assert ActiveAdmins(users) == ActiveAdmins(t.users) && UserCreated(users) == UserCreated(t.users);
    var chosen := Least(ActiveAdmins(users), UserCreated(users));
    var after := Upgraded(t, minted).users;
    forall u
      ensures u in Superadmins(after) <==> chosen == Some(u)
    {
      if chosen == Some(u) {
        assert u in after;
      }
    }
    if chosen.Some? {
      assert chosen.value in Superadmins(after);
    }
    LeastOfAdmins(t.users, admin);
  }

  ghost predicate OldestActiveAdmin(users: map<Id, User>, admin: Id) {
    && admin in users && users[admin].role == Some(Admin) && users[admin].status == Active
    && forall u :: u in users && users[u].role == Some(Admin) && users[u].status == Active ==>
         users[admin].created < users[u].created || (users[admin].created == users[u].created && admin <= u)
  }

  lemma LeastOfAdmins(users: map<Id, User>, admin: Id)
    ensures Least(ActiveAdmins(users), UserCreated(users)) == Some(admin) <==> OldestActiveAdmin(users, admin)
  {
    var admins, created := ActiveAdmins(users), UserCreated(users);
    if OldestActiveAdmin(users, admin) {
      assert IsLeast(admins, created, admin);
      LeastIsUnique(admins, created, admin);
    }
    if Least(admins, created) == Some(admin) {
      forall u | u in users && users[u].role == Some(Admin) && users[u].status == Active
        ensures users[admin].created < users[u].created || (users[admin].created == users[u].created && admin <= u)
      {
        assert u in admins;
      }
    }
  }

  /** One account after the upgrade, column by column. */
  lemma AccountUpgraded(t: Tables, minted: map<Id, Id>, user: Id)
    requires EveryUserPlaced(t.users) && Minted(t.users, minted) && user in t.users
    ensures user in Upgraded(t, minted).users
    ensures var was, now := t.users[user], Upgraded(t, minted).users[user];
      && now.email == was.email && now.status == was.status
      && now.created == was.created && now.updated == was.updated
      && now.workspace.None? && now.role.None?
      && now.lastWorkspace == was.workspace
      && (now.superadmin <==> OldestActiveAdmin(t.users, user))
  {
    OneSuperadmin(t, minted, user);
  }

  /** Each minted membership, column by column: where its user was, as what and since when. */
  lemma MembershipUpgraded(t: Tables, minted: map<Id, Id>, k: Id)
    requires EveryUserPlaced(t.users) && Minted(t.users, minted)
    ensures k in Upgraded(t, minted).memberships <==> k in minted
    ensures k in minted ==>
      var was, row := t.users[minted[k]], Upgraded(t, minted).memberships[k];
      && row.user == minted[k] && Some(row.workspace) == was.workspace && Some(row.role) == was.role
      && row.status == was.status && row.created == was.created && row.updated == was.updated
  {
    if k in minted {
      assert minted[k] in minted.Values;
    }
  }

  /** Each workspace after the upgrade: only a name an older one has is changed, by the tag
      in parentheses. */
  lemma WorkspaceUpgraded(t: Tables, minted: map<Id, Id>, w: Id)
    requires EveryUserPlaced(t.users) && Minted(t.users, minted)
    ensures w in Upgraded(t, minted).workspaces <==> w in t.workspaces
    ensures w in t.workspaces ==>
      var was, now := t.workspaces[w], Upgraded(t, minted).workspaces[w];
      && now.tag == was.tag && now.created == was.created
      && now.archived == was.archived && now.createdBy == was.createdBy
      && now.name ==
         if exists v :: v in t.workspaces && v < w && Lower(t.workspaces[v].name) == Lower(was.name)
         then was.name + " (" + was.tag + ")"
         else was.name
  {
    if w in t.workspaces {
      var was := t.workspaces[w];
      assert was.name + (" (" + was.tag + ")") == was.name + " (" + was.tag + ")";
    }
  }

  // ----- what the downgrade keeps -------------------------------------------------------------------

  lemma EarliestOfOne(memberships: map<Id, Membership>, user: Id, only: Membership, k: Id)
    requires k in memberships && memberships[k].user == user
    requires forall j :: j in memberships && memberships[j].user == user ==> memberships[j] == only
    ensures var first := Earliest(memberships, user);
      first.Some? && memberships[first.value] == only
  {
  }

  lemma OnlyMembership(t: Tables, minted: map<Id, Id>, user: Id)
    requires EveryUserPlaced(t.users) && Minted(t.users, minted) && user in t.users
    ensures var after := Upgraded(t, minted);
      var first := Earliest(after.memberships, user);
      first.Some? && after.memberships[first.value] == MembershipFor(user, t.users[user])
  {
    var memberships := Upgraded(t, minted).memberships;
    assert user in minted.Values;
    var k :| k in minted && minted[k] == user;
    assert forall j :: j in memberships ==> memberships[j] == MembershipFor(minted[j], t.users[minted[j]]);
    EarliestOfOne(memberships, user, MembershipFor(user, t.users[user]), k);
  }

  lemma SingletonIsOldest(workspaces: map<Id, Workspace>, w: Id)
    requires w in workspaces && forall v :: v in workspaces ==> v == w
    ensures Oldest(workspaces) == Some(w)
  {
  }

  lemma UserRestored(t: Tables, minted: map<Id, Id>, user: Id)
    requires OldValid(t) && Minted(t.users, minted) && user in t.users
    ensures var after := Upgraded(t, minted);
      Attached(Placed(after, user), Oldest(t.workspaces)).(superadmin := false, lastWorkspace := None) == t.users[user]
    ensures t.users[user].workspace == Oldest(t.workspaces)
  {
    OnlyMembership(t, minted, user);
    SingletonIsOldest(t.workspaces, t.users[user].workspace.value);
  }

  lemma UserComesBack(t: Tables, minted: map<Id, Id>, user: Id)
    requires OldValid(t) && Minted(t.users, minted) && user in t.users
    ensures var back := Downgraded(Upgraded(t, minted)).users;
      user in back && back[user] == t.users[user]
  {
    UserRestored(t, minted, user);
    SingletonIsNotRenamed(t.workspaces);
  }

  lemma UsersRestored(t: Tables, minted: map<Id, Id>)
    requires OldValid(t) && Minted(t.users, minted)
    ensures Downgraded(Upgraded(t, minted)).users == t.users
  {
    var back := Downgraded(Upgraded(t, minted)).users;
    forall u | u in t.users
      ensures u in back && back[u] == t.users[u]
    {
      UserComesBack(t, minted, u);
    }
    assert back.Keys <= t.users.Keys;
  }

  lemma SingletonIsKept(workspaces: map<Id, Workspace>)
    requires forall v, w :: v in workspaces && w in workspaces ==> v == w
    requires forall w :: w in workspaces ==> workspaces[w].archived.None? && workspaces[w].createdBy.None?
    ensures KeptWorkspaces(workspaces, Oldest(workspaces)) == workspaces
  {
    forall w | w in workspaces
      ensures Oldest(workspaces) == Some(w)
    {
      SingletonIsOldest(workspaces, w);
    }
  }

  lemma WorkspacesRestored(t: Tables, minted: map<Id, Id>)
    requires OldValid(t) && Minted(t.users, minted)
    ensures Downgraded(Upgraded(t, minted)).workspaces == t.workspaces
  {
    SingletonIsNotRenamed(t.workspaces);
    SingletonIsKept(t.workspaces);
  }

  /** Downgrading a fresh upgrade restores every table exactly. */
  lemma DowngradeUndoesUpgrade(t: Tables, minted: map<Id, Id>)
    requires OldValid(t) && Minted(t.users, minted)
    ensures Downgraded(Upgraded(t, minted)) == t
  {
    UsersRestored(t, minted);
    WorkspacesRestored(t, minted);
  }

  /** Whose row is left: the earliest membership is in the oldest workspace, or there
      is none at all. */
  ghost predicate Survives(t: Tables, user: Id)
    requires user in t.users
  {
    var oldest, first := Oldest(t.workspaces), Earliest(t.memberships, user);
    oldest.Some? && (first.None? || t.memberships[first.value].workspace == oldest.value)
  }

  /** What is left of one account. */
  ghost function LeftOver(t: Tables, user: Id): User
    requires user in t.users
  {
    var first := Earliest(t.memberships, user);
    t.users[user].(
      workspace := Oldest(t.workspaces),
      role := Some(if first.None? then Viewer else t.memberships[first.value].role),
      superadmin := false,
      lastWorkspace := None)
  }

  lemma AccountLeft(t: Tables, user: Id)
    requires user in t.users && t.users[user].workspace.None? && t.users[user].role.None?
    ensures user in Downgraded(t).users <==> Survives(t, user)
    ensures user in Downgraded(t).users ==> Downgraded(t).users[user] == LeftOver(t, user)
  {
    var placed := Placed(t, user);
    assert Earliest(t.memberships, user).None? ==> placed == t.users[user];
  }

  lemma DowngradeIsOld(t: Tables)
    requires NewValid(t)
    ensures OldValid(Downgraded(t))
  {
    var back, oldest := Downgraded(t), Oldest(t.workspaces);
    assert forall w :: w in back.workspaces ==> oldest == Some(w);
    forall u | u in back.users
      ensures back.users[u] == LeftOver(t, u) && oldest.Some?
    {
      AccountLeft(t, u);
    }
  }

  /** From any multi-workspace state: at most the oldest workspace is left, with exactly
      the users whose earliest membership is in it or who had none, each with the role
      of that membership or `viewer`, and the rest of the account as it was. */
  lemma DowngradeExactly(t: Tables)
    requires NewValid(t)
    ensures OldValid(Downgraded(t))
    ensures forall w :: w in Downgraded(t).workspaces <==> Oldest(t.workspaces) == Some(w)
    ensures forall w :: w in Downgraded(t).workspaces ==>
      Downgraded(t).workspaces[w] == t.workspaces[w].(archived := None, createdBy := None)
    ensures forall u :: u in Downgraded(t).users <==> u in t.users && Survives(t, u)
    ensures forall u :: u in Downgraded(t).users ==> Downgraded(t).users[u] == LeftOver(t, u)
  {
    DowngradeIsOld(t);
    forall u | u in t.users
      ensures u in Downgraded(t).users <==> Survives(t, u)
      ensures u in Downgraded(t).users ==> Downgraded(t).users[u] == LeftOver(t, u)
    {
      AccountLeft(t, u);
    }
  }

  ghost predicate LetInBefore(memberships: map<Id, Membership>, j: Id, k: Id)
    requires k in memberships
  {
    && j in memberships && memberships[j].user == memberships[k].user
    && memberships[j].workspace != memberships[k].workspace
    && (memberships[j].created < memberships[k].created || (memberships[j].created == memberships[k].created && j <= k))
  }

  lemma EarliestIsElsewhere(memberships: map<Id, Membership>, k: Id)
    requires k in memberships
    requires forall j :: j in memberships && j != k && memberships[j].user == memberships[k].user ==>
      memberships[j].workspace != memberships[k].workspace
    ensures var first := Earliest(memberships, memberships[k].user);
      && first.Some?
      && (memberships[first.value].workspace != memberships[k].workspace <==>
           exists j :: LetInBefore(memberships, j, k))
  {
    var own, created := MembershipsOf(memberships, memberships[k].user), MembershipCreated(memberships);
    var first := Earliest(memberships, memberships[k].user);
    assert k in own;
    assert IsLeast(own, created, first.value);
    if first.value == k {
      forall j
        ensures !LetInBefore(memberships, j, k)
      {
        if j in own {
          assert Before(created, k, j);
        }
      }
    } else {
      assert Before(created, first.value, k);
      assert LetInBefore(memberships, first.value, k);
    }
  }

  /** A member of the oldest workspace is deleted exactly when some other workspace let
      them in first: that account does not go back to the workspace it joined first, as
      the migration's own description has it, it goes away with it. */
  lemma MemberIsDeletedExactlyWhen(t: Tables, user: Id, k: Id)
    requires NewValid(t) && k in t.memberships && t.memberships[k].user == user
    requires Oldest(t.workspaces) == Some(t.memberships[k].workspace)
    ensures user !in Downgraded(t).users <==> exists j :: LetInBefore(t.memberships, j, k)
  {
    AccountLeft(t, user);
    EarliestIsElsewhere(t.memberships, k);
  }

  /** Two workspaces, and one person who joined the newer of them first. */
  function JoinedTheNewerFirst(): Tables {
    var access := Membership(2, 7, Operator, Active, 30, 30);
    Tables(
      map[7 := User("ann@example.com", Active, 20, 20, None, None, false, None)],
      map[1 := Workspace("first", "00000001", 10, None, None), 2 := Workspace("second", "00000002", 20, None, None)],
      map[5 := access, 6 := access.(workspace := 1, created := 40)])
  }

  lemma ThatStateIsValid()
    ensures NewValid(JoinedTheNewerFirst())
  {
    assert Lower("first")[0] == 'f' && Lower("second")[0] == 's';
  }

  lemma TheFirstIsOldest()
    ensures Oldest(JoinedTheNewerFirst().workspaces) == Some(1)
  {
    var workspaces := JoinedTheNewerFirst().workspaces;
    assert WorkspaceCreated(workspaces)[1] == 10 && WorkspaceCreated(workspaces)[2] == 20;
    LeastIsUnique(workspaces.Keys, WorkspaceCreated(workspaces), 1);
  }

  lemma TheOtherLetInBefore()
    ensures LetInBefore(JoinedTheNewerFirst().memberships, 5, 6)
  {
  }

  /** The downgrade deletes that account, a member of the one workspace it keeps. */
  lemma AMemberOfTheOldestIsDeleted()
    ensures var t := JoinedTheNewerFirst();
      NewValid(t) && Oldest(t.workspaces) == Some(t.memberships[6].workspace) && 7 !in Downgraded(t).users
  {
    ThatStateIsValid();
    TheFirstIsOldest();
    TheOtherLetInBefore();
    MemberIsDeletedExactlyWhen(JoinedTheNewerFirst(), 7, 6);
  }
}
