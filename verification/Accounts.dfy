/** Users, sessions and the audit log (src/users.c, src/auth.c) as tables with their declared keys:
    what one operation does, and what every run of operations keeps. */
module Accounts {
  import opened Sha256
  import opened PasswordRecord
  import opened Wrappers

  datatype Role = Root | Admin

  type Sid = string

  const SID_LEN: nat := 64
  const SESSION_EXPIRE: int := 3600

  datatype User = User(name: string, hash: seq<Byte>, role: Role, enabled: bool,
                       createdBy: Option<int>, changedAt: int)

  datatype Session = Session(user: int, expires: int)

  datatype AuditRow = AuditRow(operator: Option<int>, action: string, target: Option<int>)

  /** The three tables; ids come from AUTOINCREMENT and are never reused. `issued` is history: every
      session token handed out so far. */
  datatype Db = Db(users: map<int, User>, nextId: int, sessions: map<Sid, Session>,
                   audit: seq<AuditRow>, issued: set<Sid>)

  datatype Outcome =
    | Done
    | BadName | WeakPassword | Rejected | OnSelf | NotFound | TargetIsRoot | LastRoot | Blocked
    | WrongPassword | SamePassword

  datatype Op =
    | Create(actor: int, name: string, password: seq<Byte>, salt: seq<Byte>, now: int)
    | Delete(actor: int, target: int)
    | Toggle(actor: int, target: int, enabled: bool)
    | ResetPassword(actor: int, target: int, password: seq<Byte>, salt: seq<Byte>, now: int)
    | ChangePassword(actor: int, oldPassword: seq<Byte>, password: seq<Byte>, salt: seq<Byte>,
                     keep: Option<Sid>, now: int)
    | OpenSession(user: int, sid: Sid, now: int)
    | CloseSession(sid: Sid)
    | Cleanup(now: int)

  // ---------- password policy ----------

  predicate IsUpper(b: Byte) { 0x41 <= b <= 0x5a }
  predicate IsLower(b: Byte) { 0x61 <= b <= 0x7a }
  predicate IsVisible(b: Byte) { 0x21 <= b <= 0x7e }
  predicate IsPunct(b: Byte) { IsVisible(b) && !IsUpper(b) && !IsLower(b) && !IsDigit(b) }

  /** 10 to 64 visible ASCII characters with one of each class. */
  predicate PolicyOk(p: seq<Byte>) {
    10 <= |p| <= 64 && (forall i :: 0 <= i < |p| ==> IsVisible(p[i])) &&
    (exists i :: 0 <= i < |p| && IsUpper(p[i])) && (exists i :: 0 <= i < |p| && IsLower(p[i])) &&
    (exists i :: 0 <= i < |p| && IsDigit(p[i])) && (exists i :: 0 <= i < |p| && IsPunct(p[i]))
  }

  /** The classes by their bounds in ASCII, and the length by its own. */
  lemma PolicyBounds(p: seq<Byte>)
    ensures IsUpper(0x41) && IsUpper(0x5a) && !IsUpper(0x40) && !IsUpper(0x5b)
    ensures IsLower(0x61) && IsLower(0x7a) && !IsLower(0x60) && !IsLower(0x7b)
    ensures IsDigit(0x30) && IsDigit(0x39) && !IsDigit(0x2f) && !IsDigit(0x3a)
    ensures IsPunct(0x21) && IsPunct(0x7e) && !IsVisible(0x20) && !IsVisible(0x7f) && !IsPunct(0x41) && !IsPunct(0x30)
    ensures |p| < 10 || |p| > 64 || 0x20 in p ==> !PolicyOk(p)
  {
    if 0x20 in p {
      var i :| 0 <= i < |p| && p[i] == 0x20;
      assert !IsVisible(p[i]);
    }
  }

  /** `auth_password_policy_ok` */
  method CheckPolicy(p: seq<Byte>) returns (ok: bool)
    ensures ok <==> PolicyOk(p)
  {
    if |p| < 10 || |p| > 64 {
      return false;
    }
    hide IsUpper, IsLower, IsDigit, IsVisible;
    var upper, lower, digit, punct := false, false, false, false;
    for i := 0 to |p|
      invariant forall j :: 0 <= j < i ==> IsVisible(p[j])
      invariant upper <==> exists j :: 0 <= j < i && IsUpper(p[j])
      invariant lower <==> exists j :: 0 <= j < i && IsLower(p[j])
      invariant digit <==> exists j :: 0 <= j < i && IsDigit(p[j])
      invariant punct <==> exists j :: 0 <= j < i && IsPunct(p[j])
    {
      var c := p[i];
      if !IsVisible(c) {
        return false;
      }
      OneClass(c);
      if IsUpper(c) {
        upper := true;
      } else if IsLower(c) {
        lower := true;
      } else if IsDigit(c) {
        digit := true;
      } else {
        punct := true;
      }
    }
    ok := upper && lower && digit && punct;
  }

  lemma OneClass(c: Byte)
    ensures !(IsUpper(c) && IsLower(c)) && !(IsUpper(c) && IsDigit(c)) && !(IsLower(c) && IsDigit(c))
  {
  }

  // ---------- table operations ----------

  /** The audit insert fails silently when either foreign key has no row. */
  function Audited(db: Db, actor: int, action: string, target: int): Db {
    if actor in db.users && target in db.users
    then db.(audit := db.audit + [AuditRow(Some(actor), action, Some(target))]) else db
  }

  predicate NameTaken(db: Db, name: string) {
    exists id :: id in db.users && db.users[id].name == name
  }

  function NewHash(password: seq<Byte>, salt: seq<Byte>): seq<Byte>
    requires |salt| == SALT_LEN
  {
    match Hashed(password, salt, 256)
    case Some(record) => record
    case None => []
  }

  /** `users_create`: the insert needs a fresh name and an existing creator. */
  function DoCreate(db: Db, op: Op): (Db, Outcome)
    requires op.Create? && |op.salt| == SALT_LEN
  {
    if !(3 <= |op.name| <= 32) then (db, BadName)
    else if !PolicyOk(op.password) then (db, WeakPassword)
    else if NameTaken(db, op.name) || op.actor !in db.users then (db, Rejected)
    else
      var u := User(op.name, NewHash(op.password, op.salt), Admin, true, Some(op.actor), op.now);
      var db' := db.(users := db.users[db.nextId := u], nextId := db.nextId + 1);
      (Audited(db', op.actor, "create_user", db.nextId), Done)
  }

  /** The no-action key of `created_by` forbids deleting a user who created another. */
  predicate HasCreated(db: Db, id: int) {
    exists other :: other in db.users && other != id && db.users[other].createdBy == Some(id)
  }

  function Without(o: Option<int>, id: int): Option<int> { if o == Some(id) then None else o }

  function Forget(rows: seq<AuditRow>, id: int): seq<AuditRow> {
    seq(|rows|, i requires 0 <= i < |rows| =>
      AuditRow(Without(rows[i].operator, id), rows[i].action, Without(rows[i].target, id)))
  }

  /** `users_delete`: sessions cascade, audit references become NULL. */
  function DoDelete(db: Db, op: Op): (Db, Outcome)
    requires op.Delete?
  {
    if op.target == op.actor then (db, OnSelf)
    else if op.target !in db.users then (db, NotFound)
    else if db.users[op.target].role == Root then (db, TargetIsRoot)
    else
      var db1 := Audited(db, op.actor, "delete_user", op.target);
      if HasCreated(db1, op.target) then (db1, Blocked)
      else
        (db1.(users := db1.users - {op.target},
              sessions := map s | s in db1.sessions && db1.sessions[s].user != op.target :: db1.sessions[s],
              audit := Forget(db1.audit, op.target)), Done)
  }

  predicate OtherEnabledRoot(db: Db, target: int) {
    exists id :: id in db.users && id != target && db.users[id].role == Root && db.users[id].enabled
  }

  /** `users_toggle` */
  function DoToggle(db: Db, op: Op): (Db, Outcome)
    requires op.Toggle?
  {
    if op.target == op.actor then (db, OnSelf)
    else if op.target !in db.users then (db, NotFound)
    else if !op.enabled && db.users[op.target].role == Root && !OtherEnabledRoot(db, op.target) then (db, LastRoot)
    else
      var db1 := db.(users := db.users[op.target := db.users[op.target].(enabled := op.enabled)]);
      (Audited(db1, op.actor, if op.enabled then "enable_user" else "disable_user", op.target), Done)
  }

  /** `auth_kick_user_sessions`, which refuses ids that no row can have. */
  function Kicked(sessions: map<Sid, Session>, user: int, keep: Option<Sid>): map<Sid, Session> {
    if user <= 0 then sessions
    else map s | s in sessions && (sessions[s].user != user || keep == Some(s)) :: sessions[s]
  }

  function WithPassword(db: Db, id: int, password: seq<Byte>, salt: seq<Byte>, keep: Option<Sid>, now: int): Db
    requires id in db.users && PolicyOk(password) && |salt| == SALT_LEN
  {
    db.(users := db.users[id := db.users[id].(hash := NewHash(password, salt), changedAt := now)],
        sessions := Kicked(db.sessions, id, keep))
  }

  /** `users_passwd` */
  function DoReset(db: Db, op: Op): (Db, Outcome)
    requires op.ResetPassword? && |op.salt| == SALT_LEN
  {
    if !PolicyOk(op.password) then (db, WeakPassword)
    else if op.target !in db.users then (db, NotFound)
    else
      var db1 := WithPassword(db, op.target, op.password, op.salt, None, op.now);
      (Audited(db1, op.actor, "reset_password", op.target), Done)
  }

  /** `users_change_password`; the current password is checked through the login query, which only
      finds enabled users. */
  function DoChange(db: Db, op: Op): (Db, Outcome)
    requires op.ChangePassword? && |op.salt| == SALT_LEN
  {
    if op.actor <= 0 then (db, Rejected)
    else if op.actor !in db.users || db.users[op.actor].name == "" then (db, NotFound)
    else
      var u := db.users[op.actor];
      if !u.enabled || !Verifies(op.oldPassword, u.hash) then (db, WrongPassword)
      else if !PolicyOk(op.password) then (db, WeakPassword)
      else if Verifies(op.password, u.hash) then (db, SamePassword)
      else
        var db1 := WithPassword(db, op.actor, op.password, op.salt, op.keep, op.now);
        (Audited(db1, op.actor, "change_password", op.actor), Done)
  }

  /** `auth_session_create`; the token is the caller's fresh random value. */
  function DoOpen(db: Db, op: Op): (Db, Outcome)
    requires op.OpenSession?
  {
    if op.user !in db.users || op.sid in db.sessions then (db, Rejected)
    else
      (db.(sessions := db.sessions[op.sid := Session(op.user, op.now + SESSION_EXPIRE)],
           issued := db.issued + {op.sid}), Done)
  }

  /** Salts have the fixed length, and tokens are never repeated. */
  predicate Sound(db: Db, op: Op) {
    (op.Create? || op.ResetPassword? || op.ChangePassword? ==> |op.salt| == SALT_LEN) &&
    (op.OpenSession? ==> op.sid !in db.issued && |op.sid| == SID_LEN)
  }

  function Apply(db: Db, op: Op): (Db, Outcome)
    requires Sound(db, op)
  {
    match op
    case Create(_, _, _, _, _) => DoCreate(db, op)
    case Delete(_, _) => DoDelete(db, op)
    case Toggle(_, _, _) => DoToggle(db, op)
    case ResetPassword(_, _, _, _, _) => DoReset(db, op)
    case ChangePassword(_, _, _, _, _, _) => DoChange(db, op)
    case OpenSession(_, _, _) => DoOpen(db, op)
    case CloseSession(sid) => (db.(sessions := db.sessions - {sid}), Done)
    case Cleanup(now) =>
      (db.(sessions := map s | s in db.sessions && db.sessions[s].expires >= now :: db.sessions[s]), Done)
  }

  /** `auth_session_verify`: whose session it is, if it still counts. */
  function SessionUser(db: Db, sid: Sid, now: int): Option<int> {
    if |sid| == SID_LEN && sid in db.sessions && db.sessions[sid].expires > now &&
       db.sessions[sid].user in db.users && db.users[db.sessions[sid].user].enabled
    then Some(db.sessions[sid].user) else None
  }

  // ---------- invariants ----------

  ghost predicate IsRoot(users: map<int, User>, id: int) { id in users && users[id].role == Root }

  ghost predicate HasEnabledRoot(users: map<int, User>) {
    exists id :: IsRoot(users, id) && users[id].enabled
  }

  ghost predicate UniqueNames(users: map<int, User>) {
    forall a, b :: a in users && b in users && users[a].name == users[b].name ==> a == b
  }

  ghost predicate SessionsOk(db: Db) {
    forall s :: s in db.sessions ==> db.sessions[s].user in db.users && s in db.issued
  }

  ghost predicate RowsOk(rows: seq<AuditRow>, users: map<int, User>) {
    forall i :: 0 <= i < |rows| ==>
      (rows[i].operator.Some? ==> rows[i].operator.value in users) &&
      (rows[i].target.Some? ==> rows[i].target.value in users)
  }

  ghost predicate CreatorOk(users: map<int, User>, id: int)
    requires id in users
  {
    users[id].createdBy.Some? ==> IsRoot(users, users[id].createdBy.value)
  }

  ghost predicate CreatorsAreRoots(users: map<int, User>) {
    forall id :: id in users ==> CreatorOk(users, id)
  }

  /** AUTOINCREMENT counts from 1. */
  ghost predicate IdsBelow(users: map<int, User>, next: int) {
    forall id :: id in users ==> 0 < id < next
  }

  ghost predicate UsersOk(users: map<int, User>, next: int) {
    HasEnabledRoot(users) && UniqueNames(users) && CreatorsAreRoots(users) && IdsBelow(users, next)
  }

  ghost predicate Consistent(db: Db) {
    UsersOk(db.users, db.nextId) && SessionsOk(db) && RowsOk(db.audit, db.users)
  }

  /** The request gate lets only root sessions reach the creating operation. */
  ghost predicate ByRoot(db: Db, op: Op) { op.Create? ==> IsRoot(db.users, op.actor) }

  lemma AuditKeeps(db: Db, actor: int, action: string, target: int)
    requires Consistent(db)
    ensures Consistent(Audited(db, actor, action, target))
    ensures Audited(db, actor, action, target) == db.(audit := Audited(db, actor, action, target).audit)
  {
    hide UsersOk;
  }

  /** Roots that are not touched stay roots, enabled or not as they were. */
  lemma RootStays(users: map<int, User>, users': map<int, User>)
    requires HasEnabledRoot(users)
    requires forall r :: IsRoot(users, r) && users[r].enabled ==> r in users' && users'[r] == users[r]
    ensures HasEnabledRoot(users')
  {
    var r :| IsRoot(users, r) && users[r].enabled;
    assert IsRoot(users', r) && users'[r].enabled;
  }

  lemma CreatorsStay(users: map<int, User>, users': map<int, User>)
    requires CreatorsAreRoots(users)
    requires forall r :: IsRoot(users, r) ==> IsRoot(users', r)
    requires forall id :: id in users' ==>
      (id in users && users'[id].createdBy == users[id].createdBy) || CreatorOk(users', id)
    ensures CreatorsAreRoots(users')
  {
    forall id | id in users' ensures CreatorOk(users', id) {
      if id in users {
        assert CreatorOk(users, id);
      }
    }
  }

  /** A new row under the next id, made by a root, with an unused name. */
  lemma InsertKeepsUsers(users: map<int, User>, next: int, u: User)
    requires UsersOk(users, next) && (forall id :: id in users ==> users[id].name != u.name)
    requires u.createdBy.Some? && IsRoot(users, u.createdBy.value)
    ensures UsersOk(users[next := u], next + 1)
  {
    RootStays(users, users[next := u]);
    CreatorsStay(users, users[next := u]);
  }

  lemma CreateKeeps(db: Db, op: Op)
    requires Consistent(db) && op.Create? && |op.salt| == SALT_LEN && IsRoot(db.users, op.actor)
    ensures Consistent(DoCreate(db, op).0)
  {
    hide NewHash, PolicyOk, UsersOk;
    if DoCreate(db, op).1 == Done {
      var u := User(op.name, NewHash(op.password, op.salt), Admin, true, Some(op.actor), op.now);
      InsertKeepsUsers(db.users, db.nextId, u);
      AuditKeeps(db.(users := db.users[db.nextId := u], nextId := db.nextId + 1), op.actor, "create_user", db.nextId);
    }
  }

  /** In a consistent database an admin created nobody, so nothing blocks deleting it. */
  lemma AdminsAreNotCreators(db: Db, id: int)
    requires CreatorsAreRoots(db.users) && id in db.users && db.users[id].role == Admin
    ensures !HasCreated(db, id)
  {
    assert forall other :: other in db.users ==> CreatorOk(db.users, other);
  }

  lemma RemovalKeepsUsers(users: map<int, User>, next: int, id: int)
    requires UsersOk(users, next) && id in users && users[id].role == Admin
    ensures UsersOk(users - {id}, next)
  {
    RootStays(users, users - {id});
    CreatorsStay(users, users - {id});
  }

  lemma RowsKept(rows: seq<AuditRow>, users: map<int, User>, id: int)
    requires RowsOk(rows, users)
    ensures RowsOk(Forget(rows, id), users - {id})
  {
    forall i | 0 <= i < |rows|
      ensures var row := Forget(rows, id)[i];
        (row.operator.Some? ==> row.operator.value in users - {id}) && (row.target.Some? ==> row.target.value in users - {id})
    {
      assert rows[i].operator.Some? ==> rows[i].operator.value in users;
    }
  }

  lemma DeleteKeeps(db: Db, op: Op)
    requires Consistent(db) && op.Delete?
    ensures Consistent(DoDelete(db, op).0) && DoDelete(db, op).1 != Blocked
  {
    if op.target != op.actor && op.target in db.users && db.users[op.target].role != Root {
      AuditKeeps(db, op.actor, "delete_user", op.target);
      var db1 := Audited(db, op.actor, "delete_user", op.target);
      AdminsAreNotCreators(db1, op.target);
      RemovalKeepsUsers(db1.users, db1.nextId, op.target);
      RowsKept(db1.audit, db1.users, op.target);
      hide UsersOk, RowsOk, Audited, HasCreated;
      assert DoDelete(db, op).1 == Done;
    }
  }

  /** Replacing one user's row, keeping name, role and creator. */
  lemma UpdateKeepsUsers(users: map<int, User>, next: int, id: int, u: User)
    requires UsersOk(users, next) && id in users
    requires u.name == users[id].name && u.role == users[id].role && u.createdBy == users[id].createdBy
    requires u.enabled || users[id].role != Root || !users[id].enabled ||
             exists r :: IsRoot(users, r) && r != id && users[r].enabled
    ensures UsersOk(users[id := u], next)
  {
    CreatorsStay(users, users[id := u]);
    RootAfterUpdate(users, id, u);
  }

  lemma RootAfterUpdate(users: map<int, User>, id: int, u: User)
    requires HasEnabledRoot(users) && id in users && u.role == users[id].role
    requires u.enabled || users[id].role != Root || !users[id].enabled ||
             exists r :: IsRoot(users, r) && r != id && users[r].enabled
    ensures HasEnabledRoot(users[id := u])
  {
    var r :| IsRoot(users, r) && users[r].enabled;
    if r == id && !u.enabled {
      r :| IsRoot(users, r) && r != id && users[r].enabled;
    }
    assert IsRoot(users[id := u], r) && users[id := u][r].enabled;
  }

  lemma UpdateKeeps(db: Db, id: int, u: User)
    requires Consistent(db) && id in db.users
    requires u.name == db.users[id].name && u.role == db.users[id].role && u.createdBy == db.users[id].createdBy
    requires u.enabled || db.users[id].role != Root || !db.users[id].enabled || OtherEnabledRoot(db, id)
    ensures Consistent(db.(users := db.users[id := u]))
  {
    if OtherEnabledRoot(db, id) {
      var r :| r in db.users && r != id && db.users[r].role == Root && db.users[r].enabled;
      assert IsRoot(db.users, r);
    }
    UpdateKeepsUsers(db.users, db.nextId, id, u);
    hide UsersOk;
  }

  /** Dropping sessions never hurts. */
  lemma FewerSessions(db: Db, kept: map<Sid, Session>)
    requires Consistent(db) && forall s :: s in kept ==> s in db.sessions && kept[s] == db.sessions[s]
    ensures Consistent(db.(sessions := kept))
  {
    hide UsersOk, RowsOk;
  }

  lemma ToggleKeeps(db: Db, op: Op)
    requires Consistent(db) && op.Toggle?
    ensures Consistent(DoToggle(db, op).0)
  {
    if DoToggle(db, op).1 == Done {
      UpdateKeeps(db, op.target, db.users[op.target].(enabled := op.enabled));
      var db1 := db.(users := db.users[op.target := db.users[op.target].(enabled := op.enabled)]);
      AuditKeeps(db1, op.actor, if op.enabled then "enable_user" else "disable_user", op.target);
    }
  }

  lemma PasswordKeeps(db: Db, id: int, password: seq<Byte>, salt: seq<Byte>, keep: Option<Sid>, now: int)
    requires Consistent(db) && id in db.users && PolicyOk(password) && |salt| == SALT_LEN
    ensures Consistent(WithPassword(db, id, password, salt, keep, now))
  {
    hide NewHash, PolicyOk, Consistent;
    var u := db.users[id].(hash := NewHash(password, salt), changedAt := now);
    UpdateKeeps(db, id, u);
    FewerSessions(db.(users := db.users[id := u]), Kicked(db.sessions, id, keep));
  }

  lemma ResetKeeps(db: Db, op: Op)
    requires Consistent(db) && op.ResetPassword? && |op.salt| == SALT_LEN
    ensures Consistent(DoReset(db, op).0)
  {
    hide NewHash, PolicyOk, Consistent, WithPassword;
    if PolicyOk(op.password) && op.target in db.users {
      PasswordKeeps(db, op.target, op.password, op.salt, None, op.now);
      AuditKeeps(WithPassword(db, op.target, op.password, op.salt, None, op.now), op.actor, "reset_password", op.target);
    }
  }

  lemma ChangeKeeps(db: Db, op: Op)
    requires Consistent(db) && op.ChangePassword? && |op.salt| == SALT_LEN
    ensures Consistent(DoChange(db, op).0)
  {
    hide NewHash, PolicyOk, Consistent, WithPassword, Verifies;
    if PolicyOk(op.password) && op.actor in db.users {
      PasswordKeeps(db, op.actor, op.password, op.salt, op.keep, op.now);
      AuditKeeps(WithPassword(db, op.actor, op.password, op.salt, op.keep, op.now), op.actor, "change_password", op.actor);
    }
  }

  lemma OpenKeeps(db: Db, op: Op)
    requires Consistent(db) && op.OpenSession?
    ensures Consistent(DoOpen(db, op).0)
  {
    hide UsersOk, RowsOk;
  }

  lemma ApplyKeeps(db: Db, op: Op)
    requires Consistent(db) && Sound(db, op) && ByRoot(db, op)
    ensures Consistent(Apply(db, op).0)
    ensures op.Delete? ==> Apply(db, op).1 != Blocked
  {
    hide Consistent, DoCreate, DoDelete, DoToggle, DoReset, DoChange, DoOpen;
    match op
    case Create(_, _, _, _, _) => CreateKeeps(db, op);
    case Delete(_, _) => DeleteKeeps(db, op);
    case Toggle(_, _, _) => ToggleKeeps(db, op);
    case ResetPassword(_, _, _, _, _) => ResetKeeps(db, op);
    case ChangePassword(_, _, _, _, _, _) => ChangeKeeps(db, op);
    case OpenSession(_, _, _) => OpenKeeps(db, op);
    case CloseSession(sid) => FewerSessions(db, db.sessions - {sid});
    case Cleanup(now) =>
      FewerSessions(db, map s | s in db.sessions && db.sessions[s].expires >= now :: db.sessions[s]);
  }

  // ---------- runs ----------

  ghost predicate IsRun(db: Db, ops: seq<Op>)
    decreases |ops|
  {
    ops == [] || (Sound(db, ops[0]) && IsRun(Apply(db, ops[0]).0, ops[1..]))
  }

  ghost function After(db: Db, ops: seq<Op>): Db
    requires IsRun(db, ops)
    decreases |ops|
  {
    if ops == [] then db else After(Apply(db, ops[0]).0, ops[1..])
  }

  lemma {:induction false} AfterSnoc(db: Db, ops: seq<Op>, op: Op)
    requires IsRun(db, ops) && Sound(After(db, ops), op)
    ensures IsRun(db, ops + [op]) && After(db, ops + [op]) == Apply(After(db, ops), op).0
    decreases |ops|
  {
    hide Apply, Sound;
    var longer := ops + [op];
    if ops == [] {
      assert longer == [op] && longer[1..] == [];
    } else {
      AfterSnoc(Apply(db, ops[0]).0, ops[1..], op);
      assert longer[1..] == ops[1..] + [op];
    }
  }

  /** Every creating operation of the run is made by a root. */
  ghost predicate RootRun(db: Db, ops: seq<Op>)
    requires IsRun(db, ops)
    decreases |ops|
  {
    ops == [] || (ByRoot(db, ops[0]) && RootRun(Apply(db, ops[0]).0, ops[1..]))
  }

  /** From any consistent state, every run by root actors stays consistent: an enabled root remains,
      names stay unique, no session or audit row dangles, and creators stay undeletable roots. */
  lemma {:induction false} RunsStayConsistent(db: Db, ops: seq<Op>)
    requires Consistent(db) && IsRun(db, ops) && RootRun(db, ops)
    ensures Consistent(After(db, ops))
    decreases |ops|
  {
    if ops != [] {
      hide Consistent, Apply;
      ApplyKeeps(db, ops[0]);
      RunsStayConsistent(Apply(db, ops[0]).0, ops[1..]);
    }
  }

  /** ... so in such runs deleting an admin other than oneself always succeeds and removes it. */
  lemma AdminsCanAlwaysBeDeleted(db: Db, ops: seq<Op>, actor: int, target: int)
    requires Consistent(db) && IsRun(db, ops) && RootRun(db, ops) && actor != target
    requires target in After(db, ops).users && After(db, ops).users[target].role == Admin
    ensures var r := Apply(After(db, ops), Delete(actor, target)); r.1 == Done && target !in r.0.users
  {
    RunsStayConsistent(db, ops);
    hide Consistent;
    DeleteKeeps(After(db, ops), Delete(actor, target));
  }

  /** The restriction to root actors is needed: a user created by an admin blocks deleting it. */
  lemma AdminCreatorBlocksDeletion(db: Db, op: Op, root: int)
    requires Consistent(db) && op.Create? && Sound(db, op) && op.actor in db.users && db.users[op.actor].role == Admin
    requires DoCreate(db, op).1 == Done && root != op.actor
    ensures Apply(Apply(db, op).0, Delete(root, op.actor)).1 == Blocked
  {
    hide NewHash, PolicyOk;
    var db' := Apply(db, op).0;
    assert op.actor != db.nextId;
    var db1 := Audited(db', root, "delete_user", op.actor);
    assert db1.users[db.nextId].createdBy == Some(op.actor);
    assert HasCreated(db1, op.actor);
  }

  // ---------- sessions ----------

  /** A token that was issued and is no longer stored. */
  ghost predicate Dead(db: Db, sid: Sid) { sid in db.issued && sid !in db.sessions }

  lemma ApplyKeepsDead(db: Db, op: Op, sid: Sid)
    requires Dead(db, sid) && Sound(db, op)
    ensures Dead(Apply(db, op).0, sid)
  {
    hide NewHash, PolicyOk, Verifies, NameTaken, HasCreated, OtherEnabledRoot;
  }

  lemma {:induction false} DeadForever(db: Db, ops: seq<Op>, sid: Sid)
    requires Dead(db, sid) && IsRun(db, ops)
    ensures Dead(After(db, ops), sid)
    decreases |ops|
  {
    if ops != [] {
      ApplyKeepsDead(db, ops[0], sid);
      hide Apply;
      DeadForever(Apply(db, ops[0]).0, ops[1..], sid);
    }
  }

  /** After a successful password reset, no session the target had before verifies ever again,
      whatever operations follow. */
  lemma ResetEndsSessions(db: Db, op: Op, ops: seq<Op>, sid: Sid, now: int)
    requires Consistent(db) && op.ResetPassword? && Sound(db, op) && Apply(db, op).1 == Done
    requires sid in db.sessions && db.sessions[sid].user == op.target
    requires IsRun(Apply(db, op).0, ops)
    ensures SessionUser(After(Apply(db, op).0, ops), sid, now).None?
  {
    hide NewHash, PolicyOk;
    assert Dead(Apply(db, op).0, sid);
    DeadForever(Apply(db, op).0, ops, sid);
  }

  /** After a self-service change only the session that made it can survive. */
  lemma ChangeEndsOtherSessions(db: Db, op: Op, ops: seq<Op>, sid: Sid, now: int)
    requires Consistent(db) && op.ChangePassword? && Sound(db, op) && Apply(db, op).1 == Done
    requires sid in db.sessions && db.sessions[sid].user == op.actor && op.keep != Some(sid)
    requires IsRun(Apply(db, op).0, ops)
    ensures SessionUser(After(Apply(db, op).0, ops), sid, now).None?
  {
    hide NewHash, PolicyOk, Verifies;
    assert Dead(Apply(db, op).0, sid);
    DeadForever(Apply(db, op).0, ops, sid);
  }

  /** After a reset the account opens to exactly the passwords whose chain under the new salt ends in
      the new password's digest. */
  lemma ResetSetsPassword(db: Db, op: Op, p: seq<Byte>, d: seq<seq<Byte>>, e: seq<seq<Byte>>)
    requires op.ResetPassword? && Sound(db, op) && Apply(db, op).1 == Done
    requires IsChain(d, Hex(op.salt), op.password, 100000) && IsChain(e, Hex(op.salt), p, 100000)
    ensures var users := Apply(db, op).0.users;
      op.target in users && Verifies(op.password, users[op.target].hash) &&
      (Verifies(p, users[op.target].hash) <==> LastOf(e) == LastOf(d))
  {
    hide Verifies, IsChain, Hashed, IsVisible, IsUpper, IsLower, IsDigit, IsPunct;
    VerifiesIffSameDigest(op.password, op.salt, 256, p, d, e);
  }

  // ---------- the tables as they are updated ----------

  class Store {
    var users: map<int, User>
    var nextId: int
    var sessions: map<Sid, Session>
    var audit: seq<AuditRow>
    ghost var issued: set<Sid>
    ghost const first: Db
    ghost var ops: seq<Op>

    ghost function View(): Db
      reads this
    {
      Db(users, nextId, sessions, audit, issued)
    }

    /** The tables are those of the run of all operations so far. */
    ghost predicate Valid()
      reads this
    {
      IsRun(first, ops) && View() == After(first, ops)
    }

    constructor (users: map<int, User>, nextId: int, sessions: map<Sid, Session>, audit: seq<AuditRow>, ghost issued: set<Sid>)
      ensures Valid() && ops == [] && first == View() == Db(users, nextId, sessions, audit, issued)
    {
      this.users, this.nextId, this.sessions, this.audit, this.issued := users, nextId, sessions, audit, issued;
      first, ops := Db(users, nextId, sessions, audit, issued), [];
    }

    /** Enter a completed operation into the run. */
    ghost method Enter(op: Op, before: Db)
      requires IsRun(first, ops) && before == After(first, ops)
      requires Sound(before, op) && View() == Apply(before, op).0
      modifies this`ops
      ensures Valid() && ops == old(ops) + [op]
    {
      AfterSnoc(first, ops, op);
      hide Apply, Sound;
      ops := ops + [op];
    }

    /** `auth_audit_log` */
    method AuditLog(actor: int, action: string, target: int)
      modifies this`audit
      ensures View() == Audited(old(View()), actor, action, target)
    {
      if actor in users && target in users {
        audit := audit + [AuditRow(Some(actor), action, Some(target))];
      }
    }

    method CreateUser(actor: int, name: string, password: seq<Byte>, salt: seq<Byte>, now: int) returns (r: Outcome)
      requires |salt| == SALT_LEN
      modifies this
      ensures (View(), r) == DoCreate(old(View()), Create(actor, name, password, salt, now)) && ops == old(ops)
    {
      hide PolicyOk, Hashed;
      if |name| < 3 || |name| > 32 {
        return BadName;
      }
      var strong := CheckPolicy(password);
      if !strong {
        return WeakPassword;
      }
      var hash := HashPassword(password, salt, 256);
      if (exists id :: id in users && users[id].name == name) || actor !in users {
        return Rejected;
      }
      var id := nextId;
      users := users[id := User(name, if hash.Some? then hash.value else [], Admin, true, Some(actor), now)];
      nextId := nextId + 1;
      AuditLog(actor, "create_user", id);
      r := Done;
    }

    method DeleteUser(actor: int, target: int) returns (r: Outcome)
      modifies this
      ensures (View(), r) == DoDelete(old(View()), Delete(actor, target)) && ops == old(ops)
    {
      if target == actor {
        return OnSelf;
      }
      if target !in users {
        return NotFound;
      }
      if users[target].role == Root {
        return TargetIsRoot;
      }
      AuditLog(actor, "delete_user", target);
      if exists other :: other in users && other != target && users[other].createdBy == Some(target) {
        return Blocked;
      }
      users := users - {target};
      sessions := map s | s in sessions && sessions[s].user != target :: sessions[s];
      audit := Forget(audit, target);
      r := Done;
    }

    method ToggleUser(actor: int, target: int, enabled: bool) returns (r: Outcome)
      modifies this
      ensures (View(), r) == DoToggle(old(View()), Toggle(actor, target, enabled)) && ops == old(ops)
    {
      if target == actor {
        return OnSelf;
      }
      if target !in users {
        return NotFound;
      }
      if !enabled && users[target].role == Root {
        var others := exists id :: id in users && id != target && users[id].role == Root && users[id].enabled;
        if !others {
          return LastRoot;
        }
      }
      users := users[target := users[target].(enabled := enabled)];
      AuditLog(actor, if enabled then "enable_user" else "disable_user", target);
      r := Done;
    }

    /** `auth_kick_user_sessions` */
    method KickSessions(user: int, keep: Option<Sid>)
      modifies this`sessions
      ensures sessions == Kicked(old(sessions), user, keep)
    {
      if user <= 0 {
        return;
      }
      sessions := map s | s in sessions && (sessions[s].user != user || keep == Some(s)) :: sessions[s];
    }

    method ResetUserPassword(actor: int, target: int, password: seq<Byte>, salt: seq<Byte>, now: int) returns (r: Outcome)
      requires |salt| == SALT_LEN
      modifies this
      ensures (View(), r) == DoReset(old(View()), ResetPassword(actor, target, password, salt, now)) && ops == old(ops)
    {
      hide PolicyOk, Hashed, Kicked;
      var strong := CheckPolicy(password);
      if !strong {
        return WeakPassword;
      }
      var hash := HashPassword(password, salt, 256);
      if target !in users {
        return NotFound;
      }
      users := users[target := users[target].(hash := if hash.Some? then hash.value else [], changedAt := now)];
      KickSessions(target, None);
      AuditLog(actor, "reset_password", target);
      r := Done;
    }

    method ChangeOwnPassword(actor: int, oldPassword: seq<Byte>, password: seq<Byte>, salt: seq<Byte>,
                             keep: Option<Sid>, now: int) returns (r: Outcome)
      requires |salt| == SALT_LEN
      modifies this
      ensures (View(), r) == DoChange(old(View()), ChangePassword(actor, oldPassword, password, salt, keep, now)) && ops == old(ops)
    {
      hide PolicyOk, Hashed, Kicked, Verifies, Parse, Opens, IsChain, RecordText, Hex;
      if actor <= 0 {
        return Rejected;
      }
      if actor !in users || users[actor].name == "" {
        return NotFound;
      }
      var current := false;
      if users[actor].enabled {
        current := VerifyPassword(oldPassword, users[actor].hash);
      }
      if !current {
        return WrongPassword;
      }
      var strong := CheckPolicy(password);
      if !strong {
        return WeakPassword;
      }
      var reused := VerifyPassword(password, users[actor].hash);
      if reused {
        return SamePassword;
      }
      var hash := HashPassword(password, salt, 256);
      users := users[actor := users[actor].(hash := if hash.Some? then hash.value else [], changedAt := now)];
      KickSessions(actor, keep);
      AuditLog(actor, "change_password", actor);
      r := Done;
    }

    /** `auth_session_create`; `sid` is the random token. */
    method CreateSession(user: int, sid: Sid, now: int) returns (r: Outcome)
      modifies this
      ensures (View(), r) == DoOpen(old(View()), OpenSession(user, sid, now)) && ops == old(ops)
    {
      if user !in users || sid in sessions {
        return Rejected;
      }
      sessions := sessions[sid := Session(user, now + SESSION_EXPIRE)];
      issued := issued + {sid};
      r := Done;
    }

    /** `auth_session_destroy` */
    method DestroySession(sid: Sid)
      modifies this`sessions
      ensures View() == old(View()).(sessions := old(sessions) - {sid})
    {
      sessions := sessions - {sid};
    }

    /** `auth_session_cleanup` */
    method CleanupSessions(now: int)
      modifies this`sessions
      ensures var were := old(sessions);
        View() == old(View()).(sessions := map s | s in were && were[s].expires >= now :: were[s])
    {
      sessions := map s | s in sessions && sessions[s].expires >= now :: sessions[s];
    }

    /** Any operation, entered into the run: so what holds of every run holds after every sequence of
        calls. */
    method Perform(op: Op) returns (r: Outcome)
      requires Valid() && Sound(View(), op)
      modifies this
      ensures Valid() && ops == old(ops) + [op] && r == Apply(old(View()), op).1
    {
      hide DoCreate, DoDelete, DoToggle, DoReset, DoChange, DoOpen, IsRun, After;
      ghost var before := View();
      match op {
        case Create(actor, name, password, salt, now) => r := CreateUser(actor, name, password, salt, now);
        case Delete(actor, target) => r := DeleteUser(actor, target);
        case Toggle(actor, target, enabled) => r := ToggleUser(actor, target, enabled);
        case ResetPassword(actor, target, password, salt, now) =>
          r := ResetUserPassword(actor, target, password, salt, now);
        case ChangePassword(actor, oldPassword, password, salt, keep, now) =>
          r := ChangeOwnPassword(actor, oldPassword, password, salt, keep, now);
        case OpenSession(user, sid, now) => r := CreateSession(user, sid, now);
        case CloseSession(sid) =>
          DestroySession(sid);
          r := Done;
        case Cleanup(now) =>
          CleanupSessions(now);
          r := Done;
      }
      Enter(op, before);
    }

    /** `auth_session_verify` */
    method VerifySession(sid: Sid, now: int) returns (user: Option<int>)
      ensures user == SessionUser(View(), sid, now)
    {
      user := None;
      if |sid| == SID_LEN && sid in sessions && sessions[sid].expires > now && sessions[sid].user in users {
        if users[sessions[sid].user].enabled {
          user := Some(sessions[sid].user);
        }
      }
    }
  }
}
