/** Accounts and sessions said from the operations so far: when each operation succeeds and what it
    changes, and exactly when a session token verifies after any run. */
module AccountHistory {
  import opened Wrappers
  import opened Sha256
  import opened PasswordRecord
  import opened Accounts

  // ---------- one operation ----------

  /** All rows but `id`'s are as they were. */
  ghost predicate OthersKept(users: map<int, User>, users': map<int, User>, id: int) {
    forall i :: i != id ==> ((i in users <==> i in users') && (i in users ==> users'[i] == users[i]))
  }

  /** Exactly one audit row is added, if the actor has a row to refer to. */
  ghost predicate Logged(db: Db, db': Db, actor: int, action: string, target: int) {
    db'.audit == if actor in db.users then db.audit + [AuditRow(Some(actor), action, Some(target))] else db.audit
  }

  lemma NewHashVerifies(password: seq<Byte>, salt: seq<Byte>)
    requires PolicyOk(password) && |salt| == SALT_LEN
    ensures Verifies(password, NewHash(password, salt))
  {
    hide Verifies, IsChain, Hashed, IsVisible, IsUpper, IsLower, IsDigit, IsPunct;
    var d := ChainEndsIn(Hex(salt), password, 100000);
    VerifiesIffSameDigest(password, salt, 256, password, d, d);
  }

  /** Creation succeeds exactly for a name of 3 to 32 characters not in use, a password the policy
      accepts and an actor with a row; it adds one enabled admin who opens to that password. */
  lemma CreateIs(db: Db, op: Op)
    requires op.Create? && |op.salt| == 16 && (forall id :: id in db.users ==> id < db.nextId)
    ensures var db', r := Apply(db, op).0, Apply(db, op).1;
      (r == Done <==> 3 <= |op.name| <= 32 && PolicyOk(op.password) && op.actor in db.users &&
                      forall id :: id in db.users ==> db.users[id].name != op.name) &&
      (r != Done ==> db' == db) &&
      (r == Done ==>
         db.nextId !in db.users && db.nextId in db'.users && OthersKept(db.users, db'.users, db.nextId) &&
         db'.nextId == db.nextId + 1 && db'.sessions == db.sessions &&
         var u := db'.users[db.nextId];
         u.name == op.name && u.role == Admin && u.enabled && u.createdBy == Some(op.actor) && u.changedAt == op.now &&
         Verifies(op.password, u.hash) && Logged(db, db', op.actor, "create_user", db.nextId))
  {
    hide PolicyOk, NewHash, Verifies;
    if PolicyOk(op.password) {
      NewHashVerifies(op.password, op.salt);
    }
  }

  /** Deletion succeeds exactly for another, existing user who is no root and created nobody; that row
      and its sessions go, audit rows lose their references to it. */
  lemma DeleteIs(db: Db, op: Op)
    requires op.Delete?
    ensures var db', r := Apply(db, op).0, Apply(db, op).1;
      (r == Done <==> op.target != op.actor && op.target in db.users && db.users[op.target].role != Root &&
                      forall id :: id in db.users && id != op.target ==> db.users[id].createdBy != Some(op.target)) &&
      (r != Done ==> db'.users == db.users && db'.sessions == db.sessions) &&
      (r == Done ==>
         op.target !in db'.users && OthersKept(db.users, db'.users, op.target) && db'.nextId == db.nextId &&
         (forall s :: s in db'.sessions <==> s in db.sessions && db.sessions[s].user != op.target) &&
         (forall s :: s in db'.sessions ==> db'.sessions[s] == db.sessions[s]) &&
         (forall i :: 0 <= i < |db'.audit| ==> db'.audit[i].operator != Some(op.target) && db'.audit[i].target != Some(op.target)) &&
         |db'.audit| == |db.audit| + (if op.actor in db.users then 1 else 0) &&
         forall i :: 0 <= i < |db.audit| ==>
           db'.audit[i].action == db.audit[i].action &&
           (db.audit[i].operator != Some(op.target) ==> db'.audit[i].operator == db.audit[i].operator) &&
           (db.audit[i].target != Some(op.target) ==> db'.audit[i].target == db.audit[i].target))
  {
  }

  /** A switch succeeds exactly on another, existing user, unless it would disable the last enabled
      root; it changes that user's enabled flag alone. */
  lemma ToggleIs(db: Db, op: Op)
    requires op.Toggle?
    ensures var db', r := Apply(db, op).0, Apply(db, op).1;
      (r == Done <==> op.target != op.actor && op.target in db.users &&
                      (op.enabled || db.users[op.target].role != Root ||
                       exists id :: id in db.users && id != op.target && db.users[id].role == Root && db.users[id].enabled)) &&
      (r != Done ==> db' == db) &&
      (r == Done ==>
         db'.users == db.users[op.target := db.users[op.target].(enabled := op.enabled)] &&
         db'.nextId == db.nextId && db'.sessions == db.sessions &&
         Logged(db, db', op.actor, if op.enabled then "enable_user" else "disable_user", op.target))
  {
  }

  /** The row's password is replaced and nothing else but its time; of the user's sessions only the
      kept one stays. */
  ghost predicate Repassworded(db: Db, db': Db, id: int, password: seq<Byte>, keep: Option<Sid>, now: int) {
    id in db.users && id in db'.users && OthersKept(db.users, db'.users, id) && db'.nextId == db.nextId &&
    db'.users[id] == db.users[id].(hash := db'.users[id].hash, changedAt := now) && Verifies(password, db'.users[id].hash) &&
    (forall s :: s in db'.sessions <==> s in db.sessions && (db.sessions[s].user != id || id <= 0 || keep == Some(s))) &&
    forall s :: s in db'.sessions ==> db'.sessions[s] == db.sessions[s]
  }

  /** A reset succeeds exactly for an existing user and a password the policy accepts. */
  lemma ResetIs(db: Db, op: Op)
    requires op.ResetPassword? && |op.salt| == 16
    ensures var db', r := Apply(db, op).0, Apply(db, op).1;
      (r == Done <==> op.target in db.users && PolicyOk(op.password)) && (r != Done ==> db' == db) &&
      (r == Done ==>
         Repassworded(db, db', op.target, op.password, None, op.now) && Logged(db, db', op.actor, "reset_password", op.target))
  {
    hide PolicyOk, NewHash, Verifies;
    if PolicyOk(op.password) {
      NewHashVerifies(op.password, op.salt);
    }
  }

  /** A self-service change succeeds exactly for an enabled user who gives the current password and a
      different one that the policy accepts. */
  lemma ChangeIs(db: Db, op: Op)
    requires op.ChangePassword? && |op.salt| == 16
    ensures var db', r := Apply(db, op).0, Apply(db, op).1;
      (r == Done <==> op.actor > 0 && op.actor in db.users && db.users[op.actor].name != "" && db.users[op.actor].enabled &&
                      Verifies(op.oldPassword, db.users[op.actor].hash) && PolicyOk(op.password) &&
                      !Verifies(op.password, db.users[op.actor].hash)) &&
      (r != Done ==> db' == db) &&
      (r == Done ==>
         Repassworded(db, db', op.actor, op.password, op.keep, op.now) && Logged(db, db', op.actor, "change_password", op.actor))
  {
    hide PolicyOk, NewHash, Verifies;
    if PolicyOk(op.password) {
      NewHashVerifies(op.password, op.salt);
    }
  }

  // ---------- tokens and users over runs ----------

  /** Whose a token is and when it expires. */
  datatype Token = Token(user: int, expires: int)

  /** The last operation of a run succeeded. */
  ghost predicate LastDone(db: Db, ops: seq<Op>)
    requires ops != [] && IsRun(db, ops[..|ops| - 1]) && Sound(After(db, ops[..|ops| - 1]), ops[|ops| - 1])
  {
    Apply(After(db, ops[..|ops| - 1]), ops[|ops| - 1]).1 == Done
  }

  /** Runs, built by appending operations. */
  ghost predicate Grows(db: Db, ops: seq<Op>) {
    ops == [] ||
    (Grows(db, ops[..|ops| - 1]) && IsRun(db, ops[..|ops| - 1]) && Sound(After(db, ops[..|ops| - 1]), ops[|ops| - 1]) &&
     IsRun(db, ops) && After(db, ops) == Apply(After(db, ops[..|ops| - 1]), ops[|ops| - 1]).0)
  }

  lemma PrefixIsRun(db: Db, ops: seq<Op>, n: nat)
    requires IsRun(db, ops) && n <= |ops|
    ensures IsRun(db, ops[..n])
    ensures n < |ops| ==> Sound(After(db, ops[..n]), ops[n])
    decreases |ops|
  {
    hide Apply, Sound;
    if n > 0 {
      PrefixIsRun(Apply(db, ops[0]).0, ops[1..], n - 1);
      assert ops[..n][1..] == ops[1..][..n - 1];
    }
  }

  lemma {:induction false} RunGrows(db: Db, ops: seq<Op>)
    requires IsRun(db, ops)
    ensures Grows(db, ops)
    decreases |ops|
  {
    if ops != [] {
      var front, op := ops[..|ops| - 1], ops[|ops| - 1];
      PrefixIsRun(db, ops, |ops| - 1);
      RunGrows(db, front);
      AfterSnoc(db, front, op);
      assert front + [op] == ops;
      hide IsRun, After, Apply, Sound;
    }
  }

  /** The token's owner and expiry after a run, if it has been opened and not closed, cleaned up once
      expired, kicked by a password reset or by a change that does not keep it, or deleted with its
      user since. */
  ghost function OpenToken(db: Db, ops: seq<Op>, sid: Sid): Option<Token>
    requires Grows(db, ops)
  {
    if ops == [] then
      if sid in db.sessions then Some(Token(db.sessions[sid].user, db.sessions[sid].expires)) else None
    else
      var before, op, done := OpenToken(db, ops[..|ops| - 1], sid), ops[|ops| - 1], LastDone(db, ops);
      if op.OpenSession? && done && op.sid == sid then Some(Token(op.user, op.now + 3600))
      else if before.None? then None
      else
        var owner := before.value.user;
        if op.CloseSession? && op.sid == sid then None
        else if op.Cleanup? && before.value.expires < op.now then None
        else if op.ResetPassword? && done && op.target == owner && owner > 0 then None
        else if op.ChangePassword? && done && op.actor == owner && op.keep != Some(sid) then None
        else if op.Delete? && done && op.target == owner then None
        else before
  }

  /** The user exists and the latest switch, or else the creation, left it enabled. */
  ghost predicate EnabledBy(db: Db, ops: seq<Op>, id: int)
    requires Grows(db, ops)
  {
    if ops == [] then id in db.users && db.users[id].enabled
    else
      var front, op, done := ops[..|ops| - 1], ops[|ops| - 1], LastDone(db, ops);
      if op.Create? && done && id == After(db, front).nextId then true
      else if op.Toggle? && done && op.target == id then op.enabled
      else if op.Delete? && done && op.target == id then false
      else EnabledBy(db, front, id)
  }

  ghost predicate Enabled(users: map<int, User>, id: int) { id in users && users[id].enabled }

  ghost function Stored(sessions: map<Sid, Session>, sid: Sid): Option<Token> {
    if sid in sessions then Some(Token(sessions[sid].user, sessions[sid].expires)) else None
  }

  /** What one operation does to one token. */
  lemma TokenStep(db: Db, op: Op, sid: Sid)
    requires Sound(db, op)
    ensures var db', done, before := Apply(db, op).0, Apply(db, op).1 == Done, Stored(db.sessions, sid);
      Stored(db'.sessions, sid) ==
        if op.OpenSession? && done && op.sid == sid then Some(Token(op.user, op.now + 3600))
        else if before.None? then None
        else
          var owner := before.value.user;
          if op.CloseSession? && op.sid == sid then None
          else if op.Cleanup? && before.value.expires < op.now then None
          else if op.ResetPassword? && done && op.target == owner && owner > 0 then None
          else if op.ChangePassword? && done && op.actor == owner && op.keep != Some(sid) then None
          else if op.Delete? && done && op.target == owner then None
          else before
  {
    hide NewHash, PolicyOk, Verifies, NameTaken, HasCreated, OtherEnabledRoot;
  }

  /** What one operation does to one user's standing. */
  lemma EnabledStep(db: Db, op: Op, id: int)
    requires Sound(db, op)
    ensures var db', done := Apply(db, op).0, Apply(db, op).1 == Done;
      Enabled(db'.users, id) <==>
        if op.Create? && done && id == db.nextId then true
        else if op.Toggle? && done && op.target == id then op.enabled
        else if op.Delete? && done && op.target == id then false
        else Enabled(db.users, id)
  {
    hide NewHash, PolicyOk, Verifies, NameTaken, HasCreated, OtherEnabledRoot, Kicked, Forget;
  }

  lemma {:induction false} TokensFollow(db: Db, ops: seq<Op>, sid: Sid)
    requires IsRun(db, ops)
    ensures Grows(db, ops) && OpenToken(db, ops, sid) == Stored(After(db, ops).sessions, sid)
    decreases |ops|
  {
    RunGrows(db, ops);
    if ops != [] {
      var front, op := ops[..|ops| - 1], ops[|ops| - 1];
      TokensFollow(db, front, sid);
      TokenStep(After(db, front), op, sid);
      hide IsRun, After, Apply, Sound, Stored;
    }
  }

  lemma {:induction false} EnabledFollows(db: Db, ops: seq<Op>, id: int)
    requires IsRun(db, ops)
    ensures Grows(db, ops) && (EnabledBy(db, ops, id) <==> Enabled(After(db, ops).users, id))
    decreases |ops|
  {
    RunGrows(db, ops);
    if ops != [] {
      var front, op := ops[..|ops| - 1], ops[|ops| - 1];
      EnabledFollows(db, front, id);
      EnabledStep(After(db, front), op, id);
      hide IsRun, After, Apply, Sound, Enabled;
    }
  }

  /** After every run a 64-character token verifies as `u` at `now` exactly if the run left it open for
      `u`, it expires after `now`, and `u` stands enabled. */
  lemma SessionVerifiesIff(db: Db, ops: seq<Op>, sid: Sid, now: int, u: int)
    requires IsRun(db, ops)
    ensures Grows(db, ops) &&
      (SessionUser(After(db, ops), sid, now) == Some(u) <==>
         |sid| == 64 && OpenToken(db, ops, sid).Some? && OpenToken(db, ops, sid).value.user == u &&
         now < OpenToken(db, ops, sid).value.expires && EnabledBy(db, ops, u))
  {
    TokensFollow(db, ops, sid);
    EnabledFollows(db, ops, u);
    hide IsRun, After, Grows, OpenToken, EnabledBy;
  }

  /** A session just opened for an enabled user verifies for an hour. */
  lemma FreshSessionVerifies(db: Db, op: Op, now: int)
    requires op.OpenSession? && Sound(db, op) && Apply(db, op).1 == Done && Enabled(db.users, op.user)
    ensures SessionUser(Apply(db, op).0, op.sid, now) == Some(op.user) <==> now < op.now + 3600
  {
  }

  /** No later operation enables the user again. */
  ghost predicate NeverEnables(ops: seq<Op>, id: int) {
    forall i :: 0 <= i < |ops| ==> !(ops[i].Toggle? && ops[i].target == id && ops[i].enabled)
  }

  lemma {:induction false} StaysDisabled(db: Db, ops: seq<Op>, id: int)
    requires IsRun(db, ops) && !Enabled(db.users, id) && id < db.nextId && NeverEnables(ops, id)
    ensures !Enabled(After(db, ops).users, id)
    decreases |ops|
  {
    if ops != [] {
      EnabledStep(db, ops[0], id);
      IdsGrow(db, ops[0]);
      hide Apply, Enabled, Sound;
      StaysDisabled(Apply(db, ops[0]).0, ops[1..], id);
    }
  }

  lemma IdsGrow(db: Db, op: Op)
    requires Sound(db, op)
    ensures Apply(db, op).0.nextId >= db.nextId
  {
    hide NewHash, PolicyOk, Verifies, NameTaken, HasCreated, OtherEnabledRoot, Kicked, Forget;
  }

  /** After a successful disable no session of the target verifies until it is enabled again, whatever
      else happens. */
  lemma DisableEndsSessions(db: Db, op: Op, ops: seq<Op>, sid: Sid, now: int)
    requires Consistent(db) && op.Toggle? && !op.enabled && Apply(db, op).1 == Done
    requires IsRun(Apply(db, op).0, ops) && NeverEnables(ops, op.target)
    ensures SessionUser(After(Apply(db, op).0, ops), sid, now) != Some(op.target)
  {
    ToggleIs(db, op);
    var db' := Apply(db, op).0;
    StaysDisabled(db', ops, op.target);
    hide IsRun, After;
  }

  /** A deleted user's id never comes back. */
  lemma {:induction false} GoneForever(db: Db, ops: seq<Op>, id: int)
    requires IsRun(db, ops) && id !in db.users && id < db.nextId
    ensures id !in After(db, ops).users
    decreases |ops|
  {
    if ops != [] {
      GoneStep(db, ops[0], id);
      IdsGrow(db, ops[0]);
      hide Apply, Sound;
      GoneForever(Apply(db, ops[0]).0, ops[1..], id);
    }
  }

  lemma GoneStep(db: Db, op: Op, id: int)
    requires Sound(db, op) && id !in db.users && id < db.nextId
    ensures id !in Apply(db, op).0.users
  {
    hide NewHash, PolicyOk, Verifies, NameTaken, HasCreated, OtherEnabledRoot, Kicked, Forget;
  }
}
