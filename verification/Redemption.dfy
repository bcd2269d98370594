/**
 The identity flows that must happen as a whole: issuing a code to a member, and redeeming a code for a new
 password. Each is one transaction that may fail between any two of its statements.
 */
module Redemption {
  import opened Wrappers
  import opened JsonText
  import opened AuthKv
  import opened AuthCodes
  import opened IdentityTables
  import Tx = SqliteTx
  import Runner = TransactionRunner

  datatype Error = NoError | NotFound | TooManyCodes | Internal

  /**
   The flow's own variables: the verdict on the code, the user it loaded, whether codes may be issued, what was
   thrown.
   */
  datatype Local = Local(verdict: Verdict, user: Option<User>, room: bool, error: Error)

  const START := Local(InvalidCode, None, false, NoError)

  /** Where the environment makes the transaction fail: at its ends, or after its n-th statement. */
  datatype Faults = Faults(opens: bool, closes: bool, after: set<nat>)

  function Nop(): Tx.Code<Db, Local> { Tx.Statement((d: Db, m: Local) => (d, m)) }

  function Fail(error: Error): Tx.Code<Db, Local> { Tx.Throw((m: Local) => m.(error := error)) }

  function FailAfter(n: nat, f: Faults): Tx.Code<Db, Local> { if n in f.after then Fail(Internal) else Nop() }

  function Atomic(f: Faults, body: Tx.Code<Db, Local>): Tx.Code<Db, Local> {
    var raise := (m: Local) => m.(error := Internal);
    Tx.Transaction(if f.opens then Tx.OpenFails(raise) else if f.closes then Tx.CloseFails(raise) else Tx.Clean, body)
  }

  lemma AtomicMeans(f: Faults, body: Tx.Code<Db, Local>, d: Db, m: Local)
    ensures var e := Tx.Meaning(Atomic(f, body), d, m); var b := Tx.Meaning(body, d, m);
      && (e.ok <==> b.ok && !f.opens && !f.closes)
      && (e.ok ==> e == b)
      && (!e.ok ==> e.db == d)
      && (!b.ok && !f.opens ==> e.mem == b.mem)
      && (!e.ok && (b.ok || f.opens) ==> e.mem.error == Internal)
  {
  }

  /** A statement and its fault point, in front of the rest. */
  function Do(first: Tx.Code<Db, Local>, n: nat, f: Faults, rest: Tx.Code<Db, Local>): Tx.Code<Db, Local> {
    Tx.Then(first, Tx.Then(FailAfter(n, f), rest))
  }

  lemma DoMeans(first: Tx.Code<Db, Local>, n: nat, f: Faults, rest: Tx.Code<Db, Local>, d: Db, m: Local, d1: Db,
        m1: Local)
    requires Tx.Meaning(first, d, m) == Tx.End(true, d1, m1)
    ensures Tx.Meaning(Do(first, n, f, rest), d, m) ==
      if n in f.after then Tx.End(false, d1, m1.(error := Internal)) else Tx.Meaning(rest, d1, m1)
  {
    var then_ := Tx.Then(FailAfter(n, f), rest);
    assert Tx.Meaning(Tx.Then(first, then_), d, m) == Tx.Meaning(then_, d1, m1);
    assert Tx.Meaning(then_, d1, m1) ==
      if n in f.after then Tx.End(false, d1, m1.(error := Internal)) else Tx.Meaning(rest, d1, m1);
  }

  // --- Redeeming a code ---------------------------------------------------------

  datatype Redeem = Redeem(email: Text, purpose: Purpose, code: Text, credential: Text, now: int)

  function VerifyStatement(r: Redeem): Tx.Code<Db, Local> {
    Tx.Statement((d: Db, m: Local) =>
      var (verdict, codes) := Verify(d.codes, r.email, r.purpose, r.code, r.now);
        (d.(codes := codes), m.(verdict := verdict)))
  }

  function SetCredential(d: Db, r: Redeem): Db { d.(kv := d.kv[PasswordKey(r.email) := Row(r.credential, None)]) }

  function ClearFlag(d: Db, userId: Text): Db {
    if userId in d.users then d.(users := d.users[userId := d.users[userId].(mustChange := false)]) else d
  }

  function Lookup(d: Db, userId: Text): Option<User> { if userId in d.users then Some(d.users[userId]) else None }

  function SubjectIn(user: Option<User>): Option<Text> { if user.Some? then user.value.subject else None }

  function SubjectOf(d: Db, userId: Text): Option<Text> { SubjectIn(Lookup(d, userId)) }

  function Revoke(d: Db, subject: Option<Text>, now: int): Db {
    if subject.Some? then d.(kv := Invalidated(d.kv, subject.value, now)) else d
  }

  function Who(m: Local): Text { if m.verdict.Accepted? then m.verdict.userId else [] }

  function SetCredentialStatement(r: Redeem): Tx.Code<Db, Local> {
    Tx.Statement((d: Db, m: Local) => (SetCredential(d, r), m))
  }

  function ClearFlagStatement(): Tx.Code<Db, Local> { Tx.Statement((d: Db, m: Local) => (ClearFlag(d, Who(m)), m)) }

  function EndSessionsStatement(): Tx.Code<Db, Local> { Tx.Statement((d: Db, m: Local) => (EndSessions(d, Who(m)), m)) }

  function RevokeStatement(now: int): Tx.Code<Db, Local> {
    Tx.Then(Tx.Statement((d: Db, m: Local) => (d, m.(user := Lookup(d, Who(m))))),
            Tx.Statement((d: Db, m: Local) => (Revoke(d, SubjectIn(m.user), now), m)))
  }

  function ResetPart(r: Redeem, f: Faults): Tx.Code<Db, Local> {
    Do(EndSessionsStatement(), 4, f, Do(RevokeStatement(r.now), 5, f, Nop()))
  }

  function AcceptedPart(r: Redeem, f: Faults): Tx.Code<Db, Local> {
    Do(Nop(), 1, f,
    Do(SetCredentialStatement(r), 2, f,
    Do(ClearFlagStatement(), 3, f,
       if r.purpose.Reset? then ResetPart(r, f) else Nop())))
  }

  function RedeemCode(r: Redeem, f: Faults): Tx.Code<Db, Local> {
    Atomic(f, Tx.Then(VerifyStatement(r), Tx.If((m: Local) => m.verdict.Accepted?, AcceptedPart(r, f), Nop())))
  }

  predicate Applies(r: Redeem, n: nat) { 1 <= n <= if r.purpose.Reset? then 5 else 3 }

  predicate Disturbed(r: Redeem, f: Faults) { exists n :: n in f.after && Applies(r, n) }

  /** What an accepted code leads to, in one piece. */
  function Redeemed(d: Db, r: Redeem, userId: Text): Db {
    var d1 := ClearFlag(SetCredential(d, r), userId);
    if r.purpose.Reset? then Revoke(EndSessions(d1, userId), SubjectOf(d1, userId), r.now) else d1
  }

  lemma ResetPartMeans(r: Redeem, f: Faults, d: Db, m: Local)
    ensures var e := Tx.Meaning(ResetPart(r, f), d, m);
      && (e.ok <==> 4 !in f.after && 5 !in f.after)
      && (e.ok ==> e.db == Revoke(EndSessions(d, Who(m)), SubjectOf(d, Who(m)), r.now) && e.mem.verdict == m.verdict)
      && (!e.ok ==> e.mem.error == Internal)
  {
    var d1 := EndSessions(d, Who(m));
    var m2 := m.(user := Lookup(d1, Who(m)));
    var d2 := Revoke(d1, SubjectIn(m2.user), r.now);
    DoMeans(EndSessionsStatement(), 4, f, Do(RevokeStatement(r.now), 5, f, Nop()), d, m, d1, m);
    var look := Tx.Statement((d: Db, m: Local) => (d, m.(user := Lookup(d, Who(m)))));
    assert Tx.Meaning(look, d1, m) == Tx.End(true, d1, m2);
    assert Tx.Meaning(RevokeStatement(r.now), d1, m) == Tx.End(true, d2, m2);
    DoMeans(RevokeStatement(r.now), 5, f, Nop(), d1, m, d2, m2);
  }

  lemma AcceptedPartMeans(r: Redeem, f: Faults, d: Db, m: Local)
    requires m.verdict.Accepted?
    ensures var e := Tx.Meaning(AcceptedPart(r, f), d, m);
      && (e.ok <==> !Disturbed(r, f))
      && (e.ok ==> e.db == Redeemed(d, r, m.verdict.userId) && e.mem.verdict == m.verdict)
      && (!e.ok ==> e.mem.error == Internal)
  {
    var last := if r.purpose.Reset? then ResetPart(r, f) else Nop();
    var third := Do(ClearFlagStatement(), 3, f, last);
    var second := Do(SetCredentialStatement(r), 2, f, third);
    var d1 := SetCredential(d, r);
    var d2 := ClearFlag(d1, Who(m));
    DoMeans(Nop(), 1, f, second, d, m, d, m);
    DoMeans(SetCredentialStatement(r), 2, f, third, d, m, d1, m);
    DoMeans(ClearFlagStatement(), 3, f, last, d1, m, d2, m);
    ResetPartMeans(r, f, d2, m);
    assert Applies(r, 1) && Applies(r, 2) && Applies(r, 3) && (r.purpose.Reset? <==> Applies(r, 4)) &&
      (r.purpose.Reset? <==> Applies(r, 5));
    if Disturbed(r, f) {
      var n :| n in f.after && Applies(r, n);
      assert n == 1 || n == 2 || n == 3 || n == 4 || n == 5;
    }
  }

  /** A code that was accepted is gone for good, and it was the active one. */
  ghost predicate CodeSpent(d: Db, after: Db, r: Redeem) {
    var active := AuthCodes.Active(d.codes, r.email, r.purpose);
    && active.Some?
    && d.codes[active.value].hash == r.code && d.codes[active.value].expiresAt > r.now
    && after.codes == d.codes[active.value := d.codes[active.value].(used := Some(r.now))]
  }

  /** The user cannot get in with what they held before. */
  ghost predicate LockedOut(d: Db, after: Db, userId: Text, now: int) {
    && (forall id :: id in after.sessions ==> after.sessions[id].userId != Some(userId))
    && (forall id :: id in d.sessions && d.sessions[id].userId != Some(userId) ==>
          id in after.sessions && after.sessions[id] == d.sessions[id])
    && (userId in d.users && d.users[userId].subject.Some? ==>
          forall key :: key in after.kv && RefreshPrefix(d.users[userId].subject.value) <= key ==>
            !LiveRow(after.kv[key], now))
  }

  /** Nothing but refresh tokens and expired rows leaves the login store, and only the credential is written. */
  ghost predicate StoreFramed(d: Db, after: Db, r: Redeem, userId: Text) {
    && (forall key :: key in after.kv && key != PasswordKey(r.email) ==> key in d.kv && after.kv[key] == d.kv[key])
    && (r.purpose.Setup? ==> forall key :: key in d.kv ==> key in after.kv)
    && (r.purpose.Reset? ==> forall key ::
          (key in d.kv && LiveRow(d.kv[key], r.now) && key !in TokenKeys(d.sessions, userId) &&
           !(SubjectOf(d, userId).Some? && StartsFolded(RefreshPrefix(SubjectOf(d, userId).value), key))) ==>
             key in after.kv)
  }

  /** The credential is replaced and the forced change lifted; a reset has locked every earlier holder out. */
  ghost predicate Replaced(d: Db, after: Db, r: Redeem, userId: Text) {
    && PasswordKey(r.email) in after.kv && after.kv[PasswordKey(r.email)] == Row(r.credential, None)
    && (userId in d.users ==> after.users == d.users[userId := d.users[userId].(mustChange := false)])
    && (userId !in d.users ==> after.users == d.users)
    && after.members == d.members
    && StoreFramed(d, after, r, userId)
    && (r.purpose.Reset? ==> LockedOut(d, after, userId, r.now))
    && (r.purpose.Setup? ==> after.sessions == d.sessions)
  }

  lemma RedeemedMeans(d: Db, r: Redeem, userId: Text)
    ensures var after := Redeemed(d, r, userId); Replaced(d, after, r, userId) && after.codes == d.codes
  {
    var d1 := ClearFlag(SetCredential(d, r), userId);
    if r.purpose.Reset? {
      var d2 := EndSessions(d1, userId);
      TokenKeysAreRefresh(d.sessions, userId, r.email);
      if SubjectOf(d1, userId).Some? {
        InvalidatedLeaves(d2.kv, SubjectOf(d1, userId).value, r.now);
        PasswordIsNoRefresh(r.email, SubjectOf(d1, userId).value);
        assert LiveRow(d2.kv[PasswordKey(r.email)], r.now);
      }
    }
  }

  lemma ReplacedFrom(d: Db, codes: seq<Code>, after: Db, r: Redeem, userId: Text)
    requires Replaced(d.(codes := codes), after, r, userId)
    ensures Replaced(d, after, r, userId)
  {
  }

  /** Ending sessions never removes a password. */
  lemma TokenKeysAreRefresh(sessions: Sessions, userId: Text, email: Text)
    ensures PasswordKey(email) !in TokenKeys(sessions, userId)
  {
    forall id | id in sessions &&
      TokenOf(sessions[id], userId).Some? ensures TokenOf(sessions[id], userId).value != PasswordKey(email) {
      var token := sessions[id].refresh.value;
      var colon := LastColon(token, |token|);
      var tail := [token[..colon], token[colon + 1..]];
      KeyStarts(REFRESH, tail);
      KeyStarts(EMAIL, [email, PASSWORD]);
      assert [REFRESH] + tail == [REFRESH, token[..colon], token[colon + 1..]];
      assert [EMAIL] + [email, PASSWORD] == [EMAIL, email, PASSWORD];
    }
  }

  /**
   Redemption is all or nothing. It rejects exactly when the transaction is disturbed, and then nothing has
   changed: the code is unspent. If it resolves with an accepted code, the code is spent, the credential
   replaced, the forced change lifted, and a reset has locked every earlier session and token out. If it
   resolves with a refusal, only the attempt bookkeeping of the codes may have changed.
   */
  lemma RedemptionIsAtomic(d: Db, r: Redeem, f: Faults)
    ensures var e := Tx.Meaning(RedeemCode(r, f), d, START);
      var verdict := Verify(d.codes, r.email, r.purpose, r.code, r.now).0;
      && (e.ok <==> !f.opens && !f.closes && !(verdict.Accepted? && Disturbed(r, f)))
      && (!e.ok ==> e.db == d && e.mem.error == Internal)
      && (e.ok ==> e.mem.verdict == verdict)
      && (e.ok && !verdict.Accepted? ==> e.db == d.(codes := Verify(d.codes, r.email, r.purpose, r.code, r.now).1))
      && (e.ok && verdict.Accepted? ==> CodeSpent(d, e.db, r) && Replaced(d, e.db, r, verdict.userId))
  {
    var (verdict, codes) := Verify(d.codes, r.email, r.purpose, r.code, r.now);
    var d1, m1 := d.(codes := codes), START.(verdict := verdict);
    var go := Tx.If((m: Local) => m.verdict.Accepted?, AcceptedPart(r, f), Nop());
    assert Tx.Meaning(VerifyStatement(r), d, START) == Tx.End(true, d1, m1);
    AtomicMeans(f, Tx.Then(VerifyStatement(r), go), d, START);
    if verdict.Accepted? {
      AcceptedPartMeans(r, f, d1, m1);
      RedeemedMeans(d1, r, verdict.userId);
      ReplacedFrom(d, codes, Redeemed(d1, r, verdict.userId), r, verdict.userId);
    }
  }

  // --- Issuing a code -------------------------------------------------------------

  datatype IssueTo = IssueTo(workspace: Text, userId: Text, purpose: Purpose, code: Text, now: int)

  /** DELETE ... LIKE, live or not. */
  function WithoutTokens(d: Db, subject: Option<Text>): Db {
    if subject.Some? then d.(kv := WithoutPrefix(d.kv, RefreshPrefix(subject.value))) else d
  }

  function Superseded(d: Db, i: IssueTo): Db { d.(codes := Supersede(d.codes, i.userId, i.purpose, i.now)) }

  function Inserted(d: Db, i: IssueTo, email: Text): Db {
    d.(codes := d.codes + [Fresh(i.userId, email, i.purpose, i.code, i.now)])
  }

  /** Finds the member, and counts the codes of their email's window. */
  function LookStatement(i: IssueTo): Tx.Code<Db, Local> {
    Tx.Statement((d: Db, m: Local) => (d, Looked(i, d, m)))
  }

  function Looked(i: IssueTo, d: Db, m: Local): Local {
    var user := if (i.workspace, i.userId) in d.members then Lookup(d, i.userId) else None;
    m.(user := user,
       room := user.Some? && CountAfter(d.codes, |d.codes|, user.value.email, i.now - WINDOW_MS) < ISSUE_MAX)
  }

  function EmailIn(user: Option<User>): Text { if user.Some? then user.value.email else [] }

  function SupersedeStatement(i: IssueTo): Tx.Code<Db, Local> {
    Tx.Statement((d: Db, m: Local) => (Superseded(d, i), m))
  }

  function EndSessionsOf(i: IssueTo): Tx.Code<Db, Local> {
    Tx.Statement((d: Db, m: Local) => (EndSessions(d, i.userId), m))
  }

  function InsertStatement(i: IssueTo): Tx.Code<Db, Local> {
    Tx.Statement((d: Db, m: Local) => (Inserted(d, i, EmailIn(m.user)), m))
  }

  function WipeStatement(): Tx.Code<Db, Local> {
    Tx.Statement((d: Db, m: Local) => (WithoutTokens(d, SubjectIn(m.user)), m))
  }

  function WipePart(i: IssueTo, f: Faults): Tx.Code<Db, Local> {
    if i.purpose.Reset? then Do(EndSessionsOf(i), 3, f, Do(WipeStatement(), 4, f, Nop())) else Nop()
  }

  /** The writes of an issue, in a transaction of their own inside the caller's. */
  function IssueWrites(i: IssueTo, f: Faults): Tx.Code<Db, Local> {
    Atomic(f, Do(SupersedeStatement(i), 1, f, Do(InsertStatement(i), 2, f, WipePart(i, f))))
  }

  /** issueCode: the user must be a member and exist, and the window of their email must have room. */
  function IssueCode(i: IssueTo, f: Faults, nested: Faults): Tx.Code<Db, Local> {
    Atomic(f, Tx.Then(LookStatement(i), Admitted(i, nested)))
  }

  function Admitted(i: IssueTo, nested: Faults): Tx.Code<Db, Local> {
    Tx.If((m: Local) => m.user.None?, Fail(NotFound),
          Tx.If((m: Local) => m.room, IssueWrites(i, nested), Fail(TooManyCodes)))
  }

  function Issued(d: Db, i: IssueTo, user: User): Db {
    var d1 := Inserted(Superseded(d, i), i, user.email);
    if i.purpose.Reset? then WithoutTokens(EndSessions(d1, i.userId), user.subject) else d1
  }

  predicate IssueDisturbed(i: IssueTo, nested: Faults) {
    nested.opens || nested.closes || 1 in nested.after || 2 in nested.after ||
    (i.purpose.Reset? && (3 in nested.after || 4 in nested.after))
  }

  lemma StatementsMean(i: IssueTo, d: Db, m: Local)
    ensures Tx.Meaning(SupersedeStatement(i), d, m) == Tx.End(true, Superseded(d, i), m)
    ensures Tx.Meaning(InsertStatement(i), d, m) == Tx.End(true, Inserted(d, i, EmailIn(m.user)), m)
    ensures Tx.Meaning(EndSessionsOf(i), d, m) == Tx.End(true, EndSessions(d, i.userId), m)
    ensures Tx.Meaning(WipeStatement(), d, m) == Tx.End(true, WithoutTokens(d, SubjectIn(m.user)), m)
  {
  }

  lemma WipePartMeans(i: IssueTo, f: Faults, d: Db, m: Local)
    requires m.user.Some?
    ensures var e := Tx.Meaning(WipePart(i, f), d, m);
      && (e.ok <==> i.purpose.Setup? || (3 !in f.after && 4 !in f.after))
      && (e.ok ==> e.db == if i.purpose.Reset? then WithoutTokens(EndSessions(d, i.userId), m.user.value.subject)
            else d)
      && (!e.ok ==> e.mem.error == Internal)
  {
    if i.purpose.Reset? {
      var d1 := EndSessions(d, i.userId);
      StatementsMean(i, d, m);
      StatementsMean(i, d1, m);
      DoMeans(EndSessionsOf(i), 3, f, Do(WipeStatement(), 4, f, Nop()), d, m, d1, m);
      DoMeans(WipeStatement(), 4, f, Nop(), d1, m, WithoutTokens(d1, m.user.value.subject), m);
    }
  }

  lemma IssueWritesMeans(i: IssueTo, f: Faults, d: Db, m: Local)
    requires m.user.Some?
    ensures var e := Tx.Meaning(IssueWrites(i, f), d, m);
      && (e.ok <==> !IssueDisturbed(i, f))
      && (e.ok ==> e.db == Issued(d, i, m.user.value))
      && (!e.ok ==> e.mem.error == Internal)
  {
    var user := m.user.value;
    var d1 := Superseded(d, i);
    var d2 := Inserted(d1, i, user.email);
    var insert := Do(InsertStatement(i), 2, f, WipePart(i, f));
    StatementsMean(i, d, m);
    StatementsMean(i, d1, m);
    DoMeans(SupersedeStatement(i), 1, f, insert, d, m, d1, m);
    DoMeans(InsertStatement(i), 2, f, WipePart(i, f), d1, m, d2, m);
    WipePartMeans(i, f, d2, m);
    AtomicMeans(f, Do(SupersedeStatement(i), 1, f, insert), d, m);
  }

  /**
   A row of the user's refresh tokens: under the subject's prefix up to case, or behind one of the user's
   sessions.
   */
  ghost predicate IsTheirToken(d: Db, userId: Text, key: Text) {
    || (userId in d.users && d.users[userId].subject.Some? &&
        StartsFolded(RefreshPrefix(d.users[userId].subject.value), key))
    || exists id :: id in d.sessions && OpenedWith(d, id, userId, key)
  }

  /**
   A reset leaves no row under the prefix of the subject's refresh tokens, and takes no session of anyone else. From
   the login store it takes exactly the user's tokens.
   */
  ghost predicate NoWayIn(d: Db, after: Db, userId: Text, now: int) {
    && LockedOut(d, after, userId, now)
    && (userId in d.users && d.users[userId].subject.Some? ==>
          forall key :: key in after.kv ==> !(RefreshPrefix(d.users[userId].subject.value) <= key))
    && (forall key :: key in after.kv <==> key in d.kv && !IsTheirToken(d, userId, key))
    && (forall key :: key in after.kv ==> after.kv[key] == d.kv[key])
  }

  lemma IssuedLocksOut(i: IssueTo, d: Db, user: User)
    requires i.purpose.Reset? && i.userId in d.users && user == d.users[i.userId]
    ensures NoWayIn(d, Issued(d, i, user), i.userId, i.now)
  {
    forall key ensures key in Issued(d, i, user).kv <==> key in d.kv && !IsTheirToken(d, i.userId, key) {
      TokensGo(i, d, user, key);
    }
    if user.subject.Some? {
      var prefix := RefreshPrefix(user.subject.value);
      forall key | key in Issued(d, i, user).kv ensures !(prefix <= key) {
        LikeIsPrefix(prefix, key);
      }
    }
  }

  lemma TokensGo(i: IssueTo, d: Db, user: User, key: Text)
    requires i.purpose.Reset? && i.userId in d.users && user == d.users[i.userId]
    ensures key in Issued(d, i, user).kv <==> key in d.kv && !IsTheirToken(d, i.userId, key)
  {
    var d1 := Inserted(Superseded(d, i), i, user.email);
    EndingIs(d1, i.userId);
    assert forall id :: id in d.sessions ==> OpenedWith(d1, id, i.userId, key) == OpenedWith(d, id, i.userId, key);
    if user.subject.Some? { LikeIsPrefix(RefreshPrefix(user.subject.value), key); }
  }

  /** The code to hand out, if the user is a member and their window has room. */
  function ToIssue(i: IssueTo, d: Db): Option<seq<Code>> {
    if (i.workspace, i.userId) in d.members && i.userId in d.users
    then Issue(d.codes, i.userId, d.users[i.userId].email, i.purpose, i.code, i.now) else None
  }

  ghost predicate HandedOut(i: IssueTo, d: Db, after: Db)
    requires ToIssue(i, d).Some?
  {
    && after.codes == ToIssue(i, d).value && after.users == d.users && after.members == d.members
    && (i.purpose.Reset? ==> NoWayIn(d, after, i.userId, i.now))
    && (i.purpose.Setup? ==> after.sessions == d.sessions && after.kv == d.kv)
  }

  lemma IssuedIsHandedOut(i: IssueTo, d: Db, user: User)
    requires (i.workspace, i.userId) in d.members && i.userId in d.users && user == d.users[i.userId]
    requires ToIssue(i, d).Some?
    ensures HandedOut(i, d, Issued(d, i, user))
  {
    if i.purpose.Reset? { IssuedLocksOut(i, d, user); }
  }

  ghost predicate Known(i: IssueTo, d: Db) { (i.workspace, i.userId) in d.members && i.userId in d.users }

  lemma AdmittedMeans(i: IssueTo, nested: Faults, d: Db)
    ensures var e := Tx.Meaning(Admitted(i, nested), d, Looked(i, d, START));
      && (e.ok <==> ToIssue(i, d).Some? && !IssueDisturbed(i, nested))
      && (e.ok ==> Known(i, d) && e.db == Issued(d, i, d.users[i.userId]))
      && (!e.ok ==> e.mem.error == if !Known(i, d) then NotFound
                                   else if ToIssue(i, d).None? then TooManyCodes else Internal)
  {
    var m := Looked(i, d, START);
    if m.user.Some? { IssueWritesMeans(i, nested, d, m); }
  }

  /**
   Issuing resolves exactly for a known member with room in the window when nothing disturbs it. Then the new
   code supersedes the earlier ones of its purpose, and a reset leaves the user neither a session nor any row
   under the prefix of their refresh tokens. Otherwise nothing has changed.
   */
  lemma IssueIsAtomic(i: IssueTo, d: Db, f: Faults, nested: Faults)
    ensures var e := Tx.Meaning(IssueCode(i, f, nested), d, START);
      && (e.ok <==> ToIssue(i, d).Some? && !f.opens && !f.closes && !IssueDisturbed(i, nested))
      && (e.ok ==> HandedOut(i, d, e.db))
      && (!e.ok ==> e.db == d)
      && (!e.ok && !f.opens ==> (e.mem.error == NotFound <==> !Known(i, d)))
      && (!e.ok && !f.opens ==> (e.mem.error == TooManyCodes <==> Known(i, d) && ToIssue(i, d).None?))
  {
    var m := Looked(i, d, START);
    assert Tx.Meaning(LookStatement(i), d, START) == Tx.End(true, d, m);
    var body := Tx.Then(LookStatement(i), Admitted(i, nested));
    assert Tx.Meaning(body, d, START) == Tx.Meaning(Admitted(i, nested), d, m);
    AdmittedMeans(i, nested, d);
    if Known(i, d) && ToIssue(i, d).Some? { IssuedIsHandedOut(i, d, d.users[i.userId]); }
    AtomicMeans(f, body, d, START);
  }

  // --- As they run on the adapter -----------------------------------------------------

  method RedeemCodeAndSetPassword(adapter: Runner.Adapter<Db, Local>, r: Redeem, f: Faults) returns (ok: bool, m: Local)
    requires adapter.Agrees()
    modifies adapter
    ensures adapter.HandedBack()
    ensures Tx.End(ok, adapter.conn.View(), m) == Tx.Meaning(RedeemCode(r, f), old(adapter.conn.View()), START)
  {
    ok, m := adapter.Perform(RedeemCode(r, f), START);
  }
}
