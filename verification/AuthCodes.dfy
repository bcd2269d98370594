/**
 Single-use setup and reset codes: issue with a sliding-window limit, supersede, verify and consume with an
 attempt cap. Emails and codes are in their normalised form, and a code stands for its hash.
 */
module AuthCodes {
  import opened Wrappers
  import opened JsonText

  datatype Purpose = Setup | Reset

  /** A row of auth_codes. Rows are never removed here, so a row's place in the table is its id. */
  datatype Code = Code(
    userId: Text, email: Text, purpose: Purpose, hash: Text, attempts: nat, createdAt: int, expiresAt: int,
      used: Option<int>)

  type Codes = seq<Code>

  const WINDOW_MS := 15 * 60 * 1000
  const ISSUE_MAX := 5
  const MAX_ATTEMPTS := 10

  function TtlMs(purpose: Purpose): int { if purpose.Setup? then 7 * 24 * 60 * 60 * 1000 else 60 * 60 * 1000 }

  datatype Verdict = Accepted(userId: Text) | InvalidCode | ExpiredCode | RateLimited

  // --- Operations -------------------------------------------------------------

  /** Among the first `n` codes, those of this email created after the given moment, whatever their purpose. */
  function CountAfter(codes: Codes, n: nat, email: Text, after: int): nat
    requires n <= |codes|
  {
    if n == 0 then 0
    else
      CountAfter(codes, n - 1, email, after) +
      (if codes[n - 1].email == email && codes[n - 1].createdAt > after then 1 else 0)
  }

  function Supersede(codes: Codes, userId: Text, purpose: Purpose, now: int): (r: Codes)
    ensures |r| == |codes|
    ensures forall i :: 0 <= i < |codes| ==>
      r[i] == if codes[i].userId == userId && codes[i].purpose == purpose && codes[i].used.None?
              then codes[i].(used := Some(now)) else codes[i]
  {
    seq(|codes|, i requires 0 <= i < |codes| =>
      if codes[i].userId == userId && codes[i].purpose == purpose && codes[i].used.None?
      then codes[i].(used := Some(now)) else codes[i])
  }

  function Fresh(userId: Text, email: Text, purpose: Purpose, hash: Text, now: int): Code {
    Code(userId, email, purpose, hash, 0, now, now + TtlMs(purpose), None)
  }

  /** None when the window of this email is exhausted. */
  function Issue(codes: Codes, userId: Text, email: Text, purpose: Purpose, hash: Text, now: int): Option<Codes> {
    if CountAfter(codes, |codes|, email, now - WINDOW_MS) >= ISSUE_MAX then None
    else Some(Supersede(codes, userId, purpose, now) + [Fresh(userId, email, purpose, hash, now)])
  }

  predicate Candidate(code: Code, email: Text, purpose: Purpose) {
    code.email == email && code.purpose == purpose && code.used.None?
  }

  /** Among the first `n` rows, the newest unused code of this email and purpose. */
  function ActiveAmong(codes: Codes, n: nat, email: Text, purpose: Purpose): (r: Option<nat>)
    requires n <= |codes|
    ensures r.Some? ==> r.value < n && Candidate(codes[r.value], email, purpose)
    ensures forall i :: 0 <= i < n && Candidate(codes[i], email, purpose) ==>
      r.Some? && codes[i].createdAt <= codes[r.value].createdAt
  {
    if n == 0 then None
    else
      var best := ActiveAmong(codes, n - 1, email, purpose);
      if Candidate(codes[n - 1], email, purpose) &&
        (best.None? || codes[best.value].createdAt <= codes[n - 1].createdAt)
      then Some(n - 1) else best
  }

  function Active(codes: Codes, email: Text, purpose: Purpose): Option<nat> {
    ActiveAmong(codes, |codes|, email, purpose)
  }

  function Verify(codes: Codes, email: Text, purpose: Purpose, hash: Text, now: int): (Verdict, Codes) {
    match Active(codes, email, purpose)
    case None => (InvalidCode, codes)
    case Some(i) =>
      var row := codes[i];
      if row.expiresAt <= now then (ExpiredCode, codes)
      else if row.attempts >= MAX_ATTEMPTS then (RateLimited, codes)
      else if hash != row.hash then
        var attempts := row.attempts + 1;
        var last := attempts >= MAX_ATTEMPTS;
        (if last then RateLimited else InvalidCode,
         codes[i := row.(attempts := attempts, used := if last then Some(now) else None)])
      else (Accepted(row.userId), codes[i := row.(used := Some(now))])
  }

  class CodeTable {
    var codes: Codes

    constructor ()
      ensures codes == []
    {
      codes := [];
    }

    /** Throws when the window is exhausted; otherwise supersedes and inserts. */
    method IssueAuthCode(userId: Text, email: Text, purpose: Purpose, hash: Text, now: int) returns (issued: bool)
      modifies this
      ensures var r := Issue(old(codes), userId, email, purpose, hash, now);
        issued == r.Some? && codes == if r.Some? then r.value else old(codes)
    {
      if CountAfter(codes, |codes|, email, now - WINDOW_MS) >= ISSUE_MAX { return false; }
      codes := Supersede(codes, userId, purpose, now);
      codes := codes + [Fresh(userId, email, purpose, hash, now)];
      return true;
    }

    method VerifyAndConsume(email: Text, purpose: Purpose, hash: Text, now: int) returns (verdict: Verdict)
      modifies this
      ensures (verdict, codes) == Verify(old(codes), email, purpose, hash, now)
    {
      var active := Active(codes, email, purpose);
      if active.None? { return InvalidCode; }
      var row := codes[active.value];
      if row.expiresAt <= now { return ExpiredCode; }
      if row.attempts >= MAX_ATTEMPTS { return RateLimited; }
      if hash != row.hash {
        var attempts := row.attempts + 1;
        if attempts >= MAX_ATTEMPTS {
          codes := codes[active.value := row.(attempts := attempts, used := Some(now))];
          return RateLimited;
        }
        codes := codes[active.value := row.(attempts := attempts)];
        return InvalidCode;
      }
      codes := codes[active.value := row.(used := Some(now))];
      return Accepted(row.userId);
    }
  }

  // --- Runs ---------------------------------------------------------------------

  /** An account that is deleted with its workspace leaves its codes behind. */
  datatype Event =
    | Issues(userId: Text, purpose: Purpose, hash: Text, now: int)
    | Verifies(email: Text, purpose: Purpose, hash: Text, now: int)
    | Joins(userId: Text, email: Text)
    | Leaves(userId: Text)

  /**
   `accounts` are the emails of the users there are. `accepted` and `usedIds` are history: the ids of the codes
   accepted so far, in order, and every user id there has been.
   */
  datatype Sys = Sys(codes: Codes, clock: int, accepted: seq<nat>, accounts: map<Text, Text>, usedIds: set<Text>)

  /** The clock does not go back, codes are for users that exist, ids are fresh and emails are taken once. */
  ghost predicate Allowed(s: Sys, e: Event) {
    match e
    case Issues(userId, _, _, now) => now >= s.clock && userId in s.accounts
    case Verifies(_, _, _, now) => now >= s.clock
    case Joins(userId, email) => userId !in s.usedIds && forall id :: id in s.accounts ==> s.accounts[id] != email
    case Leaves(_) => true
  }

  function After(s: Sys, e: Event): Sys
    requires e.Issues? ==> e.userId in s.accounts
  {
    match e
    case Issues(userId, purpose, hash, now) =>
      (match Issue(s.codes, userId, s.accounts[userId], purpose, hash, now)
       case None => s.(clock := now)
       case Some(codes) => s.(codes := codes, clock := now))
    case Verifies(email, purpose, hash, now) =>
      var (verdict, codes) := Verify(s.codes, email, purpose, hash, now);
      s.(codes := codes, clock := now,
         accepted := if verdict.Accepted? then s.accepted + [Active(s.codes, email, purpose).value] else s.accepted)
    case Joins(userId, email) => s.(accounts := s.accounts[userId := email], usedIds := s.usedIds + {userId})
    case Leaves(userId) => s.(accounts := s.accounts - {userId})
  }

  /** The events of a run do to the table what the calls do; what is accepted is remembered, and nothing else is. */
  lemma EventsAreCalls(s: Sys, userId: Text, email: Text, purpose: Purpose, hash: Text, now: int)
    requires userId in s.accounts
    ensures var (verdict, after) := Verify(s.codes, email, purpose, hash, now);
      var t := After(s, Verifies(email, purpose, hash, now));
      && t == s.(codes := after, clock := now, accepted := t.accepted)
      && (verdict.Accepted? ==>
            && Active(s.codes, email, purpose).Some?
            && t.accepted == s.accepted + [Active(s.codes, email, purpose).value])
      && (!verdict.Accepted? ==> t.accepted == s.accepted)
    ensures var r := Issue(s.codes, userId, s.accounts[userId], purpose, hash, now);
      After(s, Issues(userId, purpose, hash, now)) ==
        s.(codes := if r.Some? then r.value else s.codes, clock := now)
  {
  }

  ghost predicate Run(trace: seq<Sys>, events: seq<Event>) {
    && |trace| == |events| + 1 && trace[0].codes == [] && trace[0].accepted == []
    && trace[0].accounts == map[] && trace[0].usedIds == {}
    && forall k {:trigger events[k]} :: 0 <= k < |events| ==>
          Allowed(trace[k], events[k]) && trace[k + 1] == After(trace[k], events[k])
  }

  /** Rows are in the order of their creation and live as long as their purpose says. */
  ghost predicate Ordered(s: Sys) {
    && (forall i :: 0 <= i < |s.codes| ==>
          s.codes[i].createdAt <= s.clock && s.codes[i].expiresAt == s.codes[i].createdAt + TtlMs(s.codes[i].purpose))
    && (forall i, j :: 0 <= i < j < |s.codes| ==> s.codes[i].createdAt <= s.codes[j].createdAt)
  }

  /** A user's rows carry the user's email; where another user has a later row with it, the first user is gone. */
  ghost predicate Owned(s: Sys) {
    && s.accounts.Keys <= s.usedIds
    && (forall a, b :: a in s.accounts && b in s.accounts && s.accounts[a] == s.accounts[b] ==> a == b)
    && (forall i :: 0 <= i < |s.codes| ==> s.codes[i].userId in s.usedIds)
    && (forall i :: 0 <= i < |s.codes| && s.codes[i].userId in s.accounts ==>
          s.accounts[s.codes[i].userId] == s.codes[i].email)
    && (forall i, j :: 0 <= i < |s.codes| && 0 <= j < |s.codes| && s.codes[i].userId == s.codes[j].userId ==>
          s.codes[i].email == s.codes[j].email)
    && (forall i, j ::
          (0 <= i < j < |s.codes| && s.codes[i].email == s.codes[j].email && s.codes[i].userId != s.codes[j].userId) ==>
            s.codes[i].userId !in s.accounts)
  }

  /** Only the newest code of a user and purpose can be unused, and an unused one has attempts left. */
  ghost predicate OneUnused(s: Sys) {
    && (forall i, j ::
          (0 <= i < j < |s.codes| && s.codes[i].userId == s.codes[j].userId &&
           s.codes[i].purpose == s.codes[j].purpose) ==>
            s.codes[i].used.Some?)
    && (forall i :: 0 <= i < |s.codes| && s.codes[i].used.None? ==> s.codes[i].attempts < MAX_ATTEMPTS)
  }

  /** When code `j` was created, its email's window had room. */
  ghost predicate HadRoom(codes: Codes, j: nat)
    requires j < |codes|
  {
    CountAfter(codes, j, codes[j].email, codes[j].createdAt - WINDOW_MS) < ISSUE_MAX
  }

  ghost predicate Limited(codes: Codes) {
    forall j :: 0 <= j < |codes| ==> HadRoom(codes, j)
  }

  ghost predicate AcceptedOnce(s: Sys) {
    && (forall a :: 0 <= a < |s.accepted| ==> s.accepted[a] < |s.codes| && s.codes[s.accepted[a]].used.Some?)
    && (forall a, b :: 0 <= a < b < |s.accepted| ==> s.accepted[a] != s.accepted[b])
  }

  ghost predicate Inv(s: Sys) {
    Ordered(s) && Owned(s) && OneUnused(s) && Limited(s.codes) && AcceptedOnce(s)
  }

  /** Counting looks at emails and creation times only. */
  lemma {:induction false} CountDependsOn(a: Codes, b: Codes, n: nat, email: Text, after: int)
    requires n <= |a| && n <= |b| && forall i :: 0 <= i < n ==>
      a[i].email == b[i].email && a[i].createdAt == b[i].createdAt
    ensures CountAfter(a, n, email, after) == CountAfter(b, n, email, after)
  {
    if n > 0 { CountDependsOn(a, b, n - 1, email, after); }
  }

  lemma HadRoomDependsOn(a: Codes, b: Codes, j: nat)
    requires j < |a| && j < |b|
    requires forall i :: 0 <= i <= j ==> a[i].email == b[i].email && a[i].createdAt == b[i].createdAt
    ensures HadRoom(a, j) <==> HadRoom(b, j)
  {
    CountDependsOn(a, b, j, a[j].email, a[j].createdAt - WINDOW_MS);
  }

  /** Rewriting attempt and use marks leaves the window history alone. */
  lemma LimitedStays(a: Codes, b: Codes)
    requires Limited(a) && |a| == |b|
    requires forall i :: 0 <= i < |a| ==> a[i].email == b[i].email && a[i].createdAt == b[i].createdAt
    ensures Limited(b)
  {
    forall j | 0 <= j < |b| ensures HadRoom(b, j) {
      assert HadRoom(a, j);
      HadRoomDependsOn(a, b, j);
    }
  }

  lemma LimitedGrows(a: Codes, b: Codes)
    requires Limited(a) && |b| == |a| + 1 && HadRoom(b, |a|)
    requires forall i :: 0 <= i < |a| ==> a[i].email == b[i].email && a[i].createdAt == b[i].createdAt
    ensures Limited(b)
  {
    forall j | 0 <= j < |a| ensures HadRoom(b, j) {
      assert HadRoom(a, j);
      HadRoomDependsOn(a, b, j);
    }
  }

  lemma IssueKeepsLimited(codes: Codes, userId: Text, email: Text, purpose: Purpose, hash: Text, now: int)
    requires Limited(codes)
    ensures var r := Issue(codes, userId, email, purpose, hash, now); r.Some? ==> Limited(r.value)
  {
    var r := Issue(codes, userId, email, purpose, hash, now);
    if r.Some? {
      CountDependsOn(codes, r.value, |codes|, email, now - WINDOW_MS);
      assert r.value[|codes|] == Fresh(userId, email, purpose, hash, now) && HadRoom(r.value, |codes|);
      LimitedGrows(codes, r.value);
    }
  }

  /** An issue leaves the users, emails and times of the rows alone, and adds one row for the email's account. */
  lemma IssueTouches(codes: Codes, userId: Text, email: Text, purpose: Purpose, hash: Text, now: int)
    ensures var r := Issue(codes, userId, email, purpose, hash, now);
      r.Some? ==>
        && |r.value| == |codes| + 1 && r.value[|codes|] == Fresh(userId, email, purpose, hash, now)
        && forall i :: 0 <= i < |codes| ==> r.value[i] == codes[i].(used := r.value[i].used)
  {
  }

  lemma IssueKeepsRows(s: Sys, e: Event)
    requires Ordered(s) && Owned(s) && e.Issues? && Allowed(s, e)
    ensures Ordered(After(s, e)) && Owned(After(s, e))
  {
    IssueTouches(s.codes, e.userId, s.accounts[e.userId], e.purpose, e.hash, e.now);
  }

  lemma IssueKeeps(s: Sys, e: Event)
    requires Inv(s) && e.Issues? && Allowed(s, e)
    ensures Inv(After(s, e))
  {
    IssueKeepsRows(s, e);
    IssueKeepsLimited(s.codes, e.userId, s.accounts[e.userId], e.purpose, e.hash, e.now);
  }

  /** At most one row changes, and only its attempts and its use mark. */
  lemma VerifyTouches(codes: Codes, email: Text, purpose: Purpose, hash: Text, now: int)
    ensures var (verdict, after) := Verify(codes, email, purpose, hash, now);
      var active := Active(codes, email, purpose);
      && |after| == |codes|
      && (forall i :: 0 <= i < |codes| ==>
            after[i] == codes[i] ||
            (active == Some(i) && after[i] == codes[i].(attempts := after[i].attempts, used := after[i].used) &&
             (after[i].used.None? ==> after[i].attempts < MAX_ATTEMPTS)))
      && (verdict.Accepted? ==> active.Some? && after[active.value].used.Some?)
  {
  }

  /** Marks aside, the rows are the same ones. */
  ghost predicate SameRows(a: Codes, b: Codes) {
    |a| == |b| && forall i :: 0 <= i < |a| ==> b[i] == a[i].(attempts := b[i].attempts, used := b[i].used)
  }

  lemma SameRowsKeep(s: Sys, t: Sys)
    requires Ordered(s) && Owned(s) && SameRows(s.codes, t.codes)
    requires t.clock >= s.clock && t.accounts == s.accounts && t.usedIds == s.usedIds
    ensures Ordered(t) && Owned(t)
  {
  }

  /** The marks of row `i` move on, if any do: used rows stay used, and the row is accepted if it was unused. */
  ghost predicate MarksMove(s: Sys, t: Sys, active: Option<nat>) {
    && |t.codes| == |s.codes|
    && (forall i :: 0 <= i < |s.codes| && active != Some(i) ==> t.codes[i] == s.codes[i])
    && (active.Some? ==> active.value < |s.codes| && s.codes[active.value].used.None?)
    && (active.Some? ==> t.codes[active.value].used.None? ==> t.codes[active.value].attempts < MAX_ATTEMPTS)
    && (t.accepted == s.accepted ||
        (active.Some? && t.codes[active.value].used.Some? && t.accepted == s.accepted + [active.value]))
  }

  lemma MarksKeep(s: Sys, t: Sys, active: Option<nat>)
    requires OneUnused(s) && AcceptedOnce(s) && SameRows(s.codes, t.codes) && MarksMove(s, t, active)
    ensures OneUnused(t) && AcceptedOnce(t)
  {
  }

  lemma VerifyMoves(s: Sys, e: Event)
    requires OneUnused(s) && e.Verifies?
    ensures var t := After(s, e);
      SameRows(s.codes, t.codes) && MarksMove(s, t, Active(s.codes, e.email, e.purpose))
  {
    VerifyTouches(s.codes, e.email, e.purpose, e.hash, e.now);
  }

  lemma VerifyKeeps(s: Sys, e: Event)
    requires Inv(s) && e.Verifies? && Allowed(s, e)
    ensures Inv(After(s, e))
  {
    var t := After(s, e);
    VerifyMoves(s, e);
    SameRowsKeep(s, t);
    MarksKeep(s, t, Active(s.codes, e.email, e.purpose));
    LimitedStays(s.codes, t.codes);
  }

  lemma StepKeeps(s: Sys, e: Event)
    requires Inv(s) && Allowed(s, e)
    ensures Inv(After(s, e))
  {
    match e
    case Issues(_, _, _, _) => IssueKeeps(s, e);
    case Verifies(_, _, _, _) => VerifyKeeps(s, e);
    case _ => AccountsKeep(s, e);
  }

  lemma AccountsKeep(s: Sys, e: Event)
    requires Inv(s) && Allowed(s, e) && (e.Joins? || e.Leaves?)
    ensures Inv(After(s, e))
  {
    OwnedKeeps(s, e);
  }

  lemma OwnedKeeps(s: Sys, e: Event)
    requires Owned(s) && Allowed(s, e) && (e.Joins? || e.Leaves?)
    ensures Owned(After(s, e))
  {
  }

  lemma {:induction false} Reachable(trace: seq<Sys>, events: seq<Event>, k: nat)
    requires Run(trace, events) && k < |trace|
    ensures Inv(trace[k])
  {
    if k > 0 {
      Reachable(trace, events, k - 1);
      StepKeeps(trace[k - 1], events[k - 1]);
    }
  }

  // --- Main results ----------------------------------------------------------------

  /** Each code is accepted at most once; per user and purpose at most one code is unused, with attempts left. */
  lemma CodesAreSingleUse(trace: seq<Sys>, events: seq<Event>, k: nat)
    requires Run(trace, events) && k < |trace|
    ensures var s := trace[k];
      && (forall a, b :: 0 <= a < b < |s.accepted| ==> s.accepted[a] != s.accepted[b])
      && (forall i, j ::
            (0 <= i < |s.codes| && 0 <= j < |s.codes| && s.codes[i].userId == s.codes[j].userId &&
             s.codes[i].purpose == s.codes[j].purpose && s.codes[i].used.None? && s.codes[j].used.None?) ==> i == j)
      && (forall i :: 0 <= i < |s.codes| && s.codes[i].used.None? ==> s.codes[i].attempts < 10)
  {
    Reachable(trace, events, k);
  }

  /**
   Whoever shares whose email: an accepted code was unused, is used now, and no newer code of its user and purpose
   had been issued. The attempt cap checked before the comparison never decides anything.
   */
  lemma NeverAfterNewer(trace: seq<Sys>, events: seq<Event>, k: nat, e: Event)
    requires Run(trace, events) && k < |trace| && e.Verifies?
    ensures var codes := trace[k].codes; var active := Active(codes, e.email, e.purpose);
      var (verdict, after) := Verify(codes, e.email, e.purpose, e.hash, e.now);
      && (active.Some? ==> codes[active.value].attempts < 10)
      && (verdict.Accepted? ==>
            && active.Some? && codes[active.value].userId == verdict.userId && codes[active.value].hash == e.hash
            && codes[active.value].used.None? &&
                  after == codes[active.value := codes[active.value].(used := Some(e.now))]
            && (forall j :: active.value < j < |codes| ==>
                  codes[j].userId != verdict.userId || codes[j].purpose != e.purpose))
  {
    Reachable(trace, events, k);
  }

  /** No row after this one has its email and purpose. */
  predicate Newest(codes: Codes, i: nat)
    requires i < |codes|
  {
    forall j :: i < j < |codes| ==> codes[j].email != codes[i].email || codes[j].purpose != codes[i].purpose
  }

  /** What a user of the email expects: the accepted code is the newest one of the email and purpose, and theirs. */
  ghost predicate AcceptsOwnNewest(codes: Codes, email: Text, purpose: Purpose, hash: Text, now: int, userId: Text) {
    var active := Active(codes, email, purpose);
    Verify(codes, email, purpose, hash, now).0.Accepted? ==>
      active.Some? && Newest(codes, active.value) && codes[active.value].userId == userId
  }

  /** The user holds an unused code, or nobody else holds one that is still good. */
  predicate NothingLeftOver(s: Sys, email: Text, purpose: Purpose, userId: Text) {
    || (exists i :: 0 <= i < |s.codes| && Candidate(s.codes[i], email, purpose) && s.codes[i].userId == userId)
    || (forall i :: 0 <= i < |s.codes| && Candidate(s.codes[i], email, purpose) && s.codes[i].expiresAt > s.clock ==>
          s.codes[i].userId == userId)
  }

  /** The current account's unused code comes after all others of its email, and is the active one. */
  lemma OwnCodeIsActive(s: Sys, email: Text, purpose: Purpose, userId: Text, i: nat)
    requires Inv(s) && userId in s.accounts && s.accounts[userId] == email
    requires i < |s.codes| && Candidate(s.codes[i], email, purpose) && s.codes[i].userId == userId
    ensures Active(s.codes, email, purpose) == Some(i) && Newest(s.codes, i)
  {
    forall j | i < j < |s.codes| && s.codes[j].email == email ensures s.codes[j].purpose != purpose {
      assert s.codes[j].userId == userId;
    }
    ActiveIsLast(s.codes, |s.codes|, email, purpose, i);
  }

  /** Of rows in order of creation the active one is the last unused one, also among equal times. */
  lemma {:induction false} ActiveIsLast(codes: Codes, n: nat, email: Text, purpose: Purpose, i: nat)
    requires i < n <= |codes| && Candidate(codes[i], email, purpose)
    requires forall a, b :: 0 <= a < b < |codes| ==> codes[a].createdAt <= codes[b].createdAt
    requires forall j :: i < j < n ==> !Candidate(codes[j], email, purpose)
    ensures ActiveAmong(codes, n, email, purpose) == Some(i)
  {
    if n - 1 > i { ActiveIsLast(codes, n - 1, email, purpose, i); }
  }

  /** The one code that a guess may be accepted for, seen from the email's current user. */
  ghost predicate OwnMatch(codes: Codes, i: nat, email: Text, purpose: Purpose, hash: Text, now: int, userId: Text) {
    && i < |codes| && Candidate(codes[i], email, purpose) && codes[i].userId == userId && Newest(codes, i)
    && codes[i].expiresAt > now && codes[i].hash == hash
  }

  lemma OwnCodeDecides(s: Sys, email: Text, purpose: Purpose, hash: Text, now: int, userId: Text, i: nat)
    requires Inv(s) && userId in s.accounts && s.accounts[userId] == email && now >= s.clock
    requires i < |s.codes| && Candidate(s.codes[i], email, purpose) && s.codes[i].userId == userId
    ensures AcceptsOwnNewest(s.codes, email, purpose, hash, now, userId)
    ensures Verify(s.codes, email, purpose, hash, now).0.Accepted? <==>
      exists i: nat :: OwnMatch(s.codes, i, email, purpose, hash, now, userId)
  {
    OwnCodeIsActive(s, email, purpose, userId, i);
    var match_ := s.codes[i].expiresAt > now && s.codes[i].hash == hash;
    assert Verify(s.codes, email, purpose, hash, now).0.Accepted? <==> match_;
    if match_ { assert OwnMatch(s.codes, i, email, purpose, hash, now, userId); }
    forall j: nat | OwnMatch(s.codes, j, email, purpose, hash, now, userId) ensures j == i {
      OwnCodeIsActive(s, email, purpose, userId, j);
    }
  }

  lemma NothingGoodDecides(s: Sys, email: Text, purpose: Purpose, hash: Text, now: int, userId: Text)
    requires NothingLeftOver(s, email, purpose, userId) && now >= s.clock
    requires forall i :: 0 <= i < |s.codes| && Candidate(s.codes[i], email, purpose) ==> s.codes[i].userId != userId
    ensures !Verify(s.codes, email, purpose, hash, now).0.Accepted?
    ensures forall i: nat :: !OwnMatch(s.codes, i, email, purpose, hash, now, userId)
  {
  }

  lemma NothingLeftOverDecides(s: Sys, email: Text, purpose: Purpose, hash: Text, now: int, userId: Text)
    requires Inv(s) && userId in s.accounts && s.accounts[userId] == email && now >= s.clock
    requires NothingLeftOver(s, email, purpose, userId)
    ensures AcceptsOwnNewest(s.codes, email, purpose, hash, now, userId)
    ensures Verify(s.codes, email, purpose, hash, now).0.Accepted? <==>
      exists i: nat :: OwnMatch(s.codes, i, email, purpose, hash, now, userId)
  {
    if i :| 0 <= i < |s.codes| && Candidate(s.codes[i], email, purpose) && s.codes[i].userId == userId {
      OwnCodeDecides(s, email, purpose, hash, now, userId, i);
    } else {
      NothingGoodDecides(s, email, purpose, hash, now, userId);
    }
  }

  lemma LeftoverDecides(s: Sys, email: Text, purpose: Purpose, userId: Text)
    requires Inv(s) && !NothingLeftOver(s, email, purpose, userId)
    ensures var active := Active(s.codes, email, purpose);
      active.Some? && !AcceptsOwnNewest(s.codes, email, purpose, s.codes[active.value].hash, s.clock, userId)
  {
    var active := Active(s.codes, email, purpose);
    var i :| 0 <= i < |s.codes| && Candidate(s.codes[i], email, purpose) && s.codes[i].expiresAt > s.clock &&
      s.codes[i].userId != userId;
    assert s.codes[i].createdAt <= s.codes[active.value].createdAt;
  }

  /**
   Exactly when every acceptance is as the email's current user expects, whatever is guessed from now on: when the
   user holds an unused code, or no leftover code of an earlier account of the email is still good.
   */
  lemma AcceptanceIsOwnExactlyWhen(trace: seq<Sys>, events: seq<Event>, k: nat, email: Text, purpose: Purpose,
        userId: Text)
    requires Run(trace, events) && k < |trace| && userId in trace[k].accounts && trace[k].accounts[userId] == email
    ensures (forall hash, now :: now >= trace[k].clock ==>
      AcceptsOwnNewest(trace[k].codes, email, purpose, hash, now, userId)) <==>
      NothingLeftOver(trace[k], email, purpose, userId)
  {
    Reachable(trace, events, k);
    var s := trace[k];
    if NothingLeftOver(s, email, purpose, userId) {
      forall hash, now | now >= s.clock ensures AcceptsOwnNewest(s.codes, email, purpose, hash, now, userId) {
        NothingLeftOverDecides(s, email, purpose, hash, now, userId);
      }
    } else {
      LeftoverDecides(s, email, purpose, userId);
    }
  }

  /**
   In that case a guess is accepted exactly when it is the newest code issued for the email and purpose, is the
   user's own, unused and unexpired.
   */
  lemma AcceptedExactlyWhenNewest(
      trace: seq<Sys>, events: seq<Event>, k: nat, email: Text, purpose: Purpose, hash: Text, now: int, userId: Text)
    requires Run(trace, events) && k < |trace| && userId in trace[k].accounts && trace[k].accounts[userId] == email
    requires NothingLeftOver(trace[k], email, purpose, userId) && now >= trace[k].clock
    ensures Verify(trace[k].codes, email, purpose, hash, now).0.Accepted? <==>
      exists i: nat :: OwnMatch(trace[k].codes, i, email, purpose, hash, now, userId)
  {
    Reachable(trace, events, k);
    NothingLeftOverDecides(trace[k], email, purpose, hash, now, userId);
  }

  /** One code of another user in the table: the email's next user gets theirs, redeems it, and the first is active. */
  lemma LeftoverOutlives(u: Text, v: Text, email: Text, h: Text, g: Text)
    requires u != v && h != g
    ensures var (old_, new_) := (Fresh(u, email, Setup, h, 0), Fresh(v, email, Setup, g, 1));
      var spent := [old_, new_.(used := Some(2))];
      && Issue([], u, email, Setup, h, 0) == Some([old_])
      && Issue([old_], v, email, Setup, g, 1) == Some([old_, new_])
      && Verify([old_, new_], email, Setup, g, 2) == (Accepted(v), spent)
      && Verify(spent, email, Setup, h, 3).0 == Accepted(u)
  {
    var (old_, new_) := (Fresh(u, email, Setup, h, 0), Fresh(v, email, Setup, g, 1));
    var spent := [old_, new_.(used := Some(2))];
    assert Supersede([], u, Setup, 0) == [] && Supersede([old_], v, Setup, 1) == [old_];
    assert CountAfter([old_], 0, email, 1 - WINDOW_MS) == 0 && CountAfter([old_], 1, email, 1 - WINDOW_MS) == 1;
    assert [] + [old_] == [old_] && [old_] + [new_] == [old_, new_];
    assert [old_, new_][1 := new_.(used := Some(2))] == spent;
    assert Active([], email, Setup) == None && Active([old_, new_], email, Setup) == Some(1);
    assert ActiveAmong(spent, 1, email, Setup) == Some(0) && Active(spent, email, Setup) == Some(0);
  }

  /**
   A run in which it is not: a user leaves with an unused code, another user gets the email and redeems a newer
   code, and then the first user's code is accepted.
   */
  lemma LeftoverCodeIsAccepted(u: Text, v: Text, email: Text, h: Text, g: Text)
    returns (trace: seq<Sys>, events: seq<Event>)
    requires u != v && h != g
    ensures events == [Joins(u, email), Issues(u, Setup, h, 0), Leaves(u), Joins(v, email), Issues(v, Setup, g, 1),
                       Verifies(email, Setup, g, 2)]
    ensures Run(trace, events) && trace[6].accounts == map[v := email] && trace[6].accepted == [1]
    ensures Verify(trace[6].codes, email, Setup, h, 3).0 == Accepted(u)
  {
    trace, events := LeavesCodeBehind(u, email, h);
    assert |events| == 3;
    trace, events := NewerIsRedeemed(u, v, email, h, g, trace, events);
    LeftoverOutlives(u, v, email, h, g);
  }

  lemma LeavesCodeBehind(u: Text, email: Text, h: Text) returns (trace: seq<Sys>, events: seq<Event>)
    ensures Run(trace, events) && events == [Joins(u, email), Issues(u, Setup, h, 0), Leaves(u)]
    ensures trace[|events|] == Sys([Fresh(u, email, Setup, h, 0)], 0, [], map[], {u})
  {
    AccountSteps([], u, email, {});
    AccountSteps([Fresh(u, email, Setup, h, 0)], u, email, {u});
    FirstIssue(u, email, h);
    trace, events := [Sys([], 0, [], map[], {})], [];
    trace, events := Extend(trace, events, Joins(u, email));
    trace, events := Extend(trace, events, Issues(u, Setup, h, 0));
    trace, events := Extend(trace, events, Leaves(u));
  }

  lemma FirstIssue(u: Text, email: Text, h: Text)
    ensures After(Sys([], 0, [], map[u := email], {u}), Issues(u, Setup, h, 0)) ==
      Sys([Fresh(u, email, Setup, h, 0)], 0, [], map[u := email], {u})
  {
    assert Supersede([], u, Setup, 0) == [] && [] + [Fresh(u, email, Setup, h, 0)] == [Fresh(u, email, Setup, h, 0)];
  }

  lemma NewerIsRedeemed(u: Text, v: Text, email: Text, h: Text, g: Text, trace: seq<Sys>, events: seq<Event>)
    returns (longer: seq<Sys>, more: seq<Event>)
    requires u != v && h != g && Run(trace, events)
    requires trace[|events|] == Sys([Fresh(u, email, Setup, h, 0)], 0, [], map[], {u})
    ensures Run(longer, more)
    ensures more == events + [Joins(v, email), Issues(v, Setup, g, 1), Verifies(email, Setup, g, 2)]
    ensures longer[|more|] == Sys(
      [Fresh(u, email, Setup, h, 0), Fresh(v, email, Setup, g, 1).(used := Some(2))], 2, [1], map[v := email], {u, v})
  {
    AccountSteps([Fresh(u, email, Setup, h, 0)], v, email, {u});
    LastSteps(u, v, email, h, g);
    longer, more := Extend(trace, events, Joins(v, email));
    longer, more := Extend(longer, more, Issues(v, Setup, g, 1));
    longer, more := Extend(longer, more, Verifies(email, Setup, g, 2));
  }

  /** One more event of a run. */
  lemma Extend(trace: seq<Sys>, events: seq<Event>, e: Event) returns (longer: seq<Sys>, more: seq<Event>)
    requires Run(trace, events) && Allowed(trace[|events|], e)
    ensures Run(longer, more) && more == events + [e] && longer[|more|] == After(trace[|events|], e)
  {
    longer, more := trace + [After(trace[|events|], e)], events + [e];
  }

  lemma AccountSteps(codes: Codes, id: Text, email: Text, used: set<Text>)
    ensures After(Sys(codes, 0, [], map[], used), Joins(id, email)) ==
      Sys(codes, 0, [], map[id := email], used + {id})
    ensures After(Sys(codes, 0, [], map[id := email], used), Leaves(id)) == Sys(codes, 0, [], map[], used)
  {
    assert map[id := email] - {id} == map[];
  }

  lemma LastSteps(u: Text, v: Text, email: Text, h: Text, g: Text)
    requires u != v && h != g
    ensures var (old_, new_) := (Fresh(u, email, Setup, h, 0), Fresh(v, email, Setup, g, 1));
      var (used, accounts) := ({u, v}, map[v := email]);
      && After(Sys([old_], 0, [], accounts, used), Issues(v, Setup, g, 1)) ==
           Sys([old_, new_], 1, [], accounts, used)
      && After(Sys([old_, new_], 1, [], accounts, used), Verifies(email, Setup, g, 2)) ==
           Sys([old_, new_.(used := Some(2))], 2, [1], accounts, used)
  {
    LeftoverOutlives(u, v, email, h, g);
    var (old_, new_) := (Fresh(u, email, Setup, h, 0), Fresh(v, email, Setup, g, 1));
    assert Active([old_, new_], email, Setup) == Some(1);
  }

  /**
   A wrong guess changes nothing but the attempt bookkeeping of one code; the tenth uses the code up. The answer tells
   apart an unknown, an expired and a spent code.
   */
  lemma WrongGuessOnlyCounts(codes: Codes, email: Text, purpose: Purpose, hash: Text, now: int)
    ensures var (verdict, after) := Verify(codes, email, purpose, hash, now);
      match Active(codes, email, purpose)
      case None => verdict == InvalidCode && after == codes && forall c :: c in codes ==> !Candidate(c, email, purpose)
      case Some(i) =>
        i < |codes| && Candidate(codes[i], email, purpose) &&
        if codes[i].expiresAt <= now then verdict == ExpiredCode && after == codes
        else if codes[i].attempts >= 10 then verdict == RateLimited && after == codes
        else if hash == codes[i].hash then verdict == Accepted(codes[i].userId)
        else
          && |after| == |codes| && after == codes[i := after[i]]
          && after[i] == codes[i].(attempts := codes[i].attempts + 1, used := after[i].used)
          && after[i].used == (if codes[i].attempts == 9 then Some(now) else None)
          && verdict == if codes[i].attempts == 9 then RateLimited else InvalidCode
  {
  }

  function CountWithin(codes: Codes, n: nat, email: Text, from: int, to: int): nat
    requires n <= |codes|
  {
    if n == 0 then 0
    else
      CountWithin(codes, n - 1, email, from, to) +
      (if codes[n - 1].email == email && from < codes[n - 1].createdAt <= to then 1 else 0)
  }

  lemma {:induction false} WithinIsAfter(codes: Codes, n: nat, email: Text, from: int, to: int, after: int)
    requires n <= |codes| && after <= from
    ensures CountWithin(codes, n, email, from, to) <= CountAfter(codes, n, email, after)
  {
    if n > 0 { WithinIsAfter(codes, n - 1, email, from, to, after); }
  }

  lemma {:induction false} WindowHolds(codes: Codes, n: nat, email: Text, from: int)
    requires Limited(codes) && n <= |codes|
    ensures CountWithin(codes, n, email, from, from + 900_000) <= 5
  {
    if n > 0 {
      WindowHolds(codes, n - 1, email, from);
      if codes[n - 1].email == email && from < codes[n - 1].createdAt <= from + WINDOW_MS {
        assert HadRoom(codes, n - 1);
        WithinIsAfter(codes, n - 1, email, from, from + WINDOW_MS, codes[n - 1].createdAt - WINDOW_MS);
      }
    }
  }

  /** Of the first `n` codes those of an email that were created after one moment and not after another. */
  function CreatedWithin(codes: Codes, n: nat, email: Text, from: int, to: int): set<nat>
    requires n <= |codes|
  {
    set i: nat | i < n && IsWithin(codes[i], email, from, to)
  }

  predicate IsWithin(code: Code, email: Text, from: int, to: int) {
    code.email == email && from < code.createdAt && code.createdAt <= to
  }

  lemma {:induction false} WithinCounts(codes: Codes, n: nat, email: Text, from: int, to: int)
    requires n <= |codes|
    ensures CountWithin(codes, n, email, from, to) == |CreatedWithin(codes, n, email, from, to)|
  {
    if n > 0 {
      WithinCounts(codes, n - 1, email, from, to);
      OneMoreWithin(codes, n - 1, email, from, to);
    }
  }

  lemma OneMoreWithin(codes: Codes, n: nat, email: Text, from: int, to: int)
    requires n < |codes|
    ensures |CreatedWithin(codes, n + 1, email, from, to)| ==
      |CreatedWithin(codes, n, email, from, to)| + if IsWithin(codes[n], email, from, to) then 1 else 0
  {
    var (before, after) := (CreatedWithin(codes, n, email, from, to), CreatedWithin(codes, n + 1, email, from, to));
    forall i: nat ensures i in after <==> i in before || (i == n && IsWithin(codes[n], email, from, to)) {}
    SizeGrows(before, after, n, IsWithin(codes[n], email, from, to));
  }

  lemma SizeGrows(before: set<nat>, after: set<nat>, n: nat, more: bool)
    requires n !in before && forall i: nat :: i in after <==> i in before || (i == n && more)
    ensures |after| == |before| + if more then 1 else 0
  {
    assert after == if more then before + {n} else before;
  }

  /** Every window of 15 minutes, wherever it starts, holds at most 5 codes of an email, both purposes together. */
  lemma SlidingWindowBound(trace: seq<Sys>, events: seq<Event>, k: nat, email: Text, from: int)
    requires Run(trace, events) && k < |trace|
    ensures |CreatedWithin(trace[k].codes, |trace[k].codes|, email, from, from + 900_000)| <= 5
  {
    Reachable(trace, events, k);
    WindowHolds(trace[k].codes, |trace[k].codes|, email, from);
    WithinCounts(trace[k].codes, |trace[k].codes|, email, from, from + 900_000);
  }

  lemma {:induction false} AfterIsWithin(codes: Codes, n: nat, email: Text, after: int, now: int)
    requires n <= |codes| && forall i :: 0 <= i < |codes| ==> codes[i].createdAt <= now
    ensures CountAfter(codes, n, email, after) == CountWithin(codes, n, email, after, now)
  {
    if n > 0 { AfterIsWithin(codes, n - 1, email, after, now); }
  }

  /**
   Over every run: a code is refused exactly when five of its email were created in the 15 minutes before, and else is
   the account's only unused one of its purpose, under the account's email, with no guess made yet.
   */
  lemma IssuedExactlyWhen(trace: seq<Sys>, events: seq<Event>, k: nat, userId: Text, purpose: Purpose, hash: Text,
        now: int)
    requires Run(trace, events) && k < |trace| && userId in trace[k].accounts && now >= trace[k].clock
    ensures var (codes, email) := (trace[k].codes, trace[k].accounts[userId]);
      var r := Issue(codes, userId, email, purpose, hash, now);
      && (r.None? <==> |CreatedWithin(codes, |codes|, email, now - 900_000, now)| >= 5)
      && (r.Some? ==>
            && |r.value| == |codes| + 1
            && r.value[|codes|].userId == userId && r.value[|codes|].email == email
            && r.value[|codes|].purpose == purpose && r.value[|codes|].hash == hash
            && r.value[|codes|].attempts == 0 && r.value[|codes|].createdAt == now && r.value[|codes|].used == None
            && forall i :: 0 <= i < |codes| ==>
                 r.value[i] == if codes[i].userId == userId && codes[i].purpose == purpose && codes[i].used.None?
                               then codes[i].(used := Some(now)) else codes[i])
  {
    Reachable(trace, events, k);
    AfterIsWithin(trace[k].codes, |trace[k].codes|, trace[k].accounts[userId], now - 900_000, now);
    WithinCounts(trace[k].codes, |trace[k].codes|, trace[k].accounts[userId], now - 900_000, now);
  }

  // --- Lifetimes -----------------------------------------------------------------------

  lemma RowStays(s: Sys, e: Event, i: nat)
    requires OneUnused(s) && Allowed(s, e) && i < |s.codes|
    ensures var t := After(s, e);
      i < |t.codes| && t.codes[i] == s.codes[i].(attempts := t.codes[i].attempts, used := t.codes[i].used)
  {
    match e
    case Issues(userId, purpose, hash, now) => IssueTouches(s.codes, userId, s.accounts[userId], purpose, hash, now);
    case Verifies(_, _, _, _) => VerifyMoves(s, e);
    case _ =>
  }

  lemma {:induction false} RowsStay(trace: seq<Sys>, events: seq<Event>, m: nat, k: nat, i: nat)
    requires Run(trace, events) && m <= k < |trace| && i < |trace[m].codes|
    ensures var (a, b) := (trace[m].codes, trace[k].codes);
      i < |b| && b[i] == a[i].(attempts := b[i].attempts, used := b[i].used)
  {
    if m < k {
      RowsStay(trace, events, m, k - 1, i);
      Reachable(trace, events, k - 1);
      RowStays(trace[k - 1], events[k - 1], i);
    }
  }

  /**
   Over every run: while a code is the active one, its guess is accepted for seven days if it is a setup code, and for
   one hour if it is a reset code, and never afterwards.
   */
  lemma CodesLastExactly(trace: seq<Sys>, events: seq<Event>, n: nat, k: nat, email: Text, guess: Text, now: int)
    requires Run(trace, events) && n < k < |trace| && events[n].Issues? && |trace[n + 1].codes| > |trace[n].codes|
    requires Active(trace[k].codes, email, events[n].purpose) == Some(|trace[n].codes|)
    ensures var Issues(userId, purpose, hash, t) := events[n];
      var verdict := Verify(trace[k].codes, email, purpose, guess, now).0;
      && (verdict.Accepted? <==> guess == hash && now - t < if purpose == Setup then 604_800_000 else 3_600_000)
      && (verdict.Accepted? ==> verdict.userId == userId && trace[n].accounts[userId] == email)
      && (verdict.ExpiredCode? <==> now - t >= if purpose == Setup then 604_800_000 else 3_600_000)
  {
    var i := |trace[n].codes|;
    Reachable(trace, events, k);
    assert trace[n + 1] == After(trace[n], events[n]) && Allowed(trace[n], events[n]);
    IssueTouches(trace[n].codes, events[n].userId, trace[n].accounts[events[n].userId], events[n].purpose,
      events[n].hash, events[n].now);
    RowsStay(trace, events, n + 1, k, i);
  }

  /** Every row was inserted by an issue. */
  lemma {:induction false} IssuedBy(trace: seq<Sys>, events: seq<Event>, k: nat, i: nat) returns (n: nat)
    requires Run(trace, events) && k < |trace| && i < |trace[k].codes|
    ensures n < k && n < |events| && events[n].Issues? && |trace[n].codes| == i && |trace[n + 1].codes| == i + 1
  {
    assert k > 0;
    assert trace[k] == After(trace[k - 1], events[k - 1]) && Allowed(trace[k - 1], events[k - 1]);
    if i < |trace[k - 1].codes| {
      n := IssuedBy(trace, events, k - 1, i);
    } else {
      n := k - 1;
    }
  }

  /**
   Over every run: whatever guess is accepted was issued to that user, for that email and purpose, and not longer ago
   than a code of the purpose lives.
   */
  lemma AcceptedIsRecent(trace: seq<Sys>, events: seq<Event>, k: nat, email: Text, purpose: Purpose, guess: Text,
        now: int)
    returns (n: nat)
    requires Run(trace, events) && k < |trace| && Verify(trace[k].codes, email, purpose, guess, now).0.Accepted?
    ensures n < k && n < |events| && events[n].Issues? && events[n].purpose == purpose && events[n].hash == guess
    ensures Verify(trace[k].codes, email, purpose, guess, now).0.userId == events[n].userId
    ensures events[n].userId in trace[n].accounts && trace[n].accounts[events[n].userId] == email
    ensures now - events[n].now < if purpose == Setup then 604_800_000 else 3_600_000
  {
    var i := Active(trace[k].codes, email, purpose).value;
    n := IssuedBy(trace, events, k, i);
    assert trace[n + 1] == After(trace[n], events[n]) && Allowed(trace[n], events[n]);
    IssueTouches(trace[n].codes, events[n].userId, trace[n].accounts[events[n].userId], events[n].purpose,
      events[n].hash, events[n].now);
    RowsStay(trace, events, n + 1, k, i);
    CodesLastExactly(trace, events, n, k, email, guess, now);
  }
}
