/** The rows the identity adapter works on. Emails are in their normalised form. */
module IdentityTables {
  import opened Wrappers
  import opened JsonText
  import opened AuthKv
  import Codes = AuthCodes

  datatype Status = Pending | Active | Disabled

  datatype User = User(email: Text, status: Status, disabledAt: Option<int>, subject: Option<Text>, mustChange: bool)

  /** `userId` is absent while the identity awaits its user; `email` is only kept until then. */
  datatype Session = Session(userId: Option<Text>, email: Option<Text>, subject: Option<Text>, refresh: Option<Text>,
        expiresAt: int)

  type Sessions = map<Text, Session>

  /** `members` are the (workspace, user) pairs; sessions are filed under their token hash. */
  datatype Db = Db(users: map<Text, User>, members: set<(Text, Text)>, codes: Codes.Codes, sessions: Sessions, kv: Rows)

  // --- Keys -------------------------------------------------------------------

  const EMAIL: Text := [0x65, 0x6d, 0x61, 0x69, 0x6c]
  const PASSWORD: Text := [0x70, 0x61, 0x73, 0x73, 0x77, 0x6f, 0x72, 0x64]
  const REFRESH: Text := [0x6f, 0x61, 0x75, 0x74, 0x68, 0x3a, 0x72, 0x65, 0x66, 0x72, 0x65, 0x73, 0x68]

  function PasswordKey(email: Text): Text { JoinKey([EMAIL, email, PASSWORD]) }

  /** Each email has its own password key. */
  lemma PasswordKeysDiffer(a: Text, b: Text)
    ensures PasswordKey(a) == PasswordKey(b) <==> a == b
  {
    PasswordKeyParts(a);
    PasswordKeyParts(b);
    var n := |EMAIL| + 1;
    if PasswordKey(a) == PasswordKey(b) {
      assert |a| == |b|;
      assert a == PasswordKey(a)[n..n + |a|] == PasswordKey(b)[n..n + |b|] == b;
    }
  }

  lemma PasswordKeyParts(email: Text)
    ensures PasswordKey(email) == EMAIL + [SEPARATOR] + email + [SEPARATOR] + PASSWORD
  {
    assert [EMAIL, email, PASSWORD] == [EMAIL] + [email, PASSWORD];
    assert [email, PASSWORD] == [email] + [PASSWORD];
    JoinCons(EMAIL, [email, PASSWORD]);
    JoinCons(email, [PASSWORD]);
  }

  /** The email's credential, if it has a live one. */
  function Credential(kv: Rows, email: Text, now: int): Option<Text> {
    if PasswordKey(email) in kv && LiveRow(kv[PasswordKey(email)], now) then Some(kv[PasswordKey(email)].value)
    else None
  }

  /** Every refresh-token key of a subject starts with this. */
  function RefreshPrefix(subject: Text): Text { JoinKey([REFRESH, subject]) + [SEPARATOR] }

  /** Among the first `n` units, the place of the last colon, or -1. */
  function LastColon(token: Text, n: nat): (r: int)
    requires n <= |token|
    ensures -1 <= r < n && (r >= 0 ==> token[r] == COLON)
    ensures forall i :: r < i < n ==> token[i] != COLON
  {
    if n == 0 then -1 else if token[n - 1] == COLON then n - 1 else LastColon(token, n - 1)
  }

  /** Where the token "subject:id" is kept; none for a token without a subject. */
  function RefreshKey(token: Text): Option<Text> {
    var colon := LastColon(token, |token|);
    if colon <= 0 then None else Some(JoinKey([REFRESH, token[..colon], token[colon + 1..]]))
  }

  /** The keys as they are spelled in the store. */
  lemma KeysSpelled(email: Text, subject: Text)
    ensures PasswordKey(email) == Ascii("email") + [0x1f] + email + [0x1f] + Ascii("password")
    ensures RefreshPrefix(subject) == Ascii("oauth:refresh") + [0x1f] + subject + [0x1f]
  {
    PasswordKeyParts(email);
    assert EMAIL == Ascii("email") && PASSWORD == Ascii("password") && REFRESH == Ascii("oauth:refresh");
    assert [REFRESH, subject] == [REFRESH] + [subject];
    JoinCons(REFRESH, [subject]);
  }

  /** A token "subject:id" is kept under its two parts; the subject may hold colons, and a token without one is none. */
  lemma RefreshKeyIs(subject: Text, id: Text)
    requires 0x3a !in id
    ensures RefreshKey(subject + [0x3a] + id) ==
      if subject == [] then None else Some(Ascii("oauth:refresh") + [0x1f] + subject + [0x1f] + id)
    ensures RefreshKey(id) == None
  {
    var token := subject + [0x3a] + id;
    var colon := LastColon(token, |token|);
    assert token[|subject|] == 0x3a;
    assert forall i :: |subject| < i < |token| ==> token[i] == id[i - |subject| - 1];
    assert colon == |subject| && token[..colon] == subject && token[colon + 1..] == id;
    assert REFRESH == Ascii("oauth:refresh");
    assert [REFRESH, subject, id] == [REFRESH] + [subject, id] && [subject, id] == [subject] + [id];
    JoinCons(REFRESH, [subject, id]);
    JoinCons(subject, [id]);
    assert JoinKey([REFRESH, subject, id]) == REFRESH + [SEPARATOR] + subject + [SEPARATOR] + id;
  }

  /** Keys of the login store begin with their first segment. */
  lemma KeyStarts(segment: Text, rest: Segments)
    requires |segment| > 0
    ensures |JoinKey([segment] + rest)| > 0 && JoinKey([segment] + rest)[0] == segment[0]
  {
    if |rest| > 0 { JoinCons(segment, rest); }
  }

  /** A password key is no refresh key, not even up to case. */
  lemma PasswordIsNoRefresh(email: Text, subject: Text)
    ensures !StartsFolded(RefreshPrefix(subject), PasswordKey(email))
  {
    KeyStarts(EMAIL, [email, PASSWORD]);
    KeyStarts(REFRESH, [subject]);
    assert [EMAIL] + [email, PASSWORD] == [EMAIL, email, PASSWORD];
    assert [REFRESH] + [subject] == [REFRESH, subject];
    var prefix, key := RefreshPrefix(subject), PasswordKey(email);
    assert prefix[0] == REFRESH[0] && key[0] == EMAIL[0];
    if |prefix| <= |key| { assert FoldAll(prefix)[0] != FoldAll(key[..|prefix|])[0]; }
  }

  // --- Ending sessions ----------------------------------------------------------

  /** The key of the refresh token behind a session, if it is a session of the user. */
  function TokenOf(s: Session, userId: Text): Option<Text> {
    if s.userId == Some(userId) && s.refresh.Some? then RefreshKey(s.refresh.value) else None
  }

  /** The refresh keys of a user's sessions. */
  function TokenKeys(sessions: Sessions, userId: Text): set<Text> {
    set id | id in sessions && TokenOf(sessions[id], userId).Some? :: TokenOf(sessions[id], userId).value
  }

  function OthersSessions(sessions: Sessions, userId: Text): Sessions {
    map id | id in sessions && sessions[id].userId != Some(userId) :: sessions[id]
  }

  function EndSessions(d: Db, userId: Text): Db {
    d.(sessions := OthersSessions(d.sessions, userId), kv := d.kv - TokenKeys(d.sessions, userId))
  }

  /** The user's sessions are gone with the tokens they were opened with; nothing else is. */
  lemma EndingIs(d: Db, userId: Text)
    ensures var after := EndSessions(d, userId);
      && after.users == d.users && after.members == d.members && after.codes == d.codes
      && (forall id :: id in after.sessions <==> id in d.sessions && d.sessions[id].userId != Some(userId))
      && (forall id :: id in after.sessions ==> after.sessions[id] == d.sessions[id])
      && (forall key :: key in after.kv ==> key in d.kv && after.kv[key] == d.kv[key])
      && (forall key :: key in d.kv && key !in after.kv ==>
            exists id :: id in d.sessions && OpenedWith(d, id, userId, key))
      && (forall id, key :: id in d.sessions && OpenedWith(d, id, userId, key) ==> key !in after.kv)
  {
  }

  /** A session of the user, opened with the token kept under this key. */
  predicate OpenedWith(d: Db, id: Text, userId: Text, key: Text)
    requires id in d.sessions
  {
    && d.sessions[id].userId == Some(userId) && d.sessions[id].refresh.Some?
    && RefreshKey(d.sessions[id].refresh.value) == Some(key)
  }

  /** The live rows a scan for the subject's refresh tokens finds. */
  function SubjectTokens(kv: Rows, subject: Text, now: int): set<Text> {
    set key | key in kv && LiveRow(kv[key], now) && StartsFolded(RefreshPrefix(subject), key)
  }

  /** invalidateSubjectRefreshTokens: the scan cleans up expired rows, then each found key is removed. */
  function Invalidated(kv: Rows, subject: Text, now: int): Rows {
    Cleaned(kv, now) - SubjectTokens(kv, subject, now)
  }

  /** No live refresh token of the subject is left, and nothing but expired rows and refresh tokens is lost. */
  lemma InvalidatedLeaves(kv: Rows, subject: Text, now: int)
    ensures var r := Invalidated(kv, subject, now);
      && (forall key :: key in r && RefreshPrefix(subject) <= key ==> !LiveRow(r[key], now))
      && (forall key :: key in r ==> key in kv && r[key] == kv[key])
      && (forall key :: key in kv && LiveRow(kv[key], now) && !StartsFolded(RefreshPrefix(subject), key) ==> key in r)
  {
    var r := Invalidated(kv, subject, now);
    forall key | key in r && RefreshPrefix(subject) <= key ensures !LiveRow(r[key], now) {
      assert key[..|RefreshPrefix(subject)|] == RefreshPrefix(subject);
    }
  }

  class Tables {
    var sessions: Sessions
    const kv: KvStore

    constructor (kv: KvStore)
      ensures this.kv == kv && sessions == map[]
    {
      this.kv := kv;
      sessions := map[];
    }

    /** The email's credential from now on, at any time; no other email's credential and no other row changes. */
    method SetPassword(email: Text, credential: Text)
      modifies kv
      ensures kv.rows == old(kv.rows)[PasswordKey(email) := Row(credential, None)]
      ensures forall other, now ::
        Credential(kv.rows, other, now) ==
        if other == email then Some(credential) else Credential(old(kv.rows), other, now)
    {
      kv.Set(PasswordKey(email), credential, None);
      forall other { PasswordKeysDiffer(email, other); }
    }

    /** Whether the email has one; the lookup drops it if it has expired. */
    method HasPassword(email: Text, now: int) returns (has: bool)
      modifies kv
      ensures has == Credential(old(kv.rows), email, now).Some?
      ensures forall other, later :: later >= now ==>
        Credential(kv.rows, other, later) == Credential(old(kv.rows), other, later)
    {
      var row := kv.Get(PasswordKey(email), now);
      forall other { PasswordKeysDiffer(email, other); }
      return row.Some?;
    }

    /** Removes the user's sessions and the refresh token behind each of them. */
    method EndUserSessions(userId: Text)
      modifies this, kv
      ensures sessions == OthersSessions(old(sessions), userId)
      ensures kv.rows == old(kv.rows) - TokenKeys(old(sessions), userId)
    {
      var left := set id | id in sessions && sessions[id].userId == Some(userId);
      ghost var revoked: set<Text> := {};
      while left != {}
        invariant sessions == old(sessions) && kv.rows == old(kv.rows) - revoked
        invariant forall id :: id in left ==> id in sessions && sessions[id].userId == Some(userId)
        invariant revoked <= TokenKeys(sessions, userId)
        invariant forall id :: id in sessions && TokenOf(sessions[id], userId).Some? ==>
                    id in left || TokenOf(sessions[id], userId).value in revoked
      {
        var id :| id in left;
        left := left - {id};
        if sessions[id].refresh.Some? {
          var key := RefreshKey(sessions[id].refresh.value);
          assert key == TokenOf(sessions[id], userId);
          if key.Some? {
            kv.Remove(key.value);
            revoked := revoked + {key.value};
          }
        }
      }
      assert revoked == TokenKeys(sessions, userId);
      sessions := map id | id in sessions && sessions[id].userId != Some(userId) :: sessions[id];
    }

    /** The scan of a subject's refresh tokens, then one removal each. */
    method InvalidateSubjectRefreshTokens(subject: Text, now: int)
      modifies kv
      ensures kv.rows == Invalidated(old(kv.rows), subject, now)
    {
      var found := kv.ScanPrefix(RefreshPrefix(subject), now);
      ghost var all := found.Keys;
      assert all == SubjectTokens(old(kv.rows), subject, now);
      var left := found.Keys;
      while left != {}
        invariant left <= all && kv.rows == Cleaned(old(kv.rows), now) - (all - left)
      {
        var key :| key in left;
        left := left - {key};
        kv.Remove(key);
      }
    }
  }
}
