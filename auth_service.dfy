/** The session service: login, refresh-token rotation with reuse
    detection, and logout, over the table of refresh-token records.

    The identity library is an oracle: the users it knows are passed in as
    a sequence, and the outcome of its password check as a boolean.  The
    clock is the parameter `now`; the random number generator is the
    parameter `random`, the 64 bytes it would have produced. */
module Auth {
  import opened Wrappers
  import opened RefreshTokens
  import opened TokenEncoding

  // ---------------------------------------------------------------------
  // Collaborators

  /** A user as the identity library returns it. */
  datatype User = User(id: string, email: string, displayName: string, acceptedTerms: bool)

  /** `FindByIdAsync`: the user with this id, if the identity library has one. */
  function FindUserById(users: seq<User>, id: string): (r: Option<User>)
    ensures r.Some? ==> r.value in users && r.value.id == id
    ensures r.None? ==> forall u :: u in users ==> u.id != id
  {
    if users == [] then None
    else if users[0].id == id then Some(users[0])
    else FindUserById(users[1..], id)
  }

  /** The identity library's lookup normalizer, `ToUpperInvariant`, on
      one character: ASCII lower-case letters become upper-case. */
  function UpperAscii(c: char): char
  {
    if 'a' <= c <= 'z' then (c as int - 32) as char else c
  }

  /** The normalised form under which e-mail addresses are stored and
      looked up. */
  function NormalizeEmail(s: string): (r: string)
    ensures |r| == |s|
    ensures forall i :: 0 <= i < |s| ==> r[i] == UpperAscii(s[i])
  {
    seq(|s|, i requires 0 <= i < |s| => UpperAscii(s[i]))
  }

  /** Normalising a normalised address changes nothing. */
  lemma NormalizeEmailIdempotent(s: string)
    ensures NormalizeEmail(NormalizeEmail(s)) == NormalizeEmail(s)
  {
  }

  /** `FindByEmailAsync`: the user whose normalised e-mail address is the
      normalised `email`, if any. */
  function FindUserByEmail(users: seq<User>, email: string): (r: Option<User>)
    ensures r.Some? ==> r.value in users && NormalizeEmail(r.value.email) == NormalizeEmail(email)
    ensures r.None? ==> forall u :: u in users ==> NormalizeEmail(u.email) != NormalizeEmail(email)
  {
    if users == [] then None
    else if NormalizeEmail(users[0].email) == NormalizeEmail(email) then Some(users[0])
    else FindUserByEmail(users[1..], email)
  }

  /** Two addresses that differ only in the case of ASCII letters find the
      same user. */
  lemma {:induction false} FindUserByEmailIgnoresCase(users: seq<User>, a: string, b: string)
    requires NormalizeEmail(a) == NormalizeEmail(b)
    ensures FindUserByEmail(users, a) == FindUserByEmail(users, b)
  {
    if users != [] {
      FindUserByEmailIgnoresCase(users[1..], a, b);
    }
  }

  /** An access token, as the claims it carries; the signature is not
      modelled. */
  datatype AccessToken = AccessToken(subject: string, email: string, displayName: string, expires: Time)

  const AccessTokenLifetime: int := 15 * TicksPerMinute

  function AccessTokenFor(u: User, now: Time): AccessToken
  {
    AccessToken(u.id, u.email, u.displayName, now + AccessTokenLifetime)
  }

  /** `GenerateRefreshToken` followed by the assignment of the owner. */
  function NewRefreshToken(token: string, userId: string, now: Time): RefreshToken
  {
    RefreshToken(token, now + RefreshTokenLifetime, now, None, None, userId)
  }

  // ---------------------------------------------------------------------
  // The token table

  /** The row holding `token`: `SingleOrDefault` on a table whose token
      strings are unique. */
  function IndexOf(tokens: seq<RefreshToken>, token: string): (r: Option<nat>)
    ensures r.Some? ==> r.value < |tokens| && tokens[r.value].token == token
    ensures r.Some? ==> forall i :: 0 <= i < r.value ==> tokens[i].token != token
    ensures r.None? <==> forall i :: 0 <= i < |tokens| ==> tokens[i].token != token
  {
    if tokens == [] then None
    else if tokens[0].token == token then Some(0)
    else match IndexOf(tokens[1..], token)
      case None => None
      case Some(k) => Some(k + 1)
  }

  predicate Contains(tokens: seq<RefreshToken>, token: string)
  {
    exists i :: 0 <= i < |tokens| && tokens[i].token == token
  }

  predicate UniqueTokens(tokens: seq<RefreshToken>)
  {
    forall i, j :: 0 <= i < j < |tokens| ==> tokens[i].token != tokens[j].token
  }

  /** The rotation link of row `i` points to a later row of the same user. */
  predicate LinkIsForward(tokens: seq<RefreshToken>, i: nat)
    requires i < |tokens|
  {
    tokens[i].replacedByToken.Some? ==>
      var j := IndexOf(tokens, tokens[i].replacedByToken.value);
      j.Some? && i < j.value && tokens[j.value].userId == tokens[i].userId
  }

  /** The invariant the service keeps on the table: token strings are
      unique; a replacement link is only ever set on a revoked row; links
      point forward to a row of the same user; and no two rows link to the
      same row, so the links form chains, one per login. */
  ghost predicate ValidTable(tokens: seq<RefreshToken>)
  {
    && UniqueTokens(tokens)
    && (forall i :: 0 <= i < |tokens| && tokens[i].replacedByToken.Some? ==> tokens[i].revoked.Some?)
    && (forall i :: 0 <= i < |tokens| ==> LinkIsForward(tokens, i))
    && (forall i, j :: 0 <= i < j < |tokens| && tokens[i].replacedByToken.Some? && tokens[j].replacedByToken.Some? ==>
          tokens[i].replacedByToken.value != tokens[j].replacedByToken.value)
  }

  /** One row after the reuse response: revoked now if it belonged to
      `userId` and was active, untouched otherwise. */
  function RevokeIfActive(t: RefreshToken, userId: string, now: Time): RefreshToken
  {
    if t.userId == userId && t.IsActive(now) then t.(revoked := Some(now)) else t
  }

  /** The table after `RevokeAllUserRefreshTokens(userId)`. */
  function RevokeActive(tokens: seq<RefreshToken>, userId: string, now: Time): (r: seq<RefreshToken>)
    ensures |r| == |tokens|
  {
    seq(|tokens|, i requires 0 <= i < |tokens| => RevokeIfActive(tokens[i], userId, now))
  }

  // ---------------------------------------------------------------------
  // The operations as functions of the table

  datatype RefreshStatus = Success | Invalid | Reused

  /** The outcome of presenting a refresh token: the status, the new table,
      and the owner when a new pair is issued. */
  datatype Rotation = Rotation(status: RefreshStatus, tokens: seq<RefreshToken>, owner: Option<User>)

  /** `RefreshTokenAsync`, with `newToken` the text of the token it generates. */
  function Refresh(tokens: seq<RefreshToken>, users: seq<User>, presented: string, now: Time, newToken: string): Rotation
  {
    match IndexOf(tokens, presented)
    case None => Rotation(Invalid, tokens, None)
    case Some(i) =>
      match FindUserById(users, tokens[i].userId)
      case None => Rotation(Invalid, tokens, None)
      case Some(u) =>
        if tokens[i].IsRotated() then
          Rotation(Reused, RevokeActive(tokens, u.id, now), None)
        else if !tokens[i].IsActive(now) then
          Rotation(Invalid, tokens, None)
        else
          var rotated := tokens[i].(revoked := Some(now), replacedByToken := Some(newToken));
          Rotation(Success, tokens[i := rotated] + [NewRefreshToken(newToken, u.id, now)], Some(u))
  }

  /** `LogoutAsync`: revokes the presented token if the table has it. */
  function Logout(tokens: seq<RefreshToken>, presented: string, now: Time): seq<RefreshToken>
  {
    match IndexOf(tokens, presented)
    case None => tokens
    case Some(i) => tokens[i := tokens[i].(revoked := Some(now))]
  }

  /** The pair of tokens a successful login or rotation hands out. */
  datatype TokenPair = TokenPair(accessToken: AccessToken, refreshToken: string)

  datatype LoginOutcome = LoginOutcome(pair: Option<TokenPair>, tokens: seq<RefreshToken>)

  /** `LoginAsync`, with `signInSucceeded` the verdict of the password check. */
  function Login(tokens: seq<RefreshToken>, users: seq<User>, email: string, signInSucceeded: bool,
                 now: Time, newToken: string): LoginOutcome
  {
    if !signInSucceeded then LoginOutcome(None, tokens)
    else match FindUserByEmail(users, email)
      case None => LoginOutcome(None, tokens)
      case Some(u) =>
        LoginOutcome(Some(TokenPair(AccessTokenFor(u, now), newToken)), tokens + [NewRefreshToken(newToken, u.id, now)])
  }

  // ---------------------------------------------------------------------
  // The service, updating its table in place

  /** What `RefreshTokenAsync` returns: only `Success` carries tokens. */
  datatype RefreshResult = RefreshResult(status: RefreshStatus, accessToken: Option<AccessToken>, refreshToken: Option<string>)

  class AuthService {
    /** The refresh-token table. */
    var tokens: seq<RefreshToken>

    ghost predicate Valid()
      reads this
    {
      ValidTable(tokens)
    }

    constructor (initial: seq<RefreshToken>)
      requires ValidTable(initial)
      ensures Valid() && tokens == initial
    {
      tokens := initial;
    }

    /** `RegisterAsync`: creates the user through the identity library
        (`created` is its verdict, `newId` the id it assigns) and issues no
        token. */
    method RegisterAsync(email: string, password: string, displayName: string, acceptedTerms: bool,
                         created: bool, newId: string) returns (r: Option<User>)
      ensures r.Some? <==> created
      ensures r.Some? ==> r.value == User(newId, email, displayName, acceptedTerms)
    {
      if created {
        r := Some(User(newId, email, displayName, acceptedTerms));
      } else {
        r := None;
      }
    }

    method LoginAsync(email: string, password: string, users: seq<User>, signInSucceeded: bool,
                      now: Time, random: seq<byte>) returns (r: Option<TokenPair>)
      requires Valid()
      requires |random| == TokenByteCount
      requires !Contains(tokens, RefreshTokenText(random))
      modifies this
      ensures Valid()
      ensures Login(old(tokens), users, email, signInSucceeded, now, RefreshTokenText(random))
              == LoginOutcome(r, tokens)
    {
      if !signInSucceeded {
        return None;
      }
      var user := FindUserByEmail(users, email);
      if user.None? {
        return None;
      }
      var refreshToken := GenerateRefreshToken(random, now);
      refreshToken := refreshToken.(userId := user.value.id);
      LoginKeepsValid(tokens, users, email, now, RefreshTokenText(random));
      tokens := tokens + [refreshToken];
      r := Some(TokenPair(AccessTokenFor(user.value, now), refreshToken.token));
    }

    method RefreshTokenAsync(presented: string, users: seq<User>, now: Time, random: seq<byte>)
      returns (r: RefreshResult)
      requires Valid()
      requires |random| == TokenByteCount
      requires !Contains(tokens, RefreshTokenText(random))
      modifies this
      ensures Valid()
      ensures var o := Refresh(old(tokens), users, presented, now, RefreshTokenText(random));
        && tokens == o.tokens
        && r.status == o.status
        && (r.status == Success ==>
              r.refreshToken == Some(RefreshTokenText(random)) &&
              o.owner.Some? && r.accessToken == Some(AccessTokenFor(o.owner.value, now)))
        && (r.status != Success ==> r.accessToken.None? && r.refreshToken.None?)
    {
      ghost var newToken := RefreshTokenText(random);
      RefreshKeepsValid(tokens, users, presented, now, newToken);
      var found := IndexOf(tokens, presented);
      if found.None? {
        return RefreshResult(Invalid, None, None);
      }
      var i := found.value;
      var user := FindUserById(users, tokens[i].userId);
      if user.None? {
        return RefreshResult(Invalid, None, None);
      }
      // Compromised reuse detection
      if tokens[i].revoked.Some? && tokens[i].replacedByToken.Some? {
        RevokeAllUserRefreshTokens(user.value.id, now);
        return RefreshResult(Reused, None, None);
      }
      // Expired or revoked
      if !tokens[i].IsActive(now) {
        return RefreshResult(Invalid, None, None);
      }
      // Normal refresh flow
      tokens := tokens[i := tokens[i].(revoked := Some(now))];
      var newRefreshToken := GenerateRefreshToken(random, now);
      newRefreshToken := newRefreshToken.(userId := user.value.id);
      tokens := tokens[i := tokens[i].(replacedByToken := Some(newRefreshToken.token))];
      tokens := tokens + [newRefreshToken];
      r := RefreshResult(Success, Some(AccessTokenFor(user.value, now)), Some(newRefreshToken.token));
    }

    method LogoutAsync(presented: string, now: Time)
      requires Valid()
      modifies this
      ensures Valid()
      ensures tokens == Logout(old(tokens), presented, now)
    {
      LogoutKeepsValid(tokens, presented, now);
      var found := IndexOf(tokens, presented);
      if found.Some? {
        var i := found.value;
        tokens := tokens[i := tokens[i].(revoked := Some(now))];
      }
    }

    /** Revokes, one row at a time, every active token of `userId`. */
    method RevokeAllUserRefreshTokens(userId: string, now: Time)
      modifies this
      ensures tokens == RevokeActive(old(tokens), userId, now)
    {
      var k := 0;
      while k < |tokens|
        invariant 0 <= k <= |tokens| == |old(tokens)|
        invariant forall j :: 0 <= j < k ==> tokens[j] == RevokeIfActive(old(tokens)[j], userId, now)
        invariant forall j :: k <= j < |tokens| ==> tokens[j] == old(tokens)[j]
      {
        var t := tokens[k];
        if t.userId == userId && t.IsActive(now) {
          tokens := tokens[k := t.(revoked := Some(now))];
        }
        k := k + 1;
      }
    }
  }

  /** `GenerateRefreshToken`: the text of `random`, expiring in 7 days; the
      caller fills in the owner. */
  function GenerateRefreshToken(random: seq<byte>, now: Time): (t: RefreshToken)
  {
    RefreshToken(RefreshTokenText(random), now + RefreshTokenLifetime, now, None, None, "")
  }

  // ---------------------------------------------------------------------
  // Properties

  lemma IndexOfUnique(tokens: seq<RefreshToken>, k: nat)
    requires UniqueTokens(tokens) && k < |tokens|
    ensures IndexOf(tokens, tokens[k].token) == Some(k)
  {
  }

  /** Lookup depends only on the token strings of the rows. */
  lemma IndexOfSameTokens(a: seq<RefreshToken>, b: seq<RefreshToken>, token: string)
    requires |a| == |b| && forall k :: 0 <= k < |a| ==> a[k].token == b[k].token
    ensures IndexOf(a, token) == IndexOf(b, token)
  {
    var ia, ib := IndexOf(a, token), IndexOf(b, token);
    if ia.Some? && ib.Some? {
      assert !(ia.value < ib.value) && !(ib.value < ia.value);
    }
  }

  /** Appending a row does not move the rows already there. */
  lemma IndexOfAppend(a: seq<RefreshToken>, x: RefreshToken, token: string)
    ensures IndexOf(a + [x], token) ==
      if IndexOf(a, token).Some? then IndexOf(a, token)
      else if x.token == token then Some(|a|)
      else None
  {
    var r := IndexOf(a + [x], token);
    if IndexOf(a, token).Some? {
      var k := IndexOf(a, token).value;
      assert (a + [x])[k].token == token;
      if r.Some? { assert !(r.value < k) && !(k < r.value); }
    } else if x.token == token {
      assert (a + [x])[|a|].token == token;
    } else {
      forall k | 0 <= k < |a + [x]| ensures (a + [x])[k].token != token {
        if k < |a| { assert (a + [x])[k] == a[k]; }
      }
    }
  }

  /** Two tables with the same rows except for revocations that only get
      added: the invariant carries over. */
  lemma ValidTableUnderRevocation(a: seq<RefreshToken>, b: seq<RefreshToken>)
    requires ValidTable(a) && |a| == |b|
    requires forall k :: 0 <= k < |a| ==>
      b[k].token == a[k].token && b[k].userId == a[k].userId &&
      b[k].replacedByToken == a[k].replacedByToken && (a[k].revoked.Some? ==> b[k].revoked.Some?)
    ensures ValidTable(b)
  {
    forall k | 0 <= k < |b| ensures LinkIsForward(b, k) {
      assert LinkIsForward(a, k);
      if b[k].replacedByToken.Some? {
        IndexOfSameTokens(a, b, b[k].replacedByToken.value);
      }
    }
  }

  lemma LoginKeepsValid(tokens: seq<RefreshToken>, users: seq<User>, email: string, now: Time, newToken: string)
    requires ValidTable(tokens) && !Contains(tokens, newToken)
    ensures ValidTable(Login(tokens, users, email, true, now, newToken).tokens)
  {
    var u := FindUserByEmail(users, email);
    if u.Some? {
      var n := NewRefreshToken(newToken, u.value.id, now);
      AppendKeepsValid(tokens, n);
    }
  }

  /** Appending a fresh, unlinked row keeps the invariant. */
  lemma AppendKeepsValid(tokens: seq<RefreshToken>, n: RefreshToken)
    requires ValidTable(tokens) && !Contains(tokens, n.token) && n.replacedByToken.None?
    ensures ValidTable(tokens + [n])
  {
    var b := tokens + [n];
    forall k | 0 <= k < |b| ensures LinkIsForward(b, k) {
      if k < |tokens| {
        assert b[k] == tokens[k];
        assert LinkIsForward(tokens, k);
        if b[k].replacedByToken.Some? {
          IndexOfAppend(tokens, n, b[k].replacedByToken.value);
        }
      }
    }
  }

  lemma RefreshKeepsValid(tokens: seq<RefreshToken>, users: seq<User>, presented: string, now: Time, newToken: string)
    requires ValidTable(tokens) && !Contains(tokens, newToken)
    ensures ValidTable(Refresh(tokens, users, presented, now, newToken).tokens)
  {
    var o := Refresh(tokens, users, presented, now, newToken);
    if o.status == Reused {
      var i := IndexOf(tokens, presented).value;
      var u := FindUserById(users, tokens[i].userId).value;
      ValidTableUnderRevocation(tokens, RevokeActive(tokens, u.id, now));
    } else if o.status == Success {
      var i := IndexOf(tokens, presented).value;
      var u := FindUserById(users, tokens[i].userId).value;
      RotateKeepsValid(tokens, i, now, newToken);
    }
  }

  /** Rotating an active row and appending its replacement keeps the
      invariant. */
  lemma RotateKeepsValid(tokens: seq<RefreshToken>, i: nat, now: Time, newToken: string)
    requires ValidTable(tokens) && !Contains(tokens, newToken)
    requires i < |tokens| && tokens[i].revoked.None?
    ensures var rotated := tokens[i].(revoked := Some(now), replacedByToken := Some(newToken));
      ValidTable(tokens[i := rotated] + [NewRefreshToken(newToken, tokens[i].userId, now)])
  {
    var rotated := tokens[i].(revoked := Some(now), replacedByToken := Some(newToken));
    var a := tokens[i := rotated];
    var n := NewRefreshToken(newToken, tokens[i].userId, now);
    var b := a + [n];
    assert tokens[i].replacedByToken.None?;
    forall k | 0 <= k < |b| ensures LinkIsForward(b, k) {
      if k < |tokens| && b[k].replacedByToken.Some? {
        assert b[k] == a[k];
        IndexOfSameTokens(tokens, a, b[k].replacedByToken.value);
        IndexOfAppend(a, n, b[k].replacedByToken.value);
        if k != i {
          assert LinkIsForward(tokens, k);
        } else {
          assert !Contains(a, newToken);
        }
      }
    }
    forall k, j | 0 <= k < j < |b| && b[k].replacedByToken.Some? && b[j].replacedByToken.Some?
      ensures b[k].replacedByToken.value != b[j].replacedByToken.value
    {
      assert j < |tokens|;
      if k == i || j == i {
        var other := if k == i then j else k;
        assert LinkIsForward(tokens, other);
      }
    }
  }

  lemma LogoutKeepsValid(tokens: seq<RefreshToken>, presented: string, now: Time)
    requires ValidTable(tokens)
    ensures ValidTable(Logout(tokens, presented, now))
  {
    ValidTableUnderRevocation(tokens, Logout(tokens, presented, now));
  }

  /** A token string the table does not hold is `Invalid` and changes nothing. */
  lemma RefreshUnknownIsInvalid(tokens: seq<RefreshToken>, users: seq<User>, presented: string, now: Time, newToken: string)
    requires !Contains(tokens, presented)
    ensures Refresh(tokens, users, presented, now, newToken) == Rotation(Invalid, tokens, None)
  {
  }

  /** A token whose owner the identity library cannot find is `Invalid`
      and changes nothing, whatever state the token is in. */
  lemma RefreshOrphanIsInvalid(tokens: seq<RefreshToken>, users: seq<User>, k: nat, now: Time, newToken: string)
    requires UniqueTokens(tokens) && k < |tokens|
    requires forall u :: u in users ==> u.id != tokens[k].userId
    ensures Refresh(tokens, users, tokens[k].token, now, newToken) == Rotation(Invalid, tokens, None)
  {
    IndexOfUnique(tokens, k);
  }

  /** Presenting a rotated token, expired or not, is `Reused`: no token is
      added, every token of its owner that was active is revoked now and no
      token of the owner is active afterwards; the owner's already revoked
      tokens keep their timestamps, and other users' tokens are untouched. */
  lemma RefreshRotatedIsReused(tokens: seq<RefreshToken>, users: seq<User>, k: nat, now: Time, newToken: string)
    requires UniqueTokens(tokens) && k < |tokens|
    requires exists u :: u in users && u.id == tokens[k].userId
    requires tokens[k].IsRotated()
    ensures var o := Refresh(tokens, users, tokens[k].token, now, newToken);
      var owner := tokens[k].userId;
      && o.status == Reused && o.owner.None?
      && |o.tokens| == |tokens|
      && (forall j :: 0 <= j < |tokens| && tokens[j].userId != owner ==> o.tokens[j] == tokens[j])
      && (forall j :: 0 <= j < |tokens| && tokens[j].userId == owner && tokens[j].IsActive(now) ==>
            o.tokens[j] == tokens[j].(revoked := Some(now)))
      && (forall j :: 0 <= j < |tokens| && !tokens[j].IsActive(now) ==> o.tokens[j] == tokens[j])
      && (forall j :: 0 <= j < |tokens| && tokens[j].userId == owner ==> !o.tokens[j].IsActive(now))
  {
    IndexOfUnique(tokens, k);
    var u :| u in users && u.id == tokens[k].userId;
    assert FindUserById(users, tokens[k].userId).Some?;
  }

  /** A token that is neither active nor rotated (expired, or logged out)
      is `Invalid` and changes nothing. */
  lemma RefreshInactiveIsInvalid(tokens: seq<RefreshToken>, users: seq<User>, k: nat, now: Time, newToken: string)
    requires UniqueTokens(tokens) && k < |tokens|
    requires !tokens[k].IsRotated() && !tokens[k].IsActive(now)
    ensures Refresh(tokens, users, tokens[k].token, now, newToken) == Rotation(Invalid, tokens, None)
  {
    IndexOfUnique(tokens, k);
  }

  /** Presenting an active token of a known user is `Success`: the old row
      is revoked now and linked to the new token, exactly one row is
      appended, for the same user, active and expiring in 7 days, and every
      other row is unchanged. */
  lemma RefreshActiveIsSuccess(tokens: seq<RefreshToken>, users: seq<User>, k: nat, now: Time, newToken: string)
    requires UniqueTokens(tokens) && k < |tokens|
    requires exists u :: u in users && u.id == tokens[k].userId
    requires tokens[k].IsActive(now)
    ensures var o := Refresh(tokens, users, tokens[k].token, now, newToken);
      && o.status == Success
      && o.owner.Some? && o.owner.value.id == tokens[k].userId
      && |o.tokens| == |tokens| + 1
      && o.tokens[k] == tokens[k].(revoked := Some(now), replacedByToken := Some(newToken))
      && (forall j :: 0 <= j < |tokens| && j != k ==> o.tokens[j] == tokens[j])
      && var n := o.tokens[|tokens|];
         n.token == newToken && n.userId == tokens[k].userId && n.revoked.None? &&
         n.replacedByToken.None? && n.expires == now + RefreshTokenLifetime && n.IsActive(now)
  {
    IndexOfUnique(tokens, k);
    var u :| u in users && u.id == tokens[k].userId;
    assert FindUserById(users, tokens[k].userId).Some?;
  }

  /** Rotation monotonicity: once `Success` on a token, presenting the same
      token again is `Reused`, at any later time, and afterwards the token
      that replaced it is no longer active. */
  lemma {:induction false} ReplayAfterRotationIsReused(tokens: seq<RefreshToken>, users: seq<User>, presented: string,
                                                     now1: Time, newToken1: string, now2: Time, newToken2: string)
    requires ValidTable(tokens) && !Contains(tokens, newToken1)
    requires Refresh(tokens, users, presented, now1, newToken1).status == Success
    ensures var after := Refresh(tokens, users, presented, now1, newToken1).tokens;
      var replay := Refresh(after, users, presented, now2, newToken2);
      && replay.status == Reused
      && |replay.tokens| == |after|
      && IndexOf(replay.tokens, newToken1).Some?
      && !replay.tokens[IndexOf(replay.tokens, newToken1).value].IsActive(now2)
  {
    var k := IndexOf(tokens, presented).value;
    var owner := FindUserById(users, tokens[k].userId).value;
    RefreshKeepsValid(tokens, users, presented, now1, newToken1);
    var after := Refresh(tokens, users, presented, now1, newToken1).tokens;
    assert after[k].token == presented && after[k].IsRotated();
    RefreshRotatedIsReused(after, users, k, now2, newToken2);
    var replay := Refresh(after, users, presented, now2, newToken2);
    var n := |tokens|;
    assert after[n].token == newToken1 && after[n].userId == tokens[k].userId;
    IndexOfSameTokens(after, replay.tokens, newToken1);
    IndexOfUnique(after, n);
  }

  /** Logout of a stored token revokes it now, overwriting an earlier
      revocation, keeps its replacement link and touches no other row. */
  lemma LogoutRevokes(tokens: seq<RefreshToken>, k: nat, now: Time)
    requires UniqueTokens(tokens) && k < |tokens|
    ensures var after := Logout(tokens, tokens[k].token, now);
      && |after| == |tokens|
      && after[k] == tokens[k].(revoked := Some(now))
      && (forall later :: !after[k].IsActive(later))
      && (forall j :: 0 <= j < |tokens| && j != k ==> after[j] == tokens[j])
  {
    IndexOfUnique(tokens, k);
  }

  /** Logout of a token the table does not hold changes nothing and is not
      an error. */
  lemma LogoutUnknownIsNoOp(tokens: seq<RefreshToken>, presented: string, now: Time)
    requires !Contains(tokens, presented)
    ensures Logout(tokens, presented, now) == tokens
  {
  }

  /** Logging out twice is logging out once, at the time of the second call. */
  lemma LogoutTwice(tokens: seq<RefreshToken>, presented: string, now1: Time, now2: Time)
    ensures Logout(Logout(tokens, presented, now1), presented, now2) == Logout(tokens, presented, now2)
  {
    IndexOfSameTokens(tokens, Logout(tokens, presented, now1), presented);
  }

  /** A token logged out before it was ever rotated is `Invalid` when
      presented, not `Reused`: it carries no replacement link. */
  lemma RefreshAfterLogoutIsInvalid(tokens: seq<RefreshToken>, users: seq<User>, k: nat,
                                    now1: Time, now2: Time, newToken: string)
    requires UniqueTokens(tokens) && k < |tokens| && tokens[k].replacedByToken.None?
    ensures var o := Refresh(Logout(tokens, tokens[k].token, now1), users, tokens[k].token, now2, newToken);
      o.status == Invalid && o.tokens == Logout(tokens, tokens[k].token, now1)
  {
    LogoutRevokes(tokens, k, now1);
    var after := Logout(tokens, tokens[k].token, now1);
    IndexOfSameTokens(tokens, after, tokens[k].token);
  }

  /** A failed password check or an unknown e-mail yields no tokens and
      changes nothing. */
  lemma LoginFailureChangesNothing(tokens: seq<RefreshToken>, users: seq<User>, email: string, signInSucceeded: bool,
                                   now: Time, newToken: string)
    requires !signInSucceeded || forall u :: u in users ==> NormalizeEmail(u.email) != NormalizeEmail(email)
    ensures Login(tokens, users, email, signInSucceeded, now, newToken) == LoginOutcome(None, tokens)
  {
  }

  /** A user stored as `alice@example.com` signs in as `Alice@Example.com`. */
  lemma LoginIgnoresCaseExample(tokens: seq<RefreshToken>, now: Time, newToken: string)
    ensures var alice := User("u1", "alice@example.com", "Alice", true);
      Login(tokens, [alice], "Alice@Example.com", true, now, newToken).pair.Some?
  {
    var alice := User("u1", "alice@example.com", "Alice", true);
    assert NormalizeEmail(alice.email) == NormalizeEmail("Alice@Example.com");
  }

  /** A successful login appends exactly one active token for the user and
      returns its text; it neither modifies nor revokes other sessions. */
  lemma LoginIssuesOneToken(tokens: seq<RefreshToken>, users: seq<User>, email: string, now: Time, newToken: string)
    requires exists u :: u in users && NormalizeEmail(u.email) == NormalizeEmail(email)
    ensures var o := Login(tokens, users, email, true, now, newToken);
      && o.pair.Some? && o.pair.value.refreshToken == newToken
      && |o.tokens| == |tokens| + 1 && o.tokens[..|tokens|] == tokens
      && var n := o.tokens[|tokens|];
         n.token == newToken && n.IsActive(now) && n.expires == now + RefreshTokenLifetime
         && (exists u :: u in users && NormalizeEmail(u.email) == NormalizeEmail(email)
                        && n.userId == u.id && o.pair.value.accessToken.subject == u.id)
  {
    var u :| u in users && NormalizeEmail(u.email) == NormalizeEmail(email);
    assert FindUserByEmail(users, email).Some?;
    var o := Login(tokens, users, email, true, now, newToken);
    assert o.tokens[..|tokens|] == tokens;
  }
}
