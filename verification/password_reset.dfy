/** `PasswordResetService`: a six-digit reset code mailed to the account's
    address, checked, and spent on a new password. */
module PasswordReset {
  import opened Common

  /** A `PasswordResetToken` row: the code and the user it was issued to. */
  datatype ResetToken = ResetToken(id: Id, token: string, userId: Id)

  /** One `sendPasswordResetEmail(email, code)` call. */
  datatype ResetMail = ResetMail(to: string, code: string)

  const CODE_WIDTH: nat := 6
  /** The bound passed to `rnd.nextInt`: the draw is below it. */
  const CODE_BOUND: nat := 999999

  /** `generateCode`: `number` is the draw of `rnd.nextInt(999999)`, printed
      with `%06d`. The code reads back as the number drawn. */
  function GenerateCode(number: int): (code: string)
    requires 0 <= number < CODE_BOUND
    ensures |code| == CODE_WIDTH && AllDigits(code)
    ensures DigitsValue(code) == number
  {
    assert Pow10(CODE_WIDTH) == 1000000;
    ZeroPadValue(number, CODE_WIDTH);
    ZeroPad(number, CODE_WIDTH)
  }

  /** Distinct draws give distinct codes. */
  lemma GenerateCodeInjective(n: int, n': int)
    requires 0 <= n < CODE_BOUND && 0 <= n' < CODE_BOUND
    ensures GenerateCode(n) == GenerateCode(n') <==> n == n'
  {
    if GenerateCode(n) == GenerateCode(n') {
      assert DigitsValue(GenerateCode(n)) == DigitsValue(GenerateCode(n'));
    }
  }

  /** How many rows hold this code. */
  function TokenCount(ts: seq<ResetToken>, code: string): (n: nat)
    ensures n <= |ts|
    ensures n == 0 <==> forall k :: 0 <= k < |ts| ==> ts[k].token != code
  {
    if ts == [] then 0
    else (if ts[0].token == code then 1 else 0) + TokenCount(ts[1..], code)
  }

  /** How many rows belong to this user. */
  function UserTokenCount(ts: seq<ResetToken>, userId: Id): (n: nat)
    ensures n <= |ts|
    ensures n == 0 <==> forall k :: 0 <= k < |ts| ==> ts[k].userId != userId
  {
    if ts == [] then 0
    else (if ts[0].userId == userId then 1 else 0) + UserTokenCount(ts[1..], userId)
  }

  /** The first row holding this code. */
  function FirstWithToken(ts: seq<ResetToken>, code: string): (r: Option<nat>)
    ensures r.Some? ==> r.value < |ts| && ts[r.value].token == code
    ensures r.None? <==> forall k :: 0 <= k < |ts| ==> ts[k].token != code
  {
    if ts == [] then None
    else if ts[0].token == code then Some(0)
    else match FirstWithToken(ts[1..], code)
      case None => None
      case Some(k) => Some(k + 1)
  }

  /** `tokenRepository.findByToken(code)`: a single-result query, so no row
      gives null, one row gives that row, and several rows make Spring Data
      throw. */
  function FindByToken(ts: seq<ResetToken>, code: string): (r: Result<Option<nat>>)
    ensures r.Err? <==> TokenCount(ts, code) >= 2
    ensures r.Err? ==> r.error == NonUniqueResult
    ensures r == Ok(None) <==> TokenCount(ts, code) == 0
    ensures r.Ok? && r.value.Some? ==> TokenCount(ts, code) == 1 && r.value.value < |ts| && ts[r.value.value].token == code
  {
    if TokenCount(ts, code) >= 2 then Err(NonUniqueResult)
    else Ok(FirstWithToken(ts, code))
  }

  /** `tokenRepository.deleteByUser(user)`: every row of that user goes. */
  function WithoutUser(ts: seq<ResetToken>, userId: Id): (r: seq<ResetToken>)
    ensures |r| <= |ts|
    ensures forall t :: t in r <==> t in ts && t.userId != userId
  {
    if ts == [] then []
    else if ts[0].userId == userId then WithoutUser(ts[1..], userId)
    else [ts[0]] + WithoutUser(ts[1..], userId)
  }

  /** `tokenRepository.delete(token)` of row k. */
  function RemoveAt(ts: seq<ResetToken>, k: nat): (r: seq<ResetToken>)
    requires k < |ts|
    ensures |r| == |ts| - 1
    ensures forall t :: t in r ==> t in ts
  {
    ts[..k] + ts[k + 1..]
  }

  lemma {:induction false} TokenCountAppend(ts: seq<ResetToken>, t: ResetToken, code: string)
    ensures TokenCount(ts + [t], code) == TokenCount(ts, code) + (if t.token == code then 1 else 0)
  {
    if ts != [] {
      assert (ts + [t])[1..] == ts[1..] + [t];
      TokenCountAppend(ts[1..], t, code);
    }
  }

  lemma {:induction false} UserTokenCountAppend(ts: seq<ResetToken>, t: ResetToken, userId: Id)
    ensures UserTokenCount(ts + [t], userId) == UserTokenCount(ts, userId) + (if t.userId == userId then 1 else 0)
  {
    if ts != [] {
      assert (ts + [t])[1..] == ts[1..] + [t];
      UserTokenCountAppend(ts[1..], t, userId);
    }
  }

  /** Deleting one user's rows leaves every other user's count as it was. */
  lemma {:induction false} WithoutUserCounts(ts: seq<ResetToken>, userId: Id, other: Id)
    ensures UserTokenCount(WithoutUser(ts, userId), other) == (if other == userId then 0 else UserTokenCount(ts, other))
  {
    if ts != [] {
      WithoutUserCounts(ts[1..], userId, other);
      if ts[0].userId != userId {
        assert ([ts[0]] + WithoutUser(ts[1..], userId))[1..] == WithoutUser(ts[1..], userId);
      }
    }
  }

  /** Deleting row k takes it out of the count of its code. */
  lemma {:induction false} RemoveAtTokenCount(ts: seq<ResetToken>, k: nat, code: string)
    requires k < |ts|
    ensures TokenCount(RemoveAt(ts, k), code) == TokenCount(ts, code) - (if ts[k].token == code then 1 else 0)
  {
    if k == 0 {
      assert RemoveAt(ts, k) == ts[1..];
    } else {
      var tail := ts[1..];
      RemoveAtTokenCount(tail, k - 1, code);
      RemoveAtShape(ts, k);
    }
  }

  /** Deleting row k takes it out of the count of its user. */
  lemma {:induction false} RemoveAtUserCount(ts: seq<ResetToken>, k: nat, userId: Id)
    requires k < |ts|
    ensures UserTokenCount(RemoveAt(ts, k), userId) == UserTokenCount(ts, userId) - (if ts[k].userId == userId then 1 else 0)
  {
    if k == 0 {
      assert RemoveAt(ts, k) == ts[1..];
    } else {
      var tail := ts[1..];
      RemoveAtUserCount(tail, k - 1, userId);
      RemoveAtShape(ts, k);
    }
  }

  /** Deleting a row past the head keeps the head and deletes in the tail. */
  lemma RemoveAtShape(ts: seq<ResetToken>, k: nat)
    requires 0 < k < |ts|
    ensures RemoveAt(ts, k) != [] && RemoveAt(ts, k)[0] == ts[0]
    ensures RemoveAt(ts, k)[1..] == RemoveAt(ts[1..], k - 1) && ts[1..][k - 1] == ts[k]
  {
    var tail := ts[1..];
    assert ts[..k] == [ts[0]] + tail[..k - 1];
    assert ts[k + 1..] == tail[k..];
    assert RemoveAt(ts, k) == [ts[0]] + RemoveAt(tail, k - 1);
  }

  /** Deleting a row takes exactly that row out of both counts. */
  lemma RemoveAtCounts(ts: seq<ResetToken>, k: nat, code: string, userId: Id)
    requires k < |ts|
    ensures TokenCount(RemoveAt(ts, k), code) == TokenCount(ts, code) - (if ts[k].token == code then 1 else 0)
    ensures UserTokenCount(RemoveAt(ts, k), userId) == UserTokenCount(ts, userId) - (if ts[k].userId == userId then 1 else 0)
  {
    RemoveAtTokenCount(ts, k, code);
    RemoveAtUserCount(ts, k, userId);
  }

  /** At most one outstanding code per user. */
  ghost predicate OnePerUser(ts: seq<ResetToken>) {
    forall u :: UserTokenCount(ts, u) <= 1
  }

  /** `sendResetCode` keeps one code per user: the user's old rows go before
      the new one is saved. */
  lemma ReissueKeepsOnePerUser(ts: seq<ResetToken>, t: ResetToken)
    requires OnePerUser(ts)
    ensures OnePerUser(WithoutUser(ts, t.userId) + [t])
    ensures UserTokenCount(WithoutUser(ts, t.userId) + [t], t.userId) == 1
  {
    forall u
      ensures UserTokenCount(WithoutUser(ts, t.userId) + [t], u) <= 1
    {
      UserTokenCountAppend(WithoutUser(ts, t.userId), t, u);
      WithoutUserCounts(ts, t.userId, u);
    }
    UserTokenCountAppend(WithoutUser(ts, t.userId), t, t.userId);
    WithoutUserCounts(ts, t.userId, t.userId);
  }

  /** Without rows of the user, `deleteByUser` leaves the table as it is. */
  lemma {:induction false} WithoutAbsentUser(ts: seq<ResetToken>, userId: Id)
    requires UserTokenCount(ts, userId) == 0
    ensures WithoutUser(ts, userId) == ts
  {
    if ts != [] {
      WithoutAbsentUser(ts[1..], userId);
    }
  }

  /** The table after `sendResetCode` as written saves `t` for `userId`. The
      call runs in no transaction, so the derived `deleteByUser` can select the
      user's rows but not remove them: a user who holds a row makes it throw
      before anything is saved. */
  function ReissueAsWritten(ts: seq<ResetToken>, userId: Id, t: ResetToken): (r: Result<seq<ResetToken>>)
    ensures r.Err? <==> UserTokenCount(ts, userId) > 0
    ensures r.Err? ==> r.error == TransactionRequired
    ensures r.Ok? ==> r.value == WithoutUser(ts, userId) + [t]
  {
    if UserTokenCount(ts, userId) > 0 then Err(TransactionRequired)
    else
      WithoutAbsentUser(ts, userId);
      Ok(ts + [t])
  }

  /** A first code for a user without one keeps one code per user. */
  lemma FirstCodeKeepsOnePerUser(ts: seq<ResetToken>, t: ResetToken)
    requires OnePerUser(ts) && UserTokenCount(ts, t.userId) == 0
    ensures OnePerUser(ts + [t])
    ensures UserTokenCount(ts + [t], t.userId) == 1
  {
    forall u
      ensures UserTokenCount(ts + [t], u) <= 1
    {
      UserTokenCountAppend(ts, t, u);
    }
    UserTokenCountAppend(ts, t, t.userId);
  }

  /** The user holds a code, and every code the user holds has expired. */
  ghost predicate LockedOut(ts: seq<ResetToken>, userId: Id, expired: ResetToken -> bool) {
    UserTokenCount(ts, userId) > 0 &&
    forall k :: 0 <= k < |ts| && ts[k].userId == userId ==> expired(ts[k])
  }

  /** As written, an expired code locks its user out for good: a new request
      for that user fails, a request for anyone else keeps the lock, and the
      only codes a reset accepts, unexpired ones, belong to other users and
      spending them keeps the lock too. */
  lemma AsWrittenLockOut(ts: seq<ResetToken>, userId: Id, expired: ResetToken -> bool, t: ResetToken, k: nat)
    requires LockedOut(ts, userId, expired)
    ensures t.userId == userId ==> ReissueAsWritten(ts, userId, t) == Err(TransactionRequired)
    ensures ReissueAsWritten(ts, t.userId, t).Ok? ==> LockedOut(ReissueAsWritten(ts, t.userId, t).value, userId, expired)
    ensures k < |ts| && !expired(ts[k]) ==> ts[k].userId != userId && LockedOut(RemoveAt(ts, k), userId, expired)
  {
    var r := ReissueAsWritten(ts, t.userId, t);
    if r.Ok? {
      assert r.value == ts + [t] by { WithoutAbsentUser(ts, t.userId); }
      UserTokenCountAppend(ts, t, userId);
      assert t.userId != userId;
      forall j | 0 <= j < |ts + [t]| && (ts + [t])[j].userId == userId
        ensures expired((ts + [t])[j])
      {
        assert j < |ts|;
        assert (ts + [t])[j] == ts[j];
      }
    }
    if k < |ts| && !expired(ts[k]) {
      var rest := RemoveAt(ts, k);
      RemoveAtUserCount(ts, k, userId);
      forall j | 0 <= j < |rest| && rest[j].userId == userId
        ensures expired(rest[j])
      {
        assert rest[j] == if j < k then ts[j] else ts[j + 1];
      }
    }
  }

  /** The second request of a user whose first code is still held fails, where
      the intended delete-then-save would replace the code. */
  lemma AsWrittenSecondRequestFails()
    ensures var held := [ResetToken(1, "000042", 7)];
            var t := ResetToken(2, "000043", 7);
            ReissueAsWritten(held, 7, t) == Err(TransactionRequired) &&
            WithoutUser(held, 7) + [t] == [t]
  {
    var held := [ResetToken(1, "000042", 7)];
    assert UserTokenCount(held, 7) == 1 by {
      assert held[1..] == [];
    }
    assert WithoutUser(held, 7) == [] by {
      assert held[1..] == [];
    }
  }

  /** Two rows holding the same code count twice. */
  lemma {:induction false} SharedCodeCount(ts: seq<ResetToken>, i: nat, j: nat)
    requires i < j < |ts| && ts[i].token == ts[j].token
    ensures TokenCount(ts, ts[i].token) >= 2
  {
    if i == 0 {
      assert ts[1..][j - 1] == ts[j];
      assert TokenCount(ts[1..], ts[i].token) != 0;
    } else {
      assert ts[1..][i - 1] == ts[i] && ts[1..][j - 1] == ts[j];
      SharedCodeCount(ts[1..], i - 1, j - 1);
    }
  }

  /** When the code is held once, every row holding it is that row. */
  lemma SingleMatch(ts: seq<ResetToken>, code: string)
    ensures TokenCount(ts, code) == 1 ==>
              forall a, b :: 0 <= a < |ts| && 0 <= b < |ts| && ts[a].token == code && ts[b].token == code ==> a == b
  {
    forall a, b | 0 <= a < |ts| && 0 <= b < |ts| && ts[a].token == code && ts[b].token == code && a != b
      ensures TokenCount(ts, code) >= 2
    {
      if a < b {
        SharedCodeCount(ts, a, b);
      } else {
        SharedCodeCount(ts, b, a);
      }
    }
  }

  /** Spending the only row holding a code keeps one code per user, keeps
      every row tied to a known user, and leaves the code unused. */
  lemma SpendKeepsTable(ts: seq<ResetToken>, k: nat, code: string, passwords: map<Id, string>, nextId: Id)
    requires k < |ts| && ts[k].token == code && TokenCount(ts, code) == 1
    requires forall j :: 0 <= j < |ts| ==> ts[j].userId in passwords && ts[j].id < nextId
    requires OnePerUser(ts)
    ensures OnePerUser(RemoveAt(ts, k))
    ensures forall j :: 0 <= j < |RemoveAt(ts, k)| ==> RemoveAt(ts, k)[j].userId in passwords && RemoveAt(ts, k)[j].id < nextId
    ensures TokenCount(RemoveAt(ts, k), code) == 0
  {
    var r := RemoveAt(ts, k);
    forall u
      ensures UserTokenCount(r, u) <= 1
    {
      RemoveAtUserCount(ts, k, u);
    }
    forall j | 0 <= j < |r|
      ensures r[j].userId in passwords && r[j].id < nextId
    {
      assert r[j] == if j < k then ts[j] else ts[j + 1];
    }
    RemoveAtTokenCount(ts, k, code);
  }

  class PasswordResetService {
    /** The user accounts: e-mail address to user id (addresses are unique). */
    const emails: map<string, Id>
    /** The encoded password of each user. */
    var passwords: map<Id, string>
    /** The `password_reset_token` table. */
    var tokens: seq<ResetToken>
    var nextId: Id
    /** The reset mails sent, in order. */
    var mails: seq<ResetMail>

    ghost predicate Valid()
      reads this
    {
      (forall e :: e in emails ==> emails[e] in passwords) &&
      (forall k :: 0 <= k < |tokens| ==> tokens[k].userId in passwords && tokens[k].id < nextId) &&
      OnePerUser(tokens)
    }

    constructor (emails: map<string, Id>, passwords: map<Id, string>)
      requires forall e :: e in emails ==> emails[e] in passwords
      ensures Valid()
      ensures this.emails == emails && this.passwords == passwords && tokens == [] && mails == []
    {
      this.emails := emails;
      this.passwords := passwords;
      tokens := [];
      nextId := 1;
      mails := [];
    }

    /** `sendResetCode(email)` as written; `number` is the random draw. With no
        transaction around it, `deleteByUser` throws for a user who still holds
        a code, so only a user without one gets a code and a mail. */
    method SendResetCode(email: string, number: int) returns (r: Result<string>)
      requires Valid() && 0 <= number < CODE_BOUND
      modifies this
      ensures Valid() && passwords == old(passwords)
      ensures r.Err? <==> email !in emails || UserTokenCount(old(tokens), emails[email]) > 0
      ensures email !in emails ==> r == Err(IllegalArgument)
      ensures email in emails && UserTokenCount(old(tokens), emails[email]) > 0 ==> r == Err(TransactionRequired)
      ensures r.Err? ==> tokens == old(tokens) && nextId == old(nextId) && mails == old(mails)
      ensures r.Ok? ==>
        r.value == GenerateCode(number) &&
        tokens == ReissueAsWritten(old(tokens), emails[email], ResetToken(old(nextId), r.value, emails[email])).value &&
        tokens == old(tokens) + [ResetToken(old(nextId), r.value, emails[email])] &&
        nextId == old(nextId) + 1 &&
        mails == old(mails) + [ResetMail(email, r.value)] &&
        UserTokenCount(tokens, emails[email]) == 1
    {
      if email !in emails {
        return Err(IllegalArgument);
      }
      var userId := emails[email];
      if UserTokenCount(tokens, userId) > 0 {
        return Err(TransactionRequired);
      }
      var code := GenerateCode(number);
      var t := ResetToken(nextId, code, userId);
      FirstCodeKeepsOnePerUser(tokens, t);
      WithoutAbsentUser(tokens, userId);
      tokens := tokens + [t];
      nextId := nextId + 1;
      mails := mails + [ResetMail(email, code)];
      r := Ok(code);
    }

    /** `sendResetCode(email)` as intended, inside a transaction: the user's
        old codes are deleted before the new one is saved. */
    method SendResetCodeInTransaction(email: string, number: int) returns (r: Result<string>)
      requires Valid() && 0 <= number < CODE_BOUND
      modifies this
      ensures Valid() && passwords == old(passwords)
      ensures r.Err? <==> email !in emails
      ensures r.Err? ==> r.error == IllegalArgument && tokens == old(tokens) && nextId == old(nextId) && mails == old(mails)
      ensures r.Ok? ==>
        r.value == GenerateCode(number) &&
        tokens == WithoutUser(old(tokens), emails[email]) + [ResetToken(old(nextId), r.value, emails[email])] &&
        nextId == old(nextId) + 1 &&
        mails == old(mails) + [ResetMail(email, r.value)] &&
        UserTokenCount(tokens, emails[email]) == 1
    {
      if email !in emails {
        return Err(IllegalArgument);
      }
      var userId := emails[email];
      var code := GenerateCode(number);
      var t := ResetToken(nextId, code, userId);
      ReissueKeepsOnePerUser(tokens, t);
      tokens := WithoutUser(tokens, userId) + [t];
      nextId := nextId + 1;
      mails := mails + [ResetMail(email, code)];
      r := Ok(code);
    }

    /** `isValidCode(code)`; `expired` is the token's `isExpired()`. */
    function IsValidCode(code: string, expired: ResetToken -> bool): (r: Result<bool>)
      reads this
      ensures r.Err? <==> TokenCount(tokens, code) >= 2
      ensures r == Ok(true) <==> exists k :: 0 <= k < |tokens| && tokens[k].token == code && TokenCount(tokens, code) == 1 && !expired(tokens[k])
    {
      SingleMatch(tokens, code);
      match FindByToken(tokens, code)
      case Err(e) => Err(e)
      case Ok(None) => Ok(false)
      case Ok(Some(k)) => Ok(!expired(tokens[k]))
    }

    /** `resetPassword(code, newPassword)`; `encode` is the password encoder.
        The token is deleted after the password is saved. */
    method ResetPassword(code: string, newPassword: string, encode: string -> string, expired: ResetToken -> bool) returns (r: Result<()>)
      requires Valid()
      modifies this
      ensures Valid() && nextId == old(nextId) && mails == old(mails)
      ensures r.Ok? <==> old(IsValidCode(code, expired)) == Ok(true)
      ensures TokenCount(old(tokens), code) >= 2 ==> r == Err(NonUniqueResult)
      ensures r.Err? && TokenCount(old(tokens), code) < 2 ==> r.error == IllegalArgument
      ensures r.Err? ==> passwords == old(passwords) && tokens == old(tokens)
      ensures r.Ok? ==>
        var k := FirstWithToken(old(tokens), code).value;
        passwords == old(passwords)[old(tokens)[k].userId := encode(newPassword)] &&
        tokens == RemoveAt(old(tokens), k) &&
        TokenCount(tokens, code) == 0
    {
      var found := FindByToken(tokens, code);
      if found.Err? {
        return Err(found.error);
      }
      if found.value.None? || expired(tokens[found.value.value]) {
        return Err(IllegalArgument);
      }
      var k := found.value.value;
      var t := tokens[k];
      SpendKeepsTable(tokens, k, code, passwords, nextId);
      passwords := passwords[t.userId := encode(newPassword)];
      tokens := RemoveAt(tokens, k);
      r := Ok(());
    }
  }

  /** Two rows with the same code block each other: neither can be checked or
      spent. */
  lemma SharedCodeBlocksReset(ts: seq<ResetToken>, i: nat, j: nat)
    requires i < j < |ts| && ts[i].token == ts[j].token
    ensures FindByToken(ts, ts[i].token) == Err(NonUniqueResult)
  {
    SharedCodeCount(ts, i, j);
  }

}
