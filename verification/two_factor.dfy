/** `TwoFactorAuthenticationService`: turning two-factor login on and off, and
    the one-time code a user receives by mail and then presents once. */
module TwoFactor {
  import opened Common

  const CODE_EXPIRY_MINUTES: int := 5
  const CODE_LENGTH: nat := 6

  /** The two-factor fields of a user account, and the address codes go to. */
  datatype TwoFactorUser = TwoFactorUser(email: string, enabled: bool, code: Option<string>, expiry: Option<Time>)

  /** One code mail sent. */
  datatype CodeMail = CodeMail(to: string, code: string)

  predicate DigitDraws(ds: seq<int>) {
    forall k :: 0 <= k < |ds| ==> 0 <= ds[k] <= 9
  }

  /** The characters `random.nextInt(10)` appends, one per draw. */
  function DigitString(ds: seq<int>): (s: string)
    requires DigitDraws(ds)
    ensures |s| == |ds| && AllDigits(s)
    ensures forall k :: 0 <= k < |ds| ==> s[k] as int - '0' as int == ds[k]
  {
    if ds == [] then [] else DigitString(ds[..|ds| - 1]) + [DigitChar(ds[|ds| - 1])]
  }

  /** `generateRandomCode`: `draws` are the values `random.nextInt(10)`
      returns, in order. */
  method GenerateRandomCode(draws: seq<int>) returns (code: string)
    requires |draws| == CODE_LENGTH && DigitDraws(draws)
    ensures code == DigitString(draws)
    ensures |code| == CODE_LENGTH && AllDigits(code)
  {
    code := [];
    for i := 0 to CODE_LENGTH
      invariant code == DigitString(draws[..i])
    {
      assert draws[..i + 1][..i] == draws[..i];
      code := code + [DigitChar(draws[i])];
    }
    assert draws[..CODE_LENGTH] == draws;
  }

  /** A string of w digits denotes a number below 10^w; so a code is one of
      the million values 000000 to 999999. */
  lemma {:induction false} DigitsValueBound(s: string)
    requires AllDigits(s)
    ensures DigitsValue(s) < Pow10(|s|)
  {
    if s != [] {
      DigitsValueBound(s[..|s| - 1]);
    }
  }

  /** The decision `verifyTwoFactorCode` takes on a user's stored code: the
      answer and the user afterwards. */
  function CheckCode(u: TwoFactorUser, code: string, now: Time): (r: (bool, TwoFactorUser))
    ensures r.0 <==> u.code == Some(code) && u.expiry.Some? && now <= u.expiry.value
    ensures u.code.None? || u.expiry.None? ==> r.1 == u
    ensures u.code.Some? && u.expiry.Some? && (now > u.expiry.value || u.code.value == code) ==>
              r.1 == u.(code := None, expiry := None)
    ensures u.code.Some? && u.expiry.Some? && now <= u.expiry.value && u.code.value != code ==> r.1 == u
  {
    if u.code.None? || u.expiry.None? then (false, u)
    else if now > u.expiry.value then (false, u.(code := None, expiry := None))
    else if u.code.value == code then (true, u.(code := None, expiry := None))
    else (false, u)
  }

  /** A code that was accepted cannot be accepted again. */
  lemma CodeIsSingleUse(u: TwoFactorUser, code: string, now: Time, code': string, later: Time)
    requires CheckCode(u, code, now).0
    ensures !CheckCode(CheckCode(u, code, now).1, code', later).0
  {
  }

  /** Once expired, a code stays unusable, whatever is presented. */
  lemma ExpiredCodeIsCleared(u: TwoFactorUser, code: string, now: Time, code': string, later: Time)
    requires u.expiry.Some? && now > u.expiry.value
    ensures !CheckCode(u, code, now).0
    ensures !CheckCode(CheckCode(u, code, now).1, code', later).0
  {
  }

  class TwoFactorAuthenticationService {
    /** The user accounts, by username. */
    var users: map<string, TwoFactorUser>
    /** The code mails sent, in order. */
    var mails: seq<CodeMail>

    constructor (users: map<string, TwoFactorUser>)
      ensures this.users == users && mails == []
    {
      this.users := users;
      mails := [];
    }

    /** `enableTwoFactorAuthentication(token, username)`; `tokenValid` is the
        JWT check of the bearer token. */
    method EnableTwoFactorAuthentication(tokenValid: bool, username: string) returns (r: Result<()>)
      modifies this
      ensures mails == old(mails)
      ensures !tokenValid ==> r == Err(SecurityViolation)
      ensures tokenValid && username !in old(users) ==> r == Err(UserLookupFailed)
      ensures r.Ok? <==> tokenValid && username in old(users)
      ensures r.Err? ==> users == old(users)
      ensures r.Ok? ==> users == old(users)[username := old(users)[username].(enabled := true)]
    {
      if !tokenValid {
        return Err(SecurityViolation);
      }
      if username !in users {
        return Err(UserLookupFailed);
      }
      users := users[username := users[username].(enabled := true)];
      r := Ok(());
    }

    /** `disableTwoFactorAuthentication(token, username)`: the flag, the code
        and its expiry are all cleared. */
    method DisableTwoFactorAuthentication(tokenValid: bool, username: string) returns (r: Result<()>)
      modifies this
      ensures mails == old(mails)
      ensures !tokenValid ==> r == Err(SecurityViolation)
      ensures tokenValid && username !in old(users) ==> r == Err(UserLookupFailed)
      ensures r.Ok? <==> tokenValid && username in old(users)
      ensures r.Err? ==> users == old(users)
      ensures r.Ok? ==> users == old(users)[username := old(users)[username].(enabled := false, code := None, expiry := None)]
    {
      if !tokenValid {
        return Err(SecurityViolation);
      }
      if username !in users {
        return Err(UserLookupFailed);
      }
      users := users[username := users[username].(enabled := false, code := None, expiry := None)];
      r := Ok(());
    }

    /** `sendTwoFactorCode(token, username)`: a fresh six-digit code valid for
        five minutes, stored and mailed. */
    method SendTwoFactorCode(tokenValid: bool, username: string, now: Time, draws: seq<int>) returns (r: Result<string>)
      requires |draws| == CODE_LENGTH && DigitDraws(draws)
      modifies this
      ensures !tokenValid ==> r == Err(SecurityViolation)
      ensures tokenValid && username !in old(users) ==> r == Err(UserLookupFailed)
      ensures r.Ok? <==> tokenValid && username in old(users)
      ensures r.Err? ==> users == old(users) && mails == old(mails)
      ensures r.Ok? ==> |r.value| == CODE_LENGTH && AllDigits(r.value) && r.value == DigitString(draws)
      ensures r.Ok? ==> users == old(users)[username := old(users)[username].(code := Some(r.value),
                                                                              expiry := Some(now + CODE_EXPIRY_MINUTES * MINUTE))]
      ensures r.Ok? ==> mails == old(mails) + [CodeMail(old(users)[username].email, r.value)]
    {
      if !tokenValid {
        return Err(SecurityViolation);
      }
      if username !in users {
        return Err(UserLookupFailed);
      }
      var code := GenerateRandomCode(draws);
      var u := users[username];
      users := users[username := u.(code := Some(code), expiry := Some(now + CODE_EXPIRY_MINUTES * MINUTE))];
      mails := mails + [CodeMail(u.email, code)];
      r := Ok(code);
    }

    /** `verifyTwoFactorCode(token, username, code)`. */
    method VerifyTwoFactorCode(tokenValid: bool, username: string, code: string, now: Time) returns (r: Result<bool>)
      modifies this
      ensures mails == old(mails)
      ensures !tokenValid ==> r == Err(SecurityViolation)
      ensures tokenValid && username !in old(users) ==> r == Err(UserLookupFailed)
      ensures r.Err? ==> users == old(users)
      ensures tokenValid && username in old(users) ==>
                r == Ok(CheckCode(old(users)[username], code, now).0) &&
                users == old(users)[username := CheckCode(old(users)[username], code, now).1]
    {
      if !tokenValid {
        return Err(SecurityViolation);
      }
      if username !in users {
        return Err(UserLookupFailed);
      }
      var u := users[username];
      if u.code.None? || u.expiry.None? {
        return Ok(false);
      }
      if now > u.expiry.value {
        users := users[username := u.(code := None, expiry := None)];
        return Ok(false);
      }
      var isValid := u.code.value == code;
      if isValid {
        users := users[username := u.(code := None, expiry := None)];
      }
      r := Ok(isValid);
    }
  }

  /** A code just sent is accepted until its expiry, and a wrong code is
      refused without touching it. */
  lemma SentCodeWindow(u: TwoFactorUser, code: string, sentAt: Time, now: Time, other: string)
    requires sentAt <= now <= sentAt + CODE_EXPIRY_MINUTES * MINUTE && other != code
    ensures var v := u.(code := Some(code), expiry := Some(sentAt + CODE_EXPIRY_MINUTES * MINUTE));
            CheckCode(v, code, now).0 && !CheckCode(v, other, now).0 && CheckCode(v, other, now).1 == v
  {
  }
}
