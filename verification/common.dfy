/** Shared vocabulary of the marketplace back end: optional values, the
    exceptions the services throw (as failure values), identifiers, clock
    units, user roles and the fixed-width integer arithmetic of the JVM. */
module Common {

  datatype Option<+T> = None | Some(value: T)

  /** The HTTP status carried by an EventServiceException. */
  datatype HttpStatus = BadRequest | Forbidden | Conflict | InternalServerError

  /** One constructor per exception class the modelled services throw. */
  datatype Failure =
    | ResourceNotFound                       // ResourceNotFoundException
    | EventServiceError(status: HttpStatus)  // EventServiceException
    | IllegalState                           // IllegalStateException
    | IllegalArgument                        // IllegalArgumentException
    | SecurityViolation                      // SecurityException
    | AccessDenied                           // AccessDeniedException
    | UserLookupFailed                       // RuntimeException("User not found")
    | InvalidQRCode                          // InvalidQRCodeException
    | ClassCast                              // ClassCastException
    | NullPointer                            // NullPointerException
    | NonUniqueResult                        // IncorrectResultSizeDataAccessException
    | TransactionRequired                    // InvalidDataAccessApiUsageException (TransactionRequiredException)

  datatype Result<+T> = Ok(value: T) | Err(error: Failure)

  /** Database identifiers (Java Long). */
  type Id = int

  /** Instants, in whole seconds. */
  type Time = int

  const MINUTE: int := 60
  const HOUR: int := 3600
  const DAY: int := 86400

  /** UserRoleName. */
  datatype Role = UserRole | InstructorRole | AdminRole

  /** A row of the user directory: its id and its (nullable) role. */
  datatype User = User(id: Id, role: Option<Role>)

  function Min(a: int, b: int): (m: int)
    ensures m <= a && m <= b && (m == a || m == b)
  {
    if a <= b then a else b
  }

  const TWO_32: int := 0x1_0000_0000

  /** Java's narrowing of a long to an int (`Long.intValue()`): the low 32 bits,
      read as a signed two's-complement number. */
  function Wrap32(x: int): (r: int)
    ensures -0x8000_0000 <= r < 0x8000_0000
    ensures (r - x) % TWO_32 == 0
    ensures -0x8000_0000 <= x < 0x8000_0000 ==> r == x
  {
    (x + 0x8000_0000) % TWO_32 - 0x8000_0000
  }

  /** The user ids of a sequence of users, in order. */
  function Ids(us: seq<User>): (ids: seq<Id>)
    ensures |ids| == |us|
    ensures forall k :: 0 <= k < |us| ==> ids[k] == us[k].id
  {
    if us == [] then [] else [us[0].id] + Ids(us[1..])
  }

  /** The users whose role is present and equal to `role`, in directory order. */
  function WithRole(us: seq<User>, role: Role): (r: seq<User>)
    ensures forall u :: u in r <==> u in us && u.role == Some(role)
    ensures |r| <= |us|
  {
    if us == [] then []
    else (if us[0].role == Some(role) then [us[0]] else []) + WithRole(us[1..], role)
  }

  lemma {:induction false} WithRoleAppend(a: seq<User>, b: seq<User>, role: Role)
    ensures WithRole(a + b, role) == WithRole(a, role) + WithRole(b, role)
  {
    if a == [] {
      assert a + b == b;
    } else {
      assert (a + b)[1..] == a[1..] + b;
      WithRoleAppend(a[1..], b, role);
    }
  }

  /** `findById` on a table whose rows carry their id as `idOf`: the position of
      the first row with that id, if any (`FindByIdFirst` says the rest). */
  function FindById<T>(rows: seq<T>, idOf: T -> Id, id: Id): (r: Option<nat>)
    ensures r.Some? ==> r.value < |rows| && idOf(rows[r.value]) == id
  {
    if rows == [] then None
    else if idOf(rows[0]) == id then Some(0)
    else match FindById(rows[1..], idOf, id)
      case None => None
      case Some(k) => Some(k + 1)
  }

  /** The row found is the first with that id, and none is found exactly when
      no row has it. */
  lemma {:induction false} FindByIdFirst<T>(rows: seq<T>, idOf: T -> Id, id: Id)
    ensures var r := FindById(rows, idOf, id);
            r.Some? ==> forall k :: 0 <= k < r.value ==> idOf(rows[k]) != id
    ensures FindById(rows, idOf, id).None? <==> forall k :: 0 <= k < |rows| ==> idOf(rows[k]) != id
  {
    if rows != [] && idOf(rows[0]) != id {
      FindByIdFirst(rows[1..], idOf, id);
      assert forall k :: 1 <= k < |rows| ==> rows[k] == rows[1..][k - 1];
    }
  }

  /** `userRepository.findById`: the position of the first row with that id. */
  function FindUser(us: seq<User>, id: Id): (r: Option<nat>)
    ensures r.Some? ==> r.value < |us| && us[r.value].id == id
    ensures r.None? <==> forall k :: 0 <= k < |us| ==> us[k].id != id
  {
    FindByIdFirst(us, (x: User) => x.id, id);
    FindById(us, (x: User) => x.id, id)
  }

  /** Decimal digits: the characters '0' to '9'. */
  predicate IsDigit(c: char) {
    '0' <= c <= '9'
  }

  predicate AllDigits(s: string) {
    forall k :: 0 <= k < |s| ==> IsDigit(s[k])
  }

  function DigitChar(d: int): (c: char)
    requires 0 <= d <= 9
    ensures IsDigit(c) && c as int - '0' as int == d
  {
    ('0' as int + d) as char
  }

  /** The number a string of digits denotes, most significant digit first. */
  function DigitsValue(s: string): (v: nat)
    requires AllDigits(s)
  {
    if s == [] then 0 else DigitsValue(s[..|s| - 1]) * 10 + (s[|s| - 1] as int - '0' as int)
  }

  function Pow10(w: nat): (p: nat)
    ensures p >= 1
  {
    if w == 0 then 1 else 10 * Pow10(w - 1)
  }

  /** `String.format("%0<w>d", n)` for a number that fits in `w` digits: the
      last `w` decimal digits of `n`, with leading zeros. */
  function ZeroPad(n: nat, w: nat): (s: string)
    ensures |s| == w && AllDigits(s)
  {
    if w == 0 then [] else ZeroPad(n / 10, w - 1) + [DigitChar(n % 10)]
  }

  /** Reading the padded digits of a number that fits back gives the number. */
  lemma {:induction false} ZeroPadValue(n: nat, w: nat)
    requires n < Pow10(w)
    ensures DigitsValue(ZeroPad(n, w)) == n
  {
    if w > 0 {
      var q, d := n / 10, n % 10;
      SplitLastDigit(n, w);
      var s := ZeroPad(n, w);
      assert s == ZeroPad(q, w - 1) + [DigitChar(d)];
      assert s[..|s| - 1] == ZeroPad(q, w - 1);
      ZeroPadValue(q, w - 1);
      assert DigitsValue(s) == DigitsValue(ZeroPad(q, w - 1)) * 10 + d;
    }
  }

  /** A number below 10^w is ten times one below 10^(w-1) plus its last digit. */
  lemma SplitLastDigit(n: nat, w: nat)
    requires w > 0 && n < Pow10(w)
    ensures n == n / 10 * 10 + n % 10 && n / 10 < Pow10(w - 1)
  {
    assert Pow10(w) == 10 * Pow10(w - 1);
  }

  /** Padding is one-to-one on the numbers that fit. */
  lemma ZeroPadInjective(n: nat, n': nat, w: nat)
    requires n < Pow10(w) && n' < Pow10(w)
    requires ZeroPad(n, w) == ZeroPad(n', w)
    ensures n == n'
  {
    ZeroPadValue(n, w);
    ZeroPadValue(n', w);
  }
}
