/** User codes: a role prefix and eight digits, allocated from the greatest code of the role. */
module UserCodes {
  import opened Wrappers
  import opened Text

  datatype Role = Babysitter | Parent | Manager | Admin
  datatype User = User(role: Role, userCode: string)

  const WIDTH := 8
  const LIMIT := 100_000_000

  function Prefix(role: Role): (p: string)
    requires role != Admin
    ensures |p| == 5
  {
    match role
    case Babysitter => "AB704"
    case Parent => "UR410"
    case Manager => "MN410"
  }

  /** generateUserCode; num is None for NaN. */
  function GenerateUserCode(role: Role, num: Option<nat>): Result<string> {
    if num.Some? && num.value >= LIMIT then Err(InvalidUserCode)
    else if role == Admin then Err(InvalidUserCode)
    else Ok(Prefix(role) + PadStart(if num.Some? then ToString(num.value) else "NaN", WIDTH, '0'))
  }

  function CodesOfRole(users: seq<User>, role: Role): seq<string> {
    if users == [] then []
    else
      CodesOfRole(users[..|users| - 1], role)
      + if users[|users| - 1].role == role then [users[|users| - 1].userCode] else []
  }

  /** slice(-8) */
  function LastChars(s: string): string { if |s| <= WIDTH then s else s[|s| - WIDTH..] }

  /** getCurrentUserByRole */
  function CurrentNumber(users: seq<User>, role: Role): Option<nat> {
    match MaxText(CodesOfRole(users, role))
    case None => Some(0)
    case Some(code) => if code == "" then Some(0) else ParseInt(LastChars(code))
  }

  function Successor(n: Option<nat>): Option<nat> { if n.Some? then Some(n.value + 1) else None }

  predicate HasCode(users: seq<User>, code: string) { exists i :: 0 <= i < |users| && users[i].userCode == code }

  /** The user setPassword hands to the database, with the code it allocated. */
  function Candidate(users: seq<User>, role: Role): Result<User> {
    match GenerateUserCode(role, Successor(CurrentNumber(users, role)))
    case Err(e) => Err(e)
    case Ok(code) => Ok(User(role, code))
  }

  /** The user setPassword inserts once the one-time code and the language are accepted; userCode is unique. */
  function NewUser(users: seq<User>, role: Role): Result<User> {
    var r := Candidate(users, role);
    if r.Ok? && HasCode(users, r.value.userCode) then Err(DuplicateKey) else r
  }

  // ---------------------------------------------------------------- well-formed tables

  predicate EightDigits(s: string) { |s| == WIDTH && AllDigits(s) }

  /** A code carries its role's prefix and eight digits; an administrator's code carries no role prefix. */
  predicate WellFormed(u: User) {
    if u.role == Admin then |u.userCode| < 5 || u.userCode[..5] !in {"AB704", "UR410", "MN410"}
    else |u.userCode| == 5 + WIDTH && u.userCode[..5] == Prefix(u.role) && EightDigits(u.userCode[5..])
  }

  predicate AllWellFormed(users: seq<User>) { forall i :: 0 <= i < |users| ==> WellFormed(users[i]) }

  function NumberOf(u: User): nat
    requires u.role != Admin && WellFormed(u)
  {
    Value(u.userCode[5..])
  }

  lemma {:induction false} CodesOfRoleAre(users: seq<User>, role: Role, code: string)
    ensures code in CodesOfRole(users, role)
            <==> exists i :: 0 <= i < |users| && users[i].role == role && users[i].userCode == code
  {
    if users != [] {
      var last := |users| - 1;
      CodesOfRoleAre(users[..last], role, code);
      if i :| 0 <= i < |users| && users[i].role == role && users[i].userCode == code {
        if i < last { assert users[..last][i].userCode == code; }
      }
      if code in CodesOfRole(users[..last], role) {
        var i :| 0 <= i < last && users[..last][i].role == role && users[..last][i].userCode == code;
        assert users[i].userCode == code;
      }
    }
  }

  lemma EightDigitBound()
    ensures Pow10(WIDTH) == LIMIT
  {
    assert Pow10(4) == 10_000;
    assert Pow10(8) == 100_000_000;
  }

  lemma {:induction false} ValueBound(s: string)
    requires AllDigits(s)
    ensures Value(s) < Pow10(|s|)
  {
    if s != [] { ValueBound(s[..|s| - 1]); }
  }

  /** In one role, string order of codes is order of their numbers. */
  lemma OrderOfCodes(a: User, b: User)
    requires a.role == b.role != Admin && WellFormed(a) && WellFormed(b)
    ensures LexLeq(a.userCode, b.userCode) <==> NumberOf(a) <= NumberOf(b)
  {
    assert a.userCode == Prefix(a.role) + a.userCode[5..] && b.userCode == Prefix(a.role) + b.userCode[5..];
    LexSamePrefix(Prefix(a.role), a.userCode[5..], b.userCode[5..]);
    LexIsNumeric(a.userCode[5..], b.userCode[5..]);
  }

  /** The allocator reads the greatest number of the role, 0 when the role has no user. */
  lemma CurrentIsGreatest(users: seq<User>, role: Role)
    requires AllWellFormed(users) && role != Admin
    ensures CurrentNumber(users, role).Some?
    ensures forall i :: 0 <= i < |users| && users[i].role == role ==>
              NumberOf(users[i]) <= CurrentNumber(users, role).value
    ensures CurrentNumber(users, role) == Some(0)
            || exists i :: 0 <= i < |users| && users[i].role == role
                           && NumberOf(users[i]) == CurrentNumber(users, role).value
  {
    var codes := CodesOfRole(users, role);
    if codes == [] {
      if i :| 0 <= i < |users| && users[i].role == role {
        CodesOfRoleAre(users, role, users[i].userCode);
        assert false;
      }
    } else {
      CodesOfRoleAre(users, role, MaxText(codes).value);
      var m :| 0 <= m < |users| && users[m].role == role && users[m].userCode == MaxText(codes).value;
      assert LastChars(users[m].userCode) == users[m].userCode[5..];
      DigitPrefixOfDigits(users[m].userCode[5..]);
      forall i | 0 <= i < |users| && users[i].role == role ensures NumberOf(users[i]) <= NumberOf(users[m]) {
        CodesOfRoleAre(users, role, users[i].userCode);
        var k :| 0 <= k < |codes| && codes[k] == users[i].userCode;
        MaxTextIsGreatest(codes, k);
        OrderOfCodes(users[i], users[m]);
      }
    }
  }

  lemma PrintedUser(role: Role, n: nat)
    requires role != Admin && n < LIMIT
    ensures var r := GenerateUserCode(role, Some(n));
            r.Ok? && WellFormed(User(role, r.value)) && NumberOf(User(role, r.value)) == n
  {
    EightDigitBound();
    PaddedNumber(n, WIDTH);
    var code := GenerateUserCode(role, Some(n)).value;
    assert code[..5] == Prefix(role) && code[5..] == PadStart(ToString(n), WIDTH, '0');
  }

  /** Which prefix goes with which role, in the codes themselves; administrators get none. */
  lemma PrintedPrefix(role: Role, n: nat)
    requires n < LIMIT
    ensures match GenerateUserCode(role, Some(n))
            case Ok(code) =>
              && |code| == 13 && AllDigits(code[5..])
              && (role == Babysitter <==> code[..5] == "AB704")
              && (role == Parent <==> code[..5] == "UR410")
              && (role == Manager <==> code[..5] == "MN410")
            case Err(_) => role == Admin
  {
    if role != Admin {
      PrintedUser(role, n);
      var code := GenerateUserCode(role, Some(n)).value;
      assert code[..5] == Prefix(role);
      assert "AB704"[0] == 'A' && "UR410"[0] == 'U' && "MN410"[0] == 'M';
    }
  }

  /** Well-formed users with one code have one role and one number. */
  lemma SameCodeSameUser(a: User, b: User)
    requires WellFormed(a) && WellFormed(b) && a.userCode == b.userCode && b.role != Admin
    ensures a == b && NumberOf(a) == NumberOf(b)
  {
    assert Prefix(Babysitter)[0] == 'A' && Prefix(Parent)[0] == 'U' && Prefix(Manager)[0] == 'M';
    assert b.userCode[..5][0] == b.userCode[0];
  }

  /**
   Over any table of well-formed codes, however they were produced, the allocated code differs from every code of
   every role and is well formed; allocation fails exactly for administrators and when the role's numbers have
   reached the last eight-digit one.
   */
  lemma AllocationIsFresh(users: seq<User>, role: Role)
    requires AllWellFormed(users)
    ensures match NewUser(users, role)
            case Ok(u) =>
              && u.role == role && role != Admin && WellFormed(u) && !HasCode(users, u.userCode)
              && CurrentNumber(users, role) == Some(NumberOf(u) - 1)
            case Err(e) => e == InvalidUserCode
    ensures NewUser(users, role).Err?
            <==> role == Admin
                 || exists i :: 0 <= i < |users| && users[i].role == role && NumberOf(users[i]) == LIMIT - 1
  {
    if role != Admin {
      CurrentIsGreatest(users, role);
      var n := CurrentNumber(users, role).value + 1;
      NumbersFit(users);
      if n < LIMIT {
        PrintedUser(role, n);
        var u := User(role, GenerateUserCode(role, Some(n)).value);
        forall i | 0 <= i < |users| ensures users[i].userCode != u.userCode {
          if users[i].userCode == u.userCode { SameCodeSameUser(users[i], u); }
        }
      }
    }
  }

  lemma NumbersFit(users: seq<User>)
    requires AllWellFormed(users)
    ensures forall i :: 0 <= i < |users| && users[i].role != Admin ==> NumberOf(users[i]) < LIMIT
  {
    EightDigitBound();
    forall i | 0 <= i < |users| && users[i].role != Admin ensures NumberOf(users[i]) < LIMIT {
      ValueBound(users[i].userCode[5..]);
    }
  }

  // ---------------------------------------------------------------- runs

  /** Sign-ups of users with the given roles, one after another; a failed one leaves the table alone. */
  function Run(users: seq<User>, roles: seq<Role>): seq<User>
    decreases |roles|
  {
    if roles == [] then users
    else
      var r := NewUser(users, roles[0]);
      Run(if r.Ok? then users + [r.value] else users, roles[1..])
  }

  predicate DistinctCodes(users: seq<User>) {
    forall i, j :: 0 <= i < j < |users| ==> users[i].userCode != users[j].userCode
  }

  /** The same sign-ups on a table whose codes are not a unique column. */
  function UncheckedRun(users: seq<User>, roles: seq<Role>): seq<User>
    decreases |roles|
  {
    if roles == [] then users
    else
      var r := Candidate(users, roles[0]);
      UncheckedRun(if r.Ok? then users + [r.value] else users, roles[1..])
  }

  /**
   The allocator alone keeps codes well formed and distinct over every run of sign-ups, without end and without the
   unique column, which never refuses anything.
   */
  lemma {:induction false} AllocatorKeepsDistinct(users: seq<User>, roles: seq<Role>)
    requires AllWellFormed(users) && DistinctCodes(users)
    ensures AllWellFormed(UncheckedRun(users, roles)) && DistinctCodes(UncheckedRun(users, roles))
    ensures Run(users, roles) == UncheckedRun(users, roles)
    decreases |roles|
  {
    if roles != [] {
      AllocationIsFresh(users, roles[0]);
      var r := Candidate(users, roles[0]);
      assert NewUser(users, roles[0]) == r;
      var next := if r.Ok? then users + [r.value] else users;
      forall i, j | 0 <= i < j < |next| ensures next[i].userCode != next[j].userCode {
        if j == |users| { assert !HasCode(users, r.value.userCode); }
      }
      AllocatorKeepsDistinct(next, roles[1..]);
    }
  }

  /** A one-time code. */
  datatype Otp = Otp(email: string, text: string, forSignup: bool, isActive: bool)

  predicate Accepts(o: Otp, email: string, text: string) {
    o.isActive && o.forSignup && o.email == email && o.text == text
  }

  function FindOtp(otps: seq<Otp>, email: string, text: string): (r: Option<nat>)
    ensures r.Some? ==> r.value < |otps| && Accepts(otps[r.value], email, text)
    ensures r.None? ==> forall i :: 0 <= i < |otps| ==> !Accepts(otps[i], email, text)
  {
    if otps == [] then None
    else
      var r := FindOtp(otps[..|otps| - 1], email, text);
      if r.Some? then r else if Accepts(otps[|otps| - 1], email, text) then Some(|otps| - 1) else None
  }

  /** The user and one-time-code tables as the session service changes them. */
  class SessionService {
    var users: seq<User>
    var otps: seq<Otp>

    /**
     setPassword, given the upper-cased code and whether the language is supported. An accepted code is used up even
     when the call then fails.
     */
    method SetPassword(role: Role, email: string, otp: string, languageSupported: bool) returns (r: Result<User>)
      modifies this
      ensures var found := FindOtp(old(otps), email, otp);
              && r == (if found.None? then Err(OtpNotMatch)
                       else if !languageSupported then Err(LanguageNotSupported)
                       else NewUser(old(users), role))
              && otps == (if found.None? then old(otps)
                          else old(otps)[found.value := old(otps)[found.value].(isActive := false)])
      ensures users == if r.Ok? then old(users) + [r.value] else old(users)
      ensures r == Err(OtpNotMatch) <==>
                !exists i :: 0 <= i < |old(otps)| && old(otps)[i] == Otp(email, otp, true, true)
    {
      var userOtp := FindOtp(otps, email, otp);
      if userOtp.None? {
        return Err(OtpNotMatch);
      }
      otps := otps[userOtp.value := otps[userOtp.value].(isActive := false)];
      if !languageSupported {
        return Err(LanguageNotSupported);
      }
      var current := CurrentNumber(users, role);
      var code := GenerateUserCode(role, Successor(current));
      if code.Err? {
        return Err(code.error);
      }
      if HasCode(users, code.value) {
        return Err(DuplicateKey);
      }
      var user := User(role, code.value);
      users := users + [user];
      return Ok(user);
    }
  }
}
