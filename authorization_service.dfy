/**
 * The authorization service: checks an operator's credentials. The username is matched after
 * trimming and lower-casing against the active operators; a successful check records the login
 * time on that operator.
 */
module Authorization {
  import opened Wrappers
  import opened Text
  import opened Collections
  import opened Entities
  import Data

  /** The form the username is looked up in: trimmed, then lower-cased. */
  function LoginKey(username: string): string {
    Lower(Trim(username))
  }

  /** The lookup condition `o.Username == normalized && o.IsActive`. */
  function ActiveWithUsername(key: string): Operator -> bool {
    (o: Operator) => o.username == key && o.isActive
  }

  /** The answer and the operators table after the call. */
  datatype LoginOutcome = LoginOutcome(result: Result<bool, ServiceError>, operators: seq<Operator>)

  /** `o` is the one active operator whose username is `key`. */
  ghost predicate OnlyMatch(ops: seq<Operator>, i: nat, key: string) {
    && i < |ops| && ops[i].username == key && ops[i].isActive
    && forall j | 0 <= j < |ops| && j != i :: !(ops[j].username == key && ops[j].isActive)
  }

  /** `ValidateCredentialsAsync` against the operators as they are. Blank input answers false and
      changes nothing; otherwise the single active operator with the normalised username is
      looked up (several such operators make the lookup throw). The answer is true exactly when
      there is one and the password verifies against its hash, and every other outcome apart from
      the ambiguous lookup is false; then, and only then, that
      operator's `LastLoginAt` becomes `now` and nothing else in the table changes. */
  function Authenticate(ops: seq<Operator>, username: Option<string>, password: Option<string>,
                        verify: (string, string) -> bool, now: Ticks): (out: LoginOutcome)
    ensures IsNullOrWhiteSpace(username) || IsNullOrWhiteSpace(password) ==>
              out == LoginOutcome(Success(false), ops)
    ensures out.result == Success(true) <==>
              && !IsNullOrWhiteSpace(username) && !IsNullOrWhiteSpace(password)
              && exists i | 0 <= i < |ops| :: OnlyMatch(ops, i, LoginKey(username.value))
                                              && verify(password.value, ops[i].passwordHash)
    ensures out.result == Failure(AmbiguousOperator) <==>
              && !IsNullOrWhiteSpace(username) && !IsNullOrWhiteSpace(password)
              && exists i, j | 0 <= i < j < |ops| ::
                   ActiveWithUsername(LoginKey(username.value))(ops[i])
                   && ActiveWithUsername(LoginKey(username.value))(ops[j])
    ensures out.result.Success? || out.result == Failure(AmbiguousOperator)
    ensures out.result != Success(true) ==> out.operators == ops
    ensures out.result == Success(true) ==>
              exists i | 0 <= i < |ops| :: OnlyMatch(ops, i, LoginKey(username.value))
                                          && out.operators == ops[i := ops[i].(lastLoginAt := Some(now))]
  {
    if IsNullOrWhiteSpace(username) || IsNullOrWhiteSpace(password) then LoginOutcome(Success(false), ops)
    else
      var normalized := LoginKey(username.value);
      match SingleIndexWhere(ops, ActiveWithUsername(normalized))
      case NoMatch => LoginOutcome(Success(false), ops)
      case ManyMatches => LoginOutcome(Failure(AmbiguousOperator), ops)
      case OneMatch(i) =>
        if verify(password.value, ops[i].passwordHash)
        then LoginOutcome(Success(true), ops[i := ops[i].(lastLoginAt := Some(now))])
        else LoginOutcome(Success(false), ops)
  }

  class AuthorizationService {
    const db: Data.LogisticsDb

    constructor(db: Data.LogisticsDb)
      ensures this.db == db
    {
      this.db := db;
    }

    /** `ValidateCredentialsAsync`: answers and updates the operators table as `Authenticate` says.
        The password check is the `verify` parameter. */
    method ValidateCredentials(username: Option<string>, password: Option<string>,
                               verify: (string, string) -> bool, now: Ticks)
      returns (ok: Result<bool, ServiceError>)
      modifies db`operators
      ensures ok == Authenticate(old(db.operators), username, password, verify, now).result
      ensures db.operators == Authenticate(old(db.operators), username, password, verify, now).operators
    {
      if IsNullOrWhiteSpace(username) || IsNullOrWhiteSpace(password) {
        return Success(false);
      }
      ghost var out := Authenticate(db.operators, username, password, verify, now);
      var normalized := Lower(Trim(username.value));
      assert normalized == LoginKey(username.value);
      var op := SingleIndexWhere(db.operators, ActiveWithUsername(normalized));
      if op == NoMatch {
        assert out == LoginOutcome(Success(false), db.operators);
        return Success(false);
      }
      if op == ManyMatches {
        assert out == LoginOutcome(Failure(AmbiguousOperator), db.operators);
        return Failure(AmbiguousOperator);
      }
      var verified := verify(password.value, db.operators[op.index].passwordHash);
      if verified {
        assert out.operators == db.operators[op.index := db.operators[op.index].(lastLoginAt := Some(now))];
        db.operators := db.operators[op.index := db.operators[op.index].(lastLoginAt := Some(now))];
      } else {
        assert out == LoginOutcome(Success(false), db.operators);
      }
      ok := Success(verified);
    }
  }

  // ---- Properties ------------------------------------------------------------------------------

  /** The invariant of the operators table: no two active operators share a username. */
  ghost predicate ActiveUsernamesUnique(ops: seq<Operator>) {
    forall i, j | 0 <= i < j < |ops| && ops[i].isActive && ops[j].isActive :: ops[i].username != ops[j].username
  }

  /** While active usernames are unique the lookup never throws, and a login stamps only the login
      time, so it keeps the invariant. */
  lemma LoginNeverAmbiguous(ops: seq<Operator>, username: Option<string>, password: Option<string>,
                            verify: (string, string) -> bool, now: Ticks)
    requires ActiveUsernamesUnique(ops)
    ensures Authenticate(ops, username, password, verify, now).result.Success?
    ensures ActiveUsernamesUnique(Authenticate(ops, username, password, verify, now).operators)
  {
    var out := Authenticate(ops, username, password, verify, now);
    if out.result == Failure(AmbiguousOperator) {
      assert false;
    } else if out.result == Success(true) {
      var k :| 0 <= k < |ops| && OnlyMatch(ops, k, LoginKey(username.value))
               && out.operators == ops[k := ops[k].(lastLoginAt := Some(now))];
      StampKeepsUnique(ops, k, now);
    }
  }

  /** Recording a login time changes neither a username nor an active flag. */
  lemma StampKeepsUnique(ops: seq<Operator>, k: nat, now: Ticks)
    requires ActiveUsernamesUnique(ops) && k < |ops|
    ensures ActiveUsernamesUnique(ops[k := ops[k].(lastLoginAt := Some(now))])
  {
    var after := ops[k := ops[k].(lastLoginAt := Some(now))];
    forall i, j | 0 <= i < j < |after| && after[i].isActive && after[j].isActive
      ensures after[i].username != after[j].username
    {
      assert after[i].username == ops[i].username && after[i].isActive == ops[i].isActive;
      assert after[j].username == ops[j].username && after[j].isActive == ops[j].isActive;
    }
  }

  /** With the stored username in its normalised form, an operator logs in with any spelling of
      it that differs in case or surrounding white space: the answer is the password check. */
  lemma LoginMatchesNormalisedUsername(ops: seq<Operator>, i: nat, username: string, password: string,
                                       verify: (string, string) -> bool, now: Ticks)
    requires ActiveUsernamesUnique(ops)
    requires i < |ops| && ops[i].isActive && ops[i].username == LoginKey(username)
    requires !AllWhiteSpace(username) && !AllWhiteSpace(password)
    ensures Authenticate(ops, Some(username), Some(password), verify, now).result
              == Success(verify(password, ops[i].passwordHash))
  {
    UniqueActiveMatch(ops, i, LoginKey(username));
  }

  /** Under the invariant, the lookup finds the active operator with that username as its single match. */
  lemma UniqueActiveMatch(ops: seq<Operator>, i: nat, key: string)
    requires ActiveUsernamesUnique(ops)
    requires i < |ops| && ops[i].isActive && ops[i].username == key
    ensures SingleIndexWhere(ops, ActiveWithUsername(key)) == OneMatch(i)
  {
    var p := ActiveWithUsername(key);
    forall j | 0 <= j < |ops| && j != i ensures !p(ops[j]) {
      if j < i {
        assert !(ops[j].isActive && ops[i].isActive) || ops[j].username != ops[i].username;
      } else {
        assert !(ops[i].isActive && ops[j].isActive) || ops[i].username != ops[j].username;
      }
    }
  }

  /** A login that succeeded succeeds again, later, with the same credentials: recording the login
      time does not disturb the lookup. */
  lemma LoginIsRepeatable(ops: seq<Operator>, username: Option<string>, password: Option<string>,
                          verify: (string, string) -> bool, now: Ticks, later: Ticks)
    requires Authenticate(ops, username, password, verify, now).result == Success(true)
    ensures var after := Authenticate(ops, username, password, verify, now).operators;
            Authenticate(after, username, password, verify, later).result == Success(true)
  {
    var after := Authenticate(ops, username, password, verify, now).operators;
    var key := LoginKey(username.value);
    var i :| 0 <= i < |ops| && OnlyMatch(ops, i, key) && verify(password.value, ops[i].passwordHash)
             && after == ops[i := ops[i].(lastLoginAt := Some(now))];
    assert OnlyMatch(after, i, key);
    assert after[i].passwordHash == ops[i].passwordHash;
  }

  /** The lookup compares against the normalised input, so only an operator whose stored username
      has no upper-case letter can ever log in. */
  lemma OnlyLowerCaseUsernamesLogIn(ops: seq<Operator>, username: Option<string>, password: Option<string>,
                                    verify: (string, string) -> bool, now: Ticks, i: nat)
    requires i < |ops| && !NoUpper(ops[i].username)
    ensures var out := Authenticate(ops, username, password, verify, now);
            out.result == Success(true) ==> out.operators[i] == ops[i]
  {
    var out := Authenticate(ops, username, password, verify, now);
    if out.result == Success(true) {
      var key := LoginKey(username.value);
      LowerIsCanonical(Trim(username.value));
      var k :| 0 <= k < |ops| && OnlyMatch(ops, k, key) && out.operators == ops[k := ops[k].(lastLoginAt := Some(now))];
      assert k != i;
    }
  }

  /** The username of the login test: "TestUser" is looked up as "testuser". */
  lemma LoginKeyExample()
    ensures LoginKey("TestUser") == "testuser"
  {
    NoPadding("TestUser");
    LowerExample();
  }

  lemma LowerExample()
    ensures Lower("TestUser") == "testuser"
  {
    var l := Lower("TestUser");
    forall i | 0 <= i < 8 ensures l[i] == "testuser"[i] {
      assert l[i] == LowerChar("TestUser"[i]);
    }
  }

  /** A string without white space at either end is left as it is by `Trim`. */
  lemma NoPadding(s: string)
    requires |s| > 0 && !IsWhiteSpace(s[0]) && !IsWhiteSpace(s[|s| - 1])
    ensures Trim(s) == s
  {
    var a := TrimStart(s);
    var t := TrimEnd(a);
  }
}
