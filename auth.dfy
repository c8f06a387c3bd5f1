/**
 * Email registration and login. The user repository is a map from the
 * stored (lower-cased) email to the user row; the database's unique
 * constraint on the email column is the failure of a save whose email is
 * already a key. The password encoder is a pair of functions the service
 * is given; nothing is assumed about them except where a lemma says so.
 */
module Auth {
  import opened Wrappers
  import opened Text

  type Email = string

  datatype UserEntity = UserEntity(id: nat, name: string, email: Email, passwordHash: string)

  datatype RegisterRequest = RegisterRequest(name: string, email: Email, password: string)

  datatype LoginRequest = LoginRequest(email: Email, password: string)

  datatype UserResponse = UserResponse(id: nat, name: string, email: Email)

  datatype LoginResponse = LoginResponse(success: bool, message: string, user: Option<UserResponse>)

  datatype RegisterError =
    | EmailAlreadyRegistered  // the IllegalArgumentException of the duplicate check
    | EmailRowExists          // the unique constraint on the email column, raised by the save

  datatype PasswordEncoder = PasswordEncoder(encode: string -> string, matches: (string, string) -> bool)

  /** What every real password encoder promises: a password matches its own encoding. */
  ghost predicate Sound(encoder: PasswordEncoder)
  {
    forall p :: encoder.matches(p, encoder.encode(p))
  }

  const InvalidCredentials: string := "Invalid credentials"

  const LoginSuccessful: string := "Login successful"

  function Profile(u: UserEntity): UserResponse
  {
    UserResponse(u.id, u.name, u.email)
  }

  /** Each row is filed under its own email, which is lower-case, and has an id below `bound`. */
  ghost predicate WellFiled(users: map<Email, UserEntity>, bound: nat)
  {
    forall e :: e in users ==> users[e].email == e && ToLower(e) == e && users[e].id < bound
  }

  class AuthService {
    var users: map<Email, UserEntity>
    var nextId: nat
    const encoder: PasswordEncoder

    ghost predicate Valid()
      reads this
    {
      WellFiled(users, nextId)
    }

    constructor (encoder: PasswordEncoder)
      ensures Valid() && users == map[] && this.encoder == encoder
    {
      users, nextId := map[], 0;
      this.encoder := encoder;
    }

    /**
     * `register`. The duplicate check looks the email up as given, while the
     * row is stored under the lower-cased email.
     */
    method Register(req: RegisterRequest) returns (r: Result<UserResponse, RegisterError>)
      requires Valid()
      modifies this
      ensures Valid()
      ensures req.email in old(users) ==>
        r == Err(EmailAlreadyRegistered) && users == old(users) && nextId == old(nextId)
      ensures req.email !in old(users) && ToLower(req.email) in old(users) ==>
        r == Err(EmailRowExists) && users == old(users) && nextId == old(nextId)
      ensures req.email !in old(users) && ToLower(req.email) !in old(users) ==>
        && r == Ok(UserResponse(old(nextId), req.name, ToLower(req.email)))
        && users == old(users)[ToLower(req.email) := UserEntity(old(nextId), req.name, ToLower(req.email), encoder.encode(req.password))]
        && (forall e :: e in old(users) ==> users[e].id != old(nextId))
    {
      if req.email in users {
        return Err(EmailAlreadyRegistered);
      }
      var email := ToLower(req.email);
      ToLowerIdempotent(req.email);
      var u := UserEntity(nextId, req.name, email, encoder.encode(req.password));
      if email in users {
        return Err(EmailRowExists);
      }
      users := users[email := u];
      nextId := nextId + 1;
      r := Ok(Profile(u));
    }

    /**
     * The same registration with the duplicate check made on the
     * lower-cased email, the key the row is stored under.
     */
    method RegisterLowercaseCheck(req: RegisterRequest) returns (r: Result<UserResponse, RegisterError>)
      requires Valid()
      modifies this
      ensures Valid()
      ensures r.Err? ==> r.error == EmailAlreadyRegistered && users == old(users) && nextId == old(nextId)
      ensures r.Err? <==> exists e :: e in old(users) && EqualsIgnoreCase(e, req.email)
      ensures r.Ok? ==>
        && r.value == UserResponse(old(nextId), req.name, ToLower(req.email))
        && users == old(users)[ToLower(req.email) := UserEntity(old(nextId), req.name, ToLower(req.email), encoder.encode(req.password))]
    {
      var email := ToLower(req.email);
      ToLowerIdempotent(req.email);
      if email in users {
        EqualsIgnoreCaseIsLowerEquality(email, req.email);
        return Err(EmailAlreadyRegistered);
      }
      forall e | e in users ensures !EqualsIgnoreCase(e, req.email) {
        EqualsIgnoreCaseIsLowerEquality(e, req.email);
      }
      var u := UserEntity(nextId, req.name, email, encoder.encode(req.password));
      users := users[email := u];
      nextId := nextId + 1;
      r := Ok(Profile(u));
    }

    /** `login`: looks the user up by the lower-cased email and checks the password. */
    function Login(req: LoginRequest): (r: LoginResponse)
      requires Valid()
      reads this
      ensures !r.success ==> r == LoginResponse(false, InvalidCredentials, None)
      ensures r.success <==> exists e :: e in users && EqualsIgnoreCase(e, req.email) && encoder.matches(req.password, users[e].passwordHash)
      ensures r.success ==>
        && r.message == LoginSuccessful && r.user.Some?
        && r.user.value.email in users && EqualsIgnoreCase(r.user.value.email, req.email)
        && r.user.value == Profile(users[r.user.value.email])
    {
      var email := ToLower(req.email);
      if email !in users || !encoder.matches(req.password, users[email].passwordHash) then
        assert forall e :: e in users && EqualsIgnoreCase(e, req.email) ==> e == email by {
          forall e | e in users && EqualsIgnoreCase(e, req.email) ensures e == email {
            EqualsIgnoreCaseIsLowerEquality(e, req.email);
          }
        }
        LoginResponse(false, InvalidCredentials, None)
      else
        ToLowerIdempotent(req.email);
        EqualsIgnoreCaseIsLowerEquality(email, req.email);
        LoginResponse(true, LoginSuccessful, Some(Profile(users[email])))
    }
  }

  /**
   * With a sound encoder, once a row holds the encoding of a password under
   * the lower-cased form of an email, logging in with that password and any
   * letter-case of that email succeeds. `Register` leaves exactly such a row
   * when it succeeds.
   */
  lemma LoginAfterRegister(svc: AuthService, email: Email, password: string, typed: Email)
    requires svc.Valid() && Sound(svc.encoder)
    requires ToLower(email) in svc.users
    requires svc.users[ToLower(email)].passwordHash == svc.encoder.encode(password)
    requires EqualsIgnoreCase(typed, email)
    ensures svc.Login(LoginRequest(typed, password)).success
  {
    EqualsIgnoreCaseIsLowerEquality(typed, email);
    assert svc.encoder.matches(password, svc.encoder.encode(password));
  }

  /** With rows filed under lower-case emails, an email with an upper-case letter never trips the duplicate check. */
  lemma MixedCaseEmailPassesDuplicateCheck(svc: AuthService, email: Email)
    requires svc.Valid()
    requires exists i :: 0 <= i < |email| && IsUpper(email[i])
    ensures email !in svc.users
  {
    var i :| 0 <= i < |email| && IsUpper(email[i]);
    assert ToLower(email)[i] != email[i];
  }

  /** The two spellings of the sample email differ, and both lower-case to "ann@x.io". */
  lemma SampleEmails()
    ensures ToLower("ann@x.io") == "ann@x.io" && ToLower("Ann@x.io") == "ann@x.io"
    ensures "Ann@x.io" != "ann@x.io"
  {
    assert "Ann@x.io"[0] != "ann@x.io"[0];
  }

  /**
   * Registering "Ann@x.io" when "ann@x.io" is already registered passes the
   * duplicate check and then fails on the email column's unique
   * constraint, instead of with "Email is already registered".
   */
  method MixedCaseReRegistration(encoder: PasswordEncoder) returns (first: Result<UserResponse, RegisterError>, second: Result<UserResponse, RegisterError>)
    ensures first.Ok? && first.value.email == "ann@x.io"
    ensures second == Err(EmailRowExists)
  {
    SampleEmails();
    var svc := new AuthService(encoder);
    first := svc.Register(RegisterRequest("Ann", "ann@x.io", "pw"));
    second := svc.Register(RegisterRequest("Ann", "Ann@x.io", "pw"));
  }
}
