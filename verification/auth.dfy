/** Registration and login: the duplicate-email guard of `register`, and the
    password gate and student device (MAC address) binding of `login`.
    Password comparison (stored credential, entered password) and token
    signing are passed in as functions. */
module Auth {
  import opened Common
  import opened Records

  datatype RegisterRequest = RegisterRequest(
    name: string,
    email: string,
    password: string,
    role: Role,
    rollNumber: Option<string>,
    department: Option<string>,
    section: Option<string>)

  datatype RegisterReply = RegisterReply(id: UserId, name: string, email: string, role: Role, token: string)

  datatype LoginReply = LoginReply(id: UserId, name: string, email: string, role: Role,
                                   macAddress: Option<string>, token: string)

  const UserExistsMessage := "User already exists"
  const BadCredentialsMessage := "Invalid email or password"
  const UnknownDeviceMessage := "Device not recognized. Please use your registered device."

  /** JavaScript truthiness of an optional string: present and not empty. */
  predicate Truthy(s: Option<string>) {
    s.Some? && s.value != ""
  }

  /** The account lookup by email: position of the first user with the email. */
  function FindByEmail(users: seq<User>, email: string): (r: Option<nat>)
    ensures r.None? <==> forall i :: 0 <= i < |users| ==> users[i].email != email
    ensures r.Some? ==> r.value < |users| && users[r.value].email == email
  {
    if |users| == 0 then None
    else if users[0].email == email then Some(0)
    else
      match FindByEmail(users[1..], email)
      case None => None
      case Some(k) => Some(k + 1)
  }

  /** No two accounts share an email. */
  predicate UniqueEmails(users: seq<User>) {
    forall i, j :: 0 <= i < j < |users| ==> users[i].email != users[j].email
  }

  /** `register`: an email already on file is refused with 400 and nothing is
      created; otherwise exactly one account, without a bound device, is
      appended and echoed with a token. */
  function Register(users: seq<User>, req: RegisterRequest, newId: UserId, sign: UserId -> string): (out: (Response<RegisterReply>, seq<User>))
    ensures (exists i :: 0 <= i < |users| && users[i].email == req.email) ==>
      out == (Failure(400, UserExistsMessage), users)
    ensures (forall i :: 0 <= i < |users| ==> users[i].email != req.email) ==>
      && out.0 == Success(201, RegisterReply(newId, req.name, req.email, req.role, sign(newId)))
      && |out.1| == |users| + 1 && out.1[..|users|] == users
      && out.1[|users|].id == newId && out.1[|users|].email == req.email && out.1[|users|].role == req.role
      && out.1[|users|].macAddress.None?
  {
    if FindByEmail(users, req.email).Some? then (Failure(400, UserExistsMessage), users)
    else
      var u := User(newId, req.name, req.email, req.password, req.role, req.rollNumber, req.department, req.section, None);
      assert (users + [u])[..|users|] == users;
      (Success(201, RegisterReply(newId, req.name, req.email, req.role, sign(newId))), users + [u])
  }

  /** `register` keeps emails unique. */
  lemma RegisterKeepsEmailsUnique(users: seq<User>, req: RegisterRequest, newId: UserId, sign: UserId -> string)
    requires UniqueEmails(users)
    ensures UniqueEmails(Register(users, req, newId, sign).1)
  {
    var after := Register(users, req, newId, sign).1;
    if |after| > |users| {
      forall i, j | 0 <= i < j < |after| ensures after[i].email != after[j].email {
        assert after[i] == users[i];
        if j < |users| {
          assert after[j] == users[j];
        }
      }
    }
  }

  /** `login`. Unknown email or wrong password: 401. For a student, a device
      id sent while none is bound becomes bound; a device id that differs
      from the bound one is refused with 403. Teachers skip the device
      check. */
  function Login(users: seq<User>, email: string, password: string, mac: Option<string>,
                 matches: (string, string) -> bool, sign: UserId -> string): (out: (Response<LoginReply>, seq<User>))
    ensures |out.1| == |users|
    ensures FindByEmail(users, email).None? ==> out == (Failure(401, BadCredentialsMessage), users)
    ensures var k := FindByEmail(users, email);
      k.Some? && !matches(users[k.value].password, password) ==> out == (Failure(401, BadCredentialsMessage), users)
    ensures var k := FindByEmail(users, email);
      k.Some? && matches(users[k.value].password, password) ==>
        var u := users[k.value];
        && (u.role == Student && !Truthy(u.macAddress) && Truthy(mac) ==>
              && out.1 == users[k.value := u.(macAddress := mac)]
              && out.0 == Success(200, LoginReply(u.id, u.name, u.email, u.role, mac, sign(u.id))))
        && (u.role == Student && Truthy(u.macAddress) && Truthy(mac) && u.macAddress.value != mac.value ==>
              out == (Failure(403, UnknownDeviceMessage), users))
        && (!(u.role == Student && Truthy(mac) && (!Truthy(u.macAddress) || u.macAddress.value != mac.value)) ==>
              out == (Success(200, LoginReply(u.id, u.name, u.email, u.role, u.macAddress, sign(u.id))), users))
  {
    match FindByEmail(users, email)
    case None => (Failure(401, BadCredentialsMessage), users)
    case Some(k) =>
      var u := users[k];
      if !matches(u.password, password) then (Failure(401, BadCredentialsMessage), users)
      else if u.role == Student && !Truthy(u.macAddress) && Truthy(mac) then
        var bound := u.(macAddress := mac);
        (Success(200, LoginReply(u.id, u.name, u.email, u.role, mac, sign(u.id))), users[k := bound])
      else if u.role == Student && Truthy(u.macAddress) && Truthy(mac) && u.macAddress.value != mac.value then
        (Failure(403, UnknownDeviceMessage), users)
      else
        (Success(200, LoginReply(u.id, u.name, u.email, u.role, u.macAddress, sign(u.id))), users)
  }

  /** Device binding is write-once and student-only: a `login` never changes
      a device id that is already bound, never touches a non-student, and
      changes nothing but the device id of the one account it found. */
  lemma LoginBindsAtMostOnce(users: seq<User>, email: string, password: string, mac: Option<string>,
                             matches: (string, string) -> bool, sign: UserId -> string)
    ensures var after := Login(users, email, password, mac, matches, sign).1;
      && (forall i :: 0 <= i < |users| && Truthy(users[i].macAddress) ==> after[i] == users[i])
      && (forall i :: 0 <= i < |users| && users[i].role != Student ==> after[i] == users[i])
      && (forall i :: 0 <= i < |users| ==> after[i] == users[i].(macAddress := after[i].macAddress))
  {
  }

  /** The account lookup reads only the emails: two account lists with the
      same emails, position by position, find the same index. */
  lemma {:induction false} FindByEmailReadsOnlyEmails(a: seq<User>, b: seq<User>, email: string)
    requires |a| == |b|
    requires forall i :: 0 <= i < |a| ==> a[i].email == b[i].email
    ensures FindByEmail(a, email) == FindByEmail(b, email)
    decreases |a|
  {
    if |a| > 0 && a[0].email != email {
      FindByEmailReadsOnlyEmails(a[1..], b[1..], email);
    }
  }

  /** A refused login (401 or 403) never issues a token and never changes
      the accounts. Retrying a login with the same credentials and device
      gets the same reply and changes nothing further: a device bound by the
      first attempt is the one the retry presents. */
  lemma LoginRetryIsStable(users: seq<User>, email: string, password: string, mac: Option<string>,
                                   matches: (string, string) -> bool, sign: UserId -> string)
    ensures var out := Login(users, email, password, mac, matches, sign);
      out.0.Failure? ==> out.0.status in {401, 403} && out.1 == users
    ensures var out := Login(users, email, password, mac, matches, sign);
      Login(out.1, email, password, mac, matches, sign) == out
  {
    var out := Login(users, email, password, mac, matches, sign);
    LoginBindsAtMostOnce(users, email, password, mac, matches, sign);
    FindByEmailReadsOnlyEmails(users, out.1, email);
  }

  /** Once a student has logged in with a device id, a later login from a
      different device is refused with the right password. */
  lemma BoundStudentOtherDeviceRefused(users: seq<User>, email: string, password: string, mac1: Option<string>,
                                       mac2: Option<string>, matches: (string, string) -> bool, sign: UserId -> string)
    requires Truthy(mac1) && Truthy(mac2) && mac1.value != mac2.value
    requires Login(users, email, password, mac1, matches, sign).0.Success?
    requires var k := FindByEmail(users, email);
      k.Some? && users[k.value].role == Student
    ensures var after := Login(users, email, password, mac1, matches, sign).1;
      Login(after, email, password, mac2, matches, sign) == (Failure(403, UnknownDeviceMessage), after)
  {
    var k := FindByEmail(users, email).value;
    var after := Login(users, email, password, mac1, matches, sign).1;
    assert after[k].macAddress == if Truthy(users[k].macAddress) then users[k].macAddress else mac1;
    FindAfterLogin(users, email, password, mac1, matches, sign);
  }

  /** `login` does not change emails, so the same email finds the same account. */
  lemma FindAfterLogin(users: seq<User>, email: string, password: string, mac: Option<string>,
                       matches: (string, string) -> bool, sign: UserId -> string)
    ensures FindByEmail(Login(users, email, password, mac, matches, sign).1, email) == FindByEmail(users, email)
  {
    var after := Login(users, email, password, mac, matches, sign).1;
    assert forall i :: 0 <= i < |users| ==> after[i].email == users[i].email;
    FindByEmailDependsOnEmails(users, after, email);
  }

  lemma {:induction false} FindByEmailDependsOnEmails(a: seq<User>, b: seq<User>, email: string)
    requires |a| == |b| && forall i :: 0 <= i < |a| ==> a[i].email == b[i].email
    ensures FindByEmail(a, email) == FindByEmail(b, email)
  {
    if |a| > 0 {
      FindByEmailDependsOnEmails(a[1..], b[1..], email);
    }
  }
}
