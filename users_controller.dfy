/** The account handlers: `signup`, `login`, `getAllUsers`,
    `getUserById`, `getUserProfile`, `updateUser`, `deleteUser` and
    `getUserStats`. Password hashing and its comparison are opaque
    functions handed in by the caller; the signed token is not modelled. */
module UsersController {
  import opened Common
  import opened JsText
  import opened UserRepository

  // ---------------------------------------------------------------------
  // The e-mail format

  /** A character the class `[^\s@]` accepts. */
  predicate Plain(c: char)
  {
    !IsJsSpace(c) && c != '@'
  }

  /** A non-empty run of `[^\s@]+`. */
  predicate PlainRun(s: string)
  {
    |s| > 0 && forall j :: 0 <= j < |s| ==> Plain(s[j])
  }

  /** `/^[^\s@]+@[^\s@]+\.[^\s@]+$/.test(s)`: some split of `s` at an `@`
      and a later `.` into three plain runs. */
  predicate MatchesEmailRegex(s: string)
  {
    exists i, k :: 0 <= i < k < |s| && s[i] == '@' && s[k] == '.'
                   && PlainRun(s[..i]) && PlainRun(s[i + 1..k]) && PlainRun(s[k + 1..])
  }

  /** The index of the first `@` at or after `from`. */
  function FirstAt(s: string, from: nat): (r: Option<nat>)
    requires from <= |s|
    ensures r.Some? ==> from <= r.value < |s| && s[r.value] == '@'
    ensures forall j :: from <= j < |s| && (r.None? || j < r.value) ==> s[j] != '@'
    decreases |s| - from
  {
    if from == |s| then None
    else if s[from] == '@' then Some(from)
    else FirstAt(s, from + 1)
  }

  /** Some `.` lies at an index in `[lo, hi)`. */
  function HasDotIn(s: string, lo: int, hi: int): (r: bool)
    requires 0 <= lo && hi <= |s|
    ensures r <==> exists k :: lo <= k < hi && s[k] == '.'
    decreases hi - lo
  {
    if lo >= hi then false
    else s[lo] == '.' || HasDotIn(s, lo + 1, hi)
  }

  /** The format check, read off the string directly: no white space, a
      single `@` that is not the first character, and a `.` that is
      neither right after the `@` nor the last character. */
  predicate EmailFormat(s: string)
  {
    (forall j :: 0 <= j < |s| ==> !IsJsSpace(s[j]))
    && match FirstAt(s, 0)
       case None => false
       case Some(i) => i > 0 && FirstAt(s, i + 1).None? && HasDotIn(s, i + 2, |s| - 1)
  }

  /** A slice whose every character is plain, and which is not empty, is
      a plain run. */
  lemma PlainSlice(s: string, lo: int, hi: int)
    requires 0 <= lo < hi <= |s|
    requires forall j :: lo <= j < hi ==> Plain(s[j])
    ensures PlainRun(s[lo..hi])
  {
    forall j | 0 <= j < hi - lo
      ensures Plain(s[lo..hi][j])
    {
      assert s[lo..hi][j] == s[lo + j];
    }
  }

  /** Each character inside a plain run is plain. */
  lemma PlainRunAt(s: string, lo: int, hi: int, j: int)
    requires 0 <= lo <= j < hi <= |s| && PlainRun(s[lo..hi])
    ensures Plain(s[j])
  {
    assert s[j] == s[lo..hi][j - lo];
  }

  /** What the direct check accepts, the regular expression accepts. */
  lemma EmailFormatMatches(s: string)
    requires EmailFormat(s)
    ensures MatchesEmailRegex(s)
  {
    var i := FirstAt(s, 0).value;
    var k :| i + 2 <= k < |s| - 1 && s[k] == '.';
    assert FirstAt(s, i + 1).None?;
    PlainSlice(s, 0, i);
    PlainSlice(s, i + 1, k);
    PlainSlice(s, k + 1, |s|);
    assert s[..i] == s[0..i];
    assert s[k + 1..] == s[k + 1..|s|];
  }

  /** Under a regex match split at `i` and `k`, every character but the
      `@` at `i` is plain. */
  lemma SplitIsPlain(s: string, i: int, k: int)
    requires 0 <= i < k < |s| && s[i] == '@' && s[k] == '.'
    requires PlainRun(s[..i]) && PlainRun(s[i + 1..k]) && PlainRun(s[k + 1..])
    ensures forall j :: 0 <= j < |s| && j != i ==> Plain(s[j])
  {
    assert s[..i] == s[0..i];
    assert s[k + 1..] == s[k + 1..|s|];
    forall j | 0 <= j < |s| && j != i
      ensures Plain(s[j])
    {
      if j < i {
        PlainRunAt(s, 0, i, j);
      } else if j < k {
        PlainRunAt(s, i + 1, k, j);
      } else if k < j {
        PlainRunAt(s, k + 1, |s|, j);
      }
    }
  }

  /** What the regular expression accepts, the direct check accepts. */
  lemma MatchesAreEmailFormat(s: string)
    requires MatchesEmailRegex(s)
    ensures EmailFormat(s)
  {
    var i, k :| 0 <= i < k < |s| && s[i] == '@' && s[k] == '.'
                && PlainRun(s[..i]) && PlainRun(s[i + 1..k]) && PlainRun(s[k + 1..]);
    SplitIsPlain(s, i, k);
    assert FirstAt(s, 0) == Some(i);
    assert FirstAt(s, i + 1).None?;
    assert |s[i + 1..k]| > 0 && |s[k + 1..]| > 0;
    assert HasDotIn(s, i + 2, |s| - 1);
  }

  /** The direct check accepts exactly the strings the regular expression
      accepts. */
  lemma EmailFormatIsRegex(s: string)
    ensures EmailFormat(s) <==> MatchesEmailRegex(s)
  {
    if EmailFormat(s) {
      EmailFormatMatches(s);
    }
    if MatchesEmailRegex(s) {
      MatchesAreEmailFormat(s);
    }
  }

  // ---------------------------------------------------------------------
  // What the handlers answer

  /** The `user` object of `signup` and `login`. */
  datatype Account = Account(id: int, username: string, email: string, country: Option<string>, role: Role)

  /** A row as `findById` selects it: every column but the password hash. */
  datatype Profile = Profile(id: int, username: string, correo: string, pais: Option<string>, rol: Role, activo: bool)

  function AccountOf(id: int, u: User): (r: Account)
    ensures r.id == id && r.username == u.username && r.email == u.correo && r.country == u.pais && r.role == u.rol
  {
    Account(id, u.username, u.correo, u.pais, u.rol)
  }

  function ProfileOf(id: int, u: User): (r: Profile)
    ensures r.id == id && r.username == u.username && r.correo == u.correo && r.pais == u.pais
    ensures r.rol == u.rol && r.activo == u.activo
  {
    Profile(id, u.username, u.correo, u.pais, u.rol, u.activo)
  }

  // ---------------------------------------------------------------------
  // signup

  /** The body of `signup`; `None` is an absent member. */
  datatype SignupBody = SignupBody(nombre_usuario: Option<string>, correo: Option<string>,
                                   contrasena: Option<string>, pais: Option<string>)

  /** Why `signup` refused, in the order the handler checks. */
  datatype SignupRefusal = MissingField | BadEmail | ShortPassword | UsernameTaken | EmailTaken
  {
    function Status(): Status
    {
      match this
      case MissingField => BadRequest
      case BadEmail => BadRequest
      case ShortPassword => BadRequest
      case UsernameTaken => Conflict
      case EmailTaken => Conflict
    }
  }

  /** A password of three characters outside the Basic Multilingual Plane
      has `length` 6, so the length guards let it through. */
  lemma AstralPasswordLength(p: string)
    requires |p| == 3 && forall i :: 0 <= i < |p| ==> p[i] as int > 0xFFFF
    ensures Utf16Length(p) == 6
  {
    var t1, t2 := p[1..], p[2..];
    assert t1[1..] == t2 && t2[1..] == [] && t1[0] == p[1] && t2[0] == p[2];
    assert Utf16Length(t2) == 2;
    assert Utf16Length(t1) == 4;
  }

  /** The guard chain of `signup`. The password length is `length`, in
      UTF-16 code units. A clash is looked for in the first row that holds
      the username or the email; the username is compared first. */
  function SignupCheck(users: seq<User>, b: SignupBody): (r: Option<SignupRefusal>)
    ensures r == Some(MissingField) <==> !Filled(b.nombre_usuario) || !Filled(b.correo) || !Filled(b.contrasena)
    ensures r == Some(BadEmail) <==>
      Filled(b.nombre_usuario) && Filled(b.correo) && Filled(b.contrasena) && !MatchesEmailRegex(b.correo.value)
    ensures r == Some(ShortPassword) <==>
      Filled(b.nombre_usuario) && Filled(b.correo) && Filled(b.contrasena) && MatchesEmailRegex(b.correo.value)
      && Utf16Length(b.contrasena.value) < 6
    ensures r == Some(UsernameTaken) || r == Some(EmailTaken) <==>
      Filled(b.nombre_usuario) && Filled(b.correo) && Filled(b.contrasena) && MatchesEmailRegex(b.correo.value)
      && Utf16Length(b.contrasena.value) >= 6 && Taken(users, b.nombre_usuario.value, b.correo.value)
    ensures r == Some(UsernameTaken) <==>
      Filled(b.nombre_usuario) && Filled(b.correo) && Filled(b.contrasena) && MatchesEmailRegex(b.correo.value)
      && Utf16Length(b.contrasena.value) >= 6 && UsernameClashFirst(users, b.nombre_usuario.value, b.correo.value)
    ensures r == Some(EmailTaken) <==>
      Filled(b.nombre_usuario) && Filled(b.correo) && Filled(b.contrasena) && MatchesEmailRegex(b.correo.value)
      && Utf16Length(b.contrasena.value) >= 6 && EmailClashFirst(users, b.nombre_usuario.value, b.correo.value)
    ensures r == Some(UsernameTaken) ==> exists j :: 0 <= j < |users| && users[j].username == b.nombre_usuario.value
    ensures r == Some(EmailTaken) ==> exists j :: 0 <= j < |users| && users[j].correo == b.correo.value
    ensures r.None? ==> Filled(b.nombre_usuario) && Filled(b.correo) && Filled(b.contrasena)
  {
    if !Filled(b.nombre_usuario) || !Filled(b.correo) || !Filled(b.contrasena) then Some(MissingField)
    else
      EmailFormatIsRegex(b.correo.value);
      if !EmailFormat(b.correo.value) then Some(BadEmail)
      else if Utf16Length(b.contrasena.value) < 6 then Some(ShortPassword)
      else
        var n, c := b.nombre_usuario.value, b.correo.value;
        FirstMatchClash(users, n, c);
        match FirstMatch(users, Some(n), Some(c))
        case None => None
        case Some(row) =>
          assert Taken(users, n, c) by {
            assert users[row.id - 1].username == n || users[row.id - 1].correo == c;
          }
          if row.user.username == n then Some(UsernameTaken)
          else Some(EmailTaken)
  }

  /** A new account when nothing clashed: the row holds the hash of the
      password, `pais || null`, the role `cliente`, and is active. */
  method Signup(t: UserTable, b: SignupBody, hash: string -> string) returns (status: Status, account: Option<Account>)
    requires t.Valid()
    modifies t
    ensures t.Valid()
    ensures var check := SignupCheck(old(t.users), b);
      check.Some? ==> status == check.value.Status() && account.None? && t.users == old(t.users)
    ensures var check := SignupCheck(old(t.users), b);
      check.None? ==>
        var u := User(b.nombre_usuario.value, b.correo.value, hash(b.contrasena.value), OrNull(b.pais), Cliente, true);
        status == Created
        && t.users == old(t.users) + [u]
        && account == Some(AccountOf(|t.users|, u))
  {
    var check := SignupCheck(t.users, b);
    if check.Some? {
      return check.value.Status(), None;
    }
    var n, c := b.nombre_usuario.value, b.correo.value;
    var r := t.Create(NewUserData(n, c, hash(b.contrasena.value), OrNull(b.pais), Some(Cliente)));
    if r.DuplicateEntry? {
      assert false;
      return ServerError, None;
    }
    status, account := Created, Some(AccountOf(r.value, t.users[r.value - 1]));
  }

  // ---------------------------------------------------------------------
  // login

  /** Why `login` refused, in the order the handler checks. */
  datatype LoginRefusal = MissingCredentials | UnknownEmail | Inactive | WrongPassword
  {
    function Status(): Status
    {
      match this
      case MissingCredentials => BadRequest
      case UnknownEmail => Unauthorized
      case Inactive => Forbidden
      case WrongPassword => Unauthorized
    }
  }

  /** `login`: the first row with the email; an inactive account is
      refused before the password is compared, so a deactivated user learns
      nothing about the password. */
  function Login(users: seq<User>, correo: Option<string>, contrasena: Option<string>,
                 compare: (string, string) -> bool): (r: Result<Account, LoginRefusal>)
    ensures r == Failure(MissingCredentials) <==> !Filled(correo) || !Filled(contrasena)
    ensures Filled(correo) && Filled(contrasena) ==>
      var found := FirstMatch(users, None, correo);
      (r == Failure(UnknownEmail) <==> forall j :: 0 <= j < |users| ==> users[j].correo != correo.value)
      && (r == Failure(Inactive) <==> found.Some? && !found.value.user.activo)
      && (r == Failure(WrongPassword) <==>
            found.Some? && found.value.user.activo && !compare(contrasena.value, found.value.user.contrasena))
      && (r.Success? ==>
            found.Some? && r.value == AccountOf(found.value.id, found.value.user)
            && found.value.user.correo == correo.value && found.value.user.activo
            && compare(contrasena.value, found.value.user.contrasena))
  {
    if !Filled(correo) || !Filled(contrasena) then Failure(MissingCredentials)
    else
      match FirstMatch(users, None, correo)
      case None => Failure(UnknownEmail)
      case Some(row) =>
        if !row.user.activo then Failure(Inactive)
        else if !compare(contrasena.value, row.user.contrasena) then Failure(WrongPassword)
        else Success(AccountOf(row.id, row.user))
  }

  /** However the password compares, an inactive account gets 403. */
  lemma InactiveRefusedWhateverThePassword(users: seq<User>, correo: string, contrasena: string,
                                           compare: (string, string) -> bool, other: (string, string) -> bool)
    requires correo != "" && contrasena != ""
    requires FirstMatch(users, None, Some(correo)).Some? && !FirstMatch(users, None, Some(correo)).value.user.activo
    ensures Login(users, Some(correo), Some(contrasena), compare) == Login(users, Some(correo), Some(contrasena), other)
    ensures Login(users, Some(correo), Some(contrasena), compare) == Failure(Inactive)
  {
  }

  // ---------------------------------------------------------------------
  // Listings and lookups

  /** The query of `getAllUsers`; `None` is an absent key. */
  datatype UsersQuery = UsersQuery(page: Option<string>, limit: Option<string>, activo: Option<string>)

  /** `'true'` and `'false'` filter by the flag; anything else lists all. */
  function ActivoFilter(s: Option<string>): (r: Option<bool>)
    ensures r == Some(true) <==> s == Some("true")
    ensures r == Some(false) <==> s == Some("false")
  {
    if s == Some("true") then Some(true) else if s == Some("false") then Some(false) else None
  }

  /** `getAllUsers`: a page of ids, newest registration first (10 by
      default), or 500 when MySQL rejects the bound `LIMIT`/`OFFSET`. With
      no page or limit in the query it lists the 10 newest users that pass
      the filter. */
  function GetAllUsers(t: UserTable, q: UsersQuery): (r: (Status, Option<UserPage>))
    reads t
    ensures r.0 == Ok <==> r.1.Some?
    ensures r.0 == Ok || r.0 == ServerError
    ensures r.1.Some? ==> forall id :: id in r.1.value.ids ==>
      1 <= id <= |t.users| && (ActivoFilter(q.activo).Some? ==> t.users[id - 1].activo == ActivoFilter(q.activo).value)
    ensures q.page.None? && q.limit.None? ==> r.0 == Ok && r.1.value.page == 1 && r.1.value.limit == 10
  {
    var p := t.FindAll(QueryInt(q.page, 1), QueryInt(q.limit, 10), ActivoFilter(q.activo));
    (if p.Some? then Ok else ServerError, p)
  }

  /** What a listed page holds: page and limit as parsed from the query,
      a total that counts every user that passes the filter, and ids cut
      from those users, newest registration first, at the offset of the
      requested page; with no page or limit in the query, the 10 newest. */
  lemma GetAllUsersPage(t: UserTable, q: UsersQuery)
    requires GetAllUsers(t, q).1.Some?
    ensures var pg, all := GetAllUsers(t, q).1.value, UserIds(t.users, ActivoFilter(q.activo));
      Some(pg.page) == QueryInt(q.page, 1) && Some(pg.limit) == QueryInt(q.limit, 10)
      && pg.total == |all| && pg.limit >= 0 && Offset(pg.page, pg.limit) >= 0
      && pg.ids == Page(all, Offset(pg.page, pg.limit), pg.limit)
    ensures q.page.None? && q.limit.None? ==> var all := UserIds(t.users, ActivoFilter(q.activo));
      GetAllUsers(t, q).1.value.ids == if |all| < 10 then all else all[..10]
  {
    t.FindAllPage(QueryInt(q.page, 1), QueryInt(q.limit, 10), ActivoFilter(q.activo));
  }

  /** `getUserById`: 400 on a non-numeric id, 404 on an unknown one, else
      the row without its password hash. */
  function GetUserById(users: seq<User>, id: string): (r: Result<Profile, Status>)
    ensures r == Failure(BadRequest) <==> ParseInt(id).None?
    ensures r == Failure(NotFound) <==> ParseInt(id).Some? && !(1 <= ParseInt(id).value <= |users|)
    ensures r.Success? ==> r.value == ProfileOf(ParseInt(id).value, users[ParseInt(id).value - 1])
  {
    match ParseInt(id)
    case None => Failure(BadRequest)
    case Some(n) => if 1 <= n <= |users| then Success(ProfileOf(n, users[n - 1])) else Failure(NotFound)
  }

  /** `getUserProfile`: the caller's own row, or 404. */
  function GetUserProfile(users: seq<User>, caller: Caller): (r: Result<Profile, Status>)
    ensures r.Failure? <==> !(1 <= caller.id <= |users|)
    ensures r.Failure? ==> r.error == NotFound
    ensures r.Success? ==> r.value == ProfileOf(caller.id, users[caller.id - 1])
  {
    if 1 <= caller.id <= |users| then Success(ProfileOf(caller.id, users[caller.id - 1])) else Failure(NotFound)
  }

  // ---------------------------------------------------------------------
  // updateUser, deleteUser, getUserStats

  /** The permission rule shared by updating, deleting and reading the
      statistics of an account: an admin, or the account's own user. */
  predicate MayManage(caller: Caller, target: int)
  {
    caller.role == Admin || caller.id == target
  }

  /** The body of `updateUser`; `None` is an absent member, and `pais`
      keeps absent apart from `null`. */
  datatype UserBody = UserBody(nombre_usuario: Option<string>, correo: Option<string>, contrasena: Option<string>,
                               pais: Field<string>, activo: Option<bool>)

  /** The `updateData` object the handler builds: truthy username, email
      and (hashed) password, a defined `pais`, and `activo` only from an
      admin. */
  function UpdateData(caller: Caller, b: UserBody, hash: string -> string): (r: UserPatch)
    ensures r.username == (if Filled(b.nombre_usuario) then b.nombre_usuario else None)
    ensures r.correo == (if Filled(b.correo) then b.correo else None)
    ensures r.contrasena == (if Filled(b.contrasena) then Some(hash(b.contrasena.value)) else None)
    ensures r.pais == b.pais
    ensures r.activo.Some? <==> caller.role == Admin && b.activo.Some?
    ensures r.activo.Some? ==> r.activo == b.activo
  {
    UserPatch(if Filled(b.nombre_usuario) then b.nombre_usuario else None,
              if Filled(b.correo) then b.correo else None,
              if Filled(b.contrasena) then Some(hash(b.contrasena.value)) else None,
              b.pais,
              if caller.role == Admin then b.activo else None)
  }

  /** A non-admin's `activo` never reaches the table: an update made on
      such a caller's behalf keeps every row's flag. */
  lemma OnlyAdminsChangeActivo(users: seq<User>, n: int, caller: Caller, b: UserBody, hash: string -> string)
    requires caller.role != Admin && 1 <= n <= |users|
    ensures var after := users[n - 1 := PatchedUser(users[n - 1], UpdateData(caller, b, hash))];
      forall j :: 0 <= j < |users| ==> after[j].activo == users[j].activo
  {
    var p := UpdateData(caller, b, hash);
    assert p.activo.None?;
    assert Activo !in UserFields(p);
    var after := users[n - 1 := PatchedUser(users[n - 1], p)];
    assert after[n - 1].activo == users[n - 1].activo;
    assert forall j :: 0 <= j < |users| && j != n - 1 ==> after[j] == users[j];
  }

  /** Why `updateUser`, `deleteUser` or `getUserStats` refused. */
  datatype UserRefusal = BadId | NotPermitted | WeakPassword | UsernameInUse | EmailInUse
  {
    function Status(): Status
    {
      match this
      case BadId => BadRequest
      case NotPermitted => Forbidden
      case WeakPassword => BadRequest
      case UsernameInUse => Conflict
      case EmailInUse => Conflict
    }
  }

  /** `x || ''`. */
  function OrEmpty(s: Option<string>): (r: string)
    ensures Filled(s) ==> r == s.value
    ensures !Filled(s) ==> r == ""
  {
    if Filled(s) then s.value else ""
  }

  /** The clash check of `updateUser` as written: it looks only at the
      first row holding the new username or the new email, and lets the
      request through when that row is the target itself. */
  function UpdateConflictAsWritten(users: seq<User>, id: int, username: Option<string>, correo: Option<string>): (r: Option<UserRefusal>)
    ensures r.None? || r == Some(UsernameInUse) || r == Some(EmailInUse)
    ensures r.Some? ==> Filled(username) || Filled(correo)
  {
    if !Filled(username) && !Filled(correo) then None
    else
      match FirstMatch(users, Some(OrEmpty(username)), Some(OrEmpty(correo)))
      case None => None
      case Some(row) =>
        if row.id == id then None
        else if Some(row.user.username) == username then Some(UsernameInUse)
        else if Some(row.user.correo) == correo then Some(EmailInUse)
        else None
  }

  /** Another row than `id` holds the username. */
  predicate UsernameHeldByOther(users: seq<User>, id: int, username: string)
  {
    exists j :: 0 <= j < |users| && j != id - 1 && users[j].username == username
  }

  /** Another row than `id` holds the email. */
  predicate EmailHeldByOther(users: seq<User>, id: int, correo: string)
  {
    exists j :: 0 <= j < |users| && j != id - 1 && users[j].correo == correo
  }

  /** The clash check `updateUser` is meant to make: a new username, then
      a new email, held by any row other than the target. */
  function UpdateConflict(users: seq<User>, id: int, username: Option<string>, correo: Option<string>): (r: Option<UserRefusal>)
    ensures r == Some(UsernameInUse) <==> Filled(username) && UsernameHeldByOther(users, id, username.value)
    ensures r == Some(EmailInUse) <==>
      !(Filled(username) && UsernameHeldByOther(users, id, username.value))
      && Filled(correo) && EmailHeldByOther(users, id, correo.value)
    ensures r.None? || r == Some(UsernameInUse) || r == Some(EmailInUse)
  {
    if Filled(username) && UsernameHeldByOther(users, id, username.value) then Some(UsernameInUse)
    else if Filled(correo) && EmailHeldByOther(users, id, correo.value) then Some(EmailInUse)
    else None
  }

  /** When the corrected check passes, the row written by the update
      clashes with no other row, so the unique keys cannot fail. */
  lemma NoConflictMeansClashFree(users: seq<User>, id: int, caller: Caller, b: UserBody, hash: string -> string)
    requires UniqueAccounts(users) && 1 <= id <= |users|
    requires UpdateConflict(users, id, b.nombre_usuario, b.correo).None?
    ensures ClashFree(users, id, PatchedUser(users[id - 1], UpdateData(caller, b, hash)))
  {
    var u := PatchedUser(users[id - 1], UpdateData(caller, b, hash));
    forall j | 0 <= j < |users| && j != id - 1
      ensures users[j].username != u.username && users[j].correo != u.correo
    {
      if j < id - 1 {
        assert users[j].username != users[id - 1].username && users[j].correo != users[id - 1].correo;
      } else {
        assert users[id - 1].username != users[j].username && users[id - 1].correo != users[j].correo;
      }
      if Filled(b.nombre_usuario) {
        assert !UsernameHeldByOther(users, id, b.nombre_usuario.value);
      }
    }
  }

  /** No row has an empty username or email: `signup` and `update` only
      ever write truthy ones. */
  predicate NoEmptyKeys(users: seq<User>)
  {
    forall j :: 0 <= j < |users| ==> users[j].username != "" && users[j].correo != ""
  }

  /** The check as written never refuses wrongly: each clash it reports
      is one the corrected check reports too. */
  lemma AsWrittenConflictIsReal(users: seq<User>, id: int, username: Option<string>, correo: Option<string>)
    requires NoEmptyKeys(users)
    requires UpdateConflictAsWritten(users, id, username, correo).Some?
    ensures UpdateConflict(users, id, username, correo).Some?
  {
    var row := FirstMatch(users, Some(OrEmpty(username)), Some(OrEmpty(correo))).value;
    var j := row.id - 1;
    if Some(row.user.username) == username {
      assert users[j].username == username.value && users[j].username != "";
      assert UsernameHeldByOther(users, id, username.value);
    } else {
      assert users[j].correo == correo.value && users[j].correo != "";
      assert EmailHeldByOther(users, id, correo.value);
    }
  }

  /** Two accounts; the first asks to keep its name and take the second's
      email. The check as written sees only the first account's own row
      and lets the request through; the corrected check reports the email
      in use; the write would break the email key (a 500 instead of a 409). */
  lemma AsWrittenMissesEmailClash()
    ensures var users := [User("alice", "a@x.io", "h1", None, Cliente, true), User("bob", "b@x.io", "h2", None, Cliente, true)];
      var b := UserBody(Some("alice"), Some("b@x.io"), None, Undefined, None);
      var caller := Caller(1, Cliente);
      UniqueAccounts(users)
      && UpdateConflictAsWritten(users, 1, b.nombre_usuario, b.correo).None?
      && UpdateConflict(users, 1, b.nombre_usuario, b.correo) == Some(EmailInUse)
      && !ClashFree(users, 1, PatchedUser(users[0], UpdateData(caller, b, s => s)))
  {
    var users := [User("alice", "a@x.io", "h1", None, Cliente, true), User("bob", "b@x.io", "h2", None, Cliente, true)];
    var first := FirstMatch(users, Some("alice"), Some("b@x.io"));
    assert MatchesEither(users[0], Some("alice"), Some("b@x.io"));
    assert first.value.id == 1;
    assert EmailHeldByOther(users, 1, "b@x.io") by {
      assert users[1].correo == "b@x.io";
    }
    assert !UsernameHeldByOther(users, 1, "alice");
  }

  /** The guard chain of `updateUser`: the id, the permission, a short new
      password, then the corrected clash check. */
  function UpdateUserCheck(users: seq<User>, caller: Caller, id: string, b: UserBody): (r: Option<UserRefusal>)
    ensures r == Some(BadId) <==> ParseInt(id).None?
    ensures r == Some(NotPermitted) <==> ParseInt(id).Some? && !MayManage(caller, ParseInt(id).value)
    ensures r == Some(WeakPassword) <==>
      ParseInt(id).Some? && MayManage(caller, ParseInt(id).value) && Filled(b.contrasena) && Utf16Length(b.contrasena.value) < 6
    ensures ParseInt(id).Some? && MayManage(caller, ParseInt(id).value) && !(Filled(b.contrasena) && Utf16Length(b.contrasena.value) < 6) ==>
      r == UpdateConflict(users, ParseInt(id).value, b.nombre_usuario, b.correo)
  {
    match ParseInt(id)
    case None => Some(BadId)
    case Some(n) =>
      if !MayManage(caller, n) then Some(NotPermitted)
      else if Filled(b.contrasena) && Utf16Length(b.contrasena.value) < 6 then Some(WeakPassword)
      else UpdateConflict(users, n, b.nombre_usuario, b.correo)
  }

  /** `updateUser`. A refusal changes nothing. Otherwise the repository
      writes the fields: with none to write, or no such user, it answers
      null and the handler says 404; else the row is rewritten and
      returned without its hash. The corrected clash check makes the
      duplicate-key 500 unreachable. */
  method UpdateUser(t: UserTable, caller: Caller, id: string, b: UserBody, hash: string -> string)
    returns (status: Status, profile: Option<Profile>)
    requires t.Valid()
    modifies t
    ensures t.Valid()
    ensures var check := UpdateUserCheck(old(t.users), caller, id, b);
      check.Some? ==> status == check.value.Status() && profile.None? && t.users == old(t.users)
    ensures var check := UpdateUserCheck(old(t.users), caller, id, b);
      check.None? ==>
        var n := ParseInt(id).value;
        var p := UpdateData(caller, b, hash);
        (status == NotFound <==> UserFields(p) == [] || !(1 <= n <= |old(t.users)|))
        && (status == NotFound ==> t.users == old(t.users) && profile.None?)
        && (status != NotFound ==>
              status == Ok
              && t.users == old(t.users)[n - 1 := PatchedUser(old(t.users)[n - 1], p)]
              && profile == Some(ProfileOf(n, t.users[n - 1])))
    ensures status != ServerError
  {
    var check := UpdateUserCheck(t.users, caller, id, b);
    if check.Some? {
      return check.value.Status(), None;
    }
    CheckPassedMeansClashFree(t.users, caller, id, b, hash);
    var n := ParseInt(id).value;
    var r := t.Update(n, UpdateData(caller, b, hash));
    match r
    case DuplicateEntry =>
      assert false;
      return ServerError, None;
    case Answer(updated) =>
      if updated.None? {
        return NotFound, None;
      }
      status, profile := Ok, Some(ProfileOf(n, updated.value));
  }

  /** When the guard chain of `updateUser` lets a request through, the id
      is numeric and the row it would write clashes with no other row. */
  lemma CheckPassedMeansClashFree(users: seq<User>, caller: Caller, id: string, b: UserBody, hash: string -> string)
    requires UniqueAccounts(users)
    requires UpdateUserCheck(users, caller, id, b).None?
    ensures ParseInt(id).Some?
    ensures var n := ParseInt(id).value;
      1 <= n <= |users| ==> ClashFree(users, n, PatchedUser(users[n - 1], UpdateData(caller, b, hash)))
  {
    var n := ParseInt(id).value;
    if 1 <= n <= |users| {
      NoConflictMeansClashFree(users, n, caller, b, hash);
    }
  }

  /** The guard chain shared by `deleteUser` and `getUserStats`. */
  function ManageCheck(caller: Caller, id: string): (r: Option<UserRefusal>)
    ensures r == Some(BadId) <==> ParseInt(id).None?
    ensures r == Some(NotPermitted) <==> ParseInt(id).Some? && !MayManage(caller, ParseInt(id).value)
    ensures r.None? <==> ParseInt(id).Some? && MayManage(caller, ParseInt(id).value)
  {
    match ParseInt(id)
    case None => Some(BadId)
    case Some(n) => if MayManage(caller, n) then None else Some(NotPermitted)
  }

  /** `deleteUser`: the soft delete; 404 when there is no such user.
      Nothing is removed: only the flag of the target row goes false. */
  method DeleteUser(t: UserTable, caller: Caller, id: string) returns (status: Status)
    requires t.Valid()
    modifies t
    ensures t.Valid()
    ensures ManageCheck(caller, id).Some? ==> status == ManageCheck(caller, id).value.Status() && t.users == old(t.users)
    ensures ManageCheck(caller, id).None? ==>
      var n := ParseInt(id).value;
      |t.users| == |old(t.users)|
      && (status == NotFound <==> !(1 <= n <= |old(t.users)|))
      && (status == NotFound ==> t.users == old(t.users))
      && (status != NotFound ==> status == Ok && t.users == old(t.users)[n - 1 := old(t.users)[n - 1].(activo := false)])
  {
    var check := ManageCheck(caller, id);
    if check.Some? {
      return check.value.Status();
    }
    var deleted := t.SoftDelete(ParseInt(id).value);
    status := if deleted then Ok else NotFound;
  }

  /** The status of `getUserStats`: the statistics row exists exactly
      when the user does. */
  function GetUserStatsStatus(users: seq<User>, caller: Caller, id: string): (r: Status)
    ensures ManageCheck(caller, id).Some? ==> r == ManageCheck(caller, id).value.Status()
    ensures ManageCheck(caller, id).None? ==> (r == Ok <==> 1 <= ParseInt(id).value <= |users|)
    ensures ManageCheck(caller, id).None? ==> (r != Ok ==> r == NotFound)
  {
    match ManageCheck(caller, id)
    case Some(refusal) => refusal.Status()
    case None => if 1 <= ParseInt(id).value <= |users| then Ok else NotFound
  }

  /** A client that names another account is refused with 403 by all three
      handlers that manage accounts. */
  lemma OthersAreForbidden(users: seq<User>, caller: Caller, id: string, b: UserBody)
    requires caller.role == Cliente && ParseInt(id).Some? && ParseInt(id).value != caller.id
    ensures UpdateUserCheck(users, caller, id, b) == Some(NotPermitted)
    ensures ManageCheck(caller, id) == Some(NotPermitted)
    ensures GetUserStatsStatus(users, caller, id).Code() == 403
  {
  }
}
