/** The `usuarios` table. A user's id is the position of the row counted
    from 1; users are only ever deactivated, never removed. `nombre_usuario`
    and `correo` are unique keys. */
module UserRepository {
  import opened Common

  /** A row of `usuarios`; `contrasena` holds the password hash. */
  datatype User = User(username: string, correo: string, contrasena: string, pais: Option<string>, rol: Role, activo: bool)

  /** The body of `create`; `None` for `rol` is an absent member. */
  datatype NewUserData = NewUserData(username: string, correo: string, contrasena: string, pais: Option<string>, rol: Option<Role>)

  /** The body of `update`. `None` is an absent (or null) member; `pais`
      keeps the difference between absent and null. */
  datatype UserPatch = UserPatch(username: Option<string>, correo: Option<string>, contrasena: Option<string>,
                                 pais: Field<string>, activo: Option<bool>)

  /** The columns `update` can write. */
  datatype UserField = Username | Correo | Contrasena | Pais | Activo

  /** A row together with its id. */
  datatype UserRow = UserRow(id: int, user: User)

  /** The row `create` inserts: `rol || 'cliente'`. The insert names no
      `activo`, so the row takes the column default, which is taken to be
      true: the schema is not part of this model. */
  function NewUser(d: NewUserData): (r: User)
    ensures r.username == d.username && r.correo == d.correo && r.contrasena == d.contrasena && r.pais == d.pais
    ensures r.rol == if d.rol.Some? then d.rol.value else Cliente
    ensures r.activo
  {
    User(d.username, d.correo, d.contrasena, d.pais, if d.rol.Some? then d.rol.value else Cliente, true)
  }

  /** The `SET` list of `update`: username, email and password when truthy,
      `pais` and `activo` whenever they are not undefined. */
  function UserFields(p: UserPatch): (r: seq<UserField>)
    ensures Username in r <==> Filled(p.username)
    ensures Correo in r <==> Filled(p.correo)
    ensures Contrasena in r <==> Filled(p.contrasena)
    ensures Pais in r <==> !p.pais.Undefined?
    ensures Activo in r <==> p.activo.Some?
  {
    (if Filled(p.username) then [Username] else [])
    + (if Filled(p.correo) then [Correo] else [])
    + (if Filled(p.contrasena) then [Contrasena] else [])
    + (if !p.pais.Undefined? then [Pais] else [])
    + (if p.activo.Some? then [Activo] else [])
  }

  /** The row after `update` wrote the fields of the `SET` list. */
  function PatchedUser(u: User, p: UserPatch): (r: User)
    ensures r.rol == u.rol
    ensures r.username == if Username in UserFields(p) then p.username.value else u.username
    ensures r.correo == if Correo in UserFields(p) then p.correo.value else u.correo
    ensures r.contrasena == if Contrasena in UserFields(p) then p.contrasena.value else u.contrasena
    ensures r.pais == if Pais in UserFields(p) then (if p.pais.Val? then Some(p.pais.v) else None) else u.pais
    ensures r.activo == if Activo in UserFields(p) then p.activo.value else u.activo
  {
    User(if Filled(p.username) then p.username.value else u.username,
         if Filled(p.correo) then p.correo.value else u.correo,
         if Filled(p.contrasena) then p.contrasena.value else u.contrasena,
         match p.pais { case Undefined => u.pais case Null => None case Val(v) => Some(v) },
         u.rol,
         if p.activo.Some? then p.activo.value else u.activo)
  }

  /** A patch with no field to write leaves the row as it was. */
  lemma EmptyUserPatchNoChange(u: User, p: UserPatch)
    requires UserFields(p) == []
    ensures PatchedUser(u, p) == u
  {
    assert Username !in UserFields(p) && Correo !in UserFields(p) && Contrasena !in UserFields(p);
    assert Pais !in UserFields(p) && Activo !in UserFields(p);
  }

  /** Writing the same patch twice is writing it once. */
  lemma PatchedUserIdempotent(u: User, p: UserPatch)
    ensures PatchedUser(PatchedUser(u, p), p) == PatchedUser(u, p)
  {
  }

  /** No two rows share a username or an email. */
  predicate UniqueAccounts(users: seq<User>)
  {
    forall i, j :: 0 <= i < j < |users| ==> users[i].username != users[j].username && users[i].correo != users[j].correo
  }

  /** Some row already holds the username or the email. */
  predicate Taken(users: seq<User>, username: string, correo: string)
  {
    exists i :: 0 <= i < |users| && (users[i].username == username || users[i].correo == correo)
  }

  /** Row `u` written at `id` would share a username or an email with no
      other row. */
  predicate ClashFree(users: seq<User>, id: int, u: User)
  {
    forall j :: 0 <= j < |users| && j != id - 1 ==> users[j].username != u.username && users[j].correo != u.correo
  }

  /** `WHERE nombre_usuario = ? OR correo = ?`; an absent value matches
      nothing. */
  predicate MatchesEither(u: User, username: Option<string>, correo: Option<string>)
  {
    (username.Some? && u.username == username.value) || (correo.Some? && u.correo == correo.value)
  }

  /** `rows[0] || null` of a lookup by username or email: the first row, in
      table order, that matches. */
  function FirstMatch(users: seq<User>, username: Option<string>, correo: Option<string>): (r: Option<UserRow>)
    ensures r.Some? ==> 1 <= r.value.id <= |users| && r.value.user == users[r.value.id - 1]
    ensures r.Some? ==> MatchesEither(r.value.user, username, correo)
    ensures r.Some? ==> forall j :: 0 <= j < r.value.id - 1 ==> !MatchesEither(users[j], username, correo)
    ensures r.None? <==> forall j :: 0 <= j < |users| ==> !MatchesEither(users[j], username, correo)
  {
    FirstMatchFrom(users, username, correo, 0)
  }

  function FirstMatchFrom(users: seq<User>, username: Option<string>, correo: Option<string>, from: nat): (r: Option<UserRow>)
    requires from <= |users|
    requires forall j :: 0 <= j < from ==> !MatchesEither(users[j], username, correo)
    ensures r.Some? ==> from < r.value.id <= |users| && r.value.user == users[r.value.id - 1]
    ensures r.Some? ==> MatchesEither(r.value.user, username, correo)
    ensures r.Some? ==> forall j :: 0 <= j < r.value.id - 1 ==> !MatchesEither(users[j], username, correo)
    ensures r.None? <==> forall j :: 0 <= j < |users| ==> !MatchesEither(users[j], username, correo)
    decreases |users| - from
  {
    if from == |users| then None
    else if MatchesEither(users[from], username, correo) then Some(UserRow(from + 1, users[from]))
    else FirstMatchFrom(users, username, correo, from + 1)
  }

  /** No row before position `j` holds username `n` or email `c`. */
  predicate NoClashBefore(users: seq<User>, n: string, c: string, j: int)
    requires 0 <= j <= |users|
  {
    forall k :: 0 <= k < j ==> users[k].username != n && users[k].correo != c
  }

  /** The first row that holds username `n` or email `c` holds `n`. */
  predicate UsernameClashFirst(users: seq<User>, n: string, c: string)
  {
    exists j :: 0 <= j < |users| && users[j].username == n && NoClashBefore(users, n, c, j)
  }

  /** The first row that holds username `n` or email `c` holds `c` but not `n`. */
  predicate EmailClashFirst(users: seq<User>, n: string, c: string)
  {
    exists j :: 0 <= j < |users| && users[j].username != n && users[j].correo == c && NoClashBefore(users, n, c, j)
  }

  /** The lookup by username or email returns the first clashing row, so
      whether it holds the username decides which clash is seen. */
  lemma FirstMatchClash(users: seq<User>, n: string, c: string)
    ensures var r := FirstMatch(users, Some(n), Some(c));
      UsernameClashFirst(users, n, c) <==> r.Some? && r.value.user.username == n
    ensures var r := FirstMatch(users, Some(n), Some(c));
      EmailClashFirst(users, n, c) <==> r.Some? && r.value.user.username != n
  {
    var r := FirstMatch(users, Some(n), Some(c));
    forall j | 0 <= j < |users| && (users[j].username == n || users[j].correo == c) && NoClashBefore(users, n, c, j)
      ensures r.Some? && r.value.id == j + 1
    {
      assert MatchesEither(users[j], Some(n), Some(c));
    }
    if r.Some? {
      var j0 := r.value.id - 1;
      assert NoClashBefore(users, n, c, j0) by {
        forall k | 0 <= k < j0 ensures users[k].username != n && users[k].correo != c {
          assert !MatchesEither(users[k], Some(n), Some(c));
        }
      }
    }
  }

  /** The ids of the rows that pass the `activo` filter (applied only when
      it is defined), newest registration first. */
  function UserIds(users: seq<User>, activo: Option<bool>): (r: seq<int>)
    ensures forall id :: id in r <==> 1 <= id <= |users| && (activo.Some? ==> users[id - 1].activo == activo.value)
    ensures forall i, j :: 0 <= i < j < |r| ==> r[i] > r[j]
    ensures forall i :: 0 <= i < |r| ==> r[i] <= |users|
    ensures |r| <= |users|
  {
    if users == [] then []
    else
      var init := users[..|users| - 1];
      var rest := UserIds(init, activo);
      if activo.None? || users[|users| - 1].activo == activo.value then [|users|] + rest else rest
  }

  /** One page of `findAll`: the ids and the echoed pagination; `None` in
      `totalPages` is NaN or Infinity. */
  datatype UserPage = UserPage(ids: seq<int>, page: int, limit: int, total: nat, totalPages: Option<int>)

  class UserTable {
    var users: seq<User>

    constructor ()
      ensures users == []
    {
      users := [];
    }

    predicate Valid()
      reads this
    {
      UniqueAccounts(users)
    }

    /** `findById`. */
    function FindById(id: int): (r: Option<User>)
      reads this
      ensures r.Some? <==> 1 <= id <= |users|
      ensures r.Some? ==> r.value == users[id - 1]
    {
      if 1 <= id <= |users| then Some(users[id - 1]) else None
    }

    /** `exists`. */
    predicate Exists(id: int)
      reads this
    {
      1 <= id <= |users|
    }

    /** `findByEmail`: the first row with that email, or null. */
    function FindByEmail(correo: string): (r: Option<UserRow>)
      reads this
      ensures r.Some? ==> 1 <= r.value.id <= |users| && r.value.user == users[r.value.id - 1] && r.value.user.correo == correo
      ensures r.None? <==> forall j :: 0 <= j < |users| ==> users[j].correo != correo
    {
      FirstMatch(users, None, Some(correo))
    }

    /** `findByUsernameOrEmail`: the first row holding the username or the
        email, or null. */
    function FindByUsernameOrEmail(username: string, correo: string): (r: Option<UserRow>)
      reads this
      ensures r.Some? ==> 1 <= r.value.id <= |users| && r.value.user == users[r.value.id - 1]
      ensures r.Some? ==> r.value.user.username == username || r.value.user.correo == correo
      ensures r.None? <==> !Taken(users, username, correo)
    {
      var r := FirstMatch(users, Some(username), Some(correo));
      assert r.None? ==> !Taken(users, username, correo) by {
        if r.None? && Taken(users, username, correo) {
          var i :| 0 <= i < |users| && (users[i].username == username || users[i].correo == correo);
          assert MatchesEither(users[i], Some(username), Some(correo));
        }
      }
      r
    }

    /** `findAll`: newest registration first (`ORDER BY fecha_registro
        DESC`), `LIMIT ? OFFSET ?` bound from the parsed page and limit, so
        a NaN or negative value is refused by MySQL (`None`); the i-th id of
        the page is the (offset + i)-th newest user that passes the filter,
        and the pagination echoes page and limit. */
    function FindAll(page: Option<int>, limit: Option<int>, activo: Option<bool>): (r: Option<UserPage>)
      reads this
      ensures r.Some? <==> page.Some? && limit.Some? && limit.value >= 0 && Offset(page.value, limit.value) >= 0
      ensures r.Some? ==> r.value.page == page.value && r.value.limit == limit.value
      ensures r.Some? ==> r.value.total == |UserIds(users, activo)| && |r.value.ids| <= r.value.limit
      ensures r.Some? ==> forall id :: id in r.value.ids ==> 1 <= id <= |users| && (activo.Some? ==> users[id - 1].activo == activo.value)
      ensures r.Some? ==> r.value.totalPages == JsTotalPages(r.value.total, limit)
    {
      match (page, limit)
      case (Some(p), Some(l)) =>
        var offset := Offset(p, l);
        if l < 0 || offset < 0 then None
        else
          var all := UserIds(users, activo);
          var ids := Page(all, offset, l);
          assert forall id :: id in ids ==> id in all;
          Some(UserPage(ids, p, l, |all|, JsTotalPages(|all|, limit)))
      case _ => None
    }

    /** The page `findAll` returns is cut from the filtered ids, newest
        registration first, at the offset of the requested page: its i-th
        id is the (offset + i)-th newest user that passes the filter. */
    lemma FindAllPage(page: Option<int>, limit: Option<int>, activo: Option<bool>)
      requires FindAll(page, limit, activo).Some?
      ensures limit.value >= 0 && Offset(page.value, limit.value) >= 0
      ensures FindAll(page, limit, activo).value.ids == Page(UserIds(users, activo), Offset(page.value, limit.value), limit.value)
    {
    }

    /** `create`: append the row and answer its id; a username or email
        already present violates a unique key. */
    method Create(d: NewUserData) returns (r: Sql<int>)
      requires Valid()
      modifies this
      ensures Valid()
      ensures r.DuplicateEntry? <==> old(Taken(users, d.username, d.correo))
      ensures r.DuplicateEntry? ==> users == old(users)
      ensures r.Answer? ==> users == old(users) + [NewUser(d)] && r.value == |users|
    {
      if Taken(users, d.username, d.correo) {
        r := DuplicateEntry;
      } else {
        users := users + [NewUser(d)];
        r := Answer(|users|);
      }
    }

    /** `update`: null when there is no field to write or no row with the
        id; a username or email that another row holds violates a unique
        key; otherwise the row after the write. */
    method Update(id: int, p: UserPatch) returns (r: Sql<Option<User>>)
      requires Valid()
      modifies this
      ensures Valid()
      ensures r == Answer(None) <==> UserFields(p) == [] || !(1 <= id <= |old(users)|)
      ensures r.DuplicateEntry? <==> UserFields(p) != [] && 1 <= id <= |old(users)|
                                     && !ClashFree(old(users), id, PatchedUser(old(users)[id - 1], p))
      ensures !r.Answer? || r.value.None? ==> users == old(users)
      ensures r.Answer? && r.value.Some? ==>
        users == old(users)[id - 1 := PatchedUser(old(users)[id - 1], p)] && r.value == FindById(id)
    {
      if UserFields(p) == [] || !(1 <= id <= |users|) {
        return Answer(None);
      }
      var u := PatchedUser(users[id - 1], p);
      if !ClashFree(users, id, u) {
        return DuplicateEntry;
      }
      users := users[id - 1 := u];
      r := Answer(Some(u));
    }

    /** `softDelete`: deactivate the row, keeping it; true iff it exists. */
    method SoftDelete(id: int) returns (deleted: bool)
      requires Valid()
      modifies this
      ensures Valid()
      ensures deleted <==> 1 <= id <= |old(users)|
      ensures users == if deleted then old(users)[id - 1 := old(users)[id - 1].(activo := false)] else old(users)
    {
      deleted := 1 <= id <= |users|;
      if deleted {
        users := users[id - 1 := users[id - 1].(activo := false)];
      }
    }
  }
}
