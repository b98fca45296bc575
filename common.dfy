/** Shared vocabulary of the MiniSteam API model: optional values, the HTTP
    statuses the handlers answer with, roles, JSON body members, and the
    pagination and allow-list arithmetic the repositories repeat. */
module Common {

  datatype Option<T> = None | Some(value: T)

  datatype Result<T, E> = Success(value: T) | Failure(error: E)

  /** The statuses a handler answers with. */
  datatype Status = Ok | Created | BadRequest | Unauthorized | Forbidden | NotFound | Conflict | ServerError
  {
    function Code(): int
    {
      match this
      case Ok => 200
      case Created => 201
      case BadRequest => 400
      case Unauthorized => 401
      case Forbidden => 403
      case NotFound => 404
      case Conflict => 409
      case ServerError => 500
    }
  }

  /** The `rol` column of a user and the `role` claim of a bearer credential. */
  datatype Role = Cliente | Admin

  /** The authenticated caller (`req.user`). */
  datatype Caller = Caller(id: int, role: Role)

  /** A member of a JSON request body, where `undefined` and `null` differ. */
  datatype Field<T> = Undefined | Null | Val(v: T)

  /** JavaScript truthiness of an optional string: present and not empty. */
  predicate Filled(s: Option<string>)
  {
    s.Some? && s.value != ""
  }

  /** What a statement that writes a uniquely keyed row yields: the
      repository's answer, or the duplicate-entry error that MySQL raises
      and the handler's `catch` turns into a 500. */
  datatype Sql<T> = Answer(value: T) | DuplicateEntry

  /** `s || null` for an optional string. */
  function OrNull(s: Option<string>): (r: Option<string>)
    ensures r.Some? <==> Filled(s)
    ensures r.Some? ==> r == s
  {
    if Filled(s) then s else None
  }

  /** `parseInt(x) || d`: a NaN or a zero falls back to `d`. */
  function OrDefault(x: Option<int>, d: int): (r: int)
    ensures x.Some? && x.value != 0 ==> r == x.value
    ensures x.None? || x.value == 0 ==> r == d
  {
    if x.Some? && x.value != 0 then x.value else d
  }

  /** `(page - 1) * limit`. */
  function Offset(page: int, limit: int): int
  {
    (page - 1) * limit
  }

  /** `Math.ceil(total / limit)` for a positive limit: the least number of
      pages of `limit` rows that hold `total` rows. */
  function CeilDiv(total: nat, limit: int): (r: nat)
    requires limit > 0
    ensures r * limit >= total
    ensures r > 0 ==> (r - 1) * limit < total
  {
    var q := (total + limit - 1) / limit;
    assert q * limit + (total + limit - 1) % limit == total + limit - 1;
    q
  }

  lemma MulMonotone(a: int, b: int, c: int)
    requires a >= b && c > 0
    ensures a * c >= b * c
  {
  }

  /** With a positive page size the offset is non-negative exactly from
      the first page on. */
  lemma OffsetSign(page: int, limit: int)
    requires limit > 0
    ensures Offset(page, limit) >= 0 <==> page >= 1
  {
    if page >= 1 {
      MulMonotone(page - 1, 0, limit);
    } else {
      MulMonotone(0, page, limit);
      assert (page - 1) * limit < page * limit;
    }
  }

  /** `Math.ceil(total / limit)` as JavaScript computes it for any parsed
      limit; `None` is a result that is not a finite number (NaN or
      Infinity, which JSON serialises as null). */
  function JsTotalPages(total: nat, limit: Option<int>): (r: Option<int>)
    ensures r.None? <==> limit.None? || limit.value == 0
    ensures limit.Some? && limit.value > 0 ==> r == Some(CeilDiv(total, limit.value))
    ensures limit.Some? && limit.value < 0 ==> r.Some? && r.value <= 0
  {
    if limit.None? || limit.value == 0 then None
    else if limit.value > 0 then Some(CeilDiv(total, limit.value))
    else Some(-(total / -limit.value))
  }

  /** The rows that `LIMIT limit OFFSET offset` selects from `s`. */
  function Page<T>(s: seq<T>, offset: nat, limit: nat): (r: seq<T>)
    ensures |r| <= limit
    ensures |r| == if offset >= |s| then 0 else if |s| - offset < limit then |s| - offset else limit
    ensures forall i :: 0 <= i < |r| ==> r[i] == s[offset + i]
  {
    if offset >= |s| then []
    else if |s| - offset < limit then s[offset..]
    else s[offset..offset + limit]
  }

  /** Sort direction after normalisation. */
  datatype SortOrder = Asc | Desc

  /** `s` back to front. */
  function Reversed<T>(s: seq<T>): (r: seq<T>)
    ensures |r| == |s|
    ensures forall i :: 0 <= i < |s| ==> r[i] == s[|s| - 1 - i]
    ensures multiset(r) == multiset(s)
  {
    if s == [] then []
    else
      var init := s[..|s| - 1];
      assert s == init + [s[|s| - 1]];
      [s[|s| - 1]] + Reversed(init)
  }

  /** Rows kept in insertion order, listed by insertion date: oldest first
      for ASC, newest first for DESC. */
  function ByDate<T>(s: seq<T>, order: SortOrder): (r: seq<T>)
    ensures |r| == |s|
    ensures multiset(r) == multiset(s)
  {
    if order == Desc then Reversed(s) else s
  }

  /** `r` is what `ORDER BY <insertion date> <order> LIMIT limit OFFSET
      offset` selects from the rows `s`, which are kept in insertion order:
      `limit` rows, or all that are left past `offset`, and the i-th of them
      is the (offset + i)-th oldest row for ASC and the (offset + i)-th
      newest for DESC. */
  predicate DatePage<T(==)>(r: seq<T>, s: seq<T>, order: SortOrder, offset: int, limit: int)
  {
    0 <= offset && 0 <= limit
    && |r| == (if offset >= |s| then 0 else if |s| - offset < limit then |s| - offset else limit)
    && forall i :: 0 <= i < |r| ==> r[i] == s[if order == Desc then |s| - 1 - (offset + i) else offset + i]
  }

  /** Cutting a page from the rows listed by date selects the rows
      `DatePage` names. */
  lemma PageByDate<T>(s: seq<T>, order: SortOrder, offset: nat, limit: nat)
    ensures DatePage(Page(ByDate(s, order), offset, limit), s, order, offset, limit)
  {
  }

  /** Every row on such a page is one of the rows. */
  lemma PageByDateWithin<T>(s: seq<T>, order: SortOrder, offset: nat, limit: nat)
    ensures forall x :: x in Page(ByDate(s, order), offset, limit) ==> x in s
  {
    var page := Page(ByDate(s, order), offset, limit);
    forall x | x in page
      ensures x in s
    {
      var i :| 0 <= i < |page| && page[i] == x;
      assert x in multiset(ByDate(s, order));
    }
  }

  /** `allowed.includes(value) ? value : fallback`. */
  function AllowListed(value: string, allowed: seq<string>, fallback: string): (r: string)
    requires fallback in allowed
    ensures r in allowed
    ensures value in allowed ==> r == value
    ensures value !in allowed ==> r == fallback
  {
    if value in allowed then value else fallback
  }

  /** Sum of a sequence of amounts in cents. */
  function Sum(s: seq<int>): int
  {
    if s == [] then 0 else Sum(s[..|s| - 1]) + s[|s| - 1]
  }

  lemma {:induction false} SumAppend(a: seq<int>, b: seq<int>)
    ensures Sum(a + b) == Sum(a) + Sum(b)
    decreases |b|
  {
    if b == [] {
      assert a + b == a;
    } else {
      assert (a + b)[..|a + b| - 1] == a + b[..|b| - 1];
      SumAppend(a, b[..|b| - 1]);
    }
  }

  lemma {:induction false} SumNonNegative(s: seq<int>)
    requires forall i :: 0 <= i < |s| ==> s[i] >= 0
    ensures Sum(s) >= 0
    decreases |s|
  {
    if s != [] {
      SumNonNegative(s[..|s| - 1]);
    }
  }
}
