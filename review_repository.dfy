/** The `resenas` table: one review per user and game, with a score, an
    optional comment and a recommendation flag. Reviews are deleted for
    real, so each carries the id AUTO_INCREMENT gave it. */
module ReviewRepository {
  import opened Common

  /** A row of `resenas`; `recomendado` may be NULL. */
  datatype Review = Review(id: int, user: int, game: int, puntuacion: real,
                           comentario: Option<string>, recomendado: Option<bool>)

  /** The body of `create`. */
  datatype ReviewData = ReviewData(user: int, game: int, puntuacion: real,
                                   comentario: Option<string>, recomendado: Option<bool>)

  /** The body of `update`: a score is written only when truthy, the other
      members whenever they are not undefined. */
  datatype ReviewPatch = ReviewPatch(puntuacion: Option<real>, comentario: Field<string>, recomendado: Field<bool>)

  /** The table's unique key: one review per (user, game). */
  predicate UniqueReviews(reviews: seq<Review>)
  {
    forall i, j :: 0 <= i < j < |reviews| ==>
      reviews[i].id != reviews[j].id && (reviews[i].user != reviews[j].user || reviews[i].game != reviews[j].game)
  }

  /** `userHasReview`. */
  predicate HasReview(reviews: seq<Review>, user: int, game: int)
  {
    exists i :: 0 <= i < |reviews| && reviews[i].user == user && reviews[i].game == game
  }

  /** The position of the review with this id. */
  function IndexOf(reviews: seq<Review>, id: int): (r: Option<nat>)
    ensures r.Some? ==> r.value < |reviews| && reviews[r.value].id == id
    ensures r.None? <==> forall i :: 0 <= i < |reviews| ==> reviews[i].id != id
  {
    if reviews == [] then None
    else if reviews[0].id == id then Some(0)
    else
      match IndexOf(reviews[1..], id)
      case Some(k) => Some(k + 1)
      case None => None
  }

  /** The columns `update` can write. */
  datatype ReviewField = Puntuacion | Comentario | Recomendado

  /** The `SET` list `update` builds: `puntuacion` when truthy, `comentario`
      and `recomendado` when not undefined. */
  function PatchFields(p: ReviewPatch): (r: seq<ReviewField>)
    ensures Puntuacion in r <==> p.puntuacion.Some? && p.puntuacion.value != 0.0
    ensures Comentario in r <==> !p.comentario.Undefined?
    ensures Recomendado in r <==> !p.recomendado.Undefined?
  {
    (if p.puntuacion.Some? && p.puntuacion.value != 0.0 then [Puntuacion] else [])
    + (if !p.comentario.Undefined? then [Comentario] else [])
    + (if !p.recomendado.Undefined? then [Recomendado] else [])
  }

  /** A body member that is JSON `null` or a value, as a column value. */
  function Stored<T>(f: Field<T>): Option<T>
    requires !f.Undefined?
  {
    if f.Null? then None else Some(f.v)
  }

  /** The row the `UPDATE` statement leaves behind. */
  function Patched(r: Review, p: ReviewPatch): (r': Review)
    ensures r'.id == r.id && r'.user == r.user && r'.game == r.game
    ensures r'.puntuacion == if Puntuacion in PatchFields(p) then p.puntuacion.value else r.puntuacion
    ensures r'.comentario == if p.comentario.Undefined? then r.comentario else Stored(p.comentario)
    ensures r'.recomendado == if p.recomendado.Undefined? then r.recomendado else Stored(p.recomendado)
  {
    r.(puntuacion := if p.puntuacion.Some? && p.puntuacion.value != 0.0 then p.puntuacion.value else r.puntuacion,
       comentario := if p.comentario.Undefined? then r.comentario else Stored(p.comentario),
       recomendado := if p.recomendado.Undefined? then r.recomendado else Stored(p.recomendado))
  }

  /** A patch with no fields changes no row. */
  lemma EmptyPatchNoChange(r: Review, p: ReviewPatch)
    requires PatchFields(p) == []
    ensures Patched(r, p) == r
  {
    assert Puntuacion !in PatchFields(p);
  }

  /** Which reviews a listing is about: those of one game or those by one
      user. */
  datatype ReviewKey = OfGame(game: int) | ByUser(user: int)

  predicate Matches(x: Review, key: ReviewKey)
  {
    match key
    case OfGame(g) => x.game == g
    case ByUser(u) => x.user == u
  }

  /** The reviews that match `key`, in table order. */
  function ReviewsWith(reviews: seq<Review>, key: ReviewKey): (r: seq<Review>)
    ensures forall x :: x in r <==> x in reviews && Matches(x, key)
  {
    if reviews == [] then []
    else
      assert reviews == [reviews[0]] + reviews[1..];
      (if Matches(reviews[0], key) then [reviews[0]] else []) + ReviewsWith(reviews[1..], key)
  }

  /** One page of reviews. The pagination block reports the defaulted
      `pageInt` and `limitInt`. */
  datatype ReviewPage = ReviewPage(reviews: seq<Review>, page: int, limit: int, total: nat, totalPages: nat)

  /** `parseInt(page) || 1`, `parseInt(limit) || 10`, offset, and the page
      of `all` newest first (`ORDER BY r.fecha_resena DESC`); `None` is a
      statement MySQL rejects (a negative LIMIT or OFFSET written into its
      text). */
  function Paginate(all: seq<Review>, page: Option<int>, limit: Option<int>): (r: Option<ReviewPage>)
    ensures r.Some? <==> OrDefault(limit, 10) > 0 && OrDefault(page, 1) >= 1
    ensures r.Some? ==> r.value.page == OrDefault(page, 1) && r.value.limit == OrDefault(limit, 10)
    ensures r.Some? ==> r.value.total == |all| && |r.value.reviews| <= r.value.limit
    ensures r.Some? ==> r.value.limit > 0 && r.value.totalPages == CeilDiv(|all|, r.value.limit)
    ensures r.Some? ==> forall x :: x in r.value.reviews ==> x in all
    ensures r.Some? ==> DatePage(r.value.reviews, all, Desc, Offset(r.value.page, r.value.limit), r.value.limit)
  {
    var pageInt := OrDefault(page, 1);
    var limitInt := OrDefault(limit, 10);
    var offset := Offset(pageInt, limitInt);
    if limitInt < 0 then None
    else
      OffsetSign(pageInt, limitInt);
      if offset < 0 then None
      else
        var rows := Page(ByDate(all, Desc), offset, limitInt);
        PageByDate(all, Desc, offset, limitInt);
        PageByDateWithin(all, Desc, offset, limitInt);
        Some(ReviewPage(rows, pageInt, limitInt, |all|, CeilDiv(|all|, limitInt)))
  }

  class ReviewTable {
    var reviews: seq<Review>
    var nextId: int

    constructor ()
      ensures reviews == [] && nextId == 1
    {
      reviews := [];
      nextId := 1;
    }

    /** Ids are below the next AUTO_INCREMENT value, and the table's keys
        hold. */
    predicate Valid()
      reads this
    {
      UniqueReviews(reviews) && forall i :: 0 <= i < |reviews| ==> reviews[i].id < nextId
    }

    /** `findById`. */
    function FindById(id: int): (r: Option<Review>)
      reads this
      ensures r.Some? ==> r.value in reviews && r.value.id == id
      ensures r.None? <==> forall i :: 0 <= i < |reviews| ==> reviews[i].id != id
    {
      match IndexOf(reviews, id)
      case Some(k) => Some(reviews[k])
      case None => None
    }

    /** `userHasReview`. */
    predicate UserHasReview(user: int, game: int)
      reads this
    {
      HasReview(reviews, user, game)
    }

    /** `findByGame`: the game's reviews, newest first. */
    function FindByGame(game: int, page: Option<int>, limit: Option<int>): (r: Option<ReviewPage>)
      reads this
      ensures r.Some? <==> OrDefault(limit, 10) > 0 && OrDefault(page, 1) >= 1
      ensures r.Some? ==> forall x :: x in r.value.reviews ==> x in reviews && x.game == game
      ensures r.Some? ==> r.value.total == |ReviewsWith(reviews, OfGame(game))|
      ensures r.Some? ==> DatePage(r.value.reviews, ReviewsWith(reviews, OfGame(game)), Desc, Offset(r.value.page, r.value.limit), r.value.limit)
    {
      Paginate(ReviewsWith(reviews, OfGame(game)), page, limit)
    }

    /** `findByUser`: the user's reviews, newest first. */
    function FindByUser(user: int, page: Option<int>, limit: Option<int>): (r: Option<ReviewPage>)
      reads this
      ensures r.Some? <==> OrDefault(limit, 10) > 0 && OrDefault(page, 1) >= 1
      ensures r.Some? ==> forall x :: x in r.value.reviews ==> x in reviews && x.user == user
      ensures r.Some? ==> r.value.total == |ReviewsWith(reviews, ByUser(user))|
      ensures r.Some? ==> DatePage(r.value.reviews, ReviewsWith(reviews, ByUser(user)), Desc, Offset(r.value.page, r.value.limit), r.value.limit)
    {
      Paginate(ReviewsWith(reviews, ByUser(user)), page, limit)
    }

    /** `create`: insert the review under the next id; the unique key makes
        the insert fail when the user already reviewed the game. */
    method Create(data: ReviewData) returns (r: Option<Review>)
      requires Valid()
      modifies this
      ensures Valid()
      ensures r.None? <==> old(UserHasReview(data.user, data.game))
      ensures r.Some? ==> r.value == Review(old(nextId), data.user, data.game, data.puntuacion, data.comentario, data.recomendado)
      ensures reviews == if r.Some? then old(reviews) + [r.value] else old(reviews)
      ensures UserHasReview(data.user, data.game)
    {
      if UserHasReview(data.user, data.game) {
        return None;
      }
      var review := Review(nextId, data.user, data.game, data.puntuacion, data.comentario, data.recomendado);
      reviews := reviews + [review];
      nextId := nextId + 1;
      r := Some(review);
      assert reviews[|reviews| - 1] == review;
    }

    /** `update`: build the field list; with no field, or no review with
        that id, answer null and change nothing; otherwise write the
        fields and answer the new row. */
    method Update(id: int, patch: ReviewPatch) returns (r: Option<Review>)
      requires Valid()
      modifies this
      ensures Valid() && nextId == old(nextId)
      ensures r.None? <==> PatchFields(patch) == [] || old(FindById(id)).None?
      ensures r.None? ==> reviews == old(reviews)
      ensures r.Some? ==> r == Some(Patched(old(FindById(id)).value, patch))
      ensures r.Some? ==> |reviews| == |old(reviews)| && forall i :: 0 <= i < |reviews| ==>
        reviews[i] == if old(reviews)[i].id == id then r.value else old(reviews)[i]
    {
      var fields: seq<ReviewField> := [];
      if patch.puntuacion.Some? && patch.puntuacion.value != 0.0 {
        fields := fields + [Puntuacion];
      }
      if !patch.comentario.Undefined? {
        fields := fields + [Comentario];
      }
      if !patch.recomendado.Undefined? {
        fields := fields + [Recomendado];
      }
      assert fields == PatchFields(patch);
      if fields == [] {
        return None;
      }
      match IndexOf(reviews, id)
      case None =>
        return None;
      case Some(k) =>
        var updated := Patched(reviews[k], patch);
        ReplaceKeepsKeys(reviews, k, updated);
        reviews := reviews[k := updated];
        r := Some(updated);
    }

    /** `delete`: remove the review; true iff it existed. */
    method Delete(id: int) returns (deleted: bool)
      requires Valid()
      modifies this
      ensures Valid() && nextId == old(nextId)
      ensures deleted <==> old(FindById(id)).Some?
      ensures FindById(id).None?
      ensures forall x :: x in reviews <==> x in old(reviews) && x.id != id
      ensures |reviews| == if deleted then |old(reviews)| - 1 else |old(reviews)|
    {
      match IndexOf(reviews, id)
      case None =>
        deleted := false;
      case Some(k) =>
        RemoveKeepsKeys(reviews, k, nextId);
        RemoveById(reviews, k);
        reviews := RemoveAt(reviews, k);
        deleted := true;
    }
  }

  /** The table without its row at `k`. */
  function RemoveAt(reviews: seq<Review>, k: nat): (r: seq<Review>)
    requires k < |reviews|
    ensures |r| == |reviews| - 1
    ensures forall i :: 0 <= i < |r| ==> r[i] == reviews[if i < k then i else i + 1]
  {
    reviews[..k] + reviews[k + 1..]
  }

  /** Removing a row keeps the table's keys and the ids below `nextId`. */
  lemma RemoveKeepsKeys(reviews: seq<Review>, k: nat, nextId: int)
    requires UniqueReviews(reviews) && k < |reviews|
    requires forall i :: 0 <= i < |reviews| ==> reviews[i].id < nextId
    ensures UniqueReviews(RemoveAt(reviews, k))
    ensures forall i :: 0 <= i < |RemoveAt(reviews, k)| ==> RemoveAt(reviews, k)[i].id < nextId
  {
    var rest := RemoveAt(reviews, k);
    forall i, j | 0 <= i < j < |rest|
      ensures rest[i].id != rest[j].id && (rest[i].user != rest[j].user || rest[i].game != rest[j].game)
    {
      var i', j' := if i < k then i else i + 1, if j < k then j else j + 1;
      assert rest[i] == reviews[i'] && rest[j] == reviews[j'] && i' < j';
    }
  }

  /** With unique ids, removing the row at `k` removes exactly the rows that
      carry its id. */
  lemma RemoveById(reviews: seq<Review>, k: nat)
    requires UniqueReviews(reviews) && k < |reviews|
    ensures forall x :: x in RemoveAt(reviews, k) <==> x in reviews && x.id != reviews[k].id
  {
    var rest := RemoveAt(reviews, k);
    forall x | x in rest
      ensures x in reviews && x.id != reviews[k].id
    {
      var i :| 0 <= i < |rest| && rest[i] == x;
      var i' := if i < k then i else i + 1;
      assert x == reviews[i'] && i' != k;
    }
    forall x | x in reviews && x.id != reviews[k].id
      ensures x in rest
    {
      var i :| 0 <= i < |reviews| && reviews[i] == x;
      assert i != k;
      assert rest[if i < k then i else i - 1] == x;
    }
  }

  /** Rewriting one row without touching its id, user or game keeps the
      table's keys. */
  lemma ReplaceKeepsKeys(reviews: seq<Review>, k: nat, updated: Review)
    requires UniqueReviews(reviews) && k < |reviews|
    requires updated.id == reviews[k].id && updated.user == reviews[k].user && updated.game == reviews[k].game
    ensures UniqueReviews(reviews[k := updated])
  {
  }
}
