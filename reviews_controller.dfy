/** The review handlers: `getGameReviews`, `getUserReviews`,
    `createReview`, `updateReview` and `deleteReview`. Scores are JSON
    numbers (`real`); route ids arrive as text. Two table-wide facts are
    kept by every write: each review is by a user who owns the game, and
    each score lies between 1 and 10. */
module ReviewsController {
  import opened Common
  import opened JsText
  import opened LibraryRepository
  import opened ReviewRepository

  /** `parseInt` of a body member; an absent one reads as NaN. */
  function ParseMember(s: Option<string>): (r: Option<int>)
    ensures s.None? ==> r.None?
    ensures s.Some? ==> r == ParseInt(s.value)
  {
    if s.None? then None else ParseInt(s.value)
  }

  /** Every review is by a user who owns the reviewed game. */
  predicate ReviewsByOwners(reviews: seq<Review>, entries: seq<Entry>)
  {
    forall i :: 0 <= i < |reviews| ==> Owns(entries, reviews[i].user, reviews[i].game)
  }

  /** Every stored score lies between 1 and 10. */
  predicate ScoresInRange(reviews: seq<Review>)
  {
    forall i :: 0 <= i < |reviews| ==> 1.0 <= reviews[i].puntuacion <= 10.0
  }

  /** Appending a review by an owner with a score in range keeps both
      table-wide facts. */
  lemma AppendKeepsReviewFacts(reviews: seq<Review>, entries: seq<Entry>, r: Review)
    requires Owns(entries, r.user, r.game) && 1.0 <= r.puntuacion <= 10.0
    ensures ReviewsByOwners(reviews, entries) ==> ReviewsByOwners(reviews + [r], entries)
    ensures ScoresInRange(reviews) ==> ScoresInRange(reviews + [r])
  {
  }

  /** `getGameReviews`: 400 on a non-numeric game id; otherwise a page of
      that game's reviews, or 500 when MySQL rejects the `LIMIT`. */
  function GetGameReviews(t: ReviewTable, gameId: string, page: Option<string>, limit: Option<string>): (r: (Status, Option<ReviewPage>))
    reads t
    ensures r.0 == BadRequest <==> ParseInt(gameId).None?
    ensures r.0 == Ok <==> r.1.Some?
    ensures r.0 == Ok || r.0 == BadRequest || r.0 == ServerError
    ensures r.1.Some? ==> forall x :: x in r.1.value.reviews ==> x in t.reviews && x.game == ParseInt(gameId).value
    ensures r.1.Some? ==> var p := r.1.value;
      DatePage(p.reviews, ReviewsWith(t.reviews, OfGame(ParseInt(gameId).value)), Desc, Offset(p.page, p.limit), p.limit)
  {
    match ParseInt(gameId)
    case None => (BadRequest, None)
    case Some(g) =>
      var p := t.FindByGame(g, QueryInt(page, 1), QueryInt(limit, 10));
      (if p.Some? then Ok else ServerError, p)
  }

  /** `getUserReviews`: a page of the caller's reviews, or 500 when MySQL
      rejects the `LIMIT`. */
  function GetUserReviews(t: ReviewTable, user: int, page: Option<string>, limit: Option<string>): (r: (Status, Option<ReviewPage>))
    reads t
    ensures r.0 == Ok <==> r.1.Some?
    ensures r.0 == Ok || r.0 == ServerError
    ensures r.1.Some? ==> forall x :: x in r.1.value.reviews ==> x in t.reviews && x.user == user
    ensures r.1.Some? ==> var p := r.1.value;
      DatePage(p.reviews, ReviewsWith(t.reviews, ByUser(user)), Desc, Offset(p.page, p.limit), p.limit)
  {
    var p := t.FindByUser(user, QueryInt(page, 1), QueryInt(limit, 10));
    (if p.Some? then Ok else ServerError, p)
  }

  /** With no query the listing is the first page: the user's 10 most
      recent reviews, newest first, or all of them when there are fewer. */
  lemma DefaultReviewPage(t: ReviewTable, user: int)
    ensures var r := GetUserReviews(t, user, None, None);
      r.0 == Ok && r.1.value.page == 1 && r.1.value.limit == 10
      && r.1.value.total == |ReviewsWith(t.reviews, ByUser(user))|
      && DatePage(r.1.value.reviews, ReviewsWith(t.reviews, ByUser(user)), Desc, 0, 10)
  {
    assert Offset(1, 10) == 0;
  }

  /** Why `createReview` refused, in the order the handler checks. */
  datatype CreateRefusal = MissingInput | OutOfRange | NotOwner | AlreadyReviewed
  {
    function Status(): Status
    {
      match this
      case MissingInput => BadRequest
      case OutOfRange => BadRequest
      case NotOwner => Forbidden
      case AlreadyReviewed => Conflict
    }
  }

  /** The guard chain of `createReview`. A score of 0 counts as missing. */
  function CreateReviewCheck(entries: seq<Entry>, reviews: seq<Review>, user: int,
                             idJuego: Option<string>, puntuacion: Option<real>): (r: Option<CreateRefusal>)
    ensures r == Some(MissingInput) <==> ParseMember(idJuego).None? || puntuacion.None? || puntuacion.value == 0.0
    ensures r.None? || r == Some(MissingInput) || ParseMember(idJuego).Some?
    ensures ParseMember(idJuego).Some? && puntuacion.Some? && puntuacion.value != 0.0 ==>
      var g := ParseMember(idJuego).value;
      var p := puntuacion.value;
      (r == Some(OutOfRange) <==> p < 1.0 || p > 10.0)
      && (r == Some(NotOwner) <==> 1.0 <= p <= 10.0 && !Owns(entries, user, g))
      && (r == Some(AlreadyReviewed) <==> 1.0 <= p <= 10.0 && Owns(entries, user, g) && HasReview(reviews, user, g))
      && (r.None? <==> 1.0 <= p <= 10.0 && Owns(entries, user, g) && !HasReview(reviews, user, g))
  {
    match ParseMember(idJuego)
    case None => Some(MissingInput)
    case Some(g) =>
      if puntuacion.None? || puntuacion.value == 0.0 then Some(MissingInput)
      else if puntuacion.value < 1.0 || puntuacion.value > 10.0 then Some(OutOfRange)
      else if !Owns(entries, user, g) then Some(NotOwner)
      else if HasReview(reviews, user, g) then Some(AlreadyReviewed)
      else None
  }

  /** `recomendado !== undefined ? recomendado : true`; a JSON `null` is
      stored as NULL. */
  function Recommendation(f: Field<bool>): (r: Option<bool>)
    ensures f.Undefined? ==> r == Some(true)
    ensures f.Null? ==> r.None?
    ensures f.Val? ==> r == Some(f.v)
  {
    match f
    case Undefined => Some(true)
    case Null => None
    case Val(b) => Some(b)
  }

  /** `createReview`. A refusal changes nothing. Otherwise the review is
      stored under the next id with the given score, `comentario || null`
      and the defaulted recommendation; the table keeps holding only
      reviews by owners with scores in range. */
  method CreateReview(t: ReviewTable, lib: LibraryTable, user: int, idJuego: Option<string>, puntuacion: Option<real>,
                      comentario: Option<string>, recomendado: Field<bool>)
    returns (status: Status, review: Option<Review>)
    requires t.Valid()
    modifies t
    ensures t.Valid()
    ensures var check := CreateReviewCheck(lib.entries, old(t.reviews), user, idJuego, puntuacion);
      check.Some? ==> status == check.value.Status() && review.None? && t.reviews == old(t.reviews)
    ensures var check := CreateReviewCheck(lib.entries, old(t.reviews), user, idJuego, puntuacion);
      check.None? ==>
        status == Created
        && review == Some(Review(old(t.nextId), user, ParseMember(idJuego).value, puntuacion.value,
                                 OrNull(comentario), Recommendation(recomendado)))
        && t.reviews == old(t.reviews) + [review.value]
    ensures old(ReviewsByOwners(t.reviews, lib.entries)) ==> ReviewsByOwners(t.reviews, lib.entries)
    ensures old(ScoresInRange(t.reviews)) ==> ScoresInRange(t.reviews)
  {
    var check := CreateReviewCheck(lib.entries, t.reviews, user, idJuego, puntuacion);
    if check.Some? {
      return check.value.Status(), None;
    }
    var g := ParseMember(idJuego).value;
    ghost var before := t.reviews;
    review := t.Create(ReviewData(user, g, puntuacion.value, OrNull(comentario), Recommendation(recomendado)));
    if review.None? {
      assert false;
      return ServerError, None;
    }
    AppendKeepsReviewFacts(before, lib.entries, review.value);
    status := Created;
  }

  /** Why `updateReview` or `deleteReview` refused, in the order the
      handlers check. */
  datatype ReviewRefusal = BadId | NoSuchReview | NotAuthor | ScoreOutOfRange
  {
    function Status(): Status
    {
      match this
      case BadId => BadRequest
      case NoSuchReview => NotFound
      case NotAuthor => Forbidden
      case ScoreOutOfRange => BadRequest
    }
  }

  /** The guard chain of `updateReview`: id, existence, authorship, and a
      truthy score out of range. Only the author may edit, even an admin
      may not. */
  function UpdateReviewCheck(reviews: seq<Review>, user: int, id: string, puntuacion: Option<real>): (r: Option<ReviewRefusal>)
    ensures r == Some(BadId) <==> ParseInt(id).None?
    ensures ParseInt(id).Some? ==>
      var k := IndexOf(reviews, ParseInt(id).value);
      (r == Some(NoSuchReview) <==> k.None?)
      && (r == Some(NotAuthor) <==> k.Some? && reviews[k.value].user != user)
      && (r == Some(ScoreOutOfRange) <==>
            k.Some? && reviews[k.value].user == user
            && puntuacion.Some? && puntuacion.value != 0.0 && (puntuacion.value < 1.0 || puntuacion.value > 10.0))
    ensures r.None? ==>
      ParseInt(id).Some? && IndexOf(reviews, ParseInt(id).value).Some?
      && reviews[IndexOf(reviews, ParseInt(id).value).value].user == user
  {
    match ParseInt(id)
    case None => Some(BadId)
    case Some(n) =>
      match IndexOf(reviews, n)
      case None => Some(NoSuchReview)
      case Some(k) =>
        if reviews[k].user != user then Some(NotAuthor)
        else if puntuacion.Some? && puntuacion.value != 0.0 && (puntuacion.value < 1.0 || puntuacion.value > 10.0) then
          Some(ScoreOutOfRange)
        else None
  }

  /** `updateReview`. A refusal changes nothing. Otherwise the answer is
      200 with the rewritten review, or with `null` when the body names no
      field (and then nothing changes); only that review changes, and its
      author and game stay, so both table-wide facts are kept. */
  method UpdateReview(t: ReviewTable, lib: LibraryTable, user: int, id: string, patch: ReviewPatch)
    returns (status: Status, review: Option<Review>)
    requires t.Valid()
    modifies t
    ensures t.Valid()
    ensures var check := UpdateReviewCheck(old(t.reviews), user, id, patch.puntuacion);
      check.Some? ==> status == check.value.Status() && review.None? && t.reviews == old(t.reviews)
    ensures var check := UpdateReviewCheck(old(t.reviews), user, id, patch.puntuacion);
      check.None? ==>
        var n := ParseInt(id).value;
        var k := IndexOf(old(t.reviews), n).value;
        status == Ok
        && (review.None? <==> PatchFields(patch) == [])
        && (review.None? ==> t.reviews == old(t.reviews))
        && (review.Some? ==> review.value == Patched(old(t.reviews)[k], patch)
                             && t.reviews == old(t.reviews)[k := review.value])
    ensures old(ReviewsByOwners(t.reviews, lib.entries)) ==> ReviewsByOwners(t.reviews, lib.entries)
    ensures old(ScoresInRange(t.reviews)) ==> ScoresInRange(t.reviews)
  {
    var check := UpdateReviewCheck(t.reviews, user, id, patch.puntuacion);
    if check.Some? {
      return check.value.Status(), None;
    }
    var n := ParseInt(id).value;
    ghost var k := IndexOf(t.reviews, n).value;
    ghost var before := t.reviews;
    review := t.Update(n, patch);
    status := Ok;
    if review.Some? {
      assert before[k].id == n;
      IdsAreKeys(before, k, n);
      assert t.reviews == before[k := review.value];
    }
  }

  /** In a table with unique ids, only the row at `k` carries its id. */
  lemma IdsAreKeys(reviews: seq<Review>, k: nat, id: int)
    requires UniqueReviews(reviews) && k < |reviews| && reviews[k].id == id
    ensures forall i :: 0 <= i < |reviews| ==> (reviews[i].id == id <==> i == k)
  {
    forall i | 0 <= i < |reviews| && i != k
      ensures reviews[i].id != id
    {
      if i < k {
        assert reviews[i].id != reviews[k].id;
      } else {
        assert reviews[k].id != reviews[i].id;
      }
    }
  }

  /** The guard chain of `deleteReview`: id, existence, then the author or
      an admin. */
  function DeleteReviewCheck(reviews: seq<Review>, caller: Caller, id: string): (r: Option<ReviewRefusal>)
    ensures r == Some(BadId) <==> ParseInt(id).None?
    ensures r != Some(ScoreOutOfRange)
    ensures ParseInt(id).Some? ==>
      var k := IndexOf(reviews, ParseInt(id).value);
      (r == Some(NoSuchReview) <==> k.None?)
      && (r == Some(NotAuthor) <==> k.Some? && reviews[k.value].user != caller.id && caller.role != Admin)
  {
    match ParseInt(id)
    case None => Some(BadId)
    case Some(n) =>
      match IndexOf(reviews, n)
      case None => Some(NoSuchReview)
      case Some(k) => if reviews[k].user != caller.id && caller.role != Admin then Some(NotAuthor) else None
  }

  /** `deleteReview`. A refusal changes nothing; otherwise the review is
      gone and every other review is kept. */
  method DeleteReview(t: ReviewTable, lib: LibraryTable, caller: Caller, id: string) returns (status: Status)
    requires t.Valid()
    modifies t
    ensures t.Valid()
    ensures var check := DeleteReviewCheck(old(t.reviews), caller, id);
      check.Some? ==> status == check.value.Status() && t.reviews == old(t.reviews)
    ensures var check := DeleteReviewCheck(old(t.reviews), caller, id);
      check.None? ==>
        var n := ParseInt(id).value;
        status == Ok && t.FindById(n).None? && |t.reviews| == |old(t.reviews)| - 1
        && forall x :: x in t.reviews <==> x in old(t.reviews) && x.id != n
    ensures old(ReviewsByOwners(t.reviews, lib.entries)) ==> ReviewsByOwners(t.reviews, lib.entries)
    ensures old(ScoresInRange(t.reviews)) ==> ScoresInRange(t.reviews)
  {
    var check := DeleteReviewCheck(t.reviews, caller, id);
    if check.Some? {
      return check.value.Status();
    }
    var n := ParseInt(id).value;
    ghost var before := t.reviews;
    var deleted := t.Delete(n);
    status := Ok;
    forall i | 0 <= i < |t.reviews|
      ensures t.reviews[i] in before
    {
      assert t.reviews[i] in t.reviews;
    }
  }
}
