/**
 * CatsController: the cat profiles. The search answers the Ids of the cats
 * whose code, alias or description contains the trimmed keyword, ordered by
 * code; create, update and delete change one row of the Cats table.
 */
module CatsController {
  import opened Common
  import opened Models
  import opened Ordering
  import opened Store

  /** CatUpsertRequest; a JSON null string is None. */
  datatype CatRequest = CatRequest(
    code: Option<string>,
    alias: Option<string>,
    description: Option<string>,
    firstSeenAtUtc: Option<int>,
    lastSeenAtUtc: Option<int>,
    primaryImageId: Option<Id>,
    isActive: bool)

  /**
   * `EF.Functions.Like(s, "%keyword%")` under SQLite, whose LIKE ignores
   * the case of ASCII letters. The keyword's own `%` and `_` are taken
   * literally here.
   */
  predicate Like(s: string, keyword: string) {
    Contains(Fold(s), Fold(keyword))
  }

  /** Whether the search with this keyword reports the cat. */
  predicate SearchHit(c: Cat, keyword: string, includeInactive: bool) {
    (includeInactive || c.isActive) && (Like(c.code, keyword) || Like(c.alias, keyword) || Like(c.description, keyword))
  }

  predicate CodeOrder(a: Cat, b: Cat) {
    StrLe(a.code, b.code)
  }

  lemma {:induction false} CodeOrderIsTotalPreorder()
    ensures TotalPreorder(CodeOrder)
  {
    forall a: Cat, b: Cat ensures CodeOrder(a, b) || CodeOrder(b, a) {
      StrLeTotal(a.code, b.code);
    }
    forall a: Cat, b: Cat, c: Cat | CodeOrder(a, b) && CodeOrder(b, c) ensures CodeOrder(a, c) {
      StrLeTransitive(a.code, b.code, c.code);
    }
  }

  /** GetCats: every cat, ordered by Code. */
  function GetCats(cats: seq<Cat>): (r: seq<Cat>)
    ensures multiset(r) == multiset(cats)
    ensures forall i, j :: 0 <= i < j < |r| ==> StrLe(r[i].code, r[j].code)
  {
    CodeOrderIsTotalPreorder();
    SortBy(cats, CodeOrder)
  }

  /** The cats a search reports, ordered by Code: exactly the hits among `cats`. */
  function SearchHits(cats: seq<Cat>, keyword: string, includeInactive: bool): (r: seq<Cat>)
    ensures forall c :: c in r <==> c in cats && SearchHit(c, keyword, includeInactive)
    ensures multiset(r) <= multiset(cats)
    ensures forall i, j :: 0 <= i < j < |r| ==> StrLe(r[i].code, r[j].code)
  {
    var hits := Where(cats, c => SearchHit(c, keyword, includeInactive));
    CodeOrderIsTotalPreorder();
    var r := SortBy(hits, CodeOrder);
    assert forall c :: c in r <==> c in multiset(hits);
    r
  }

  function IdsOf(cats: seq<Cat>): (r: seq<Id>)
    ensures |r| == |cats| && forall i :: 0 <= i < |cats| ==> r[i] == cats[i].id
  {
    seq(|cats|, i requires 0 <= i < |cats| => cats[i].id)
  }

  /**
   * SearchCats: a null or blank query is a BadRequest; otherwise the Ids of
   * the cats reported for the trimmed keyword, in Code order.
   */
  function SearchCats(cats: seq<Cat>, query: Option<string>, includeInactive: bool): (r: Reply<seq<Id>>)
    ensures r.BadRequest? <==> IsNullOrWhiteSpace(query)
    ensures r.BadRequest? ==> r.error == "QueryRequired"
    ensures r.Ok? || r.BadRequest?
    ensures r.Ok? ==> r.value == IdsOf(SearchHits(cats, Trim(query.value), includeInactive))
  {
    if IsNullOrWhiteSpace(query) then BadRequest("QueryRequired")
    else Ok(IdsOf(SearchHits(cats, Trim(query.value), includeInactive)))
  }

  /**
   * A search reports a cat's Id exactly when the cat is a hit for the
   * trimmed keyword, and never reports more Ids than there are cats.
   */
  lemma {:induction false} SearchCatsReportsHits(cats: seq<Cat>, query: Option<string>, includeInactive: bool, id: Id)
    requires !IsNullOrWhiteSpace(query)
    ensures var r := SearchCats(cats, query, includeInactive);
      && r.Ok?
      && |r.value| <= |cats|
      && (id in r.value <==> exists c :: c in cats && c.id == id && SearchHit(c, Trim(query.value), includeInactive))
  {
    var hits := SearchHits(cats, Trim(query.value), includeInactive);
    var ids := IdsOf(hits);
    assert |multiset(hits)| <= |multiset(cats)| by {
      assert multiset(hits) <= multiset(cats);
    }
    if id in ids {
      var i :| 0 <= i < |ids| && ids[i] == id;
      assert hits[i] in hits;
    }
    if exists c :: c in cats && c.id == id && SearchHit(c, Trim(query.value), includeInactive) {
      var c :| c in cats && c.id == id && SearchHit(c, Trim(query.value), includeInactive);
      var i :| 0 <= i < |hits| && hits[i] == c;
      assert ids[i] == id;
    }
  }

  /** Without includeInactive, an inactive cat (the only one with its Id) is never reported. */
  lemma {:induction false} SearchSkipsInactive(cats: seq<Cat>, query: Option<string>, c: Cat)
    requires !IsNullOrWhiteSpace(query) && c in cats && !c.isActive
    requires forall d :: d in cats && d.id == c.id ==> d == c
    ensures c.id !in SearchCats(cats, query, false).value
  {
    SearchCatsReportsHits(cats, query, false, c.id);
  }

  /** GetCat: the cat with the Id, or NotFound. */
  function GetCat(cats: seq<Cat>, id: Id): (r: Reply<Cat>)
    ensures r.Ok? || r.NotFound?
    ensures r.NotFound? <==> forall i :: 0 <= i < |cats| ==> cats[i].id != id
    ensures r.Ok? ==> r.value in cats && r.value.id == id
  {
    match Find(cats, CatIdOf, id)
    case None => NotFound("")
    case Some(i) => Ok(cats[i])
  }

  /** The profile fields a create or update writes: null strings become empty. */
  function Written(c: Cat, req: CatRequest, nowUtc: int): Cat {
    c.(code := req.code.GetOr(""),
       alias := req.alias.GetOr(""),
       description := req.description.GetOr(""),
       firstSeenAtUtc := req.firstSeenAtUtc,
       lastSeenAtUtc := req.lastSeenAtUtc,
       primaryImageId := req.primaryImageId,
       isActive := req.isActive,
       updatedAtUtc := nowUtc)
  }

  function NewCat(id: Id, req: CatRequest, nowUtc: int): Cat {
    Written(Cat(id, "", "", "", None, None, true, None, nowUtc, nowUtc), req, nowUtc)
  }

  /** Whether a cat other than the one at `i` already has the code. */
  predicate CodeTakenElsewhere(cats: seq<Cat>, i: int, code: string) {
    exists j :: 0 <= j < |cats| && j != i && cats[j].code == code
  }

  /** The Cats table and the reply after CreateCat; a taken code violates the unique index. */
  function CreateCatSpec(cats: seq<Cat>, req: CatRequest, newId: Id, nowUtc: int): (seq<Cat>, Reply<Id>) {
    var c := NewCat(newId, req, nowUtc);
    if CodeTakenElsewhere(cats, -1, c.code) then (cats, Failed("UniqueViolation"))
    else (cats + [c], Ok(newId))
  }

  method CreateCat(db: Db, req: CatRequest, newId: Id, nowUtc: int) returns (reply: Reply<Id>)
    requires db.Valid() && Find(db.cats, CatIdOf, newId).None?
    modifies db`cats
    ensures db.Valid()
    ensures (db.cats, reply) == CreateCatSpec(old(db.cats), req, newId, nowUtc)
  {
    var c := NewCat(newId, req, nowUtc);
    if CodeTakenElsewhere(db.cats, -1, c.code) {
      return Failed("UniqueViolation");
    }
    UniqueAppend(db.cats, CatIdOf, c);
    UniqueAppend(db.cats, CatCodeOf, c);
    var cats := db.cats + [c];
    assert TablesValid(db.devices, cats, db.rules, db.logs, db.users, db.roles, db.userRoles);
    ghost var tables := (db.devices, cats, db.rules, db.logs, db.users, db.roles, db.userRoles);
    db.cats := cats;
    assert (db.devices, db.cats, db.rules, db.logs, db.users, db.roles, db.userRoles) == tables;
    reply := Ok(newId);
  }

  /**
   * A create adds one cat carrying every field of the request (null strings
   * as empty), created and updated now, and answers its Id, unless another
   * cat has that code, in which case nothing changes.
   */
  lemma {:induction false} CreateCatEffect(cats: seq<Cat>, req: CatRequest, newId: Id, nowUtc: int)
    ensures var (cats', reply) := CreateCatSpec(cats, req, newId, nowUtc);
      && (reply.Failed? <==> exists j :: 0 <= j < |cats| && cats[j].code == req.code.GetOr(""))
      && (reply.Failed? ==> cats' == cats)
      && (reply.Ok? ==>
            && reply.value == newId
            && cats'[..|cats|] == cats && |cats'| == |cats| + 1
            && cats'[|cats|].id == newId
            && cats'[|cats|].code == req.code.GetOr("")
            && cats'[|cats|].alias == req.alias.GetOr("")
            && cats'[|cats|].description == req.description.GetOr("")
            && cats'[|cats|].firstSeenAtUtc == req.firstSeenAtUtc
            && cats'[|cats|].lastSeenAtUtc == req.lastSeenAtUtc
            && cats'[|cats|].primaryImageId == req.primaryImageId
            && cats'[|cats|].isActive == req.isActive
            && cats'[|cats|].createdAtUtc == nowUtc && cats'[|cats|].updatedAtUtc == nowUtc)
      && (reply.Ok? || reply.Failed?)
  {
  }

  /** The Cats table and the reply after UpdateCat. */
  function UpdateCatSpec(cats: seq<Cat>, id: Id, req: CatRequest, nowUtc: int): (seq<Cat>, Reply<()>) {
    match Find(cats, CatIdOf, id)
    case None => (cats, NotFound(""))
    case Some(i) =>
      var c := Written(cats[i], req, nowUtc);
      if CodeTakenElsewhere(cats, i, c.code) then (cats, Failed("UniqueViolation"))
      else (cats[i := c], Ok(()))
  }

  method UpdateCat(db: Db, id: Id, req: CatRequest, nowUtc: int) returns (reply: Reply<()>)
    requires db.Valid()
    modifies db`cats
    ensures db.Valid()
    ensures (db.cats, reply) == UpdateCatSpec(old(db.cats), id, req, nowUtc)
  {
    var found := Find(db.cats, CatIdOf, id);
    if found.None? {
      return NotFound("");
    }
    var i := found.value;
    var c := Written(db.cats[i], req, nowUtc);
    if CodeTakenElsewhere(db.cats, i, c.code) {
      return Failed("UniqueViolation");
    }
    UniqueUpdate(db.cats, CatIdOf, i, c);
    var cats := db.cats[i := c];
    assert UniqueBy(cats, CatCodeOf);
    assert TablesValid(db.devices, cats, db.rules, db.logs, db.users, db.roles, db.userRoles);
    ghost var tables := (db.devices, cats, db.rules, db.logs, db.users, db.roles, db.userRoles);
    db.cats := cats;
    assert (db.devices, db.cats, db.rules, db.logs, db.users, db.roles, db.userRoles) == tables;
    reply := Ok(());
  }

  /**
   * An unknown Id answers NotFound, and a code held by another cat than the
   * first with the Id fails; neither changes anything. Otherwise the update
   * succeeds and only that cat changes: it takes every field of the request
   * (null strings as empty) and the update time, and keeps its Id and
   * creation time.
   */
  lemma {:induction false} UpdateCatEffect(cats: seq<Cat>, id: Id, req: CatRequest, nowUtc: int)
    ensures var (cats', reply) := UpdateCatSpec(cats, id, req, nowUtc);
      && (reply.Ok? || reply.NotFound? || reply.Failed?)
      && (reply.NotFound? <==> forall i :: 0 <= i < |cats| ==> cats[i].id != id)
      && (reply.Failed? <==>
            exists i ::
              && 0 <= i < |cats| && cats[i].id == id
              && (forall j :: 0 <= j < i ==> cats[j].id != id)
              && exists j :: 0 <= j < |cats| && j != i && cats[j].code == req.code.GetOr(""))
      && (!reply.Ok? ==> cats' == cats)
      && (reply.Ok? ==>
            && |cats'| == |cats|
            && exists i ::
                 && 0 <= i < |cats|
                 && cats[i].id == id
                 && (forall j :: 0 <= j < |cats| && j != i ==> cats'[j] == cats[j] && cats[j].code != cats'[i].code)
                 && cats'[i].id == id && cats'[i].createdAtUtc == cats[i].createdAtUtc
                 && cats'[i].code == req.code.GetOr("")
                 && cats'[i].alias == req.alias.GetOr("")
                 && cats'[i].description == req.description.GetOr("")
                 && cats'[i].firstSeenAtUtc == req.firstSeenAtUtc
                 && cats'[i].lastSeenAtUtc == req.lastSeenAtUtc
                 && cats'[i].primaryImageId == req.primaryImageId
                 && cats'[i].isActive == req.isActive
                 && cats'[i].updatedAtUtc == nowUtc)
  {
    match Find(cats, CatIdOf, id)
    case None =>
    case Some(i) =>
      var c := Written(cats[i], req, nowUtc);
      if !CodeTakenElsewhere(cats, i, c.code) {
        assert cats[i := c][i] == c;
      }
  }

  /** The Cats table and the reply after DeleteCat. */
  function DeleteCatSpec(cats: seq<Cat>, id: Id): (seq<Cat>, Reply<()>) {
    match Find(cats, CatIdOf, id)
    case None => (cats, NotFound(""))
    case Some(i) => (cats[..i] + cats[i + 1..], Ok(()))
  }

  method DeleteCat(db: Db, id: Id) returns (reply: Reply<()>)
    requires db.Valid()
    modifies db`cats
    ensures db.Valid()
    ensures (db.cats, reply) == DeleteCatSpec(old(db.cats), id)
  {
    var found := Find(db.cats, CatIdOf, id);
    if found.None? {
      return NotFound("");
    }
    var i := found.value;
    UniqueRemove(db.cats, CatIdOf, i);
    UniqueRemove(db.cats, CatCodeOf, i);
    var cats := db.cats[..i] + db.cats[i + 1..];
    assert TablesValid(db.devices, cats, db.rules, db.logs, db.users, db.roles, db.userRoles);
    ghost var tables := (db.devices, cats, db.rules, db.logs, db.users, db.roles, db.userRoles);
    db.cats := cats;
    assert (db.devices, db.cats, db.rules, db.logs, db.users, db.roles, db.userRoles) == tables;
    reply := Ok(());
  }

  /**
   * Under unique Ids, a delete removes exactly the cat with the Id and keeps
   * every other cat; an unknown Id answers NotFound and changes nothing.
   */
  lemma {:induction false} DeleteCatEffect(cats: seq<Cat>, id: Id)
    requires UniqueBy(cats, CatIdOf)
    ensures var (cats', reply) := DeleteCatSpec(cats, id);
      && (reply.Ok? || reply.NotFound?)
      && (reply.NotFound? <==> forall i :: 0 <= i < |cats| ==> cats[i].id != id)
      && (reply.NotFound? ==> cats' == cats)
      && (reply.Ok? ==> |cats'| == |cats| - 1)
      && (forall c :: c in cats' <==> c in cats && c.id != id)
  {
    match Find(cats, CatIdOf, id)
    case None =>
    case Some(i) =>
      var cats' := cats[..i] + cats[i + 1..];
      assert forall j :: 0 <= j < |cats'| ==> cats'[j] == if j < i then cats[j] else cats[j + 1];
      forall c | c in cats && c.id != id ensures c in cats' {
        var k :| 0 <= k < |cats| && cats[k] == c;
        if k < i { assert cats'[k] == c; } else { assert cats'[k - 1] == c; }
      }
  }
}
