/** The four handlers of the discount route, each a fixed sequence of Prisma
    calls on one store, one request at a time. Request bodies and query
    strings arrive already parsed; every error a Prisma call throws is caught
    by the handler and answered with 500. */
module DiscountRoute {
  import opened Store

  datatype Payload = One(view: DiscountView) | Many(views: seq<DiscountView>) | Message(text: string)

  datatype Response = Response(status: int, payload: Payload)

  const InternalError := Response(500, Message("Internal Server Error"))

  /** A POST body. `None` stands for an absent field; for the dates it
      stands for every falsy JSON value. */
  datatype PostBody = PostBody(
    percentage: Option<real>,
    description: Option<string>,
    startDate: Option<int>,
    endDate: Option<int>,
    productIds: Option<seq<int>>)

  /** A PUT body; `None` stands for an absent (undefined) field. */
  datatype PutBody = PutBody(
    id: Option<int>,
    percentage: Option<real>,
    description: Option<string>,
    startDate: Option<int>,
    endDate: Option<int>,
    productIds: Option<seq<int>>)

  /** POST's guard `!percentage || !startDate || !endDate`, negated: a
      percentage of 0 is falsy too. */
  predicate HasRequiredFields(body: PostBody)
  {
    body.percentage.Some? && body.percentage.value != 0.0 && body.startDate.Some? && body.endDate.Some?
  }

  /** PUT's guard `!id`, negated: an id of 0 is falsy. */
  predicate HasId(body: PutBody)
  {
    body.id.Some? && body.id.value != 0
  }

  /** The ids to attach: an absent list attaches nothing. */
  function ListedIds(productIds: Option<seq<int>>): seq<int>
  {
    if productIds.Some? then productIds.value else []
  }

  /** A second successful PUT with the same body leaves the row and the
      association state as the first one left them, and succeeds again. */
  lemma PutIdempotent(row: Discount, products: Products, body: PutBody)
    requires HasId(body) && body.startDate.Some? && body.endDate.Some?
    requires AllExist(products, ListedIds(body.productIds))
    ensures var once := Updated(row, body.percentage, body.description, body.startDate.value, body.endDate.value);
            Updated(once, body.percentage, body.description, body.startDate.value, body.endDate.value) == once
    ensures var ids := ListedIds(body.productIds);
            var once := Reassigned(products, ids, body.id.value);
            && AllExist(once, ids)
            && Reassigned(once, ids, body.id.value) == once
  {
  }

  /** Some element of a non-empty set. */
  method Pick(s: set<int>) returns (x: int)
    requires s != {}
    ensures x in s
  {
    // Spells out that a non-empty set has a member; without this step the
    // such-that below is not proved when contradictory-assumption warnings are on.
    if forall y :: y !in s {
      assert false;
    }
    x :| x in s;
  }

  /** The store: the Discount and Product tables, the next autoincrement id
      and a monotone clock standing for `now()` at insertion. */
  class Database {
    var discounts: Discounts
    var products: Products
    var nextId: int
    var clock: int

    /** Ids are positive and below the autoincrement counter, creation stamps
        are in the past, and the foreign key holds. */
    ghost predicate Valid()
      reads this
    {
      && 1 <= nextId
      && (forall d :: d in discounts ==> 1 <= d < nextId && discounts[d].createdAt < clock)
      && Referenced(discounts, products)
    }

    /** An empty Discount table beside a catalog whose products have no discount. */
    constructor (catalog: Products)
      requires forall p :: p in catalog ==> catalog[p].discountId == None
      ensures Valid()
      ensures discounts == map[] && products == catalog && nextId == 1
    {
      discounts := map[];
      products := catalog;
      nextId := 1;
      clock := 0;
    }

    /** `prisma.discount.create`: a fresh id, stamped with the current time. */
    method CreateDiscount(percentage: real, description: Option<string>, startDate: int, endDate: int)
      returns (id: int)
      requires Valid()
      modifies this
      ensures Valid()
      ensures id == old(nextId) && id !in old(discounts) && id != 0
      ensures discounts == old(discounts)[id := Discount(percentage, description, startDate, endDate, old(clock))]
      ensures forall d :: d in old(discounts) ==> discounts[d].createdAt < discounts[id].createdAt
      ensures products == old(products)
      ensures nextId == old(nextId) + 1 && clock == old(clock) + 1
    {
      id := nextId;
      discounts := discounts[id := Discount(percentage, description, startDate, endDate, clock)];
      nextId := nextId + 1;
      clock := clock + 1;
    }

    /** `prisma.discount.update`: `false` stands for the thrown error, P2025
        for a missing row, or the rejection of an Invalid Date built from an
        absent date. */
    method UpdateDiscount(id: int, percentage: Option<real>, description: Option<string>,
                          startDate: Option<int>, endDate: Option<int>)
      returns (ok: bool)
      requires Valid()
      modifies this
      ensures Valid()
      ensures ok <==> id in old(discounts) && startDate.Some? && endDate.Some?
      ensures ok ==> discounts == old(discounts)[id := Updated(old(discounts)[id], percentage, description,
                                                               startDate.value, endDate.value)]
      ensures !ok ==> discounts == old(discounts)
      ensures products == old(products) && nextId == old(nextId) && clock == old(clock)
    {
      if id !in discounts || startDate.None? || endDate.None? {
        return false;
      }
      discounts := discounts[id := Updated(discounts[id], percentage, description, startDate.value, endDate.value)];
      ok := true;
    }

    /** `prisma.product.updateMany` clearing the back-reference to `d`; it
        never fails. */
    method DetachAll(d: int)
      requires Valid()
      modifies this
      ensures Valid()
      ensures products == Detached(old(products), d)
      ensures discounts == old(discounts) && nextId == old(nextId) && clock == old(clock)
    {
      products := Detached(products, d);
    }

    /** `prisma.$transaction` over one `product.update` per listed id: the
        updates run in order on a staged copy; the first missing row (P2025)
        rolls the whole batch back, otherwise the copy is committed. */
    method AttachAll(ids: seq<int>, d: int) returns (ok: bool)
      requires Valid() && d in discounts
      modifies this
      ensures Valid()
      ensures ok <==> AllExist(old(products), ids)
      ensures products == if ok then Linked(old(products), ids, d) else old(products)
      ensures discounts == old(discounts) && nextId == old(nextId) && clock == old(clock)
    {
      var staged := products;
      var i := 0;
      while i < |ids|
        invariant 0 <= i <= |ids|
        invariant products == old(products) && discounts == old(discounts)
        invariant nextId == old(nextId) && clock == old(clock)
        invariant AllExist(products, ids[..i])
        invariant staged == Linked(products, ids[..i], d)
      {
        if ids[i] !in staged {
          return false;
        }
        LinkedSnoc(products, ids[..i], ids[i], d);
        assert ids[..i + 1] == ids[..i] + [ids[i]];
        staged := staged[ids[i] := products[ids[i]].(discountId := Some(d))];
        i := i + 1;
      }
      assert ids[..i] == ids;
      LinkReferenced(discounts, products, ids, d);
      products := staged;
      ok := true;
    }

    /** `prisma.discount.delete`: `false` stands for P2025 on a missing row. */
    method DeleteDiscount(id: int) returns (ok: bool)
      requires Valid()
      requires ProductsOf(products, id) == map[]
      modifies this
      ensures Valid()
      ensures ok <==> id in old(discounts)
      ensures discounts == old(discounts) - {id}
      ensures products == old(products) && nextId == old(nextId) && clock == old(clock)
    {
      ok := id in discounts;
      if ok {
        assert Referenced(discounts - {id}, products) by {
          forall p | p in products && products[p].discountId.Some?
            ensures products[p].discountId.value in discounts - {id}
          {
            assert p !in ProductsOf(products, id);
          }
        }
        discounts := discounts - {id};
      }
    }

    /** `discount.findMany` ordered by `createdAt` descending: picks the
        newest remaining discount until none is left. */
    method FindMany() returns (views: seq<DiscountView>)
      ensures NewestFirst(discounts, products, views)
    {
      var rest := discounts.Keys;
      views := [];
      while rest != {}
        invariant rest <= discounts.Keys
        invariant ListedSoFar(discounts, products, views, rest)
        decreases rest
      {
        var m := Newest(rest);
        ListedStep(discounts, products, views, rest, m);
        views := views + [DiscountView(m, discounts[m], ProductsOf(products, m))];
        rest := rest - {m};
      }
    }

    /** A discount of `ks` with the latest creation stamp. */
    method Newest(ks: set<int>) returns (m: int)
      requires ks != {} && ks <= discounts.Keys
      ensures m in ks
      ensures forall k :: k in ks ==> discounts[k].createdAt <= discounts[m].createdAt
    {
      m := Pick(ks);
      var rest := ks - {m};
      while rest != {}
        invariant rest <= ks && m in ks
        invariant forall k :: k in ks && k !in rest ==> discounts[k].createdAt <= discounts[m].createdAt
        decreases rest
      {
        var k := Pick(rest);
        if discounts[k].createdAt > discounts[m].createdAt {
          m := k;
        }
        rest := rest - {k};
      }
    }

    /** POST: validate, create the row, attach the listed products in one
        transaction, read back. The row is created outside the transaction,
        so it survives a rolled-back attach. */
    method Post(body: PostBody) returns (res: Response)
      requires Valid()
      modifies this
      ensures Valid()
      ensures !HasRequiredFields(body) ==>
                && res == Response(400, Message("Missing required fields"))
                && discounts == old(discounts) && products == old(products)
                && nextId == old(nextId) && clock == old(clock)
      ensures HasRequiredFields(body) ==>
                var id := old(nextId);
                var ids := ListedIds(body.productIds);
                && id !in old(discounts)
                && nextId == old(nextId) + 1 && clock == old(clock) + 1
                && discounts == old(discounts)[id := Discount(body.percentage.value, body.description,
                                                              body.startDate.value, body.endDate.value, old(clock))]
                && (forall d :: d in old(discounts) ==> discounts[d].createdAt < discounts[id].createdAt)
                && (AllExist(old(products), ids) ==>
                      && products == Linked(old(products), ids, id)
                      && ProductsOf(products, id).Keys == (set i | i in ids)
                      && (forall p :: p in old(products) && p !in ids ==> products[p] == old(products)[p])
                      && res == Response(201, One(DiscountView(id, discounts[id], ProductsOf(products, id)))))
                && (!AllExist(old(products), ids) ==>
                      products == old(products) && res == InternalError)
    {
      if !HasRequiredFields(body) {
        return Response(400, Message("Missing required fields"));
      }
      var id := CreateDiscount(body.percentage.value, body.description, body.startDate.value, body.endDate.value);
      ghost var created := products;
      assert ProductsOf(created, id) == map[] by {
        forall p | p in created
          ensures created[p].discountId != Some(id)
        {
        }
      }
      var ids := ListedIds(body.productIds);
      if |ids| > 0 {
        var ok := AttachAll(ids, id);
        if !ok {
          return InternalError;
        }
      } else {
        assert Linked(created, ids, id) == created;
      }
      LinkMoves(created, ids, id);
      var found := FindUnique(discounts, products, id);
      res := Response(201, One(found.value));
    }

    /** GET: one discount with its products, 404 when it is missing, or every
        discount newest first. Reads only. */
    method Get(id: Option<int>) returns (res: Response)
      ensures id.Some? && id.value in discounts ==>
                res == Response(200, One(DiscountView(id.value, discounts[id.value], ProductsOf(products, id.value))))
      ensures id.Some? && id.value !in discounts ==> res == Response(404, Message("Discount not found"))
      ensures id.None? ==> res.status == 200 && res.payload.Many? && NewestFirst(discounts, products, res.payload.views)
    {
      if id.Some? {
        var found := FindUnique(discounts, products, id.value);
        if found.None? {
          return Response(404, Message("Discount not found"));
        }
        return Response(200, One(found.value));
      }
      var views := FindMany();
      res := Response(200, Many(views));
    }

    /** PUT: update the row's fields, detach every product of the discount,
        attach the new list in one transaction, read back. The detach is not
        part of the transaction: a rolled-back attach leaves the old products
        detached. */
    method Put(body: PutBody) returns (res: Response)
      requires Valid()
      modifies this
      ensures Valid()
      ensures nextId == old(nextId) && clock == old(clock)
      ensures !HasId(body) ==>
                && res == Response(400, Message("Missing discount id"))
                && discounts == old(discounts) && products == old(products)
      ensures HasId(body) && !(body.id.value in old(discounts) && body.startDate.Some? && body.endDate.Some?) ==>
                && res == InternalError
                && discounts == old(discounts) && products == old(products)
      ensures HasId(body) && body.id.value in old(discounts) && body.startDate.Some? && body.endDate.Some? ==>
                var id := body.id.value;
                var ids := ListedIds(body.productIds);
                && discounts == old(discounts)[id := Updated(old(discounts)[id], body.percentage, body.description,
                                                             body.startDate.value, body.endDate.value)]
                && (AllExist(old(products), ids) ==>
                      && products == Reassigned(old(products), ids, id)
                      && ProductsOf(products, id).Keys == (set i | i in ids)
                      && res == Response(200, One(DiscountView(id, discounts[id], ProductsOf(products, id)))))
                && (!AllExist(old(products), ids) ==>
                      && products == Detached(old(products), id)
                      && ProductsOf(products, id) == map[]
                      && res == InternalError)
    {
      if !HasId(body) {
        return Response(400, Message("Missing discount id"));
      }
      var id := body.id.value;
      var updated := UpdateDiscount(id, body.percentage, body.description, body.startDate, body.endDate);
      if !updated {
        return InternalError;
      }
      DetachAll(id);
      ghost var detached := products;
      DetachReleases(old(products), id);
      var ids := ListedIds(body.productIds);
      if |ids| > 0 {
        var ok := AttachAll(ids, id);
        if !ok {
          return InternalError;
        }
      } else {
        assert Linked(detached, ids, id) == detached;
      }
      ReassignReplaces(old(products), ids, id);
      var found := FindUnique(discounts, products, id);
      res := Response(200, One(found.value));
    }

    /** DELETE: detach every product of the discount, then delete its row.
        Only back-references equal to `id` change. */
    method Delete(id: Option<int>) returns (res: Response)
      requires Valid()
      modifies this
      ensures Valid()
      ensures nextId == old(nextId) && clock == old(clock)
      ensures id.None? ==>
                && res == Response(400, Message("Missing discount id"))
                && discounts == old(discounts) && products == old(products)
      ensures id.Some? && id.value in old(discounts) ==>
                && res == Response(200, Message("Discount deleted successfully"))
                && discounts == old(discounts) - {id.value}
                && products == Detached(old(products), id.value)
                && (forall p :: p in products ==> products[p].discountId != id)
                && SameCatalog(old(products), products)
      ensures id.Some? && id.value !in old(discounts) ==>
                && res == InternalError
                && discounts == old(discounts) && products == old(products)
    {
      if id.None? {
        return Response(400, Message("Missing discount id"));
      }
      var d := id.value;
      DetachThenDeleteReferenced(discounts, products, d);
      DetachReleases(products, d);
      if d !in discounts {
        assert ProductsOf(products, d) == map[] by {
          forall p | p in products
            ensures products[p].discountId != Some(d)
          {
          }
        }
        DetachUnused(products, d);
      }
      DetachAll(d);
      var ok := DeleteDiscount(d);
      if !ok {
        return InternalError;
      }
      res := Response(200, Message("Discount deleted successfully"));
    }
  }

  /** The catalog the walkthroughs below start from. */
  function Catalog(): (c: Products)
    ensures forall p :: p in c ==> c[p].discountId == None
    ensures c.Keys == {1, 2, 3}
  {
    map[
      1 := Product("Lamp", 20.0, None, None, None),
      2 := Product("Desk", 150.0, None, None, None),
      3 := Product("Chair", 80.0, None, None, None)]
  }

  /** A client of the handlers: a discount created on products 1 and 2, then
      reassigned to 2 and 3, twice. */
  method WalkthroughReassign()
  {
    var db := new Database(Catalog());
    assert AllExist(Catalog(), [1, 2]);
    var created := db.Post(PostBody(Some(10.0), None, Some(100), Some(200), Some([1, 2])));
    assert created.status == 201 && created.payload.view.id == 1;
    assert created.payload.view.products.Keys == {1, 2};

    var body := PutBody(Some(1), Some(15.0), None, Some(100), Some(300), Some([2, 3]));
    ghost var before := db.products;
    assert AllExist(before, [2, 3]);
    var updated := db.Put(body);
    assert updated.status == 200 && updated.payload.view.products.Keys == {2, 3};
    ReassignReplaces(before, [2, 3], 1);
    assert db.products[1].discountId == None;

    ghost var state := db.products;
    PutIdempotent(db.discounts[1], before, body);
    var again := db.Put(body);
    assert again.status == 200 && db.products == state;
  }

  /** A client of the handlers on the error paths: a zero percentage, an
      unknown product, a lookup and a second delete after the delete. */
  method WalkthroughErrors()
  {
    var db := new Database(Catalog());
    var rejected := db.Post(PostBody(Some(0.0), None, Some(100), Some(200), None));
    assert rejected.status == 400;

    var created := db.Post(PostBody(Some(10.0), None, Some(100), Some(200), None));
    assert created.status == 201;
    assert 9 !in db.products && [3, 9][1] == 9;
    var unknown := db.Put(PutBody(Some(1), None, None, Some(100), Some(300), Some([3, 9])));
    assert unknown.status == 500 && ProductsOf(db.products, 1) == map[];

    var deleted := db.Delete(Some(1));
    assert deleted.status == 200;
    var missing := db.Get(Some(1));
    assert missing.status == 404;
    var gone := db.Delete(Some(1));
    assert gone.status == 500;
  }
}
