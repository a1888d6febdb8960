/** The two tables the discount route works on, and the effect of each
    Prisma call it makes, as functions on those tables.

    There is no join table: the products of a discount are derived from the
    single `discountId` back-reference that every product row carries. */
module Store {

  datatype Option<+T> = None | Some(value: T)

  /** A row of the Discount table. Dates and the creation stamp are opaque
      timestamps. */
  datatype Discount = Discount(
    percentage: real,
    description: Option<string>,
    startDate: int,
    endDate: int,
    createdAt: int)

  /** A row of the Product table. `discountId` is the only column the
      discount route ever writes. */
  datatype Product = Product(
    name: string,
    price: real,
    description: Option<string>,
    imageUrl: Option<string>,
    discountId: Option<int>)

  type Discounts = map<int, Discount>
  type Products = map<int, Product>

  /** A discount as read back with `include: { products: true }`. */
  datatype DiscountView = DiscountView(id: int, discount: Discount, products: Products)

  /** The products whose back-reference points at discount `d`. */
  function ProductsOf(products: Products, d: int): Products
  {
    map p | p in products && products[p].discountId == Some(d) :: products[p]
  }

  /** `product.updateMany({ where: { discountId: d }, data: { discountId: null } })`:
      clears the back-reference of every row that points at `d`, touches no
      other row, and never fails. */
  function Detached(products: Products, d: int): Products
  {
    map p | p in products ::
      if products[p].discountId == Some(d) then products[p].(discountId := None) else products[p]
  }

  /** The table after `product.update({ where: { id: i }, data: { discountId: d } })`
      has been applied for every `i` in `ids`, when all of them succeed. */
  function Linked(products: Products, ids: seq<int>, d: int): Products
  {
    map p | p in products ::
      if p in ids then products[p].(discountId := Some(d)) else products[p]
  }

  /** Every `product.update` of the batch finds its row (none raises P2025). */
  predicate AllExist(products: Products, ids: seq<int>)
  {
    forall k :: 0 <= k < |ids| ==> ids[k] in products
  }

  /** PUT's detach followed by its attach. */
  function Reassigned(products: Products, ids: seq<int>, d: int): Products
  {
    Linked(Detached(products, d), ids, d)
  }

  /** `discount.update` with Prisma's treatment of `undefined`: an absent
      percentage or description keeps the stored value; the dates are always
      written. */
  function Updated(row: Discount, percentage: Option<real>, description: Option<string>,
                   startDate: int, endDate: int): Discount
  {
    Discount(
      if percentage.Some? then percentage.value else row.percentage,
      if description.Some? then description else row.description,
      startDate, endDate, row.createdAt)
  }

  /** `discount.findUnique({ where: { id }, include: { products: true } })`. */
  function FindUnique(discounts: Discounts, products: Products, id: int): Option<DiscountView>
  {
    if id in discounts then Some(DiscountView(id, discounts[id], ProductsOf(products, id)))
    else None
  }

  /** The foreign key: every back-reference names an existing discount. */
  predicate Referenced(discounts: Discounts, products: Products)
  {
    forall p :: p in products && products[p].discountId.Some? ==> products[p].discountId.value in discounts
  }

  /** `q` holds the same product rows as `p`, save for their `discountId`. */
  predicate SameCatalog(p: Products, q: Products)
  {
    p.Keys == q.Keys && forall k :: k in p ==> p[k].(discountId := None) == q[k].(discountId := None)
  }

  /** What `discount.findMany({ include: { products: true }, orderBy: { createdAt: 'desc' } })`
      returns: every discount once, each with its products, newest first. */
  predicate NewestFirst(discounts: Discounts, products: Products, views: seq<DiscountView>)
  {
    && (forall i :: 0 <= i < |views| ==> FindUnique(discounts, products, views[i].id) == Some(views[i]))
    && (forall k :: k in discounts ==> exists i :: 0 <= i < |views| && views[i].id == k)
    && (forall i, j :: 0 <= i < j < |views| ==> views[i].id != views[j].id)
    && (forall i, j :: 0 <= i < j < |views| ==> views[i].discount.createdAt >= views[j].discount.createdAt)
  }

  /** Repeating an update with the same data changes nothing, and writing
      back the stored values of a row leaves the row as it was. */
  lemma UpdatedIdempotent(row: Discount, percentage: Option<real>, description: Option<string>,
                          startDate: int, endDate: int)
    ensures var once := Updated(row, percentage, description, startDate, endDate);
            Updated(once, percentage, description, startDate, endDate) == once
    ensures Updated(row, Some(row.percentage), row.description, row.startDate, row.endDate) == row
    ensures Updated(row, None, None, row.startDate, row.endDate) == row
  {
  }

  /** The read-back after PUT's detach and attach lists exactly the listed
      products. */
  lemma ReadBackAfterReassign(discounts: Discounts, products: Products, ids: seq<int>, d: int)
    requires d in discounts && AllExist(products, ids)
    ensures FindUnique(discounts, Reassigned(products, ids, d), d).Some?
    ensures FindUnique(discounts, Reassigned(products, ids, d), d).value.products.Keys == set i | i in ids
  {
  }

  /** The read-back after POST's attach to a discount that nothing pointed at
      lists exactly the listed products. */
  lemma ReadBackAfterCreate(discounts: Discounts, products: Products, ids: seq<int>, d: int)
    requires d in discounts && AllExist(products, ids) && ProductsOf(products, d) == map[]
    ensures FindUnique(discounts, Linked(products, ids, d), d).Some?
    ensures FindUnique(discounts, Linked(products, ids, d), d).value.products.Keys == set i | i in ids
  {
    LinkMoves(products, ids, d);
    assert ProductsOf(products, d).Keys == {};
  }

  /** The detach releases every product of `d`, and only those: the rows,
      their other columns and every other discount's products are kept. */
  lemma DetachReleases(products: Products, d: int)
    ensures SameCatalog(products, Detached(products, d))
    ensures ProductsOf(Detached(products, d), d) == map[]
    ensures forall e :: e != d ==> ProductsOf(Detached(products, d), e) == ProductsOf(products, e)
    ensures forall p :: p in products && products[p].discountId != Some(d) ==>
                        Detached(products, d)[p] == products[p]
  {
  }

  /** With nothing pointing at `d`, the detach changes nothing. */
  lemma DetachUnused(products: Products, d: int)
    requires ProductsOf(products, d) == map[]
    ensures Detached(products, d) == products
  {
  }

  /** A batch of attaches to `d` adds exactly the listed products to `d`'s set
      (a merge with what was there), moves them away from every other
      discount, and changes nothing but back-references. */
  lemma LinkMoves(products: Products, ids: seq<int>, d: int)
    requires AllExist(products, ids)
    ensures SameCatalog(products, Linked(products, ids, d))
    ensures ProductsOf(Linked(products, ids, d), d).Keys
            == ProductsOf(products, d).Keys + (set i | i in ids)
    ensures forall e :: e != d ==>
              ProductsOf(Linked(products, ids, d), e) == ProductsOf(products, e) - (set i | i in ids)
    ensures forall p :: p in products && p !in ids ==> Linked(products, ids, d)[p] == products[p]
  {
  }

  /** Exclusivity: a product attached to `d` belongs to no other discount. */
  lemma LinkExclusive(products: Products, ids: seq<int>, d: int, e: int, p: int)
    requires AllExist(products, ids)
    requires p in ids && e != d
    ensures p in ProductsOf(Linked(products, ids, d), d)
    ensures p !in ProductsOf(Linked(products, ids, d), e)
  {
  }

  /** Replacement, not merge: after PUT's detach and attach the product set
      of `d` is exactly the list, and every product of `d` left out of the
      list has no discount. */
  lemma ReassignReplaces(products: Products, ids: seq<int>, d: int)
    requires AllExist(products, ids)
    ensures ProductsOf(Reassigned(products, ids, d), d).Keys == set i | i in ids
    ensures forall p :: p in products && products[p].discountId == Some(d) && p !in ids ==>
                        Reassigned(products, ids, d)[p].discountId == None
    ensures SameCatalog(products, Reassigned(products, ids, d))
  {
  }

  /** PUT's reassignment applied a second time with the same list changes
      nothing. */
  lemma ReassignIdempotent(products: Products, ids: seq<int>, d: int)
    ensures Reassigned(Reassigned(products, ids, d), ids, d) == Reassigned(products, ids, d)
  {
  }

  /** One more successful `product.update` extends the batch by one id. */
  lemma LinkedSnoc(products: Products, ids: seq<int>, x: int, d: int)
    requires x in products
    ensures Linked(products, ids + [x], d)
            == Linked(products, ids, d)[x := products[x].(discountId := Some(d))]
  {
  }

  /** An attach keeps the foreign key when the target discount exists. */
  lemma LinkReferenced(discounts: Discounts, products: Products, ids: seq<int>, d: int)
    requires Referenced(discounts, products) && d in discounts
    ensures Referenced(discounts, Linked(products, ids, d))
    ensures Referenced(discounts, Detached(products, d))
    ensures Referenced(discounts, Reassigned(products, ids, d))
  {
  }

  /** Detach-before-delete: removing a discount after its products were
      detached leaves no dangling back-reference, and none pointing at it. */
  lemma DetachThenDeleteReferenced(discounts: Discounts, products: Products, d: int)
    requires Referenced(discounts, products)
    ensures Referenced(discounts - {d}, Detached(products, d))
    ensures forall p :: p in Detached(products, d) ==> Detached(products, d)[p].discountId != Some(d)
  {
  }

  /** The listing after some steps of `findMany`: the discounts not in
      `rest` are listed once each with their products, newest first, and
      none is older than a discount still to come. */
  predicate ListedSoFar(discounts: Discounts, products: Products, views: seq<DiscountView>, rest: set<int>)
  {
    && rest <= discounts.Keys
    && (forall i :: 0 <= i < |views| ==>
          views[i].id !in rest && FindUnique(discounts, products, views[i].id) == Some(views[i]))
    && (forall k :: k in discounts && k !in rest ==> exists i :: 0 <= i < |views| && views[i].id == k)
    && (forall i, j :: 0 <= i < j < |views| ==> views[i].id != views[j].id)
    && (forall i, j :: 0 <= i < j < |views| ==> views[i].discount.createdAt >= views[j].discount.createdAt)
    && (forall i, k :: 0 <= i < |views| && k in rest ==> views[i].discount.createdAt >= discounts[k].createdAt)
  }

  /** Listing the newest remaining discount next keeps the listing ordered
      and complete for what has been taken out of `rest`. */
  lemma ListedStep(discounts: Discounts, products: Products, views: seq<DiscountView>, rest: set<int>, m: int)
    requires rest <= discounts.Keys && m in rest
    requires forall k :: k in rest ==> discounts[k].createdAt <= discounts[m].createdAt
    requires ListedSoFar(discounts, products, views, rest)
    ensures ListedSoFar(discounts, products, views + [DiscountView(m, discounts[m], ProductsOf(products, m))], rest - {m})
  {
    var v := DiscountView(m, discounts[m], ProductsOf(products, m));
    var next := views + [v];
    var left := rest - {m};
    assert forall i :: 0 <= i < |views| ==> next[i] == views[i];
    assert next[|views|] == v;
    forall i | 0 <= i < |next|
      ensures next[i].id !in left && FindUnique(discounts, products, next[i].id) == Some(next[i])
    {
    }
    forall k | k in discounts && k !in left
      ensures exists i :: 0 <= i < |next| && next[i].id == k
    {
      if k == m {
        assert next[|views|].id == k;
      } else {
        var i :| 0 <= i < |views| && views[i].id == k;
        assert next[i].id == k;
      }
    }
    forall i, j | 0 <= i < j < |next|
      ensures next[i].id != next[j].id && next[i].discount.createdAt >= next[j].discount.createdAt
    {
      if j == |views| {
        assert next[i] == views[i] && m in rest;
      }
    }
    forall i, k | 0 <= i < |next| && k in left
      ensures next[i].discount.createdAt >= discounts[k].createdAt
    {
    }
  }
}
