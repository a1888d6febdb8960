# Discount ↔ product association of the catalog API

This project models the discount resource of a small e-commerce catalog API
(`app/api/discount/route.ts`). A discount applies to a set of products. That
set is not stored anywhere: every product row has one optional back-reference
`discountId`, and the products of discount D are the rows whose `discountId`
is D. So a product can be on at most one discount at a time, and attaching it
to a new discount takes it off the old one.

The four handlers are fixed sequences of store calls:

- **POST** checks the required fields, creates the discount row, attaches the
  listed products in one all-or-nothing transaction, and reads the discount back.
- **GET** reads one discount with its products (404 when it is missing), or
  lists every discount, newest first.
- **PUT** updates the row's fields, detaches every product of the discount with
  one `updateMany`, attaches the new list in a transaction, and reads back.
- **DELETE** detaches every product of the discount, then deletes the row.

Every error thrown by a store call is caught and answered with 500.

`store.dfy` (module `Store`) holds the rows, the derived product set, and the
effect of each store call as a function on the tables. It also holds the lemmas
about them: detach, merge, exclusivity, replacement, idempotence, and the
foreign key. `route.dfy` (module `DiscountRoute`) holds a `Database` class. Its
fields are the two tables, the autoincrement counter and a clock. Its methods
are the store calls and the four handlers. Each handler's `ensures` gives the
status code, the payload and the new tables in terms of the old ones. The class
invariant `Valid()` says that ids are positive and fresh, creation stamps are in
the past, and every back-reference names an existing discount.
`WalkthroughReassign` and `WalkthroughErrors` are client methods whose
assertions are proved from the handlers' contracts alone. Starting from a
catalog of three products, they step through a discount created on products 1
and 2, moved to products 2 and 3 by PUT (twice), then deleted and looked up
again, and through the error paths.

How store calls are modelled:

- `discount.update` and `discount.delete` fail on a missing row (P2025).
- `product.update` fails on a missing row. Inside `$transaction`, the first such
  failure rolls back the whole batch (`Database.AttachAll`: the updates run in
  order on a staged copy, and the copy is committed only at the end).
- `product.updateMany` never fails and touches only the rows its filter matches.
- The read-back is `findUnique` with `include: { products: true }`.
- Inputs arrive already parsed, as optional fields. JSON falsiness is written out:
  - POST rejects a percentage of 0.
  - PUT rejects an id of 0.
  - DELETE's query id is a string, so `"0"` is accepted.
- PUT always builds `new Date(startDate)` and `new Date(endDate)`. When a date is
  absent this is an Invalid Date, which Prisma rejects before writing. The model
  therefore answers such a PUT with 500 and changes nothing.
- Absent `percentage` or `description` in PUT is `undefined`, so that column is kept.

A natural reading of the route would expect stronger guarantees than the code
gives. The model follows the code:

- **PUT's reassignment of products is not atomic.** The PUT detach (lines 101-104) runs outside the
  attach transaction (lines 108-115). When the list names a product that does not
  exist, the old products stay detached and none of the list is attached.
- **Unknown product ids are not tolerated.** They make the attach transaction fail,
  and PUT or POST answers 500.
- **Missing discounts give 500, not 404.** A PUT or DELETE on a discount that does
  not exist is answered with 500 (lines 124-127, 153-156).
- **POST is two steps.** The discount row is created (line 17) before, and outside,
  the attach transaction. So it stays after a failed attach, and POST answers 500.

## Model

| member | source | states |
|---|---|---|
| `Store.UpdatedIdempotent` | app/api/discount/route.ts:90-98 | repeating `discount.update` with the same data leaves the row as the first update left it; writing back a row's stored values (or leaving percentage and description undefined) changes nothing |
| `Store.ReadBackAfterReassign` | app/api/discount/route.ts:118-121 | after PUT's detach and attach, the `findUnique` read-back of the discount is present and lists exactly the listed products |
| `Store.ReadBackAfterCreate` | app/api/discount/route.ts:39-42 | after POST's attach to a discount nothing pointed at, the `findUnique` read-back is present and lists exactly the listed products |
| `Store.DetachReleases` | app/api/discount/route.ts:101-104 | after the `updateMany` detach the discount has no products; every other discount keeps its product set; rows not pointing at it are untouched; only `discountId` columns change |
| `Store.DetachUnused` | app/api/discount/route.ts:142-145 | the detach is a no-op when nothing points at the discount |
| `Store.LinkMoves` | app/api/discount/route.ts:28-35 | a successful attach batch makes the discount's set the old set plus the listed ids; every other discount loses exactly the listed ids; unlisted rows are untouched; only `discountId` changes |
| `Store.LinkExclusive` | app/api/discount/route.ts:109-113 | exclusivity: a product attached to D is in D's set and in no other discount's set |
| `Store.ReassignReplaces` | app/api/discount/route.ts:101-115 | replacement, not merge: after detach then attach, the discount's set is exactly the listed ids; every former product not listed has no discount |
| `Store.ReassignIdempotent` | app/api/discount/route.ts:101-115 | doing the detach-then-attach a second time with the same list changes nothing |
| `Store.LinkedSnoc` | app/api/discount/route.ts:109-114 | one more successful `product.update` in the batch extends the attached list by that id |
| `Store.LinkReferenced` | app/api/discount/route.ts:108-115 | attaching to, or detaching from, an existing discount keeps every back-reference pointing at an existing discount |
| `Store.DetachThenDeleteReferenced` | app/api/discount/route.ts:141-150 | detach before delete: deleting the row after the detach leaves no dangling back-reference and none equal to the deleted id |
| `Store.ListedStep` | app/api/discount/route.ts:69-72 | taking the newest remaining discount next keeps the listing duplicate-free, complete for what was taken, and ordered by creation time, descending |
| `DiscountRoute.PutIdempotent` | app/api/discount/route.ts:90-123 | a second successful PUT with the same body succeeds again and leaves the row and every product's `discountId` as the first one left them |
| `DiscountRoute.Database.CreateDiscount` | app/api/discount/route.ts:17-24 | `discount.create` inserts the row under a fresh positive id, stamped later than every existing discount, and changes no product |
| `DiscountRoute.Database.UpdateDiscount` | app/api/discount/route.ts:90-98 | `discount.update` fails exactly when the row is missing or a date is absent; on success only that row changes |
| `DiscountRoute.Database.DetachAll` | app/api/discount/route.ts:101-104 | `updateMany` replaces the products table by its detached form and nothing else |
| `DiscountRoute.Database.AttachAll` | app/api/discount/route.ts:28-35 | `$transaction` of `product.update`s succeeds exactly when every listed id exists; it then applies every update, otherwise none |
| `DiscountRoute.Database.DeleteDiscount` | app/api/discount/route.ts:148-150 | `discount.delete` fails exactly when the row is missing; it removes only that row |
| `DiscountRoute.Database.FindMany` | app/api/discount/route.ts:69-72 | `findMany` returns every discount once, each with exactly its products, ordered by creation time, newest first |
| `DiscountRoute.Database.Newest` | app/api/discount/route.ts:71 | returns a member of the set whose creation stamp is not older than any other |
| `DiscountRoute.Database.Post` | app/api/discount/route.ts:7-49 | missing or falsy percentage, startDate or endDate gives 400 and no change; otherwise the row is created; if every listed id exists: 201, the read-back set is exactly the list, other products are untouched; if not: 500, no product changes, and the new row stays |
| `DiscountRoute.Database.Get` | app/api/discount/route.ts:51-79 | an existing id gives 200 with that discount and exactly its products; a missing id gives 404; no id gives 200 with every discount, newest first; the store is not modified |
| `DiscountRoute.Database.Put` | app/api/discount/route.ts:81-128 | no id or id 0 gives 400 and no change; a missing row or absent date gives 500 and no change; otherwise the row is updated; if every listed id exists: 200, the set is exactly the list (replacement); if not: 500, old products detached, none of the list attached |
| `DiscountRoute.Database.Delete` | app/api/discount/route.ts:130-157 | no id gives 400; an existing id gives 200, the row is gone and no product points at it, every other row and column is kept; a missing id gives 500 and no change |

## Left out

- The category, product and user routes are not part of this model. Each is a single store call plus a mapping of error codes to status codes.
- `app/api/discount/[id]/route.ts` is not part of this model. It is a second GET by path parameter with the same `findUnique` read-back as `Database.Get`.
- HTTP plumbing is not modelled: `NextRequest`/`NextResponse`, `req.json()`, `URL`/`searchParams`, and the `error: String(error)` detail in 500 bodies. The 500 payload is the fixed message only.
- Connection lifecycle and `console.error` logging are not modelled. Neither are store failures other than the missing row and the rejected Invalid Date, such as a lost connection.
- DiscountRoute.Database.Get: a query id that is not numeric is not modelled. `Number(id)` then gives NaN, and the store call is rejected. These ids arrive as integers or as absent. The same holds for DiscountRoute.Database.Delete.
- DiscountRoute.Database.Put: JSON `null` is not told apart from an absent field. A null description would clear the column, and a null percentage would be rejected. Only absent fields are modelled.
- DiscountRoute.Database.Post: date parsing is not modelled. Dates are opaque integers, so a truthy date that parses to an Invalid Date is out of scope. `None` stands for every falsy date.
- Percentages are `real`, so NaN is out of scope. Non-integer ids and `productIds` values that are not arrays of integers are out of scope: they are parsed into `Option<seq<int>>` before a handler runs.
- Concurrency between requests and isolation levels are not modelled. Requests run one at a time, and `createdAt` comes from a counter, so creation stamps are distinct.
- Product sets are maps keyed by id. The order of the `products` array in a JSON response is not modelled.

