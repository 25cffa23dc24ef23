/** The decision logic of the five `/api/products` handlers: the admin gate,
    the validation gate, the mapping of the store's answer to a status code,
    and the store effect. Requests and responses are abstract; HTTP itself is
    not modelled. */
module Routes {
  import opened Wrappers
  import opened OrderedMaps
  import opened Schema
  import opened StoreModel
  import opened Storage

  /** `parseInt(req.params.id)`: an integer, or NaN, which no stored key equals. */
  datatype RouteId = Parsed(n: int) | NotANumber

  datatype Body =
    | ProductJson(product: Product)
    | ProductListJson(products: seq<Product>)
    | Text(text: string)
    | ValidationErrorJson
    | NoContent

  /** A handler either answers with a status and body, or lets the error the
      store threw escape unhandled. */
  datatype Reply = Reply(status: int, body: Body) | Unhandled(message: string)

  const Forbidden: Reply := Reply(403, Text("Admin access required"))

  /** The schema check of a POST body: the parsed fields, or None on failure. */
  type Validator = ProductPatch -> Option<InsertProduct>

  /** `req.user?.isAdmin` is truthy: someone is logged in and has the flag. */
  predicate IsAdmin(requester: Option<User>) {
    requester.Some? && requester.value.isAdmin
  }

  /** The key a route id looks up; NaN finds nothing. */
  function Lookup(s: StoreState, id: RouteId): Option<Product> {
    if id.Parsed? then Get(s.products, id.n) else None
  }

  /** POST /api/products */
  function HandleCreate(s: StoreState, requester: Option<User>, body: ProductPatch, validate: Validator): (Reply, StoreState) {
    if !IsAdmin(requester) then (Forbidden, s)
    else match validate(body)
      case None => (Reply(400, ValidationErrorJson), s)
      case Some(p) =>
        var made := CreateProduct(s, p);
        (Reply(201, ProductJson(made.1)), made.0)
  }

  /** PATCH /api/products/:id: the raw body goes to `updateProduct` unchecked. */
  function HandleUpdate(s: StoreState, requester: Option<User>, id: RouteId, body: ProductPatch): (Reply, StoreState) {
    if !IsAdmin(requester) then (Forbidden, s)
    else if id.NotANumber? then (Unhandled(NotFound), s)
    else match UpdateProduct(s, id.n, body)
      case Err(message) => (Unhandled(message), s)
      case Ok(updated) => (Reply(200, ProductJson(updated.1)), updated.0)
  }

  /** DELETE /api/products/:id */
  function HandleDelete(s: StoreState, requester: Option<User>, id: RouteId): (Reply, StoreState) {
    if !IsAdmin(requester) then (Forbidden, s)
    else (Reply(204, NoContent), if id.Parsed? then DeleteProduct(s, id.n) else s)
  }

  // ---------------------------------------------------------------------
  // Handlers over a store object

  /** GET /api/products: exactly the store's listing, with status 200. */
  method ServeList(store: MemStorage) returns (reply: Reply)
    requires store.Valid()
    ensures reply.Reply? && reply.status == 200
    ensures reply.body == ProductListJson(Values(store.products))
  {
    var products := store.GetProducts();
    reply := Reply(200, ProductListJson(products));
  }

  /** GET /api/products/:id: 404 exactly when the store has no such product,
      otherwise 200 with the stored record. */
  method ServeShow(store: MemStorage, id: RouteId) returns (reply: Reply)
    requires store.Valid()
    ensures reply.Reply?
    ensures reply.status == 404 <==> id.NotANumber? || id.n !in store.products.entries
    ensures reply.status == 404 ==> reply.body == Text("Product not found")
    ensures reply.status != 404 ==>
      reply.status == 200 && reply.body == ProductJson(store.products.entries[id.n])
  {
    var product: Option<Product> := None;
    if id.Parsed? {
      product := store.GetProduct(id.n);
    }
    if product.None? {
      return Reply(404, Text("Product not found"));
    }
    reply := Reply(200, ProductJson(product.value));
  }

  /** POST /api/products */
  method ServeCreate(store: MemStorage, requester: Option<User>, body: ProductPatch, validate: Validator)
    returns (reply: Reply)
    requires store.Valid()
    modifies store
    ensures store.Valid()
    ensures (reply, store.State()) == HandleCreate(old(store.State()), requester, body, validate)
  {
    if !IsAdmin(requester) {
      return Forbidden;
    }
    var parsed := validate(body);
    if parsed.None? {
      return Reply(400, ValidationErrorJson);
    }
    var product := store.CreateProduct(parsed.value);
    reply := Reply(201, ProductJson(product));
  }

  /** PATCH /api/products/:id */
  method ServeUpdate(store: MemStorage, requester: Option<User>, id: RouteId, body: ProductPatch)
    returns (reply: Reply)
    requires store.Valid()
    modifies store
    ensures store.Valid()
    ensures (reply, store.State()) == HandleUpdate(old(store.State()), requester, id, body)
  {
    if !IsAdmin(requester) {
      return Forbidden;
    }
    if id.NotANumber? {
      return Unhandled(NotFound);
    }
    var updated := store.UpdateProduct(id.n, body);
    if updated.Err? {
      return Unhandled(updated.message);
    }
    reply := Reply(200, ProductJson(updated.value));
  }

  /** DELETE /api/products/:id */
  method ServeDelete(store: MemStorage, requester: Option<User>, id: RouteId) returns (reply: Reply)
    requires store.Valid()
    modifies store
    ensures store.Valid()
    ensures (reply, store.State()) == HandleDelete(old(store.State()), requester, id)
  {
    if !IsAdmin(requester) {
      return Forbidden;
    }
    if id.Parsed? {
      store.DeleteProduct(id.n);
    }
    reply := Reply(204, NoContent);
  }

  // ---------------------------------------------------------------------
  // What the decisions promise

  /** Every mutating route answers 403 to an absent or non-admin requester
      and leaves the store as it was; an admin is never answered 403. */
  lemma AdminGate(s: StoreState, requester: Option<User>, id: RouteId, body: ProductPatch, validate: Validator)
    ensures !IsAdmin(requester) ==>
      && HandleCreate(s, requester, body, validate) == (Forbidden, s)
      && HandleUpdate(s, requester, id, body) == (Forbidden, s)
      && HandleDelete(s, requester, id) == (Forbidden, s)
    ensures IsAdmin(requester) ==>
      && (HandleCreate(s, requester, body, validate).0.Reply? ==> HandleCreate(s, requester, body, validate).0.status != 403)
      && (HandleUpdate(s, requester, id, body).0.Reply? ==> HandleUpdate(s, requester, id, body).0.status != 403)
      && HandleDelete(s, requester, id).0.Reply? && HandleDelete(s, requester, id).0.status != 403
  {
  }

  /** POST by an admin: an invalid body is answered 400 with the store
      unchanged; a valid one is answered 201 with the created product, which
      is the only addition to the listing and carries a fresh id. */
  lemma CreateOutcomes(s: StoreState, requester: Option<User>, body: ProductPatch, validate: Validator)
    requires Inv(s) && IsAdmin(requester)
    ensures var r := HandleCreate(s, requester, body, validate);
      && Inv(r.1)
      && (validate(body).None? ==> r == (Reply(400, ValidationErrorJson), s))
      && (validate(body).Some? ==>
            && r.0.Reply? && r.0.status == 201 && r.0.body.ProductJson?
            && r.0.body.product.id == s.currentProductId
            && r.0.body.product.id !in s.products.entries
            && Values(r.1.products) == Values(s.products) + [r.0.body.product]
            && |Values(r.1.products)| == |Values(s.products)| + 1
            && Lookup(r.1, Parsed(r.0.body.product.id)) == Some(r.0.body.product))
  {
    if validate(body).Some? {
      CreateProductSpec(s, validate(body).value);
    }
  }

  /** PATCH by an admin: on a present id it answers 200 with the merged record
      and changes only that product (no user, no counter); on an absent id or
      NaN the store's failure escapes (never a 404) and the store is
      unchanged. */
  lemma UpdateOutcomes(s: StoreState, requester: Option<User>, id: RouteId, body: ProductPatch)
    requires Inv(s) && IsAdmin(requester)
    ensures var r := HandleUpdate(s, requester, id, body);
      && Inv(r.1)
      && (Lookup(s, id).None? ==> r == (Unhandled("Product not found"), s))
      && (Lookup(s, id).Some? ==>
            && r.0 == Reply(200, ProductJson(Merge(Lookup(s, id).value, body)))
            && Lookup(r.1, id) == Some(Merge(Lookup(s, id).value, body))
            && (forall k :: k != id.n ==> Get(r.1.products, k) == Get(s.products, k))
            && r.1.products.keys == s.products.keys
            && r.1.users == s.users
            && r.1.currentUserId == s.currentUserId
            && r.1.currentProductId == s.currentProductId)
      && (r.0.Reply? ==> r.0.status != 404)
  {
    if id.Parsed? && id.n in s.products.entries {
      UpdateProductPresent(s, id.n, body);
    }
  }

  /** DELETE by an admin answers 204 whether or not the id existed; the
      product is gone afterwards, nothing else changes, and repeating the
      request answers 204 again with the store as it was. */
  lemma DeleteOutcomes(s: StoreState, requester: Option<User>, id: RouteId)
    requires Inv(s) && IsAdmin(requester)
    ensures var r := HandleDelete(s, requester, id);
      && Inv(r.1)
      && r.0 == Reply(204, NoContent)
      && Lookup(r.1, id) == None
      && (id.Parsed? ==> forall k :: k != id.n ==> Get(r.1.products, k) == Get(s.products, k))
      && (Lookup(s, id).None? ==> r.1 == s)
      && HandleDelete(r.1, requester, id) == (Reply(204, NoContent), r.1)
  {
    if id.Parsed? {
      DeleteProductSpec(s, id.n);
    }
  }
}
