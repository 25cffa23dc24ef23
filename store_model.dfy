/** The record store's state as a value, and each `MemStorage` operation as
    a function from the old state to the new one. The class in Storage is
    proved to follow these functions; the lemmas here state what the
    operations promise. */
module StoreModel {
  import opened Wrappers
  import opened OrderedMaps
  import opened Schema
  import opened ProductCodes

  /** The fields `users`, `products`, `currentUserId`, `currentProductId`. */
  datatype StoreState = StoreState(
    users: OrderedMap<User>,
    products: OrderedMap<Product>,
    currentUserId: nat,
    currentProductId: nat)

  /** What every reachable state satisfies: both maps are well formed, every
      key was handed out by its counter (so keys are positive and below the
      counter), and each user is stored under its own id. */
  ghost predicate Inv(s: StoreState) {
    && WellFormed(s.users)
    && WellFormed(s.products)
    && 1 <= s.currentUserId
    && 1 <= s.currentProductId
    && (forall k :: k in s.users.entries ==> 1 <= k < s.currentUserId && s.users.entries[k].id == k)
    && (forall k :: k in s.products.entries ==> 1 <= k < s.currentProductId)
  }

  /** Every product is stored under its own id and carries the code of that
      id. Creation and typed updates keep this; a raw PATCH body that names
      `id` or `productCode` can break it. */
  ghost predicate ProductsWellKeyed(s: StoreState) {
    forall k :: k in s.products.entries ==>
      k >= 0 && s.products.entries[k].id == k && s.products.entries[k].productCode == ProductCode(k)
  }

  const NotFound: string := "Product not found"

  /** The state before any seeding. */
  function EmptyState(): StoreState {
    StoreState(Empty(), Empty(), 1, 1)
  }

  /** `createUser`: take the next user id, store the user, return it. */
  function CreateUser(s: StoreState, u: InsertUser): (StoreState, User) {
    var id := s.currentUserId;
    var user := NewUser(u, id);
    (s.(users := Set(s.users, id, user), currentUserId := id + 1), user)
  }

  /** `createProduct`: take the next product id, derive its code, store the
      product, return it. */
  function CreateProduct(s: StoreState, p: InsertProduct): (StoreState, Product) {
    var id := s.currentProductId;
    var product := NewProduct(p, id, ProductCode(id));
    (s.(products := Set(s.products, id, product), currentProductId := id + 1), product)
  }

  /** `updateProduct`: fail on an absent id, otherwise merge the patch over
      the stored record and store it under the same key. */
  function UpdateProduct(s: StoreState, id: int, patch: ProductPatch): Result<(StoreState, Product)> {
    match Get(s.products, id)
    case None => Err(NotFound)
    case Some(existing) =>
      var updated := Merge(existing, patch);
      Ok((s.(products := Set(s.products, id, updated)), updated))
  }

  /** `deleteProduct` */
  function DeleteProduct(s: StoreState, id: int): StoreState {
    s.(products := Delete(s.products, id))
  }

  /** A run of `createProduct` calls, in order; the products made, in order. */
  function CreateProducts(s: StoreState, ps: seq<InsertProduct>): (StoreState, seq<Product>) {
    if ps == [] then (s, [])
    else
      var before := CreateProducts(s, ps[..|ps| - 1]);
      var after := CreateProduct(before.0, ps[|ps| - 1]);
      (after.0, before.1 + [after.1])
  }

  /** `Array.prototype.find` over users by username. */
  function FirstWithUsername(us: seq<User>, name: string): Option<User> {
    if us == [] then None
    else if us[0].username == name then Some(us[0])
    else FirstWithUsername(us[1..], name)
  }

  const Admin: InsertUser := InsertUser("admin", "admin123", true)

  const Seeds: seq<InsertProduct> := [
    InsertProduct(
      "Teak Wood Dining Table",
      "Handcrafted dining table made from premium Indonesian teak wood with traditional joinery techniques",
      299900,
      "https://images.unsplash.com/photo-1533090161767-e6ffed986c88?w=800",
      "Dining Tables"),
    InsertProduct(
      "Javanese Carved Armchair",
      "Intricately carved armchair showcasing traditional Javanese motifs, handmade by master craftsmen",
      159900,
      "https://images.unsplash.com/photo-1567538096630-e0c55bd6374c?w=800",
      "Accent Chairs"),
    InsertProduct(
      "Sumatra Coffee Table",
      "Solid wood coffee table featuring exotic Indonesian hardwood with natural grain patterns",
      89900,
      "https://images.unsplash.com/photo-1565191999040-e67537e12ce2?w=800",
      "Coffee Tables"),
    InsertProduct(
      "Balinese Storage Cabinet",
      "Traditional storage cabinet with hand-carved Balinese patterns and premium hardware",
      239900,
      "https://images.unsplash.com/photo-1505693416388-ac5ce068fe85?w=800",
      "Cabinets & Cupboards"),
    InsertProduct(
      "Indonesian Teak Bed Frame",
      "King-size bed frame crafted from sustainable Indonesian teak with traditional woodworking techniques",
      399900,
      "https://images.unsplash.com/photo-1505693416388-ac5ce068fe85?w=800",
      "Beds")
  ]

  /** The state the constructor leaves: the admin user, then the five seeds. */
  function Seeded(): StoreState {
    SeedWith(Admin, Seeds)
  }

  // ---------------------------------------------------------------------
  // Users

  /** `createUser` hands out the old counter as a fresh id, bumps the counter
      by one, stores the user so that `getUser` finds it, appends it to the
      listing, and touches nothing else. */
  lemma CreateUserSpec(s: StoreState, u: InsertUser)
    requires Inv(s)
    ensures var r := CreateUser(s, u);
      && Inv(r.0)
      && r.1 == User(s.currentUserId, u.username, u.password, u.isAdmin)
      && r.1.id !in s.users.entries
      && r.0.currentUserId == s.currentUserId + 1
      && Get(r.0.users, r.1.id) == Some(r.1)
      && (forall k :: k != r.1.id ==> Get(r.0.users, k) == Get(s.users, k))
      && Values(r.0.users) == Values(s.users) + [r.1]
      && r.0.products == s.products && r.0.currentProductId == s.currentProductId
  {
    ValuesAfterSetNew(s.users, s.currentUserId, CreateUser(s, u).1);
  }

  /** The lookup returns a user with the name asked for, preceded by none, and
      finds nothing only when no user has that name. */
  lemma {:induction false} FirstWithUsernameMeaning(us: seq<User>, name: string)
    ensures FirstWithUsername(us, name).None? <==> forall i :: 0 <= i < |us| ==> us[i].username != name
    ensures FirstWithUsername(us, name).Some? ==>
      exists i :: 0 <= i < |us| && us[i] == FirstWithUsername(us, name).value && us[i].username == name
        && forall j :: 0 <= j < i ==> us[j].username != name
  {
    if us != [] && us[0].username != name {
      FirstWithUsernameMeaning(us[1..], name);
      if FirstWithUsername(us, name).Some? {
        var i :| 0 <= i < |us[1..]| && us[1..][i] == FirstWithUsername(us, name).value && us[1..][i].username == name
          && forall j :: 0 <= j < i ==> us[1..][j].username != name;
        assert us[i + 1] == FirstWithUsername(us, name).value;
      }
    } else if us != [] {
      assert us[0] == FirstWithUsername(us, name).value;
    }
  }

  /** Appending a user changes a lookup only when no earlier user had the name. */
  lemma {:induction false} FirstWithUsernameAppend(us: seq<User>, u: User, name: string)
    ensures FirstWithUsername(us + [u], name) ==
      if FirstWithUsername(us, name).Some? then FirstWithUsername(us, name)
      else if u.username == name then Some(u)
      else None
  {
    if us == [] {
      assert us + [u] == [u];
    } else {
      assert (us + [u])[1..] == us[1..] + [u];
      FirstWithUsernameAppend(us[1..], u, name);
    }
  }

  /** No uniqueness check: after `createUser`, `getUserByUsername` returns the
      new user only when its name was free; an existing user of that name
      keeps shadowing it. */
  lemma CreateUserThenLookup(s: StoreState, u: InsertUser)
    requires Inv(s)
    ensures var r := CreateUser(s, u);
      && Inv(r.0)
      && FirstWithUsername(Values(r.0.users), u.username) ==
           if FirstWithUsername(Values(s.users), u.username).Some?
           then FirstWithUsername(Values(s.users), u.username)
           else Some(r.1)
  {
    CreateUserSpec(s, u);
    FirstWithUsernameAppend(Values(s.users), CreateUser(s, u).1, u.username);
  }

  // ---------------------------------------------------------------------
  // Products

  /** `createProduct` keeps the invariant and well-keyedness. */
  lemma CreateProductKeeps(s: StoreState, p: InsertProduct)
    requires Inv(s)
    ensures Inv(CreateProduct(s, p).0)
    ensures ProductsWellKeyed(s) ==> ProductsWellKeyed(CreateProduct(s, p).0)
  {
  }

  /** `createProduct` hands out the old counter as a fresh id, bumps the
      counter by one, and stores the supplied fields with the code of that id;
      `getProduct` then returns exactly that record, it is listed last, and
      nothing else changes. */
  lemma CreateProductSpec(s: StoreState, p: InsertProduct)
    requires Inv(s)
    ensures var r := CreateProduct(s, p);
      && Inv(r.0)
      && r.1 == Product(s.currentProductId, ProductCode(s.currentProductId),
                        p.name, p.description, p.price, p.imageUrl, p.category)
      && r.1.id !in s.products.entries
      && r.0.currentProductId == s.currentProductId + 1
      && Get(r.0.products, r.1.id) == Some(r.1)
      && (forall k :: k != r.1.id ==> Get(r.0.products, k) == Get(s.products, k))
      && Values(r.0.products) == Values(s.products) + [r.1]
      && r.0.users == s.users && r.0.currentUserId == s.currentUserId
      && (ProductsWellKeyed(s) ==> ProductsWellKeyed(r.0))
  {
    CreateProductKeeps(s, p);
    ValuesAfterSetNew(s.products, s.currentProductId, CreateProduct(s, p).1);
  }

  /** A run of creates keeps the invariant and well-keyedness. */
  lemma {:induction false} CreateProductsKeeps(s: StoreState, ps: seq<InsertProduct>)
    requires Inv(s)
    ensures Inv(CreateProducts(s, ps).0)
    ensures ProductsWellKeyed(s) ==> ProductsWellKeyed(CreateProducts(s, ps).0)
  {
    if ps != [] {
      CreateProductsKeeps(s, ps[..|ps| - 1]);
      CreateProductKeeps(CreateProducts(s, ps[..|ps| - 1]).0, ps[|ps| - 1]);
    }
  }

  /** A run of creates counts ids up from the old counter: each product
      carries the id and code of its position and the supplied fields, the
      counter ends up `|ps|` higher, and the users are untouched. */
  lemma {:induction false} CreateProductsRun(s: StoreState, ps: seq<InsertProduct>)
    ensures var r := CreateProducts(s, ps);
      && |r.1| == |ps|
      && r.0.currentProductId == s.currentProductId + |ps|
      && r.0.users == s.users && r.0.currentUserId == s.currentUserId
      && (forall i :: 0 <= i < |ps| ==>
            r.1[i] == NewProduct(ps[i], s.currentProductId + i, ProductCode(s.currentProductId + i)))
  {
    if ps != [] {
      var init, last := ps[..|ps| - 1], ps[|ps| - 1];
      CreateProductsRun(s, init);
      var before := CreateProducts(s, init);
      var after := CreateProduct(before.0, last);
      assert CreateProducts(s, ps) == (after.0, before.1 + [after.1]);
      forall i | 0 <= i < |ps|
        ensures (before.1 + [after.1])[i] == NewProduct(ps[i], s.currentProductId + i, ProductCode(s.currentProductId + i))
      {
        if i < |ps| - 1 {
          assert ps[i] == init[i];
        }
      }
    }
  }

  /** The products of a run of creates are listed after the existing ones, in
      creation order. */
  lemma {:induction false} CreateProductsListing(s: StoreState, ps: seq<InsertProduct>)
    requires Inv(s)
    ensures Inv(CreateProducts(s, ps).0)
    ensures Values(CreateProducts(s, ps).0.products) == Values(s.products) + CreateProducts(s, ps).1
  {
    CreateProductsKeeps(s, ps);
    if ps != [] {
      var init, last := ps[..|ps| - 1], ps[|ps| - 1];
      CreateProductsListing(s, init);
      CreateProductsRun(s, init);
      var before := CreateProducts(s, init);
      var after := CreateProduct(before.0, last);
      ValuesAfterSetNew(before.0.products, before.0.currentProductId, after.1);
      assert CreateProducts(s, ps) == (after.0, before.1 + [after.1]);
      assert Values(s.products) + before.1 + [after.1] == Values(s.products) + (before.1 + [after.1]);
    }
  }

  /** The ids of a run of creates are strictly increasing and none of them
      was present before. */
  lemma CreateProductsFresh(s: StoreState, ps: seq<InsertProduct>)
    requires Inv(s)
    ensures var r := CreateProducts(s, ps);
      && |r.1| == |ps|
      && (forall i, j :: 0 <= i < j < |ps| ==> r.1[i].id < r.1[j].id)
      && (forall i :: 0 <= i < |ps| ==> r.1[i].id !in s.products.entries)
  {
    CreateProductsRun(s, ps);
  }

  /** After a run of creates `getProduct` returns each product made, and
      every product present before is unchanged. */
  lemma {:induction false} CreateProductsStored(s: StoreState, ps: seq<InsertProduct>)
    requires Inv(s)
    ensures var r := CreateProducts(s, ps);
      && |r.1| == |ps|
      && (forall i :: 0 <= i < |ps| ==> Get(r.0.products, r.1[i].id) == Some(r.1[i]))
      && (forall k :: k in s.products.entries ==> Get(r.0.products, k) == Get(s.products, k))
  {
    CreateProductsRun(s, ps);
    if ps != [] {
      var init, last := ps[..|ps| - 1], ps[|ps| - 1];
      CreateProductsStored(s, init);
      CreateProductsRun(s, init);
      var before := CreateProducts(s, init);
      var after := CreateProduct(before.0, last);
      var id := before.0.currentProductId;
      assert id == s.currentProductId + |init|;
      assert after.0.products == Set(before.0.products, id, after.1);
      assert CreateProducts(s, ps) == (after.0, before.1 + [after.1]);
      forall i | 0 <= i < |ps|
        ensures Get(after.0.products, (before.1 + [after.1])[i].id) == Some((before.1 + [after.1])[i])
      {
        if i < |ps| - 1 {
          assert before.1[i].id == s.currentProductId + i;
        }
      }
      forall k | k in s.products.entries
        ensures Get(after.0.products, k) == Get(s.products, k)
      {
        assert k < s.currentProductId;
      }
    }
  }

  /** `updateProduct` on an absent id fails with "Product not found"; no new
      state exists, so both maps and both counters stay as they were. */
  lemma UpdateProductMissing(s: StoreState, id: int, patch: ProductPatch)
    requires id !in s.products.entries
    ensures UpdateProduct(s, id, patch) == Err("Product not found")
  {
  }

  /** `updateProduct` on a present id stores the merge of the patch over the
      old record under the same key, in the same listing position, returns
      it, and changes no other product, no user and no counter. */
  lemma UpdateProductPresent(s: StoreState, id: int, patch: ProductPatch)
    requires Inv(s) && id in s.products.entries
    ensures UpdateProduct(s, id, patch).Ok?
    ensures var r := UpdateProduct(s, id, patch).value;
      && Inv(r.0)
      && r.1 == Merge(s.products.entries[id], patch)
      && Get(r.0.products, id) == Some(r.1)
      && (forall k :: k != id ==> Get(r.0.products, k) == Get(s.products, k))
      && r.0.products.keys == s.products.keys
      && Values(r.0.products) == Values(s.products)[IndexOf(s.products.keys, id) := r.1]
      && r.0.users == s.users
      && r.0.currentUserId == s.currentUserId && r.0.currentProductId == s.currentProductId
      && (ProductsWellKeyed(s) && IsInsertPatch(patch) ==> ProductsWellKeyed(r.0))
  {
    ValuesAfterSetExisting(s.products, id, Merge(s.products.entries[id], patch));
    MergeFields(s.products.entries[id], patch);
  }

  /** A raw PATCH body that names `id` or `productCode` with a value other
      than the key's own breaks well-keyedness: the merged record is stored
      under the old key but carries the body's id or code. Any other patch
      keeps it. */
  lemma UpdateProductWellKeyed(s: StoreState, id: int, patch: ProductPatch)
    requires Inv(s) && ProductsWellKeyed(s) && id in s.products.entries
    ensures UpdateProduct(s, id, patch).Ok?
    ensures ProductsWellKeyed(UpdateProduct(s, id, patch).value.0) <==>
      && (patch.id.None? || patch.id.value == id)
      && (patch.productCode.None? || patch.productCode.value == ProductCode(id))
  {
    var m := Merge(s.products.entries[id], patch);
    MergeFields(s.products.entries[id], patch);
    assert UpdateProduct(s, id, patch).value.0.products.entries[id] == m;
  }

  /** `deleteProduct` leaves the id absent and every other product as it was,
      drops exactly that entry from the listing, is a no-op on an absent id,
      and deleting twice is deleting once. */
  lemma DeleteProductSpec(s: StoreState, id: int)
    requires Inv(s)
    ensures var r := DeleteProduct(s, id);
      && Inv(r)
      && Get(r.products, id) == None
      && (forall k :: k != id ==> Get(r.products, k) == Get(s.products, k))
      && (id !in s.products.entries ==> r == s)
      && (id in s.products.entries ==>
            Values(r.products) == Values(s.products)[..IndexOf(s.products.keys, id)]
                                + Values(s.products)[IndexOf(s.products.keys, id) + 1..])
      && DeleteProduct(r, id) == r
      && r.users == s.users
      && r.currentUserId == s.currentUserId && r.currentProductId == s.currentProductId
      && (ProductsWellKeyed(s) ==> ProductsWellKeyed(r))
  {
    if id in s.products.entries {
      ValuesAfterDelete(s.products, id);
    }
    DeleteIdempotent(s.products, id);
  }

  // ---------------------------------------------------------------------
  // Construction

  /** Seeding an empty store with one user and then a run of products. */
  function SeedWith(admin: InsertUser, seeds: seq<InsertProduct>): StoreState {
    CreateProducts(CreateUser(EmptyState(), admin).0, seeds).0
  }

  lemma SeedWithSpec(admin: InsertUser, seeds: seq<InsertProduct>)
    ensures var s := SeedWith(admin, seeds);
      && Inv(s) && ProductsWellKeyed(s)
      && Values(s.users) == [NewUser(admin, 1)]
      && |Values(s.products)| == |seeds|
      && (forall i :: 0 <= i < |seeds| ==> Values(s.products)[i] == NewProduct(seeds[i], i + 1, ProductCode(i + 1)))
      && (forall i :: 0 <= i < |seeds| ==> Get(s.products, i + 1) == Some(Values(s.products)[i]))
      && s.currentUserId == 2 && s.currentProductId == |seeds| + 1
  {
    var s0 := EmptyState();
    assert Values(s0.users) == [];
    CreateUserSpec(s0, admin);
    var s1 := CreateUser(s0, admin).0;
    assert Values(s1.products) == [];
    CreateProductsRun(s1, seeds);
    CreateProductsKeeps(s1, seeds);
    CreateProductsListing(s1, seeds);
    CreateProductsStored(s1, seeds);
  }

  /** After construction there is exactly one user, the admin with id 1, and
      five products with ids 1 to 5, the seed fields and codes RY-0001 to
      RY-0005, listed in that order; the counters stand at 2 and 6. */
  lemma SeededSpec()
    ensures Inv(Seeded()) && ProductsWellKeyed(Seeded())
    ensures Values(Seeded().users) == [User(1, "admin", "admin123", true)]
    ensures |Values(Seeded().products)| == 5
    ensures forall i :: 0 <= i < 5 ==>
      Values(Seeded().products)[i] == NewProduct(Seeds[i], i + 1, ProductCode(i + 1))
    ensures Values(Seeded().products)[0].productCode == "RY-0001"
    ensures Values(Seeded().products)[4].productCode == "RY-0005"
    ensures Get(Seeded().products, 3) == Some(Values(Seeded().products)[2])
    ensures Seeded().currentUserId == 2 && Seeded().currentProductId == 6
  {
    SeedWithSpec(Admin, Seeds);
    assert Seeded() == SeedWith(Admin, Seeds);
    SeedCodes();
  }
}
