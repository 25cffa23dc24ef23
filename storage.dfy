/** `MemStorage`: the in-memory record store. Its two maps and two counters
    are fields that the methods update in place; each method is proved to
    move the store exactly as the matching StoreModel function does. */
module Storage {
  import opened Wrappers
  import opened OrderedMaps
  import opened Schema
  import opened ProductCodes
  import opened StoreModel

  class MemStorage {
    var users: OrderedMap<User>
    var products: OrderedMap<Product>
    var currentUserId: nat
    var currentProductId: nat

    /** The store's fields as one value. */
    function State(): StoreState
      reads this
    {
      StoreState(users, products, currentUserId, currentProductId)
    }

    ghost predicate Valid()
      reads this
    {
      Inv(State())
    }

    /** Seeds the admin user, then creates the five sample products in order. */
    constructor ()
      ensures Valid() && ProductsWellKeyed(State())
      ensures State() == Seeded()
    {
      users := Empty();
      products := Empty();
      currentUserId := 1;
      currentProductId := 1;
      new;
      var admin := CreateUser(Admin);
      AddAll(Seeds);
    }

    /** `sampleProducts.forEach(product => this.createProduct(product))` */
    method AddAll(seeds: seq<InsertProduct>)
      requires Valid()
      modifies this
      ensures Valid()
      ensures State() == CreateProducts(old(State()), seeds).0
      ensures ProductsWellKeyed(old(State())) ==> ProductsWellKeyed(State())
    {
      var i := 0;
      while i < |seeds|
        invariant 0 <= i <= |seeds|
        invariant Valid()
        invariant State() == CreateProducts(old(State()), seeds[..i]).0
        invariant ProductsWellKeyed(old(State())) ==> ProductsWellKeyed(State())
      {
        assert seeds[..i + 1][..i] == seeds[..i];
        var made := CreateProduct(seeds[i]);
        i := i + 1;
      }
      assert seeds[..i] == seeds;
    }

    /** `getUser` */
    method GetUser(id: int) returns (r: Option<User>)
      requires Valid()
      ensures r.Some? <==> id in users.entries
      ensures r.Some? ==> r.value == users.entries[id] && r.value.id == id
    {
      r := Get(users, id);
    }

    /** `getUserByUsername`: a linear scan over the users in insertion order,
        returning the first whose username matches. */
    method GetUserByUsername(username: string) returns (r: Option<User>)
      requires Valid()
      ensures r == FirstWithUsername(Values(users), username)
    {
      var all := Values(users);
      var i := 0;
      while i < |all|
        invariant 0 <= i <= |all|
        invariant FirstWithUsername(all, username) == FirstWithUsername(all[i..], username)
      {
        assert all[i..][1..] == all[i + 1..];
        if all[i].username == username {
          return Some(all[i]);
        }
        i := i + 1;
      }
      return None;
    }

    /** `createUser` */
    method CreateUser(u: InsertUser) returns (user: User)
      requires Valid()
      modifies this
      ensures Valid()
      ensures (State(), user) == StoreModel.CreateUser(old(State()), u)
    {
      var id := currentUserId;
      currentUserId := currentUserId + 1;
      user := NewUser(u, id);
      users := Set(users, id, user);
      CreateUserSpec(old(State()), u);
    }

    /** `getProducts`: every product, in key-insertion order. */
    method GetProducts() returns (r: seq<Product>)
      requires Valid()
      ensures r == Values(products)
      ensures |r| == |products.entries|
    {
      r := Values(products);
      SizeOfValues(products);
    }

    /** `getProduct` */
    method GetProduct(id: int) returns (r: Option<Product>)
      requires Valid()
      ensures r.Some? <==> id in products.entries
      ensures r.Some? ==> r.value == products.entries[id]
    {
      r := Get(products, id);
    }

    /** `createProduct` */
    method CreateProduct(p: InsertProduct) returns (product: Product)
      requires Valid()
      modifies this
      ensures Valid()
      ensures (State(), product) == StoreModel.CreateProduct(old(State()), p)
      ensures ProductsWellKeyed(old(State())) ==> ProductsWellKeyed(State())
    {
      var id := currentProductId;
      currentProductId := currentProductId + 1;
      var productCode := ProductCode(id);
      product := NewProduct(p, id, productCode);
      products := Set(products, id, product);
      CreateProductKeeps(old(State()), p);
    }

    /** `updateProduct`: the thrown "Product not found" is an Err result. */
    method UpdateProduct(id: int, patch: ProductPatch) returns (r: Result<Product>)
      requires Valid()
      modifies this
      ensures Valid()
      ensures r.Err? ==> r == Err(NotFound) && State() == old(State())
      ensures r.Err? <==> StoreModel.UpdateProduct(old(State()), id, patch).Err?
      ensures r.Ok? ==> (State(), r.value) == StoreModel.UpdateProduct(old(State()), id, patch).value
    {
      var existing := GetProduct(id);
      if existing.None? {
        return Err(NotFound);
      }
      var updated := Merge(existing.value, patch);
      products := Set(products, id, updated);
      UpdateProductPresent(old(State()), id, patch);
      r := Ok(updated);
    }

    /** `deleteProduct` */
    method DeleteProduct(id: int)
      requires Valid()
      modifies this
      ensures Valid()
      ensures State() == StoreModel.DeleteProduct(old(State()), id)
    {
      products := Delete(products, id);
      DeleteProductSpec(old(State()), id);
    }
  }
}
