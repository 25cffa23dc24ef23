/** The records the store keeps, and the object spreads that build them. */
module Schema {
  import opened Wrappers

  datatype User = User(id: int, username: string, password: string, isAdmin: bool)

  /** The fields a caller supplies for a new user. An absent admin flag is
      `false` here: only its truthiness is ever read. */
  datatype InsertUser = InsertUser(username: string, password: string, isAdmin: bool)

  /** A product; `price` is in minor currency units. */
  datatype Product = Product(
    id: int,
    productCode: string,
    name: string,
    description: string,
    price: int,
    imageUrl: string,
    category: string)

  datatype InsertProduct = InsertProduct(
    name: string,
    description: string,
    price: int,
    imageUrl: string,
    category: string)

  /** A JSON object over the keys of a product, each one present or absent:
      the request body that PATCH forwards without validation. */
  datatype ProductPatch = ProductPatch(
    id: Option<int>,
    productCode: Option<string>,
    name: Option<string>,
    description: Option<string>,
    price: Option<int>,
    imageUrl: Option<string>,
    category: Option<string>)

  /** A patch of the declared parameter type `Partial<InsertProduct>`: it
      carries neither `id` nor `productCode`. */
  predicate IsInsertPatch(patch: ProductPatch) {
    patch.id.None? && patch.productCode.None?
  }

  /** `{ ...insertUser, id }` */
  function NewUser(u: InsertUser, id: int): User {
    User(id, u.username, u.password, u.isAdmin)
  }

  /** `{ ...product, id, productCode }` */
  function NewProduct(p: InsertProduct, id: int, code: string): Product {
    Product(id, code, p.name, p.description, p.price, p.imageUrl, p.category)
  }

  function Override<T>(present: Option<T>, kept: T): T {
    if present.Some? then present.value else kept
  }

  /** `{ ...existing, ...patch }` */
  function Merge(existing: Product, patch: ProductPatch): Product {
    Product(
      Override(patch.id, existing.id),
      Override(patch.productCode, existing.productCode),
      Override(patch.name, existing.name),
      Override(patch.description, existing.description),
      Override(patch.price, existing.price),
      Override(patch.imageUrl, existing.imageUrl),
      Override(patch.category, existing.category))
  }

  /** The patch that carries no key. */
  const NoChange: ProductPatch := ProductPatch(None, None, None, None, None, None, None)

  /** Each key present in the patch overrides, each absent key keeps the old
      value, `id` and `productCode` included; so a typed patch never touches
      `id` or `productCode`, while a raw body naming them overwrites them. */
  lemma MergeFields(existing: Product, patch: ProductPatch)
    ensures var m := Merge(existing, patch);
      && (patch.name.None? ==> m.name == existing.name)
      && (patch.name.Some? ==> m.name == patch.name.value)
      && (patch.description.None? ==> m.description == existing.description)
      && (patch.description.Some? ==> m.description == patch.description.value)
      && (patch.price.None? ==> m.price == existing.price)
      && (patch.price.Some? ==> m.price == patch.price.value)
      && (patch.imageUrl.None? ==> m.imageUrl == existing.imageUrl)
      && (patch.imageUrl.Some? ==> m.imageUrl == patch.imageUrl.value)
      && (patch.category.None? ==> m.category == existing.category)
      && (patch.category.Some? ==> m.category == patch.category.value)
      && (patch.id.None? ==> m.id == existing.id)
      && (patch.id.Some? ==> m.id == patch.id.value)
      && (patch.productCode.None? ==> m.productCode == existing.productCode)
      && (patch.productCode.Some? ==> m.productCode == patch.productCode.value)
      && (IsInsertPatch(patch) ==> m.id == existing.id && m.productCode == existing.productCode)
  {
  }

  /** An empty patch leaves the record as it was, and applying the same
      patch twice is applying it once. */
  lemma MergeIdentityAndIdempotence(existing: Product, patch: ProductPatch)
    ensures Merge(existing, NoChange) == existing
    ensures Merge(Merge(existing, patch), patch) == Merge(existing, patch)
  {
  }
}
