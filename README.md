# Furniture storefront record store, modelled in Dafny

This project models the server core of a small furniture storefront: the
in-memory record store `MemStorage` (`server/storage.ts`) and the decision
logic of the five `/api/products` handlers (`server/routes.ts`).

The store keeps users and products in two ECMAScript `Map`s keyed by integer
id. Two counters hand out the ids. A product's code is `RY-` followed by its
id, zero-padded to at least four digits. The constructor seeds one admin user
and five sample products. The handlers check the admin flag first, then the
request body, then the store's answer, and answer 403, 400, 404, 201, 200 or
204.

Modules, one per concern:

- `Wrappers` (`wrappers.dfy`): `Option` for JavaScript's `undefined`, `Result` for a thrown error.
- `OrderedMaps` (`ordered_maps.dfy`): an ECMAScript `Map` with integer keys. It keeps the entries and the order in which the present keys were inserted. `set` on a present key keeps its position. `values()` lists in that order.
- `ProductCodes` (`product_codes.dfy`): `generateProductCode`, with its inverse `ParseProductCode`.
- `Schema` (`schema.dfy`): users, products, insert shapes, patches, and the object spreads that build records.
- `StoreModel` (`store_model.dfy`): the store's state as a value and each operation as a function of the old state. The lemmas here state what the operations promise.
- `Storage` (`storage.dfy`): class `MemStorage`. Its fields are the two maps and two counters, and its methods update them in place. Each method is proved to move the state as the matching `StoreModel` function does.
- `Routes` (`routes.dfy`): each handler as a method over a `MemStorage` object (`ServeList`, `ServeShow`, `ServeCreate`, …). Each mutating handler is also a pure decision function (`HandleCreate`, `HandleUpdate`, `HandleDelete`), with lemmas about the decisions.

Where the code departs from what its interface and naming suggest, the model follows the code:

- The code pads the id to at least four digits and never truncates longer ids.
- The code does not enforce unique usernames. A second user with a taken name is stored, but the lookup by name keeps returning the first one (`CreateUserThenLookup`).
- A PATCH on a missing id is not turned into a 404. The error thrown by the store escapes the handler, modelled as `Unhandled("Product not found")`.
- A PATCH body may name `id` or `productCode`, and the spread then overwrites them, because the handler forwards the raw body. The model keeps this. `MergeFields` states that a carried `id` or `productCode` overwrites the stored one. The invariant that each product sits under its own id and carries that id's code (`ProductsWellKeyed`) is kept exactly when the body names neither key with a value other than the key's own (`UpdateProductWellKeyed`). The declared parameter type `Partial<InsertProduct>` allows neither key.

## Model

| member | source | states |
|---|---|---|
| `OrderedMaps.Empty` | server/storage.ts:33-34 | A new map is well formed, holds no key and lists nothing. |
| `OrderedMaps.Get` | server/storage.ts:112-114 | `map.get(k)`, as `getProduct` uses it here and `getUser` at server/storage.ts line 92: the entry stored under `k`, or None for `undefined`. `Set` and `Delete` state how each write changes every key's `Get`, and `Empty` that a new map reads None everywhere. |
| `OrderedMaps.Values` | server/storage.ts:108-110 | `Array.from(map.values())`, as `getProducts` uses it here and `getUserByUsername` at server/storage.ts line 96: the entries in the order their keys were inserted. `ValuesOf` gives its length and each element, `SizeOfValues` its size, and `ValuesAfterSetNew`, `ValuesAfterSetExisting` and `ValuesAfterDelete` how each write changes it. |
| `OrderedMaps.Set` | server/storage.ts:129 | After `set(k, v)`, `get(k)` is `v` and every other key reads as before. A present key keeps its place in the order. A new key is appended. Well-formedness is kept. |
| `OrderedMaps.Delete` | server/storage.ts:134 | After `delete(k)`, `get(k)` is undefined and every other key reads as before. Deleting an absent key changes nothing. Well-formedness is kept. |
| `OrderedMaps.ValuesOf` | server/storage.ts:109 | The listing has one value per key in the order, and the i-th value is the entry of the i-th inserted key. |
| `OrderedMaps.SizeOfValues` | server/storage.ts:109 | `Array.from(values())` has exactly as many elements as the map has entries. |
| `OrderedMaps.ValuesAfterSetNew` | server/storage.ts:120 | Setting a new key appends its value to the end of the listing. |
| `OrderedMaps.ValuesAfterSetExisting` | server/storage.ts:129 | Setting a present key replaces its value at the same position, and the rest of the listing is unchanged. |
| `OrderedMaps.ValuesAfterDelete` | server/storage.ts:134 | Deleting a present key removes exactly its value from the listing, and the rest keep their order. |
| `OrderedMaps.SetAfterDelete` | server/storage.ts:129-134 | A key that is deleted and then set again goes to the end of the order, after the other keys still present. |
| `OrderedMaps.DeleteIdempotent` | server/storage.ts:133-135 | Deleting the same key twice is the same as deleting it once. |
| `ProductCodes.ProductCode` | server/storage.ts:28-30 | `generateProductCode(id)`: `RY-` followed by `String(id)` left-padded with `0` to four characters. `ProductCodeRoundTrip`, `ProductCodeInjective` and `ProductCodeLayout` state its properties. |
| `ProductCodes.Decimal` | server/storage.ts:29 | `String(id)` for a non-negative integer: its decimal digits, most significant first. `DecimalDigits`, `DecimalRoundTrip` and `DecimalLength` state its properties. |
| `ProductCodes.PadStart` | server/storage.ts:29 | `s.padStart(width, c)`: `s` with copies of `c` in front up to `width` characters, never truncated. `PadStartShape` states its shape. |
| `ProductCodes.DecimalDigits` | server/storage.ts:29 | `String(n)` is a non-empty string of decimal digits, with no leading zero when n ≥ 10. |
| `ProductCodes.PadStartShape` | server/storage.ts:29 | `padStart` gives a string of length max(width, \|s\|) that ends with `s` and is filled with the pad character before it. |
| `ProductCodes.DecimalRoundTrip` | server/storage.ts:29 | Reading the digits of `String(n)` gives back `n`. |
| `ProductCodes.DecimalLength` | server/storage.ts:29 | `String(n)` has at most k digits exactly when n < 10^k. |
| `ProductCodes.ProductCodeRoundTrip` | server/storage.ts:28-30 | Parsing a generated product code gives back the id, despite the zero padding. |
| `ProductCodes.ProductCodeInjective` | server/storage.ts:28-30 | Two ids with the same product code are equal. |
| `ProductCodes.ProductCodeLayout` | server/storage.ts:28-30 | The code starts with `RY-`. Ids below 10000 give exactly seven characters. Ids of 10000 or more give `RY-` plus the full decimal, never truncated. The code always ends with the id's digits. |
| `ProductCodes.SeedCodes` | server/storage.ts:88 | Ids 1 to 5 get the codes `RY-0001` to `RY-0005`. |
| `Schema.Merge` | server/storage.ts:128 | `{ ...existing, ...patch }`: each of the seven product keys comes from the patch when the patch carries it, and from the existing record otherwise (see `MergeFields`). |
| `Schema.MergeFields` | server/storage.ts:128 | In `{ ...existing, ...patch }`, each of the seven keys the patch carries overrides the old value, and each key it lacks keeps the old value. This holds for `id` and `productCode` too, so a raw body naming them overwrites them, and a patch without them keeps both. |
| `Schema.MergeIdentityAndIdempotence` | server/storage.ts:128 | An empty patch changes nothing. Applying a patch twice is the same as applying it once. |
| `Schema.NewUser` | server/storage.ts:103 | `{ ...insertUser, id }`: the supplied user fields with the given id. `CreateUserSpec` states the id it gets and that it is stored and returned. |
| `Schema.NewProduct` | server/storage.ts:119 | `{ ...product, id, productCode }`: the supplied product fields with the given id and code. `CreateProductSpec` states the id and code it gets and that it is stored and returned. |
| `StoreModel.CreateUser` | server/storage.ts:101-106 | `createUser` as a state transition: the user gets the current user counter as its id and is set under that key, the counter goes up by one, and the user is returned (see `CreateUserSpec`). |
| `StoreModel.FirstWithUsername` | server/storage.ts:95-99 | `Array.from(users.values()).find(...)`: the first user in the listing with that username, or None (see `FirstWithUsernameMeaning`). |
| `StoreModel.CreateUserSpec` | server/storage.ts:101-106 | `createUser` gives the new user the old counter as its id, an id not in use. The counter goes up by one. `getUser` then returns the user, who is listed last. Other users, the products and the product counter are unchanged. The invariant is kept. |
| `StoreModel.FirstWithUsernameMeaning` | server/storage.ts:95-99 | The lookup by username finds nothing exactly when no user has that name. Otherwise it returns a user with that name, and no user before it in insertion order has the name. |
| `StoreModel.FirstWithUsernameAppend` | server/storage.ts:95-99 | Appending a user changes a lookup only when no earlier user has the name. |
| `StoreModel.CreateUserThenLookup` | server/storage.ts:95-106 | With no uniqueness check, the lookup after `createUser` finds the new user only if the name was free. Otherwise it keeps returning the earlier user. |
| `StoreModel.CreateProduct` | server/storage.ts:116-122 | `createProduct` as a state transition: the product gets the current product counter as its id and that id's code, is set under that key, the counter goes up by one, and the product is returned (see `CreateProductSpec`). |
| `StoreModel.CreateProductSpec` | server/storage.ts:116-122 | `createProduct` gives the new product the old counter as its id, an id not in use. The counter goes up by one. The stored and returned record has the code of that id and the supplied fields. `getProduct(id)` returns exactly that record, which is listed last. Nothing else changes. Well-keyedness is kept. |
| `StoreModel.CreateProductKeeps` | server/storage.ts:116-122 | One `createProduct` keeps the store invariant (every key below its counter, counters positive, the order duplicate-free) and keeps each product's `id` equal to its key. |
| `StoreModel.CreateProductsKeeps` | server/storage.ts:116-122 | Any run of creates keeps the store invariant and keeps each product's `id` equal to its key. |
| `StoreModel.CreateProductsListing` | server/storage.ts:108-121 | After a run of creates, `getProducts` lists the earlier products in their old order, followed by the new products in the order they were made. |
| `StoreModel.CreateProductsRun` | server/storage.ts:116-121 | In a run of creates, the i-th product gets id counter+i, that id's code and the i-th fields. The products are listed after the existing ones in creation order. The counter rises by the number of creates. Users are unchanged. |
| `StoreModel.CreateProductsFresh` | server/storage.ts:116-117 | The ids from a run of creates are strictly increasing, and none was present before. |
| `StoreModel.CreateProductsStored` | server/storage.ts:112-121 | After a run of creates, `getProduct` returns each product made, and every earlier product reads as before. |
| `StoreModel.CreateProducts` | server/storage.ts:88 | The `forEach` of `createProduct` over a list of fields, in order, giving the final state and the products made. `CreateProductsRun`, `CreateProductsKeeps`, `CreateProductsListing`, `CreateProductsFresh` and `CreateProductsStored` state its properties. |
| `StoreModel.UpdateProduct` | server/storage.ts:124-131 | `updateProduct` as a state transition: `Err("Product not found")` when the id is absent, otherwise the merge of the patch over the stored record, set under the same key and returned (see `UpdateProductMissing`, `UpdateProductPresent`). |
| `StoreModel.UpdateProductMissing` | server/storage.ts:124-126 | `updateProduct` on an absent id fails with "Product not found" and produces no new state. |
| `StoreModel.UpdateProductPresent` | server/storage.ts:127-130 | On a present id, `updateProduct` stores the merge of the patch over the old record under the same key and at the same listing position, and returns it. No other product, no user and no counter changes. A typed patch keeps well-keyedness. |
| `StoreModel.UpdateProductWellKeyed` | server/storage.ts:124-130 | On a well-keyed store, an update keeps every product under its own id with that id's code exactly when the body names neither `id` nor `productCode` with a value other than the key's own. A raw PATCH body that does breaks well-keyedness. |
| `StoreModel.DeleteProduct` | server/storage.ts:133-135 | `deleteProduct` as a state transition: the products map with that key deleted, everything else as it was (see `DeleteProductSpec`). |
| `StoreModel.DeleteProductSpec` | server/storage.ts:133-135 | After `deleteProduct(id)` the id reads as absent and every other product is unchanged. Exactly that entry leaves the listing. On an absent id nothing changes, and a second delete is a no-op. Counters and users are unchanged. |
| `StoreModel.SeedWith` | server/storage.ts:32-88 | The constructor's steps on given data: both maps empty, both counters at 1, then `createUser` of the admin and the `forEach` of `createProduct` over the seeds. `SeedWithSpec` states the resulting state. |
| `StoreModel.Seeded` | server/storage.ts:32-88 | The state the constructor leaves: `SeedWith` applied to the admin user and the five sample products written out in the constructor. `SeededSpec` states it. |
| `StoreModel.SeedWithSpec` | server/storage.ts:32-89 | Seeding an empty store with one user and n products leaves that user alone with id 1, and products with ids 1..n and their codes, in order. The counters then stand at 2 and n+1. |
| `StoreModel.SeededSpec` | server/storage.ts:41-88 | After construction there is exactly one user (1, "admin", "admin123", admin). There are five products with ids 1 to 5, the seed fields and codes `RY-0001` to `RY-0005`. `getProduct(3)` is the third one listed. The counters stand at 2 and 6. |
| `Storage.MemStorage.constructor` | server/storage.ts:32-89 | The constructed store is valid, well-keyed, and equal to the seeded state. |
| `Storage.MemStorage.AddAll` | server/storage.ts:88 | The `forEach` over the seeds moves the store as the run of creates does and keeps well-keyedness. |
| `Storage.MemStorage.GetUser` | server/storage.ts:91-93 | Returns a user exactly when the id is stored, and then the user stored under that id, whose own id is that id. |
| `Storage.MemStorage.GetUserByUsername` | server/storage.ts:95-99 | The linear scan returns the first user, in insertion order, with that username, or nothing (see `FirstWithUsernameMeaning`). |
| `Storage.MemStorage.CreateUser` | server/storage.ts:101-106 | Moves the store and returns the user exactly as `createUser` is specified above, and keeps the invariant. |
| `Storage.MemStorage.GetProducts` | server/storage.ts:108-110 | Returns the listing in key-insertion order, one product per stored entry. |
| `Storage.MemStorage.GetProduct` | server/storage.ts:112-114 | Returns a product exactly when the id is stored, and then the product stored under it. |
| `Storage.MemStorage.CreateProduct` | server/storage.ts:116-122 | Moves the store and returns the product exactly as `createProduct` is specified above, and keeps the invariant and well-keyedness. |
| `Storage.MemStorage.UpdateProduct` | server/storage.ts:124-131 | On an absent id, returns "Product not found" and leaves all fields unchanged. Otherwise it moves the store and returns the merged record as specified above. |
| `Storage.MemStorage.DeleteProduct` | server/storage.ts:133-135 | Moves the store exactly as `deleteProduct` is specified above. |
| `Routes.ServeList` | server/routes.ts:10-13 | GET `/api/products` answers 200 with exactly the store's listing. |
| `Routes.IsAdmin` | server/routes.ts:23 | `req.user?.isAdmin` is truthy (the same test opens the PATCH and DELETE handlers at lines 33 and 41 of server/routes.ts): a requester is logged in and carries the admin flag. `AdminGate` states that the three mutating routes answer 403 exactly to the others. |
| `Routes.Lookup` | server/routes.ts:16 | `getProduct(parseInt(req.params.id))`: the record stored under a parsed id, and nothing for NaN. `ServeShow` states that GET answers 404 exactly when it is None. |
| `Routes.ServeShow` | server/routes.ts:15-19 | GET `/api/products/:id` answers 404 "Product not found" exactly when the id is NaN or not stored. Otherwise it answers 200 with the stored record. |
| `Routes.ServeCreate` | server/routes.ts:22-30 | The POST handler answers and changes the store exactly as `HandleCreate` decides. |
| `Routes.ServeUpdate` | server/routes.ts:32-38 | The PATCH handler answers and changes the store exactly as `HandleUpdate` decides. |
| `Routes.ServeDelete` | server/routes.ts:40-45 | The DELETE handler answers and changes the store exactly as `HandleDelete` decides. |
| `Routes.HandleCreate` | server/routes.ts:22-30 | The POST decision: 403 with the store unchanged for a non-admin, else 400 with the store unchanged when validation fails, else `createProduct` on the validated fields and 201 with the product. |
| `Routes.HandleUpdate` | server/routes.ts:32-38 | The PATCH decision: 403 for a non-admin, else `updateProduct` on the parsed id with the raw body. Its failure (also for NaN) escapes as `Unhandled`, and its success is answered 200 with the record. |
| `Routes.HandleDelete` | server/routes.ts:40-45 | The DELETE decision: 403 for a non-admin, else `deleteProduct` on the parsed id (nothing for NaN) and 204. |
| `Routes.AdminGate` | server/routes.ts:21-45 | POST, PATCH and DELETE answer 403 to an absent or non-admin requester and leave the store untouched. An admin never gets 403. |
| `Routes.CreateOutcomes` | server/routes.ts:25-29 | For an admin, an invalid body gets 400 and the store is unchanged. A valid body gets 201 with the created product: it has a fresh id, it is the only addition to the listing (one more product), and GET by its id finds it. |
| `Routes.UpdateOutcomes` | server/routes.ts:35-37 | For an admin, a present id gets 200 with the merged record, and only that product changes: users and both counters stay as they were. An absent id or NaN lets the store's "Product not found" escape with the store unchanged. PATCH never answers 404. |
| `Routes.DeleteOutcomes` | server/routes.ts:43-44 | For an admin, the answer is 204 whether or not the id existed. The product is then absent and the others are unchanged. Repeating the request again gets 204 and changes nothing. |

## Left out

- The session store (`memorystore` with its daily `checkPeriod` sweep, server/storage.ts:37-39) is a foreign library with a background timer.
- The `async`/`Promise` wrapping: the model treats every store call as one atomic step. `updateProduct` awaits `getProduct` (server/storage.ts:125) between its lookup and its write (server/storage.ts:128-129), so another request, such as a DELETE of the same id, can run in that gap. The later `set` then puts the deleted record back, at the end of the listing (`SetAfterDelete`). This interleaving is not modelled.
- Express plumbing (`app.get`/`post`/`patch`/`delete`, `res.json`/`send`, `createServer`, `setupAuth`): only each handler's decision and store effect are modelled.
- `insertProductSchema.safeParse` lives in a schema module that is not part of this model. It is a `Validator` parameter, and the 400 body's error detail is abstracted to `ValidationErrorJson`.
- `parseInt` of the route parameter is abstracted to `RouteId`: an integer or NaN. NaN matches no stored key, so GET answers 404, DELETE deletes nothing, and PATCH lets "Product not found" escape.
- Request bodies are modelled as objects over the product's own keys with values of the right types. Other keys and mistyped values in a raw JSON body are not modelled.
- `Unhandled` does not fix a status code for the escaped PATCH error. The rejected promise is not caught, so what happens depends on the Express version and the Node.js runtime: the client may get an error status, or the unhandled rejection may end the process. `UpdateOutcomes` says the store is unchanged in this case, which holds only while the process keeps running.
- The module-level singleton `storage` (server/storage.ts:138) is replaced by a `MemStorage` object passed to each handler.
- The `IStorage` interface has one implementation, which is modelled directly.
- Ids and prices are unbounded integers. JavaScript's loss of integer precision above 2^53 is not modelled.
- `ProductCodes.ProductCode` takes a non-negative id. The counter starts at 1 and only increases, so the `String` rendering of negative or fractional numbers is never reached.
- An `InsertUser` without an admin flag is modelled with `isAdmin` false, because only the flag's truthiness is ever read.
- The client pages (client/src/pages/catalog.tsx, client/src/pages/product.tsx) are React UI with floating-point price formatting.
