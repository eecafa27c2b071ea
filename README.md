# Alpha Tower sales system: service layer model

This project models the service layer of the Alpha Tower sales backend:
the use cases that read and change the **products** and **users** tables.
Each service looks a record up, throws an `AppError` with a fixed message
when a check fails, and otherwise overwrites fields, inserts or removes a
record and saves it.

The model replaces the object-relational repository by an abstract table,
a `map<Id, Record>` keyed by the record's primary key:

- `results.dfy` (module `Results`): `AppError` reduced to its message, and
  `Result`/`Outcome` values standing for "returned" or "threw".
- `repository.dfy` (module `Repository`): ids, a `Step` value pairing a
  service's result with the table it leaves behind, the generation of an
  unused id, and the repository's `find()` as an enumeration of the table
  in an order the store chooses.
- `products.dfy` (module `Products`): the `Product` record, the product
  services `Show`, `List`, create and update, and the `ProductTable` class
  whose methods change the table in place.
- `users.dfy` (module `Users`): the `User` record, the user services `Show`,
  `List`, update and delete, and the `UserTable` class.

The read-only services (`Show`, `List`) are functions of the table.  The
services that change the table are methods of the table class.  Each of those
methods is proved equal, result and new table, to a transition function
(`CreateStep`, `UpdateStep`, `DeleteStep`).  The contracts of these
functions state what each service promises:

- which error it reports, and in what order the checks run;
- that a failure leaves the table unchanged;
- exactly which fields a success overwrites, and that nothing else changes;
- that the "every record sits under its own id" invariant is preserved;
- that name or e-mail uniqueness is preserved.

Two behaviours of the update services are worth stating outright:

- An update that keeps the record's current name or e-mail is rejected with
  the conflict message, because the check also looks at the record being
  updated (src/modules/products/services/UpdateProductService.ts:30-34,
  src/modules/users/services/UpdateUserService.ts:23-27).
  `UpdateKeepingNameRejected` and `UpdateKeepingEmailRejected` state this.
- Updates overwrite every request field and merge nothing.

## Model

| member | source | states |
|---|---|---|
| `Products.Show` | src/modules/products/services/ShowProductService.ts:11-21 | succeeds exactly when the id is stored, then returns the stored product (whose id is the requested one); otherwise fails with "Product not found." |
| `Products.List` | src/modules/products/services/ListProductService.ts:6-12 | has no error path; the list has one entry per stored product, contains every stored product and nothing else, and lists no id twice |
| `Products.CreateStep` | src/modules/products/services/CreateProductService.ts:14-38 | fails with "There is already one product with this name" exactly when a product has that name, and then changes nothing; otherwise adds one product under the new unused id with the four given fields, keeps all earlier products, grows the table by one, returns what it stored, and preserves name uniqueness |
| `Products.ProductTable.Create` | src/modules/products/services/CreateProductService.ts:20-37 | the in-place create (name check, create record, save under a generated unused id) yields exactly `CreateStep`'s result and table |
| `Products.UpdateStep` | src/modules/products/services/UpdateProductService.ts:15-44 | unknown id fails with "Product not found." even when the name is also taken; a name held by any product (the target included) fails with the conflict message; failures change nothing; on success the product keeps its id, name, description, price and quantity all take the request values, no other product changes, the stored product is the one returned, and name uniqueness is preserved |
| `Products.ProductTable.Update` | src/modules/products/services/UpdateProductService.ts:22-43 | the field-by-field overwrite followed by save yields exactly `UpdateStep`'s result and table |
| `Products.CreatedIsShown` | src/modules/products/services/CreateProductService.ts:28-37 | after a successful create, showing the new id returns a product with the given field values |
| `Products.SecondCreateConflicts` | src/modules/products/services/CreateProductService.ts:22-35 | a second create with a name just used fails with the conflict message and leaves the table, first product included, unchanged |
| `Products.UpdateKeepingNameRejected` | src/modules/products/services/UpdateProductService.ts:30-34 | updating a product to its own current name fails with the conflict message and changes nothing |
| `Products.UpdatedIsShown` | src/modules/products/services/UpdateProductService.ts:36-43 | after a successful update, showing the product returns exactly the request's values under the same id |
| `Users.Show` | src/modules/users/services/ShowUserService.ts:7-16 | succeeds exactly when the id is stored, then returns the stored user (never an absent value); otherwise fails with "User not found." |
| `Users.List` | src/modules/users/services/ListUserService.ts:6-12 | has no error path; the list has one entry per stored user, contains every stored user and nothing else, and lists no id twice |
| `Users.UpdateStep` | src/modules/users/services/UpdateUserService.ts:15-38 | unknown id fails with "User not found." first; an e-mail held by any user (the target included) fails with "Email address already used."; failures change nothing; on success name and e-mail take the request values, the password becomes the hash of the request password at cost 8, id and avatar stay, no other user changes, the stored user is the one returned, and e-mail uniqueness is preserved |
| `Users.UserTable.Update` | src/modules/users/services/UpdateUserService.ts:16-37 | the checks, then hashing, then the field-by-field overwrite and save yield exactly `UpdateStep`'s result and table |
| `Users.DeleteStep` | src/modules/users/services/DeleteUserService.ts:10-19 | returns no value; fails with "User not found." exactly when the id is unknown, changing nothing; otherwise that user is gone, the table shrinks by one, and every remaining user is unchanged |
| `Users.UserTable.Delete` | src/modules/users/services/DeleteUserService.ts:11-18 | looking the user up and removing the record found yields exactly `DeleteStep`'s outcome and table |
| `Users.SecondDeleteNotFound` | src/modules/users/services/DeleteUserService.ts:12-18 | deleting the same id a second time fails with "User not found." and changes nothing |
| `Users.UpdateKeepingEmailRejected` | src/modules/users/services/UpdateUserService.ts:23-27 | updating a user with its own current e-mail fails with "Email address already used." and changes nothing |
| `Users.UpdatedIsShown` | src/modules/users/services/UpdateUserService.ts:29-37 | after a successful update, showing the user returns the new name and e-mail, the hashed password and the old avatar, under the same id |
| `Repository.FreshId` | src/modules/products/services/CreateProductService.ts:28-35 | for any set of stored keys there is a key outside it, so saving a new product always finds an unused id |
| `Repository.Find` | src/modules/products/services/ListProductService.ts:9 | `find()` yields one entry per key, every stored record and only stored records; when no two keys hold the same record, no record is listed twice |

## Left out

- HTTP controllers, route tables, request validation, authentication and server bootstrap are not modelled.  They translate requests and status codes and sit outside the services.
- Persistence, transactions and id generation inside the store are not modelled.  The table is a map; `findOne`, `findById`, `findByName` and `findByEmail` are exact-match lookups on it; a new id is any key not yet stored.
- The password hashing library is not modelled.  The hash function is a parameter of the user update and is used as given.
- Prices and quantities are JavaScript numbers.  The services only store and return them, so they are an opaque type; the two-decimal price rule lives in request validation and is not modelled.
- The routes accept a missing description, but the services declare it a string.  The model takes the services' type.
- Concurrency is not modelled: each service call is atomic, so the check-then-act race between concurrent requests is out of scope.
- Creating users, deleting products and updating avatars are outside the modelled services.
- Records are values, not entity objects.  The returned record equals the stored one, but object identity and aliasing of the entity instance are not modelled.
- Asynchrony (`await`) is not modelled; each service is one sequential step.
- Users.UpdateStep: states that the stored password is the hash, not when hashing happens.  The method `Users.UserTable.Update` does hash only after both checks pass, but a pure hash has no observable effect, so no contract distinguishes the order.
- Products.List: the order of the list is whatever the store's scan yields; the model fixes one arbitrary enumeration and promises nothing about its order.
- Users.List: the order of the list is whatever the store's scan yields; the model fixes one arbitrary enumeration and promises nothing about its order.
- The user update service imports `AppError` from `@shared/erros/AppError`, while the other services and src/shared/http/app.ts:7 import it from `@shared/errors/AppError`; src/shared/http/server.ts:5 uses the `erros` path, as the user update does.  The model treats both as one error type and does not model how either error handler (src/shared/http/app.ts:20-33, src/shared/http/server.ts:15-27) classifies errors.
