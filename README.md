# ProductCatalogApp in Dafny

A model of the core of ProductCatalogApp, an ASP.NET Core MVC product catalog
backed by Entity Framework Core and ASP.NET Identity. The model covers:

- the `Product` and `Category` records and the catalog view model;
- the public and the admin listing, with the date-window visibility rule, the
  category filter and the name-sorted category drop-down;
- the Details, Create, Edit and Delete actions of `ProductsController`, and the
  per-action authorisation attributes as a lookup table;
- the store rules configured in `ApplicationDbContext.OnModelCreating`: unique
  category names, the cascade from a category to its products, and the
  restriction on deleting a user who created products;
- `DbInitializer.InitializeAsync`, the guarded seeding of roles, the admin
  account, five categories and three sample products.

Modules, one per part of the program:

- `Models` (`models.dfy`): the entity datatypes. A `DateTime` is an integer
  count of ticks, a `decimal` price is an opaque `Decimal(units, scale)`.
- `Queries` (`queries.dfy`): `Where`, `FirstOrDefault` and `OrderBy` by name
  over sequences of rows.
- `Data` (`data.dfy`): the tables as a value (`Tables`), the constraints every
  committed state satisfies (`Consistent`), one pure function per kind of save
  (`InsertProduct`, `UpdateProduct`, `RemoveProduct`, `RemoveCategory`,
  `RemoveUser`, ...), and the class `ApplicationDbContext`, whose fields are the
  tables and whose methods perform the saves in place. Each method is proved to
  leave `Snapshot()` equal to the matching pure function of the old snapshot, and
  to keep `Valid()`.
- `Seeding` (`seeding.dfy`): the four seeding steps as functions, their
  composition `Initialize`, and the imperative `InitializeAsync` (with its loop
  over the role names), proved equal to `Initialize`.
- `Controllers` (`controllers.dfy`): the listings and pages as functions of the
  tables, the three posts as functions (`CreateResult`, `EditResult`,
  `DeleteConfirmedResult`), `Dispatch` for one request behind the
  authorisation table, and the `ProductsController` class whose `Create`,
  `Edit`, `DeleteConfirmed` and `Invoke` methods change its context and are
  proved equal to those functions.

External inputs are parameters: the clock (`Clock(Now, UtcNow)` for the
controller, `now` for seeding), the caller (`Caller`: anonymous, or signed in
with an id and roles), `ModelState.IsValid` (a `valid` flag), and, for the
admin account, the id the identity store generates (`newAdminId`) and whether
`UserManager.CreateAsync` succeeds (`createSucceeds`).

A save that violates a foreign key (a product whose `CategoryId` or
`CreatedByUserId` names no row) is refused by the database; it is modelled as
a failed save that writes nothing, and the controller answers it with
`ServerError`, the unhandled-exception page.

## Model

| member | source | states |
|---|---|---|
| Models.NewProduct | Models/Product.cs:9-24 | a new product has an empty Name and CreatedByUserId (never null), no EndDate, zero Id, CategoryId, Duration, StartDate and Price, and CreationDate equal to the clock reading at construction |
| Models.IsLive | Controllers/ProductsController.cs:34 | the public visibility rule: a product is live at an instant when it has started by then and either has no EndDate or ends no earlier, both bounds inclusive |
| Models.AddDays | Data/DbInitializer.cs:89-93 | adding a non-negative (positive) number of days never moves a time back (moves it forward), and conversely |
| Models.OpenEndedStaysLive | Models/Product.cs:21 | a product without an EndDate that is visible at some instant stays visible at every later instant |
| Models.DurationDoesNotAffectVisibility | Models/Product.cs:16-21 | Duration is independent of the date window: changing it never changes visibility |
| Queries.Where | Controllers/ProductsController.cs:34-39 | the result holds exactly the elements of the input that satisfy the condition, and is no longer than the input |
| Queries.WhereAppend | Controllers/ProductsController.cs:34-39 | filtering a concatenation is concatenating the filtered parts (order is kept) |
| Queries.WhereIdempotent | Controllers/ProductsController.cs:34-39 | filtering twice by the same condition equals filtering once |
| Queries.FirstOrDefault | Controllers/ProductsController.cs:99-102 | None exactly when no element matches; otherwise the first matching element |
| Queries.NameAtMostTotal | Controllers/ProductsController.cs:43 | any two names are ordered one way or the other |
| Queries.NameAtMostTransitive | Controllers/ProductsController.cs:43 | the name order is transitive |
| Queries.NameAtMostAntisymmetric | Controllers/ProductsController.cs:43 | names ordered both ways are equal |
| Queries.InsertByName | Controllers/ProductsController.cs:43 | inserting into a name-sorted list keeps it sorted and adds exactly that category |
| Queries.OrderByName | Controllers/ProductsController.cs:43 | the categories come back sorted by name and as a permutation of the input |
| Data.FindProduct | Controllers/ProductsController.cs:147 | finds a product with the id exactly when one is stored |
| Data.FindCategory | Controllers/ProductsController.cs:33 | resolves a category id exactly when a category has it |
| Data.FindUser | Controllers/ProductsController.cs:66 | resolves a creator id exactly when a user has it |
| Data.FindCategoryByName | Data/DbInitializer.cs:68-72 | finds a category with the name exactly when one is stored |
| Data.FindUserByEmail | Data/DbInitializer.cs:30 | finds a user with the email exactly when one is stored |
| Data.Consistent | Data/ApplicationDbContext.cs:25-41 | the constraints of every committed state: distinct ids in each table, distinct category names, every product's CategoryId and CreatedByUserId resolve, ids below the identity counters, user roles exist |
| Data.InsertProductEffect | Data/ApplicationDbContext.cs:30-41 | an insert appends exactly one row, with an id no stored product has, and succeeds exactly when its category and creator exist; a refused insert changes nothing; the constraints hold afterwards |
| Data.InsertProductsConsistent | Data/DbInitializer.cs:120-121 | a batch insert keeps the constraints |
| Data.UpdateProductEffect | Controllers/ProductsController.cs:179-180 | an update replaces, in its position, only the row with the product's id and keeps every other row where it was; a refused update changes nothing; the constraints hold |
| Data.RemoveProductEffect | Controllers/ProductsController.cs:226-227 | a delete removes exactly the rows with the id; a missing id changes nothing; deleting twice is deleting once; categories, users and constraints are kept |
| Data.RemoveCategoryEffect | Data/ApplicationDbContext.cs:30-34 | the cascade: deleting a category removes exactly the products with that CategoryId, keeps every other product, and keeps the constraints |
| Data.RemoveUserEffect | Data/ApplicationDbContext.cs:37-41 | the restriction: deleting a user fails, changing nothing, exactly when some product names it as creator; otherwise only that user goes |
| Data.BatchNamesUnique | Data/ApplicationDbContext.cs:25-27 | appending a batch to a list with distinct names keeps the names distinct exactly when the batch names are pairwise distinct and none is already in the list |
| Data.InsertCategoriesConsistent | Data/ApplicationDbContext.cs:25-27 | the unique index on Name: a batch is accepted exactly when its names are pairwise distinct and none is already stored; a refused batch changes nothing; an accepted batch is appended with fresh ids; the constraints hold |
| Data.InsertUserConsistent | Data/DbInitializer.cs:39 | a new account with a fresh id keeps the constraints |
| Data.AddToRoleConsistent | Data/DbInitializer.cs:42 | adding an existing role to a user keeps the constraints |
| Data.ApplicationDbContext.constructor | Data/ApplicationDbContext.cs:10-13 | a context over a freshly migrated database: empty, consistent tables with both identity counters at 1 |
| Data.ApplicationDbContext.SaveNewProduct | Controllers/ProductsController.cs:129-130 | the tables become InsertProduct of the old tables; the constraints are kept |
| Data.ApplicationDbContext.SaveNewProducts | Data/DbInitializer.cs:120-121 | the tables become InsertProducts of the old tables (all rows or none) |
| Data.ApplicationDbContext.SaveProduct | Controllers/ProductsController.cs:179-180 | the tables become UpdateProduct of the old tables |
| Data.ApplicationDbContext.DeleteProduct | Controllers/ProductsController.cs:226-227 | the tables become RemoveProduct of the old tables |
| Data.ApplicationDbContext.SaveNewCategories | Data/DbInitializer.cs:63-64 | the tables become InsertCategories of the old tables |
| Data.ApplicationDbContext.DeleteCategory | Data/ApplicationDbContext.cs:30-34 | the tables become RemoveCategory (with its cascade) of the old tables |
| Data.ApplicationDbContext.DeleteUser | Data/ApplicationDbContext.cs:37-41 | the tables become RemoveUser (with its restriction) of the old tables |
| Data.ApplicationDbContext.SaveNewRole | Data/DbInitializer.cs:24 | the role is added; nothing else changes |
| Data.ApplicationDbContext.SaveNewUser | Data/DbInitializer.cs:39 | the account is appended; nothing else changes |
| Data.ApplicationDbContext.SaveUserRole | Data/DbInitializer.cs:42 | the user with the id gains the role; nothing else changes |
| Seeding.SeedProducts | Data/DbInitializer.cs:82-117 | three products in Electronics, Books and Clothing, created by the admin, each created before it starts, started by the seeding instant and ending after it, so live then |
| Seeding.RolesToCreate | Data/DbInitializer.cs:19-26 | the roles created are exactly the seed roles that did not exist yet |
| Seeding.SeedRolesStep | Data/DbInitializer.cs:19-26 | afterwards Admin and User both exist; every existing role is kept; the roles added are exactly those that were missing; nothing but the roles changes |
| Seeding.SeedAdminStepEffect | Data/DbInitializer.cs:29-49 | an existing account with the admin email leaves everything unchanged; otherwise a successful creation appends exactly one account with that email in the Admin role, and a failed one changes nothing; the step fails exactly when the email is unknown and creation fails; the constraints hold |
| Seeding.AdminStepFindsAdmin | Data/DbInitializer.cs:29-49 | the id used for the sample products belongs to an account with the admin email |
| Seeding.SeedCategoryNamesDistinct | Data/DbInitializer.cs:54-61 | the five seed names are pairwise distinct |
| Seeding.NewSeedCategories | Data/DbInitializer.cs:54-64 | the five new rows have distinct names and include every seed name |
| Seeding.SeedCategoriesStepEffect | Data/DbInitializer.cs:52-65 | the five categories are inserted only into an empty table; a non-empty table is left untouched; the step never fails |
| Seeding.SeedCategoryIds | Data/DbInitializer.cs:68-77 | the lookups succeed exactly when all five names are present, and give the ids of the stored categories named Electronics, Books and Clothing |
| Seeding.SeedProductsStepEffect | Data/DbInitializer.cs:80-121 | the three sample products, numbered from the identity counter with the given category ids and creator, are inserted only into an empty table; a non-empty table is left untouched; the step never fails |
| Seeding.InitializeConsistent | Data/DbInitializer.cs:13-123 | a run keeps the database constraints |
| Seeding.InitializeSeeds | Data/DbInitializer.cs:18-121 | a run that completes leaves both roles, the admin account, the five categories and some products |
| Seeding.InitializeOnSeededIsNoOp | Data/DbInitializer.cs:22-80 | on a seeded database every guard skips: the run succeeds and changes nothing, whatever the clock and the identity store do |
| Seeding.InitializeIdempotent | Data/DbInitializer.cs:13-123 | after a run that completes, a second run changes nothing |
| Seeding.InitializeFailures | Data/DbInitializer.cs:44-77 | a run succeeds exactly when the admin account exists or can be created and the category table is empty or holds all five names; it fails with AdminCreationFailed exactly when the account is missing and cannot be created, and the run then stops with only the roles seeded; it fails with CategoriesMissing only for a non-empty category table, which is then left as it was |
| Seeding.InitializeProductsLive | Data/DbInitializer.cs:80-121 | seeding into an empty product table leaves three products, each live at the seeding instant and created by the admin account |
| Seeding.InitializeProductCategories | Data/DbInitializer.cs:68-117 | seeding into an empty product table puts the Laptop in the category named Electronics, the Book in Books and the T-Shirt in Clothing |
| Seeding.InitializeEmpty | Data/DbInitializer.cs:13-123 | on an empty database with a successful account creation: both roles, one admin account in the Admin role, the five categories with ids 1 to 5, three live products with ids 1 to 3, and the constraints hold |
| Seeding.SeedRolesAsync | Data/DbInitializer.cs:19-26 | the loop leaves the tables equal to SeedRolesStep of the old tables and returns the roles it created, in order |
| Seeding.SeedAdminAsync | Data/DbInitializer.cs:29-49 | the tables and the admin id become SeedAdminStep of the old tables |
| Seeding.InitializeAsync | Data/DbInitializer.cs:13-123 | outcome and tables equal Initialize of the old tables; the constraints are kept |
| Controllers.Authorize | Controllers/ProductsController.cs:15-222 | Index and Details admit anyone; every other action admits exactly the signed-in callers with the Admin role |
| Controllers.Include | Controllers/ProductsController.cs:99-102 | the loaded category (creator) is present exactly when the foreign key resolves, and is then the row with that id |
| Controllers.CategoryOptions | Controllers/ProductsController.cs:43-54 | one option per category, sorted by name, carrying its id and name; an option is selected exactly when its id is the filter |
| Controllers.OptionsSelection | Controllers/ProductsController.cs:49-54 | no option is selected without a filter; at most one is selected; exactly one when the filter names an existing category |
| Controllers.IdsUniqueInSorted | Controllers/ProductsController.cs:43 | sorting keeps the category ids distinct |
| Controllers.WhereInFilter | Controllers/ProductsController.cs:37-40 | the result holds exactly the products of the chosen category, or all without a filter |
| Controllers.IndexPage | Controllers/ProductsController.cs:29-58 | the listing holds exactly the stored products that are live now (both bounds inclusive) and in the filter, each with its category; no live product is dropped; the drop-down is CategoryOptions |
| Controllers.AdminIndexPage | Controllers/ProductsController.cs:62-90 | the listing holds exactly the stored products in the filter, whatever their dates, each with its category and creator |
| Controllers.ListingsUnfiltered | Controllers/ProductsController.cs:64-74 | without a filter the admin listing has a row for every stored product in storage order, and every public row is also an admin row |
| Controllers.DetailsPage | Controllers/ProductsController.cs:94-108 | NotFound exactly for a missing or unknown id; otherwise the product with that id whatever its dates, with category and creator; the GET Delete page (lines 201-215) is the same function |
| Controllers.CreateFormPage | Controllers/ProductsController.cs:112-117 | an empty form whose drop-down is every category ordered by name, with none selected |
| Controllers.EditFormPage | Controllers/ProductsController.cs:142-154 | NotFound exactly for a missing or unknown id; otherwise the stored product and the drop-down with its category selected |
| Controllers.ProductExists | Controllers/ProductsController.cs:234-237 | true exactly when some stored product has the id |
| Controllers.BindCreate | Controllers/ProductsController.cs:123 | only Name, StartDate, Duration, Price and CategoryId come from the post; EndDate stays absent, CreatedByUserId empty |
| Controllers.BindEdit | Controllers/ProductsController.cs:160 | the five Create properties and the posted Id come from the post; EndDate stays absent, CreatedByUserId empty |
| Controllers.CopyEditable | Controllers/ProductsController.cs:173-177 | the five editable properties come from the post; Id, CreationDate, EndDate and CreatedByUserId stay |
| Controllers.CreateEffect | Controllers/ProductsController.cs:123-137 | a valid post adds exactly one product at the end, with a new id, CreationDate now, the caller as creator, the five posted properties and no EndDate, and no other table changes; it succeeds exactly when the model is valid and the category and caller exist; otherwise nothing changes, and an invalid model re-shows the form with the bound product and its posted category selected |
| Controllers.EditEffect | Controllers/ProductsController.cs:160-197 | the edit succeeds exactly when the model is valid, the route id equals the posted Id, a product has that id and the posted category exists; route id different from the posted Id, or an unknown id: NotFound and no change; invalid model: the form with the bound product and its posted category selected, and no change; success: only the product with the id changes, only in its five editable properties, every other product stays and no other table changes |
| Controllers.DeleteConfirmedEffect | Controllers/ProductsController.cs:221-231 | always redirects; removes exactly the product with the id, or nothing when there is none, and changes no other table; deleting twice is deleting once |
| Controllers.DispatchEffect | Controllers/ProductsController.cs:15-231 | a request is Denied exactly when the authorisation table refuses it, and then nothing changes; GET actions change nothing; every request keeps the constraints |
| Controllers.ProductsController.constructor | Controllers/ProductsController.cs:21-25 | the controller works on the context it is given |
| Controllers.ProductsController.Create | Controllers/ProductsController.cs:123-137 | result and new tables equal CreateResult of the old tables |
| Controllers.ProductsController.Edit | Controllers/ProductsController.cs:160-197 | result and new tables equal EditResult of the old tables |
| Controllers.ProductsController.DeleteConfirmed | Controllers/ProductsController.cs:221-231 | result and new tables equal DeleteConfirmedResult of the old tables |
| Controllers.ProductsController.Invoke | Controllers/ProductsController.cs:15-231 | result and new tables equal Dispatch of the old tables |

## Left out

- The `DbUpdateConcurrencyException` branch of Edit (Controllers/ProductsController.cs:182-188): it arises only with concurrent writers, and the model is sequential.
- Denied callers: one `Denied` result; whether the framework redirects to the login page or answers 403 is decided by middleware outside these files.
- `ModelState` validation, `[Bind]` as a framework feature, antiforgery tokens, and `SelectList`/`ViewBag` rendering: validity is an input flag, binding is written out in `BindCreate`/`BindEdit`, and views are plain records.
- `SelectListItem.Value` is kept as the category's integer id rather than its decimal string.
- Data.Consistent, Data.InsertCategoriesConsistent, Data.FindCategoryByName: category names are compared by exact character equality, both in the unique index on Name and in the seeding lookups; a database collation that equates names differing in case or accents is not modelled.
- Controllers.CategoryOptions: sorts by ordinal character order; the database collation used by `OrderBy` on the server is not modelled.
- Controllers.IndexPage, Controllers.AdminIndexPage: the order of each listing is the storage order of the table; the controller's product queries have no OrderBy.
- `context.Database.MigrateAsync` (Data/DbInitializer.cs:16): schema migration is not part of this model; the initial state is given.
- Data.InsertProductEffect, Controllers.CreateEffect: a refused insert leaves the product identity counter where it was; an identity column in SQL Server uses up its value even when the insert fails, so the gaps in product ids that refused creates leave are not modelled.
- UserManager and RoleManager internals: password hashing (the admin password is not modelled), email and role-name normalisation, and id generation. `FindByEmailAsync` is the first user with that exact email, and `RoleExistsAsync` is exact membership in the role set, so names differing only in case count as different; a store holding two accounts with the admin email returns the first here, where the identity store expects at most one match; `CreateAsync` is the `createSucceeds` flag.
- Seeding.InitializeAsync: the error message text of the two exceptions is not modelled, only which failure occurred.
- Program.cs (service registration, identity options, middleware, and the seeding call whose exception is logged and swallowed), Controllers/HomeController.cs, Models/ErrorViewModel.cs and Models/ProductViewModel.cs are not part of this model.
- `Category.Products` (Models/Category.cs:14): the navigation collection is not stored; it is the products whose CategoryId is the category's id.
- `DateTime` range limits: ticks are unbounded integers, so `AddDays` cannot overflow; `DateTime.Now` versus `DateTime.UtcNow` are two independent clock readings.
- `decimal` arithmetic: prices are only copied, never computed with.
- Asynchronous execution: every `await` is a sequential step.
