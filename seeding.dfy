/** DbInitializer.InitializeAsync: guarded seeding of the roles, the admin
    account, the five categories and three sample products. Every step first
    checks whether its data is already there, so a run on a seeded database
    changes nothing. */
module Seeding {
  import opened Models
  import opened Queries
  import opened Data

  const AdminEmail: string := "admin@productcatalog.com"
  const SeedRoles: seq<string> := ["Admin", "User"]
  const SeedCategoryNames: seq<string> := ["Electronics", "Books", "Clothing", "Home & Kitchen", "Sports"]

  /** The three sample products, dated relative to `now`: each was created
      before it started, has started by `now` and ends after `now`. */
  function SeedProducts(now: Time, electronicsId: int, booksId: int, clothingId: int, adminId: string)
    : (ps: seq<Product>)
    ensures |ps| == 3
    ensures ps[0].CategoryId == electronicsId && ps[1].CategoryId == booksId
            && ps[2].CategoryId == clothingId
    ensures forall p :: p in ps ==>
              && p.CreatedByUserId == adminId
              && p.CreationDate < p.StartDate <= now
              && p.EndDate.Some? && now <= p.EndDate.value
              && IsLive(p, now)
  {
    [ Product(0, "Laptop", Decimal(99999, 2), AddDays(now, -10), 30, electronicsId,
              AddDays(now, -15), Some(AddDays(now, 20)), adminId),
      Product(0, "Book", Decimal(1999, 2), AddDays(now, -5), 20, booksId,
              AddDays(now, -10), Some(AddDays(now, 10)), adminId),
      Product(0, "T-Shirt", Decimal(1499, 2), AddDays(now, -2), 10, clothingId,
              AddDays(now, -7), Some(AddDays(now, 8)), adminId) ]
  }

  /** The roles of the first step that do not exist yet, in the order they are created. */
  function RolesToCreate(roles: set<string>): (created: seq<string>)
    ensures forall r :: r in created <==> r in SeedRoles && r !in roles
  {
    Where(SeedRoles, (r: string) => r !in roles)
  }

  /** Step 1: both roles exist afterwards; existing roles are kept. */
  function SeedRolesStep(t: Tables): (r: Tables)
    ensures "Admin" in r.roles && "User" in r.roles
    ensures r.roles - t.roles == set role | role in RolesToCreate(t.roles)
    ensures t.roles <= r.roles && r.(roles := t.roles) == t
  {
    t.(roles := t.roles + {"Admin", "User"})
  }

  /** The result of step 2: its outcome, the tables, and the admin account's id. */
  datatype AdminStep = AdminStep(outcome: Outcome, db: Tables, adminId: string)

  /** Step 2: the admin account is looked up by email and created only when
      missing; a failed creation ends the run. */
  function SeedAdminStep(t: Tables, newAdminId: string, createSucceeds: bool): (r: AdminStep)
  {
    var admin := FindUserByEmail(t.users, AdminEmail);
    if admin.Some? then AdminStep(Pass, t, admin.value.Id)
    else if !createSucceeds then AdminStep(Fail(AdminCreationFailed), t, "")
    else AdminStep(Pass, AddToRole(InsertUser(t, User(newAdminId, AdminEmail, {})), newAdminId, "Admin"),
                   newAdminId)
  }

  /** Step 3: the five categories, only into an empty table. */
  function SeedCategoriesStep(t: Tables): (r: (Outcome, Tables))
  {
    if t.categories == [] then InsertCategories(t, SeedCategoryNames) else (Pass, t)
  }

  /** Every one of the five named categories is in the table. */
  predicate SeedCategoriesPresent(cs: seq<Category>) {
    && HasCategoryNamed(cs, "Electronics") && HasCategoryNamed(cs, "Books")
    && HasCategoryNamed(cs, "Clothing") && HasCategoryNamed(cs, "Home & Kitchen")
    && HasCategoryNamed(cs, "Sports")
  }

  /** A category with this id and this name is stored. */
  predicate NamedCategory(cs: seq<Category>, id: int, name: string) {
    exists c :: c in cs && c.Id == id && c.Name == name
  }

  /** The lookups after step 3: the ids of Electronics, Books and Clothing when
      all five named categories are present. */
  function SeedCategoryIds(cs: seq<Category>): (r: Option<(int, int, int)>)
    ensures r.Some? <==> SeedCategoriesPresent(cs)
    ensures r.Some? ==> && NamedCategory(cs, r.value.0, "Electronics")
                        && NamedCategory(cs, r.value.1, "Books")
                        && NamedCategory(cs, r.value.2, "Clothing")
  {
    var electronics := FindCategoryByName(cs, "Electronics");
    var books := FindCategoryByName(cs, "Books");
    var clothing := FindCategoryByName(cs, "Clothing");
    var homeKitchen := FindCategoryByName(cs, "Home & Kitchen");
    var sports := FindCategoryByName(cs, "Sports");
    if electronics.None? || books.None? || clothing.None? || homeKitchen.None? || sports.None? then
      None
    else
      Some((electronics.value.Id, books.value.Id, clothing.value.Id))
  }

  /** Step 4: the three products, only into an empty table. */
  function SeedProductsStep(t: Tables, now: Time, ids: (int, int, int), adminId: string)
    : (r: (Outcome, Tables))
  {
    if t.products == [] then InsertProducts(t, SeedProducts(now, ids.0, ids.1, ids.2, adminId))
    else (Pass, t)
  }

  /** The whole run on a snapshot of the tables: the outcome and the tables
      afterwards. `createSucceeds` is what UserManager.CreateAsync reports for
      the admin account; `newAdminId` is the id it generates. A failed step
      stops the run, keeping what the earlier steps saved. */
  function Initialize(t: Tables, now: Time, newAdminId: string, createSucceeds: bool)
    : (r: (Outcome, Tables))
  {
    var a := SeedAdminStep(SeedRolesStep(t), newAdminId, createSucceeds);
    if a.outcome.Fail? then (a.outcome, a.db) else SeedCatalog(a.db, now, a.adminId)
  }

  /** Steps 3 and 4, and the category lookups between them. */
  function SeedCatalog(t: Tables, now: Time, adminId: string): (r: (Outcome, Tables))
  {
    var (o3, t3) := SeedCategoriesStep(t);
    if o3.Fail? then (o3, t3)
    else
      var ids := SeedCategoryIds(t3.categories);
      if ids.None? then (Fail(CategoriesMissing), t3)
      else SeedProductsStep(t3, now, ids.value, adminId)
  }

  /** What a completed run leaves behind, and what makes every guard skip. */
  predicate Seeded(t: Tables) {
    && "Admin" in t.roles && "User" in t.roles
    && (exists u :: u in t.users && u.Email == AdminEmail)
    && t.categories != []
    && SeedCategoriesPresent(t.categories)
    && t.products != []
  }

  // ---- each step keeps the constraints ------------------------------------------

  lemma SeedAdminStepEffect(t: Tables, newAdminId: string, createSucceeds: bool)
    requires Consistent(t) && "Admin" in t.roles && !HasUser(t.users, newAdminId)
    ensures var a := SeedAdminStep(t, newAdminId, createSucceeds);
      && Consistent(a.db)
      && (a.outcome.Fail? <==> !createSucceeds && !exists u :: u in t.users && u.Email == AdminEmail)
      && (a.outcome.Fail? ==> a.db == t)
      && (a.outcome.Pass? ==> HasUser(a.db.users, a.adminId)
                              && exists u :: u in a.db.users && u.Email == AdminEmail)
      && ((exists u :: u in t.users && u.Email == AdminEmail) ==> a.db == t)
      && (a.outcome.Pass? && !(exists u :: u in t.users && u.Email == AdminEmail) ==>
            a.db.users == t.users + [User(newAdminId, AdminEmail, {"Admin"})])
      && a.db.categories == t.categories && a.db.products == t.products && a.db.roles == t.roles
  {
    var admin := FindUserByEmail(t.users, AdminEmail);
    if admin.None? && createSucceeds {
      var u := User(newAdminId, AdminEmail, {});
      InsertUserConsistent(t, u);
      var t' := InsertUser(t, u);
      AddToRoleConsistent(t', newAdminId, "Admin");
      var t'' := AddToRole(t', newAdminId, "Admin");
      assert t'.users[|t.users|] == u;
      assert t''.users[|t.users|] == u.(Roles := {"Admin"});
      assert t''.users[|t.users|] in t''.users;
      forall i | 0 <= i < |t.users| ensures t''.users[i] == t.users[i] {
        assert t.users[i] in t.users;
      }
      assert {} + {"Admin"} == {"Admin"};
      assert t''.users == t.users + [User(newAdminId, AdminEmail, {"Admin"})];
    }
  }

  /** The five names are distinct (they even differ in length). */
  lemma SeedCategoryNamesDistinct()
    ensures forall i, j :: 0 <= i < j < |SeedCategoryNames| ==> SeedCategoryNames[i] != SeedCategoryNames[j]
  {
    var lengths := [11, 5, 8, 14, 6];
    assert forall i :: 0 <= i < 5 ==> |SeedCategoryNames[i]| == lengths[i];
  }

  /** The five new rows carry the five names. */
  lemma NewSeedCategories(first: int)
    ensures var cs := NewCategories(SeedCategoryNames, first);
      UniqueCategoryNames(cs) && SeedCategoriesPresent(cs)
  {
    var cs := NewCategories(SeedCategoryNames, first);
    SeedCategoryNamesDistinct();
    assert forall i :: 0 <= i < 5 ==> cs[i].Name == SeedCategoryNames[i];
    assert cs[0] in cs && cs[1] in cs && cs[2] in cs && cs[3] in cs && cs[4] in cs;
  }

  lemma SeedCategoriesStepEffect(t: Tables)
    requires Consistent(t)
    ensures var (o, t') := SeedCategoriesStep(t);
      && Consistent(t')
      && o.Pass?
      && t'.users == t.users && t'.products == t.products && t'.roles == t.roles
      && (t.categories != [] ==> t' == t)
      && (t.categories == [] ==> t'.categories == NewCategories(SeedCategoryNames, t.nextCategoryId)
                                 && SeedCategoriesPresent(t'.categories))
  {
    if t.categories == [] {
      InsertCategoriesConsistent(t, SeedCategoryNames);
      var cs := NewCategories(SeedCategoryNames, t.nextCategoryId);
      NewSeedCategories(t.nextCategoryId);
      assert [] + cs == cs;
    }
  }

  lemma SeedProductsStepEffect(t: Tables, now: Time, ids: (int, int, int), adminId: string)
    requires Consistent(t) && HasUser(t.users, adminId)
    requires HasCategory(t.categories, ids.0) && HasCategory(t.categories, ids.1)
             && HasCategory(t.categories, ids.2)
    ensures var (o, t') := SeedProductsStep(t, now, ids, adminId);
      && Consistent(t')
      && o.Pass?
      && t'.products != []
      && t'.users == t.users && t'.categories == t.categories && t'.roles == t.roles
      && (t.products != [] ==> t' == t)
      && (t.products == [] ==> t'.products == Numbered(SeedProducts(now, ids.0, ids.1, ids.2, adminId), t.nextProductId))
  {
    var ps := SeedProducts(now, ids.0, ids.1, ids.2, adminId);
    InsertProductsConsistent(t, ps);
    if t.products == [] {
      forall p | p in ps ensures References(t, p) {
        var i :| 0 <= i < 3 && ps[i] == p;
      }
      assert [] + Numbered(ps, t.nextProductId) == Numbered(ps, t.nextProductId);
    }
  }

  /** Seeding keeps the database constraints. */
  lemma InitializeConsistent(t: Tables, now: Time, newAdminId: string, createSucceeds: bool)
    requires Consistent(t) && !HasUser(t.users, newAdminId)
    ensures Consistent(Initialize(t, now, newAdminId, createSucceeds).1)
  {
    var t1 := SeedRolesStep(t);
    SeedAdminStepEffect(t1, newAdminId, createSucceeds);
    var a := SeedAdminStep(t1, newAdminId, createSucceeds);
    if a.outcome.Pass? {
      SeedCategoriesStepEffect(a.db);
      var t3 := SeedCategoriesStep(a.db).1;
      var ids := SeedCategoryIds(t3.categories);
      if ids.Some? {
        SeedProductsStepEffect(t3, now, ids.value, a.adminId);
      }
    }
  }

  // ---- what a run promises -------------------------------------------------------

  /** A run that completes leaves the database seeded: both roles, the admin
      account, every named category and some products. */
  lemma InitializeSeeds(t: Tables, now: Time, newAdminId: string, createSucceeds: bool)
    requires Consistent(t) && !HasUser(t.users, newAdminId)
    requires Initialize(t, now, newAdminId, createSucceeds).0.Pass?
    ensures Seeded(Initialize(t, now, newAdminId, createSucceeds).1)
  {
    var t1 := SeedRolesStep(t);
    SeedAdminStepEffect(t1, newAdminId, createSucceeds);
    var a := SeedAdminStep(t1, newAdminId, createSucceeds);
    SeedCategoriesStepEffect(a.db);
    var t3 := SeedCategoriesStep(a.db).1;
    var ids := SeedCategoryIds(t3.categories);
    SeedProductsStepEffect(t3, now, ids.value, a.adminId);
  }

  /** On a seeded database every guard skips: the run succeeds and changes nothing,
      whatever the clock reads, whatever id would be generated and whether or
      not creating a user would succeed. */
  lemma InitializeOnSeededIsNoOp(t: Tables, now: Time, newAdminId: string, createSucceeds: bool)
    requires Seeded(t)
    ensures Initialize(t, now, newAdminId, createSucceeds) == (Pass, t)
  {
    assert t.roles + {"Admin", "User"} == t.roles;
    assert SeedRolesStep(t) == t;
    assert SeedAdminStep(t, newAdminId, createSucceeds).db == t;
  }

  /** Idempotence: after a run that completes, a second run changes nothing. */
  lemma InitializeIdempotent(t: Tables, now: Time, newAdminId: string, createSucceeds: bool,
                             now': Time, newAdminId': string, createSucceeds': bool)
    requires Consistent(t) && !HasUser(t.users, newAdminId)
    requires Initialize(t, now, newAdminId, createSucceeds).0.Pass?
    ensures var t' := Initialize(t, now, newAdminId, createSucceeds).1;
      Initialize(t', now', newAdminId', createSucceeds') == (Pass, t')
  {
    InitializeSeeds(t, now, newAdminId, createSucceeds);
    InitializeOnSeededIsNoOp(Initialize(t, now, newAdminId, createSucceeds).1, now', newAdminId', createSucceeds');
  }

  /** A run fails exactly where the code throws: the admin account is missing
      and cannot be created (the run stops after the roles, before categories
      and products), or a named category is missing from a category table that
      was not empty. */
  lemma InitializeFailures(t: Tables, now: Time, newAdminId: string, createSucceeds: bool)
    requires Consistent(t) && !HasUser(t.users, newAdminId)
    ensures var (o, t') := Initialize(t, now, newAdminId, createSucceeds);
      && (o == Fail(AdminCreationFailed) <==>
            !createSucceeds && !exists u :: u in t.users && u.Email == AdminEmail)
      && (o == Fail(AdminCreationFailed) ==> t' == SeedRolesStep(t))
      && (o == Fail(CategoriesMissing) ==>
            t.categories != [] && t'.categories == t.categories && t'.products == t.products)
      && (o.Fail? ==> o == Fail(AdminCreationFailed) || o == Fail(CategoriesMissing))
      && (o.Pass? <==> (createSucceeds || exists u :: u in t.users && u.Email == AdminEmail)
                       && (t.categories == [] || SeedCategoriesPresent(t.categories)))
  {
    var t1 := SeedRolesStep(t);
    SeedAdminStepEffect(t1, newAdminId, createSucceeds);
    var a := SeedAdminStep(t1, newAdminId, createSucceeds);
    if a.outcome.Pass? {
      SeedCategoriesStepEffect(a.db);
      var t3 := SeedCategoriesStep(a.db).1;
      var ids := SeedCategoryIds(t3.categories);
      if ids.Some? {
        SeedProductsStepEffect(t3, now, ids.value, a.adminId);
      }
    }
  }

  /** Seeding into an empty product table: a run that completes leaves only the
      three sample products, each live at the seeding instant and created by
      the account with the admin email. */
  lemma InitializeProductsLive(t: Tables, now: Time, newAdminId: string, createSucceeds: bool)
    requires Consistent(t) && !HasUser(t.users, newAdminId) && t.products == []
    requires Initialize(t, now, newAdminId, createSucceeds).0.Pass?
    ensures var t' := Initialize(t, now, newAdminId, createSucceeds).1;
      && |t'.products| == 3
      && forall p :: p in t'.products ==>
           IsLive(p, now) && exists u :: u in t'.users && u.Id == p.CreatedByUserId && u.Email == AdminEmail
  {
    var t1 := SeedRolesStep(t);
    SeedAdminStepEffect(t1, newAdminId, createSucceeds);
    var a := SeedAdminStep(t1, newAdminId, createSucceeds);
    AdminStepFindsAdmin(t1, newAdminId, createSucceeds);
    SeedCategoriesStepEffect(a.db);
    var t3 := SeedCategoriesStep(a.db).1;
    var ids := SeedCategoryIds(t3.categories);
    SeedProductsStepEffect(t3, now, ids.value, a.adminId);
    NumberedSeedProducts(now, ids.value, a.adminId, t3.nextProductId);
  }

  /** Seeding into an empty product table: the Laptop is in the category named
      Electronics, the Book in Books and the T-Shirt in Clothing. */
  lemma InitializeProductCategories(t: Tables, now: Time, newAdminId: string, createSucceeds: bool)
    requires Consistent(t) && !HasUser(t.users, newAdminId) && t.products == []
    requires Initialize(t, now, newAdminId, createSucceeds).0.Pass?
    ensures var t' := Initialize(t, now, newAdminId, createSucceeds).1;
      && |t'.products| == 3
      && t'.products[0].Name == "Laptop" && NamedCategory(t'.categories, t'.products[0].CategoryId, "Electronics")
      && t'.products[1].Name == "Book" && NamedCategory(t'.categories, t'.products[1].CategoryId, "Books")
      && t'.products[2].Name == "T-Shirt" && NamedCategory(t'.categories, t'.products[2].CategoryId, "Clothing")
  {
    var t1 := SeedRolesStep(t);
    SeedAdminStepEffect(t1, newAdminId, createSucceeds);
    var a := SeedAdminStep(t1, newAdminId, createSucceeds);
    SeedCategoriesStepEffect(a.db);
    var t3 := SeedCategoriesStep(a.db).1;
    var ids := SeedCategoryIds(t3.categories);
    SeedProductsStepEffect(t3, now, ids.value, a.adminId);
  }

  /** The id step 2 hands on belongs to an account with the admin email. */
  lemma AdminStepFindsAdmin(t: Tables, newAdminId: string, createSucceeds: bool)
    requires Consistent(t) && "Admin" in t.roles
    ensures var a := SeedAdminStep(t, newAdminId, createSucceeds);
      a.outcome.Pass? ==> exists u :: u in a.db.users && u.Id == a.adminId && u.Email == AdminEmail
  {
    var a := SeedAdminStep(t, newAdminId, createSucceeds);
    if a.outcome.Pass? && FindUserByEmail(t.users, AdminEmail).None? {
      assert a.db.users[|t.users|] == User(newAdminId, AdminEmail, {"Admin"});
      assert a.db.users[|t.users|] in a.db.users;
    }
  }

  /** The first run on a freshly migrated database: both roles, the admin account
      in the Admin role, the five categories with ids 1 to 5, and three products
      with ids 1 to 3, each live at `now` and created by the admin. */
  lemma InitializeEmpty(now: Time, newAdminId: string)
    ensures var (o, t') := Initialize(Tables([], [], [], {}, 1, 1), now, newAdminId, true);
      && o == Pass
      && t'.roles == {"Admin", "User"}
      && t'.users == [User(newAdminId, AdminEmail, {"Admin"})]
      && t'.categories == NewCategories(SeedCategoryNames, 1)
      && t'.products == Numbered(SeedProducts(now, 1, 2, 3, newAdminId), 1)
      && (forall p :: p in t'.products ==> IsLive(p, now) && p.CreatedByUserId == newAdminId)
      && Consistent(t')
  {
    var t4 := FirstRun(now, newAdminId);
    NumberedSeedProducts(now, (1, 2, 3), newAdminId, 1);
    InitializeConsistent(Tables([], [], [], {}, 1, 1), now, newAdminId, true);
  }

  /** The tables after the first run, step by step. */
  lemma FirstRun(now: Time, newAdminId: string) returns (t4: Tables)
    ensures t4 == Tables(Numbered(SeedProducts(now, 1, 2, 3, newAdminId), 1), NewCategories(SeedCategoryNames, 1),
                         [User(newAdminId, AdminEmail, {"Admin"})], {"Admin", "User"}, 4, 6)
    ensures Initialize(Tables([], [], [], {}, 1, 1), now, newAdminId, true) == (Pass, t4)
  {
    var t2 := Tables([], [], [User(newAdminId, AdminEmail, {"Admin"})], {"Admin", "User"}, 1, 1);
    FirstAdminStep(newAdminId);
    t4 := FirstCatalog(t2, now, newAdminId);
  }

  lemma FirstCatalog(t2: Tables, now: Time, newAdminId: string) returns (t4: Tables)
    requires t2 == Tables([], [], [User(newAdminId, AdminEmail, {"Admin"})], {"Admin", "User"}, 1, 1)
    ensures t4 == Tables(Numbered(SeedProducts(now, 1, 2, 3, newAdminId), 1), NewCategories(SeedCategoryNames, 1),
                         [User(newAdminId, AdminEmail, {"Admin"})], {"Admin", "User"}, 4, 6)
    ensures SeedCatalog(t2, now, newAdminId) == (Pass, t4)
  {
    var t3 := t2.(categories := NewCategories(SeedCategoryNames, 1), nextCategoryId := 6);
    t4 := t3.(products := Numbered(SeedProducts(now, 1, 2, 3, newAdminId), 1), nextProductId := 4);
    FirstCategoriesStep(t2);
    FirstCategoryIds();
    FirstReferences(t3, newAdminId);
    FirstProductsStep(t3, now, newAdminId);
  }

  lemma FirstReferences(t3: Tables, newAdminId: string)
    requires t3.users == [User(newAdminId, AdminEmail, {"Admin"})]
    requires t3.categories == NewCategories(SeedCategoryNames, 1)
    ensures HasUser(t3.users, newAdminId)
    ensures HasCategory(t3.categories, 1) && HasCategory(t3.categories, 2) && HasCategory(t3.categories, 3)
  {
    assert t3.users[0] in t3.users;
    var cs := t3.categories;
    assert cs[0] in cs && cs[1] in cs && cs[2] in cs;
  }

  lemma FirstCategoriesStep(t: Tables)
    requires t.categories == [] && t.nextCategoryId == 1
    ensures SeedCategoriesStep(t) == (Pass, t.(categories := NewCategories(SeedCategoryNames, 1), nextCategoryId := 6))
  {
    var cs := NewCategories(SeedCategoryNames, 1);
    NewSeedCategories(1);
    assert [] + cs == cs;
  }

  /** In the five new rows, Electronics, Books and Clothing have ids 1, 2 and 3. */
  lemma FirstCategoryIds()
    ensures SeedCategoryIds(NewCategories(SeedCategoryNames, 1)) == Some((1, 2, 3))
  {
    var cs := NewCategories(SeedCategoryNames, 1);
    NewSeedCategories(1);
    FindByUniqueName(cs, 0);
    FindByUniqueName(cs, 1);
    FindByUniqueName(cs, 2);
  }

  /** With distinct names, the lookup by a row's name finds that row. */
  lemma FindByUniqueName(cs: seq<Category>, k: int)
    requires UniqueCategoryNames(cs) && 0 <= k < |cs|
    ensures FindCategoryByName(cs, cs[k].Name) == Some(cs[k])
  {
    var r := FindCategoryByName(cs, cs[k].Name);
    assert cs[k] in cs;
    var i :| 0 <= i < |cs| && cs[i] == r.value;
    assert i == k;
  }

  lemma FirstProductsStep(t: Tables, now: Time, adminId: string)
    requires t.products == [] && t.nextProductId == 1
    requires HasUser(t.users, adminId)
    requires HasCategory(t.categories, 1) && HasCategory(t.categories, 2) && HasCategory(t.categories, 3)
    ensures SeedProductsStep(t, now, (1, 2, 3), adminId)
            == (Pass, t.(products := Numbered(SeedProducts(now, 1, 2, 3, adminId), 1), nextProductId := 4))
  {
    var ps := SeedProducts(now, 1, 2, 3, adminId);
    forall p | p in ps ensures References(t, p) {
      var i :| 0 <= i < 3 && ps[i] == p;
    }
    assert [] + Numbered(ps, 1) == Numbered(ps, 1);
  }

  /** Numbering the sample products keeps them live and created by the admin. */
  lemma NumberedSeedProducts(now: Time, ids: (int, int, int), adminId: string, first: int)
    ensures forall p :: p in Numbered(SeedProducts(now, ids.0, ids.1, ids.2, adminId), first) ==>
              IsLive(p, now) && p.CreatedByUserId == adminId
  {
    var ps := SeedProducts(now, ids.0, ids.1, ids.2, adminId);
    forall p | p in Numbered(ps, first) ensures IsLive(p, now) && p.CreatedByUserId == adminId {
      var i :| 0 <= i < 3 && Numbered(ps, first)[i] == p;
      assert ps[i] in ps;
    }
  }

  /** Steps 1 and 2 on the empty database: the roles, then a new admin account. */
  lemma FirstAdminStep(newAdminId: string)
    ensures var t1 := SeedRolesStep(Tables([], [], [], {}, 1, 1));
      SeedAdminStep(t1, newAdminId, true)
        == AdminStep(Pass, Tables([], [], [User(newAdminId, AdminEmail, {"Admin"})], {"Admin", "User"}, 1, 1),
                     newAdminId)
  {
    var t1 := SeedRolesStep(Tables([], [], [], {}, 1, 1));
    assert t1 == Tables([], [], [], {"Admin", "User"}, 1, 1);
    assert FindUserByEmail(t1.users, AdminEmail).None?;
    var u := User(newAdminId, AdminEmail, {});
    var t1' := InsertUser(t1, u);
    assert t1'.users == [u];
    var t2 := AddToRole(t1', newAdminId, "Admin");
    assert |t2.users| == 1;
    assert t2.users[0] == u.(Roles := {} + {"Admin"});
    assert {} + {"Admin"} == {"Admin"};
    assert t2.users == [User(newAdminId, AdminEmail, {"Admin"})];
  }

  /** Step 1 as DbInitializer runs it: a loop over the two role names that creates
      each one that does not exist. `created` lists the roles it created. */
  method SeedRolesAsync(db: ApplicationDbContext) returns (created: seq<string>)
    requires db.Valid()
    modifies db
    ensures db.Valid()
    ensures db.Snapshot() == SeedRolesStep(old(db.Snapshot()))
    ensures created == RolesToCreate(old(db.roles))
  {
    ghost var t0 := db.Snapshot();
    created := [];
    var i := 0;
    while i < |SeedRoles|
      invariant 0 <= i <= |SeedRoles|
      invariant db.Valid()
      invariant db.Snapshot() == t0.(roles := t0.roles + set r | r in SeedRoles[..i])
      invariant created == Where(SeedRoles[..i], (r: string) => r !in t0.roles)
    {
      var role := SeedRoles[i];
      assert SeedRoles[..i + 1] == SeedRoles[..i] + [role];
      WhereAppend(SeedRoles[..i], [role], (r: string) => r !in t0.roles);
      if role !in db.roles {
        db.SaveNewRole(role);
        created := created + [role];
      }
      i := i + 1;
    }
    assert SeedRoles[..i] == SeedRoles;
    assert (set r | r in SeedRoles) == {"Admin", "User"};
  }

  /** Step 2: find the admin account by email, or create it and add it to Admin. */
  method SeedAdminAsync(db: ApplicationDbContext, newAdminId: string, createSucceeds: bool)
    returns (a: AdminStep)
    requires db.Valid() && "Admin" in db.roles && !HasUser(db.users, newAdminId)
    modifies db
    ensures db.Valid()
    ensures a == SeedAdminStep(old(db.Snapshot()), newAdminId, createSucceeds)
    ensures db.Snapshot() == a.db
  {
    SeedAdminStepEffect(db.Snapshot(), newAdminId, createSucceeds);
    var admin := FindUserByEmail(db.users, AdminEmail);
    if admin.Some? {
      a := AdminStep(Pass, db.Snapshot(), admin.value.Id);
    } else if !createSucceeds {
      a := AdminStep(Fail(AdminCreationFailed), db.Snapshot(), "");
    } else {
      db.SaveNewUser(User(newAdminId, AdminEmail, {}));
      db.SaveUserRole(newAdminId, "Admin");
      a := AdminStep(Pass, db.Snapshot(), newAdminId);
    }
  }

  /** The seeding method: the roles loop, then the guarded admin, category and
      product steps, stopping at the first failure. */
  method InitializeAsync(db: ApplicationDbContext, now: Time, newAdminId: string, createSucceeds: bool)
    returns (o: Outcome, created: seq<string>)
    requires db.Valid() && !HasUser(db.users, newAdminId)
    modifies db
    ensures db.Valid()
    ensures (o, db.Snapshot()) == Initialize(old(db.Snapshot()), now, newAdminId, createSucceeds)
    ensures created == RolesToCreate(old(db.roles))
  {
    // 1. roles
    created := SeedRolesAsync(db);
    // 2. admin user
    var a := SeedAdminAsync(db, newAdminId, createSucceeds);
    if a.outcome.Fail? {
      o := a.outcome;
      return;
    }
    // 3. categories
    o := Pass;
    if db.categories == [] {
      o := db.SaveNewCategories(SeedCategoryNames);
      if o.Fail? {
        return;
      }
    }
    var ids := SeedCategoryIds(db.categories);
    if ids.None? {
      o := Fail(CategoriesMissing);
      return;
    }
    // 4. products
    if db.products == [] {
      o := db.SaveNewProducts(SeedProducts(now, ids.value.0, ids.value.1, ids.value.2, a.adminId));
    }
  }
}
