/** The database context: the Product, Category and identity tables, the
    referential rules configured on them (unique category name, cascade from
    category to product, restrict from creating user to product), and the
    effect of each save on the tables. */
module Data {
  import opened Models
  import opened Queries

  /** What a failed save or a failed seeding run reports. */
  datatype Error =
    | ForeignKeyViolation     // a product names a category or a user that does not exist
    | DuplicateCategoryName   // the unique index on Category.Name
    | DeleteRestricted        // a user still referenced by a product's CreatedByUserId
    | AdminCreationFailed
    | CategoriesMissing

  datatype Outcome = Pass | Fail(error: Error)

  // ---- keys and references ---------------------------------------------------

  predicate UniqueProductIds(ps: seq<Product>) {
    forall i, j :: 0 <= i < j < |ps| ==> ps[i].Id != ps[j].Id
  }

  predicate UniqueCategoryIds(cs: seq<Category>) {
    forall i, j :: 0 <= i < j < |cs| ==> cs[i].Id != cs[j].Id
  }

  /** The unique index on Category.Name. */
  predicate UniqueCategoryNames(cs: seq<Category>) {
    forall i, j :: 0 <= i < j < |cs| ==> cs[i].Name != cs[j].Name
  }

  predicate UniqueUserIds(us: seq<User>) {
    forall i, j :: 0 <= i < j < |us| ==> us[i].Id != us[j].Id
  }

  predicate HasProduct(ps: seq<Product>, id: int) {
    exists p :: p in ps && p.Id == id
  }

  predicate HasCategory(cs: seq<Category>, id: int) {
    exists c :: c in cs && c.Id == id
  }

  predicate HasUser(us: seq<User>, id: string) {
    exists u :: u in us && u.Id == id
  }

  predicate HasCategoryNamed(cs: seq<Category>, name: string) {
    exists c :: c in cs && c.Name == name
  }

  /** The contents of every table, and the next value of each identity column. */
  datatype Tables = Tables(
    products: seq<Product>,
    categories: seq<Category>,
    users: seq<User>,
    roles: set<string>,
    nextProductId: int,
    nextCategoryId: int)

  /** Both foreign keys of a product row resolve. */
  predicate References(t: Tables, p: Product) {
    HasCategory(t.categories, p.CategoryId) && HasUser(t.users, p.CreatedByUserId)
  }

  /** The constraints the database enforces on every committed state. */
  predicate Consistent(t: Tables) {
    && UniqueProductIds(t.products)
    && UniqueCategoryIds(t.categories)
    && UniqueCategoryNames(t.categories)
    && UniqueUserIds(t.users)
    && 1 <= t.nextProductId && 1 <= t.nextCategoryId
    && (forall p :: p in t.products ==> 1 <= p.Id < t.nextProductId && References(t, p))
    && (forall c :: c in t.categories ==> 1 <= c.Id < t.nextCategoryId)
    && (forall u :: u in t.users ==> u.Roles <= t.roles)
  }

  function FindProduct(ps: seq<Product>, id: int): (r: Option<Product>)
    ensures r.Some? <==> HasProduct(ps, id)
    ensures r.Some? ==> r.value in ps && r.value.Id == id
  {
    FirstOrDefault(ps, (p: Product) => p.Id == id)
  }

  function FindCategory(cs: seq<Category>, id: int): (r: Option<Category>)
    ensures r.Some? <==> HasCategory(cs, id)
    ensures r.Some? ==> r.value in cs && r.value.Id == id
  {
    FirstOrDefault(cs, (c: Category) => c.Id == id)
  }

  function FindUser(us: seq<User>, id: string): (r: Option<User>)
    ensures r.Some? <==> HasUser(us, id)
    ensures r.Some? ==> r.value in us && r.value.Id == id
  {
    FirstOrDefault(us, (u: User) => u.Id == id)
  }

  function FindCategoryByName(cs: seq<Category>, name: string): (r: Option<Category>)
    ensures r.Some? <==> HasCategoryNamed(cs, name)
    ensures r.Some? ==> r.value in cs && r.value.Name == name
  {
    FirstOrDefault(cs, (c: Category) => c.Name == name)
  }

  function FindUserByEmail(us: seq<User>, email: string): (r: Option<User>)
    ensures r.Some? <==> exists u :: u in us && u.Email == email
    ensures r.Some? ==> r.value in us && r.value.Email == email
  {
    FirstOrDefault(us, (u: User) => u.Email == email)
  }

  // ---- the effect of each save ------------------------------------------------

  /** `Add` then `SaveChanges`: the row gets the next identity value; a row whose
      foreign keys do not resolve is refused and nothing is written. */
  function InsertProduct(t: Tables, p: Product): (r: (Outcome, Tables))
  {
    if References(t, p) then
      (Pass, t.(products := t.products + [p.(Id := t.nextProductId)],
                nextProductId := t.nextProductId + 1))
    else (Fail(ForeignKeyViolation), t)
  }

  /** `AddRange` then one `SaveChanges`: all rows or none. */
  function InsertProducts(t: Tables, ps: seq<Product>): (r: (Outcome, Tables))
  {
    if forall p :: p in ps ==> References(t, p) then
      (Pass, t.(products := t.products + Numbered(ps, t.nextProductId),
                nextProductId := t.nextProductId + |ps|))
    else (Fail(ForeignKeyViolation), t)
  }

  /** The rows of a batch with consecutive identity values from `first`. */
  function Numbered(ps: seq<Product>, first: int): (r: seq<Product>)
    ensures |r| == |ps|
    ensures forall i :: 0 <= i < |r| ==> r[i] == ps[i].(Id := first + i)
  {
    seq(|ps|, i requires 0 <= i < |ps| => ps[i].(Id := first + i))
  }

  /** `Update` then `SaveChanges`: the row with `p.Id` is replaced by `p`. */
  function UpdateProduct(t: Tables, p: Product): (r: (Outcome, Tables))
  {
    if References(t, p) then (Pass, t.(products := Replaced(t.products, p)))
    else (Fail(ForeignKeyViolation), t)
  }

  function Replaced(ps: seq<Product>, p: Product): (r: seq<Product>)
    ensures |r| == |ps|
    ensures forall i :: 0 <= i < |ps| ==> r[i] == if ps[i].Id == p.Id then p else ps[i]
  {
    seq(|ps|, i requires 0 <= i < |ps| => if ps[i].Id == p.Id then p else ps[i])
  }

  /** `Products.Remove` then `SaveChanges`. */
  function RemoveProduct(t: Tables, id: int): Tables {
    t.(products := Where(t.products, (p: Product) => p.Id != id))
  }

  /** `Categories.AddRange` then `SaveChanges`; the unique index on Name refuses
      a batch that repeats a name, within itself or against the table. */
  function InsertCategories(t: Tables, names: seq<string>): (r: (Outcome, Tables))
  {
    var added := t.categories + NewCategories(names, t.nextCategoryId);
    if UniqueCategoryNames(added) then
      (Pass, t.(categories := added, nextCategoryId := t.nextCategoryId + |names|))
    else (Fail(DuplicateCategoryName), t)
  }

  function NewCategories(names: seq<string>, first: int): (r: seq<Category>)
    ensures |r| == |names|
    ensures forall i :: 0 <= i < |r| ==> r[i] == Category(first + i, names[i])
  {
    seq(|names|, i requires 0 <= i < |names| => Category(first + i, names[i]))
  }

  /** Deleting a category: the cascade rule deletes its products with it. */
  function RemoveCategory(t: Tables, id: int): Tables {
    t.(categories := Where(t.categories, (c: Category) => c.Id != id),
       products := Where(t.products, (p: Product) => p.CategoryId != id))
  }

  /** Deleting a user: the restrict rule refuses while a product names it as creator. */
  function RemoveUser(t: Tables, id: string): (r: (Outcome, Tables))
  {
    if exists p :: p in t.products && p.CreatedByUserId == id then (Fail(DeleteRestricted), t)
    else (Pass, t.(users := Where(t.users, (u: User) => u.Id != id)))
  }

  function CreateRole(t: Tables, name: string): Tables {
    t.(roles := t.roles + {name})
  }

  function InsertUser(t: Tables, u: User): Tables {
    t.(users := t.users + [u])
  }

  /** `AddToRoleAsync`: the user with `id` gains `role`. */
  function AddToRole(t: Tables, id: string, role: string): Tables {
    t.(users := seq(|t.users|, i requires 0 <= i < |t.users| =>
                      if t.users[i].Id == id then t.users[i].(Roles := t.users[i].Roles + {role})
                      else t.users[i]))
  }

  // ---- what each save keeps and changes ----------------------------------------

  /** An insert adds exactly one row, with a fresh id, at the end, and keeps the
      constraints; a refused insert changes nothing. */
  lemma InsertProductEffect(t: Tables, p: Product)
    requires Consistent(t)
    ensures var (o, t') := InsertProduct(t, p);
      && (o.Pass? <==> References(t, p))
      && (o.Pass? ==> && t'.products == t.products + [p.(Id := t.nextProductId)]
                      && !HasProduct(t.products, t.nextProductId)
                      && t'.categories == t.categories && t'.users == t.users)
      && (o.Fail? ==> t' == t)
      && Consistent(t')
  {
    var (o, t') := InsertProduct(t, p);
    if o.Pass? {
      var q := p.(Id := t.nextProductId);
      forall x | x in t'.products ensures 1 <= x.Id < t'.nextProductId && References(t', x) {
        if x != q { assert x in t.products; }
      }
    }
  }

  /** A batch insert keeps the constraints. */
  lemma InsertProductsConsistent(t: Tables, ps: seq<Product>)
    requires Consistent(t)
    ensures Consistent(InsertProducts(t, ps).1)
  {
    var (o, t') := InsertProducts(t, ps);
    if o.Pass? {
      var added := Numbered(ps, t.nextProductId);
      forall x | x in t'.products ensures 1 <= x.Id < t'.nextProductId && References(t', x) {
        if x !in t.products {
          var i :| 0 <= i < |added| && added[i] == x;
          assert ps[i] in ps;
        }
      }
      forall i, j | 0 <= i < j < |t'.products| ensures t'.products[i].Id != t'.products[j].Id {
        if j >= |t.products| && i < |t.products| {
          assert t'.products[i] in t.products;
        }
      }
    }
  }

  /** An update changes only the row with `p.Id`; its position and every other
      row stay; the constraints hold if `p` keeps its id. */
  lemma UpdateProductEffect(t: Tables, p: Product)
    requires Consistent(t) && HasProduct(t.products, p.Id)
    ensures var (o, t') := UpdateProduct(t, p);
      && (o.Pass? <==> References(t, p))
      && (o.Pass? ==> && |t'.products| == |t.products|
                      && (forall i :: 0 <= i < |t.products| ==>
                            t'.products[i] == if t.products[i].Id == p.Id then p else t.products[i])
                      && p in t'.products
                      && (forall q :: q in t.products && q.Id != p.Id ==> q in t'.products)
                      && (forall q :: q in t'.products ==> q == p || (q in t.products && q.Id != p.Id)))
      && (o.Fail? ==> t' == t)
      && Consistent(t')
  {
    var (o, t') := UpdateProduct(t, p);
    if o.Pass? {
      var k :| 0 <= k < |t.products| && t.products[k].Id == p.Id;
      assert t'.products[k] == p;
      forall q | q in t.products && q.Id != p.Id ensures q in t'.products {
        var i :| 0 <= i < |t.products| && t.products[i] == q;
        assert t'.products[i] == q;
      }
      forall q | q in t'.products ensures q == p || (q in t.products && q.Id != p.Id) {
        var i :| 0 <= i < |t'.products| && t'.products[i] == q;
        if t.products[i].Id != p.Id { assert q == t.products[i]; }
      }
      forall x | x in t'.products ensures 1 <= x.Id < t'.nextProductId && References(t', x) {
        if x != p { assert x in t.products; } else { assert t.products[k] in t.products; }
      }
    }
  }

  /** Removing a product removes exactly the row with that id and nothing else;
      removing an id that is not present changes nothing, and removing twice is
      removing once. */
  lemma RemoveProductEffect(t: Tables, id: int)
    requires Consistent(t)
    ensures var t' := RemoveProduct(t, id);
      && (forall p :: p in t'.products <==> p in t.products && p.Id != id)
      && !HasProduct(t'.products, id)
      && (!HasProduct(t.products, id) ==> t' == t)
      && RemoveProduct(t', id) == t'
      && t'.categories == t.categories && t'.users == t.users
      && Consistent(t')
  {
    var t' := RemoveProduct(t, id);
    var keep := (p: Product) => p.Id != id;
    if !HasProduct(t.products, id) {
      WhereKeepsAll(t.products, keep);
    }
    WhereIdempotent(t.products, keep);
    WhereKeepsUniqueProductIds(t.products, keep);
  }

  /** Filtering keeps the product ids unique. */
  lemma WhereKeepsUniqueProductIds(ps: seq<Product>, keep: Product -> bool)
    requires UniqueProductIds(ps)
    ensures UniqueProductIds(Where(ps, keep))
  {
    assert DistinctBy(ps, (p: Product) => p.Id);
    WhereKeepsDistinct(ps, (p: Product) => p.Id, keep);
  }

  /** Cascade: deleting a category deletes exactly the products in it, keeps
      every other product, and keeps the constraints. */
  lemma RemoveCategoryEffect(t: Tables, id: int)
    requires Consistent(t)
    ensures var t' := RemoveCategory(t, id);
      && (forall p :: p in t'.products <==> p in t.products && p.CategoryId != id)
      && (forall c :: c in t'.categories <==> c in t.categories && c.Id != id)
      && t'.users == t.users
      && Consistent(t')
  {
    var t' := RemoveCategory(t, id);
    WhereKeepsUniqueProductIds(t.products, (p: Product) => p.CategoryId != id);
    var keep := (c: Category) => c.Id != id;
    assert DistinctBy(t.categories, (c: Category) => c.Id);
    assert DistinctBy(t.categories, (c: Category) => c.Name);
    WhereKeepsDistinct(t.categories, (c: Category) => c.Id, keep);
    WhereKeepsDistinct(t.categories, (c: Category) => c.Name, keep);
    forall p | p in t'.products ensures HasCategory(t'.categories, p.CategoryId) {
      var c :| c in t.categories && c.Id == p.CategoryId;
      assert c in t'.categories;
    }
  }

  /** Restrict: a user named as creator by some product cannot be deleted;
      a user no product names is deleted and the constraints hold. */
  lemma RemoveUserEffect(t: Tables, id: string)
    requires Consistent(t)
    ensures var (o, t') := RemoveUser(t, id);
      && (o.Fail? <==> exists p :: p in t.products && p.CreatedByUserId == id)
      && (o.Fail? ==> t' == t)
      && (o.Pass? ==> && (forall u :: u in t'.users <==> u in t.users && u.Id != id)
                      && t'.products == t.products && t'.categories == t.categories)
      && Consistent(t')
  {
    var (o, t') := RemoveUser(t, id);
    if o.Pass? {
      assert DistinctBy(t.users, (u: User) => u.Id);
      WhereKeepsDistinct(t.users, (u: User) => u.Id, (u: User) => u.Id != id);
      forall p | p in t'.products ensures HasUser(t'.users, p.CreatedByUserId) {
        var u :| u in t.users && u.Id == p.CreatedByUserId;
        assert u in t'.users;
      }
    }
  }

  /** A new account with a fresh id and known roles keeps the constraints. */
  lemma InsertUserConsistent(t: Tables, u: User)
    requires Consistent(t) && !HasUser(t.users, u.Id) && u.Roles <= t.roles
    ensures Consistent(InsertUser(t, u))
  {
    var us := t.users + [u];
    forall i, j | 0 <= i < j < |us| ensures us[i].Id != us[j].Id {
      if j == |t.users| { assert us[i] in t.users; }
    }
    forall p | p in t.products ensures HasUser(us, p.CreatedByUserId) {
      var v :| v in t.users && v.Id == p.CreatedByUserId;
      assert v in us;
    }
  }

  /** Adding an existing role to a user keeps the constraints. */
  lemma AddToRoleConsistent(t: Tables, id: string, role: string)
    requires Consistent(t) && role in t.roles
    ensures Consistent(AddToRole(t, id, role))
  {
    var t' := AddToRole(t, id, role);
    forall p | p in t.products ensures HasUser(t'.users, p.CreatedByUserId) {
      var i :| 0 <= i < |t.users| && t.users[i].Id == p.CreatedByUserId;
      assert t'.users[i] in t'.users;
    }
    forall u | u in t'.users ensures u.Roles <= t.roles {
      var i :| 0 <= i < |t'.users| && t'.users[i] == u;
      assert t.users[i] in t.users;
    }
  }

  /** Appending a batch to a list with distinct names keeps the names distinct
      exactly when the batch names are pairwise distinct and none is in the list. */
  lemma BatchNamesUnique(cs: seq<Category>, names: seq<string>, first: int)
    requires UniqueCategoryNames(cs)
    ensures UniqueCategoryNames(cs + NewCategories(names, first)) <==>
              (forall i, j :: 0 <= i < j < |names| ==> names[i] != names[j])
              && (forall i :: 0 <= i < |names| ==> !HasCategoryNamed(cs, names[i]))
  {
    var added := cs + NewCategories(names, first);
    var n := |cs|;
    if UniqueCategoryNames(added) {
      forall i, j | 0 <= i < j < |names| ensures names[i] != names[j] {
        assert added[n + i].Name != added[n + j].Name;
      }
      forall i, c | 0 <= i < |names| && c in cs ensures c.Name != names[i] {
        var k :| 0 <= k < n && cs[k] == c;
        assert added[k].Name != added[n + i].Name;
      }
    } else {
      var i, j :| 0 <= i < j < |added| && added[i].Name == added[j].Name;
      if i >= n {
        assert names[i - n] == names[j - n];
      } else if j >= n {
        assert added[i] in cs;
        assert HasCategoryNamed(cs, names[j - n]);
      }
    }
  }

  /** The unique index on Name: a batch is accepted exactly when its names are
      pairwise distinct and none is already stored; a refused batch changes
      nothing; an accepted batch is appended with fresh ids. */
  lemma InsertCategoriesConsistent(t: Tables, names: seq<string>)
    requires Consistent(t)
    ensures var (o, t') := InsertCategories(t, names);
      && Consistent(t')
      && (o.Pass? <==> (forall i, j :: 0 <= i < j < |names| ==> names[i] != names[j])
                       && (forall i :: 0 <= i < |names| ==> !HasCategoryNamed(t.categories, names[i])))
      && (o.Fail? ==> t' == t)
      && (o.Pass? ==> t'.categories == t.categories + NewCategories(names, t.nextCategoryId)
                      && forall c :: c in t'.categories && c !in t.categories ==> !HasCategory(t.categories, c.Id))
  {
    var added := t.categories + NewCategories(names, t.nextCategoryId);
    BatchNamesUnique(t.categories, names, t.nextCategoryId);
    if UniqueCategoryNames(added) {
      forall c | c in added ensures 1 <= c.Id < t.nextCategoryId + |names| {
        if c !in t.categories {
          var i :| 0 <= i < |added| && added[i] == c;
        }
      }
      forall i, j | 0 <= i < j < |added| ensures added[i].Id != added[j].Id {
        if i < |t.categories| && j >= |t.categories| { assert added[i] in t.categories; }
      }
      forall p | p in t.products ensures HasCategory(added, p.CategoryId) {
        var c :| c in t.categories && c.Id == p.CategoryId;
        assert c in added;
      }
    }
  }

  // ---- the context --------------------------------------------------------------

  /** ApplicationDbContext: the tables as fields that each save reassigns. */
  class ApplicationDbContext {
    var products: seq<Product>
    var categories: seq<Category>
    var users: seq<User>
    var roles: set<string>
    var nextProductId: int
    var nextCategoryId: int

    function Snapshot(): (t: Tables)
      reads this
    {
      Tables(products, categories, users, roles, nextProductId, nextCategoryId)
    }

    ghost predicate Valid()
      reads this
    {
      Consistent(Snapshot())
    }

    /** A freshly migrated, empty database. */
    constructor ()
      ensures Valid()
      ensures Snapshot() == Tables([], [], [], {}, 1, 1)
    {
      products, categories, users, roles := [], [], [], {};
      nextProductId, nextCategoryId := 1, 1;
    }

    method SaveNewProduct(p: Product) returns (o: Outcome)
      requires Valid()
      modifies this
      ensures Valid()
      ensures (o, Snapshot()) == InsertProduct(old(Snapshot()), p)
    {
      InsertProductEffect(Snapshot(), p);
      o := InsertProduct(Snapshot(), p).0;
      if o.Pass? {
        products := products + [p.(Id := nextProductId)];
        nextProductId := nextProductId + 1;
      }
    }

    method SaveNewProducts(ps: seq<Product>) returns (o: Outcome)
      requires Valid()
      modifies this
      ensures Valid()
      ensures (o, Snapshot()) == InsertProducts(old(Snapshot()), ps)
    {
      InsertProductsConsistent(Snapshot(), ps);
      o := InsertProducts(Snapshot(), ps).0;
      if o.Pass? {
        products := products + Numbered(ps, nextProductId);
        nextProductId := nextProductId + |ps|;
      }
    }

    method SaveProduct(p: Product) returns (o: Outcome)
      requires Valid() && HasProduct(products, p.Id)
      modifies this
      ensures Valid()
      ensures (o, Snapshot()) == UpdateProduct(old(Snapshot()), p)
    {
      UpdateProductEffect(Snapshot(), p);
      o := UpdateProduct(Snapshot(), p).0;
      if o.Pass? {
        products := Replaced(products, p);
      }
    }

    method DeleteProduct(id: int)
      requires Valid()
      modifies this
      ensures Valid()
      ensures Snapshot() == RemoveProduct(old(Snapshot()), id)
    {
      RemoveProductEffect(Snapshot(), id);
      products := Where(products, (p: Product) => p.Id != id);
    }

    method SaveNewCategories(names: seq<string>) returns (o: Outcome)
      requires Valid()
      modifies this
      ensures Valid()
      ensures (o, Snapshot()) == InsertCategories(old(Snapshot()), names)
    {
      InsertCategoriesConsistent(Snapshot(), names);
      var added := categories + NewCategories(names, nextCategoryId);
      if UniqueCategoryNames(added) {
        categories := added;
        nextCategoryId := nextCategoryId + |names|;
        o := Pass;
      } else {
        o := Fail(DuplicateCategoryName);
      }
    }

    method DeleteCategory(id: int)
      requires Valid()
      modifies this
      ensures Valid()
      ensures Snapshot() == RemoveCategory(old(Snapshot()), id)
    {
      RemoveCategoryEffect(Snapshot(), id);
      categories := Where(categories, (c: Category) => c.Id != id);
      products := Where(products, (p: Product) => p.CategoryId != id);
    }

    method DeleteUser(id: string) returns (o: Outcome)
      requires Valid()
      modifies this
      ensures Valid()
      ensures (o, Snapshot()) == RemoveUser(old(Snapshot()), id)
    {
      RemoveUserEffect(Snapshot(), id);
      o := RemoveUser(Snapshot(), id).0;
      if o.Pass? {
        users := Where(users, (u: User) => u.Id != id);
      }
    }

    /** RoleManager.CreateAsync. */
    method SaveNewRole(name: string)
      requires Valid()
      modifies this
      ensures Valid()
      ensures Snapshot() == CreateRole(old(Snapshot()), name)
    {
      roles := roles + {name};
    }

    /** UserManager.CreateAsync, once it has succeeded; the id is generated
        outside and is new. */
    method SaveNewUser(u: User)
      requires Valid() && !HasUser(users, u.Id) && u.Roles <= roles
      modifies this
      ensures Valid()
      ensures Snapshot() == InsertUser(old(Snapshot()), u)
    {
      InsertUserConsistent(Snapshot(), u);
      users := users + [u];
    }

    /** UserManager.AddToRoleAsync for a role that exists. */
    method SaveUserRole(id: string, role: string)
      requires Valid() && role in roles
      modifies this
      ensures Valid()
      ensures Snapshot() == AddToRole(old(Snapshot()), id, role)
    {
      AddToRoleConsistent(Snapshot(), id, role);
      var t := AddToRole(Snapshot(), id, role);
      users := t.users;
    }
  }
}
