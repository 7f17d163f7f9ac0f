/** ProductsController: the per-action authorisation attributes, the two
    listings, the detail and form pages, and the Create, Edit and Delete posts. */
module Controllers {
  import opened Models
  import opened Queries
  import opened Data

  // ---- authorisation ---------------------------------------------------------------

  /** Who sends the request: nobody signed in, or a user with the roles in its cookie. */
  datatype Caller = Anonymous | SignedIn(UserId: string, Roles: set<string>)

  datatype Action =
    | Index | AdminIndex | Details | CreateForm | Create | EditForm | Edit | DeleteForm | DeleteConfirmed

  /** What a caller needs: nothing (`[AllowAnonymous]`), or to be signed in (the
      controller's `[Authorize]`) and to hold a role (`[Authorize(Roles = ...)]`). */
  datatype Requirement = Anyone | SignedInWithRole(role: string)

  /** The attribute table of the controller. */
  function RequirementOf(a: Action): Requirement {
    match a
    case Index => Anyone
    case Details => Anyone
    case _ => SignedInWithRole("Admin")
  }

  predicate Meets(c: Caller, r: Requirement) {
    match r
    case Anyone => true
    case SignedInWithRole(role) => c.SignedIn? && role in c.Roles
  }

  /** Only Index and Details admit anonymous callers; every other action needs Admin. */
  function Authorize(a: Action, c: Caller): (allowed: bool)
    ensures allowed <==> a == Index || a == Details || (c.SignedIn? && "Admin" in c.Roles)
    ensures c.Anonymous? ==> (allowed <==> a == Index || a == Details)
  {
    Meets(c, RequirementOf(a))
  }

  // ---- results and requests ----------------------------------------------------------

  datatype ActionResult =
    | CatalogPage(view: CatalogView)
    | ProductPage(entry: Entry)
    | FormPage(model: Option<Product>, options: seq<SelectItem>)
    | NotFound
    | RedirectToAdminIndex
    | Denied
    | ServerError(error: Error)   // an exception from SaveChanges, shown as the error page

  /** The two clock readings the actions take: DateTime.Now and DateTime.UtcNow. */
  datatype Clock = Clock(Now: Time, UtcNow: Time)

  /** A request: the action and its route and form values. `posted` carries
      whatever the client sent for each property; `valid` is ModelState.IsValid. */
  datatype Request =
    | IndexRequest(categoryId: Option<int>)
    | AdminIndexRequest(categoryId: Option<int>)
    | DetailsRequest(id: Option<int>)
    | CreateFormRequest
    | CreateRequest(posted: Product, valid: bool)
    | EditFormRequest(id: Option<int>)
    | EditRequest(routeId: int, posted: Product, valid: bool)
    | DeleteFormRequest(id: Option<int>)
    | DeleteRequest(routeId: int)

  function ActionOf(r: Request): Action {
    match r
    case IndexRequest(_) => Index
    case AdminIndexRequest(_) => AdminIndex
    case DetailsRequest(_) => Details
    case CreateFormRequest => CreateForm
    case CreateRequest(_, _) => Create
    case EditFormRequest(_) => EditForm
    case EditRequest(_, _, _) => Edit
    case DeleteFormRequest(_) => DeleteForm
    case DeleteRequest(_) => DeleteConfirmed
  }

  // ---- joins and drop-downs -------------------------------------------------------------

  /** `Include(p => p.Category)` and, when asked, `Include(p => p.CreatedByUser)`. */
  function Include(t: Tables, p: Product, withCreator: bool): (e: Entry)
    ensures e.product == p
    ensures e.category.Some? <==> HasCategory(t.categories, p.CategoryId)
    ensures e.category.Some? ==> e.category.value in t.categories && e.category.value.Id == p.CategoryId
    ensures withCreator && HasUser(t.users, p.CreatedByUserId) <==> e.createdByUser.Some?
    ensures e.createdByUser.Some? ==> e.createdByUser.value in t.users
                                      && e.createdByUser.value.Id == p.CreatedByUserId
  {
    Entry(p, FindCategory(t.categories, p.CategoryId),
          if withCreator then FindUser(t.users, p.CreatedByUserId) else None)
  }

  function IncludeAll(t: Tables, ps: seq<Product>, withCreator: bool): (es: seq<Entry>)
    ensures |es| == |ps|
    ensures forall i :: 0 <= i < |ps| ==> es[i] == Include(t, ps[i], withCreator)
  {
    seq(|ps|, i requires 0 <= i < |ps| => Include(t, ps[i], withCreator))
  }

  /** The category drop-down: every category, ordered by name, the one whose id
      equals `selected` marked as selected. */
  function CategoryOptions(t: Tables, selected: Option<int>): (r: seq<SelectItem>)
    ensures |r| == |t.categories|
    ensures forall i, j :: 0 <= i < j < |r| ==> NameAtMost(r[i].Text, r[j].Text)
    ensures forall i :: 0 <= i < |r| ==> Category(r[i].Value, r[i].Text) in t.categories
    ensures forall c :: c in t.categories ==> exists i :: 0 <= i < |r| && r[i].Value == c.Id && r[i].Text == c.Name
    ensures forall i :: 0 <= i < |r| ==> (r[i].Selected <==> selected == Some(r[i].Value))
  {
    var sorted := OrderByName(t.categories);
    assert |sorted| == |multiset(sorted)| == |multiset(t.categories)| == |t.categories|;
    var r := seq(|sorted|, i requires 0 <= i < |sorted| =>
                   SelectItem(sorted[i].Id, sorted[i].Name, Some(sorted[i].Id) == selected));
    forall i | 0 <= i < |r| ensures Category(r[i].Value, r[i].Text) in t.categories {
      assert sorted[i] in multiset(sorted);
    }
    forall c | c in t.categories ensures exists i :: 0 <= i < |r| && r[i].Value == c.Id && r[i].Text == c.Name {
      assert c in multiset(sorted);
      var i :| 0 <= i < |sorted| && sorted[i] == c;
      assert r[i].Value == c.Id && r[i].Text == c.Name;
    }
    r
  }

  /** With distinct category ids, a filter on an existing category selects exactly
      one option; no filter selects none. */
  lemma OptionsSelection(t: Tables, selected: Option<int>)
    requires Consistent(t)
    ensures var r := CategoryOptions(t, selected);
      && (selected.None? ==> forall i :: 0 <= i < |r| ==> !r[i].Selected)
      && (forall i, j :: 0 <= i < |r| && 0 <= j < |r| && r[i].Selected && r[j].Selected ==> i == j)
      && (selected.Some? && HasCategory(t.categories, selected.value) ==>
            exists i :: 0 <= i < |r| && r[i].Selected)
  {
    var r := CategoryOptions(t, selected);
    var sorted := OrderByName(t.categories);
    forall i, j | 0 <= i < |r| && 0 <= j < |r| && r[i].Selected && r[j].Selected ensures i == j {
      if i != j {
        assert r[i].Value == r[j].Value;
        assert r[i] == SelectItem(sorted[i].Id, sorted[i].Name, true);
        assert r[j] == SelectItem(sorted[j].Id, sorted[j].Name, true);
        IdsUniqueInSorted(t.categories, sorted, i, j);
      }
    }
    if selected.Some? && HasCategory(t.categories, selected.value) {
      var c :| c in t.categories && c.Id == selected.value;
      var i :| 0 <= i < |r| && r[i].Value == c.Id && r[i].Text == c.Name;
      assert r[i].Selected;
    }
  }

  /** Sorting keeps the category ids distinct. */
  lemma IdsUniqueInSorted(cs: seq<Category>, sorted: seq<Category>, i: int, j: int)
    requires UniqueCategoryIds(cs) && multiset(sorted) == multiset(cs)
    requires 0 <= i < |sorted| && 0 <= j < |sorted| && i != j
    ensures sorted[i].Id != sorted[j].Id
  {
    if sorted[i].Id == sorted[j].Id {
      assert sorted[i] in multiset(cs) && sorted[j] in multiset(cs);
      var a :| 0 <= a < |cs| && cs[a] == sorted[i];
      var b :| 0 <= b < |cs| && cs[b] == sorted[j];
      assert a == b;
      assert sorted[i] == sorted[j];
      assert multiset(sorted)[sorted[i]] >= 2 by {
        var lo, hi := if i < j then i else j, if i < j then j else i;
        assert sorted == sorted[..lo] + [sorted[lo]] + sorted[lo + 1..hi] + [sorted[hi]] + sorted[hi + 1..];
      }
      CountOneWhenIdsUnique(cs, a);
    }
  }

  /** A row of a table with distinct ids occurs in it exactly once. */
  lemma CountOneWhenIdsUnique(cs: seq<Category>, a: int)
    requires UniqueCategoryIds(cs) && 0 <= a < |cs|
    ensures multiset(cs)[cs[a]] == 1
  {
    assert cs == cs[..a] + [cs[a]] + cs[a + 1..];
    assert forall k :: 0 <= k < a ==> cs[..a][k].Id != cs[a].Id;
    assert cs[a] !in cs[..a];
    assert cs[a] !in cs[a + 1..];
    assert multiset(cs) == multiset(cs[..a]) + multiset{cs[a]} + multiset(cs[a + 1..]);
  }

  // ---- the listings -------------------------------------------------------------------

  predicate InFilter(p: Product, categoryId: Option<int>) {
    categoryId.None? || p.CategoryId == categoryId.value
  }

  function WhereInFilter(ps: seq<Product>, categoryId: Option<int>): (r: seq<Product>)
    ensures forall p :: p in r <==> p in ps && InFilter(p, categoryId)
  {
    if categoryId.None? then ps else Where(ps, (p: Product) => p.CategoryId == categoryId.value)
  }

  /** Index: the live products (both bounds inclusive) of the chosen category,
      each with its category loaded, and the category drop-down. Nothing live
      in the category is left out. */
  function IndexPage(t: Tables, now: Time, categoryId: Option<int>): (v: CatalogView)
    ensures v.SelectedCategoryId == categoryId
    ensures forall e :: e in v.Products ==>
              && e.product in t.products && IsLive(e.product, now) && InFilter(e.product, categoryId)
              && e == Include(t, e.product, false)
    ensures forall p :: p in t.products && IsLive(p, now) && InFilter(p, categoryId) ==>
              Include(t, p, false) in v.Products
    ensures v.Categories == CategoryOptions(t, categoryId)
  {
    var ps := WhereInFilter(Where(t.products, (p: Product) => IsLive(p, now)), categoryId);
    var es := IncludeAll(t, ps, false);
    forall e | e in es ensures e.product in ps && e == Include(t, e.product, false) {
      var i :| 0 <= i < |es| && es[i] == e;
    }
    forall p | p in ps ensures Include(t, p, false) in es {
      var i :| 0 <= i < |ps| && ps[i] == p;
      assert es[i] == Include(t, p, false);
    }
    CatalogView(categoryId, es, CategoryOptions(t, categoryId))
  }

  /** AdminIndex: every product of the chosen category whatever its dates, each
      with its category and its creator loaded, and the category drop-down. */
  function AdminIndexPage(t: Tables, categoryId: Option<int>): (v: CatalogView)
    ensures v.SelectedCategoryId == categoryId
    ensures forall e :: e in v.Products ==>
              e.product in t.products && InFilter(e.product, categoryId) && e == Include(t, e.product, true)
    ensures forall p :: p in t.products && InFilter(p, categoryId) ==> Include(t, p, true) in v.Products
    ensures v.Categories == CategoryOptions(t, categoryId)
  {
    var ps := WhereInFilter(t.products, categoryId);
    var es := IncludeAll(t, ps, true);
    forall e | e in es ensures e.product in ps && e == Include(t, e.product, true) {
      var i :| 0 <= i < |es| && es[i] == e;
    }
    forall p | p in ps ensures Include(t, p, true) in es {
      var i :| 0 <= i < |ps| && ps[i] == p;
      assert es[i] == Include(t, p, true);
    }
    CatalogView(categoryId, es, CategoryOptions(t, categoryId))
  }

  /** Without a filter, the admin listing has a row for every stored product, in
      storage order, and the public listing is the live part of it. */
  lemma ListingsUnfiltered(t: Tables, now: Time)
    ensures |AdminIndexPage(t, None).Products| == |t.products|
    ensures forall i :: 0 <= i < |t.products| ==> AdminIndexPage(t, None).Products[i].product == t.products[i]
    ensures forall e :: e in IndexPage(t, now, None).Products ==>
              Include(t, e.product, true) in AdminIndexPage(t, None).Products
  {
    var admin := AdminIndexPage(t, None);
    assert admin.Products == IncludeAll(t, t.products, true);
  }

  // ---- the single-product pages ---------------------------------------------------------

  /** Details, and the GET Delete confirmation page, which runs the same query:
      NotFound for a missing or unknown id; otherwise the product, whatever its
      dates, with its category and creator loaded. */
  function DetailsPage(t: Tables, id: Option<int>): (r: ActionResult)
    ensures r.NotFound? <==> id.None? || !HasProduct(t.products, id.value)
    ensures !r.NotFound? ==> && r.ProductPage?
                             && r.entry.product in t.products && r.entry.product.Id == id.value
                             && r.entry == Include(t, r.entry.product, true)
  {
    if id.None? then NotFound
    else match FindProduct(t.products, id.value)
      case None => NotFound
      case Some(p) => ProductPage(Include(t, p, true))
  }

  /** The GET Create form: the drop-down with nothing selected. */
  function CreateFormPage(t: Tables): (r: ActionResult)
    ensures r.FormPage? && r.model.None?
    ensures forall i :: 0 <= i < |r.options| ==> !r.options[i].Selected
    ensures |r.options| == |t.categories|
    ensures r.options == CategoryOptions(t, None)
  {
    FormPage(None, CategoryOptions(t, None))
  }

  /** The GET Edit form: NotFound for a missing or unknown id; otherwise the stored
      product and the drop-down with its category selected. */
  function EditFormPage(t: Tables, id: Option<int>): (r: ActionResult)
    ensures r.NotFound? <==> id.None? || !HasProduct(t.products, id.value)
    ensures !r.NotFound? ==> && r.FormPage? && r.model.Some?
                             && r.model.value in t.products && r.model.value.Id == id.value
                             && r.options == CategoryOptions(t, Some(r.model.value.CategoryId))
  {
    if id.None? then NotFound
    else
      var p := FindProduct(t.products, id.value);
      if p.None? then NotFound else FormPage(p, CategoryOptions(t, Some(p.value.CategoryId)))
  }

  /** `ProductExists`: some stored product has this id. */
  function ProductExists(t: Tables, id: int): (b: bool)
    ensures b <==> exists i :: 0 <= i < |t.products| && t.products[i].Id == id
  {
    FindProduct(t.products, id).Some?
  }

  // ---- model binding ---------------------------------------------------------------

  /** `[Bind("Name,StartDate,Duration,Price,CategoryId")]`: a new Product with only
      those five properties taken from what was posted. */
  function BindCreate(posted: Product, utcNow: Time): (p: Product)
    ensures p.Name == posted.Name && p.StartDate == posted.StartDate && p.Duration == posted.Duration
            && p.Price == posted.Price && p.CategoryId == posted.CategoryId
    ensures p.EndDate == None && p.CreatedByUserId == "" && p.CreationDate == utcNow && p.Id == 0
  {
    NewProduct(utcNow).(Name := posted.Name, StartDate := posted.StartDate, Duration := posted.Duration,
                        Price := posted.Price, CategoryId := posted.CategoryId)
  }

  /** `[Bind("Id,Name,StartDate,Duration,Price,CategoryId")]`: the same, plus the Id. */
  function BindEdit(posted: Product, utcNow: Time): (p: Product)
    ensures p.Id == posted.Id
    ensures p.Name == posted.Name && p.StartDate == posted.StartDate && p.Duration == posted.Duration
            && p.Price == posted.Price && p.CategoryId == posted.CategoryId
    ensures p.EndDate == None && p.CreatedByUserId == "" && p.CreationDate == utcNow
  {
    BindCreate(posted, utcNow).(Id := posted.Id)
  }

  /** The five properties an edit copies onto the stored product. */
  function CopyEditable(existing: Product, from: Product): (p: Product)
    ensures p.Name == from.Name && p.StartDate == from.StartDate && p.Duration == from.Duration
            && p.Price == from.Price && p.CategoryId == from.CategoryId
    ensures p.Id == existing.Id && p.CreationDate == existing.CreationDate
            && p.EndDate == existing.EndDate && p.CreatedByUserId == existing.CreatedByUserId
  {
    existing.(Name := from.Name, StartDate := from.StartDate, Duration := from.Duration,
              Price := from.Price, CategoryId := from.CategoryId)
  }

  // ---- the posts, as functions of the tables -----------------------------------------

  /** POST Create: with a valid model, the bound product stamped with the current
      time and the caller's id is saved; otherwise the form is shown again. */
  function CreateResult(t: Tables, userId: string, posted: Product, valid: bool, clock: Clock)
    : (r: (ActionResult, Tables))
  {
    var product := BindCreate(posted, clock.UtcNow);
    if valid then
      var stamped := product.(CreationDate := clock.Now, CreatedByUserId := userId);
      var (o, t') := InsertProduct(t, stamped);
      (if o.Pass? then RedirectToAdminIndex else ServerError(o.error), t')
    else (FormPage(Some(product), CategoryOptions(t, Some(product.CategoryId))), t)
  }

  /** POST Edit: NotFound when the route id and the posted Id differ or no product
      has the id; with a valid model the five editable properties are copied
      onto the stored product and saved. */
  function EditResult(t: Tables, id: int, posted: Product, valid: bool, clock: Clock)
    : (r: (ActionResult, Tables))
  {
    var product := BindEdit(posted, clock.UtcNow);
    if id != product.Id then (NotFound, t)
    else if !valid then (FormPage(Some(product), CategoryOptions(t, Some(product.CategoryId))), t)
    else
      var existing := FindProduct(t.products, id);
      if existing.None? then (NotFound, t)
      else
        var (o, t') := UpdateProduct(t, CopyEditable(existing.value, product));
        (if o.Pass? then RedirectToAdminIndex else ServerError(o.error), t')
  }

  /** POST Delete: remove the product if it is there; redirect either way. */
  function DeleteConfirmedResult(t: Tables, id: int): (r: (ActionResult, Tables))
  {
    var existing := FindProduct(t.products, id);
    (RedirectToAdminIndex, if existing.Some? then RemoveProduct(t, id) else t)
  }

  /** One request: authorisation first, then the action. */
  function Dispatch(t: Tables, caller: Caller, clock: Clock, req: Request): (r: (ActionResult, Tables))
  {
    if !Authorize(ActionOf(req), caller) then (Denied, t)
    else match req
      case IndexRequest(categoryId) => (CatalogPage(IndexPage(t, clock.Now, categoryId)), t)
      case AdminIndexRequest(categoryId) => (CatalogPage(AdminIndexPage(t, categoryId)), t)
      case DetailsRequest(id) => (DetailsPage(t, id), t)
      case CreateFormRequest => (CreateFormPage(t), t)
      case CreateRequest(posted, valid) => CreateResult(t, caller.UserId, posted, valid, clock)
      case EditFormRequest(id) => (EditFormPage(t, id), t)
      case EditRequest(id, posted, valid) => EditResult(t, id, posted, valid, clock)
      case DeleteFormRequest(id) => (DetailsPage(t, id), t)
      case DeleteRequest(id) => DeleteConfirmedResult(t, id)
  }

  // ---- what the posts promise ---------------------------------------------------------

  /** POST Create with a valid model adds exactly one product, at the end, with a new
      id, created now by the caller, with its five bound properties from the post
      and no end date, whatever else was posted. An invalid model re-shows the form
      with the posted category selected; it, or a category or creator that does
      not exist, adds nothing. */
  lemma CreateEffect(t: Tables, userId: string, posted: Product, valid: bool, clock: Clock)
    requires Consistent(t)
    ensures var (r, t') := CreateResult(t, userId, posted, valid, clock);
      && Consistent(t')
      && (r == RedirectToAdminIndex <==>
            valid && HasCategory(t.categories, posted.CategoryId) && HasUser(t.users, userId))
      && (r == RedirectToAdminIndex ==>
            && |t'.products| == |t.products| + 1
            && t'.products[..|t.products|] == t.products
            && !HasProduct(t.products, t'.products[|t.products|].Id)
            && var p := t'.products[|t.products|];
               && p.CreationDate == clock.Now && p.CreatedByUserId == userId && p.EndDate == None
               && p.Name == posted.Name && p.StartDate == posted.StartDate
               && p.Duration == posted.Duration && p.Price == posted.Price
               && p.CategoryId == posted.CategoryId)
      && (r != RedirectToAdminIndex ==> t' == t)
      && t'.(products := t.products, nextProductId := t.nextProductId) == t
      && (!valid ==> r == FormPage(Some(BindCreate(posted, clock.UtcNow)),
                                   CategoryOptions(t, Some(posted.CategoryId))))
  {
    var product := BindCreate(posted, clock.UtcNow);
    var stamped := product.(CreationDate := clock.Now, CreatedByUserId := userId);
    InsertProductEffect(t, stamped);
    var (r, t') := CreateResult(t, userId, posted, valid, clock);
    if r == RedirectToAdminIndex {
      assert t'.products == t.products + [stamped.(Id := t.nextProductId)];
      assert t'.products[..|t.products|] == t.products;
    }
  }

  /** POST Edit: a route id that differs from the posted Id, or an id no product has,
      gives NotFound and changes nothing. On success only the product with that id
      changes, and only in its five editable properties: its id, creation date,
      creator and end date stay, every other product stays, and no other table
      changes. An invalid model re-shows the form with the posted category selected. */
  lemma EditEffect(t: Tables, id: int, posted: Product, valid: bool, clock: Clock)
    requires Consistent(t)
    ensures var (r, t') := EditResult(t, id, posted, valid, clock);
      && Consistent(t')
      && (id != posted.Id ==> r == NotFound && t' == t)
      && (valid && !HasProduct(t.products, id) ==> r == NotFound && t' == t)
      && (!valid && id == posted.Id ==>
            r == FormPage(Some(BindEdit(posted, clock.UtcNow)), CategoryOptions(t, Some(posted.CategoryId)))
            && t' == t)
      && (r == RedirectToAdminIndex <==>
            valid && id == posted.Id && HasProduct(t.products, id) && HasCategory(t.categories, posted.CategoryId))
      && (r == RedirectToAdminIndex ==>
            && valid && id == posted.Id && HasProduct(t.products, id)
            && |t'.products| == |t.products|
            && forall i :: 0 <= i < |t.products| ==>
                 if t.products[i].Id == id then t'.products[i] == CopyEditable(t.products[i], posted)
                 else t'.products[i] == t.products[i])
      && (r != RedirectToAdminIndex ==> t' == t)
      && t'.(products := t.products) == t
  {
    var product := BindEdit(posted, clock.UtcNow);
    var existing := FindProduct(t.products, id);
    if id == product.Id && valid && existing.Some? {
      var updated := CopyEditable(existing.value, product);
      assert updated == CopyEditable(existing.value, posted);
      UpdateProductEffect(t, updated);
      var (o, t') := UpdateProduct(t, updated);
      if o.Pass? {
        forall i | 0 <= i < |t.products| && t.products[i].Id == id
          ensures t'.products[i] == CopyEditable(t.products[i], posted)
        {
          var k :| 0 <= k < |t.products| && t.products[k] == existing.value;
          assert t.products[k].Id == t.products[i].Id;
          assert k == i;
        }
      }
    }
  }

  /** POST Delete removes exactly the product with the id, or nothing when there is
      none, changes no other table, and always redirects; deleting twice is
      deleting once. */
  lemma DeleteConfirmedEffect(t: Tables, id: int)
    requires Consistent(t)
    ensures var (r, t') := DeleteConfirmedResult(t, id);
      && r == RedirectToAdminIndex
      && Consistent(t')
      && (forall p :: p in t'.products <==> p in t.products && p.Id != id)
      && (!HasProduct(t.products, id) ==> t' == t)
      && DeleteConfirmedResult(t', id) == (RedirectToAdminIndex, t')
      && t'.(products := t.products) == t
  {
    RemoveProductEffect(t, id);
    var t' := DeleteConfirmedResult(t, id).1;
    if HasProduct(t.products, id) {
      assert !HasProduct(t'.products, id);
    } else {
      forall p | p in t.products ensures p.Id != id {
      }
    }
  }

  /** A denied request gets Denied and changes nothing; a GET changes nothing;
      every request keeps the database constraints. */
  lemma DispatchEffect(t: Tables, caller: Caller, clock: Clock, req: Request)
    requires Consistent(t)
    ensures var (r, t') := Dispatch(t, caller, clock, req);
      && Consistent(t')
      && (!Authorize(ActionOf(req), caller) <==> r == Denied)
      && (r == Denied ==> t' == t)
      && (!req.CreateRequest? && !req.EditRequest? && !req.DeleteRequest? ==> t' == t)
  {
    if Authorize(ActionOf(req), caller) {
      match req
      case CreateRequest(posted, valid) => CreateEffect(t, caller.UserId, posted, valid, clock);
      case EditRequest(id, posted, valid) => EditEffect(t, id, posted, valid, clock);
      case DeleteRequest(id) => DeleteConfirmedEffect(t, id);
      case _ =>
    }
  }

  // ---- the controller --------------------------------------------------------------

  /** The controller over its database context. The reads are the functions
      above applied to `context.Snapshot()`; the three posts change the context. */
  class ProductsController {
    const context: ApplicationDbContext

    constructor (context: ApplicationDbContext)
      ensures this.context == context
    {
      this.context := context;
    }

    method Create(userId: string, posted: Product, valid: bool, clock: Clock) returns (r: ActionResult)
      requires context.Valid()
      modifies context
      ensures context.Valid()
      ensures (r, context.Snapshot()) == CreateResult(old(context.Snapshot()), userId, posted, valid, clock)
    {
      var product := BindCreate(posted, clock.UtcNow);
      if valid {
        product := product.(CreationDate := clock.Now, CreatedByUserId := userId);
        var o := context.SaveNewProduct(product);
        r := if o.Pass? then RedirectToAdminIndex else ServerError(o.error);
        return;
      }
      r := FormPage(Some(product), CategoryOptions(context.Snapshot(), Some(product.CategoryId)));
    }

    method Edit(id: int, posted: Product, valid: bool, clock: Clock) returns (r: ActionResult)
      requires context.Valid()
      modifies context
      ensures context.Valid()
      ensures (r, context.Snapshot()) == EditResult(old(context.Snapshot()), id, posted, valid, clock)
    {
      var product := BindEdit(posted, clock.UtcNow);
      if id != product.Id {
        return NotFound;
      }
      if valid {
        var existing := FindProduct(context.products, id);
        if existing.None? {
          return NotFound;
        }
        var existingProduct := existing.value;
        existingProduct := existingProduct.(Name := product.Name);
        existingProduct := existingProduct.(StartDate := product.StartDate);
        existingProduct := existingProduct.(Duration := product.Duration);
        existingProduct := existingProduct.(Price := product.Price);
        existingProduct := existingProduct.(CategoryId := product.CategoryId);
        var o := context.SaveProduct(existingProduct);
        r := if o.Pass? then RedirectToAdminIndex else ServerError(o.error);
        return;
      }
      r := FormPage(Some(product), CategoryOptions(context.Snapshot(), Some(product.CategoryId)));
    }

    method DeleteConfirmed(id: int) returns (r: ActionResult)
      requires context.Valid()
      modifies context
      ensures context.Valid()
      ensures (r, context.Snapshot()) == DeleteConfirmedResult(old(context.Snapshot()), id)
    {
      var product := FindProduct(context.products, id);
      if product.Some? {
        context.DeleteProduct(id);
      }
      r := RedirectToAdminIndex;
    }

    /** One request through the authorisation filter and into its action. */
    method Invoke(caller: Caller, clock: Clock, req: Request) returns (r: ActionResult)
      requires context.Valid()
      modifies context
      ensures context.Valid()
      ensures (r, context.Snapshot()) == Dispatch(old(context.Snapshot()), caller, clock, req)
    {
      if !Authorize(ActionOf(req), caller) {
        return Denied;
      }
      var t := context.Snapshot();
      match req
      case IndexRequest(categoryId) => r := CatalogPage(IndexPage(t, clock.Now, categoryId));
      case AdminIndexRequest(categoryId) => r := CatalogPage(AdminIndexPage(t, categoryId));
      case DetailsRequest(id) => r := DetailsPage(t, id);
      case CreateFormRequest => r := CreateFormPage(t);
      case CreateRequest(posted, valid) => r := Create(caller.UserId, posted, valid, clock);
      case EditFormRequest(id) => r := EditFormPage(t, id);
      case EditRequest(id, posted, valid) => r := Edit(id, posted, valid, clock);
      case DeleteFormRequest(id) => r := DetailsPage(t, id);
      case DeleteRequest(id) => r := DeleteConfirmed(id);
    }
  }
}
