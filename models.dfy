/** The entity records of the catalog: products, categories, users, and the
    view model the two listings render. */
module Models {

  datatype Option<+T> = None | Some(value: T)

  /** A DateTime, as a count of 100-nanosecond ticks. */
  type Time = int

  const TicksPerDay: int := 864_000_000_000

  /** DateTime.AddDays for a whole number of days. */
  function AddDays(t: Time, days: int): (r: Time)
    ensures days >= 0 <==> r >= t
    ensures days > 0 <==> r > t
  {
    t + days * TicksPerDay
  }

  /** A decimal value: `units` scaled down by 10^scale (999.99m is Decimal(99999, 2)).
      Prices are only copied, never computed with. */
  datatype Decimal = Decimal(units: int, scale: nat)

  /** A stored product row. `Category` and `CreatedByUser` are not stored:
      they are resolved from `CategoryId` and `CreatedByUserId` (see Entry). */
  datatype Product = Product(
    Id: int,
    Name: string,
    Price: Decimal,
    StartDate: Time,
    Duration: int,        // a count of days, independent of EndDate
    CategoryId: int,
    CreationDate: Time,
    EndDate: Option<Time>, // absent: the window never closes
    CreatedByUserId: string)

  /** `new Product()`: every property at its initialiser or its type's default;
      `utcNow` is the clock reading taken by the CreationDate initialiser. */
  function NewProduct(utcNow: Time): (p: Product)
    ensures p.Name == "" && p.CreatedByUserId == ""
    ensures p.CreationDate == utcNow && p.EndDate == None
    ensures p.Id == 0 && p.CategoryId == 0 && p.Duration == 0 && p.StartDate == 0
    ensures p.Price == Decimal(0, 0)
  {
    Product(0, "", Decimal(0, 0), 0, 0, 0, utcNow, None, "")
  }

  /** The public visibility rule: started, and not yet ended, both bounds inclusive. */
  predicate IsLive(p: Product, now: Time) {
    p.StartDate <= now && (p.EndDate.None? || p.EndDate.value >= now)
  }

  datatype Category = Category(Id: int, Name: string)

  /** An identity user: its opaque id, its email and its role memberships. */
  datatype User = User(Id: string, Email: string, Roles: set<string>)

  /** A product with its navigation properties loaded (or left null) by `Include`. */
  datatype Entry = Entry(product: Product, category: Option<Category>, createdByUser: Option<User>)

  /** A drop-down option: the category's id, its name and whether it is selected. */
  datatype SelectItem = SelectItem(Value: int, Text: string, Selected: bool)

  /** ProductCatalogViewModel. */
  datatype CatalogView = CatalogView(
    SelectedCategoryId: Option<int>,
    Products: seq<Entry>,
    Categories: seq<SelectItem>)

  /** An open-ended window never closes: once started, the product stays live. */
  lemma OpenEndedStaysLive(p: Product, now: Time, later: Time)
    requires p.EndDate.None? && IsLive(p, now) && now <= later
    ensures IsLive(p, later)
  {
  }

  /** EndDate and Duration are independent: two products that differ only in
      Duration have the same visibility at every instant. */
  lemma DurationDoesNotAffectVisibility(p: Product, days: int, now: Time)
    ensures IsLive(p, now) == IsLive(p.(Duration := days), now)
  {
  }
}
