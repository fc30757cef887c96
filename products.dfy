/** The product service: the five operations on the products table (list,
    get, create, update, delete), the input validation they perform and the
    translation of every failure into one classified service error.

    Each operation is given the table (the storage executor) and a `Faults`
    value that says which calls outside this model fail. The listing and the
    lookup only read and are functions of the table's rows; create, update
    and delete change the table and are methods, each proved equal to a
    function (`CreateOutcome`, `UpdateOutcome`, `DeleteOutcome`) that gives
    the reply and the rows afterwards. */
module Services {
  import opened Types
  import opened Models

  /** The request payload. The price is a whole number of units. */
  datatype ProductBody = ProductBody(name: string, description: string, price: int)

  /** Which calls outside the service fail on this request: the SELECT of a
      listing or lookup (for a reason other than "no rows"; a cancelled
      context is one such reason), the decimal parse of the price text, the
      decimal scan of the parsed value, and the INSERT, UPDATE or DELETE. */
  datatype Faults = Faults(query: bool, parse: bool, scan: bool, write: bool)

  const NoFaults := Faults(false, false, false, false)

  /** The reply of a state-changing operation and the rows after it. */
  datatype Step<R> = Step(reply: R, rows: map<int, Product>)

  // The fixed errors the service returns.
  const ListFailed := ServiceError("Unable to get products", Driver, StatusInternalServerError)
  const ProductNotFound := ServiceError("Product not found", NoRows, StatusNotFound)
  const LookupFailed := ServiceError("Unable to get product", Driver, StatusInternalServerError)
  const NegativePrice := ServiceError("Price cannot be negative", InvalidPrice, StatusBadRequest)
  const InvalidPriceFormat := ServiceError("Invalid price format", DecimalParse, StatusBadRequest)
  const PriceConversionFailed :=
    ServiceError("Failed to convert price to decimal", DecimalScan, StatusInternalServerError)
  const CreateFailed := ServiceError("Unable to create product", Driver, StatusInternalServerError)
  const UpdateFailed := ServiceError("Unable to update product", Driver, StatusInternalServerError)
  const DeleteFailed := ServiceError("Unable to delete product", Driver, StatusInternalServerError)

  /** The stored description for a request's description: an empty text is
      stored as NULL. */
  function NullableDescription(d: string): (n: NullString)
    ensures n.valid <==> d != ""
    ensures WellFormedDescription(n)
    ensures DescriptionText(n) == d
  {
    NullString(d, d != "")
  }

  /** The text a reader recovers from a stored description (NULL reads as ""). */
  function DescriptionText(n: NullString): string {
    if n.valid then n.str else ""
  }

  /** A description is NULL or a non-empty text, never a present empty text. */
  ghost predicate WellFormedDescription(n: NullString) {
    n.valid <==> n.str != ""
  }

  /** What the service keeps true of every stored row. */
  ghost predicate WellFormed(p: Product) {
    p.price >= 0 && WellFormedDescription(p.description)
  }

  /** The table invariant: rows keyed by their id, and every row well formed. */
  ghost predicate StoreInvariant(rows: map<int, Product>) {
    Keyed(rows) && forall id :: id in rows ==> WellFormed(rows[id])
  }

  /** `p` carries the name, description and price of `body`. */
  ghost predicate Carries(p: Product, body: ProductBody) {
    && p.name == body.name
    && p.price == body.price
    && p.description.str == body.description
    && (p.description.valid <==> body.description != "")
  }

  /** The error a failed lookup by id turns into. */
  function LookupError(q: Query<Product>): (e: ServiceError)
    requires !q.Rows?
    ensures Classified(e)
    ensures e.code == StatusNotFound <==> q.ErrNoRows?
    ensures q.ErrNoRows? ==> e == ProductNotFound
    ensures q.ErrDriver? ==> e == LookupFailed
  {
    if q.ErrNoRows? then ProductNotFound else LookupFailed
  }

  /** Listing: every product, or the listing error. */
  function GetProducts(rows: map<int, Product>, f: Faults): (r: Result<seq<Product>>)
    ensures r.Ok? <==> !f.query
    ensures r.Err? ==> r.error == ListFailed
    ensures r.Ok? ==> Lists(r.value, rows)
  {
    match All(rows, f.query)
    case Rows(products) => Ok(products)
    case _ => Err(ListFailed)
  }

  /** Lookup by id: the stored product; 404 for a missing id; 500 for any
      other storage failure. */
  function GetProduct(rows: map<int, Product>, id: int, f: Faults): (r: Result<Product>)
    ensures r.Ok? <==> !f.query && id in rows
    ensures r.Ok? ==> r.value == rows[id]
    ensures !f.query && id !in rows ==> r == Err(ProductNotFound)
    ensures f.query ==> r == Err(LookupFailed)
  {
    var found := FindProduct(rows, id, f.query);
    if found.Rows? then Ok(found.value) else Err(LookupError(found))
  }

  /** Creating a product, when storage would give the new row the unused id
      `id`. */
  function CreateOutcome(rows: map<int, Product>, body: ProductBody, f: Faults, id: int)
    : (o: Step<Result<Product>>)
    requires id !in rows
    ensures o.reply.Err? ==> o.rows == rows && Classified(o.reply.error)
    ensures body.price < 0 ==> o.reply == Err(NegativePrice)
    ensures body.price >= 0 && f.parse ==> o.reply == Err(InvalidPriceFormat)
    ensures body.price >= 0 && !f.parse && f.scan ==> o.reply == Err(PriceConversionFailed)
    ensures body.price >= 0 && !f.parse && !f.scan && f.write ==> o.reply == Err(CreateFailed)
    ensures o.reply.Ok? <==> body.price >= 0 && !f.parse && !f.scan && !f.write
    ensures o.reply.Ok? ==>
      && o.reply.value.id == id
      && Carries(o.reply.value, body)
      && o.rows == rows[id := o.reply.value]
      && |o.rows| == |rows| + 1
    ensures StoreInvariant(rows) ==> StoreInvariant(o.rows)
  {
    if body.price < 0 then Step(Err(NegativePrice), rows)
    else if f.parse then Step(Err(InvalidPriceFormat), rows)
    else if f.scan then Step(Err(PriceConversionFailed), rows)
    else if f.write then Step(Err(CreateFailed), rows)
    else
      var product := Product(id, body.name, NullableDescription(body.description), body.price);
      Step(Ok(product), rows[id := product])
  }

  /** Updating the product `id`: the lookup comes first, then the price checks. */
  function UpdateOutcome(rows: map<int, Product>, id: int, body: ProductBody, f: Faults)
    : (o: Step<Result<Product>>)
    requires Keyed(rows)
    ensures o.reply.Err? ==> o.rows == rows && Classified(o.reply.error)
    ensures f.query ==> o.reply == Err(LookupFailed)
    ensures !f.query && id !in rows ==> o.reply == Err(ProductNotFound)
    ensures !f.query && id in rows && body.price < 0 ==> o.reply == Err(NegativePrice)
    ensures !f.query && id in rows && body.price >= 0 && f.parse ==>
      o.reply == Err(InvalidPriceFormat)
    ensures !f.query && id in rows && body.price >= 0 && !f.parse && f.scan ==>
      o.reply == Err(PriceConversionFailed)
    ensures !f.query && id in rows && body.price >= 0 && !f.parse && !f.scan && f.write ==>
      o.reply == Err(UpdateFailed)
    ensures o.reply.Ok? <==>
      !f.query && id in rows && body.price >= 0 && !f.parse && !f.scan && !f.write
    ensures o.reply.Ok? ==>
      && o.reply.value.id == id
      && Carries(o.reply.value, body)
      && o.rows == rows[id := o.reply.value]
      && o.rows.Keys == rows.Keys
    ensures StoreInvariant(rows) ==> StoreInvariant(o.rows)
  {
    var found := FindProduct(rows, id, f.query);
    if !found.Rows? then Step(Err(LookupError(found)), rows)
    else if body.price < 0 then Step(Err(NegativePrice), rows)
    else if f.parse then Step(Err(InvalidPriceFormat), rows)
    else if f.scan then Step(Err(PriceConversionFailed), rows)
    else
      var product := found.value.(name := body.name,
                                  description := NullableDescription(body.description),
                                  price := body.price);
      if f.write then Step(Err(UpdateFailed), rows)
      else Step(Ok(product), rows[product.id := product])
  }

  /** Deleting the product `id`: the lookup comes first, then the DELETE. */
  function DeleteOutcome(rows: map<int, Product>, id: int, f: Faults): (o: Step<Outcome>)
    requires Keyed(rows)
    ensures o.reply.Failure? ==> o.rows == rows && Classified(o.reply.error)
    ensures f.query ==> o.reply == Failure(LookupFailed)
    ensures !f.query && id !in rows ==> o.reply == Failure(ProductNotFound)
    ensures !f.query && id in rows && f.write ==> o.reply == Failure(DeleteFailed)
    ensures o.reply.Success? <==> !f.query && id in rows && !f.write
    ensures o.reply.Success? ==> o.rows == rows - {id} && |o.rows| == |rows| - 1
    ensures StoreInvariant(rows) ==> StoreInvariant(o.rows)
  {
    var found := FindProduct(rows, id, f.query);
    if !found.Rows? then Step(Failure(LookupError(found)), rows)
    else if f.write then Step(Failure(DeleteFailed), rows)
    else Step(Success, rows - {found.value.id})
  }

  /** Create: validate the price, convert it, build the row and insert it. */
  method CreateProduct(db: ProductTable, body: ProductBody, f: Faults) returns (r: Result<Product>)
    requires db.Valid()
    modifies db
    ensures db.Valid()
    ensures exists id :: id !in old(db.rows) && Step(r, db.rows) == CreateOutcome(old(db.rows), body, f, id)
  {
    ghost var anyId := UnusedId(db.rows.Keys);
    if body.price < 0 {
      r := Err(NegativePrice);
      assert Step(r, db.rows) == CreateOutcome(db.rows, body, f, anyId);
      return;
    }
    if f.parse {
      r := Err(InvalidPriceFormat);
      assert Step(r, db.rows) == CreateOutcome(db.rows, body, f, anyId);
      return;
    }
    if f.scan {
      r := Err(PriceConversionFailed);
      assert Step(r, db.rows) == CreateOutcome(db.rows, body, f, anyId);
      return;
    }
    var product := Product(0, body.name, NullableDescription(body.description), body.price);
    var err, stored := db.Insert(product, f.write);
    if err {
      r := Err(CreateFailed);
      assert Step(r, db.rows) == CreateOutcome(old(db.rows), body, f, anyId);
      return;
    }
    r := Ok(stored);
    assert Step(r, db.rows) == CreateOutcome(old(db.rows), body, f, stored.id);
  }

  /** Update: look the product up, validate and convert the price, overwrite
      name, description and price, and write the row back. */
  method UpdateProduct(db: ProductTable, id: int, body: ProductBody, f: Faults)
    returns (r: Result<Product>)
    requires db.Valid()
    modifies db
    ensures db.Valid()
    ensures Step(r, db.rows) == UpdateOutcome(old(db.rows), id, body, f)
  {
    var found := FindProduct(db.rows, id, f.query);
    if !found.Rows? {
      return Err(LookupError(found));
    }
    if body.price < 0 {
      return Err(NegativePrice);
    }
    if f.parse {
      return Err(InvalidPriceFormat);
    }
    if f.scan {
      return Err(PriceConversionFailed);
    }
    var product := found.value;
    product := product.(name := body.name);
    product := product.(description := NullableDescription(body.description));
    product := product.(price := body.price);
    var err := db.Update(product, f.write);
    if err {
      return Err(UpdateFailed);
    }
    return Ok(product);
  }

  /** Delete: look the product up and delete its row. */
  method DeleteProduct(db: ProductTable, id: int, f: Faults) returns (r: Outcome)
    requires db.Valid()
    modifies db
    ensures db.Valid()
    ensures Step(r, db.rows) == DeleteOutcome(old(db.rows), id, f)
  {
    var found := FindProduct(db.rows, id, f.query);
    if !found.Rows? {
      return Failure(LookupError(found));
    }
    var err := db.Delete(found.value, f.write);
    if err {
      return Failure(DeleteFailed);
    }
    return Success;
  }

  /** The description mapping loses nothing in the other direction either: a
      well-formed stored description is what its own text maps to. */
  lemma DescriptionRoundTrip(n: NullString)
    ensures WellFormedDescription(n) ==> NullableDescription(DescriptionText(n)) == n
  {
  }

  /** A lookup right after a successful create returns the created product. */
  lemma GetAfterCreate(rows: map<int, Product>, body: ProductBody, f: Faults, id: int)
    requires id !in rows
    requires CreateOutcome(rows, body, f, id).reply.Ok?
    ensures GetProduct(CreateOutcome(rows, body, f, id).rows, id, NoFaults)
         == CreateOutcome(rows, body, f, id).reply
  {
  }

  /** A lookup right after a successful update sees exactly the new values. */
  lemma GetAfterUpdate(rows: map<int, Product>, id: int, body: ProductBody, f: Faults)
    requires Keyed(rows)
    requires UpdateOutcome(rows, id, body, f).reply.Ok?
    ensures GetProduct(UpdateOutcome(rows, id, body, f).rows, id, NoFaults)
         == UpdateOutcome(rows, id, body, f).reply
  {
  }

  /** After a successful delete the id is not found, and deleting again is 404. */
  lemma GetAfterDelete(rows: map<int, Product>, id: int, f: Faults)
    requires Keyed(rows)
    requires DeleteOutcome(rows, id, f).reply.Success?
    ensures GetProduct(DeleteOutcome(rows, id, f).rows, id, NoFaults) == Err(ProductNotFound)
    ensures Keyed(DeleteOutcome(rows, id, f).rows)
    ensures DeleteOutcome(DeleteOutcome(rows, id, f).rows, id, NoFaults).reply
         == Failure(ProductNotFound)
  {
  }

  /** A session on an empty table: create, get, update, delete, get. */
  lemma ExampleSession()
    ensures
      var empty: map<int, Product> := map[];
      var widget := Product(1, "Widget", NullString("", false), 10);
      var created := CreateOutcome(empty, ProductBody("Widget", "", 10), NoFaults, 1);
      var updated := UpdateOutcome(created.rows, 1, ProductBody("Widget2", "d", 20), NoFaults);
      var deleted := DeleteOutcome(updated.rows, 1, NoFaults);
      && created.reply == Ok(widget)
      && GetProduct(created.rows, 1, NoFaults) == Ok(widget)
      && updated.reply == Ok(Product(1, "Widget2", NullString("d", true), 20))
      && deleted.reply == Success
      && GetProduct(deleted.rows, 1, NoFaults) == Err(ProductNotFound)
  {
  }
}
