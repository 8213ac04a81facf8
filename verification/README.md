# Domain-driven: a Dafny model of the entity services and the activity client

This project models the core of a small ASP.NET Core web API and the React
client that sits on it.

The API keeps customers, products, orders and e-mail campaign activities in
one database. Four services carry the logic:

- `CustomerService` and `ProductService` create, read, update and delete rows
  keyed by an integer identity.
- `OrderService` checks that an order's product and customer exist before
  inserting it. It updates an order found by its (product, customer) pair.
- `ActivityService` keys activities by Guid. It validates with
  `string.IsNullOrWhiteSpace` and applies partial updates with `??`.

The client shows the activities grouped by month, newest first. Each month
gets an engagement badge, computed from the opened/sent ratio. Each month
also gets a timeline whose entries expand. Forms create and update
activities and check the required fields.

The database is one immutable value, `Entities.Db`. Customers, products and
activities are maps keyed by primary key. Orders are a sequence in storage
order, because `UpdateOrder` takes the first match.

Every service call is a pure function that returns an `Outcome`. An
`Outcome` holds:

- the call's return value, with `null` written as `None`;
- the database after the call;
- whether the call committed.

Anything the source gets from outside becomes a parameter:

- the identity or Guid the database allocates;
- the readings of `DateTime.UtcNow`;
- the row count `SaveChangesAsync` reports;
- on the client, the month key and timestamp that `date-fns` and `Date`
  compute.

Text tests are modelled character by character, in two separate sets. .NET
`char.IsWhiteSpace` includes U+0085. JavaScript `trim` includes U+FEFF.

Modules, one per source component:

- `Entities` and `Dtos`: the data model.
- `CustomerService`, `ProductService`, `OrderService` and `ActivityService`:
  the four services.
- `Seed`: the seeded rows.
- `Integrity`: the foreign keys across services.
- `Engagement`, `Timeline` and `GetActivities`: the read side of the client.
- `ActivityForms`, `CreateActivity` and `UpdateActivity`: the forms.
- `Wrappers`, `DotNetText`, `JsText`, `Tables` and `Seqs`: helpers.

## Model

| member | source | states |
|---|---|---|
| CustomerService.MapToCustomerDto | Services/Concrete/CustomerService.cs:83-93 | The payload carries every column of the row: the row can be rebuilt from it. |
| CustomerService.CreateCustomer | Services/Concrete/CustomerService.cs:18-39 | It commits exactly when the payload is present and none of the four fields is null or empty. On commit exactly one row is added, under the new id, holding the payload's fields. Nothing changes otherwise. The payload is returned only when the commit reports rows. |
| CustomerService.DeleteCustomer | Services/Concrete/CustomerService.cs:41-52 | It returns true exactly when the id existed. That row and only that row is removed. The service itself writes nothing else: it does not touch the orders that refer to the customer. |
| CustomerService.GetAllCustomers | Services/Concrete/CustomerService.cs:54-58 | It returns one payload per stored customer: every row appears once, and every payload equals its row. |
| CustomerService.GetCustomerById | Services/Concrete/CustomerService.cs:60-64 | It returns the row's payload when the id exists, and null otherwise. |
| CustomerService.UpdateCustomer | Services/Concrete/CustomerService.cs:66-81 | It fails without change when the id is missing. Otherwise it overwrites all four fields with the payload's, nulls included. Other rows and tables stay the same. |
| CustomerService.CreateThenGet | Services/Concrete/CustomerService.cs:18-64 | A customer that was created reads back as the payload the creation returned. |
| CustomerService.CreateThenDelete | Services/Concrete/CustomerService.cs:18-52 | Deleting a customer that was just created restores the previous store. |
| CustomerService.WhiteSpaceNameAccepted | Services/Concrete/CustomerService.cs:20-25 | A first name of only spaces passes `IsNullOrEmpty` and is stored. |
| CustomerService.UpdateThenGet | Services/Concrete/CustomerService.cs:60-81 | An updated customer reads back as the payload the update returned. |
| CustomerService.UpdateIdempotent | Services/Concrete/CustomerService.cs:66-81 | Repeating an update returns the same payload and leaves the store as the first update left it. |
| ProductService.MapToProductDto | Services/Concrete/ProductService.cs:84-93 | The payload carries every column: the row can be rebuilt from it. |
| ProductService.CreateProduct | Services/Concrete/ProductService.cs:18-37 | It commits exactly when name, description and SKU are all non-null and non-empty. On commit exactly one row is added under the new id. The payload is returned only when rows are reported. |
| ProductService.DeleteProduct | Services/Concrete/ProductService.cs:40-51 | It returns true exactly when the id existed. Only that row goes. The service itself does not touch the orders that refer to the product. |
| ProductService.GetAllProducts | Services/Concrete/ProductService.cs:53-57 | It returns one payload per stored product, each equal to its row. |
| ProductService.GetProductById | Services/Concrete/ProductService.cs:59-63 | It returns the row's payload when the id exists, and null otherwise. |
| ProductService.UpdateProduct | Services/Concrete/ProductService.cs:65-82 | The payload is checked first: it must be present, with a non-empty name and description. Then the id is looked up. On success name, description and SKU are all overwritten. Nothing else changes. |
| ProductService.CreateThenGet | Services/Concrete/ProductService.cs:18-63 | A product that was created reads back as the returned payload. |
| ProductService.CreateThenDelete | Services/Concrete/ProductService.cs:18-51 | Deleting a product that was just created restores the store. |
| ProductService.UpdateMayClearSku | Services/Concrete/ProductService.cs:65-77 | An update may store a null SKU that creation would refuse. |
| ProductService.UpdateThenGet | Services/Concrete/ProductService.cs:59-82 | An updated product reads back as the payload the update returned. |
| ProductService.UpdateIdempotent | Services/Concrete/ProductService.cs:65-82 | Repeating an update returns the same payload and leaves the store as the first update left it. |
| OrderService.MapToOrderDto | Services/Concrete/OrderService.cs:90-101 | The payload has both dates and rebuilds the order exactly. |
| OrderService.IndexOfIdUnique | Services/Concrete/OrderService.cs:64-73 | The lookup by id finds a row exactly when one exists. Because ids are unique, that row is the only match, so `SingleOrDefault` never sees two. |
| OrderService.CreateOrder | Services/Concrete/OrderService.cs:18-43 | It commits exactly when the payload is present, both ids are positive, a status is given, and the product and customer both exist. The new order is appended stamped with `now`, and its update time is `DateTime.MinValue`. Earlier orders stay as they were. The payload is returned only when rows are reported. |
| OrderService.DeleteOrder | Services/Concrete/OrderService.cs:45-56 | It returns true exactly when an order has that id. Afterwards no order has it, and every other order remains. |
| OrderService.GetAllOrders | Services/Concrete/OrderService.cs:58-62 | It returns one payload per order, in storage order. |
| OrderService.GetOrderById | Services/Concrete/OrderService.cs:64-73 | It returns a payload exactly when an order has that id, and the payload is that order's. |
| OrderService.UpdateOrder | Services/Concrete/OrderService.cs:75-88 | It commits exactly when some order has the payload's product and customer ids. Only the first such order changes, and only in its status and update time. |
| OrderService.CreateThenGet | Services/Concrete/OrderService.cs:18-73 | An order that was created reads back by its id as the returned payload. |
| OrderService.UpdateReachesFirstOfPair | Services/Concrete/OrderService.cs:77-83 | When two orders share a product and customer, the later one is never updated. |
| ActivityService.MapToDto | Services/Concrete/ActivityService.cs:86-100 | The payload carries all nine columns and rebuilds the row. |
| ActivityService.Create | Services/Concrete/ActivityService.cs:18-44 | It commits exactly when the payload is present and none of the four strings is null, empty or white space. The new row gets the fresh Guid, the two clock readings as created and sent date, and no opened or bounced date. The payload is returned only when rows are reported. |
| ActivityService.Delete | Services/Concrete/ActivityService.cs:46-54 | It commits exactly when the Guid exists, and reports success only when rows are reported. Only that row goes. |
| ActivityService.GetAll | Services/Concrete/ActivityService.cs:56-60 | It returns one payload per stored activity, each equal to its row. |
| ActivityService.GetById | Services/Concrete/ActivityService.cs:62-66 | It returns the row's payload when the Guid exists, and null otherwise. |
| ActivityService.Patched | Services/Concrete/ActivityService.cs:73-78 | Each string column takes the payload's value unless that value is null. Both engagement dates take the payload's value, even when it is null. Id, created and sent dates stay the same. |
| ActivityService.Update | Services/Concrete/ActivityService.cs:68-83 | It fails without change when the Guid is missing. Otherwise it stores the patched row and returns it. No other row changes. |
| ActivityService.CreateThenGet | Services/Concrete/ActivityService.cs:18-66 | An activity that was created reads back as the returned payload. |
| ActivityService.UpdateIdempotent | Services/Concrete/ActivityService.cs:68-83 | Applying the same update twice gives the same store as applying it once. |
| ActivityService.CreateThenDelete | Services/Concrete/ActivityService.cs:18-54 | Deleting an activity that was just created restores the previous store. The delete reports success exactly when its own commit reports rows. |
| ActivityService.UpdateThenGet | Services/Concrete/ActivityService.cs:62-83 | An updated activity reads back as the payload the update returned. |
| ActivityService.NullStringsKeepRow | Services/Concrete/ActivityService.cs:73-78 | With all strings null and the same dates, an update leaves the row unchanged. A null date clears the stored one. |
| ActivityService.EmptyStringOverwrites | Services/Concrete/ActivityService.cs:73-76 | An empty string is not null, so it overwrites the stored name. |
| ActivityService.WhiteSpaceNameRefused | Services/Concrete/ActivityService.cs:20-27 | A name of only spaces is refused here, although `IsNullOrEmpty` would accept it. |
| DotNetText.EmptyIsWhiteSpace | Services/Concrete/ActivityService.cs:21-24 | `IsNullOrWhiteSpace` refuses everything `IsNullOrEmpty` refuses, and also a lone space. |
| Tables.FirstIndex | Services/Concrete/OrderService.cs:77 | It returns the first position satisfying the test, or none exactly when no position does. |
| Tables.Rows | Services/Concrete/CustomerService.cs:56 | It lists every entry of a table once, with distinct keys. |
| Seed.CalendarDate | Persistence/ApplicationDbContext.cs:91 | `new DateTime(y, m, d)` is a non-negative whole number of days in ticks. |
| Seed.CalendarDateEpoch | Persistence/ApplicationDbContext.cs:91 | 1 January of year 1 is tick 0. |
| Seed.CalendarNextDay | Persistence/ApplicationDbContext.cs:91 | The next day of the same month is one day of ticks later. |
| Seed.CalendarNextMonth | Persistence/ApplicationDbContext.cs:91 | The first of the next month is one day of ticks after the last day of the month. |
| Seed.CalendarNextYear | Persistence/ApplicationDbContext.cs:91 | 1 January is one day of ticks after 31 December of the year before, leap years included. With the epoch, these fix the tick count of every date. |
| Seed.Initial | Persistence/ApplicationDbContext.cs:62-120 | The seeded store has three rows per table, and every seeded order's product and customer exist. |
| Seed.SeedActivityDates | Persistence/ApplicationDbContext.cs:91-115 | 1 January 2024 is tick 638396640000000000. The three seed activities are created a month apart, in order. |
| Integrity.CreateOrderKeepsReferences | Services/Concrete/OrderService.cs:24-29 | If every order's product and customer exist before an order is created, they still exist after. |
| Integrity.UpdateOrderKeepsReferences | Services/Concrete/OrderService.cs:82-83 | Updating an order keeps every order's references resolvable. |
| Integrity.DeleteOrderKeepsReferences | Services/Concrete/OrderService.cs:45-56 | Deleting an order keeps every order's references resolvable. |
| Integrity.UpdatesKeepReferences | Services/Concrete/CustomerService.cs:66-81 | Updating a customer or a product keeps every key, so every reference that resolved still resolves. |
| Integrity.DeleteCustomerMayOrphan | Services/Concrete/CustomerService.cs:41-52 | The service's own writes do not keep the references: deleting seeded customer 1 succeeds and leaves seeded order 1 pointing at no customer. |
| Integrity.DeleteProductMayOrphan | Services/Concrete/ProductService.cs:40-51 | The service's own writes do not keep the references: deleting seeded product 2 succeeds and leaves an order pointing at no product. |
| Integrity.OrderForNewCustomer | Services/Concrete/OrderService.cs:18-43 | An order for a missing customer is refused. Once the customer is created, the same order is accepted and reads back with its ids, status and dates. |
| Engagement.CalculateEngagementLevel | UX/src/components/Engagement.tsx:4-21 | The sent count is the number of activities with a truthy sent date, and the opened count is independently the number with a truthy opened date. The level is Low when nothing was sent. Otherwise it is High, Medium or Low exactly as opened/sent is above 0.66, above 0.33, or neither, stated on the counts. |
| Engagement.LevelByCounts | UX/src/components/Engagement.tsx:14-18 | The real-valued threshold test and the integer cross-multiplied test agree in both directions. |
| Engagement.RatioAbove | UX/src/components/Engagement.tsx:17-18 | opened/sent > n/100 exactly when 100·opened > n·sent. |
| Engagement.LevelMonotone | UX/src/components/Engagement.tsx:14-18 | With the sent count fixed, more opens never lower the level. |
| Engagement.OpenedMayExceedSent | UX/src/components/Engagement.tsx:11-12 | Opens are counted without regard to the sent date: 2 opens out of 1 sent reads as High. |
| Engagement.AllOrNothingOpened | UX/src/components/Engagement.tsx:11-18 | A non-empty month where every activity was sent and opened is High. A month where something was sent and nothing opened is Low. |
| Engagement.TrafficColor | UX/src/components/Engagement.tsx:23-33 | Each level has its own class, and each class belongs to one level. |
| Timeline.HasDateIff | UX/src/components/Timeline.tsx:21-23 | A date icon is hidden exactly when the date is missing or made only of characters `trim` removes. |
| Timeline.ToggleDetails | UX/src/components/Timeline.tsx:28-32 | Toggling flips whether that id is expanded and no other. A new id is appended. An expanded id is removed with all its copies: the result is an order-preserving subsequence, shorter by exactly the number of copies, so every other entry stays as often as it was. |
| Timeline.ToggleKeepsNoDuplicates | UX/src/components/Timeline.tsx:28-32 | A list of expanded ids with no repeats stays free of repeats. |
| Timeline.ToggleTwiceRestores | UX/src/components/Timeline.tsx:28-32 | Toggling an id that is not expanded twice gives back the same list. |
| Timeline.ToggleTwiceMovesToEnd | UX/src/components/Timeline.tsx:28-32 | Toggling an expanded id twice keeps the same ids but moves that id last. |
| JsText.BlankIff | UX/src/components/Activities/CreateActivity.tsx:40 | `!s.trim()` holds exactly when every character is one `trim` removes. |
| JsText.TrimStart | UX/src/components/Activities/CreateActivity.tsx:40 | The result is a suffix that starts with a kept character. Everything dropped was removable. |
| JsText.TrimEnd | UX/src/components/Activities/CreateActivity.tsx:40 | The result is a prefix that ends with a kept character. Everything dropped was removable. |
| Seqs.Filter | UX/src/components/Timeline.tsx:30 | The result is an order-preserving subsequence whose length is the number of elements passing the test. |
| Seqs.FilterMultiplicity | UX/src/components/Timeline.tsx:30 | Every element passing the test is kept as often as it occurs, and every other element is dropped. |
| Seqs.CountExtremes | UX/src/components/Engagement.tsx:11-12 | The count equals the length exactly when every element passes, and is zero exactly when none does. |
| Seqs.FilterNoDuplicates | UX/src/components/Timeline.tsx:30 | Filtering never introduces repeats. |
| Seqs.WithKeySource | UX/src/components/Activities/GetActivities.tsx:12-13 | Every element placed in a month section comes from the input list. |
| GetActivities.GroupByMonth | UX/src/components/Activities/GetActivities.tsx:9-16 | The result is a grouping of the list: the months are distinct and every section is non-empty. Each section holds exactly its month's activities in list order. Every activity's month has a section, and the section sizes add up to the list length. |
| GetActivities.AddKeepsGrouping | UX/src/components/Activities/GetActivities.tsx:10-14 | One reduce step turns a grouping of a list into a grouping of the list with one more element. |
| GetActivities.GroupMembership | UX/src/components/Activities/GetActivities.tsx:11-13 | An activity is in a section exactly when the section is for its month. |
| GetActivities.SortNewestFirst | UX/src/components/Activities/GetActivities.tsx:35-37 | The sorted list has the same length, and its timestamps never increase. |
| GetActivities.SortPermutes | UX/src/components/Activities/GetActivities.tsx:35-37 | The sort is a permutation of the loaded list. |
| GetActivities.InsertByTimePermutes | UX/src/components/Activities/GetActivities.tsx:35-37 | One insertion step adds exactly the inserted element. |
| GetActivities.SortIsStable | UX/src/components/Activities/GetActivities.tsx:35-37 | Activities with the same timestamp keep their loaded order. |
| GetActivities.WithKeyNewestFirst | UX/src/components/Activities/GetActivities.tsx:52 | Taking one month's activities from a newest-first list keeps them newest first. |
| GetActivities.LoadActivities | UX/src/components/Activities/GetActivities.tsx:28-41 | Loading always ends. A failure sets the message and keeps the list. Data replaces the list with a newest-first permutation of itself. Null data changes nothing, and a success never clears an earlier error. |
| GetActivities.Render | UX/src/components/Activities/GetActivities.tsx:52-61 | The page shows a spinner exactly while loading. Otherwise it shows the error exactly when there is one. Otherwise it shows a grouping of the loaded list. |
| GetActivities.FirstLoad | UX/src/components/Activities/GetActivities.tsx:19-61 | The page opens on the spinner. Its first successful load shows the month sections. |
| GetActivities.ErrorIsSticky | UX/src/components/Activities/GetActivities.tsx:31-39 | Once a load has failed, the error is shown after every later load, whatever that load returns. |
| GetActivities.SectionsNewestFirst | UX/src/components/Activities/GetActivities.tsx:35-52 | After a successful load, every month section is newest first, and the sections together hold every loaded activity. |
| GetActivities.ToggleSection | UX/src/components/Activities/GetActivities.tsx:44-49 | It flips one month's open flag and keeps every other month's flag. |
| GetActivities.FirstToggleOpens | UX/src/components/Activities/GetActivities.tsx:47 | A section never toggled before opens on its first toggle, because an unset flag reads as closed. |
| ActivityForms.CollectErrors | UX/src/components/Activities/CreateActivity.tsx:37-43 | A field gets an entry exactly when it is listed and blank after `trim`, and every entry is "Field is required". |
| ActivityForms.NoErrorsIff | UX/src/components/Activities/CreateActivity.tsx:45 | The error record is empty exactly when no listed field is blank. |
| ActivityForms.ClearOnEdit | UX/src/components/Activities/CreateActivity.tsx:28-34 | After a keystroke, the edited field no longer shows an error, and every other field's entry is unchanged. |
| ActivityForms.ClearOnEditIdempotent | UX/src/components/Activities/UpdateActivity.tsx:33-35 | Clearing twice is the same as clearing once, and only the edited field stops showing an error. |
| CreateActivity.Validate | UX/src/components/Activities/CreateActivity.tsx:37-46 | Every form field is required: an error is recorded exactly for the blank fields. |
| CreateActivity.HandleChange | UX/src/components/Activities/CreateActivity.tsx:21-35 | It sets the typed field and no other, hides that field's error, and leaves the other fields' errors as they were. |
| CreateActivity.HandleSubmit | UX/src/components/Activities/CreateActivity.tsx:48-63 | It posts the form unchanged exactly when no field is blank. The callbacks fire exactly when a request was sent. Afterwards exactly the blank fields show an error. |
| CreateActivity.BlankFieldRefused | UX/src/components/Activities/CreateActivity.tsx:39-43 | A field of only removable characters blocks the request and shows its error. |
| CreateActivity.InitialSubmitSendsNothing | UX/src/components/Activities/CreateActivity.tsx:12-51 | Submitting the untouched form sends nothing and notifies no one. |
| CreateActivity.InitialSubmitMarksAll | UX/src/components/Activities/CreateActivity.tsx:12-46 | Submitting the untouched form marks all four fields. |
| CreateActivity.EditAfterRefusal | UX/src/components/Activities/CreateActivity.tsx:28-46 | After a refused submit, typing into one field hides only that field's error. The others show until the next submit. |
| UpdateActivity.InitialForm | UX/src/components/Activities/UpdateActivity.tsx:14-22 | Without an activity every field is empty. With one, id and text fields are copied unchanged, since the fallback to `""` only ever replaces `""`. A date is kept exactly when it is present and non-empty, and becomes null otherwise. |
| UpdateActivity.Validate | UX/src/components/Activities/UpdateActivity.tsx:45-57 | An error is recorded exactly for the blank text fields among the four required ones. |
| UpdateActivity.ValidationIgnoresIdAndDates | UX/src/components/Activities/UpdateActivity.tsx:46-53 | Changing the id or either date never changes what validation reports. |
| UpdateActivity.HandleChange | UX/src/components/Activities/UpdateActivity.tsx:26-36 | It sets one text field, keeps the id, the dates and the other fields, and hides only that field's error. |
| UpdateActivity.HandleDateChange | UX/src/components/Activities/UpdateActivity.tsx:38-43 | It sets one date, keeps everything else, and leaves the errors untouched. |
| UpdateActivity.HandleSubmit | UX/src/components/Activities/UpdateActivity.tsx:59-74 | It sends the form to its own id exactly when no required field is blank, and notifies exactly then. Exactly the blank fields show an error. |
| UpdateActivity.UntouchedSubmitSendsActivity | UX/src/components/Activities/UpdateActivity.tsx:14-64 | Submitting the untouched form of a filled-in activity sends that activity back to its own id. |
| UpdateActivity.MissingActivitySendsEmptyId | UX/src/components/Activities/UpdateActivity.tsx:15 | Without an activity the id stays empty. Once the text fields are typed in, the request still goes out, to an empty id. |
| UpdateActivity.ToUpdateDto | UX/src/api/activity/activityApi.ts:42-45 | The server receives the four text fields as non-null strings, and each date as present exactly when the form has one. |
| UpdateActivity.SubmittedFormOverwrites | Services/Concrete/ActivityService.cs:73-78 | An update sent from this form replaces all four text columns. A date left empty in the form clears the stored date. |

## Left out

- Entity Framework, `async`/`await`, the controllers, `Program.cs`, DataAnnotations model validation and the HTTP layer are not modelled. The services are pure functions over one database value.
- Database faults, concurrency and exceptions from `SaveChangesAsync` are not modelled. A commit always succeeds, and the rows it reports are a parameter.
- The store change on creation: the model applies the insert whenever `SaveChangesAsync` is called. The reported row count decides only the return value, which is all the source itself looks at.
- A null payload passed to `UpdateOrder` always dereferences null and throws, because the payload is read in the lookup. `UpdateCustomer` and `ActivityService.Update` look the id up first: with a null payload they return null without saving when the id is missing, and throw only when it exists. The model takes a non-null payload for these three operations, so it models neither the exception nor the null-payload, missing-id case that returns null.
- The order in which `ToListAsync` returns rows is chosen by the database. `Tables.Rows` leaves that order open, and `GetAllOrders` uses storage order.
- OrderService.UpdateOrder: `FirstOrDefaultAsync` has no `OrderBy`, so the database picks which of several orders with the same product and customer is updated. The model takes the first in storage order.
- The database's referential delete action is not modelled. The foreign keys `Order.ProductId` and `Order.CustomerId` are non-nullable, so Entity Framework Core's convention makes them required relationships that delete on cascade. In the running system the orders go with their customer or product, and an order pointing at no row does not arise.
- CustomerService.DeleteCustomer: describes only the service's own writes. The database's cascade onto the customer's orders is not modelled.
- ProductService.DeleteProduct: describes only the service's own writes. The database's cascade onto the product's orders is not modelled.
- Integrity.DeleteCustomerMayOrphan: shows what the service's writes alone leave behind. The database's cascade would also delete the order.
- Integrity.DeleteProductMayOrphan: shows what the service's writes alone leave behind. The database's cascade would also delete the order.
- `Guid.NewGuid`, identity allocation and `DateTime.UtcNow` are parameters. `ActivityService.Create` reads the clock twice, so it takes two readings. The seed reads `DateTime.UtcNow` six times, once for each date of the three orders. `Seed.Initial` takes one reading `now` for all six.
- `AddActivityDto.CreatedDate`, defaulting to `DateTime.Now`, is ignored by the service and is not used by the model.
- Engagement.CalculateEngagementLevel: the ratio is compared in exact rationals, whereas JavaScript compares IEEE doubles. The two agree whenever the double rounding of opened/sent does not cross 0.66 or 0.33.
- `date-fns` month formatting and `new Date(...).getTime()` are parameters of the grouping and the sort (`key` and `time`). Date parsing, time zones and invalid dates (`NaN`) are not modelled.
- GetActivities.GroupByMonth: the order of the sections is not stated. The source opens a section when its month first occurs, and the contract fixes each section's contents but not where it stands.
- The algorithm behind `Array.prototype.sort` is not modelled. The language requires it to be stable, and every stable sort by the same comparator yields the same list, so the model's insertion sort (`GetActivities.SortNewestFirst`) stands for it.
- React rendering, hooks, stale closures and event ordering are not modelled. Each handler is a function from the state it reads to the state it sets.
- The markup, icons, the `domEventBus` events, `console` logging and the request wrapper are not modelled. A request either happens or not; its response is only logged, so it is not modelled.
- The `DateTimePicker` component is not modelled. It becomes the `Option<string>` value that `handleDateChange` receives.
- The server's parsing of ISO date strings is a parameter of `UpdateActivity.ToUpdateDto`.
