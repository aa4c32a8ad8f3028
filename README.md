# Inventory check-out tracker, modelled in Dafny

The tracker keeps a catalogue of items that users check out and return. Its
server keeps two tables: `items`, keyed by `id`, with `name`, `description`,
the holding `user` and the `assignedDate`; and `users`, keyed by `name`. Six
route handlers change those tables: create item, create user, delete item,
delete user (which frees every item the user held), assign (which updates the
item or inserts it, then inserts the user unless it exists) and return (which
always succeeds). The catalogue page fetches the items and does the rest in
the browser. It filters them by a case-insensitive search term and cuts the
result into pages of ten. It draws the pagination bar, finds the item behind a
row's button by its name, and prints assignment times as `HH:MM DD/MM/YYYY`.

The model has five modules:

- `Wrappers` (`wrappers.dfy`): `Option`. `None` is SQL NULL or an absent JSON field.
- `Inventory` (`inventory.dfy`): the `Item` row and the table invariants.
  Every row sits under its own id. `user` and `assignedDate` are both set or
  both NULL. Every holder is a registered user.
- `Server` (`server.dfy`): the class `Store`, whose fields are the two tables
  (`map<string, Item>` and `set<string>`). It has one method per route. Each
  mutating method returns a `Reply` that carries the status code and the message the
  handler sends. Each method keeps `Valid()`, the table invariant, and its
  `ensures` give the whole new state in terms of the old. The two bulk
  `UPDATE` statements are the pure functions `Unassigned` and `ReleasedFrom`.
  The lemmas about them cover idempotence, the cascade and the invariant.
- `Catalogue` (`catalogue.dfy`): the filter, the page slice, the pagination
  bar, the find-by-name lookup and the row buttons.
- `DateFormat` (`date_format.dfy`): `formatDateTime`, over the integers that
  the `Date` getters return.

The storage engine is replaced by the in-memory map and set. Each handler is
one sequential method. In `server.js`, create item and create user check
their input before touching storage. Delete item and delete user send the
route parameter, which is always a string, straight to the `DELETE`
(`server.js:112-114`, `server.js:141-143`). Assign checks nothing either:
`server.js:159-206` sends whatever it receives straight to storage.
The model therefore takes `itemId`, `user` and `assignedDate` as present
strings and adds no validation error of its own.

## Model

| member | source | states |
|---|---|---|
| Server.Store.constructor | server.js:30-44 | A fresh database has two empty tables, and they satisfy the invariant. |
| Server.Store.ListItems | server.js:49-57 | Lists every row exactly once, in no promised order. The listed ids are distinct. |
| Server.Store.ListUsers | server.js:78-86 | Lists every user name exactly once, in no promised order. |
| Server.Store.CreateItem | server.js:59-76 | A missing or empty id or name gives 400 "ID and name are required" and no change. A duplicate id gives 400 and leaves the existing row as it was. Otherwise exactly one new row appears, holding the given name and description with user and date NULL. Nothing else changes, users included. |
| Server.Store.CreateUser | server.js:88-109 | A missing or empty name gives 400 "Name is required". An existing name gives 400 "User already exists". In both cases the users are unchanged. Otherwise the name is added. The items table is never touched. |
| Server.Store.DeleteUser | server.js:111-138 | An unknown name gives 404 and changes nothing. Otherwise the name leaves `users` and every item it held is freed (`ReleasedFrom`). |
| Server.Store.DeleteItem | server.js:140-157 | An unknown id gives 404 and changes nothing. Otherwise exactly that row goes. All other rows and the users are unchanged. |
| Server.Store.Assign | server.js:159-206 | Always 200 "Item assigned". An existing item gets the new holder and date and keeps its name and description. An unknown id is inserted with only id, holder and date set. No other row changes. Users become the old users plus the holder, so an existing holder leaves them as they were. The invariant is kept. |
| Server.Store.ReturnItem | server.js:208-221 | Always 200 "Item returned". The item, if present, loses its holder and date. Otherwise nothing changes. |
| Server.Released | server.js:125 | A freed row has no holder and no date. Its id, name and description are unchanged. |
| Server.Unassigned | server.js:210-212 | The UPDATE of return keeps the set of ids. It clears holder and date on that one row, keeps its id, name and description, and leaves every other row unchanged. |
| Server.ReleasedFrom | server.js:124-126 | The cascade UPDATE keeps the set of ids and leaves nothing held by the deleted name. Rows held by anyone else are unchanged. |
| Server.UnassignedIdempotent | server.js:208-221 | Returning an item twice gives the same table as returning it once. |
| Server.ReleasedFromExactlyHolders | server.js:121-126 | The cascade changes exactly the rows the user held, and each of them is freed. So N held items give exactly N changed rows. |
| Server.ReleasedFromKeepsConsistent | server.js:113-126 | Removing the user and running the cascade keeps the pairing invariant and the every-holder-is-registered invariant. |
| Server.NewRowKeepsConsistent | server.js:65-67 | Inserting an unassigned row under a fresh id keeps the invariant and adds exactly one row. |
| Server.UnassignedKeepsConsistent | server.js:210-212 | Returning an item keeps the invariant. |
| Catalogue.Lower | public/script.js:17 | Lowercasing keeps the length, maps each character by itself, and leaves no upper-case letter. |
| Catalogue.TrimStartIndex | public/script.js:17 | `trim` starts keeping at the first character that is not white space: everything skipped is white space, and the character there is not. |
| Catalogue.TrimEndIndex | public/script.js:17 | `trim` stops keeping after the last character that is not white space: everything skipped is white space, and the character before the stop is not. |
| Catalogue.Trim | public/script.js:17 | The result is one contiguous piece `s[a..b]` of the input. Everything before `a` and from `b` on is white space, and the result neither starts nor ends with white space. |
| Catalogue.SearchTerm | public/script.js:17 | The search term is one contiguous piece of the lower-cased raw text, with only white space cut off before and after it. It is no longer than the raw text, holds no upper-case letter, and neither starts nor ends with white space. |
| Catalogue.Includes | public/script.js:42-45 | An empty term is included in every text. A term longer than the text is never included. |
| Catalogue.IncludesIff | public/script.js:42-45 | `includes` holds exactly when the term occurs at some position of the field. |
| Catalogue.FieldMatches | public/script.js:43-45 | The test on one nullable column. An absent or empty column never matches, since `''` is falsy. A present, non-empty one matches when its lower-cased text includes the term. Its characterisation is `FieldMatchesIff`. |
| Catalogue.FieldMatchesIff | public/script.js:43-45 | A column matches exactly when it is present, not empty, and the term occurs at some position of its lower-cased text. |
| Catalogue.Matches | public/script.js:41-47 | The filter predicate: an empty term matches every item. `MatchesNonEmpty` characterises it for any other term. |
| Catalogue.Filter | public/script.js:41-47 | The filtered list is an order-preserving subsequence of the fetched list. It keeps an item exactly when the item matches the search term. Each matching item keeps its number of copies, and every other item has none. |
| Catalogue.FilterEmptySearch | public/script.js:46 | An empty search term keeps every item, in order. |
| Catalogue.MatchesNonEmpty | public/script.js:41-47 | With a non-empty term, an item matches iff the term occurs in its lower-cased id, or in a lower-cased name, description or user that is present. An absent field never matches. |
| Catalogue.TotalPages | public/script.js:49 | The page count is the ceiling of n/10: the fewest pages of ten that hold n items. It is zero exactly for an empty list. |
| Catalogue.SliceIndex | public/script.js:52 | A slice bound, negative ones counted from the end, becomes an index between 0 and the length. `SliceIndexGap` relates two bounds. |
| Catalogue.SliceIndexGap | public/script.js:52 | Turning two ordered slice bounds into indices never widens the gap between them. |
| Catalogue.Slice | public/script.js:52 | `slice` returns no more than end - start elements. For non-negative bounds it returns the window between them, clamped to the list. |
| Catalogue.PageSlice | public/script.js:50-52 | A page holds at most ten items. Page p (1 ≤ p ≤ totalPages) is the window [(p-1)*10, min(p*10, n)). Every page before the last is full. Page 0 and pages after the last are empty. A negative page, which "Previous" loads from page 0, counts blocks of ten from the end of the list: page -k is the window [n-(k+1)*10, n-k*10) when the list is long enough, and empty when n ≤ k*10. |
| Catalogue.Pages | public/script.js:49-52 | Pages `first` to `last` of the list, concatenated. What they add up to is stated by `PagesFrom` and `PagesPartition`. |
| Catalogue.PagesFrom | public/script.js:49-52 | Pages p to totalPages, concatenated, are the filtered list from position (p-1)*10 on. |
| Catalogue.PagesPartition | public/script.js:49-52 | Pages 1 to totalPages, concatenated, reproduce the filtered list exactly. |
| Catalogue.RenderPagination | public/script.js:75-91 | The bar appears iff totalPages > 1. "Previous" is disabled iff the current page is 1 and "Next" iff it is the last page. The two links load the neighbouring pages. There is one button per page 1..totalPages, numbered in order. A button is active iff it is the current page, so at most one is active, and exactly one when the current page is in range. |
| Catalogue.PageOfFilterMatches | public/script.js:41-52 | Every row on any page of the filtered list is a fetched item that matches the term. |
| Catalogue.FilterEmptyIff | public/script.js:41-47 | The filtered list is empty exactly when no fetched item matches. |
| Catalogue.LoadItems | public/script.js:14-96 | The shown rows are exactly the requested page of the filtered list, so at most ten, each a fetched item that matches the term. With an empty term they are that page of the unfiltered list. The bar appears iff more than ten items match. It then has one button per page of the filtered list, button i numbered i and active iff i is the requested page. "Previous" loads page - 1 and is disabled iff the page is 1. "Next" loads page + 1 and is disabled iff the page is the last one. The "No items match" alert shows iff the term is non-empty and matches nothing. |
| Catalogue.Find | public/script.js:143 | `find` returns nothing iff no element satisfies the predicate. Otherwise it returns a list element that does. |
| Catalogue.FindFirst | public/script.js:143 | `find` returns the element at the first index where the predicate holds. |
| Catalogue.FindByName | public/script.js:143-147 | The lookup reports "not found" iff no item bears that name. Otherwise it returns an item of the list with that name. |
| Catalogue.FindByNameFirst | public/script.js:176-180 | When names repeat, the lookup returns the first item with that name in list order. |
| Catalogue.NameInButton | public/script.js:57-58 | A NULL name reaches the handler as the text "null". A present name without quote, apostrophe, backslash, `&` or line break reaches it unchanged. |
| Catalogue.ActionTargetAsWritten | public/script.js:57-58 | The item a row's button acts on, as written: the first item with the name that the button passes. `NamelessRowNotFound` and `NamedRowFindsNamesake` say what it finds. |
| Catalogue.NamedRowFindsNamesake | public/script.js:57-58 | As written, a row with such a present name finds an item bearing that name. When no two named rows share a name, it finds that very row. |
| Catalogue.NamelessRowLooksUpNull | public/script.js:57-58 | As written, the button of a row with no name looks up the text "null", so it acts on the first item literally named "null" if there is one. |
| Catalogue.NamelessRowNotFound | public/script.js:57-58 | As written, when no item is literally named "null", the button of a row with no name finds nothing (see Findings). |
| Catalogue.NamelessRowExample | public/script.js:57-58 | The row left by assigning an unknown id cannot be found from its own button. |
| Catalogue.FindById | public/script.js:143 | Looking up by id returns nothing iff no row has that id. Otherwise it returns a row with that id. |
| Catalogue.ActionTarget | public/script.js:54-58 | Corrected lookup: the button passes the row's id, the primary key. `ActionTargetFindsRow` states what it finds. |
| Catalogue.ActionTargetFindsRow | public/script.js:54-58 | Corrected lookup by id: with distinct ids, every row's button finds that very row, whether it has a name or not. |
| DateFormat.NatToDecimal | public/script.js:236-240 | `String(n)` for a non-negative n is a non-empty string of digits with no leading zero. It has one digit iff n < 10 and at most two iff n < 100. |
| DateFormat.IntToDecimal | public/script.js:238 | `String(n)` is digits, with a leading minus sign when n is negative. |
| DateFormat.NatToDecimalRoundTrip | public/script.js:236-240 | The printed digits read back as the number. |
| DateFormat.IntToDecimalRoundTrip | public/script.js:238 | The printed year, sign included, reads back as the year. |
| DateFormat.LeadingZero | public/script.js:236-240 | A padding zero does not change the value a digit string denotes. |
| DateFormat.PadStart | public/script.js:236-240 | `padStart` reaches the target length or keeps a longer string. The input ends the result and only fill characters come before it. |
| DateFormat.TwoDigitsRoundTrip | public/script.js:236-240 | Each of 0..99 prints as exactly two digits. The first digit is '0' iff the number is below 10, and the two digits read back as the number. |
| DateFormat.TwoDigits | public/script.js:236-240 | `String(n).padStart(2, '0')`. Its properties are stated by `TwoDigitsRoundTrip`. |
| DateFormat.PaddedFields | public/script.js:236-240 | For any date the getters produce, hours, minutes, day and month+1 each take two digits that read back as the value. |
| DateFormat.Template | public/script.js:241 | The template literal. `Layout` and `ParseTemplate` say where each field sits and how it reads back. |
| DateFormat.Layout | public/script.js:241 | In the template filled with four two-character fields, the separators `:`, space, `/` and `/` sit at positions 2, 5, 8 and 11, and the year starts at position 12. |
| DateFormat.FormatDateTime | public/script.js:235-242 | `formatDateTime` on the getter values. `FormatDateTimeLayout` and `FormatDateTimeRoundTrip` state its layout and its round trip. |
| DateFormat.FormatDateTimeLayout | public/script.js:235-242 | The output is `HH:MM DD/MM/` followed by the unpadded year, and each field has two characters. |
| DateFormat.ParseTemplate | public/script.js:241 | Any filling of the template with two-digit fields and a signed year reads back field by field. |
| DateFormat.FormatDateTimeRoundTrip | public/script.js:235-242 | Reading the output back gives hours, minutes, day, the 0-based month plus one, and the year, exactly. |
| DateFormat.FormatDateTimeExample | public/script.js:235-242 | 9:05 on the 3rd of month 0 of 2024 prints as `09:05 03/01/2024`. |

## Left out

- The storage engine: the connection, table creation and every error branch
  that a failing statement takes (400 on a failed write, 500 on a failed
  read). Two constraint errors are modelled. One is the duplicate id of
  create item; its text, `DuplicateItemError`, is the engine's constraint
  message, which `server.js` forwards as it is. The other is the existing
  name of create user, reported as "User already exists".
- Concurrency: the handlers of delete user and assign run two or three
  statements in sequence, and other requests may interleave between them.
  Each handler is modelled as one uninterrupted method.
- Server.Store.Assign: absent `itemId`, `user` or `assignedDate` fields. They
  would be stored as NULL and could break the pairing invariant. The model
  takes all three as present strings.
- JSON values that are not strings (a numeric `id`, a boolean `name`) and
  JavaScript truthiness on them. Request fields are modelled as optional
  strings, and "missing" means absent or empty.
- Express routing, static file serving, `app.listen`, the login route and
  the admin-token check on `/admin.html`. The last two are comparisons
  against fixed strings.
- DOM building, Bootstrap modals, `fetch`, alerts and their timeouts,
  `localStorage`, and the pages of `public/admin.js` and `public/login.js`.
- The `highlight` helper: it builds a regular expression from raw user input
  and emits HTML.
- Catalogue.LoadItems: the assignment to the page-global `currentPage`. The
  page is passed in as a parameter.
- Catalogue.NameInButton: its contract covers a present name only when that
  name has no apostrophe, double quote, backslash, `&` or line break. Such
  characters are decoded twice on the way to the handler: once as an HTML
  attribute value and once as a JavaScript string literal. They can end the
  literal or the attribute early, or change the text, and that decoding is
  not modelled.
- Catalogue.Lower: folds only the ASCII letters A-Z. JavaScript's
  `toLowerCase` folds all of Unicode.
- Catalogue.TotalPages: uses exact integer ceiling division. JavaScript
  divides in floating point, which gives the same result for any list size
  the page can hold.
- DateFormat.FormatDateTime: starts from the integers that `getHours`,
  `getMinutes`, `getDate`, `getMonth` and `getFullYear` return. Building the
  `Date` from the stored ISO text and converting it to local time are not
  modelled. `public/admin.js` carries an identical copy of this function.

## Findings

| source | as written | input that shows it | evidently intended | confidence | as-written member | corrected member |
|---|---|---|---|---|---|---|
| public/script.js:57-58 | A row's Assign and Return buttons call `showAssignModal('${item.name}')` and `showReturnModal('${item.name}')`. The modals then look the item up by that name (lines 143, 176). | `POST /api/assign {itemId: "A1", user: "Bob", ...}` on an empty table inserts a row with a NULL name. Its Return button passes the text "null", `find` matches no row, and the page reports "Item not found". The item can then be neither returned nor reassigned from the catalogue. | The button acts on the row it belongs to, for example by passing the row's id. | high; not executed | Catalogue.NamelessRowNotFound | Catalogue.ActionTargetFindsRow |
