# Coffee orders: the order repository over an ordered key-value store

This project models the core of a small Go service that keeps "coffee
order" records in an embedded LevelDB store. HTTP routing sits on top of
a small order repository, and the repository is what is modelled here:

- every order is stored under the key `"coffeeorder:" + hex(id)`, where
  `id` is a 12-byte BSON ObjectID written as 24 lowercase hex digits;
- `readAll` scans every key in ascending order. For each key with the
  record prefix, it decodes the value and appends the order;
- `readByEmail` does the same scan but keeps only orders whose
  `emailAddress` equals the query exactly;
- `newestKey` scans the same way and returns the last matching key it
  meets ("last one wins"), or `""` if there is none;
- a prefix-bounded delete loop deletes every record key. Both the
  `DELETE /coffeeorders` handler and the monthly sweep use it;
- three handlers change the store: `createOrder`, `deleteNewest` and
  `replaceNewest`;
- two calendar pieces: the step to the first day of the next month, and
  the sweep trigger "day 1, hour 0".

Files and modules:

- `keys.dfy`, module `Keys`. Lexicographic key order (`Below`)
  with irreflexivity, asymmetry, transitivity and totality. Go's
  `strings.HasPrefix`. `SortedKeys`, the ascending enumeration of a key set
  that stands for a LevelDB iterator.
- `orders.dfy`, module `Orders`. The `CoffeeOrder` record, the ObjectID,
  its lowercase hex form with decoding and order preservation, and the
  record key `OrderKey`.
- `calendar.dfy`, module `Calendar`. `NextMonth` and the sweep trigger
  `IsSweepTime`.
- `queries.dfy`, module `Queries`. Specification functions over the store
  contents (a `map` from key to decoded order): what each scan returns,
  the newest key, and the contents after each store-changing handler.
  Lemmas state what these mean.
- `repository.dfy`, module `Repository`. Class `Store` holds the live
  contents in field `db`. Its methods are the scan loops and the handlers
  that change state, each proved against the `Queries` functions.

How the store is modelled:

- LevelDB is an ordered map. A scan reads a snapshot of the keys, taken
  in ascending order when the loop starts.
- Deletes inside a scan act on the live map.
- `Put` and `Delete` always succeed, since the code ignores their errors.
- Each stored value is the order it decodes to. The code ignores the
  result of `json.Unmarshal`, so decoding is a total function here.

A record whose stored value fails to decode is still listed:
main.go:175-177 ignores the `Unmarshal` error and appends the order, so
every record key gives exactly one listed order.

## Model

| member | source | states |
|---|---|---|
| Keys.SortedKeys | main.go:169-172 | the store iterator visits every key of the store exactly once: its keys are exactly the set's keys and there are as many as the set has |
| Keys.SortedKeysAscending | main.go:169-172 | the iterator's order is strictly ascending in key order (code-point order, which is byte order for UTF-8 keys) |
| Keys.HasPrefix | main.go:174 | Go's `strings.HasPrefix`, the test every scan applies to each key (also main.go:54, 137, 190, 208); its partner lemmas `HasPrefixSplit` and `PrefixRunContiguous` state what it means |
| Keys.HasPrefixSplit | main.go:174 | a key has the prefix exactly when it is the prefix followed by the rest of the key, and every prefix-plus-rest key passes the test |
| Keys.PrefixRunContiguous | main.go:170-174 | the keys that pass the prefix test form one contiguous run in the iterator's order: a key between two prefixed keys is prefixed too |
| Orders.OrderKey | main.go:115-116 | the key of an order starts with the prefix `coffeeorder:` and is followed by 24 characters (the hex form of the 12-byte ID) |
| Orders.Hex | main.go:116 | `ObjectID.Hex()` (also main.go:161) writes two lowercase hex digits per byte, so a 12-byte ID gives 24 characters; `HexRoundTrip` and `OrderKeyOrder` are its partners |
| Orders.HexRoundTrip | main.go:116 | the lowercase hex form of an ID decodes back to the same bytes |
| Orders.OrderKeyInjective | main.go:115-116 | two IDs give the same key exactly when they are equal, so a fresh ID never overwrites another order |
| Orders.OrderKeyOrder | main.go:212 | one key sorts below another exactly when its ID is smaller byte-wise, so the last key in scan order belongs to the greatest ID |
| Calendar.NextMonth | main.go:80-88 | the next month is always in 1..12 and comes exactly one month after (year, month); December rolls over to January of year+1 |
| Calendar.NextMonthUnique | main.go:80-88 | the (year, month) one month later is unique, so it is NextMonth's result |
| Calendar.IsSweepTime | main.go:48 | the sweep trigger `now.Day() == 1 && now.Hour() == 0`; its partner `SweepWindowIsFirstHour` shows it holds exactly during a month's first hour, and `Store.SweepCheck` deletes exactly when it holds |
| Calendar.SweepWindowIsFirstHour | main.go:47-48 | counting minutes from a month's first midnight, the trigger `day == 1 && hour == 0` holds exactly for the first 60 minutes |
| Queries.RecordKeysInSpec | main.go:173-174 | the prefix filter keeps exactly the keys that start with `coffeeorder:`, and keeps them ascending |
| Queries.MatchKeysInSpec | main.go:207-213 | the email filter of newestKey keeps exactly the record keys whose order carries the email, and keeps them ascending |
| Queries.ScanSpec | main.go:172-179 | readAll's loop appends one value per record key it meets, in the order met, and no value for any other key |
| Queries.WithEmailSpec | main.go:193-195 | the email filter keeps exactly the orders whose address equals the query (exact, case-sensitive comparison) and never adds one |
| Queries.RecordKeysSpec | main.go:168-182 | the record keys in scan order are exactly the prefixed keys of the store, each once, ascending; there are as many as prefixed keys |
| Queries.AllOrdersSpec | main.go:168-182 | readAll returns exactly one order per prefixed key, the i-th being the value of the i-th record key in ascending order; keys without the prefix are ignored |
| Queries.ListedAt | main.go:174-177 | the order stored under any record key appears in readAll's result |
| Queries.WithEmailScan | main.go:184-200 | readByEmail's result, during and after the scan, is the values of the email's record keys, in ascending key order |
| Queries.WithEmailScanStep | main.go:188-196 | visiting one more key extends readByEmail's result by that key's order exactly when it is a record of the email |
| Queries.NewestNone | main.go:202-218 | newestKey returns `""` exactly when no prefixed record carries the email |
| Queries.NewestGreatest | main.go:206-214 | otherwise the key returned is a record of the email and every other record of it sorts below it ("last one wins" picks the greatest) |
| Queries.NewestIsGreatestMatch | main.go:206-214 | conversely, a record of the email above all its other records is the key newestKey returns |
| Queries.NewestNoneListed | main.go:184-218 | newestKey returns `""` exactly when readByEmail lists nothing for the email |
| Queries.NewestIsLastListed | main.go:184-218 | when newestKey finds a key, its order is the last one readByEmail lists |
| Queries.DeleteAllEffect | main.go:133-143 | after the bulk delete no record key remains and readAll is empty; every non-prefixed key keeps its value |
| Queries.InsertEffect | main.go:115-121 | inserting under a fresh ID adds exactly the one record key `OrderKey(id)`, leaves every other key and value alone, and readAll grows by one and contains the stored order |
| Queries.DeleteNewestEffect | main.go:124-131 | deleteNewest leaves the store unchanged when the email has no record; otherwise it removes exactly its newest key and readAll shrinks by one |
| Queries.ReplaceCount | main.go:153-165 | after replaceNewest, readAll has as many orders as before if the email had a record, and one more if it had none |
| Queries.InsertMatches | main.go:115-119 | after a fresh insert, an email's records are its previous records, plus the new key when the inserted order carries that email |
| Queries.CreateThenListByEmail | main.go:109-121 | an order created for an email with no orders is then the only order readByEmail returns for it, stored with the fresh ID |
| Queries.SecondOrderIsNewest | main.go:124-129 | for two orders created in sequence for one email, each with an ID greater than every stored record's, deleteNewest removes the second and restores the store as it was after the first, whatever older orders the email already had |
| Repository.Store.ReadAll | main.go:168-182 | the loop over the key snapshot returns exactly `AllOrders` of the store |
| Repository.Store.ReadByEmail | main.go:184-200 | the loop returns exactly the email's sub-sequence of readAll's result |
| Repository.Store.NewestKey | main.go:202-218 | the loop that overwrites `newest` on each match returns exactly `Newest` of the store |
| Repository.Store.DeleteRecords | main.go:133-141 | deleting during a scan of the key snapshot leaves exactly the non-prefixed keys, with their values unchanged |
| Repository.Store.DeleteAll | main.go:133-143 | DELETE /coffeeorders removes every record, keeps every other key, and answers an empty list |
| Repository.Store.SweepCheck | main.go:43-58 | one check of the sweep task runs the bulk delete exactly when day = 1 and hour = 0, and otherwise leaves the store unchanged |
| Repository.Store.CreateOrder | main.go:109-122 | a malformed body answers 400 "Malformed JSON" with the store unchanged; otherwise the order is stored under `OrderKey(id)` with its ID replaced by the fresh `id`, and the new listing is returned |
| Repository.Store.DeleteNewest | main.go:124-131 | the store loses its newest record for the email, or is unchanged when there is none; the new listing is returned |
| Repository.Store.ReplaceNewest | main.go:145-166 | a malformed body answers 400 before anything is deleted; otherwise the effect is deleteNewest followed by an insert under the fresh `id`, and the new listing is returned |

## Left out

- HTTP layer: Fiber routing, `c.Params`, the `root` handler and status and JSON response encoding are left out. The list handlers `listAll` and `listByEmail` only wrap `readAll` and `readByEmail` with `timeUntilDeletion`, so only the wrapped calls are modelled. A handler's answer is a `Response` value: the 400 error or the list of orders.
- Request parsing: `c.BodyParser` is the `Body` parameter, either `Malformed` or the parsed order.
- JSON: `json.Marshal` and `json.Unmarshal` are foreign code. The store holds decoded orders directly, and encoding then decoding is taken to give back the same order. Values under keys without the prefix are never decoded by the code; in the model they are order values too, and nothing reads them.
- LevelDB: opening, closing and the iterator's internals are left out. Errors from `Put` and `Delete` are ignored by the code, so both always succeed here.
- ObjectID generation: `primitive.NewObjectID()` is an `id` parameter of the handlers. Its uniqueness (`OrderKey(id) !in db`) and its time order (`BytesBelow`) appear only as hypotheses of the lemmas that need them.
- Clock and duration: `time.Now`, `time.Date`, `Sub` and `Duration.String` in `timeUntilDeletion` are left out. Only the year and month rollover is modelled.
- Sweep goroutine: the infinite loop and its `time.Sleep` calls are left out; only one check (`SweepCheck`) is modelled. So the model does not show that the one-hour sleep stops a second sweep in the same window.
- Concurrency: request handlers and the sweep running at the same time on one store are left out; each operation runs alone.
- Logging and process exit: `fmt.Println` and `log.Fatal` are I/O and are left out.
- Key encoding: keys are Dafny strings of Unicode scalar values compared by code point. This equals LevelDB's byte-wise order only for keys that are valid UTF-8; keys that are not valid UTF-8 cannot be represented. The program only writes ASCII keys.
