# Seed-catalogue admin dashboard: server logic in Dafny

The dashboard administers a catalogue of plant varieties, the users who
run farms, and the farms themselves, all held in a Supabase (PostgreSQL)
store. Its server-side logic is small:

- `/api/duplicates` scans the catalogue for varieties that share a name,
  category and subcategory. It reports one group per duplicated key, with
  the first row to keep and the others to delete. Its DELETE applies such
  a plan with one bulk delete.
- `/api/users` and `/api/farms` list their tables and create rows. A
  new row is refused when its email is held by exactly one row and the
  lookup for it succeeds.
- `lib/supabase.ts` holds the shared helpers: the configuration check,
  the lazily built admin client, the per-category statistics, and the
  fallback read of the catalogue.

The model is in eight modules:

| file | module | what it holds |
|---|---|---|
| common.dfy | `Common` | option, result and response types; JavaScript falsiness; the route-local environment check |
| tally.dfy | `Tally` | occurrence counts, the distinct elements in first-occurrence order (the key order of a JavaScript `Map`), sums of counts |
| duplicates.dfy | `Duplicates` | the GET grouping loop, the plan, the DELETE handler over a varieties table |
| duplicates_laws.dfy | `DuplicateLaws` | what the scan and the delete guarantee |
| store.dfy | `Store` | a table class with `.eq(...).single()` lookups and one-row inserts |
| users.dfy | `Users` | GET and POST `/api/users` |
| farms.dfy | `Farms` | GET (farms joined to owners) and POST `/api/farms` |
| supabase.dfy | `Supabase` | `isValidSupabaseConfig`, the module state with the admin cache, `getVarietyStats`, `getAllVarieties` |

Conventions of the model:

- **Store calls are parameters.** A read is a `Fetched` value: rows, no
  data (`null`), or an error. A write takes a `Fault`: `None` when it
  succeeds, or the store's message. The ids and timestamps the store
  assigns are parameters of the POST handlers.
- **Round trips are counted.** Each table class counts its round trips
  in `calls`, so "no store call" can be stated as `unchanged(table)`.
- **The environment check.** Each route file defines its own
  `getSupabaseAdmin` (lines 4-13). It throws when the URL or the service
  key is unset or empty, and the handler's catch turns that into a 500.
  This check is `Common.AdminEnvPresent`. An unset variable is `""`.
- **Request bodies.** A body that is not JSON makes `request.json()`
  throw; so does a JSON `null`, whose destructuring throws. Either way
  the body is `None`, and the handler answers with its catch-all 500.
  A field that is missing or `null` is `None`.

Where the code and its documented intent differ, the model follows the
code:

- **The email lookup.** It uses `.single()`, so it finds a row only when
  exactly one row matches. When the lookup fails, its error is never
  read, and the insert goes ahead. A same-email row therefore does not
  always cause a 409. Such a row is missed when two rows already share
  the email (`Store.SharedValueIsNotFound`) or when the lookup fails
  (`Store.InsertOfHeldValueBreaksUnique`).
- **The duplicate key.** It is the joined string
  `name|category_name|subcategory_name`, not the triple. Names that
  contain `|` can collide (`DuplicateLaws.KeyCollision`).

## Model

| member | source | states |
|---|---|---|
| Duplicates.Key | app/api/duplicates/route.ts:30 | the key holds two more '\|' than the three names together, so always at least two |
| Duplicates.Split | app/api/duplicates/route.ts:40 | `split` always yields at least one part |
| Duplicates.Members | app/api/duplicates/route.ts:29-35 | the rows under a key are never more than the rows read |
| Duplicates.Grouping | app/api/duplicates/route.ts:27-37 | one entry per distinct key, in the order of first occurrence, each holding the rows with its key |
| Duplicates.ToGroup | app/api/duplicates/route.ts:39-49 | `count` equals the number of rows, the length of `ids`, and one more than the length of `deleteIds`; `ids` are the rows' ids in order; `keepId` is `ids[0]` and `deleteIds` is the rest |
| Duplicates.Plan | app/api/duplicates/route.ts:37-50 | one group per entry that passes the filter, each counting that entry's rows, so every `count` is at least 2 |
| Duplicates.FlatDeleteIds | app/api/duplicates/route.ts:75-77 | the flattened list is empty exactly when every submitted group's `deleteIds` is empty |
| Duplicates.RemoveIds | app/api/duplicates/route.ts:83-86 | the bulk delete never adds rows |
| Store.Matching | app/api/users/route.ts:67-71 | the lookup never matches more rows than the table holds |
| Store.SingleBy | app/api/users/route.ts:67-72 | a row the lookup finds is a row of the table holding the value looked up |
| Users.NewUser | app/api/users/route.ts:81-86 | the inserted row carries the body's name and email, both non-empty, and its phone |
| Farms.NewFarm | app/api/farms/route.ts:96-107 | the inserted farm carries the body's name and email, both non-empty; its owner id is null exactly when the body's is falsy, and the body's otherwise |
| Supabase.PropertyKey | lib/supabase.ts:200-203 | a category is its own property name; the name "null" is shared by a null category and a category named "null" |
| Tally.Distinct | app/api/duplicates/route.ts:27-37 | the Map's keys are exactly the keys that occur, each once |
| Tally.DistinctInFirstOccurrenceOrder | app/api/duplicates/route.ts:27-37 | the Map's keys come in the order of their first occurrence among the rows |
| Duplicates.MembersCount | app/api/duplicates/route.ts:29-35 | the rows pushed under a key are as many as the occurrences of that key |
| Duplicates.MembersExactly | app/api/duplicates/route.ts:29-35 | the rows under a key are exactly the rows whose joined key it is |
| Duplicates.GroupByKey | app/api/duplicates/route.ts:27-37 | the forEach that fills the Map yields one entry per distinct key, in first-occurrence order, each holding every row with that key in read order |
| Duplicates.Kept | app/api/duplicates/route.ts:38 | every entry that passes the filter has more than one row |
| Duplicates.FindDuplicates | app/api/duplicates/route.ts:15-60 | a missing environment, a read error or a read without data gives 500 "Failed to find duplicates"; otherwise 200 with the plan of the rows read |
| Duplicates.VarietyTable.DeleteIn | app/api/duplicates/route.ts:83-86 | one round trip; when it succeeds, exactly the rows whose id is listed are removed, and on a fault nothing changes |
| Duplicates.RemoveDuplicates | app/api/duplicates/route.ts:62-105 | a missing environment or a non-JSON body gives 500 with no store call; a missing or non-array `duplicates` gives 400 with no store call; an empty flattened list gives `deletedCount` 0 with no store call; otherwise one bulk delete, which gives 500 "Delete failed: …" on error or `deletedCount` equal to the flattened list's length |
| DuplicateLaws.SplitJoin | app/api/duplicates/route.ts:40 | splitting on the separator inverts the join when no part contains it |
| DuplicateLaws.SplitLength | app/api/duplicates/route.ts:40 | a string splits into one part more than it has separators |
| DuplicateLaws.KeyRoundTrip | app/api/duplicates/route.ts:30-40 | splitting a key gives back the row's three names when none contains '\|' |
| DuplicateLaws.KeyHasThreeParts | app/api/duplicates/route.ts:30-40 | a key always splits into at least three parts, so the destructuring never reads past the end |
| DuplicateLaws.KeyInjective | app/api/duplicates/route.ts:30 | without '\|' in the names, two rows share a key exactly when they share all three names |
| DuplicateLaws.KeyCollision | app/api/duplicates/route.ts:30-40 | rows with different names can share a key once a name holds '\|', and splitting that key then yields four parts |
| DuplicateLaws.KeptExactly | app/api/duplicates/route.ts:38 | the filter keeps exactly the entries with more than one row |
| DuplicateLaws.KeptEntry | app/api/duplicates/route.ts:29-38 | a reported entry holds at least two rows: exactly the rows with its key, and only rows that were read |
| DuplicateLaws.KeptGroupsArePartition | app/api/duplicates/route.ts:27-38 | every reported group holds at least two rows, all with its key and all the rows with its key; no two reported groups share a key |
| DuplicateLaws.DuplicatedRowInExactlyOneGroup | app/api/duplicates/route.ts:29-38 | a row whose key occurs at least twice is in some reported group, in exactly the groups with its key, and only one group has that key |
| DuplicateLaws.GroupShape | app/api/duplicates/route.ts:45-48 | `count` equals the length of `ids`, which is one more than the length of `deleteIds`; `count` is at least 2; `keepId` is `ids[0]` and `deleteIds` is the rest of `ids`; with distinct ids, `keepId` is not among `deleteIds` |
| DuplicateLaws.PlanGroupShape | app/api/duplicates/route.ts:39-50 | every group of the plan has that shape; with distinct row ids, no group deletes its own `keepId` |
| DuplicateLaws.PlanGroupNames | app/api/duplicates/route.ts:40-44 | when no name contains '\|', a group reports the name, category and subcategory of each of its rows |
| DuplicateLaws.TotalCountIsDuplicatedRows | app/api/duplicates/route.ts:29-45 | the `count`s of the plan add up to the number of rows whose key occurs more than once |
| DuplicateLaws.KeepIsFirstRow | app/api/duplicates/route.ts:47 | the kept id is that of the first row read with the key |
| DuplicateLaws.MembersInReadOrder | app/api/duplicates/route.ts:23-35 | two successive rows with a key are adjacent in its group, in read order |
| DuplicateLaws.KeptIsSubsequence | app/api/duplicates/route.ts:38 | the filter keeps the entries in their order |
| DuplicateLaws.GroupsInFirstOccurrenceOrder | app/api/duplicates/route.ts:27-38 | groups are reported in the order their keys first occur among the rows |
| DuplicateLaws.MembersAfterRemoval | app/api/duplicates/route.ts:83-86 | removing ids and then grouping equals grouping and then removing ids |
| DuplicateLaws.RemoveIdsExactly | app/api/duplicates/route.ts:83-86 | a row survives the bulk delete exactly when its id is not listed |
| DuplicateLaws.FlatDeleteIdsHas | app/api/duplicates/route.ts:75 | every `deleteIds` entry of every submitted group is in the flattened list |
| DuplicateLaws.FlatDeleteIdsFrom | app/api/duplicates/route.ts:75 | every id of the flattened list comes from some group's `deleteIds` |
| DuplicateLaws.LaterRowsAreDeleted | app/api/duplicates/route.ts:37-48 | every row of a duplicated key except the first has its id in the plan's flattened `deleteIds` |
| DuplicateLaws.DeletedIdIsLaterRow | app/api/duplicates/route.ts:37-48 | every id in the plan's flattened `deleteIds` is that of a row which is not the first of its key |
| DuplicateLaws.FirstRowIsNotDeleted | app/api/duplicates/route.ts:47-48 | with distinct row ids, the first row of a key is never submitted for deletion |
| DuplicateLaws.ApplyKeepsFirstOfEachKey | app/api/duplicates/route.ts:37-86 | applying the plan to the rows it came from leaves, for each key that occurs, exactly the first row with it |
| DuplicateLaws.RescanAfterApplyIsEmpty | app/api/duplicates/route.ts:37-86 | after a plan is applied to the rows it came from, a new scan of those rows reports no groups |
| DuplicateLaws.TomatoExample | app/api/duplicates/route.ts:27-86 | two Tomato rows and one Basil row give one group with count 2, keep "1" and delete ["2"]; applying it leaves the first Tomato and the Basil |
| Store.SingleByFindsTheOnlyRow | app/api/users/route.ts:67-72 | `.eq(...).single()` yields a row exactly when one and only one row holds the value, and then it is that row |
| Store.UniqueLookupMisses | app/api/users/route.ts:67-79 | when emails are unique, the lookup misses only if no row holds the email |
| Store.InsertAfterMissKeepsUnique | app/api/users/route.ts:67-86 | inserting after a lookup that missed keeps emails unique |
| Store.SharedValueIsNotFound | app/api/farms/route.ts:81-88 | an email already held by two rows is not found, so a third row with it is let through |
| Store.InsertOfHeldValueBreaksUnique | app/api/farms/route.ts:81-109 | inserting a row whose email is already held breaks uniqueness, as happens when the lookup fails |
| Store.Table.SelectSingle | app/api/users/route.ts:67-72 | one round trip, no change to the rows; a store error reads as no row |
| Store.Table.InsertSingle | app/api/users/route.ts:81-86 | one round trip; on success the row is appended and returned; on error nothing changes and the error comes back |
| Users.ListUsers | app/api/users/route.ts:15-52 | a missing environment gives 500 "Internal server error"; a read error gives 500 "Failed to fetch users"; otherwise 200 with the rows read, or `[]` when there is no data |
| Users.CreateUser | app/api/users/route.ts:54-104 | a missing environment or non-JSON body gives 500 with no store call; a falsy name or email gives 400 with no store call; a found email gives 409 after one round trip with the rows unchanged; an insert error gives 500 with the rows unchanged; otherwise exactly the new `{name, email, phone}` row is appended and returned with 201; unique emails stay unique when the lookup succeeds |
| Farms.NormaliseOwnerId | app/api/farms/route.ts:106 | a falsy owner id is stored as null; any other is stored unchanged |
| Farms.FindOwner | app/api/farms/route.ts:46 | the owner found is a user whose id is the farm's owner id; null exactly when no user has that id or the owner id is null |
| Farms.FindOwnerIsFirst | app/api/farms/route.ts:46 | the owner found is the first user with that id |
| Farms.WithOwners | app/api/farms/route.ts:44-47 | one result per farm, in order, each with its farm; without user data every owner is null; with it, each owner is a matching user, and the owner is null exactly when none matches |
| Farms.ListFarms | app/api/farms/route.ts:15-57 | a missing environment gives 500 "Internal server error"; a farms read error gives 500 "Failed to fetch farms"; otherwise 200 with the farms read (or none when there is no data), in order, each joined to its owner by `WithOwners`, and all owners null when the users read fails or returns no data |
| Farms.CreateFarm | app/api/farms/route.ts:59-127 | the same guards as user creation, with the farm messages; on success exactly the new farm, with its eight fields and the normalised owner id, is appended and returned with 201 |
| Supabase.ValidConfigCharacterised | lib/supabase.ts:7-13 | the configuration is valid exactly when the key is set and not its placeholder and the URL starts with `https://` and mentions `supabase.co`; the URL's own emptiness and placeholder checks follow from its prefix |
| Supabase.SupabaseModule.constructor | lib/supabase.ts:15-20 | the anonymous client is built, from the URL and the anonymous key, exactly when the configuration is valid; no admin client is cached yet |
| Supabase.SupabaseModule.GetSupabaseAdmin | lib/supabase.ts:22-33 | the cached client is returned when there is one; otherwise an invalid configuration or a missing service key throws and caches nothing; otherwise a new client for the URL and the service key is cached and returned |
| Supabase.SupabaseModule.AdminIsCached | lib/supabase.ts:22-33 | once a call has returned a client, the next call returns the same client whatever service key it reads |
| Supabase.SupabaseModule.GetVarietyStats | lib/supabase.ts:189-209 | without the anonymous client it throws "not initialised"; a read error is rethrown; a read without data throws; otherwise `total` is the number of rows and `byCategory` maps each category that occurs to its number of rows |
| Supabase.SupabaseModule.GetAllVarieties | lib/supabase.ts:74-100 | without the anonymous client it throws; when the RPC succeeds, its rows or `[]` come back; when it fails, the fallback's error is rethrown, or the fallback's rows (or `[]`) come back with `farm_count` 0 |
| Supabase.WithZeroFarmCount | lib/supabase.ts:96 | the same number of rows, each with `farm_count` 0, the same columns plus `farm_count`, and every other column unchanged |
| Supabase.StatsAddUp | lib/supabase.ts:200-206 | the per-category counts, summed over the categories, equal `total` |
| Supabase.StatsEntries | lib/supabase.ts:200-203 | a category has an entry exactly when some row has it, and then its count is at least 1 |

## Left out

- The thin wrappers of `lib/supabase.ts` (lines 102-187) and its `fetch` wrappers (lines 211-236) are not modelled. They only forward one store query or one HTTP request.
- The database RPCs (`get_varieties_with_farm_count` and the search and suggestion functions) run inside the database. Only their success or failure is modelled.
- The `[id]` routes of users and farms, and so any cascade from deleting a user, are not part of this model.
- The React pages, the layout and the Tailwind configuration are not part of this model.
- Concurrency is not modelled. The lookup and the insert of a POST are separate round trips, and so are a scan and the DELETE that applies it. Each request is modelled as one sequential step.
- The store's ordering (`order('name, id')`, `order('created_at', …)`) is not modelled. The rows arrive in the order the read gives.
- The nested `farms (...)` select of GET `/api/users` is not modelled: the rows are passed through as values of any type.
- JSON body fields that are not strings or null (numbers, objects, arrays) are not modelled.
- Duplicates.Key: the names are taken as strings. A null category or subcategory, which the template literal would render as "null", is not modelled.
- Duplicates.RemoveDuplicates: some malformed arrays are not modelled. A group whose `deleteIds` is not an array would have `flatMap` add the value itself. An element of `duplicates` that is `null` or not an object makes `d.deleteIds` throw or read `undefined`; a throw ends in the catch-all 500 "Failed to remove duplicates". The `data` returned by the delete, echoed in the response, is not modelled either.
- Duplicates.VarietyTable: the GET scans the view `varieties_search`, while the DELETE deletes from the table `varieties`, which has no category columns. The model assumes that the view holds exactly the rows of the table, one per variety id, each with its names. `DuplicateLaws.ApplyKeepsFirstOfEachKey`, `DuplicateLaws.RescanAfterApplyIsEmpty` and `DuplicateLaws.TomatoExample` rely on that.
- Store.Table.InsertSingle: on a store error the rows are taken as unchanged. A write that committed but whose response was lost would report an error with the row inserted; the model does not capture that case. The same holds for the 500 branches of `Users.CreateUser` and `Farms.CreateFarm`.
- Duplicates.VarietyTable.DeleteIn: on a store error the rows are taken as unchanged. A delete that committed but whose response was lost would report an error with the rows gone; the model does not capture that case. The same holds for the 500 branch of `Duplicates.RemoveDuplicates`. A caller should scan again after a failed delete.
- Supabase.ByCategory: JavaScript's special property names (such as `__proto__`) and the order of the object's properties are not modelled.
- Supabase.Value: fractional numbers and nested values in catalogue rows are not modelled.
- Building the clients and talking to the network are not modelled. A `Client` only records the URL and the key it was built with.
- The exported `supabaseAdmin = null` constant is not modelled.
- Constraints that the database enforces itself, and columns that the handlers do not write, are not modelled.
