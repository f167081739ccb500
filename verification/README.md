# multidict in Dafny

A model of the `multidict` Rust crate: `MultiDict`, an insertion-ordered
sequence of `MultiElement { key, value }` string pairs in which one key may
occur any number of times. The crate is used for HTTP headers and URL query
parameters, where duplicate keys matter and order must be kept. Every
operation is a linear scan or an edit of that one sequence.

Files and modules:

- `outcomes.dfy` (`Outcomes`): the single error `KeyNotFound` (the source's
  `Err("No matching key found")`), `Result` and `Option`.
- `elements.dfy` (`Elements`): `MultiElement`, `MultiElement::new`, and the
  reference notions the operations are specified by: `HasKey`,
  `IsFirstMatch`, `Count`, `Matching` (the in-order filter) and `FirstIndex`.
  It also holds `RemoveAt` and `InsertAt`, which are `Vec::remove` and
  `Vec::insert`.
- `multidict.dfy` (`MultiDicts`): the container and all of its operations
  as pure functions. The source's `&mut self` operations (`add`, `popone`,
  `update`) return the new container. `popone` returns a `Popped` value
  with the taken element (or error) and the remaining container.
- `scans.dfy` (`MultiDictScans`): the source's loops written as methods
  (the first-match scans, the `getall` collect loop, the `keys`/`values`
  push loops, and `update`'s collect-indices-then-replace passes). Each is
  proved equal to its function in `MultiDicts`.
- `properties.dfy` (`MultiDictProperties`): lemmas that relate several
  operations, such as round trips, idempotence and counts.
- `examples.dfy` (`MultiDictExamples`): the outcomes shown in the crate's
  documentation examples.

Keys are compared by exact string equality (`String::eq`): there is no case
folding or normalisation. `usize` is modelled as `nat`.

## Model

| member | source | states |
|---|---|---|
| `Elements.NewElement` | src/lib.rs:111-116 | the array's first string becomes the key and the second the value; listing the element's fields key first gives the array back |
| `Elements.FirstIndex` | src/lib.rs:334-339 | the front-to-back scan finds nothing exactly when no element has the key; otherwise it finds the smallest index whose key matches |
| `Elements.Count` | src/lib.rs:435-440 | the number of elements with a key is at most the length, and it is zero exactly when the key is absent |
| `Elements.Matching` | src/lib.rs:435-439 | the collected elements number exactly the count of the key; each one has the key and comes from the source |
| `Elements.MatchingKeepsEveryMatch` | src/lib.rs:435-439 | every source element with the key is collected, so nothing that matches is dropped |
| `Elements.MatchingAppend` | src/lib.rs:435-439 | collecting over `a + b` gives the matches of `a` followed by the matches of `b`; this fixes the source order of the result |
| `Elements.MatchingSnoc` | src/lib.rs:435-439 | one more loop step adds the current element to the collected ones exactly when its key matches |
| `Elements.CountAppend` | src/lib.rs:435-439 | counts add up over concatenation |
| `Elements.MatchingHead` | src/lib.rs:435-439 | the first collected element is the element at the first matching index |
| `Elements.MatchingAllMatch` | src/lib.rs:435-439 | collecting from a sequence whose keys all match returns that sequence unchanged |
| `Elements.RemoveAt` | src/lib.rs:390 | `Vec::remove(i)` drops index `i`; earlier elements stay put and later ones shift down by one |
| `Elements.InsertAt` | src/lib.rs:617 | `Vec::insert(i, x)` puts `x` at `i`; earlier elements stay put and later ones shift up by one |
| `Elements.RemoveThenInsert` | src/lib.rs:616-617 | removing at `i` and then inserting at `i` is a replacement at `i` only |
| `Elements.CountRemoveAt` | src/lib.rs:390 | removing one element lowers its key's count by one and leaves every other key's count alone |
| `MultiDicts.New` | src/lib.rs:167-171 | a new container has no elements and holds no key |
| `MultiDicts.NewCapacity` | src/lib.rs:213-217 | the capacity hint has no effect: the result equals `New()` |
| `MultiDicts.Len` | src/lib.rs:237-239 | the element count, duplicates counted separately; it is 0 exactly when no key is present; `IsEmpty`, `Add`, `PoponeRemovesOne` and `KeysValuesZip` state how it moves |
| `MultiDicts.IsEmpty` | src/lib.rs:237-271 | `is_empty` holds exactly when `len` is 0 |
| `MultiDicts.Add` | src/lib.rs:292-294 | the length grows by exactly one; earlier elements are unchanged; the new element is last; its key's count grows by one, so nothing is merged |
| `MultiDicts.Get` | src/lib.rs:333-340 | `KeyNotFound` exactly when no element has the key; otherwise the element at the first matching index |
| `MultiDicts.GetAtFirstMatch` | src/lib.rs:333-340 | whichever index is the first match, `get` returns the element there |
| `MultiDicts.Popone` | src/lib.rs:387-394 | `KeyNotFound` exactly when the key is absent, and then the container is unchanged; otherwise the first match is returned and only that index is removed |
| `MultiDicts.GetAll` | src/lib.rs:433-445 | `KeyNotFound` exactly when the key is absent; otherwise a new container with the key's count of elements, all with the key, all from the source, every matching source element among them, in source order |
| `MultiDicts.Contains` | src/lib.rs:484-491 | true exactly when some element has the key |
| `MultiDicts.Keys` | src/lib.rs:517-523 | one key per element, duplicates included, position for position |
| `MultiDicts.Values` | src/lib.rs:548-554 | one value per element, position for position |
| `MultiDicts.Update` | src/lib.rs:606-619 | same length; every position whose key equals the new element's key holds the new element; every other position is unchanged |
| `MultiDictScans.GetScan` | src/lib.rs:333-340 | the early-return loop computes `Get` |
| `MultiDictScans.PoponeScan` | src/lib.rs:387-394 | the enumerate-and-remove loop computes `Popone` |
| `MultiDictScans.GetAllScan` | src/lib.rs:433-445 | adding matches to a fresh container and then testing emptiness computes `GetAll` |
| `MultiDictScans.ContainsScan` | src/lib.rs:484-491 | the early-return loop computes `Contains` |
| `MultiDictScans.KeysScan` | src/lib.rs:517-523 | the push loop computes `Keys` |
| `MultiDictScans.ValuesScan` | src/lib.rs:548-554 | the push loop computes `Values` |
| `MultiDictScans.UpdateScan` | src/lib.rs:606-619 | collecting the matching indices first and then removing and inserting at each one computes `Update` |
| `MultiDictProperties.EmptyContainer` | src/lib.rs:167-217 | on a new container `get`, `getall` and `popone` fail, `contains` is false, `keys` and `values` are empty, and `update` changes nothing |
| `MultiDictProperties.KeysValuesZip` | src/lib.rs:517-554 | `keys` and `values` both have `len` entries, and zipping them gives back the elements |
| `MultiDictProperties.ContainsIffFound` | src/lib.rs:484-491 | `contains` holds exactly when `get` succeeds and exactly when `getall` succeeds |
| `MultiDictProperties.AddKeepsFirstMatch` | src/lib.rs:292-294 | appending does not change what `get` returns for a key that is already present |
| `MultiDictProperties.AddKeepsOtherCounts` | src/lib.rs:292-294 | appending does not change the count of any other key |
| `MultiDictProperties.AddAllKeepsOrder` | src/lib.rs:292-294 | after a series of `add` calls, the added elements follow the earlier ones in call order |
| `MultiDictProperties.AddAllKeys` | src/lib.rs:517-523 | starting from `new`, after a series of `add` calls `keys` lists the added keys in call order |
| `MultiDictProperties.PoponeTakesGet` | src/lib.rs:387-394 | `popone` returns exactly what `get` returns for the same key |
| `MultiDictProperties.PoponeRemovesOne` | src/lib.rs:387-394 | a successful `popone` shortens the container by one, lowers the key's count by one and keeps every other key's count |
| `MultiDictProperties.AddThenPopone` | src/lib.rs:387-394 | adding under a key not yet present and then popping that key returns the added element and restores the container |
| `MultiDictProperties.GetAllStartsWithGet` | src/lib.rs:433-445 | `get` on the `getall` result gives the same element as `get` on the source |
| `MultiDictProperties.GetAllIdempotent` | src/lib.rs:433-445 | `getall` on its own result returns that result |
| `MultiDictProperties.UpdateAbsentIsNoop` | src/lib.rs:606-619 | `update` with an absent key leaves the container unchanged and reports no error |
| `MultiDictProperties.UpdateIdempotent` | src/lib.rs:606-619 | updating twice with the same element equals updating once |
| `MultiDictProperties.UpdateKeepsKeys` | src/lib.rs:606-619 | `update` keeps `keys` and every key's count, and afterwards every element under the updated key is the new element |
| `MultiDictProperties.UpdateCount` | src/lib.rs:606-619 | replacing elements by ones with the same key keeps every count |
| `MultiDictExamples.LookupExamples` | src/lib.rs:300-331 | the documented `len`, `is_empty`, `get` and `contains` outcomes |
| `MultiDictExamples.PoponeExamples` | src/lib.rs:347-384 | the documented `popone` outcomes: the first value is taken and the second kept; with an absent key it fails and nothing changes |
| `MultiDictExamples.GetAllExamples` | src/lib.rs:401-431 | the documented `getall` outcomes, including the skipped other key and the failure |
| `MultiDictExamples.ProjectionExamples` | src/lib.rs:498-546 | the documented `keys` and `values` lists |
| `MultiDictExamples.UpdateExamples` | src/lib.rs:561-604 | the documented `update` outcomes: one element replaced in place, and both elements of a shared key replaced |

## Left out

- `Display` and `Debug` for `MultiElement` and `MultiDict` (src/lib.rs:83-98, src/lib.rs:127-156): these are diagnostic text only. They do not escape quotes, so the text cannot be parsed back.
- `NewCapacity`: the capacity hint of `new_capacity` (src/lib.rs:215) is ignored. For ordinary hints it only pre-sizes storage. A very large hint makes `Vec::with_capacity` panic with "capacity overflow" (for example `new_capacity(&usize::MAX)`), or abort when the allocation fails. The model returns an empty container for every `nat` and does not model that panic or abort.
- Borrowing and ownership: `get` returns a reference, `keys`/`values` return `Vec<&String>`, and `getall` clones. The model uses values throughout. A `getall` result therefore cannot share storage with the source.
- Panics of `Vec::remove` and `Vec::insert` on an index out of range: `RemoveAt` and `InsertAt` require an index in range. The source only calls them with indices it has just found.
- Allocation failure and `usize` overflow of the length: not modelled. Lengths are unbounded `nat`s.
- The error text "No matching key found" becomes the single constructor `KeyNotFound`.

## Notes

- `update` takes a whole `MultiElement` and puts a clone of it at each matching position (src/lib.rs:606-619); `Update` and `UpdateScan` do the same.
- `UpdateIdempotent` holds for every input; when nothing matches, `update` changes nothing (`UpdateAbsentIsNoop`).
