# Recent-zipcode history

A Dafny model of the recent-zipcode history of a mobile weather app
(`services/storage.ts`). After a successful forecast lookup, the weather screen
records the zipcode in a short list persisted under the key `zipcode-storage`
of the device's key-value store. The list is kept oldest first. A zipcode
already in the list is ignored. A new one is appended at the end. When that
makes the list longer than `MAX_HISTORY_ITEMS` (5), the front (oldest) entry is
evicted. Every failure is swallowed. Reading the history returns the stored
list, or the empty list when nothing is stored or the stored value cannot be
read.

Everything is in `storage.dfy`, module `Storage`:

- `Slot` is what the store holds under the key: `Absent`, `Corrupt` (a value
  that does not parse) or `Stored(zipcodes)`. JSON encoding and decoding are
  abstracted into this datatype.
- `Remember`, `AfterStore` and `Read` are the pure specification of one store
  and of one read. `StoreAll` folds a sequence of stores.
- `ZipcodeStorage` is the store as a class with one field, `slot`.
  `StoreZipcode` updates it step by step as the source does: the parsed array
  is pushed, then shifted. `GetLastSearchedZipcodes` reads it. Each method is
  proved against the specification functions.

Where the general description of the app and the code differ, the model
follows the code. One store evicts at most one entry. A stored list that is
already longer than five, which the app itself never writes, stays longer than
five after a store. The cap of five is therefore proved as an invariant
(`ValidSlot`): it holds after a store whenever it held before. The zipcode
history appends at the end and evicts from the front. That is the only order
modelled here.

## Model

| member | source | states |
|---|---|---|
| Storage.Remember | services/storage.ts:18-24 | the zipcode is in the list written back; it is the last entry when it was not there before; a list within the cap of 5 stays within it |
| Storage.RememberPresentUnchanged | services/storage.ts:18-20 | a zipcode already in the list leaves the list unchanged |
| Storage.RememberAppendsBelowCap | services/storage.ts:21-24 | below the cap a new zipcode is appended at the end, and the earlier entries stay unchanged and in order |
| Storage.RememberEvictsOldest | services/storage.ts:21-24 | at the cap a new zipcode gives `old[1..] + [zipcode]`, still 5 long, and in a duplicate-free list the oldest entry is gone |
| Storage.RememberKeepsValid | services/storage.ts:18-24 | a list of at most 5 entries with no duplicates keeps both properties after a store |
| Storage.StoreIntoAbsent | services/storage.ts:9-14 | storing into an absent slot leaves exactly `[zipcode]`, and the read gives `[zipcode]` |
| Storage.StoreIntoCorrupt | services/storage.ts:17-31 | storing into a corrupt slot changes nothing, because the parse fails before any write; the read still gives `[]` |
| Storage.StoreTwiceIsStoreOnce | services/storage.ts:9-24 | storing the same zipcode twice has the same effect as storing it once, whatever the slot holds |
| Storage.StoreKeepsValid | services/storage.ts:6-32 | a store keeps a valid slot valid: absent, corrupt, or a list of at most 5 distinct zipcodes |
| Storage.ReadAfterStore | services/storage.ts:21-28 | after a store into a readable slot, the read contains the zipcode; a newly added zipcode is the last entry |
| Storage.ReadSlot | services/storage.ts:37-45 | reading an absent or corrupt slot gives `[]`; reading a stored list gives it back unchanged |
| Storage.StoreAllKeepsValid | services/storage.ts:6-32 | any sequence of stores keeps a valid slot valid |
| Storage.CorruptStaysCorrupt | services/storage.ts:17-31 | no sequence of stores writes over a corrupt slot |
| Storage.StoreDistinctFromAbsent | services/storage.ts:9-28 | storing distinct zipcodes, one after another, into an absent slot leaves the 5 most recent of them, oldest first |
| Storage.SixDistinctStoresEvictFirst | services/storage.ts:21-24 | six distinct stores into an absent slot leave exactly 5 entries, and the first zipcode stored is the one evicted |
| Storage.ZipcodeStorage.StoreZipcode | services/storage.ts:6-32 | the new slot is the specified store's result when the write is accepted, and the old slot when it is rejected (the failure is swallowed); a valid slot stays valid |
| Storage.ZipcodeStorage.GetLastSearchedZipcodes | services/storage.ts:34-47 | returns the stored list, or `[]` when the slot is absent or corrupt |

## Left out

- The key-value store and JSON parsing and serialisation are abstracted into the `Slot` datatype. `Corrupt` stands for a value that `JSON.parse` rejects.
- Well-formed JSON that is not an array of strings is not modelled. The app only ever writes arrays of strings under this key.
- A failed write is the `writeAccepted` parameter of `StoreZipcode`. A failed read inside a store has the same effect as a rejected write: nothing changes. It is not a separate parameter.
- A failed read in `GetLastSearchedZipcodes` returns `[]`, as a corrupt slot does. It is not a separate parameter.
- Asynchrony is not modelled. Each call is one atomic step, so the race between two concurrent read-then-write stores is out of scope.
- The barcode history functions that `app/(tabs)/barcodeScreen.tsx` imports from the same module are not part of the shown `services/storage.ts`. They are not part of this model.
- When the screen calls a store is not modelled: only after a non-empty forecast. That is UI flow, not storage logic.
- The weather client, permission requests, the Bluetooth helpers, date formatting and the screens are UI or foreign-API glue. They are not part of this model.
