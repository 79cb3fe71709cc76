# Offer registry — a Dafny model

This project models the offer registry of a peer-to-peer fiat-for-crypto
exchange contract. The registry keeps *offers* in an ordered key-value store.
Each offer carries an id, an owner, a buy/sell type, a fiat currency, a
min/max amount range and an `Active`/`Paused` state. Its key is the 8-byte
big-endian encoding of the offer id. The model covers:

- the entities (`Offer`, `OfferMsg`, `OfferState`, `OfferType`, the errors);
- `OfferModel` and its operations: `store`, fetch by id, `create`, `save`,
  `may_load`, `activate`, `pause` and `update`;
- the two currency queries: a full ascending scan (`query_all_offers`) and a
  cursor-paginated scan (`fetch` with `last_value` and `limit`);
- the two guards, `assert_ownership` and `assert_min_g_max`.

The store is a `map<Bytes, Offer>`. Each operation that writes takes the
store and returns the new store. An ascending range scan is modelled as
`Sort`, which lists a finite key set in lexicographic byte order. It is
defined once, in `sorted_keys.dfy`.

`bytes.dfy` proves that lexicographic order on equal-width big-endian strings
coincides with numeric order (`EncodingPreservesOrder`). So an ascending scan
over keys is an ascending walk over ids. A cursor (`last_value`) is an
arbitrary byte string: a proper prefix sorts before its extensions, and the
empty cursor lies below every key.

A page is defined over *raw* entries. The scan takes `limit` entries strictly
above the cursor and only then filters them by currency. `Pagination.PageIdentity`
states this against an independent description of the store's contents:
`ListsAbove`, the stored offers above the cursor in ascending id order.
One consequence is that a page can come back short, or empty, while matches
exist further on. `Scenarios.ShortPageScenario` exhibits exactly that.

Files: `bytes.dfy` (byte order, big-endian codec), `sorted_keys.dfy`
(ascending listing of a key set), `offer_types.dfy` (entities and errors),
`guards.dfy`, `offer_registry.dfy` (the registry operations),
`registry_properties.dfy` (lemmas that span several operations),
`pagination.dfy` (what the queries return), `scenarios.dfy` (concrete
paging behaviour).

The source file declares two associated functions named `fetch`: one by id
(packages/protocol/src/offer.rs:102) and one by page (:179). They are
modelled as `FetchById` and `FetchPage`.

## Model

| member | source | states |
|---|---|---|
| Bytes.EncodingPreservesOrder | packages/protocol/src/offer.rs:99 | for equal-width big-endian keys, lexicographic byte order is exactly numeric order on the encoded values |
| Bytes.BigEndianRoundTrip | packages/protocol/src/offer.rs:99 | decoding a big-endian byte string and re-encoding it at the same width gives the string back |
| Bytes.ToBigEndian | packages/protocol/src/offer.rs:99 | the n-byte big-endian encoding has n bytes and decodes back to the value (`to_be_bytes`) |
| SortedKeys.Sort | packages/protocol/src/offer.rs:170-171 | an ascending scan lists every key of the set once, strictly ascending, and nothing else |
| SortedKeys.SortIsUnique | packages/protocol/src/offer.rs:170-171 | any strictly ascending listing of a key set is the scan's listing |
| OfferRegistry.OfferKeyOrder | packages/protocol/src/offer.rs:99 | offer keys compare as their ids compare, and distinct ids have distinct keys |
| OfferRegistry.Store | packages/protocol/src/offer.rs:98-100 | the offer is written under the key of its id, overwriting; every other key keeps its presence and value; a store with every offer under its own id stays so |
| OfferRegistry.FetchById | packages/protocol/src/offer.rs:102-107 | for a present id, the result is a stored offer, and in a well-formed store it has that id; an absent id panics in the source and is excluded by the precondition |
| RegistryProperties.StoreThenFetch | packages/protocol/src/offer.rs:98-107 | after storing an offer, fetching its id returns exactly that offer, and fetching any other stored id returns what it returned before |
| RegistryProperties.StoreOverwrites | packages/protocol/src/offer.rs:98-100 | storing two offers with the same id leaves only the second |
| OfferRegistry.Create | packages/protocol/src/offer.rs:109-112 | create persists the offer unchanged, with no validation, and keeps it with the store; other keys are untouched |
| RegistryProperties.CreateThenMayLoad | packages/protocol/src/offer.rs:109-125 | loading the id of a just-created offer yields the same offer and store that create returned |
| OfferRegistry.Save | packages/protocol/src/offer.rs:114-117 | save returns the model's offer and a store holding it under its key; other keys are untouched; saving an already persisted model changes nothing |
| OfferRegistry.MayLoad | packages/protocol/src/offer.rs:119-125 | loading leaves the store untouched; in a well-formed store the loaded offer has the requested id and is what the store holds |
| OfferRegistry.Activate | packages/protocol/src/offer.rs:127-139 | succeeds iff the offer is Paused; on success only the state changes, to Active, and the result is persisted and returned; from Active the error is InvalidStateChange{Active, Active} and neither offer nor store changes |
| OfferRegistry.Pause | packages/protocol/src/offer.rs:141-153 | succeeds iff the offer is Active; on success only the state changes, to Paused, and is persisted; from Paused the error is InvalidStateChange{Paused, Paused} with no write |
| RegistryProperties.PauseThenActivate | packages/protocol/src/offer.rs:127-153 | pausing a persisted active offer and activating it again restores the offer and the store exactly |
| RegistryProperties.ActivateThenPause | packages/protocol/src/offer.rs:127-153 | activating a persisted paused offer and pausing it again restores the offer and the store exactly |
| RegistryProperties.RepeatedTransitionFails | packages/protocol/src/offer.rs:127-153 | neither transition is idempotent: a second activate (or pause) in a row fails with the matching InvalidStateChange and writes nothing |
| OfferRegistry.Update | packages/protocol/src/offer.rs:155-164 | type, currency, min and max come from the message; id, owner and state are kept; the result is persisted; other keys are untouched |
| RegistryProperties.UpdateIdempotent | packages/protocol/src/offer.rs:155-164 | applying the same update twice equals applying it once |
| RegistryProperties.UpdateBoundsFollowGuard | packages/protocol/src/offer.rs:155-164 | update does not check the range: the updated offer has min < max exactly when the range guard accepts the message, and it is persisted either way |
| RegistryProperties.MutatorsKeepWellFormed | packages/protocol/src/offer.rs:109-164 | create, save, activate, pause and update keep every offer under the key of its own id |
| OfferRegistry.OfferKey | packages/protocol/src/offer.rs:99 | the storage key of an id (`id.to_be_bytes()`) is exactly 8 bytes and decodes, most significant byte first, back to the id |
| OfferRegistry.ValuesAt | packages/protocol/src/offer.rs:172 | projecting scanned entries to their offers (`(_, offer)`) yields one offer per key, in the keys' order, each the one stored under its key |
| OfferRegistry.RangeKeys | packages/protocol/src/offer.rs:186-191 | the ascending scan with `Bound::Exclusive(last_value)` lists, strictly ascending, exactly the stored keys strictly above the cursor in byte order, so the cursor key itself is never included |
| OfferRegistry.AllKeys | packages/protocol/src/offer.rs:170-171 | the unbounded ascending scan lists, strictly ascending, exactly the stored keys |
| OfferRegistry.Take | packages/protocol/src/offer.rs:192 | `take(limit)` yields a prefix of the scan of length exactly `limit` when the scan is long enough, and the whole scan otherwise |
| OfferRegistry.ScanWindow | packages/protocol/src/offer.rs:186-192 | the raw entries one page reads are a prefix of the exclusive-cursor scan of length exactly min(`limit`, keys above the cursor) |
| OfferRegistry.FilterCurrency | packages/protocol/src/offer.rs:194 | keeps exactly the offers in the currency, never more than given, and keeps an ascending id order |
| OfferRegistry.QueryAllOffers | packages/protocol/src/offer.rs:166-177 | returns exactly the stored offers in the currency, in strictly ascending id order in a well-formed store |
| Pagination.QueryAllIdentity | packages/protocol/src/offer.rs:166-177 | the full query is the currency filter of the ascending listing of all stored offers |
| OfferRegistry.FetchPage | packages/protocol/src/offer.rs:179-198 | at most `limit` offers, all stored and in the currency; in a well-formed store ascending by id and all keyed strictly above the cursor |
| Pagination.PageIdentity | packages/protocol/src/offer.rs:179-198 | a page equals filter(currency, take(limit, ascending listing of the offers above the cursor)) |
| Pagination.QueryAllIsUnboundedPage | packages/protocol/src/offer.rs:166-198 | the full query is the page with the empty cursor and a limit of at least the store's size |
| Pagination.RangeAfter | packages/protocol/src/offer.rs:186-191 | a scan resumed from any key it produced yields exactly the rest of that scan |
| Pagination.PageChaining | packages/protocol/src/offer.rs:186-192 | with the second cursor at the last raw entry the first page read, the two pages concatenated equal one page of the combined limit |
| Pagination.ChainedPagesDisjoint | packages/protocol/src/offer.rs:186-192 | across such chained pages no offer repeats: every id of the second page exceeds every id of the first |
| Pagination.ResumeAfterReturnedOffer | packages/protocol/src/offer.rs:186-194 | resuming from the key of the last offer a page returned also never repeats an offer |
| Pagination.UniformCurrencyPagesAreFull | packages/protocol/src/offer.rs:192-194 | when every offer above the cursor is in the currency, a page holds as many offers as its raw window, that is min(`limit`, keys above the cursor) |
| Pagination.WindowWithoutMatchGivesEmptyPage | packages/protocol/src/offer.rs:192-194 | a raw window without a match gives an empty page, whatever lies beyond it |
| Scenarios.ShortPageScenario | packages/protocol/src/offer.rs:179-198 | five offers with only the fifth in the currency: the page of limit 3 from the empty cursor is empty, yet the full query returns the fifth |
| Scenarios.ConsecutivePagesScenario | packages/protocol/src/offer.rs:179-198 | ten offers all in the currency: limit 3 from the empty cursor gives the first three, and from the third's key the next three |
| Guards.AssertOwnership | packages/protocol/src/guards.rs:4-10 | succeeds iff caller equals owner; otherwise Unauthorized with owner and caller each in its own field, not swapped |
| Guards.AssertMinGMax | packages/protocol/src/guards.rs:12-20 | succeeds iff min < max; otherwise the generic validation error |
| Guards.EqualBoundsRejected | packages/protocol/src/guards.rs:13-16 | equal bounds are rejected with the generic validation error |

## Left out

- Storage and codec failures are not modelled. Five operations discard the result of their write: `create` (offer.rs:110), `save` (:115), `activate` (:131), `pause` (:145) and `update` (:160), so in the source `activate` and `pause` return `Ok` even when the write fails. Both scans drop items that fail to decode (:172, :193). Every write and every decode is taken to succeed.
- Wire formats are left out: the serde/JSON-schema derives, the `ExecuteMsg`/`QueryMsg` envelopes and `Display` for `OfferType`. They concern encoding and formatting, not registry behaviour.
- `TradeInfo` and the trade state (offer.rs:201-205) belong to the separate trade entity.
- contracts/trade/src/state.rs is not part of this model. It is a singleton wrapper over the host storage with no logic of its own.
- The `Config` and `State` records are modelled as data only. No registry operation reads or writes them. `CONFIG_KEY` and the offers namespace prefix are not modelled: the store is the offers map itself.
- `Addr` validation is not modelled; addresses are strings compared for equality. `FiatCurrency` is an opaque code compared for equality, because the currencies module is not part of this model.
- `Uint128` is a bounded integer type. The `u64 → Uint128` widening in `update` is the identity.
- The `&mut dyn Storage` borrow held by `OfferModel` is replaced by passing the store in and returning the new one.
- OfferRegistry.FetchById: the source unwraps the lookup and panics on an absent id, or on a storage error. The model makes presence a precondition instead of modelling the panic.
- OfferRegistry.MayLoad: it loads through `fetch` (offer.rs:121), so it panics on an absent id in the same way; the model carries the same presence precondition.
- Guards.AssertMinGMax: the error's message text, "Min amount must be greater than Max amount.", is kept verbatim, although it describes the inverse of the check performed.
