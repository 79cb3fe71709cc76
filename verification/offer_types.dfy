/**
  The entities of the offer registry: an offer, the message that updates one,
  the two enumerations it carries, and the errors the registry and its guards
  return.
 */
module OfferTypes {

  /** An unsigned 64-bit integer (Rust `u64`). */
  type Uint64 = x: int | 0 <= x < 0x1_0000_0000_0000_0000

  /** An unsigned 128-bit integer (`Uint128`); only its range matters here. */
  type Uint128 = x: int | 0 <= x < 0x1_0000_0000_0000_0000_0000_0000_0000_0000

  /** An account address, compared only for equality. */
  type Addr = string

  /** A fiat currency code, compared only for equality. */
  type FiatCurrency = string

  datatype OfferType = Buy | Sell

  datatype OfferState = Active | Paused

  datatype Offer = Offer(
    id: Uint64,
    owner: Addr,
    offer_type: OfferType,
    fiat_currency: FiatCurrency,
    min_amount: Uint128,
    max_amount: Uint128,
    state: OfferState
  )

  /** The fields a maker supplies when creating or updating an offer. */
  datatype OfferMsg = OfferMsg(
    offer_type: OfferType,
    fiat_currency: FiatCurrency,
    min_amount: Uint64,
    max_amount: Uint64
  )

  /** The registry's configuration record: the trusted factory address. */
  datatype Config = Config(factory_addr: Addr)

  /** The registry's counter record. */
  datatype State = State(offers_count: Uint64)

  /** The generic standard error of the host library, reduced to its message. */
  datatype StdError = GenericErr(msg: string)

  datatype OfferError =
    | Unauthorized(owner: Addr, caller: Addr)
    | InvalidStateChange(from: OfferState, to: OfferState)
    | Std(std: StdError)

  datatype Result<+T> = Ok(value: T) | Err(error: OfferError)

  /** The bound invariant every offer should carry from creation onward. */
  predicate ValidBounds(o: Offer) {
    o.min_amount < o.max_amount
  }
}
