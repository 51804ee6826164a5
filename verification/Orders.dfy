/** Orders, sides and price priority, as every other part of the matching engine sees them. */
module Orders {

  // 60 bits, not 64: the source spells the constant with fifteen hexadecimal digits.
  const ORDER_INT_MAX: nat := 0xfff_ffff_ffff_ffff
  const TWO64: nat := 0x1_0000_0000_0000_0000

  // Unsigned 64-bit addition and subtraction of machine words, which wrap around.
  function Add64(x: nat, y: nat): nat { (x + y) % TWO64 }

  function Sub64(x: nat, y: nat): nat { if y <= x then x - y else (x - y) % TWO64 }

  function Min(x: nat, y: nat): nat { if x <= y then x else y }

  function Max(x: nat, y: nat): nat { if x >= y then x else y }

  datatype Side = Buy | Sell

  datatype OrderType = Market | Limit | Stop | StopLimit

  datatype TimeInForce = GTC | IOC | FOK | AON

  datatype ErrorCode = OK | SymbolDuplicate | SymbolNotFound | OrderBookDuplicate | OrderBookNotFound
                     | OrderDuplicate | OrderNotFound
                     | OrderIdInvalid | OrderTypeInvalid | OrderParameterInvalid | OrderQuantityInvalid

  /** An order. `leaves` is what is still to be filled, `executed` what already was. */
  datatype Order = Order(id: nat, symbol: nat, typ: OrderType, side: Side, price: nat, stopPrice: nat,
                         quantity: nat, executed: nat, leaves: nat,
                         tif: TimeInForce, maxVisible: nat, slippage: nat,
                         trailingDistance: int, trailingStep: int)
  {
    function Hidden(): nat { if leaves > maxVisible then leaves - maxVisible else 0 }

    function Visible(): nat { Min(leaves, maxVisible) }

    predicate IsAON() { tif == AON }

    // A 'Fill-Or-Kill' or 'All-Or-None' order takes everything it asks for or nothing.
    predicate IsWhole() { tif == FOK || tif == AON }

    // The part of the order left after matching is added to the book.
    predicate Rests() { leaves > 0 && tif != IOC && tif != FOK }

    function Validate(): ErrorCode {
      if id == 0 then OrderIdInvalid
      else if quantity < leaves then OrderQuantityInvalid
      else if leaves == 0 then OrderQuantityInvalid
      else if typ == Market && (!(tif == IOC || tif == FOK) || maxVisible < ORDER_INT_MAX) then OrderParameterInvalid
      else if typ == Limit && slippage < ORDER_INT_MAX then OrderParameterInvalid
      else if typ == Stop && (tif == AON || maxVisible < ORDER_INT_MAX) then OrderParameterInvalid
      else if typ == StopLimit && slippage < ORDER_INT_MAX then OrderParameterInvalid
      else OK
    }
  }

  /** The orders that are accepted: with an id and something to fill within their quantity; and immediate market
      orders, which show all of it, limit orders without slippage, stop orders that are not 'All-Or-None' and
      show all of it, stop-limit orders without slippage. */
  lemma ValidIff(o: Order)
    ensures o.Validate() == OK <==>
              o.id > 0 && 0 < o.leaves <= o.quantity &&
              match o.typ
              case Market => o.tif in {IOC, FOK} && o.maxVisible >= ORDER_INT_MAX
              case Stop => o.tif != AON && o.maxVisible >= ORDER_INT_MAX
              case _ => o.slippage >= ORDER_INT_MAX
    ensures o.Validate() == OrderIdInvalid <==> o.id == 0
    ensures o.Validate() == OrderQuantityInvalid <==> o.id > 0 && (o.leaves == 0 || o.quantity < o.leaves)
  {
  }

  /** What is left to fill is what is shown, up to the largest visible quantity, and what is hidden. */
  lemma ShownOrHidden(o: Order)
    ensures o.Visible() + o.Hidden() == o.leaves && o.Visible() <= o.maxVisible
    ensures o.Hidden() > 0 ==> o.Visible() == o.maxVisible
  {
  }

  /** The four level trees of a book that hold limit, stop and stop-limit orders. */
  datatype Kind = Bids | Asks | BuyStops | SellStops

  function KindOf(o: Order): Kind {
    if o.typ == Limit then (if o.side == Buy then Bids else Asks)
    else (if o.side == Buy then BuyStops else SellStops)
  }

  // The tree an incoming order of the given side is matched against.
  function Opposite(side: Side): Kind { if side == Buy then Asks else Bids }

  // The price that places an order in a tree.
  function Key(k: Kind, o: Order): nat { if k == Bids || k == Asks then o.price else o.stopPrice }

  // Levels of type BID: the higher price comes first. Levels of type ASK: the lower one does.
  predicate IsBidLevel(k: Kind) { k == Bids || k == SellStops }

  predicate Better(k: Kind, p: nat, q: nat) { if IsBidLevel(k) then p > q else p < q }

  // A limit price accepts trading at price p.
  predicate Accepts(side: Side, limit: nat, p: nat) { if side == Buy then limit >= p else limit <= p }

  /** What the market handler is told; of an executed order it sees the price limit as well. */
  datatype Event = Added(id: nat)
                 | Deleted(id: nat)
                 | Executed(id: nat, side: Side, limit: nat, price: nat, quantity: nat)
}
