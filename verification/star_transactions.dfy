/**
 * The pure decisions of `GetStarsTransactionsQuery`: which direction flags
 * a request carries, and how each transaction of the answer is classified.
 */
module StarTransactions {
  import opened Wrappers
  import opened Dialogs

  // ---------------------------------------------------------------------
  // Request: direction filter
  // ---------------------------------------------------------------------

  /** Bit 0 (`inbound`) and bit 1 (`outbound`) of `payments.getStarsTransactions` flags. */
  const InboundMask: bv32 := 1
  const OutboundMask: bv32 := 2

  /** The page size every request asks for. */
  const TransactionsLimit: int := 100

  datatype Direction = Incoming | Outgoing

  /** The flags for an optional direction filter, built by or-ing into 0. */
  function DirectionFlags(direction: Option<Direction>): (flags: bv32)
    ensures (flags & InboundMask != 0) <==> direction == Some(Incoming)
    ensures (flags & OutboundMask != 0) <==> direction == Some(Outgoing)
    ensures flags & !(InboundMask | OutboundMask) == 0
  {
    var flags: bv32 := 0;
    match direction
    case None => flags
    case Some(Incoming) => flags | InboundMask
    case Some(Outgoing) => flags | OutboundMask
  }

  /** How a receiver of the request reads the direction filter back from the flags. */
  function DirectionOfFlags(flags: bv32): Option<Direction>
  {
    if flags & InboundMask != 0 then Some(Incoming)
    else if flags & OutboundMask != 0 then Some(Outgoing)
    else None
  }

  datatype TransactionsRequest = TransactionsRequest(flags: bv32, offset: string, limit: int)

  /** `send(offset, direction)`: the request for one page of the caller's own history. */
  function TransactionsQuery(offset: string, direction: Option<Direction>): (q: TransactionsRequest)
    ensures DirectionOfFlags(q.flags) == direction
    ensures q.flags & InboundMask == 0 || q.flags & OutboundMask == 0
    ensures q.offset == offset && q.limit == TransactionsLimit
  {
    TransactionsRequest(DirectionFlags(direction), offset, TransactionsLimit)
  }

  // ---------------------------------------------------------------------
  // Answer: classification of each transaction
  // ---------------------------------------------------------------------

  datatype Photo = Photo(id: int)

  /** The `StarsTransactionPeer` constructors of an incoming transaction. */
  datatype RawPeer =
    | PeerUnsupported
    | PeerPremiumBot
    | PeerAppStore
    | PeerPlayMarket
    | PeerFragment
    | Peer(dialog: DialogId)

  /** An incoming `starsTransaction`; absent optional fields are empty or 0. */
  datatype RawTransaction = RawTransaction(
    id: string, stars: int, refund: bool, pending: bool, failed: bool, date: int,
    peer: RawPeer, title: string, description: string, photo: Option<Photo>,
    transactionDate: int, transactionUrl: string)

  datatype ProductInfo = ProductInfo(title: string, description: string, photo: Option<Photo>)

  datatype WithdrawalState = Completed(date: int, url: string) | Pending | Failed

  /** The client-facing `StarTransactionSource`. */
  datatype Source =
    | SourceUnsupported
    | SourceTelegram
    | SourceAppStore
    | SourceGooglePlay
    | SourceFragment(state: Option<WithdrawalState>)
    | SourceUser(userId: int, productInfo: Option<ProductInfo>)

  datatype StarTransaction = StarTransaction(id: string, stars: int, refund: bool, date: int, source: Source)

  /** Product information exists when any of title, description or photo does. */
  function ProductInfoOf(tx: RawTransaction): (p: Option<ProductInfo>)
    ensures p.Some? <==> |tx.title| > 0 || |tx.description| > 0 || tx.photo.Some?
    ensures p.Some? ==> p.value == ProductInfo(tx.title, tx.description, tx.photo)
  {
    if tx.title != "" || tx.description != "" || tx.photo.Some? then
      Some(ProductInfo(tx.title, tx.description, tx.photo))
    else
      None
  }

  /**
   * The state of a Fragment withdrawal: a positive transaction date means
   * completed, whatever the flags say; then pending; then failed; otherwise
   * no state.
   */
  function FragmentWithdrawalState(tx: RawTransaction): (s: Option<WithdrawalState>)
    ensures s.Some? <==> tx.transactionDate > 0 || tx.pending || tx.failed
    ensures tx.transactionDate > 0 ==> s == Some(Completed(tx.transactionDate, tx.transactionUrl))
    ensures s == Some(Pending) <==> tx.transactionDate <= 0 && tx.pending
    ensures s == Some(Failed) <==> tx.transactionDate <= 0 && !tx.pending && tx.failed
  {
    if tx.transactionDate > 0 then Some(Completed(tx.transactionDate, tx.transactionUrl))
    else if tx.pending then Some(Pending)
    else if tx.failed then Some(Failed)
    else None
  }

  /** Once the date is set, the pending and failed flags no longer matter. */
  lemma CompletedIgnoresFlags(tx: RawTransaction, pending: bool, failed: bool)
    requires tx.transactionDate > 0
    ensures FragmentWithdrawalState(tx.(pending := pending, failed := failed)) == FragmentWithdrawalState(tx)
    ensures FragmentWithdrawalState(tx).value.Completed?
  {
  }

  /** The source of a transaction, by the constructor of its peer. */
  function TransactionSource(tx: RawTransaction): (s: Source)
    ensures s.SourceUser? <==> tx.peer.Peer? && tx.peer.dialog.kind == User
    ensures s.SourceUser? ==> s.userId == tx.peer.dialog.id && s.productInfo == ProductInfoOf(tx)
    ensures s.SourceFragment? <==> tx.peer == PeerFragment
    ensures s.SourceFragment? ==> s.state == FragmentWithdrawalState(tx)
    ensures s.SourceUnsupported? <==> tx.peer == PeerUnsupported || (tx.peer.Peer? && tx.peer.dialog.kind != User)
    ensures s.SourceTelegram? <==> tx.peer == PeerPremiumBot
    ensures s.SourceAppStore? <==> tx.peer == PeerAppStore
    ensures s.SourceGooglePlay? <==> tx.peer == PeerPlayMarket
  {
    match tx.peer
    case PeerUnsupported => SourceUnsupported
    case PeerPremiumBot => SourceTelegram
    case PeerAppStore => SourceAppStore
    case PeerPlayMarket => SourceGooglePlay
    case PeerFragment => SourceFragment(FragmentWithdrawalState(tx))
    case Peer(dialog) =>
      if dialog.kind == User then SourceUser(dialog.id, ProductInfoOf(tx)) else SourceUnsupported
  }

  /**
   * The answer's history, converted in order: each transaction keeps its
   * identifier, amount, refund flag and date, and gets its source.
   */
  function ConvertHistory(history: seq<RawTransaction>): (r: seq<StarTransaction>)
    ensures |r| == |history|
    ensures forall i :: 0 <= i < |history| ==>
      && r[i].id == history[i].id && r[i].stars == history[i].stars
      && r[i].refund == history[i].refund && r[i].date == history[i].date
      && r[i].source == TransactionSource(history[i])
  {
    if |history| == 0 then []
    else
      var tx := history[0];
      [StarTransaction(tx.id, tx.stars, tx.refund, tx.date, TransactionSource(tx))] + ConvertHistory(history[1..])
  }
}
