/**
 * The entities of the wallet system: wallets, ledger entries (the source's
 * `Transaction`), the requests and responses of the ledger operations, and
 * the errors they raise.
 *
 * Representation choices:
 * - decimal(18, 2) amounts and balances are integer cents;
 * - a UUID is its canonical text, so rendering a UUID is the identity;
 * - an `Instant` is a count of microseconds since 1970-01-01T00:00Z and a
 *   `LocalDate` is a count of days since 1970-01-01 (all dates are read in UTC).
 */
module Models {
  import opened Wrappers

  type Uuid = string
  type Cents = int
  type Instant = int
  type Day = int

  const MicrosPerDay: int := 86_400_000_000

  /** `date.atStartOfDay().toInstant(ZoneOffset.UTC)` */
  function StartOfDay(date: Day): Instant {
    date * MicrosPerDay
  }

  datatype Currency = USD | SGD | TWD {
    /** The enum constant's name, as `toString()` renders it. */
    function Name(): string {
      match this
      case USD => "USD"
      case SGD => "SGD"
      case TWD => "TWD"
    }
  }

  datatype TransactionType = TopUp | Payment | TransferOut | TransferIn {
    function Name(): string {
      match this
      case TopUp => "TOP_UP"
      case Payment => "PAYMENT"
      case TransferOut => "TRANSFER_OUT"
      case TransferIn => "TRANSFER_IN"
    }
  }

  datatype TransactionStatus = Pending | Completed | Failed | Cancelled {
    function Name(): string {
      match this
      case Pending => "PENDING"
      case Completed => "COMPLETED"
      case Failed => "FAILED"
      case Cancelled => "CANCELLED"
    }
  }

  /** A row of the wallets table. */
  datatype Wallet = Wallet(id: Uuid, userId: Uuid, currency: Currency, balance: Cents, updatedAt: Instant)

  /** A row of the transactions table; `kind` is the source's `type` column. */
  datatype Transaction = Transaction(
    id: Uuid,
    walletId: Uuid,
    kind: TransactionType,
    amount: Cents,
    referenceId: Option<string>,
    status: TransactionStatus,
    targetWalletId: Option<Uuid>,
    idempotencyKey: Option<string>,
    createdAt: Instant)

  datatype TopUpRequest = TopUpRequest(walletId: Uuid, amount: Cents, referenceId: Option<string>, idempotencyKey: string)

  datatype PaymentRequest = PaymentRequest(walletId: Uuid, amount: Cents, referenceId: Option<string>, idempotencyKey: string)

  datatype TransferRequest = TransferRequest(
    fromWalletId: Uuid,
    toWalletId: Uuid,
    amount: Cents,
    referenceId: Option<string>,
    idempotencyKey: string)

  datatype TransactionResponse = TransactionResponse(transactionId: Uuid, status: TransactionStatus, message: string)

  datatype WalletBalanceResponse = WalletBalanceResponse(walletId: Uuid, currency: Currency, balance: Cents)

  /** The `IllegalArgumentException`s the services throw, one constructor per message. */
  datatype Error =
    | WalletNotFound          // "Wallet not found"
    | SourceWalletNotFound    // "Source wallet not found"
    | TargetWalletNotFound    // "Target wallet not found"
    | CurrencyMismatch        // "Cannot transfer between different currencies"
    | AmountNotPositive       // "Amount must be positive"
    | InsufficientBalance     // "Insufficient balance"
    | DuplicateIdempotencyKey // the unique index on idempotency_key rejects an insert
    | ValueTooLong            // the database rejects text longer than its varchar column
    | UserNotFound            // "User not found"
    | WalletAlreadyExists     // "Wallet already exists for user ... with currency ..."

  /** The width of the varchar columns `reference_id` and `idempotency_key`. */
  const VarcharWidth: nat := 100

  /** Whether `s` fits a varchar(100) column. */
  predicate Fits(s: string) {
    |s| <= VarcharWidth
  }

  /** Whether a nullable text fits a varchar(100) column; null always does. */
  predicate FitsOpt(s: Option<string>) {
    s.None? || Fits(s.value)
  }

  /** The message of a replayed request. */
  const AlreadyProcessed: string := "Transaction already processed"
}
