/** The values every component shares: machine integers, nodes and error types. */
module Domain {

  const U64_MAX: int := 0xFFFF_FFFF_FFFF_FFFF
  const I64_MAX: int := 0x7FFF_FFFF_FFFF_FFFF
  const I32_MAX: int := 0x7FFF_FFFF
  const U32_MAX: int := 0xFFFF_FFFF

  type U64 = x: int | 0 <= x < 0x1_0000_0000_0000_0000
  type I64 = x: int | -0x8000_0000_0000_0000 <= x < 0x8000_0000_0000_0000
  type I32 = x: int | -0x8000_0000 <= x < 0x8000_0000
  type U32 = x: int | 0 <= x < 0x1_0000_0000

  datatype Option<+T> = None | Some(value: T)

  datatype Result<+T, +E> = Ok(value: T) | Err(error: E)

  /** A Lightning node with raw values. `firstSeen` is a UTC instant in whole unix seconds. */
  datatype Node = Node(publicKey: string, alias: string, capacitySats: U64, firstSeen: int)

  /** The driver errors the service tells apart; every other one is `Other`. */
  datatype SqlxError =
    | Configuration
    | Io
    | PoolTimedOut
    | PoolClosed
    | ConstraintViolation(constraint: string)
    | Other(detail: string)

  datatype MigrateError = Execute(cause: SqlxError) | Inconsistent(detail: string)

  datatype StorageError =
    | Database(sqlx: SqlxError)
    | Migration(migrate: MigrateError)
    | OutOfRange(field: string, text: string)

  datatype SourceError = Request | Status(code: nat) | Decode

  datatype ImportError =
    | FromSource(source: SourceError)
    | FromStorage(storage: StorageError)
    | EmptySource
    | Panicked
}
