/** The one persisted entity: an application record (crates/db/src/models.rs). */
module Models {

  /** The range of Rust's `i64`, the column type of `created_at`. */
  const I64Min: int := -0x8000_0000_0000_0000
  const I64Max: int := 0x7FFF_FFFF_FFFF_FFFF

  /** Milliseconds since the epoch, as an `i64`. */
  type Millis = t: int | I64Min <= t <= I64Max

  /** A row of the `applications` table: an opaque textual id, the
      validated unique name and the insertion timestamp. */
  datatype Application = Application(id: string, name: string, createdAt: Millis)
}
