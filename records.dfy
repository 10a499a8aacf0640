/** The records kept in the app's IndexedDB database `TasbihDB` (schema version 1). */
module Records {

  datatype Option<+T> = None | Some(value: T)

  /** A goal, one row of the `adhkars` table: a named dhikr with a daily target.
      `createdAt` is the creation time in milliseconds since the epoch. */
  datatype Adhkar = Adhkar(id: nat, name: string, text: string, dailyLimit: int, createdAt: int)

  /** One row of the `counts` table: how often goal `adhkarId` was counted on day `date`. */
  datatype CountRow = CountRow(id: nat, adhkarId: nat, date: string, count: int)

  /** An auto-increment table: its rows, in the order they were added, and the
      primary key the next `add` receives. Keys are never reused. */
  datatype Table<T> = Table(rows: seq<T>, nextId: nat)
}
