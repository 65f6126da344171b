/** The two storage backends. */
module Databases {
  datatype Backend = Postgres | Sqlite
}
