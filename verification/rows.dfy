/**
 * Row shapes of the two database tables the core reads and writes
 * (`venue_import_items` and `venue_images`). Timestamps are modelled as
 * integers: the database orders `created_at` values, the core never looks
 * inside them.
 */
module Rows {
  import opened Wrappers

  /** A row of `venue_import_items`: one venue name of one CSV import. */
  datatype ImportItem = ImportItem(
    id: string,
    importId: string,
    venueName: string,
    status: string,
    errorMessage: Option<string>,
    searchId: Option<string>,
    searchType: string,
    createdAt: int)

  /** A row of `venue_images`: one stored image of one venue search. */
  datatype ImageRow = ImageRow(
    id: string,
    searchId: Option<string>,
    imageUrl: string,
    venueName: string,
    altText: string,
    createdAt: int)
}
