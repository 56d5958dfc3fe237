/** One puzzle input of the batch, as the inputs module builds it.

    That module (`AdvInput::new`, `with_formatted_path`, `path`, `request_url`)
    is not part of this model: the file path, its parent folder and the
    request URL it derives from the year, the day and an optional path
    template are carried here as opaque fields of the value. */
module Inputs {
  import opened Wrappers

  type Path = string

  datatype AdvInput = AdvInput(
    day: int,
    year: int,
    path: Path,           // where the input file is written
    parent: Option<Path>, // `path().parent()`, absent for a path without a parent
    url: string           // `request_url()`
  )
}
