/** Failure-aware results for the scan: where the script raises, the model returns an error. */
module Results {

  datatype Option<T> = None | Some(value: T)

  datatype ScanError =
    | NoRows            // polymorphic-site mode compares against the first row, which does not exist
    | EmptyQueryGroup   // no identifier contains the query marker: the consensus is a max over nothing
    | EmptyLineageGroup // a lineage marker selects no row: its match ratio divides by zero
    | NoRegions         // no lineage kept a region: the major parent is a max over nothing

  datatype Result<T> = Ok(value: T) | Err(error: ScanError)
}
