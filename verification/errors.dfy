/** Error kinds raised by the FAT16 layout engine, and the failure-compatible
    `Result` and `Option` wrappers the rest of the model returns. Each error
    but `ImageRange` and `OutOfFuel` corresponds to one exception the Python
    code raises (or lets escape). */
module Errors {

  datatype Error =
    | NegativeOffset          // TypeError("negative offset") in Data._check_access
    | NegativeLength          // TypeError("negative length") in Data._check_access
    | OutOfBounds             // IOError from File._translate / Contiguous._translate
    | ZeroClusterSize         // ZeroDivisionError: `ofs // cluster_size` with a zero cluster size
    | ClusterIndexOutOfRange  // IndexError: `self._clusters[...]` past the end of the chain
    | UnmappedCluster         // TypeError: `fat.data(cluster)` returned None and `None + ofs` failed
    | ImageRange              // the backing image refuses an access outside its extent
    | InvalidChain            // IOError("invalid cluster in chain") in File.__init__
    | OutOfFuel               // the chain walk did not finish within its fuel bound
    | IndexOutOfRange         // IndexError("invalid directory entry index")
    | LfnEntry                // TypeError("can't open an LFN entry")
    | ValueOutOfRange         // struct.error: a value does not fit the packed field
    | NotAscii                // UnicodeDecodeError: `bytes.decode("ascii")` met a byte >= 0x80

  /** The errors a read or write of a region can raise. */
  predicate IsAccessError(e: Error) {
    e in {NegativeOffset, NegativeLength, OutOfBounds, ZeroClusterSize,
          ClusterIndexOutOfRange, UnmappedCluster, ImageRange}
  }

  /** Python's `for e in directory` stops at the first IndexError, whatever raised it. */
  predicate IsIndexError(e: Error) {
    e == IndexOutOfRange || e == ClusterIndexOutOfRange
  }

  datatype Result<+T> = Ok(value: T) | Err(error: Error) {

    predicate IsFailure() {
      Err?
    }

    function PropagateFailure<U>(): Result<U>
      requires Err?
    {
      Err(error)
    }

    function Extract(): T
      requires Ok?
    {
      value
    }
  }

  datatype Option<+T> = None | Some(value: T)
}
