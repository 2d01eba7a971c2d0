/** Option and Result, the two failure-carrying shapes the model uses for
    Python's `None` and for a raised exception. */
module Wrappers {

  datatype Option<+T> = None | Some(value: T)

  datatype Result<+T, +E> = Success(value: T) | Failure(error: E)
  {
    predicate IsFailure() { Failure? }

    function PropagateFailure<U>(): Result<U, E>
      requires Failure?
    {
      Failure(error)
    }

    function Extract(): T
      requires Success?
    {
      value
    }
  }
}

/** The exceptions the modelled code raises, one constructor per kind. */
module Exceptions {

  datatype Error =
    | StructError          // struct.pack / struct.unpack rejected a value or a short buffer
    | Diverges             // the Python loop would never terminate on this input
    | NoSuchId             // ChildAddrList.remove / AddressItems.remove found no match
    | NoAddressRecord      // __remove_addr_child found no record for the directory
    | KeyError             // `del` of a key (or dict entry) that is not there
    | UnknownItemType      // an item record whose type byte is neither IT_FILE nor IT_DIRECTORY
    | BadItemDump          // DirectoryMD / FileMD rejected the dumped metadata
    | MissingItemId        // update / remove of an item whose item_id is None
    | NoFreeIdentificator  // every item id is taken
    | AlreadyExists        // AlreadyExistsException
    | NotFound             // NotFoundException (no item record for an id)
    | NotEmpty             // NotEmptyException
    | NoMetadata           // NoMetadataException
    | PathNotFound         // PathException
    | UnknownBlockSize     // RuntimeError('Unknown data block size!')
    | ReadTimeout          // TimeoutException from __read_buf
    | TransferFailed       // the transactions manager could not take a block
    | BadOperand           // TypeError: arithmetic on a seek that is None
}
