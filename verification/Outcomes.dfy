/** The error values of the proof-of-work crate and its `Result` type. */
module Outcomes {

  datatype Result<+T, +E> = Ok(value: T) | Err(error: E)

  datatype Option<+T> = None | Some(value: T)

  datatype PoWError =
    | InvalidDifficulty
    | InvalidWorkProof
    | WorkProofVerificationFailed
    | InvalidBlock(fault: BlockFault)

  datatype BlockFault =
    | ChainNotFound
    | ChainAlreadyInitialized
    | BadChainId
    | BadHeight
    | NonceMismatch
    | ChainIdMismatch
    | HeightMismatch
    | IncreaseTooLarge
    | DecreaseTooLarge
}
