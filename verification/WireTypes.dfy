/** Bytes, results and failure codes shared by the wire modules. */
module WireTypes {

  type Byte = b: int | 0 <= b < 256

  type Bytes = seq<Byte>

  datatype Option<+T> = None | Some(value: T)

  /** Every way the wire code refuses its input. The last four are raised by Python
      or its libraries: a number that does not fit its `struct` field, a request payload that
      is not a mapping, and a value or payload the MessagePack library refuses. */
  datatype Failure =
    | MsgpackDepth
    | MsgpackContainerLimit
    | MsgpackMalformed
    | MsgpackTrailing
    | InlineResourceOversized
    | FrameTruncated
    | FrameOversized
    | MagicInvalid
    | VersionMismatch
    | FlagsInvalid
    | RequestIdInvalid
    | OpcodeUnknown
    | PayloadLengthMismatch
    | PayloadOversized
    | CodecMismatch
    | SchemaMismatch
    | LimitMismatch
    | ManagementChannelRequired
    | FeatureMissing
    | AlreadyInitialized
    | NotInitialized
    | ResourceHandlerMissing
    | RequestIdDuplicate
    | PendingExhausted
    | StructRange
    | PayloadNotMapping
    | PackFailed
    | UnpackFailed

  datatype Result<+T> = Ok(value: T) | Err(error: Failure)

  /** `data` holds exactly `part` from `offset` on. */
  predicate At(data: Bytes, offset: nat, part: Bytes) {
    offset + |part| <= |data| && data[offset..offset + |part|] == part
  }

  lemma AtSplit(data: Bytes, offset: nat, left: Bytes, right: Bytes)
    requires At(data, offset, left + right)
    ensures At(data, offset, left) && At(data, offset + |left|, right)
  {
    var whole := data[offset..offset + |left + right|];
    assert whole[..|left|] == left && whole[|left|..] == right;
    assert data[offset..offset + |left|] == whole[..|left|];
    assert data[offset + |left|..offset + |left| + |right|] == whole[|left|..];
  }
}
