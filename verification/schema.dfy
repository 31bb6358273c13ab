/** The schema of a cache and its checks: validate_schema of src/core/fce_schema.c. */
module Schemas {
  import opened Bytes
  import opened Codecs

  datatype Backend = SortedBackend | RadixBackend | DirectBackend | MphBackend | LogBackend
  datatype Lookup = ExactLookup | PrefixLookup | RangeLookup
  datatype KeyKind = ByteKeys | U64Keys | U128Keys | IntTupleKeys | SequenceKeys
  datatype ValueKind = ByteValues | FixedRecords | VarRecords

  /** The fields that steer storage; a fixed size of 0 means any size. */
  datatype Schema = Schema(backend: Backend, lookup: Lookup, keyKind: KeyKind, valueKind: ValueKind,
                           keyCodec: Codec, valueCodec: Codec, fixedKeySize: u32, fixedValueSize: u32,
                           allowSparse: bool, allowDuplicatePut: bool)

  /** The checks in their order; the kinds themselves are in range by type. */
  function ValidateSchema(s: Schema): Result<()> {
    if s.valueKind == FixedRecords && s.fixedValueSize == 0 then Err(InvalidArgument)
    else if s.fixedKeySize != 0 && s.keyKind == U64Keys && s.fixedKeySize != 8 then Err(InvalidArgument)
    else if s.fixedKeySize != 0 && s.keyKind == U128Keys && s.fixedKeySize != 16 then Err(InvalidArgument)
    else if s.backend == DirectBackend && s.keyKind != U64Keys then Err(InvalidArgument)
    else if s.backend == DirectBackend && !PassThrough(s.keyCodec) then Err(InvalidArgument)
    else if (s.lookup == PrefixLookup || s.backend == RadixBackend)
      && !PassThrough(s.keyCodec) then Err(InvalidArgument)
    else if s.lookup == RangeLookup && !PassThrough(s.keyCodec) then Err(InvalidArgument)
    else Ok(())
  }

  predicate SchemaOk(s: Schema) {
    ValidateSchema(s).Ok?
  }

  /** Which schemas a builder or a reader accepts. Eight bytes is the one fixed size of a 64-bit key and sixteen
      that of a 128-bit key, fixed records name their size, and what looks into the key bytes stores them as
      they are. */
  lemma {:induction false} SchemaOkIff(s: Schema)
    ensures SchemaOk(s) <==>
            && (s.keyKind == U64Keys ==> s.fixedKeySize in {0, 8})
            && (s.keyKind == U128Keys ==> s.fixedKeySize in {0, 16})
            && (s.valueKind == FixedRecords ==> s.fixedValueSize >= 1)
            && (s.backend == DirectBackend ==> s.keyKind == U64Keys)
            && (s.backend in {DirectBackend, RadixBackend} || s.lookup in {PrefixLookup, RangeLookup} ==>
              s.keyCodec in {Plain, UserBytes})
    ensures !SchemaOk(s) ==> ValidateSchema(s) == Err(InvalidArgument)
  {
  }

  /** Prefix and range semantics and slot addressing always see canonical key bytes. */
  lemma {:induction false} CanonicalKeys(s: Schema)
    requires SchemaOk(s)
    requires s.backend == DirectBackend || s.backend == RadixBackend || s.lookup != ExactLookup
    ensures PassThrough(s.keyCodec)
  {
  }
}
