/** Lookups on an open reader: fce_reader_get of src/api/fce_reader_api.c. */
module ReaderGet {
  import opened Bytes
  import opened Records
  import opened Format
  import opened SortedIndex
  import opened RadixFlat
  import opened DirectTable
  import opened Mph
  import opened Codecs
  import opened Log
  import opened LogIndex
  import opened Schemas
  import opened Validation
  import opened Reader

  /** The open reader serves exactly these encoded records. */
  ghost predicate Serves(r: OpenReader, recs: seq<Pair>, hash: Hasher, sh: SlotHasher, sum: Checksum) {
    if r.cache.manifest.schema.backend == LogBackend then
      var c := r.cache;
      && ParseLog(c.log, c.manifest.count, sum).Ok?
      && var locs := ParseLog(c.log, c.manifest.count, sum).value;
      Laid(locs, c.log, c.log, recs) && Indexes(r.logIndex, c.log, locs, hash)
    else
      Image(r.cache.manifest.schema.backend, IndexPart(r.cache), recs, hash, sh)
  }

  /** A lookup of canonical bytes, for any backend. */
  ghost function CanonicalAnswer(b: Backend, recs: seq<Pair>, key: Bytes): Result<Bytes> {
    if b == DirectBackend && |key| != 8 then Err(InvalidArgument) else Answer(LastPut(recs, key))
  }

  /** fce_reader_get_canonical. On any reader that opened every access stays in bounds; on the files of
      a frozen cache the five searches give one answer. */
  method GetCanonical(r: OpenReader, key: Bytes, hash: Hasher, sh: SlotHasher, ghost sum: Checksum,
                      ghost recs: seq<Pair>)
    returns (v: Result<Bytes>)
    requires Ready(r, hash, sum)
    ensures Serves(r, recs, hash, sh, sum) ==> v == CanonicalAnswer(r.cache.manifest.schema.backend, recs, key)
    ensures r.cache.manifest.schema.backend == DirectBackend && |key| != 8 ==> v == Err(InvalidArgument)
  {
    var c := r.cache;
    match c.manifest.schema.backend {
      case SortedBackend =>
        v := GetSorted(c.index, c.keys, c.values, hash, key);
        if Serves(r, recs, hash, sh, sum) { SortedLookupIsLastPut(IndexPart(c), recs, hash, key); }
      case RadixBackend =>
        v := GetRadix(RadixSections(c.index), c.keys, c.values, key);
        if Serves(r, recs, hash, sh, sum) { RadixLookupIsLastPut(IndexPart(c), recs, key); }
      case DirectBackend =>
        if |key| != 8 {
          return Err(InvalidArgument);
        }
        v := DirectLookup(DirectSlots(c.index), c.values, KeyNumber(key));
        if Serves(r, recs, hash, sh, sum) { DirectLookupIsLastPut(IndexPart(c), recs, key); }
      case MphBackend =>
        v := MphLookup(MphSections(c.index), c.keys, c.values, hash, sh, key);
        if Serves(r, recs, hash, sh, sum) { MphLookupIsLastPut(IndexPart(c), recs, hash, sh, key); }
      case LogBackend =>
        v := GetLog(r.logIndex, c.log, hash, key);
        if Serves(r, recs, hash, sh, sum) {
          LogLookupIsLastPut(r.logIndex, c.log, ParseLog(c.log, c.manifest.count, sum).value, recs, hash, key);
        }
    }
  }

  // ---- Through the codecs ----

  function QueryKey(kc: Codec, key: Bytes): Result<Bytes> {
    if PassThrough(kc) then Ok(key) else Encode(kc, key)
  }

  function ReadValue(vc: Codec, v: Bytes): Result<Bytes> {
    if PassThrough(vc) then Ok(v) else Decode(vc, v)
  }

  ghost function GetAnswer(m: Manifest, recs: seq<Pair>, key: Bytes): Result<Bytes> {
    match QueryKey(m.schema.keyCodec, key)
    case Err(status) => Err(status)
    case Ok(k) =>
      match CanonicalAnswer(m.schema.backend, recs, k)
      case Err(status) => Err(status)
      case Ok(v) => ReadValue(m.schema.valueCodec, v)
  }

  method FceReaderGet(r: OpenReader, key: Bytes, hash: Hasher, sh: SlotHasher, ghost sum: Checksum,
                      ghost recs: seq<Pair>)
    returns (v: Result<Bytes>)
    requires Ready(r, hash, sum)
    ensures Serves(r, recs, hash, sh, sum) ==> v == GetAnswer(r.cache.manifest, recs, key)
    ensures r.cache.manifest.schema.backend == DirectBackend && |key| != 8 ==> v == Err(InvalidArgument)
  {
    if r.cache.manifest.schema.backend == DirectBackend { CanonicalKeys(r.cache.manifest.schema); }
    var m := r.cache.manifest;
    var canonical := Ok(key);
    if !PassThrough(m.schema.keyCodec) {
      canonical := FceCodecEncode(m.schema.keyCodec, key);
      if canonical.Err? {
        return canonical;
      }
    }
    v := GetCanonical(r, canonical.value, hash, sh, sum, recs);
    if v.Err? || PassThrough(m.schema.valueCodec) {
      return;
    }
    v := FceCodecDecode(m.schema.valueCodec, v.value);
  }

  /** Every put went through the codecs on its way into the cache. */
  ghost predicate EncodedPuts(kc: Codec, vc: Codec, puts: seq<Pair>, encoded: seq<Pair>) {
    && |encoded| == |puts|
    && forall i :: 0 <= i < |puts| ==> EncodePair(kc, vc, puts[i].key, puts[i].value) == Ok(encoded[i])
  }

  /** Encoded keys are equal only when the keys are, so the newest encoded put is the encoded newest put. */
  lemma {:induction false} LastPutEncoded(kc: Codec, vc: Codec, puts: seq<Pair>, encoded: seq<Pair>, key: Bytes,
                                          k: Bytes)
    requires EncodedPuts(kc, vc, puts, encoded) && Encode(kc, key) == Ok(k)
    ensures LastPut(puts, key) == None ==> LastPut(encoded, k) == None
    ensures LastPut(puts, key).Some? ==>
              Encode(vc, LastPut(puts, key).value).Ok?
                && LastPut(encoded, k) == Some(Encode(vc, LastPut(puts, key).value).value)
  {
    hide Encode;
    if puts != [] {
      var n := |puts| - 1;
      SameKeyEncoded(kc, vc, puts[n], encoded[n], key, k);
      if puts[n].key != key {
        LastPutEncoded(kc, vc, puts[..n], encoded[..n], key, k);
      }
    }
  }

  lemma {:induction false} SameKeyEncoded(kc: Codec, vc: Codec, put: Pair, encoded: Pair, key: Bytes, k: Bytes)
    requires EncodePair(kc, vc, put.key, put.value) == Ok(encoded) && Encode(kc, key) == Ok(k)
    ensures encoded.key == k <==> put.key == key
    ensures Encode(vc, put.value) == Ok(encoded.value)
  {
    if encoded.key == k {
      EncodeInjective(kc, put.key, key);
    }
  }

  lemma {:induction false} UnencodableNeverPut(kc: Codec, vc: Codec, puts: seq<Pair>, encoded: seq<Pair>, key: Bytes)
    requires EncodedPuts(kc, vc, puts, encoded) && Encode(kc, key).Err?
    ensures LastPut(puts, key) == None
  {
    if puts != [] {
      var n := |puts| - 1;
      assert EncodePair(kc, vc, puts[n].key, puts[n].value) == Ok(encoded[n]);
      UnencodableNeverPut(kc, vc, puts[..n], encoded[..n], key);
    }
  }

  /** Storage and comparison only ever see encoded bytes, yet a lookup answers in the caller's terms:
      a key never put is not found (or refused by its own codec), and a key that was put yields the
      original bytes of its last put exactly when those bytes survive their codec. */
  lemma {:induction false} GetThroughCodecs(m: Manifest, puts: seq<Pair>, encoded: seq<Pair>, recs: seq<Pair>,
                                            key: Bytes)
    requires EncodedPuts(m.schema.keyCodec, m.schema.valueCodec, puts, encoded) && SameMap(recs, encoded)
    requires m.schema.backend == DirectBackend ==> PassThrough(m.schema.keyCodec) && |key| == 8
    ensures LastPut(puts, key) == None ==>
              GetAnswer(m, recs, key) ==
                (match QueryKey(m.schema.keyCodec, key) case Err(status) => Err(status) case Ok(_) => Err(NotFound))
    ensures LastPut(puts, key).Some? ==>
              (GetAnswer(m, recs, key) == Ok(LastPut(puts, key).value) <==>
                Recoverable(m.schema.valueCodec, LastPut(puts, key).value))
  {
    var kc, vc := m.schema.keyCodec, m.schema.valueCodec;
    if Encode(kc, key).Ok? {
      var k := Encode(kc, key).value;
      LastPutEncoded(kc, vc, puts, encoded, key, k);
      if LastPut(puts, key).Some? {
        RoundTrip(vc, LastPut(puts, key).value);
      }
    } else {
      UnencodableNeverPut(kc, vc, puts, encoded, key);
      if PassThrough(kc) {
        OversizedNeverPut(kc, vc, puts, encoded, key);
      }
    }
  }

  lemma {:induction false} OversizedNeverPut(kc: Codec, vc: Codec, puts: seq<Pair>, encoded: seq<Pair>, key: Bytes)
    requires EncodedPuts(kc, vc, puts, encoded) && PassThrough(kc) && Encode(kc, key).Err?
    ensures LastPut(encoded, key) == None
  {
    if puts != [] {
      var n := |puts| - 1;
      assert EncodePair(kc, vc, puts[n].key, puts[n].value) == Ok(encoded[n]);
      OversizedNeverPut(kc, vc, puts[..n], encoded[..n], key);
    }
  }

  /** All backends agree: two caches over the same last-put map answer every key alike, whatever the
      hash functions (8-byte keys when a direct table takes part). */
  lemma {:induction false} BackendsAgree(m: Manifest, n: Manifest, a: seq<Pair>, b: seq<Pair>, key: Bytes)
    requires SameMap(a, b) && m.schema.keyCodec == n.schema.keyCodec && m.schema.valueCodec == n.schema.valueCodec
    requires m.schema.backend == DirectBackend || n.schema.backend == DirectBackend ==>
      PassThrough(m.schema.keyCodec) && |key| == 8
    ensures GetAnswer(m, a, key) == GetAnswer(n, b, key)
  {
  }
}
