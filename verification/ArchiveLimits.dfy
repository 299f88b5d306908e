/** Extraction limits, the byte budget that enforces them, and the limits given to the TAR meter. */
module ArchiveLimits {
  import opened Basics

  const MAX_TAR_MANIFEST_BYTES := 64 * 1024 * 1024
  const MAX_U32 := 0xffff_ffff

  datatype Limits = Limits(
    maxArchiveBytes: nat, maxEntries: nat, maxExtractedBytes: nat,
    maxEntryBytes: nat, maxMetaEntryBytes: nat, maxEntryPathComponents: nat)

  // ---------------------------------------------------------------- resolveTarMeterLimits

  predicate Safe(n: nat) { n <= MAX_SAFE_INTEGER }

  /** Number arithmetic is exact on safe operands with a safe result; nothing else may be formed. */
  function Times(a: nat, b: nat): nat
    requires Safe(a) && Safe(b) && Safe(a * b)
  {
    a * b
  }

  function Plus(a: nat, b: nat): nat
    requires Safe(a) && Safe(b) && Safe(a + b)
  {
    a + b
  }

  lemma Monotone(a: nat, b: nat, c: nat)
    requires b <= c
    ensures a * b <= a * c
  {
  }

  lemma ProductBound(a: nat, b: nat, limit: nat)
    requires b > 0
    ensures a <= limit / b <==> a * b <= limit
  {
    if a <= limit / b { Monotone(b, a, limit / b); } else { Monotone(b, limit / b + 1, a); }
  }

  datatype MeterLimits = MeterLimits(maxEntries: nat, maxMetaEntryBytes: nat, maxManifestBytes: nat,
                                     maxDecodedBytes: nat)

  function PathBytes(l: Limits): (r: nat)
    ensures 256 <= r <= MAX_TAR_MANIFEST_BYTES
  {
    Max(256, Min(l.maxMetaEntryBytes, Times(Min(Max(1, l.maxEntryPathComponents), MAX_TAR_MANIFEST_BYTES / 256), 256)))
  }

  function MeterOf(l: Limits): MeterLimits {
    var payload := Min(l.maxExtractedBytes, MAX_SAFE_INTEGER);
    var overhead := Min(l.maxArchiveBytes, MAX_SAFE_INTEGER);
    var perEntry := Plus(64, Times(2, PathBytes(l)));
    ProductBound(l.maxEntries, perEntry, MAX_TAR_MANIFEST_BYTES);
    MeterLimits(
      Min(l.maxEntries, MAX_U32),
      Min(l.maxMetaEntryBytes, MAX_SAFE_INTEGER),
      if l.maxEntries > MAX_TAR_MANIFEST_BYTES / perEntry
        then MAX_TAR_MANIFEST_BYTES else Times(l.maxEntries, perEntry),
      if payload > MAX_SAFE_INTEGER - overhead then MAX_SAFE_INTEGER else Plus(payload, overhead))
  }

  /** The saturated computation gives the exact minima over unbounded integers. */
  lemma MeterIsExact(l: Limits)
    ensures MeterOf(l).maxEntries == Min(l.maxEntries, 0xffff_ffff)
    ensures MeterOf(l).maxMetaEntryBytes == Min(l.maxMetaEntryBytes, MAX_SAFE_INTEGER)
    ensures MeterOf(l).maxDecodedBytes == Min(MAX_SAFE_INTEGER, l.maxExtractedBytes + l.maxArchiveBytes)
    ensures MeterOf(l).maxManifestBytes
         == Min(64 * 1024 * 1024,
                l.maxEntries * (64 + 2 * Max(256, Min(l.maxMetaEntryBytes, 256 * Max(1, l.maxEntryPathComponents)))))
  {
    var exact := 64 + 2 * Max(256, Min(l.maxMetaEntryBytes, 256 * Max(1, l.maxEntryPathComponents)));
    var used := 64 + 2 * PathBytes(l);
    ProductBound(l.maxEntries, used, MAX_TAR_MANIFEST_BYTES);
    if exact != used {
      assert used > MAX_TAR_MANIFEST_BYTES && exact > used;
      Monotone(l.maxEntries, used, exact);
      if l.maxEntries > 0 { Monotone(used, 1, l.maxEntries); }
    }
  }

  // ---------------------------------------------------------------- createByteBudgetTracker

  datatype Charge = Charged | EntryTooLarge | TotalTooLarge

  class ByteBudget {
    const limits: Limits
    var entryBytes: nat
    var extractedBytes: nat

    constructor (limits: Limits)
      ensures this.limits == limits && entryBytes == 0 && extractedBytes == 0
    {
      this.limits, entryBytes, extractedBytes := limits, 0, 0;
    }

    method StartEntry()
      modifies this
      ensures entryBytes == 0 && extractedBytes == old(extractedBytes)
    {
      entryBytes := 0;
    }

    /** Once the total is exceeded it stays so: from then on only empty additions pass. */
    method AddBytes(bytes: int) returns (r: Charge)
      modifies this
      ensures extractedBytes >= old(extractedBytes) && entryBytes == old(entryBytes) + if bytes > 0 then bytes else 0
      ensures bytes > 0 ==> (r.EntryTooLarge? <==> old(entryBytes) + bytes > limits.maxEntryBytes)
      ensures bytes > 0 && !r.EntryTooLarge? ==> extractedBytes == old(extractedBytes) + bytes
      ensures bytes > 0 && !r.EntryTooLarge? ==> (r.Charged? <==> extractedBytes <= limits.maxExtractedBytes)
      ensures bytes <= 0 || r.EntryTooLarge? ==> extractedBytes == old(extractedBytes)
      ensures bytes <= 0 ==> r.Charged?
    {
      if bytes <= 0 { return Charged; }
      entryBytes := entryBytes + bytes;
      if entryBytes > limits.maxEntryBytes { return EntryTooLarge; }
      extractedBytes := extractedBytes + bytes;
      if extractedBytes > limits.maxExtractedBytes { return TotalTooLarge; }
      return Charged;
    }

    method AddEntrySize(size: int) returns (r: Charge)
      modifies this
      ensures r.Charged? <==>
                || size <= 0
                || (&& old(entryBytes) + size <= limits.maxEntryBytes
                    && old(extractedBytes) + size <= limits.maxExtractedBytes)
      ensures r.Charged? ==> extractedBytes == old(extractedBytes) + if size > 0 then size else 0
      ensures r.Charged? ==> entryBytes == old(entryBytes) + if size > 0 then size else 0
      ensures extractedBytes >= old(extractedBytes)
    {
      if size > 0 && size > limits.maxEntryBytes { return EntryTooLarge; }
      r := AddBytes(size);
    }
  }
}
