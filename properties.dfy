/**
 * What compression.py promises about compress and decompress taken together:
 * the True shim, level defaulting, case-insensitive names, the gzip guard and
 * the round trip under the codec assumptions of module Codecs.
 */
module CompressionProperties {
  import opened Wrappers
  import opened Ascii
  import opened Codecs
  import opened Compression

  /** `compress(content, True, level)` is `compress(content, 'gzip', level)`; `decompress` has no such shim. */
  lemma TrueShimCompressOnly(lib: Library, content: Bytes, level: Option<int>)
    ensures Compress(lib, content, MBool(true), level) == Compress(lib, content, MStr("gzip"), level)
    ensures Decompress(lib, content, MBool(true)) == Err(NotAName)
  {
  }

  /** An explicit level reaches the chosen library unchanged, under the default method too. */
  lemma ExplicitLevelPassesThrough(lib: Library, content: Bytes, level: int)
    ensures Compress(lib, content, DEFAULT_METHOD, Some(level)) == Lift(lib.gzipCompress(content, level))
    ensures Compress(lib, content, MStr("br"), Some(level)) == Lift(lib.brotliCompress(content, level))
  {
  }

  /** No level means gzip level 9 and brotli quality 5. */
  lemma DefaultLevels(lib: Library, content: Bytes)
    ensures Compress(lib, content, MStr("gzip"), None) == Compress(lib, content, MStr("gzip"), Some(9))
    ensures Compress(lib, content, MStr("br"), None) == Compress(lib, content, MStr("br"), Some(5))
  {
  }

  /** Names that differ only in letter case select the same behaviour in both directions. */
  lemma CaseInsensitive(lib: Library, content: Bytes, s: string, t: string, level: Option<int>)
    requires EqualsIgnoringCase(s, t)
    ensures Compress(lib, content, MStr(s), level) == Compress(lib, content, MStr(t), level)
    ensures Decompress(lib, content, MStr(s)) == Decompress(lib, content, MStr(t))
  {
    LowerEqualIff(s, t);
  }

  /** A name and its lower-case form select the same behaviour. */
  lemma LowerCaseNameEquivalent(lib: Library, content: Bytes, s: string, level: Option<int>)
    ensures Compress(lib, content, MStr(s), level) == Compress(lib, content, MStr(Lower(s)), level)
    ensures Decompress(lib, content, MStr(s)) == Decompress(lib, content, MStr(Lower(s)))
  {
    LowerIdempotent(s);
  }

  /**
   * A payload without the gzip magic number is rejected whatever the gzip
   * library would do with it: the library is not consulted.
   */
  lemma GzipGuard(lib1: Library, lib2: Library, content: Bytes, encoding: Method)
    requires NormalisedName(encoding) == Some("gzip")
    requires !HasGzipMagic(content)
    ensures Decompress(lib1, content, encoding) == Err(Malformed)
    ensures Decompress(lib1, content, encoding) == Decompress(lib2, content, encoding)
  {
  }

  /** Corollary of Decompress's contract: empty and one-byte payloads never reach the gzip library. */
  lemma ShortPayloadRejected(lib: Library, content: Bytes)
    requires |content| < 2
    ensures Decompress(lib, content, MStr("gzip")) == Err(Malformed)
  {
  }

  /** Corollary of Decompress's contract: the guard is only a heuristic, any payload starting 0x1f 0x8b goes to the gzip library. */
  lemma MagicPrefixReachesLibrary(lib: Library, content: Bytes)
    requires HasGzipMagic(content)
    ensures Decompress(lib, content, MStr("gzip")) == Lift(lib.gzipDecompress(content))
  {
  }

  /**
   * Round trip: decompressing with the same value that compressed recovers
   * the content, for every value except True.
   */
  lemma RoundTrip(lib: Library, content: Bytes, m: Method, level: Option<int>)
    requires Lawful(lib)
    requires m != MBool(true)
    requires Compress(lib, content, m, level).Ok?
    ensures Decompress(lib, Compress(lib, content, m, level).value, m) == Ok(content)
  {
  }

  /**
   * Round trip through the normalised name `compress` dispatched on (the
   * content-encoding a caller would store): this covers True as well.
   */
  lemma RoundTripByName(lib: Library, content: Bytes, m: Method, level: Option<int>, name: string)
    requires Lawful(lib)
    requires Compress(lib, content, m, level).Ok?
    requires NormalisedName(TrueShim(m)) == Some(name)
    ensures Decompress(lib, Compress(lib, content, m, level).value, MStr(name)) == Ok(content)
  {
    if m.MStr? && Truthy(m) {
      LowerIdempotent(m.s);
    }
  }

  /**
   * Every entry of COMPRESSION_TYPES compresses at the default level, and
   * decompressing with the same entry recovers the content exactly when the
   * entry is not True.
   */
  lemma CompressionTypesBehaviour(lib: Library, content: Bytes, i: nat)
    requires Lawful(lib) && AcceptsLevels(lib, DEFAULT_GZIP_LEVEL, DEFAULT_BROTLI_QUALITY)
    requires i < |COMPRESSION_TYPES|
    ensures Compress(lib, content, COMPRESSION_TYPES[i], None).Ok?
    ensures var z := Compress(lib, content, COMPRESSION_TYPES[i], None).value;
            (Decompress(lib, z, COMPRESSION_TYPES[i]) == Ok(content) <==> COMPRESSION_TYPES[i] != MBool(true))
  {
    var m := COMPRESSION_TYPES[i];
    assert lib.gzipCompress(content, 9).Some? && lib.brotliCompress(content, 5).Some?;
    if m != MBool(true) {
      RoundTrip(lib, content, m, None);
    }
  }
}
