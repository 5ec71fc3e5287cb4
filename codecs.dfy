/**
 * The gzip and brotli libraries that compression.py calls (gzip.GzipFile,
 * brotli.compress, brotli.decompress). Their byte-level algorithms are not
 * modelled: a `Library` is any four functions, where `None` stands for a call
 * that raised. What the round-trip argument needs from them is stated as
 * predicates over a `Library` and taken as preconditions, never as axioms.
 */
module Codecs {
  import opened Wrappers

  newtype byte = x: int | 0 <= x < 256

  type Bytes = seq<byte>

  datatype Library = Library(
    gzipCompress: (Bytes, int) -> Option<Bytes>,    // content, compresslevel
    gzipDecompress: Bytes -> Option<Bytes>,
    brotliCompress: (Bytes, int) -> Option<Bytes>,  // content, quality
    brotliDecompress: Bytes -> Option<Bytes>)

  /** ID1 and ID2 of a gzip member header, section 2.3.1 of RFC 1952. */
  const GZIP_ID1: byte := 0x1f
  const GZIP_ID2: byte := 0x8b

  /** The payload begins with the two gzip identification bytes. */
  predicate HasGzipMagic(content: Bytes) {
    |content| >= 2 && content[0] == GZIP_ID1 && content[1] == GZIP_ID2
  }

  /** Whatever gzip produces, gzip decompresses back to the original content. */
  ghost predicate GzipInverse(lib: Library) {
    forall content, level | lib.gzipCompress(content, level).Some? ::
      lib.gzipDecompress(lib.gzipCompress(content, level).value) == Some(content)
  }

  /** Every gzip stream begins with the RFC 1952 identification bytes. */
  ghost predicate GzipEmitsMagic(lib: Library) {
    forall content, level | lib.gzipCompress(content, level).Some? ::
      HasGzipMagic(lib.gzipCompress(content, level).value)
  }

  /** Whatever brotli produces, brotli decompresses back to the original content. */
  ghost predicate BrotliInverse(lib: Library) {
    forall content, quality | lib.brotliCompress(content, quality).Some? ::
      lib.brotliDecompress(lib.brotliCompress(content, quality).value) == Some(content)
  }

  ghost predicate Lawful(lib: Library) {
    GzipInverse(lib) && GzipEmitsMagic(lib) && BrotliInverse(lib)
  }

  /** The libraries accept any content at the given gzip level and brotli quality. */
  ghost predicate AcceptsLevels(lib: Library, gzipLevel: int, brotliQuality: int) {
    forall content ::
      lib.gzipCompress(content, gzipLevel).Some? && lib.brotliCompress(content, brotliQuality).Some?
  }
}
