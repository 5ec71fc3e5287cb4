/**
 * cloudvolume/compression.py: choosing a codec from a method or encoding
 * value, defaulting its level, and the gzip magic-number check in front of
 * the gzip decoder.
 */
module Compression {
  import opened Wrappers
  import opened Ascii
  import opened Codecs

  /** The Python value given as `method` or `encoding`: None, a bool or a str. */
  datatype Method = MNone | MBool(b: bool) | MStr(s: string)

  datatype Error =
    | Unsupported(name: string)  // NotImplementedError, naming the lower-cased value
    | NotAName                   // `.lower()` reached a value that is not a string
    | Malformed                  // gunzip: the payload lacks the gzip magic number
    | CodecFailure               // the gzip or brotli library raised

  datatype Result = Ok(value: Bytes) | Err(error: Error)

  const COMPRESSION_TYPES: seq<Method> :=
    [MNone, MBool(false), MBool(true), MStr(""), MStr("gzip"), MStr("br")]

  /** The lower-cased names the dispatch accepts. */
  const SUPPORTED_NAMES: set<string> := {"", "gzip", "br"}

  /** The values that mean "no compression". */
  const IDENTITY_METHODS: set<Method> := {MNone, MBool(false), MStr("")}

  /** `compress`'s default `method`; its default `compress_level` is None. */
  const DEFAULT_METHOD: Method := MStr("gzip")

  const DEFAULT_GZIP_LEVEL := 9
  const DEFAULT_BROTLI_QUALITY := 5

  const GZIP_MAGIC: Bytes := [GZIP_ID1, GZIP_ID2]

  /** A library call: a raise becomes CodecFailure, which nothing here catches. */
  function Lift(outcome: Option<Bytes>): Result {
    match outcome
    case Some(b) => Ok(b)
    case None => Err(CodecFailure)
  }

  /** Python truthiness of the value. */
  predicate Truthy(m: Method) {
    match m
    case MNone => false
    case MBool(b) => b
    case MStr(s) => s != ""
  }

  /** `(m or '').lower()`; None when `.lower()` is applied to a bool. */
  function NormalisedName(m: Method): (r: Option<string>)
    ensures r.None? <==> m == MBool(true)
    ensures !Truthy(m) ==> r == Some("")
    ensures m.MStr? ==> r == Some(Lower(m.s))
  {
    var v := if Truthy(m) then m else MStr("");
    if v.MStr? then Some(Lower(v.s)) else None
  }

  /** `compress`'s backwards-compatibility step: `method == True` becomes 'gzip'. */
  function TrueShim(m: Method): (r: Method)
    ensures NormalisedName(r).Some?
    ensures m == MBool(true) ==> NormalisedName(r) == Some("gzip")
    ensures m != MBool(true) ==> r == m
  {
    if m == MBool(true) then
      LowerFixesLowerCase("gzip");
      MStr("gzip")
    else
      m
  }

  /** `gzip_compress`: no level means level 9; a given level reaches the library as it is. */
  function GzipCompress(lib: Library, content: Bytes, level: Option<int>): (r: Result)
    ensures level.None? ==> r == Lift(lib.gzipCompress(content, DEFAULT_GZIP_LEVEL))
    ensures level.Some? ==> r == Lift(lib.gzipCompress(content, level.value))
  {
    var compresslevel := if level.None? then DEFAULT_GZIP_LEVEL else level.value;
    Lift(lib.gzipCompress(content, compresslevel))
  }

  /** `brotli_compress`: no quality means quality 5; a given one reaches the library as it is. */
  function BrotliCompress(lib: Library, content: Bytes, quality: Option<int>): (r: Result)
    ensures quality.None? ==> r == Lift(lib.brotliCompress(content, DEFAULT_BROTLI_QUALITY))
    ensures quality.Some? ==> r == Lift(lib.brotliCompress(content, quality.value))
  {
    var q := if quality.None? then DEFAULT_BROTLI_QUALITY else quality.value;
    Lift(lib.brotliCompress(content, q))
  }

  /** `brotli_decompress`: the library's output, or CodecFailure when it raises. */
  function BrotliDecompress(lib: Library, content: Bytes): (r: Result)
    ensures r.Ok? <==> lib.brotliDecompress(content).Some?
    ensures r.Ok? ==> r.value == lib.brotliDecompress(content).value
    ensures r.Err? ==> r.error == CodecFailure
  {
    Lift(lib.brotliDecompress(content))
  }

  /**
   * `gunzip`: a payload whose first two bytes are not ID1, ID2 is rejected
   * before the gzip library is consulted; every other payload goes to it.
   */
  function Gunzip(lib: Library, content: Bytes): (r: Result)
    ensures r == Err(Malformed) <==> !HasGzipMagic(content)
    ensures HasGzipMagic(content) ==> r == Lift(lib.gzipDecompress(content))
  {
    var firstTwoBytes := content[..if |content| < 2 then |content| else 2];
    if firstTwoBytes != GZIP_MAGIC then
      Err(Malformed)
    else
      Lift(lib.gzipDecompress(content))
  }

  /** `compress(content, method, compress_level)`. */
  function Compress(lib: Library, content: Bytes, m: Method, level: Option<int>): (r: Result)
    ensures m in IDENTITY_METHODS ==> r == Ok(content)
    ensures r.Err? ==> r.error == CodecFailure || r.error.Unsupported?
    ensures r.Err? && r.error.Unsupported? <==> m.MStr? && Lower(m.s) !in SUPPORTED_NAMES
    ensures r.Err? && r.error.Unsupported? ==> r.error.name == Lower(m.s)
  {
    match NormalisedName(TrueShim(m))
    case None => assert false; Err(NotAName)
    case Some(name) =>
      if name == "" then Ok(content)
      else if name == "gzip" then GzipCompress(lib, content, level)
      else if name == "br" then BrotliCompress(lib, content, level)
      else Err(Unsupported(name))
  }

  /** `decompress(content, encoding)`; the `filename` label only feeds a print. */
  function Decompress(lib: Library, content: Bytes, encoding: Method): (r: Result)
    ensures encoding in IDENTITY_METHODS ==> r == Ok(content)
    ensures r == Err(NotAName) <==> encoding == MBool(true)
    ensures r.Err? && r.error.Unsupported? <==> encoding.MStr? && Lower(encoding.s) !in SUPPORTED_NAMES
    ensures r.Err? && r.error.Unsupported? ==> r.error.name == Lower(encoding.s)
    ensures r == Err(Malformed) <==>
              encoding.MStr? && Lower(encoding.s) == "gzip" && !HasGzipMagic(content)
    ensures encoding.MStr? && Lower(encoding.s) == "gzip" && HasGzipMagic(content) ==>
              r == Lift(lib.gzipDecompress(content))
    ensures encoding.MStr? && Lower(encoding.s) == "br" ==> r == Lift(lib.brotliDecompress(content))
  {
    match NormalisedName(encoding)
    case None => Err(NotAName)
    case Some(name) =>
      if name == "" then Ok(content)
      else if name == "gzip" then Gunzip(lib, content)
      else if name == "br" then BrotliDecompress(lib, content)
      else Err(Unsupported(name))
  }
}
