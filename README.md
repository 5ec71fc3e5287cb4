# cloud-volume codec selection, modelled in Dafny

This project models the codec-selection layer of cloud-volume's
`cloudvolume/compression.py`. `compress(content, method, compress_level)` and
`decompress(content, encoding, filename)` do four things:

- They normalise the method or encoding value. `None`, `False` and `''` mean
  "no compression". In `compress` only, `True` stands for `'gzip'`. Names are
  lower-cased.
- They dispatch to identity, gzip or brotli. Any other name fails as
  unsupported.
- They fill in a default level: 9 for gzip and quality 5 for brotli.
- In `gunzip`, they refuse a payload whose first two bytes are not the gzip
  identification bytes ID1 = 0x1f and ID2 = 0x8b (section 2.3.1 of RFC 1952).
  Such a payload never reaches the gzip library.

The gzip and brotli libraries are not modelled. A `Codecs.Library` is any four
functions, where `None` means the library call raised. The round trip needs
three facts about the libraries: decompress inverts compress for gzip and for
brotli, and gzip output starts with ID1, ID2. The predicate `Codecs.Lawful`
holds these three facts. A separate predicate, `Codecs.AcceptsLevels`, states
that the libraries accept the default levels; only `CompressionTypesBehaviour`
uses it. Both are preconditions of the lemmas that need them and are never
assumed globally.

Files:

- `wrappers.dfy`: `Option`.
- `ascii.dfy`: the lower-casing step and its lemmas.
- `codecs.dfy`: bytes, the abstract libraries, the RFC 1952 magic number and the library assumptions.
- `compression.dfy`: the model of `compression.py`.
- `properties.dfy`: lemmas about how `compress` and `decompress` behave together.

Two places where the code does less than it appears to promise:

- `decompress(x, True)` does not decompress as gzip. The docstring at line 19
  allows only None, 'gzip' or 'br' as an encoding, yet `COMPRESSION_TYPES` at
  line 11 lists `True`. Line 29 evaluates `(True or '').lower()`, which
  raises. The model returns `NotAName`, and `CompressionTypesBehaviour` shows
  that `True` is the only entry of `COMPRESSION_TYPES` that does not
  round-trip.
- The message at line 92 is meant to show the observed bytes next to 0x1f,
  0x8b. But because of a misplaced parenthesis, the `.format` call at lines
  92-93 gets two arguments for four placeholders. It also indexes `first_two_bytes[0]` and
  `[1]` even when the payload is shorter than two bytes. So a mismatch raises
  an indexing or formatting exception rather than `DecompressionError`, and
  the handler at line 36 does not catch it. What is certain is that the
  payload is rejected and the gzip library is not called. The model has
  exactly that, as the generic error `Malformed`.

## Model

| member | source | states |
|---|---|---|
| `Ascii.Lower` | cloudvolume/compression.py:58 | lower-casing keeps the length and leaves no upper-case ASCII letter |
| `Ascii.LowerAt` | cloudvolume/compression.py:29 | lower-casing works character by character |
| `Ascii.LowerIdempotent` | cloudvolume/compression.py:58 | lower-casing an already lower-cased name changes nothing |
| `Ascii.LowerEqualIff` | cloudvolume/compression.py:58 | two names lower-case to the same name exactly when they are equal ignoring case (both directions) |
| `Compression.NormalisedName` | cloudvolume/compression.py:29 | `(x or '').lower()` fails only for `True`; every falsy value becomes `''`; a string becomes its lower-case form |
| `Compression.TrueShim` | cloudvolume/compression.py:55-56 | after the shim the value always has a name; `True` becomes a value named `gzip`; every other value passes unchanged |
| `Compression.GzipCompress` | cloudvolume/compression.py:68-80 | no level means the library is called at level 9; a given level reaches the library unchanged; a library failure is `CodecFailure` |
| `Compression.BrotliCompress` | cloudvolume/compression.py:99-103 | no quality means the library is called at quality 5; a given quality reaches the library unchanged; a library failure is `CodecFailure` |
| `Compression.BrotliDecompress` | cloudvolume/compression.py:105-106 | succeeds exactly when the brotli library does, with the library's output; otherwise `CodecFailure` |
| `Compression.Gunzip` | cloudvolume/compression.py:82-97 | the result is `Malformed` exactly when the payload lacks the bytes 0x1f 0x8b at positions 0 and 1; otherwise it is whatever the gzip library returns |
| `Compression.Compress` | cloudvolume/compression.py:42-66 | `None`, `False` and `''` return the content unchanged; the only errors are a library failure or `Unsupported`; `Unsupported` happens exactly when the lower-cased string is not `''`, `gzip` or `br`, and names that lower-cased string |
| `Compression.Decompress` | cloudvolume/compression.py:13-40 | `None`, `False` and `''` return the content unchanged; `True` fails as not a name, and only `True` does; `Unsupported` happens exactly when the lower-cased string is not `''`, `gzip` or `br`; `Malformed` happens exactly for a gzip encoding on a payload without the magic number; a gzip encoding on a payload with the magic number gives the gzip library's result; a `br` encoding, in any letter case, gives the brotli library's result |
| `CompressionProperties.TrueShimCompressOnly` | cloudvolume/compression.py:55-58 | `compress` with `True` equals `compress` with `'gzip'`, but `decompress` with `True` fails |
| `CompressionProperties.ExplicitLevelPassesThrough` | cloudvolume/compression.py:62-65 | under the default method `'gzip'`, and under `'br'`, an explicit level reaches the library unchanged |
| `CompressionProperties.DefaultLevels` | cloudvolume/compression.py:68-103 | giving no level is the same as giving level 9 to gzip and quality 5 to brotli |
| `CompressionProperties.CaseInsensitive` | cloudvolume/compression.py:58-65 | names equal ignoring case give the same `compress` result and the same `decompress` result |
| `CompressionProperties.LowerCaseNameEquivalent` | cloudvolume/compression.py:28-65 | a name and its lower-case form give the same `compress` and `decompress` results |
| `CompressionProperties.GzipGuard` | cloudvolume/compression.py:89-93 | for a gzip encoding and a payload without the magic number, `decompress` gives `Malformed`, and gives the same result for any two gzip libraries, so the library is never consulted |
| `CompressionProperties.ShortPayloadRejected` | cloudvolume/compression.py:90-93 | corollary of `Decompress`'s contract for the literal `'gzip'`: empty and one-byte payloads are rejected as `Malformed` |
| `CompressionProperties.MagicPrefixReachesLibrary` | cloudvolume/compression.py:83-97 | corollary of `Decompress`'s contract for the literal `'gzip'`: every payload that starts with 0x1f 0x8b is handed to the gzip library (the check is only a heuristic) |
| `CompressionProperties.RoundTrip` | cloudvolume/compression.py:28-66 | under the codec assumptions, decompressing with the value that compressed recovers the content, for every value except `True` |
| `CompressionProperties.RoundTripByName` | cloudvolume/compression.py:55-66 | under the codec assumptions, decompressing with the normalised name that `compress` dispatched on recovers the content, `True` included |
| `CompressionProperties.CompressionTypesBehaviour` | cloudvolume/compression.py:11 | with lawful libraries that accept the default levels, every entry of `COMPRESSION_TYPES` compresses successfully, and it round-trips exactly when it is not `True` |

## Left out

- The gzip and brotli algorithms (`gzip.GzipFile`, `brotli.compress`, `brotli.decompress`) are foreign library calls. They are abstract functions here, and their round-trip behaviour is a stated precondition.
- The `BytesIO` and `GzipFile` stream plumbing in `gzip_compress` and `gunzip` is library I/O, and is not modelled.
- The gzip library writes the current time into each stream header (no `mtime` is passed at line 73), so two real `gzip_compress` calls can return different bytes. `gzipCompress` here is a function of content and level only. An equality between two `Compress` results (in `TrueShimCompressOnly`, `DefaultLevels`, `CaseInsensitive` and `LowerCaseNameEquivalent`) therefore means that the same library call is made with the same arguments, not that two runs return equal bytes. The round trip does not depend on this.
- The Python 2 `str(content)` conversion is not modelled. Content is always bytes.
- The `print` of the `filename` label in `decompress` is a console side effect. Errors are passed on unchanged, so `filename` is not a parameter.
- The text of error messages and the Python exception classes are not modelled. The formatting bug in `gunzip` makes them unreliable. Errors are the generic constructors of `Compression.Error`.
- Which levels the libraries reject, for example a gzip level outside the range zlib accepts, is decided by the library. It surfaces as `CodecFailure`.
- `Ascii.Lower` covers ASCII letters only. Python's `str.lower` also maps non-ASCII characters. No non-ASCII character lower-cases to a single letter of `gzip` or `br`, so dispatch is unaffected. Only the name inside `Unsupported` can differ.
- Method values other than `None`, a bool or a string are not modelled, for example the integer `1`, which Python treats as equal to `True`.
- `cloudvolume/storage/__init__.py` is not part of this model. It only re-exports the thread-based and green-thread storage classes, the default thread count and the connection-pool reset. Those are concurrency and remote I/O whose code is not shown. The backend adapters, the connection-pool registry, the execution strategies and the storage facade are left out for the same reason.
