# PixelPurge image scrubber — a Dafny model of its decision and counting core

PixelPurge is a one-file Python utility (`img.py`) that removes metadata from
a PNG or JPEG image by decoding its pixels and re-encoding them into a fresh
file named `clean_<token><ext>` next to the input. Before and after it
measures the file's SHA-256 digest, size and byte entropy, and it prints
warnings when the result looks suspicious.

Nearly all of that work is delegated to Pillow, piexif, hashlib and the
filesystem. This project models what the script decides and counts itself:

- `entropy.dfy`, module `Entropy`: the integer part of `calculate_entropy`.
  - `CountBytes` is the first loop. The 256-slot table is a zero-initialised
    `array` updated in place once per byte. It is proved equal to
    `Histogram`, the reference table whose slot `v` is `Occurrences(data, v)`.
  - `ContributingCounts` is the second loop. It skips zero slots with
    `continue` and is proved equal to `NonZeroCounts`.
  - `CollectEntropyTerms` joins the two and models the early return for an
    empty file.
  - Lemmas state that the slots add up to the length, that the ratios
    `count / len(data)` add up to 1, and that the table is the same exactly
    for permutations of the bytes. They also describe which slots are
    non-zero, including the case of a run of identical bytes.
- `sanitizer.dfy`, module `Sanitizer`: the decisions of `fully_strip_image`.
  - `ClassifyExtension` is the case-insensitive extension check. Its result
    is the closed variant `Format = PNG | JPEG`.
  - `TargetMode` chooses the colour mode and `ResidualPass` the second
    stripping pass (PNG chunk rewrite or JPEG EXIF removal).
  - `OutputName` and `JoinPath` build the output path.
  - `Prepare` strings these together with the two early returns and the
    failed-open error.
  - `Warnings` gives the size and unchanged-hash warnings of the report.

Inputs that come from I/O or randomness are parameters:

- whether the path exists;
- the extension `os.path.splitext` returned;
- the mode Pillow reports, or `None` when opening fails;
- the input's directory;
- the UUID hex token;
- the digests and sizes measured before and after.

Two points of the code worth knowing:

- The output name keeps the lower-cased extension (img.py:56, 97), so
  `photo.JPG` becomes `clean_<token>.jpg`.
- The error kinds are a `Result` type here. The script itself only prints a
  line and returns. Every exception that reaches the outer handler
  (img.py:132-133) is reported the same way, so a failed open is the one
  error `ScrubbingFailed`. The verify failure (img.py:104-110) and the two
  stripping helpers (img.py:31-34, 47-49) catch their own exceptions; the
  helpers print a warning and the run goes on.

## Model

| member | source | states |
|---|---|---|
| `Entropy.CountBytes` | img.py:15-17 | the 256 slots after the loop hold, for each byte value, its number of occurrences in the data; equal to the reference `Histogram`; the slots add up to the length |
| `Entropy.ContributingCounts` | img.py:18-21 | the scan keeps exactly the non-zero slots in slot order; their total equals the table's total; one term per non-zero slot |
| `Entropy.CollectEntropyTerms` | img.py:10-24 | empty input exactly when no terms are produced (the early `return 0`); otherwise the terms are the non-zero slots of the histogram, each in `1..len(data)`, summing to `len(data)`, with ratios summing to 1 |
| `Entropy.Occurrences` | img.py:16-17 | a byte value occurs at most `len(data)` times |
| `Entropy.NonZeroCounts` | img.py:19-21 | every kept count is positive and there are no more of them than slots |
| `Entropy.OccurrencesIsMultiplicity` | img.py:16-17 | the count in a slot is the multiplicity of that byte value in the multiset of the data |
| `Entropy.HistogramSumsToLength` | img.py:15-17 | the slots of the table add up to `len(data)` |
| `Entropy.HistogramIffSameMultiset` | img.py:16-17 | two byte sequences have the same table if and only if one is a permutation of the other |
| `Entropy.NonZeroBucketsAreOccurringBytes` | img.py:19-21 | a slot is non-zero exactly when its byte value occurs in the data |
| `Entropy.NonZeroCountsSum` | img.py:19-21 | skipping zero slots does not change the total count |
| `Entropy.NonZeroCountsMatchBuckets` | img.py:19-21 | the number of terms equals the number of non-zero slots |
| `Entropy.SingleValueHasOneBucket` | img.py:19-22 | `n > 0` copies of one byte give exactly one non-zero slot, holding `n` |
| `Entropy.RatiosSumToOne` | img.py:22 | for non-empty data the probabilities `count / len(data)` of the contributing slots add up to 1 |
| `Sanitizer.Lower` | img.py:56 | the lower-cased string has the same length, no upper-case ASCII letter, keeps every other character and shifts each upper-case letter by 32 |
| `Sanitizer.LowerIdempotent` | img.py:56 | lower-casing twice equals lower-casing once |
| `Sanitizer.ClassifyExtension` | img.py:56-57 | accepted iff the lower-cased extension is `.png`, `.jpg` or `.jpeg`; PNG iff it is `.png`; JPEG iff it is `.jpg` or `.jpeg` |
| `Sanitizer.ClassifyIgnoresCase` | img.py:56-57 | an extension and its lower-cased form are classified alike |
| `Sanitizer.ExtensionExamples` | img.py:56-59 | `.PNG` is PNG, `.JpEg` and `.jpg` are JPEG, `.gif` and the empty extension are rejected |
| `Sanitizer.TargetMode` | img.py:72-75 | the mode is `RGB` or `RGBA`; `RGBA` iff PNG with source mode `RGBA` or `LA`; always `RGB` for JPEG |
| `Sanitizer.TargetModeIsStable` | img.py:72-75 | the mode chosen for an already converted image is the mode it has |
| `Sanitizer.ResidualPass` | img.py:87-95 | the chunk-rewrite pass runs iff the format is PNG, otherwise EXIF removal |
| `Sanitizer.Take` | img.py:97 | Python's `[:10]`: the first ten characters, or the whole token when shorter; always a prefix |
| `Sanitizer.OutputName` | img.py:97 | the name starts with `clean_` and ends with the extension; with a token of at least 10 characters it has length `16 + len(ext)` and characters 6 to 15 are the token's first ten |
| `Sanitizer.OutputNameInjective` | img.py:97 | tokens differing in their first ten characters give different names |
| `Sanitizer.JoinPath` | img.py:98 | with an empty directory the path is the name alone; otherwise the name follows the directory, with one `/` inserted exactly when the directory does not already end in `/` |
| `Sanitizer.BasenameOfJoin` | img.py:98 | the last component of a joined path is the name |
| `Sanitizer.OutputPathInInputDirectory` | img.py:97-98 | the output path's last component is `clean_` + token prefix + lower-cased extension |
| `Sanitizer.Prepare` | img.py:51-98 | a missing file gives `NotFound`; an unsupported extension gives `UnsupportedFormat`; a failed open of an existing, supported file gives `ScrubbingFailed`; success iff the file exists, the extension is supported and the image opened; format, mode, stripping pass (chunk rewrite iff `.png`) and output path then as chosen above |
| `Sanitizer.UnsupportedStopsEarly` | img.py:56-59 | with an unsupported extension the result is `UnsupportedFormat` whatever the image mode and token |
| `Sanitizer.SizeWarning` | img.py:125 | the integer test `2*final > 3*original` holds iff `final > original * 1.5` over the reals |
| `Sanitizer.Warnings` | img.py:125-128 | the size warning is present iff `final > 1.5 × original`; the hash warning iff the digests are equal; at most these two, in printing order |
| `Sanitizer.WarningsAreIndependent` | img.py:125-128 | the size warning depends only on the sizes and the hash warning only on the digests |

## Left out

- The floating-point entropy (`-p * log2(p)`, the running sum), its two-decimal printing and the `> 7.5` high-entropy warning (img.py:22-23, 121, 123-124): floating-point numerics. The ratios `count / len(data)` are modelled as exact reals.
- SHA-256 (`sha256_file`, img.py:26-28): a foreign library. Digests are opaque strings compared for equality.
- All Pillow work: opening, `convert`, `getdata`/`putdata`, `save` with its options, `remove_png_chunks` and `verify` (img.py:36-49, 69-94, 104-110): foreign codec calls. Only the choice of mode and of stripping pass is modelled. Opening enters `Prepare` as a mode or `None`.
- `strip_exif_with_piexif` (img.py:30-34): a foreign EXIF library.
- The corruption branch after `verify` (img.py:104-110): on the answer of a foreign call it prints a corruption warning, deletes the output and returns; none of this is modelled.
- The warnings printed by the two stripping helpers when they fail (img.py:33-34, 47-49): console output after a foreign call; the run continues, which the model does not distinguish.
- Filesystem effects: reading the file, temporary files, `os.replace`, `os.utime`, `os.remove`, `os.path.exists`, `os.path.getsize` (img.py:11-12, 44, 52, 67, 85-102, 109, 112-114): I/O. Their results enter as parameters.
- `uuid.uuid4()` (img.py:97): randomness. The hex token is a parameter.
- `os.path.splitext` and `os.path.dirname` (img.py:56, 98): the extension and the directory are parameters. `os.path.join` is modelled for POSIX paths whose second part does not start with `/`, which holds for `clean_…`.
- Console output and wall-clock timing (img.py:53, 58, 62-63, 76, 116-121, 130, 133): I/O.
- `Sanitizer.Lower`: models `str.lower()` on ASCII letters only. No non-ASCII character lower-cases to one of the letters in `.png`, `.jpg`, `.jpeg`, so acceptance is unaffected.
- `Sanitizer.SizeWarning`: models it as exact arithmetic. The Python float test `final_size > original_size * 1.5` agrees with it while `3 * original_size < 2^53` (about 3·10^15 bytes); above that the float product is rounded.
