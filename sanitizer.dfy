/** The decision logic of `fully_strip_image` in img.py: the existence and
    extension checks, the format dispatch, the colour mode chosen for the
    re-encode, the name and place of the output file, and the two integer
    warnings of the final report. Everything these decisions are applied to
    (decoding, encoding, hashing, the filesystem) stays outside the model and
    enters only as parameters. */
module Sanitizer {

  datatype Option<T> = None | Some(value: T)

  /** The two containers the utility handles, chosen once from the extension. */
  datatype Format = PNG | JPEG

  /** The residual-metadata pass run on the first encode. */
  datatype StripPass = ChunkRewrite | ExifRemoval

  /** Why `fully_strip_image` returns without producing a file. */
  datatype Error =
    | NotFound             // the input path does not exist
    | UnsupportedFormat    // the extension is not .png, .jpg or .jpeg
    | ScrubbingFailed      // the image could not be opened or decoded

  datatype Result<T> = Ok(value: T) | Err(error: Error)

  const SUPPORTED_EXTENSIONS: set<string> := {".png", ".jpg", ".jpeg"}
  const ALPHA_MODES: set<string> := {"RGBA", "LA"}
  const OUTPUT_PREFIX: string := "clean_"
  const TOKEN_CHARS: nat := 10

  // ---------------------------------------------------------------------
  // Extension handling
  // ---------------------------------------------------------------------

  predicate IsUpper(c: char)
  {
    'A' <= c <= 'Z'
  }

  function LowerChar(c: char): char
  {
    if IsUpper(c) then (c as int + 32) as char else c
  }

  /** `str.lower()` on ASCII: upper-case letters become lower-case, every
      other character is kept. */
  function Lower(s: string): (r: string)
    ensures |r| == |s|
    ensures forall i :: 0 <= i < |r| ==> !IsUpper(r[i])
    ensures forall i :: 0 <= i < |s| && !IsUpper(s[i]) ==> r[i] == s[i]
    ensures forall i :: 0 <= i < |s| && IsUpper(s[i]) ==> r[i] as int == s[i] as int + 32
  {
    seq(|s|, i requires 0 <= i < |s| => LowerChar(s[i]))
  }

  /** The extension check and the dispatch on it: only the lower-cased
      extension is looked at. */
  function ClassifyExtension(ext: string): (f: Option<Format>)
    ensures f.Some? <==> Lower(ext) in SUPPORTED_EXTENSIONS
    ensures f == Some(PNG) <==> Lower(ext) == ".png"
    ensures f == Some(JPEG) <==> Lower(ext) == ".jpg" || Lower(ext) == ".jpeg"
  {
    var e := Lower(ext);
    if e == ".png" then Some(PNG)
    else if e == ".jpg" || e == ".jpeg" then Some(JPEG)
    else None
  }

  // ---------------------------------------------------------------------
  // Mode and pass selection
  // ---------------------------------------------------------------------

  /** The colour mode the image is converted to before it is rebuilt. */
  function TargetMode(format: Format, sourceMode: string): (m: string)
    ensures m in {"RGB", "RGBA"}
    ensures m == "RGBA" <==> format == PNG && sourceMode in ALPHA_MODES
    ensures format == JPEG ==> m == "RGB"
  {
    match format
    case PNG => if sourceMode in ALPHA_MODES then "RGBA" else "RGB"
    case JPEG => "RGB"
  }

  /** PNG output gets a second decode/rebuild pass, JPEG output an EXIF removal. */
  function ResidualPass(format: Format): (p: StripPass)
    ensures p == ChunkRewrite <==> format == PNG
  {
    if format == PNG then ChunkRewrite else ExifRemoval
  }

  // ---------------------------------------------------------------------
  // Output naming
  // ---------------------------------------------------------------------

  /** Python's `s[:n]`: the first `n` characters, or all of `s` if it is shorter. */
  function Take(s: string, n: nat): (r: string)
    ensures |r| == if |s| < n then |s| else n
    ensures r <= s
  {
    if |s| <= n then s else s[..n]
  }

  /** `clean_` followed by the first ten characters of the random token and
      the (lower-cased) extension. */
  function OutputName(token: string, ext: string): (name: string)
    ensures |name| >= |OUTPUT_PREFIX| + |ext|
    ensures name[..|OUTPUT_PREFIX|] == OUTPUT_PREFIX
    ensures name[|name| - |ext|..] == ext
    ensures |token| >= TOKEN_CHARS ==>
              |name| == |OUTPUT_PREFIX| + TOKEN_CHARS + |ext|
              && name[|OUTPUT_PREFIX|..|OUTPUT_PREFIX| + TOKEN_CHARS] == token[..TOKEN_CHARS]
  {
    OUTPUT_PREFIX + Take(token, TOKEN_CHARS) + ext
  }

  /** POSIX `os.path.join(dir, name)` for a `name` that does not start with
      a separator: a separator is put between the two unless `dir` is empty
      or already ends with one. */
  function JoinPath(dir: string, name: string): (p: string)
    ensures |p| >= |name|
    ensures p[|p| - |name|..] == name
    ensures dir == [] ==> p == name
    ensures dir != [] ==> p[..|p| - |name|] == (if dir[|dir| - 1] == '/' then dir else dir + "/")
  {
    if dir == [] || dir[|dir| - 1] == '/' then dir + name else dir + "/" + name
  }

  /** The last path component: everything after the final `/`. */
  function Basename(p: string): (b: string)
    ensures '/' !in b
    ensures |b| <= |p| && p[|p| - |b|..] == b
  {
    if p == [] || p[|p| - 1] == '/' then [] else Basename(p[..|p| - 1]) + [p[|p| - 1]]
  }

  // ---------------------------------------------------------------------
  // The sanitize operation up to the encode
  // ---------------------------------------------------------------------

  /** What the re-encode is told to do. */
  datatype Plan = Plan(format: Format, mode: string, pass: StripPass, outputPath: string)

  /** The decisions of `fully_strip_image`, in the order it takes them.
      `found` is the answer of `os.path.exists`, `ext` the extension
      returned by `os.path.splitext`, `sourceMode` the mode Pillow reports
      for the opened image (`None` when opening fails), `dir` the input's
      directory and `token` the hex form of a fresh UUID. */
  function Prepare(found: bool, ext: string, sourceMode: Option<string>, dir: string, token: string): (r: Result<Plan>)
    ensures !found ==> r == Err(NotFound)
    ensures found && Lower(ext) !in SUPPORTED_EXTENSIONS ==> r == Err(UnsupportedFormat)
    ensures found && Lower(ext) in SUPPORTED_EXTENSIONS && sourceMode.None? ==> r == Err(ScrubbingFailed)
    ensures r.Ok? <==> found && Lower(ext) in SUPPORTED_EXTENSIONS && sourceMode.Some?
    ensures r.Ok? ==> (r.value.format == PNG <==> Lower(ext) == ".png")
    ensures r.Ok? ==> (r.value.pass == ChunkRewrite <==> Lower(ext) == ".png")
    ensures r.Ok? ==> r.value.mode == (if Lower(ext) == ".png" && sourceMode.value in ALPHA_MODES then "RGBA" else "RGB")
    ensures r.Ok? ==> r.value.outputPath == JoinPath(dir, OUTPUT_PREFIX + Take(token, TOKEN_CHARS) + Lower(ext))
  {
    if !found then Err(NotFound)
    else
      match ClassifyExtension(ext)
      case None => Err(UnsupportedFormat)
      case Some(format) =>
        match sourceMode
        case None => Err(ScrubbingFailed)
        case Some(m) =>
          Ok(Plan(format, TargetMode(format, m), ResidualPass(format), JoinPath(dir, OutputName(token, Lower(ext)))))
  }

  // ---------------------------------------------------------------------
  // The report's integer warnings
  // ---------------------------------------------------------------------

  /** What is measured of a file before and after: its SHA-256 hex digest
      (only ever compared for equality) and its size in bytes. */
  datatype Metrics = Metrics(digest: string, size: nat)

  datatype Warning =
    | LargerOutput     // the output is more than 1.5 times the input
    | HashUnchanged    // the digest did not change

  /** `final_size > original_size * 1.5`, decided on integers. */
  predicate SizeWarning(originalSize: nat, finalSize: nat)
    ensures SizeWarning(originalSize, finalSize) <==> (finalSize as real) > (originalSize as real) * 1.5
  {
    2 * finalSize > 3 * originalSize
  }

  /** The warnings of the report after the entropy warning, in the order
      they are printed; each is decided on its own. */
  function Warnings(original: Metrics, final: Metrics): (w: seq<Warning>)
    ensures LargerOutput in w <==> (final.size as real) > (original.size as real) * 1.5
    ensures HashUnchanged in w <==> original.digest == final.digest
    ensures w == [] || w == [LargerOutput] || w == [HashUnchanged] || w == [LargerOutput, HashUnchanged]
  {
    (if SizeWarning(original.size, final.size) then [LargerOutput] else [])
    + (if original.digest == final.digest then [HashUnchanged] else [])
  }

  // ---------------------------------------------------------------------
  // Properties
  // ---------------------------------------------------------------------

  /** Lower-casing twice is lower-casing once. */
  lemma LowerIdempotent(s: string)
    ensures Lower(Lower(s)) == Lower(s)
  {
  }

  /** The check ignores case: the extension and its lower-cased form are
      classified alike. */
  lemma ClassifyIgnoresCase(ext: string)
    ensures ClassifyExtension(Lower(ext)) == ClassifyExtension(ext)
  {
  }

  /** Mixed-case spellings are accepted, other formats rejected. */
  lemma ExtensionExamples()
    ensures ClassifyExtension(".PNG") == Some(PNG)
    ensures ClassifyExtension(".JpEg") == Some(JPEG)
    ensures ClassifyExtension(".jpg") == Some(JPEG)
    ensures ClassifyExtension(".gif") == None
    ensures ClassifyExtension("") == None
  {
  }

  /** An unsupported extension stops the operation before any mode, pass or
      output name is chosen, whatever the image and token would have been. */
  lemma UnsupportedStopsEarly(ext: string, m1: Option<string>, m2: Option<string>, dir: string, t1: string, t2: string)
    requires Lower(ext) !in SUPPORTED_EXTENSIONS
    ensures Prepare(true, ext, m1, dir, t1) == Prepare(true, ext, m2, dir, t2) == Err(UnsupportedFormat)
  {
  }

  /** Converting an already converted image asks for the same mode again, so a
      second sanitize of the output does not change its mode. */
  lemma TargetModeIsStable(format: Format, sourceMode: string)
    ensures TargetMode(format, TargetMode(format, sourceMode)) == TargetMode(format, sourceMode)
  {
  }

  /** Two tokens that differ in their first ten characters give different names. */
  lemma OutputNameInjective(t1: string, t2: string, ext: string)
    requires |t1| >= TOKEN_CHARS && |t2| >= TOKEN_CHARS
    requires t1[..TOKEN_CHARS] != t2[..TOKEN_CHARS]
    ensures OutputName(t1, ext) != OutputName(t2, ext)
  {
  }

  /** Whatever follows a separator (or the start) and holds none is the last component. */
  lemma {:induction false} BasenameAfterSeparator(a: string, b: string)
    requires a == [] || a[|a| - 1] == '/'
    requires '/' !in b
    ensures Basename(a + b) == b
  {
    if b != [] {
      var init, last := b[..|b| - 1], b[|b| - 1];
      assert b == init + [last];
      BasenameAfterSeparator(a, init);
      var p := a + b;
      assert p[..|p| - 1] == a + init && p[|p| - 1] == last;
    } else {
      assert a + b == a;
    }
  }

  /** The last component of a name joined onto a directory is the name itself. */
  lemma BasenameOfJoin(dir: string, name: string)
    requires '/' !in name
    ensures Basename(JoinPath(dir, name)) == name
  {
    if dir == [] || dir[|dir| - 1] == '/' {
      BasenameAfterSeparator(dir, name);
    } else {
      assert dir + "/" + name == (dir + "/") + name;
      BasenameAfterSeparator(dir + "/", name);
    }
  }

  /** The output lands in the input's directory under the `clean_` name: its
      last path component is `clean_`, ten token characters and the
      lower-cased extension. */
  lemma OutputPathInInputDirectory(found: bool, ext: string, sourceMode: Option<string>, dir: string, token: string)
    requires Prepare(found, ext, sourceMode, dir, token).Ok?
    requires '/' !in token && '/' !in ext
    ensures Basename(Prepare(found, ext, sourceMode, dir, token).value.outputPath) == OutputName(token, Lower(ext))
  {
    var name := OutputName(token, Lower(ext));
    var t := Take(token, TOKEN_CHARS);
    assert name == OUTPUT_PREFIX + t + Lower(ext);
    assert '/' !in t by {
      forall i | 0 <= i < |t| ensures t[i] != '/' {
        assert t[i] == token[i];
      }
    }
    assert '/' !in Lower(ext) by {
      forall i | 0 <= i < |ext| ensures Lower(ext)[i] != '/' {
        assert ext[i] != '/';
      }
    }
    assert '/' !in name by {
      forall i | 0 <= i < |name| ensures name[i] != '/' {
        var k := |OUTPUT_PREFIX|;
        if i < k {
        } else if i < k + |t| {
          assert name[i] == t[i - k];
        } else {
          assert name[i] == Lower(ext)[i - k - |t|];
        }
      }
    }
    BasenameOfJoin(dir, name);
  }

  /** The size warning depends only on the sizes and the hash warning only on
      the digests. */
  lemma WarningsAreIndependent(o1: Metrics, f1: Metrics, o2: Metrics, f2: Metrics)
    ensures o1.size == o2.size && f1.size == f2.size ==>
              (LargerOutput in Warnings(o1, f1) <==> LargerOutput in Warnings(o2, f2))
    ensures o1.digest == o2.digest && f1.digest == f2.digest ==>
              (HashUnchanged in Warnings(o1, f1) <==> HashUnchanged in Warnings(o2, f2))
  {
  }
}
