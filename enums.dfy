/**
 * The file-format enums: the file kind an extension names, and the accessors
 * of `AlignmentStackKind`, the one-variant wrapper around a stack of aligned
 * pairs that the interface hands out.
 */
module FileFormats {
  import opened Wrappers
  import opened GenomicCoordinates
  import Stack
  import AlignedReads

  datatype FileKind = Bam | Fasta | Sam

  /** The extensions read as FASTA. */
  const FASTA_EXTENSIONS: set<string> := {"fasta", "fa", "ffn", "faa", "frn", "fna"}

  /** The position of the last '.' in `s`, if any. */
  function LastDot(s: string): (r: Option<nat>)
    ensures r.None? <==> '.' !in s
    ensures r.Some? ==> r.value < |s| && s[r.value] == '.' && '.' !in s[r.value + 1..]
  {
    if s == [] then None
    else if s[|s| - 1] == '.' then Some(|s| - 1)
    else
      var r := LastDot(s[..|s| - 1]);
      if r.Some? then
        assert s[r.value + 1..] == s[..|s| - 1][r.value + 1..] + [s[|s| - 1]];
        r
      else
        assert s == s[..|s| - 1] + [s[|s| - 1]];
        r
  }

  /**
   * The extension of a file name, as `Path::extension` takes it: the text after
   * the last '.', with none when there is no '.', when the only '.' leads the
   * name, and for "..".
   */
  function Extension(fileName: string): (r: Option<string>)
    ensures r.None? <==> fileName == ".." || fileName == [] || '.' !in fileName[1..]
    ensures r.Some? ==>
      |r.value| + 1 < |fileName| && fileName[|fileName| - |r.value| - 1] == '.' &&
      fileName[|fileName| - |r.value|..] == r.value && '.' !in r.value
  {
    if fileName == ".." then None
    else
      match LastDot(fileName)
      case None => None
      case Some(i) =>
        if i == 0 then
          assert fileName[1..] == fileName[i + 1..];
          None
        else
          assert fileName[i] in fileName[1..];
          Some(fileName[i + 1..])
  }

  /**
   * `get_file_kind` on the extension: "bam" and "sam" are both read as BAM,
   * the six FASTA extensions as FASTA, and no extension or any other one is
   * an unrecognised file type.
   */
  function GetFileKind(extension: Option<string>): (r: Result<FileKind>)
    ensures r == Ok(Bam) <==> extension == Some("bam") || extension == Some("sam")
    ensures r == Ok(Fasta) <==> extension.Some? && extension.value in FASTA_EXTENSIONS
    ensures r.Ok? ==> r.value != Sam
    ensures r.Err? ==> r.error == UnrecognizedFileType
  {
    match extension
    case Some("bam") => Ok(Bam)
    case Some("sam") => Ok(Bam)
    case Some(ext) =>
      if ext in FASTA_EXTENSIONS then Ok(Fasta) else Err(UnrecognizedFileType)
    case None => Err(UnrecognizedFileType)
  }

  /** The file kind the extension evidently means: as `GetFileKind`, but "sam" is SAM. */
  function GetFileKindIntended(extension: Option<string>): (r: Result<FileKind>)
    ensures r == Ok(Sam) <==> extension == Some("sam")
    ensures r == Ok(Bam) <==> extension == Some("bam")
  {
    if extension == Some("sam") then Ok(Sam) else GetFileKind(extension)
  }

  /** The corrected classifier differs from the code only on "sam". */
  lemma IntendedAgreesElsewhere(extension: Option<string>)
    ensures GetFileKindIntended(extension) != GetFileKind(extension) <==> extension == Some("sam")
  {
  }

  /** The extension of "test.<ext>" is `ext`, for any non-empty `ext` without a dot. */
  lemma TestNameExtension(ext: string)
    requires ext != [] && '.' !in ext
    ensures Extension("test." + ext) == Some(ext)
  {
    var name := "test." + ext;
    assert name[4] == '.' && name[5..] == ext;
    var i := LastDot(name).value;
    forall k | i < k < |name|
      ensures name[k] != '.'
    {
      assert name[k] == name[i + 1..][k - i - 1];
    }
    assert forall k :: 5 <= k < |name| ==> name[k] == ext[k - 5];
    assert i == 4;
    assert name[4] in name[1..];
  }

  /** The code reads "test.sam" as BAM; the unit test expects SAM. */
  lemma SamReadAsBam()
    ensures Extension("test.sam") == Some("sam")
    ensures GetFileKind(Extension("test.sam")) == Ok(Bam)
    ensures GetFileKindIntended(Extension("test.sam")) == Ok(Sam)
  {
    TestNameExtension("sam");
  }

  /** The supported file names of the unit test. */
  lemma SupportedFileKinds()
    ensures GetFileKind(Extension("test.bam")) == Ok(Bam)
    ensures GetFileKind(Extension("test.fa")) == Ok(Fasta)
    ensures GetFileKind(Extension("test.fasta")) == Ok(Fasta)
  {
    assert Extension("test.bam") == Some("bam") by { TestNameExtension("bam"); }
    assert Extension("test.fa") == Some("fa") by { TestNameExtension("fa"); }
    assert Extension("test.fasta") == Some("fasta") by { TestNameExtension("fasta"); }
  }

  /**
   * The unit test for an unsupported file type uses "test.bam", which is
   * supported: the call succeeds where the test expects an error.
   */
  lemma UnsupportedTestNameIsSupported()
    ensures GetFileKind(Extension("test.bam")).Ok?
  {
    TestNameExtension("bam");
  }

  /** File names that are evidently unsupported: another extension, none, or only a leading dot. */
  lemma UnsupportedFileKinds()
    ensures GetFileKind(Extension("test.txt")) == Err(UnrecognizedFileType)
    ensures GetFileKind(Extension("test")) == Err(UnrecognizedFileType)
    ensures GetFileKind(Extension(".bam")) == Err(UnrecognizedFileType)
  {
    TestNameExtension("txt");
    assert "txt" !in FASTA_EXTENSIONS;
    assert '.' !in "test"[1..];
    assert '.' !in ".bam"[1..];
  }

  /** `AlignmentStackKind`: its one variant wraps a stack of aligned read pairs. */
  datatype AlignmentStackKind = AlignedPairKind(stack: Stack.AlignmentStack<AlignedReads.AlignedPair>)
  {
    /** `id`: the wrapped stack's id. */
    function Id(): (r: Stack.StackId)
      reads stack
      ensures r == stack.id
    {
      match this
      case AlignedPairKind(s) => s.id
    }

    /** `buffered_region`: the wrapped stack's buffered region. */
    function BufferedRegion(): (r: GenomicRegion)
      reads stack
      ensures r == stack.bufferedRegion
    {
      match this
      case AlignedPairKind(s) => s.bufferedRegion
    }
  }

  /** A new stack, wrapped, reports the id and region it was made with. */
  method NewStackKind(id: Stack.StackId, region: GenomicRegion) returns (kind: AlignmentStackKind)
    ensures kind.Id() == id && kind.BufferedRegion() == region
    ensures fresh(kind.stack) && kind.stack.rows == []
  {
    var stack := new Stack.AlignmentStack(id, region);
    kind := AlignedPairKind(stack);
  }
}
