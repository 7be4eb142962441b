/** The pure helpers of the file library page (src/pages/Files.tsx): the
    search filter, the size label, the extension badge, audio detection and
    the role gates on the page's actions. */
module FilesPage {
  import opened Common

  /** The fields of a listed file the helpers read. */
  datatype FileItem = FileItem(
    id: Id,
    title: string,
    description: Option<string>,
    fileUrl: string,
    fileType: Option<string>,
    fileSize: Option<nat>)

  // ---------------------------------------------------------------------------
  // Search

  /** The search keeps a file when its lower-cased title, or its non-null
      lower-cased description, contains the lower-cased term. */
  predicate Matches(f: FileItem, term: string) {
    Contains(Lower(f.title), Lower(term))
    || (f.description.Some? && Contains(Lower(f.description.value), Lower(term)))
  }

  /** `filteredFiles`: the matching files in list order; no list yet gives
      the empty list. */
  function SearchFilter(files: Option<seq<FileItem>>, term: string): (r: seq<FileItem>)
    ensures files.None? ==> r == []
    ensures files.Some? ==> IsSubsequence(r, files.value)
    ensures files.Some? ==> forall f :: f in r <==> f in files.value && Matches(f, term)
  {
    if files.None? then [] else Keep(files.value, term)
  }

  function Keep(files: seq<FileItem>, term: string): (r: seq<FileItem>)
    ensures IsSubsequence(r, files)
    ensures forall f :: f in r <==> f in files && Matches(f, term)
  {
    if files == [] then []
    else
      var rest := Keep(files[1..], term);
      assert files == [files[0]] + files[1..];
      if Matches(files[0], term) then
        assert ([files[0]] + rest)[1..] == rest;
        [files[0]] + rest
      else
        SubsequenceSkip(rest, files[1..], files[0]);
        rest
  }

  /** An empty search keeps every file, in order. */
  lemma {:induction false} EmptyTermKeepsAll(files: seq<FileItem>)
    ensures Keep(files, "") == files
  {
    if files != [] {
      ContainsEmpty(Lower(files[0].title));
      EmptyTermKeepsAll(files[1..]);
      assert files == [files[0]] + files[1..];
    }
  }

  lemma {:induction false} LowerIdempotent(s: string)
    ensures Lower(Lower(s)) == Lower(s)
  {
    if s != [] {
      LowerIdempotent(s[1..]);
      assert Lower(s)[1..] == Lower(s[1..]);
    }
  }

  lemma {:induction false} LowerOfUpper(s: string)
    ensures Lower(Upper(s)) == Lower(s)
  {
    if s != [] {
      LowerOfUpper(s[1..]);
      assert Upper(s)[1..] == Upper(s[1..]);
    }
  }

  /** The search ignores ASCII case: the term typed in upper or lower case
      keeps the same files. */
  lemma SearchIgnoresCase(files: seq<FileItem>, term: string)
    ensures Keep(files, Lower(term)) == Keep(files, term)
    ensures Keep(files, Upper(term)) == Keep(files, term)
  {
    LowerIdempotent(term);
    LowerOfUpper(term);
    KeepSameLowered(files, Lower(term), term);
    KeepSameLowered(files, Upper(term), term);
  }

  lemma {:induction false} KeepSameLowered(files: seq<FileItem>, t1: string, t2: string)
    requires Lower(t1) == Lower(t2)
    ensures Keep(files, t1) == Keep(files, t2)
  {
    if files != [] {
      KeepSameLowered(files[1..], t1, t2);
    }
  }

  // ---------------------------------------------------------------------------
  // Extension and audio detection

  /** `s.split('.').pop()`: the text after the last `.`, or all of `s`. */
  function LastSegment(s: string): (r: string)
    ensures |r| <= |s| && r == s[|s| - |r|..]
    ensures '.' !in r
    ensures |r| < |s| ==> s[|s| - |r| - 1] == '.'
  {
    if s == [] || s[|s| - 1] == '.' then []
    else LastSegment(s[..|s| - 1]) + [s[|s| - 1]]
  }

  /** A name without a `.` is its own last segment. */
  lemma {:induction false} NoDotWholeName(s: string)
    requires '.' !in s
    ensures LastSegment(s) == s
  {
    if s != [] {
      assert s[|s| - 1] in s;
      var init := s[..|s| - 1];
      assert forall c :: c in init ==> c in s;
      NoDotWholeName(init);
      assert s == init + [s[|s| - 1]];
    }
  }

  /** What follows the last dot of a name is its last segment. */
  lemma {:induction false} SegmentAfterDot(base: string, ext: string)
    requires '.' !in ext
    ensures LastSegment(base + "." + ext) == ext
    decreases |ext|
  {
    var s := base + "." + ext;
    if ext == [] {
      assert s[|s| - 1] == '.';
    } else {
      var init := ext[..|ext| - 1];
      assert ext[|ext| - 1] in ext;
      assert forall c :: c in init ==> c in ext;
      SegmentAfterDot(base, init);
      assert s[..|s| - 1] == base + "." + init;
      assert ext == init + [ext[|ext| - 1]];
    }
  }

  /** The badge of a name ending in `.` and a dot-free, non-empty extension. */
  lemma ExtensionOfAppended(base: string, ext: string)
    requires '.' !in ext && ext != ""
    ensures FileExtension(base + "." + ext) == Upper(ext)
  {
    SegmentAfterDot(base, ext);
  }

  /** `getFileExtension`: the upper-cased last segment, `FILE` when empty. */
  function FileExtension(filename: string): (r: string)
    ensures r != ""
    ensures LastSegment(filename) == "" ==> r == "FILE"
    ensures LastSegment(filename) != "" ==> r == Upper(LastSegment(filename)) && '.' !in r
  {
    var ext := Upper(LastSegment(filename));
    if ext == "" then "FILE"
    else
      assert forall i :: 0 <= i < |ext| ==> ext[i] != '.' by {
        forall i | 0 <= i < |ext| ensures ext[i] != '.' {
          assert LastSegment(filename)[i] in LastSegment(filename);
        }
      }
      ext
  }

  const AudioExtensions: seq<string> := ["MP3", "WAV", "OGG", "AAC", "M4A", "FLAC"]

  /** `isAudioFile(filename, mimeType)`. The page calls it with the file's
      title, not its URL. */
  predicate IsAudioFile(filename: string, mimeType: Option<string>) {
    Upper(LastSegment(filename)) in AudioExtensions
    || (mimeType.Some? && StartsWith(mimeType.value, "audio/"))
  }

  /** A name ending in `.mp3`, in any letter case, is audio whatever its
      MIME type. */
  lemma Mp3IsAudio(base: string, ext: string, mimeType: Option<string>)
    requires Upper(ext) == "MP3"
    ensures IsAudioFile(base + "." + ext, mimeType)
  {
    assert '.' !in ext;
    SegmentAfterDot(base, ext);
    assert AudioExtensions[0] == "MP3";
  }

  /** An `audio/` MIME type makes any name audio. */
  lemma AudioMimeIsAudio(filename: string, subtype: string)
    ensures IsAudioFile(filename, Some("audio/" + subtype))
  {
    assert ("audio/" + subtype)[..6] == "audio/";
  }

  /** A `.txt` name is audio only through its MIME type. */
  lemma TextIsNotAudioByName(base: string)
    ensures !IsAudioFile(base + "." + "txt", None)
  {
    SegmentAfterDot(base, "txt");
    assert Upper("txt") == "TXT";
  }

  // ---------------------------------------------------------------------------
  // Size label

  const Sizes: seq<string> := ["B", "KB", "MB", "GB"]

  function Pow1024(k: nat): (p: nat)
    ensures p >= 1
  {
    if k == 0 then 1 else 1024 * Pow1024(k - 1)
  }

  /** `Math.floor(Math.log(bytes) / Math.log(1024))` on a positive integer:
      the largest `i` with 1024^i <= bytes. */
  function UnitIndex(bytes: nat): (i: nat)
    requires bytes >= 1
    ensures Pow1024(i) <= bytes < Pow1024(i + 1)
  {
    if bytes < 1024 then 0
    else
      var j := UnitIndex(bytes / 1024);
      assert 1024 * Pow1024(j) <= 1024 * (bytes / 1024) <= bytes;
      assert bytes < 1024 * (bytes / 1024) + 1024 <= 1024 * Pow1024(j + 1);
      j + 1
  }

  /** The label: `N/A`, or the power of 1024 the number is divided by and
      the unit printed after it. */
  datatype SizeLabel = NotAvailable | Scaled(exponent: nat, unit: string)

  /** `formatFileSize` as written: `sizes[i]` with no bound on `i`, so from
      1024^4 bytes on the unit is JavaScript's `undefined`. */
  function FormatFileSizeAsWritten(bytes: Option<nat>): SizeLabel {
    if bytes.None? || bytes.value == 0 then NotAvailable
    else
      var i := UnitIndex(bytes.value);
      Scaled(i, if i < |Sizes| then Sizes[i] else "undefined")
  }

  /** Two tebibytes are labelled with the unit `undefined`. */
  lemma UnboundedUnitIndex()
    ensures FormatFileSizeAsWritten(Some(2 * Pow1024(4))) == Scaled(4, "undefined")
  {
    var b := 2 * Pow1024(4);
    assert Pow1024(4) <= b < Pow1024(5);
  }

  /** `formatFileSize` with the unit index capped at the last unit. A missing
      or zero size is `N/A`; otherwise the unit is one of the four, the
      divisor does not exceed the size, and below GB the size is less than
      1024 of the unit. */
  function FormatFileSize(bytes: Option<nat>): (r: SizeLabel)
    ensures r.NotAvailable? <==> bytes.None? || bytes.value == 0
    ensures r.Scaled? ==> && r.exponent < |Sizes| && r.unit == Sizes[r.exponent]
                          && Pow1024(r.exponent) <= bytes.value
                          && (r.exponent < |Sizes| - 1 ==> bytes.value < Pow1024(r.exponent + 1))
  {
    if bytes.None? || bytes.value == 0 then NotAvailable
    else
      var i := UnitIndex(bytes.value);
      var capped := if i < |Sizes| then i else |Sizes| - 1;
      assert Pow1024(capped) <= bytes.value by {
        if capped < i { PowMonotone(capped, i); }
      }
      Scaled(capped, Sizes[capped])
  }

  lemma {:induction false} PowMonotone(a: nat, b: nat)
    requires a <= b
    ensures Pow1024(a) <= Pow1024(b)
    decreases b
  {
    if a < b {
      PowMonotone(a, b - 1);
    }
  }

  /** Below 1024^4 bytes the capped label is the label as written. */
  lemma CappedAgreesBelowTebibyte(bytes: Option<nat>)
    requires bytes.Some? ==> bytes.value < Pow1024(4)
    ensures FormatFileSize(bytes) == FormatFileSizeAsWritten(bytes)
  {
    if bytes.Some? && bytes.value != 0 {
      var i := UnitIndex(bytes.value);
      if i >= 4 {
        PowMonotone(4, i);
      }
    }
  }

  // ---------------------------------------------------------------------------
  // Role gates

  /** `user?.role !== 'user'`: upload, new category, edit and delete. A page
      with no signed-in user has an undefined role and shows them too. */
  predicate CanManageFiles(role: Option<Role>) {
    role != Some(Role.User)
  }

  /** `user?.role === 'admin'`: the download statistics column and button. */
  predicate ShowsDownloadStats(role: Option<Role>) {
    role == Some(Admin)
  }

  /** Statistics are shown only to those who also manage files, and a
      signed-in user is offered the management actions exactly when the role
      is not `user`, the role the upload and update handlers answer with 403. */
  lemma RoleGatesAgree(role: Option<Role>)
    ensures ShowsDownloadStats(role) ==> CanManageFiles(role)
    ensures role.Some? ==> (CanManageFiles(role) <==> role.value != Role.User)
    ensures CanManageFiles(role) <==> role == None || role == Some(Admin) || role == Some(Operator)
  {
  }
}
