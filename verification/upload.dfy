/** The image upload middleware (server.js:29-47): multer's file filter, its
    size limit, the generated stored file name and the public URL under which
    a stored file is served. Disk writes are not modelled; the clock is an
    argument. */
module Upload {
  import opened Wrappers
  import Decimal

  /** `limits.fileSize`: 10 MiB. The model takes a file of exactly this size
      to be accepted and one byte more to be refused. */
  const MaxFileSize: nat := 10 * 1024 * 1024

  /** The alternatives of the pattern `/jpeg|jpg|png|gif|webp/`, in order. */
  const AllowedTypes: seq<string> := ["jpeg", "jpg", "png", "gif", "webp"]

  /** Public URL prefix of the uploads directory. */
  const UploadsPrefix: string := "/uploads/"

  /** A file part as multer hands it to the filter and the storage:
      `file.originalname` and `file.mimetype` as the multipart parser in
      front of multer produced them from the part's headers, and the size
      in bytes. */
  datatype IncomingFile = IncomingFile(originalName: string, mimeType: string, size: nat)

  datatype UploadError =
    | NotAnImage  // the file filter refused the file
    | TooLarge    // multer's LIMIT_FILE_SIZE

  /** What `upload.single('image')` hands on: no file, the stored file's
      name, or an error that ends the request before the route handler. */
  datatype Received = NoFile | Stored(filename: string) | Rejected(error: UploadError)

  // ---------------------------------------------------------------------
  // String helpers: lower-casing and `path.extname`
  // ---------------------------------------------------------------------

  /** `toLowerCase` on one character, restricted to ASCII. */
  function LowerChar(c: char): char {
    if 'A' <= c <= 'Z' then (c as int + 32) as char else c
  }

  function Lower(s: string): (r: string)
    ensures |r| == |s|
    ensures forall i :: 0 <= i < |s| ==> r[i] == LowerChar(s[i])
  {
    seq(|s|, i requires 0 <= i < |s| => LowerChar(s[i]))
  }

  /** Index of the last `c` in `s`, if any. */
  function LastIndexOf(s: string, c: char): (r: Option<nat>)
    ensures r.Some? ==> r.value < |s| && s[r.value] == c
    ensures r.Some? ==> forall j :: r.value < j < |s| ==> s[j] != c
    ensures r.None? ==> forall j :: 0 <= j < |s| ==> s[j] != c
  {
    if |s| == 0 then None
    else if s[|s| - 1] == c then Some(|s| - 1)
    else LastIndexOf(s[..|s| - 1], c)
  }

  /** `p` without its trailing slashes. */
  function StripTrailingSlashes(p: string): (r: string)
    ensures |r| <= |p| && r == p[..|r|]
    ensures |r| == 0 || r[|r| - 1] != '/'
    ensures forall j :: |r| <= j < |p| ==> p[j] == '/'
  {
    if |p| > 0 && p[|p| - 1] == '/' then StripTrailingSlashes(p[..|p| - 1]) else p
  }

  /** The last path segment, after trailing slashes are dropped: the
      longest slash-free suffix of the stripped path. */
  function BaseName(p: string): (b: string)
    ensures var q := StripTrailingSlashes(p);
            && |b| <= |q| && b == q[|q| - |b|..]
            && (forall j :: 0 <= j < |b| ==> b[j] != '/')
            && (|b| == |q| || q[|q| - |b| - 1] == '/')
  {
    var q := StripTrailingSlashes(p);
    match LastIndexOf(q, '/')
    case None => q
    case Some(k) => q[k + 1..]
  }

  /** POSIX `path.extname`: the last segment from its last dot on, or the
      empty string when the segment has no dot, starts with its only dot
      (".png"), or is "..". */
  function ExtName(p: string): (ext: string)
    ensures ext == "" || ext[0] == '.'
  {
    SegmentExt(BaseName(p))
  }

  /** The extension of one path segment `b`. */
  function SegmentExt(b: string): (ext: string)
    ensures ext == "" || ext[0] == '.'
  {
    match LastIndexOf(b, '.')
    case None => ""
    case Some(d) => if d == 0 || b == ".." then "" else b[d..]
  }

  // ---------------------------------------------------------------------
  // The pattern /jpeg|jpg|png|gif|webp/ and its `test`
  // ---------------------------------------------------------------------

  /** `w` occurs in `s` starting at index `i`. */
  predicate OccursAt(s: string, i: nat, w: string) {
    i + |w| <= |s| && s[i..i + |w|] == w
  }

  /** Reference meaning of the unanchored pattern: some alternative occurs
      somewhere in `s`. */
  ghost predicate ContainsAllowed(s: string) {
    exists w, i: nat :: w in AllowedTypes && OccursAt(s, i, w)
  }

  /** The regex engine's inner step: try the alternatives from index `k` on,
      in order, at position `i`. */
  function MatchAlternatives(s: string, i: nat, k: nat): (r: bool)
    requires k <= |AllowedTypes|
    ensures r <==> exists w :: w in AllowedTypes[k..] && OccursAt(s, i, w)
    decreases |AllowedTypes| - k
  {
    if k == |AllowedTypes| then false
    else OccursAt(s, i, AllowedTypes[k]) || MatchAlternatives(s, i, k + 1)
  }

  /** The regex engine's outer loop: try every start position from `i` on. */
  function SearchFrom(s: string, i: nat): (r: bool)
    requires i <= |s|
    ensures r <==> exists w, j: nat :: i <= j && w in AllowedTypes && OccursAt(s, j, w)
    decreases |s| - i
  {
    if MatchAlternatives(s, i, 0) then true
    else if i == |s| then false
    else SearchFrom(s, i + 1)
  }

  /** `/jpeg|jpg|png|gif|webp/.test(s)` (the pattern has no `g` flag, so the
      test keeps no state between calls). */
  function TestAllowed(s: string): (r: bool)
    ensures r <==> ContainsAllowed(s)
  {
    SearchFrom(s, 0)
  }

  /** multer `fileFilter`: the lower-cased extension of `file.originalname`
      and `file.mimetype`, which the filter does not lower-case, must each
      contain an allowed word. */
  function FileFilter(originalName: string, mimeType: string): (accepted: bool)
    ensures accepted <==> ContainsAllowed(Lower(ExtName(originalName))) && ContainsAllowed(mimeType)
  {
    TestAllowed(Lower(ExtName(originalName))) && TestAllowed(mimeType)
  }

  // ---------------------------------------------------------------------
  // Stored name, URL and the whole middleware
  // ---------------------------------------------------------------------

  /** `${Date.now()}-${file.originalname}`: the clock's numeral, a dash,
      then `file.originalname` unchanged. */
  function StoredName(now: nat, originalName: string): (r: string)
    ensures var d := Decimal.Digits(now);
            && |r| == |d| + 1 + |originalName|
            && r[..|d|] == d && Decimal.AllDigits(r[..|d|])
            && r[|d|] == '-'
            && r[|d| + 1..] == originalName
  {
    Decimal.Digits(now) + "-" + originalName
  }

  /** `/uploads/${filename}`: served from the uploads directory under
      exactly the stored name. */
  function ImageUrl(filename: string): (u: string)
    ensures IsImageUrl(u) && u[|UploadsPrefix|..] == filename
  {
    UploadsPrefix + filename
  }

  /** The URLs the server hands out for stored images. */
  predicate IsImageUrl(u: string) {
    |UploadsPrefix| <= |u| && u[..|UploadsPrefix|] == UploadsPrefix
  }

  /** `upload.single('image')`: multer skips a file part whose file name
      is empty (what a browser sends for a file input left blank), the
      filter runs when a named file part arrives, the size limit while its
      bytes are streamed, and only a file that passes both is stored. */
  function Receive(file: Option<IncomingFile>, now: nat): (r: Received)
    ensures r.NoFile? <==> file.None? || file.value.originalName == ""
    ensures r.Stored? <==> file.Some? && file.value.originalName != ""
                                     && FileFilter(file.value.originalName, file.value.mimeType)
                                     && file.value.size <= MaxFileSize
    ensures r.Stored? ==> r.filename == StoredName(now, file.value.originalName)
    ensures r == Rejected(TooLarge) ==> file.value.size > MaxFileSize
    ensures file.Some? && file.value.originalName != ""
            && !FileFilter(file.value.originalName, file.value.mimeType)
            ==> r == Rejected(NotAnImage)
    ensures file.Some? && file.value.originalName != ""
            && FileFilter(file.value.originalName, file.value.mimeType)
            && file.value.size > MaxFileSize
            ==> r == Rejected(TooLarge)
  {
    match file
    case None => NoFile
    case Some(f) =>
      if f.originalName == "" then NoFile
      else if !FileFilter(f.originalName, f.mimeType) then Rejected(NotAnImage)
      else if f.size > MaxFileSize then Rejected(TooLarge)
      else Stored(StoredName(now, f.originalName))
  }

  // ---------------------------------------------------------------------
  // Properties
  // ---------------------------------------------------------------------

  /** In a stored name the first dash is the one right after the numeral. */
  lemma FirstDash(now: nat, originalName: string)
    ensures StoredName(now, originalName)[|Decimal.Digits(now)|] == '-'
    ensures forall j :: 0 <= j < |Decimal.Digits(now)| ==> StoredName(now, originalName)[j] != '-'
  {
    var d := Decimal.Digits(now);
    forall j | 0 <= j < |d|
      ensures StoredName(now, originalName)[j] != '-'
    {
      assert StoredName(now, originalName)[j] == d[j] && Decimal.IsDigit(d[j]);
    }
  }

  /** Two uploads get the same stored name exactly when they happen in the
      same millisecond with the same original name. */
  lemma StoredNameInjective(t1: nat, n1: string, t2: nat, n2: string)
    ensures StoredName(t1, n1) == StoredName(t2, n2) <==> t1 == t2 && n1 == n2
  {
    if StoredName(t1, n1) == StoredName(t2, n2) {
      var d1, d2 := Decimal.Digits(t1), Decimal.Digits(t2);
      var s := StoredName(t1, n1);
      FirstDash(t1, n1);
      FirstDash(t2, n2);
      assert |d1| == |d2|;
      assert d1 == s[..|d1|] == d2;
      Decimal.DigitsInjective(t1, t2);
      assert n1 == s[|d1| + 1..] == n2;
    }
  }

  /** Every URL built from a stored name is served from the uploads prefix
      and is never empty. */
  lemma ImageUrlShape(filename: string)
    ensures IsImageUrl(ImageUrl(filename)) && |ImageUrl(filename)| > 0
  {
  }

  /** `LastIndexOf` is None when `c` does not occur. */
  lemma LastIndexOfNone(s: string, c: char)
    requires forall j :: 0 <= j < |s| ==> s[j] != c
    ensures LastIndexOf(s, c) == None
  {
  }

  /** `i` is the last index of `c` in `s` when `c` is at `i` and not after. */
  lemma LastIndexOfIs(s: string, c: char, i: nat)
    requires i < |s| && s[i] == c
    requires forall j :: i < j < |s| ==> s[j] != c
    ensures LastIndexOf(s, c) == Some(i)
  {
  }

  /** The last path segment of `p`, when `p` does not end in a slash and
      has none from index `d` on, is a suffix that contains index `d`. */
  lemma BaseNameCovers(p: string, d: nat) returns (k: nat)
    requires d < |p| && p[|p| - 1] != '/'
    requires forall j :: d <= j < |p| ==> p[j] != '/'
    ensures k <= d && BaseName(p) == p[k..]
  {
    assert StripTrailingSlashes(p) == p;
    match LastIndexOf(p, '/')
    case None => k := 0;
    case Some(m) => k := m + 1;
  }

  /** When the last dot of a path lies in its last segment, the extension
      is either empty (a dotfile) or runs from that dot to the end. */
  lemma ExtNameFromLastDot(p: string, d: nat)
    requires d < |p| && p[d] == '.' && p[|p| - 1] != '/'
    requires forall j :: d < j < |p| ==> p[j] != '/' && p[j] != '.'
    ensures ExtName(p) == "" || ExtName(p) == p[d..]
  {
    var k := BaseNameCovers(p, d);
    var b := BaseName(p);
    assert b[d - k] == '.';
    forall j | d - k < j < |b|
      ensures b[j] != '.'
    {
      assert b[j] == p[j + k];
    }
    ExtNameCharacterised(p, d - k);
    assert b[d - k..] == p[d..];
  }

  /** `path.extname` of a path whose last segment has no dot is empty. */
  lemma ExtNameWithoutDot(p: string)
    requires forall j :: 0 <= j < |BaseName(p)| ==> BaseName(p)[j] != '.'
    ensures ExtName(p) == ""
  {
    LastIndexOfNone(BaseName(p), '.');
  }

  /** With `d` the last dot of the last segment, `path.extname` is empty
      exactly when the segment starts with that dot or is "..", and is the
      segment from that dot on otherwise. */
  lemma ExtNameCharacterised(p: string, d: nat)
    requires d < |BaseName(p)| && BaseName(p)[d] == '.'
    requires forall j :: d < j < |BaseName(p)| ==> BaseName(p)[j] != '.'
    ensures ExtName(p) == "" <==> d == 0 || BaseName(p) == ".."
    ensures ExtName(p) != "" ==> ExtName(p) == BaseName(p)[d..]
  {
    LastIndexOfIs(BaseName(p), '.', d);
  }

  /** A lower-cased string has no upper-case ASCII letter. */
  lemma LowerHasNoCapitals(s: string)
    ensures forall i :: 0 <= i < |Lower(s)| ==> !('A' <= Lower(s)[i] <= 'Z')
  {
  }

  /** Lower-casing twice is lower-casing once. */
  lemma LowerIdempotent(s: string)
    ensures Lower(Lower(s)) == Lower(s)
  {
  }

  /** Lower-casing keeps every dot and slash where it was, and puts none
      anywhere else. */
  lemma LowerKeepsSeparators(s: string, j: int)
    requires 0 <= j < |s|
    ensures Lower(s)[j] == '.' <==> s[j] == '.'
    ensures Lower(s)[j] == '/' <==> s[j] == '/'
  {
  }

  /** Lower-casing commutes with taking a suffix or a prefix. */
  lemma LowerSlices(s: string, k: nat)
    requires k <= |s|
    ensures Lower(s[k..]) == Lower(s)[k..]
    ensures Lower(s[..k]) == Lower(s)[..k]
  {
  }

  /** The last dot or slash is found at the same index after lower-casing. */
  lemma LastIndexOfLower(s: string, c: char)
    requires c == '.' || c == '/'
    ensures LastIndexOf(Lower(s), c) == LastIndexOf(s, c)
  {
    forall j | 0 <= j < |s|
      ensures Lower(s)[j] == c <==> s[j] == c
    {
      LowerKeepsSeparators(s, j);
    }
    match LastIndexOf(s, c)
    case None => LastIndexOfNone(Lower(s), c);
    case Some(i) => LastIndexOfIs(Lower(s), c, i);
  }

  /** Trailing slashes are the same before and after lower-casing. */
  lemma {:induction false} StripLower(p: string)
    ensures StripTrailingSlashes(Lower(p)) == Lower(StripTrailingSlashes(p))
  {
    if |p| > 0 {
      LowerKeepsSeparators(p, |p| - 1);
      LowerSlices(p, |p| - 1);
      if p[|p| - 1] == '/' {
        StripLower(p[..|p| - 1]);
      }
    }
  }

  /** The last segment of the lower-cased path is the lower-cased last
      segment. */
  lemma BaseNameLower(p: string)
    ensures BaseName(Lower(p)) == Lower(BaseName(p))
  {
    var q := StripTrailingSlashes(p);
    StripLower(p);
    LastIndexOfLower(q, '/');
    match LastIndexOf(q, '/')
    case None =>
    case Some(k) => LowerSlices(q, k + 1);
  }

  /** `path.extname(name).toLowerCase()` is `path.extname` of the
      lower-cased name: lower-casing moves no dot and no slash. */
  lemma ExtNameLower(p: string)
    ensures ExtName(Lower(p)) == Lower(ExtName(p))
  {
    BaseNameLower(p);
    SegmentExtLower(BaseName(p));
  }

  /** `SegmentExt` commutes with lower-casing. */
  lemma SegmentExtLower(b: string)
    ensures SegmentExt(Lower(b)) == Lower(SegmentExt(b))
  {
    LastIndexOfLower(b, '.');
    assert Lower("") == "";
    match LastIndexOf(b, '.')
    case None =>
    case Some(d) =>
      DotDotLower(b);
      LowerSlices(b, d);
  }

  /** Only ".." lower-cases to "..". */
  lemma DotDotLower(b: string)
    ensures Lower(b) == ".." <==> b == ".."
  {
    if |b| == 2 {
      LowerKeepsSeparators(b, 0);
      LowerKeepsSeparators(b, 1);
    }
  }

  /** The filter ignores the letter case of the file name: two names that
      lower-case alike are accepted or refused together, whatever content
      type is declared. */
  lemma FileFilterIgnoresCase(n1: string, n2: string, mimeType: string)
    requires Lower(n1) == Lower(n2)
    ensures FileFilter(n1, mimeType) == FileFilter(n2, mimeType)
  {
    ExtNameLower(n1);
    ExtNameLower(n2);
  }

  /** The last four characters of a name whose lower-cased ending is
      ".exe": a dot followed by three letters. */
  lemma ExeEnding(originalName: string)
    requires |originalName| >= 4 && Lower(originalName[|originalName| - 4..]) == ".exe"
    ensures originalName[|originalName| - 4] == '.' && originalName[|originalName| - 1] != '/'
    ensures forall j :: |originalName| - 4 < j < |originalName| ==> originalName[j] != '/' && originalName[j] != '.'
  {
    var n := |originalName|;
    var tail := originalName[n - 4..];
    var low := Lower(tail);
    assert low[0] == '.' && low[1] == 'e' && low[2] == 'x' && low[3] == 'e';
    assert forall j :: n - 4 <= j < n ==> originalName[j] == tail[j - n + 4];
  }

  /** Neither ".exe" nor the empty extension contains an allowed word. */
  lemma ExeHasNoWord()
    ensures !ContainsAllowed(".exe") && !ContainsAllowed("")
  {
    NoWordStartNoMatch("");
    NoWordStartNoMatch(".exe");
  }

  /** A name ending in ".exe", in any letter case, is refused whatever
      content type the client declares. */
  lemma ExeNeverAccepted(originalName: string, mimeType: string)
    requires |originalName| >= 4 && Lower(originalName[|originalName| - 4..]) == ".exe"
    ensures !FileFilter(originalName, mimeType)
  {
    var d := |originalName| - 4;
    ExeEnding(originalName);
    ExtNameFromLastDot(originalName, d);
    var ext := ExtName(originalName);
    assert Lower(ext) == "" || Lower(ext) == ".exe";
    ExeHasNoWord();
  }

  /** The extension of a plain file name "stem.ext" is ".ext". */
  lemma ExtNameOfPlainName(stem: string, ext: string)
    requires |stem| > 0 && forall j :: 0 <= j < |stem| ==> stem[j] != '/'
    requires forall j :: 0 <= j < |ext| ==> ext[j] != '/' && ext[j] != '.'
    requires !(stem == "." && ext == "")
    ensures ExtName(stem + "." + ext) == "." + ext
  {
    var name := stem + "." + ext;
    assert forall j :: 0 <= j < |name| ==> name[j] != '/' by {
      forall j | 0 <= j < |name| ensures name[j] != '/' {
        if j < |stem| { assert name[j] == stem[j]; }
        else if j > |stem| { assert name[j] == ext[j - |stem| - 1]; }
      }
    }
    assert StripTrailingSlashes(name) == name;
    assert BaseName(name) == name;
    assert name[|stem|] == '.';
    assert forall j :: |stem| < j < |name| ==> name[j] == ext[j - |stem| - 1];
    assert LastIndexOf(name, '.') == Some(|stem|);
    assert name != "..";
    assert name[|stem|..] == "." + ext;
  }

  /** The letters an allowed word can start with. */
  predicate StartsWord(c: char) {
    c == 'j' || c == 'p' || c == 'g' || c == 'w'
  }

  /** A string in which no allowed word can start contains none. */
  lemma NoWordStartNoMatch(s: string)
    requires forall j :: 0 <= j < |s| ==> !StartsWord(s[j])
    ensures !ContainsAllowed(s)
  {
    assert forall w :: w in AllowedTypes ==> |w| > 0 && StartsWord(w[0]);
    forall w, i: nat | w in AllowedTypes
      ensures !OccursAt(s, i, w)
    {
      if i + |w| <= |s| {
        assert s[i..i + |w|][0] == s[i];
      }
    }
  }

  /** The filter does not lower-case `file.mimetype`: a value without
      lower-case letters, such as "IMAGE/PNG", is refused whatever the file
      is called. */
  lemma UppercaseMimeRefused(originalName: string, mimeType: string)
    requires forall j :: 0 <= j < |mimeType| ==> !('a' <= mimeType[j] <= 'z')
    ensures !FileFilter(originalName, mimeType)
  {
    NoWordStartNoMatch(mimeType);
  }

  /** A name without an extension (no dot, a dotfile such as ".png", or
      "..") is refused, whatever content type is declared. */
  lemma NoExtensionRefused(originalName: string, mimeType: string)
    requires ExtName(originalName) == ""
    ensures !FileFilter(originalName, mimeType)
  {
    assert Lower("") == "";
    NoWordStartNoMatch("");
  }

  /** A part with an empty file name never passes the filter. */
  lemma EmptyNameRefused(mimeType: string)
    ensures !FileFilter("", mimeType)
  {
    assert StripTrailingSlashes("") == "" && BaseName("") == "";
    NoExtensionRefused("", mimeType);
  }

  /** A plain file name "stem.ext" is accepted whenever its lower-cased
      extension contains an allowed word anywhere (".PNG", but also
      ".webpage" or ".png5") and so does the declared content type. */
  lemma PlainNameAccepted(stem: string, ext: string, mimeType: string, w: string, i: nat)
    requires |stem| > 0 && forall j :: 0 <= j < |stem| ==> stem[j] != '/'
    requires forall j :: 0 <= j < |ext| ==> ext[j] != '/' && ext[j] != '.'
    requires w in AllowedTypes && OccursAt(Lower(ext), i, w)
    requires ContainsAllowed(mimeType)
    ensures FileFilter(stem + "." + ext, mimeType)
  {
    ExtNameOfPlainName(stem, ext);
    LowerDotted(ext);
    OccursAfterPrefix(".", Lower(ext), i, w);
  }

  lemma LowerDotted(ext: string)
    ensures Lower("." + ext) == "." + Lower(ext)
  {
  }

  /** An occurrence survives putting a prefix in front. */
  lemma OccursAfterPrefix(u: string, t: string, i: nat, w: string)
    requires OccursAt(t, i, w)
    ensures OccursAt(u + t, |u| + i, w)
  {
    assert (u + t)[|u| + i..|u| + i + |w|] == t[i..i + |w|];
  }

  /** An extension with no dot or slash once lower-cased has none before. */
  lemma NoSeparatorsThroughLower(ext: string)
    requires forall j :: 0 <= j < |ext| ==> Lower(ext)[j] != '/' && Lower(ext)[j] != '.'
    ensures forall j :: 0 <= j < |ext| ==> ext[j] != '/' && ext[j] != '.'
  {
    forall j | 0 <= j < |ext|
      ensures ext[j] != '/' && ext[j] != '.'
    {
      assert Lower(ext)[j] == LowerChar(ext[j]);
    }
  }

  /** "<stem>.png", with the extension in any letter case ("png", "PNG",
      "Png"), declared as "image/png" is accepted. */
  lemma PngAccepted(stem: string, ext: string)
    requires |stem| > 0 && forall j :: 0 <= j < |stem| ==> stem[j] != '/'
    requires Lower(ext) == "png"
    ensures FileFilter(stem + "." + ext, "image/png")
  {
    NoSeparatorsThroughLower(ext);
    assert OccursAt("image/png", 6, "png");
    assert OccursAt(Lower(ext), 0, "png");
    PlainNameAccepted(stem, ext, "image/png", "png", 0);
  }

  /** The pattern is unanchored: "<stem>.webpage", in any letter case, is
      accepted as an image when declared as "image/webp". */
  lemma WebpageAccepted(stem: string, ext: string)
    requires |stem| > 0 && forall j :: 0 <= j < |stem| ==> stem[j] != '/'
    requires Lower(ext) == "webpage"
    ensures FileFilter(stem + "." + ext, "image/webp")
  {
    NoSeparatorsThroughLower(ext);
    assert OccursAt("image/webp", 6, "webp");
    assert Lower(ext)[..4] == "webp";
    assert OccursAt(Lower(ext), 0, "webp");
    PlainNameAccepted(stem, ext, "image/webp", "webp", 0);
  }

  /** Names without an extension: no dot, or a dotfile. */
  lemma NoExtensionExamples()
    ensures ExtName(".png") == "" && ExtName("png") == ""
  {
    assert LastIndexOf(".png", '/') == None;
    assert StripTrailingSlashes(".png") == ".png";
    assert ".png"[0] == '.' && forall j :: 0 < j < 4 ==> ".png"[j] != '.';
    assert LastIndexOf(".png", '.') == Some(0);
    assert LastIndexOf("png", '/') == None && StripTrailingSlashes("png") == "png";
    assert LastIndexOf("png", '.') == None;
  }
}
