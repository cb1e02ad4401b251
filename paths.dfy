/**
 * The string rules the tool applies to file names around the codec: the
 * extension dispatch of the convert command, the upload filter, the
 * directory-listing filter and the data-URL split. Paths are Unix paths
 * ('/' is the only separator); lower-casing is ASCII lower-casing.
 */
module Paths {
  import opened Wrappers
  import opened Collaborators

  const HuhExt: string := ".huh"

  function LowerChar(c: char): char
  {
    if 'A' <= c <= 'Z' then (c as int + 32) as char else c
  }

  /**
   * strings.ToLower, character by character: the length is kept, no ASCII
   * capital survives, and every character either stays or is its capital's
   * lower-case partner (32 code points on).
   */
  function ToLower(s: string): (r: string)
    ensures |r| == |s|
    ensures forall i :: 0 <= i < |r| ==> !('A' <= r[i] <= 'Z')
    ensures forall i :: 0 <= i < |r| ==> r[i] == s[i] || ('A' <= s[i] <= 'Z' && r[i] as int == s[i] as int + 32)
  {
    seq(|s|, i requires 0 <= i < |s| => LowerChar(s[i]))
  }

  /** strings.HasSuffix: `s` ends in `suffix`, that is, `suffix` is what remains of `s` after some prefix. */
  predicate HasSuffix(s: string, suffix: string)
    ensures HasSuffix(s, suffix) <==> exists k :: 0 <= k <= |s| && s[k..] == suffix
  {
    var k := |s| - |suffix|;
    |suffix| <= |s| && s[k..] == suffix
  }

  /** ".huh" written in any mix of upper and lower case. */
  predicate HuhInAnyCase(e: string)
  {
    && |e| == 4 && e[0] == '.'
    && (e[1] == 'h' || e[1] == 'H')
    && (e[2] == 'u' || e[2] == 'U')
    && (e[3] == 'h' || e[3] == 'H')
  }

  /**
   * filepath.Ext: scanning back from the end of the path, the suffix that
   * starts at the first '.' met, or "" when a '/' or the start comes first.
   */
  function Ext(path: string): (ext: string)
    ensures ext != "" ==> HasSuffix(path, ext) && ext[0] == '.' && '/' !in ext && '.' !in ext[1..]
    ensures ext == "" ==> forall k :: 0 <= k < |path| && (forall m :: k < m < |path| ==> path[m] != '/') ==> path[k] != '.'
  {
    ExtWithin(path, |path|)
  }

  function ExtWithin(path: string, i: nat): (ext: string)
    requires i <= |path|
    requires forall k :: i <= k < |path| ==> path[k] != '/' && path[k] != '.'
    ensures ext != "" ==> |ext| <= |path| && ext == path[|path| - |ext|..]
    ensures ext != "" ==> ext[0] == '.' && '/' !in ext && '.' !in ext[1..]
    ensures ext == "" ==> forall k :: 0 <= k < i && (forall m :: k < m < i ==> path[m] != '/') ==> path[k] != '.'
    decreases i
  {
    if i == 0 || path[i - 1] == '/' then ""
    else if path[i - 1] == '.' then path[i - 1..]
    else ExtWithin(path, i - 1)
  }

  /** The test of the upload handler and of the convert command: the lower-cased extension is ".huh". */
  predicate IsHuhPath(path: string)
    ensures IsHuhPath(path) <==> HuhInAnyCase(Ext(path))
  {
    ToLower(Ext(path)) == HuhExt
  }

  /** The test of the listing handler: the lower-cased name ends in ".huh". */
  predicate HasHuhSuffix(name: string)
    ensures HasHuhSuffix(name) <==> |name| >= 4 && HuhInAnyCase(name[|name| - 4..])
  {
    HasSuffix(ToLower(name), HuhExt)
  }

  /** Scanning back from j, past characters that are neither '/' nor '.', stops at the '.' at i - 1. */
  lemma {:induction false} ExtWithinReachesDot(path: string, i: nat, j: nat)
    requires 1 <= i <= j <= |path|
    requires path[i - 1] == '.'
    requires forall k :: i <= k < |path| ==> path[k] != '/' && path[k] != '.'
    ensures ExtWithin(path, j) == path[i - 1..]
    decreases j - i
  {
    if j > i {
      ExtWithinReachesDot(path, i, j - 1);
    }
  }

  /** A ".huh" extension in any case makes the lower-cased name end in ".huh". */
  lemma HuhExtGivesSuffix(path: string)
    requires IsHuhPath(path)
    ensures HasHuhSuffix(path)
  {
    var ext := Ext(path);
    var n := |path|;
    assert |ext| == 4 && HasSuffix(path, ext);
    assert ext == path[n - 4..];
    forall k | n - 4 <= k < n
      ensures ToLower(path)[k] == ToLower(ext)[k - (n - 4)]
    {
    }
  }

  /** A lower-cased name ending in ".huh" has the extension ".huh" in some case. */
  lemma SuffixGivesHuhExt(path: string)
    requires HasHuhSuffix(path)
    ensures IsHuhPath(path)
  {
    var n := |path|;
    var tail := path[n - 4..];
    assert HuhInAnyCase(tail);
    assert path[n - 4] == tail[0] == '.';
    forall k | n - 3 <= k < n
      ensures path[k] != '/' && path[k] != '.'
    {
      assert path[k] == tail[k - (n - 4)];
    }
    ExtWithinReachesDot(path, n - 3, n);
  }

  /**
   * The two filters agree on every name: the lower-cased extension is ".huh"
   * exactly when the lower-cased name ends in ".huh".
   */
  lemma ExtTestIsSuffixTest(path: string)
    ensures IsHuhPath(path) <==> HasHuhSuffix(path)
  {
    if IsHuhPath(path) {
      HuhExtGivesSuffix(path);
    }
    if HasHuhSuffix(path) {
      SuffixGivesHuhExt(path);
    }
  }

  function TrimTrailingSlashes(path: string): (p: string)
    ensures |p| <= |path| && p == path[..|p|]
    ensures p == "" || p[|p| - 1] != '/'
    ensures forall k :: |p| <= k < |path| ==> path[k] == '/'
  {
    if path != "" && path[|path| - 1] == '/' then TrimTrailingSlashes(path[..|path| - 1]) else path
  }

  function AfterLastSlash(path: string): (name: string)
    ensures '/' !in name
    ensures path != "" && path[|path| - 1] != '/' ==> name != ""
    ensures |name| <= |path| && name == path[|path| - |name|..]
    ensures |name| < |path| ==> path[|path| - |name| - 1] == '/'
  {
    if path == "" || path[|path| - 1] == '/' then ""
    else AfterLastSlash(path[..|path| - 1]) + [path[|path| - 1]]
  }

  /**
   * filepath.Base: "." for the empty path, "/" for a path of slashes only,
   * and otherwise the last element once trailing slashes are dropped.
   */
  function Base(path: string): (name: string)
    ensures name != ""
    ensures name == "/" || '/' !in name
    ensures path == "" ==> name == "."
    ensures path != "" && TrimTrailingSlashes(path) == "" ==> name == "/"
    ensures TrimTrailingSlashes(path) != "" ==>
      var trimmed := TrimTrailingSlashes(path);
      HasSuffix(trimmed, name) && (|name| < |trimmed| ==> trimmed[|trimmed| - |name| - 1] == '/')
  {
    if path == "" then "."
    else
      var trimmed := TrimTrailingSlashes(path);
      if trimmed == "" then "/" else AfterLastSlash(trimmed)
  }

  /**
   * Base undoes a join: a name without '/' is its own base, and so is the
   * name at the end of any directory path; hence taking the base twice
   * changes nothing.
   */
  lemma BaseOfJoin(dir: string, name: string)
    requires name != "" && '/' !in name
    ensures Base(name) == name
    ensures Base(dir + "/" + name) == name
    ensures Base(Base(dir + "/" + name)) == Base(dir + "/" + name)
  {
    var path := dir + "/" + name;
    assert TrimTrailingSlashes(path) == path;
    assert TrimTrailingSlashes(name) == name;
    AfterLastSlashOfJoin(dir, name);
    AfterLastSlashOfJoin("", name);
    assert "" + "/" + name == "/" + name;
  }

  lemma {:induction false} AfterLastSlashOfJoin(dir: string, name: string)
    requires '/' !in name
    ensures AfterLastSlash(dir + "/" + name) == name
    decreases |name|
  {
    var path := dir + "/" + name;
    if name == "" {
      assert path[|path| - 1] == '/';
    } else {
      var front := name[..|name| - 1];
      assert path[..|path| - 1] == dir + "/" + front;
      assert '/' !in front by {
        forall c | c in front ensures c != '/' { assert c in name; }
      }
      AfterLastSlashOfJoin(dir, front);
      assert name == front + [name[|name| - 1]];
    }
  }

  /**
   * The upload handler: the client's file name is cut down to its last
   * element and kept only when its extension is ".huh" in any case.
   */
  function UploadName(filename: string): (r: Option<string>)
    ensures r.Some? ==> r.value != "" && '/' !in r.value
    ensures r.Some? <==> HasHuhSuffix(Base(filename))
    ensures r.Some? ==> r.value == Base(filename)
  {
    var sanitized := Base(filename);
    ExtTestIsSuffixTest(sanitized);
    if IsHuhPath(sanitized) then Some(sanitized) else None
  }

  /** The encoders behind the output extensions of the convert command. */
  datatype RasterFormat = Png | Jpeg | Gif | UnsupportedFormat(ext: string)

  function OutputFormat(ext: string): (f: RasterFormat)
    ensures f.UnsupportedFormat? <==> ext !in {".png", ".jpg", ".jpeg", ".gif"}
    ensures f.UnsupportedFormat? ==> f.ext == ext
  {
    if ext == ".png" then Png
    else if ext == ".jpg" || ext == ".jpeg" then Jpeg
    else if ext == ".gif" then Gif
    else UnsupportedFormat(ext)
  }

  /**
   * The branches of the convert command: decode a .huh file into a raster
   * format, encode a raster file into .huh with the input's base name as
   * metadata, convert between raster formats, or refuse .huh to .huh.
   */
  datatype ConvertPlan =
    | DecodeHuh(format: RasterFormat)
    | EncodeHuh(meta: Metadata)
    | ConvertRaster
    | RejectHuhToHuh

  function ConvertDispatch(inputPath: string, outputPath: string): (plan: ConvertPlan)
    ensures plan.DecodeHuh? || plan.RejectHuhToHuh? <==> IsHuhPath(inputPath)
    ensures plan.EncodeHuh? || plan.RejectHuhToHuh? <==> IsHuhPath(outputPath)
  {
    var inputExt, outputExt := ToLower(Ext(inputPath)), ToLower(Ext(outputPath));
    if inputExt == HuhExt && outputExt != HuhExt then DecodeHuh(OutputFormat(outputExt))
    else if inputExt != HuhExt && outputExt == HuhExt then EncodeHuh(map["source_file" := Base(inputPath)])
    else if inputExt != HuhExt && outputExt != HuhExt then ConvertRaster
    else RejectHuhToHuh
  }

  /**
   * Each pair of paths takes the branch its two names select, judged by
   * whether each lower-cased name ends in ".huh"; .huh to .huh is always
   * refused, and a decode writes the format named by the output extension.
   */
  lemma ConvertDispatchCases(inputPath: string, outputPath: string)
    ensures var plan := ConvertDispatch(inputPath, outputPath);
      && (plan.DecodeHuh? <==> HasHuhSuffix(inputPath) && !HasHuhSuffix(outputPath))
      && (plan.EncodeHuh? <==> !HasHuhSuffix(inputPath) && HasHuhSuffix(outputPath))
      && (plan.ConvertRaster? <==> !HasHuhSuffix(inputPath) && !HasHuhSuffix(outputPath))
      && (plan.RejectHuhToHuh? <==> HasHuhSuffix(inputPath) && HasHuhSuffix(outputPath))
      && (plan.DecodeHuh? ==> plan.format == OutputFormat(ToLower(Ext(outputPath))))
      && (plan.DecodeHuh? ==> (plan.format.UnsupportedFormat? <==> ToLower(Ext(outputPath)) !in {".png", ".jpg", ".jpeg", ".gif"}))
      && (plan.EncodeHuh? ==> plan.meta == map["source_file" := Base(inputPath)])
  {
    ExtTestIsSuffixTest(inputPath);
    ExtTestIsSuffixTest(outputPath);
  }

  /** One entry of the directory being listed. */
  datatype DirEntry = DirEntry(name: string, isDir: bool)

  /** The listing handler's test: not a directory, and the lower-cased name ends in ".huh". */
  predicate Listed(entry: DirEntry)
  {
    !entry.isDir && HasHuhSuffix(entry.name)
  }

  /** For an entry that is not a directory, the listing test is the upload handler's extension test. */
  lemma ListedIsUploadTest(entry: DirEntry)
    ensures Listed(entry) <==> !entry.isDir && IsHuhPath(entry.name)
  {
    ExtTestIsSuffixTest(entry.name);
  }

  /** The names kept by the listing filter, in directory order. */
  function HuhNames(entries: seq<DirEntry>): (names: seq<string>)
    ensures forall name :: name in names ==> HasHuhSuffix(name)
  {
    if entries == [] then []
    else
      var last := entries[|entries| - 1];
      HuhNames(entries[..|entries| - 1]) + (if Listed(last) then [last.name] else [])
  }

  /**
   * The listing handler's loop: every entry that is not a directory and
   * whose lower-cased name ends in ".huh" is appended, in directory order.
   */
  method ListHuhFiles(entries: seq<DirEntry>) returns (names: seq<string>)
    ensures names == HuhNames(entries)
  {
    names := [];
    for i := 0 to |entries|
      invariant names == HuhNames(entries[..i])
    {
      var entry := entries[i];
      if !entry.isDir && HasSuffix(ToLower(entry.name), HuhExt) {
        names := names + [entry.name];
      }
      assert entries[..i + 1][..i] == entries[..i];
    }
    assert entries[..|entries|] == entries;
  }

  /** Every listed name is carried by some entry the listing filter accepts, and the list is no longer than the directory. */
  lemma {:induction false} HuhNamesFromEntries(entries: seq<DirEntry>, name: string)
    ensures |HuhNames(entries)| <= |entries|
    ensures name in HuhNames(entries) ==> exists k :: 0 <= k < |entries| && Listed(entries[k]) && entries[k].name == name
  {
    if entries != [] {
      var front, last := entries[..|entries| - 1], entries[|entries| - 1];
      HuhNamesFromEntries(front, name);
      assert HuhNames(entries) == HuhNames(front) + (if Listed(last) then [last.name] else []);
      if name in HuhNames(front) {
        var k :| 0 <= k < |front| && Listed(front[k]) && front[k].name == name;
        assert entries[k] == front[k];
      } else if name in HuhNames(entries) {
        assert Listed(last) && last.name == name;
      }
    }
  }

  /** Every entry the listing filter accepts has its name listed. */
  lemma {:induction false} HuhNamesKeepsListed(entries: seq<DirEntry>, k: nat)
    requires k < |entries| && Listed(entries[k])
    ensures entries[k].name in HuhNames(entries)
  {
    var front := entries[..|entries| - 1];
    if k < |front| {
      assert front[k] == entries[k];
      HuhNamesKeepsListed(front, k);
    }
  }

  /** A name is listed exactly when some non-directory entry carries it and it ends in ".huh" in any case. */
  lemma HuhNamesMembers(entries: seq<DirEntry>, name: string)
    ensures |HuhNames(entries)| <= |entries|
    ensures name in HuhNames(entries) <==> exists k :: 0 <= k < |entries| && Listed(entries[k]) && entries[k].name == name
  {
    HuhNamesFromEntries(entries, name);
    if exists k :: 0 <= k < |entries| && Listed(entries[k]) && entries[k].name == name {
      var k :| 0 <= k < |entries| && Listed(entries[k]) && entries[k].name == name;
      HuhNamesKeepsListed(entries, k);
    }
  }

  /** A name the upload filter accepts is one the listing filter shows. */
  lemma UploadedFileIsListed(filename: string)
    requires UploadName(filename).Some?
    ensures Listed(DirEntry(UploadName(filename).value, false))
  {
  }

  /** strings.IndexByte: the first position holding c, or -1. */
  function IndexByte(s: string, c: char): (i: int)
    ensures -1 <= i < |s|
    ensures i == -1 <==> c !in s
    ensures 0 <= i ==> s[i] == c && c !in s[..i]
  {
    if s == [] then -1
    else if s[0] == c then 0
    else
      var k := IndexByte(s[1..], c);
      assert s[1..][..if k < 0 then 0 else k] == s[1..if k < 0 then 1 else k + 1];
      if k == -1 then -1 else k + 1
  }

  /** The upload handler's base64 payload: what follows the first ',' of the data URL. */
  function DataUrlPayload(image: string): (payload: string)
    ensures HasSuffix(image, payload)
    ensures ',' !in image ==> payload == image
    ensures ',' in image ==> |payload| < |image| && image[|image| - |payload| - 1] == ','
  {
    image[IndexByte(image, ',') + 1..]
  }

  /**
   * Without a comma the whole string is taken as payload; otherwise the
   * string is a comma-free prefix, one ',' and the payload.
   */
  lemma DataUrlPayloadSplit(image: string)
    ensures ',' !in image ==> DataUrlPayload(image) == image
    ensures ',' in image ==> |DataUrlPayload(image)| < |image|
    ensures ',' in image ==>
      var payload := DataUrlPayload(image);
      var prefix := image[..|image| - |payload| - 1];
      ',' !in prefix && image == prefix + [','] + payload
  {
    var i := IndexByte(image, ',');
    if i >= 0 {
      assert image == image[..i] + [','] + image[i + 1..];
    }
  }
}
