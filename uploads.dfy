/** The parsing of an uploaded file's URL that `addDocument`, `addAssignment` and
    `addAssignmentSubmission` share, and the shorter form `editSchool` applies to a logo:
    the URL must lie under the school system's Cloudinary account, its last path segment
    names the file, and the file's extension decides how the file is looked up. */
module Uploads {
  import opened Common
  import opened Text

  datatype ResourceType = Image | Video | Raw

  /** What the parse hands to the Cloudinary lookup: the kind of resource, the public id
      and the extension (`undefined` in JavaScript when the name has no dot). */
  datatype Upload = Upload(kind: ResourceType, publicId: string, format: Option<string>)

  function CloudPrefix(cloudName: string): string {
    "https://res.cloudinary.com/" + cloudName + "/"
  }

  predicate StartsWith(s: string, p: string) {
    |p| <= |s| && s[..|p|] == p
  }

  function Last(parts: seq<string>): string
    requires |parts| >= 1
  {
    parts[|parts| - 1]
  }

  /** `url.split("/").pop()`. */
  function LastSegment(url: string): string {
    Last(Split(url, '/'))
  }

  /** `publicIdAndFormat.split(".")[0]`. */
  function BaseName(name: string): string {
    Split(name, '.')[0]
  }

  /** `publicIdAndFormat.split(".")[1]`. */
  function Extension(name: string): Option<string> {
    var parts := Split(name, '.');
    if |parts| >= 2 then Some(parts[1]) else None
  }

  predicate ImageFormat(format: Option<string>) {
    format == Some("png") || format == Some("jpg") || format == Some("jpeg")
  }

  predicate VideoFormat(format: Option<string>) {
    format == Some("mp4") || format == Some("webm") || format == Some("ogg") || format == Some("mov")
  }

  /** String concatenation turns a missing extension into the text `undefined`. */
  function FormatText(format: Option<string>): string {
    if format.Some? then format.value else "undefined"
  }

  /** The kind follows the extension: images and videos by their fixed lists, everything
      else raw. */
  function Classify(format: Option<string>): (r: ResourceType)
    ensures r == Image <==> ImageFormat(format)
    ensures r == Video <==> VideoFormat(format)
    ensures r == Raw <==> !ImageFormat(format) && !VideoFormat(format)
  {
    if ImageFormat(format) then Image else if VideoFormat(format) then Video else Raw
  }

  /** The shared parse. `None` is the 400 "Invalid file url" answer: a URL outside the
      account, or one whose last segment is empty. A raw file keeps its extension in its
      public id. */
  function ParseUploadUrl(url: string, cloudName: string): (r: Option<Upload>)
    ensures r.None? <==> !StartsWith(url, CloudPrefix(cloudName)) || LastSegment(url) == ""
    ensures r.Some? ==> r.value.kind == Classify(r.value.format) && r.value.format == Extension(LastSegment(url))
    ensures r.Some? && r.value.kind != Raw ==> r.value.publicId == BaseName(LastSegment(url))
    ensures r.Some? && r.value.kind == Raw ==>
      r.value.publicId == BaseName(LastSegment(url)) + "." + FormatText(r.value.format)
  {
    if !StartsWith(url, CloudPrefix(cloudName)) then None
    else
      var name := LastSegment(url);
      if name == "" then None
      else
        var id := BaseName(name);
        var format := Extension(name);
        var kind := Classify(format);
        Some(Upload(kind, if kind == Raw then id + "." + FormatText(format) else id, format))
  }

  /** `editSchool`'s logo id: the text before the first dot of the last segment, with no
      check that the segment is empty. */
  function LogoPublicId(url: string, cloudName: string): (r: Option<string>)
    ensures r.None? <==> !StartsWith(url, CloudPrefix(cloudName))
    ensures r.Some? ==> r.value == BaseName(LastSegment(url))
  {
    if !StartsWith(url, CloudPrefix(cloudName)) then None else Some(BaseName(LastSegment(url)))
  }

  // ---------------------------------------------------------------------------------------------
  // What the pieces are

  lemma {:induction false} LastOfSplitAfter(x: string, c: char, y: string)
    ensures Last(Split(x + [c] + y, c)) == Last(Split(y, c))
    decreases |x|
  {
    var s := x + [c] + y;
    assert s[|x|] == c;
    var r := CharIndex(s, c);
    assert r.Some?;
    var i := r.value;
    var rest := Split(s[i + 1..], c);
    assert Split(s, c) == [s[..i]] + rest;
    assert Last([s[..i]] + rest) == Last(rest);
    if i < |x| {
      assert s[i + 1..] == x[i + 1..] + [c] + y;
      LastOfSplitAfter(x[i + 1..], c, y);
    } else {
      assert s[i + 1..] == y;
    }
  }

  lemma StartsWithAppend(a: string, b: string, p: string)
    requires StartsWith(a, p)
    ensures StartsWith(a + b, p)
  {
    assert (a + b)[..|p|] == a[..|p|];
  }

  lemma SplitNone(y: string, c: char)
    requires NoChar(y, c)
    ensures Split(y, c) == [y]
  {
    SplitJoin([y], c);
  }

  /** The file name is everything after the URL's last slash. */
  lemma LastSegmentIsFileName(folder: string, name: string)
    requires NoChar(name, '/')
    ensures LastSegment(folder + "/" + name) == name
  {
    LastOfSplitAfter(folder, '/', name);
    SplitNone(name, '/');
  }

  /** The id and the extension, read back: the id is the name up to its first dot, the
      extension what follows up to the next dot or the end, and neither holds a dot. */
  lemma NameParts(name: string)
    ensures NoChar(BaseName(name), '.')
    ensures Extension(name).None? ==> name == BaseName(name)
    ensures Extension(name).Some? ==>
      NoChar(Extension(name).value, '.') &&
      StartsWith(name, BaseName(name) + "." + Extension(name).value) &&
      (|name| == |BaseName(name)| + 1 + |Extension(name).value| || name[|BaseName(name)| + 1 + |Extension(name).value|] == '.')
  {
    var parts := Split(name, '.');
    JoinSplit(name, '.');
    if |parts| == 1 {
    } else {
      var p0, p1 := parts[0], parts[1];
      assert name == p0 + "." + Join(parts[1..], ".");
      if |parts| == 2 {
        assert name == p0 + "." + p1;
        assert name[..|p0 + "." + p1|] == p0 + "." + p1;
      } else {
        var more := Join(parts[2..], ".");
        assert Join(parts[1..], ".") == p1 + "." + more;
        assert name == (p0 + "." + p1) + "." + more;
        assert name[..|p0 + "." + p1|] == p0 + "." + p1;
      }
    }
  }

  /** The URL of a file `id.format` uploaded into a folder of the account parses back to
      the id and the extension; an image or a video keeps the bare id, anything else the
      full file name. */
  lemma ParseRoundTrip(cloudName: string, folder: string, id: string, format: string)
    requires StartsWith(folder + "/", CloudPrefix(cloudName))
    requires NoChar(id, '/') && NoChar(id, '.') && NoChar(format, '/') && NoChar(format, '.')
    ensures ParseUploadUrl(folder + "/" + id + "." + format, cloudName) ==
      Some(Upload(Classify(Some(format)), if Classify(Some(format)) == Raw then id + "." + format else id, Some(format)))
  {
    var name := id + "." + format;
    var url := folder + "/" + name;
    assert url == (folder + "/") + name;
    assert folder + "/" + id + "." + format == url;
    StartsWithAppend(folder + "/", name, CloudPrefix(cloudName));
    assert NoChar(name, '/') by {
      forall k | 0 <= k < |name| ensures name[k] != '/' {
        if k < |id| { assert name[k] == id[k]; }
        else if k > |id| { assert name[k] == format[k - |id| - 1]; }
      }
    }
    assert url == folder + "/" + name;
    LastSegmentIsFileName(folder, name);
    assert Join([id, format], ".") == name;
    SplitJoin([id, format], '.');
  }

  /** A file name without a dot is looked up as a raw file called `name.undefined`. */
  lemma NoExtensionIsUndefined(cloudName: string, folder: string, name: string)
    requires StartsWith(folder + "/", CloudPrefix(cloudName))
    requires name != "" && NoChar(name, '/') && NoChar(name, '.')
    ensures ParseUploadUrl(folder + "/" + name, cloudName) == Some(Upload(Raw, name + ".undefined", None))
  {
    var url := folder + "/" + name;
    StartsWithAppend(folder + "/", name, CloudPrefix(cloudName));
    LastSegmentIsFileName(folder, name);
    SplitNone(name, '.');
    assert name + "." + "undefined" == name + ".undefined";
  }

  /** The logo id is the upload's id for images and videos, the upload's id less its
      extension for raw files, and the empty text where the upload parse refuses an empty
      last segment. */
  lemma LogoIdAgrees(url: string, cloudName: string)
    requires StartsWith(url, CloudPrefix(cloudName))
    ensures ParseUploadUrl(url, cloudName).None? ==> LogoPublicId(url, cloudName) == Some("")
    ensures ParseUploadUrl(url, cloudName).Some? && ParseUploadUrl(url, cloudName).value.kind != Raw ==>
      LogoPublicId(url, cloudName) == Some(ParseUploadUrl(url, cloudName).value.publicId)
    ensures ParseUploadUrl(url, cloudName).Some? && ParseUploadUrl(url, cloudName).value.kind == Raw ==>
      ParseUploadUrl(url, cloudName).value.publicId ==
        LogoPublicId(url, cloudName).value + "." + FormatText(ParseUploadUrl(url, cloudName).value.format)
  {
    if LastSegment(url) == "" {
      SplitNone("", '.');
    }
  }
}
