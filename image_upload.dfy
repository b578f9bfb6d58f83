/**
 * ImageUploadService: recovering a Cloudinary public id from a delivery URL, and the set of
 * ids a bulk removal asks Cloudinary to destroy.
 */
module ImageUpload {
  import opened Wrappers
  import opened Text

  /** A version segment: 'v' followed by one or more ASCII digits. */
  predicate IsVersionSegment(s: string) {
    |s| >= 2 && s[0] == 'v' && IsDigits(s[1..])
  }

  /** Drops a leading version segment; any other first segment, 'v' alone included, stays. */
  function DropVersion(segments: seq<string>): (r: seq<string>)
    ensures |segments| > 0 && IsVersionSegment(segments[0]) ==> r == segments[1..]
    ensures !(|segments| > 0 && IsVersionSegment(segments[0])) ==> r == segments
  {
    if |segments| > 0 && segments[0] != "" && StartsWith(segments[0], "v") && |segments[0]| >= 2 && IsDigits(segments[0][1..])
    then segments[1..]
    else segments
  }

  /** Cuts the text from the last '.' on, unless that '.' is the first character or there is none. */
  function StripExtension(s: string): (r: string)
    ensures |r| <= |s| && r == s[..|r|]
  {
    var dot := LastIndexOf(s, '.');
    if dot > 0 then s[..dot] else s
  }

  /** Adding an extension to a non-empty id and stripping it gives the id back. */
  lemma StripExtensionRoundTrip(id: string, ext: string)
    requires |id| > 0 && '.' !in ext
    ensures StripExtension(id + "." + ext) == id
  {
    var s := id + "." + ext;
    assert s[|id|] == '.';
    var dot := LastIndexOf(s, '.');
    forall k | dot < k < |s| ensures s[k] != '.' {
      assert s[k] == s[dot + 1..][k - dot - 1];
    }
    forall k | |id| < k < |s| ensures s[k] != '.' {
      assert s[k] == ext[k - |id| - 1];
    }
    assert dot == |id|;
    assert s[..|id|] == id;
  }

  /** A name whose only '.' is its first character, or that has no '.', keeps its whole text. */
  lemma StripExtensionKeepsDotFiles(s: string)
    requires '.' !in s || ('.' == s[0] && '.' !in s[1..])
    ensures StripExtension(s) == s
  {
    forall k | 1 <= k < |s| ensures s[k] != '.' {
      assert s[k] == s[1..][k - 1];
    }
  }

  /**
   * The public id inside a URL path: the segments after the first 'upload', without a
   * leading version segment, joined by '/', with the extension cut off.
   */
  function PublicIdFromPath(pathname: string): (r: Option<string>)
    ensures r.None? <==> "upload" !in Split(pathname, '/')
  {
    var parts := Split(pathname, '/');
    var at := IndexOf(parts, "upload");
    if at == -1 then None
    else Some(StripExtension(Join(DropVersion(parts[at + 1..]), "/")))
  }

  /**
   * extractPublicIdFromUrl. `pathnameOf` is the WHATWG URL parser: the pathname, or `None`
   * where `new URL` throws, which the extractor turns into null.
   */
  function ExtractPublicIdFromUrl(url: string, pathnameOf: string -> Option<string>): (r: Option<string>)
    ensures pathnameOf(url).None? ==> r.None?
    ensures pathnameOf(url).Some? ==> (r.None? <==> "upload" !in Split(pathnameOf(url).value, '/'))
  {
    match pathnameOf(url)
    case None => None
    case Some(pathname) => PublicIdFromPath(pathname)
  }

  /** The first occurrence of `x` in `pre + [x] + post` is right after `pre` when `pre` lacks it. */
  lemma {:induction false} IndexOfAfter(pre: seq<string>, x: string, post: seq<string>)
    requires x !in pre
    ensures IndexOf(pre + [x] + post, x) == |pre|
  {
    if |pre| > 0 {
      assert (pre + [x] + post)[1..] == pre[1..] + [x] + post;
      IndexOfAfter(pre[1..], x, post);
    }
  }

  /** Joining `[a] + rest` with a separator puts `a` and the separator in front of the rest. */
  lemma JoinCons(a: string, rest: seq<string>, sep: string)
    requires |rest| > 0
    ensures Join([a] + rest, sep) == a + sep + Join(rest, sep)
  {
    assert ([a] + rest)[1..] == rest;
  }

  /** A segment, then '/', then the rest of a path. */
  function Seg(a: string, rest: string): string {
    a + "/" + rest
  }

  /**
   * The path Cloudinary delivers an image under: cloud name, 'image/upload', an optional
   * version segment, then the public id with its extension, one '/' in front of each.
   */
  function DeliveryPath(cloud: string, version: Option<string>, id: string, ext: string): string {
    Seg("", Seg(cloud, Seg("image", Seg("upload", VersionedTail(version, id + "." + ext)))))
  }

  /** What follows 'upload/': the version segment and a '/', when there is a version, then the tail. */
  function VersionedTail(version: Option<string>, tail: string): string {
    if version.Some? then Seg("v" + version.value, tail) else tail
  }

  /** A separator-free segment in front of a path splits off as the first segment. */
  lemma SplitSeg(a: string, rest: string)
    requires '/' !in a
    ensures Split(Seg(a, rest), '/') == [a] + Split(rest, '/')
  {
    assert Seg(a, rest) == a + ['/'] + rest;
    SplitAtSeparator(a, '/', rest);
  }

  /** How the delivery path splits: four fixed pieces, then the segments after 'upload'. */
  lemma SplitDeliveryPath(cloud: string, version: Option<string>, id: string, ext: string)
    requires '/' !in cloud
    requires version.Some? ==> '/' !in version.value
    ensures Split(DeliveryPath(cloud, version, id, ext), '/') ==
              ["", cloud, "image", "upload"] + AfterUpload(version, id + "." + ext)
  {
    var rest := VersionedTail(version, id + "." + ext);
    var after := AfterUpload(version, id + "." + ext);
    SplitVersionedTail(version, id + "." + ext);
    SplitSeg("upload", rest);
    SplitSeg("image", Seg("upload", rest));
    SplitSeg(cloud, Seg("image", Seg("upload", rest)));
    SplitSeg("", Seg(cloud, Seg("image", Seg("upload", rest))));
    assert [""] + ([cloud] + ([ "image"] + (["upload"] + after))) == ["", cloud, "image", "upload"] + after;
  }

  /** The part after 'upload/' splits into the version segment, if any, and the tail's segments. */
  lemma SplitVersionedTail(version: Option<string>, tail: string)
    requires version.Some? ==> '/' !in version.value
    ensures Split(VersionedTail(version, tail), '/') == AfterUpload(version, tail)
  {
    if version.Some? {
      assert '/' !in "v" + version.value;
      SplitSeg("v" + version.value, tail);
    }
  }

  /** The segments of a delivery path after 'upload'. */
  function AfterUpload(version: Option<string>, tail: string): seq<string> {
    if version.Some? then ["v" + version.value] + Split(tail, '/') else Split(tail, '/')
  }

  /** The first 'upload' of a delivery path is its fourth segment, the cloud name not being one. */
  lemma UploadAtFour(cloud: string, after: seq<string>)
    requires cloud != "upload"
    ensures IndexOf(["", cloud, "image", "upload"] + after, "upload") == 3
    ensures (["", cloud, "image", "upload"] + after)[4..] == after
  {
    assert ["", cloud, "image", "upload"] + after == ["", cloud, "image"] + ["upload"] + after;
    IndexOfAfter(["", cloud, "image"], "upload", after);
  }

  /** Skipping the version segment after 'upload' leaves the tail's segments. */
  lemma DropVersionAfterUpload(version: Option<string>, tail: string)
    requires version.Some? ==> |version.value| > 0 && IsDigits(version.value)
    requires version.None? ==> !IsVersionSegment(Split(tail, '/')[0])
    ensures DropVersion(AfterUpload(version, tail)) == Split(tail, '/')
  {
    if version.Some? {
      assert ("v" + version.value)[1..] == version.value;
      assert IsVersionSegment(AfterUpload(version, tail)[0]);
    }
  }

  /**
   * extractPublicIdFromUrl recovers the public id from any delivery path: the version segment
   * is skipped when present, a missing one is not looked for in the id, and the extension is
   * cut off.
   */
  lemma PublicIdRoundTrip(cloud: string, version: Option<string>, id: string, ext: string)
    requires '/' !in cloud && cloud != "upload"
    requires version.Some? ==> |version.value| > 0 && IsDigits(version.value) && '/' !in version.value
    requires |id| > 0 && '.' !in ext
    requires version.None? ==> !IsVersionSegment(Split(id + "." + ext, '/')[0])
    ensures PublicIdFromPath(DeliveryPath(cloud, version, id, ext)) == Some(id)
  {
    var tail := id + "." + ext;
    var after := AfterUpload(version, tail);
    SplitDeliveryPath(cloud, version, id, ext);
    UploadAtFour(cloud, after);
    DropVersionAfterUpload(version, tail);
    JoinSplit(tail, '/');
    StripExtensionRoundTrip(id, ext);
  }

  /** The documented example: this delivery path gives 'folder/image'. */
  lemma DocumentedExample()
    ensures PublicIdFromPath("/demo/image/upload/v1234567890/folder/image.jpg") == Some("folder/image")
  {
    DocumentedPath();
    PublicIdRoundTrip("demo", Some("1234567890"), "folder/image", "jpg");
  }

  /** The documented URL path is the delivery path of 'folder/image' at version 1234567890. */
  lemma DocumentedPath()
    ensures DeliveryPath("demo", Some("1234567890"), "folder/image", "jpg") == "/demo/image/upload/v1234567890/folder/image.jpg"
  {
    var t := "folder/image.jpg";
    DocumentedTail();
    assert "v" + "1234567890" == "v1234567890";
    SegAssoc("", "demo", Seg("image", Seg("upload", Seg("v1234567890", t))));
    assert "" + "/" + "demo" == "/demo";
    SegAssoc("/demo", "image", Seg("upload", Seg("v1234567890", t)));
    assert "/demo" + "/" + "image" == "/demo/image";
    SegAssoc("/demo/image", "upload", Seg("v1234567890", t));
    assert "/demo/image" + "/" + "upload" == "/demo/image/upload";
    SegAssoc("/demo/image/upload", "v1234567890", t);
    assert "/demo/image/upload" + "/" + "v1234567890" == "/demo/image/upload/v1234567890";
    DocumentedLastSeg();
  }

  /** The documented path as its part before the public id, then '/', then the public id. */
  lemma DocumentedLastSeg()
    ensures Seg("/demo/image/upload/v1234567890", "folder/image.jpg") == "/demo/image/upload/v1234567890/folder/image.jpg"
  {
    assert "/demo/image/upload/v1234567890" + "/" == "/demo/image/upload/v1234567890/";
  }

  /** Two leading segments read as one that holds the '/' between them. */
  lemma SegAssoc(a: string, b: string, rest: string)
    ensures Seg(a, Seg(b, rest)) == Seg(a + "/" + b, rest)
  {
  }

  /** The documented public id with its extension. */
  lemma DocumentedTail()
    ensures "folder/image" + "." + "jpg" == "folder/image.jpg"
  {
  }

  /** The public id one URL contributes to a bulk removal: none, or the one it yields. */
  function IdsOf(url: string, pathnameOf: string -> Option<string>): (ids: seq<string>)
    ensures |ids| <= 1
    ensures ids == [] <==> ExtractPublicIdFromUrl(url, pathnameOf).None?
    ensures ids != [] ==> ids == [ExtractPublicIdFromUrl(url, pathnameOf).value]
  {
    match ExtractPublicIdFromUrl(url, pathnameOf)
    case Some(id) => [id]
    case None => []
  }

  /** The public ids removeMultiple destroys: those of the URLs that yield one, in order. */
  function RemoveMultiple(urls: seq<string>, pathnameOf: string -> Option<string>): (ids: seq<string>)
    ensures |ids| <= |urls|
  {
    if |urls| == 0 then [] else IdsOf(urls[0], pathnameOf) + RemoveMultiple(urls[1..], pathnameOf)
  }

  /** Removing two lists of URLs at once destroys what removing each in turn would. */
  lemma {:induction false} RemoveMultipleAppend(a: seq<string>, b: seq<string>, pathnameOf: string -> Option<string>)
    ensures RemoveMultiple(a + b, pathnameOf) == RemoveMultiple(a, pathnameOf) + RemoveMultiple(b, pathnameOf)
  {
    if |a| > 0 {
      assert (a + b)[1..] == a[1..] + b;
      assert (a + b)[0] == a[0];
      RemoveMultipleAppend(a[1..], b, pathnameOf);
      var head := IdsOf(a[0], pathnameOf);
      assert head + (RemoveMultiple(a[1..], pathnameOf) + RemoveMultiple(b, pathnameOf)) ==
             (head + RemoveMultiple(a[1..], pathnameOf)) + RemoveMultiple(b, pathnameOf);
    } else {
      assert a + b == b;
    }
  }

  /** Every id destroyed comes from one of the URLs, and every URL that yields an id has it destroyed. */
  lemma {:induction false} RemoveMultipleIds(urls: seq<string>, pathnameOf: string -> Option<string>)
    ensures forall id :: id in RemoveMultiple(urls, pathnameOf) ==>
              exists u :: u in urls && ExtractPublicIdFromUrl(u, pathnameOf) == Some(id)
    ensures forall u :: u in urls && ExtractPublicIdFromUrl(u, pathnameOf).Some? ==>
              ExtractPublicIdFromUrl(u, pathnameOf).value in RemoveMultiple(urls, pathnameOf)
  {
    if |urls| > 0 {
      RemoveMultipleIds(urls[1..], pathnameOf);
      assert forall u :: u in urls ==> u == urls[0] || u in urls[1..];
      assert forall u :: u in urls[1..] ==> u in urls;
    }
  }
}
