/** The feed's thumbnail path convention (`getThumbnailUrl`): an upload
    `…/uploads/<name>` has a pre-generated small copy at
    `/uploads/thumbnails/thumb_<name>`. */
module Thumbnail {
  import opened Common
  import opened Strings

  const UploadsSegment: string := "/uploads/"
  const ThumbnailsSegment: string := "/thumbnails/"
  const ThumbnailPrefix: string := "/uploads/thumbnails/thumb_"

  /** Every rewritten URL is itself recognised as a thumbnail. */
  lemma PrefixMarksThumbnail(name: string)
    ensures Contains(ThumbnailPrefix + name, ThumbnailsSegment)
  {
    var u := ThumbnailPrefix + name;
    assert ThumbnailPrefix == "/uploads" + ThumbnailsSegment + "thumb_";
    assert ThumbnailPrefix[8..20] == ThumbnailsSegment;
    assert u[8..20] == ThumbnailPrefix[8..20];
    assert OccursAt(u, ThumbnailsSegment, 8);
  }

  /** `getThumbnailUrl(url)`. Empty URLs and URLs already under a
      thumbnails directory pass through; otherwise the URL is split on
      `/uploads/` and rewritten only when that yields exactly two parts,
      i.e. when the text after the first `/uploads/` contains no other one.
      Whatever precedes `/uploads/` (a host, say) is dropped. */
  function ThumbnailUrl(url: string): (r: string)
    ensures url == [] || Contains(url, ThumbnailsSegment) ==> r == url
    ensures !Contains(url, UploadsSegment) ==> r == url
    ensures !Contains(url, ThumbnailsSegment) && IndexOf(url, UploadsSegment).Some? ==>
              var rest := url[IndexOf(url, UploadsSegment).value + |UploadsSegment|..];
              r == if Contains(rest, UploadsSegment) then url else ThumbnailPrefix + rest
    ensures r != url ==> Contains(r, ThumbnailsSegment) && ThumbnailPrefix <= r
  {
    if url == [] then url
    else if Contains(url, ThumbnailsSegment) then url
    else
      var parts := Split(url, UploadsSegment);
      if |parts| == 2 then
        PrefixMarksThumbnail(parts[1]);
        ThumbnailPrefix + parts[1]
      else url
  }

  /** Applying the rewrite to its own output changes nothing, so a URL
      that already went through it (or was stored as a thumbnail) is safe
      to pass again. */
  lemma ThumbnailIdempotent(url: string)
    ensures ThumbnailUrl(ThumbnailUrl(url)) == ThumbnailUrl(url)
  {
  }

  /** The slashes of `host + "/uploads/" + name` when neither part has one. */
  lemma SlashesOfUpload(host: string, name: string)
    requires '/' !in host && '/' !in name
    ensures forall k | 0 <= k < |host + UploadsSegment + name| ::
              (host + UploadsSegment + name)[k] == '/' ==> k == |host| || k == |host| + 8
  {
    var u := host + UploadsSegment + name;
    forall k | 0 <= k < |u| && u[k] == '/'
      ensures k == |host| || k == |host| + 8
    {
      if |host| <= k < |host| + 9 {
        assert u[k] == UploadsSegment[k - |host|];
      }
    }
  }

  /** A file name under a slash-free host: the host is dropped and the
      name moves under `/uploads/thumbnails/` with a `thumb_` prefix. */
  lemma ThumbnailOfUpload(host: string, name: string)
    requires '/' !in host && '/' !in name
    ensures ThumbnailUrl(host + UploadsSegment + name) == ThumbnailPrefix + name
  {
    var u := host + UploadsSegment + name;
    SlashesOfUpload(host, name);
    assert u[|host|..|host| + 9] == UploadsSegment;
    assert OccursAt(u, UploadsSegment, |host|);
    forall j | 0 <= j < |host| ensures !OccursAt(u, UploadsSegment, j) {
      assert u[j] != '/';
    }
    assert IndexOf(u, UploadsSegment) == Some(|host|);
    assert u[|host| + 9..] == name;
    MissingCharExcludes(name, UploadsSegment, '/');
    forall j | 0 <= j <= |u| ensures !OccursAt(u, ThumbnailsSegment, j) {
      if j + 12 <= |u| {
        assert u[j..j + 12][0] == u[j] && u[j..j + 12][11] == u[j + 11];
      }
    }
  }
}
