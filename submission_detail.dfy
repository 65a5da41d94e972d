/**
  The teacher's submission page: the list of page images, the carousel
  index over it, and the URL an image path is shown from.
 */
module SubmissionDetail {
  import opened Text

  /** A submission's `fileUrl` field: an array of paths or any other value (a missing submission included). */
  datatype FileUrl = UrlArray(paths: seq<string>) | NotAnArray

  /** `Array.isArray(submission?.fileUrl) ? submission.fileUrl : []`. */
  function Images(fileUrl: FileUrl): seq<string> {
    if fileUrl.UrlArray? then fileUrl.paths else []
  }

  /** The index `goToPrevious` moves to among `n` images. */
  function PreviousIndex(index: int, n: int): int {
    if index == 0 then n - 1 else index - 1
  }

  /** The index `goToNext` moves to among `n` images. */
  function NextIndex(index: int, n: int): int {
    if index == n - 1 then 0 else index + 1
  }

  /** With at least one image both moves stay in range, wrapping at the ends. */
  lemma MovesStayInRange(index: int, n: int)
    requires 0 <= index < n
    ensures 0 <= PreviousIndex(index, n) < n && 0 <= NextIndex(index, n) < n
    ensures index == 0 ==> PreviousIndex(index, n) == n - 1
    ensures index == n - 1 ==> NextIndex(index, n) == 0
  {
  }

  /** Next undoes previous and previous undoes next. */
  lemma MovesAreInverse(index: int, n: int)
    requires 0 <= index < n
    ensures NextIndex(PreviousIndex(index, n), n) == index
    ensures PreviousIndex(NextIndex(index, n), n) == index
  {
  }

  function NextTimes(index: int, n: int, k: nat): int
    decreases k
  {
    if k == 0 then index else NextIndex(NextTimes(index, n, k - 1), n)
  }

  /** `a + b` steps forward are `a` steps, then `b` more. */
  lemma {:induction false} NextTimesCompose(index: int, n: int, a: nat, b: nat)
    ensures NextTimes(index, n, a + b) == NextTimes(NextTimes(index, n, a), n, b)
    decreases b
  {
    if b > 0 {
      NextTimesCompose(index, n, a, b - 1);
      assert a + b - 1 == a + (b - 1);
    }
  }

  /** Before the last image, `k` steps forward move `k` places. */
  lemma {:induction false} NextTimesClimb(index: int, n: int, k: nat)
    requires 0 <= index && index + k < n
    ensures NextTimes(index, n, k) == index + k
    decreases k
  {
    if k > 0 {
      NextTimesClimb(index, n, k - 1);
    }
  }

  /** `n` steps forward come back to the start. */
  lemma FullCircle(index: int, n: int)
    requires 0 <= index < n
    ensures NextTimes(index, n, n) == index
  {
    var up: nat := n - 1 - index;
    NextTimesClimb(index, n, up);
    NextTimesCompose(index, n, up, 1);
    assert NextTimes(index, n, up + 1) == 0;
    NextTimesCompose(index, n, up + 1, index);
    NextTimesClimb(0, n, index);
    assert up + 1 + index == n;
  }

  /** The carousel state: the images and the index of the one displayed. */
  class ImageCarousel {
    var images: seq<string>
    var currentImageIndex: int

    /** The displayed index is one of the images whenever there are images. */
    predicate Valid()
      reads this
    {
      |images| > 0 ==> 0 <= currentImageIndex < |images|
    }

    /** The first render: no submission is loaded yet, so there are no images and the index is 0. */
    constructor ()
      ensures images == Images(NotAnArray) && currentImageIndex == 0
      ensures Valid()
    {
      images := [];
      currentImageIndex := 0;
    }

    /**
      A submission arrives: the images are recomputed from its `fileUrl`,
      and the effect resets the index to 0 when there is at least one image.
     */
    method SetImages(fileUrl: FileUrl)
      modifies this
      ensures images == Images(fileUrl)
      ensures fileUrl.UrlArray? ==> images == fileUrl.paths
      ensures fileUrl.NotAnArray? ==> images == [] && currentImageIndex == old(currentImageIndex)
      ensures currentImageIndex == if |images| > 0 then 0 else old(currentImageIndex)
      ensures |images| > 0 ==> Valid()
    {
      images := if fileUrl.UrlArray? then fileUrl.paths else [];
      if |images| > 0 {
        currentImageIndex := 0;
      }
    }

    method GoToPrevious()
      modifies this
      ensures images == old(images)
      ensures currentImageIndex == PreviousIndex(old(currentImageIndex), |images|)
      ensures old(Valid()) ==> Valid()
    {
      var isFirstImage := currentImageIndex == 0;
      currentImageIndex := if isFirstImage then |images| - 1 else currentImageIndex - 1;
    }

    method GoToNext()
      modifies this
      ensures images == old(images)
      ensures currentImageIndex == NextIndex(old(currentImageIndex), |images|)
      ensures old(Valid()) ==> Valid()
    {
      var isLastImage := currentImageIndex == |images| - 1;
      currentImageIndex := if isLastImage then 0 else currentImageIndex + 1;
    }

    /** A thumbnail click; the thumbnails pass their own index. */
    method GoToImage(index: int)
      modifies this
      ensures images == old(images) && currentImageIndex == index
      ensures 0 <= index < |images| ==> Valid()
    {
      currentImageIndex := index;
    }
  }

  const Host: string := "http://localhost:5000/"

  /** `path.replace(/^\/+/, "")`. */
  function StripLeadingSlashes(path: string): (r: string)
    ensures |r| <= |path| && r == path[|path| - |r|..]
    ensures forall i :: 0 <= i < |path| - |r| ==> path[i] == '/'
    ensures r == [] || r[0] != '/'
    decreases |path|
  {
    if path != [] && path[0] == '/' then StripLeadingSlashes(path[1..]) else path
  }

  function GetImageUrl(path: string): (url: string)
    ensures path == "" ==> url == ""
    ensures StartsWith(path, "http") ==> url == path
    ensures path != "" && !StartsWith(path, "http") ==>
      StartsWith(url, Host) && url[|Host|..] == StripLeadingSlashes(path)
  {
    if path == "" then ""
    else if StartsWith(path, "http") then path
    else
      var url := Host + StripLeadingSlashes(path);
      assert url[..|Host|] == Host && url[|Host|..] == StripLeadingSlashes(path);
      url
  }

  /** A path starting with '/' is never an absolute "http" URL. */
  lemma SlashedNotHttp(x: string)
    requires x != [] && x[0] == '/'
    ensures !StartsWith(x, "http")
  {
    if |x| >= 4 {
      assert x[..4][0] == x[0];
    }
  }

  lemma RelativeUrl(x: string)
    requires x != [] && !StartsWith(x, "http")
    ensures GetImageUrl(x) == Host + StripLeadingSlashes(x)
  {
  }

  /** A relative path with or without leading slashes gives the same URL. */
  lemma LeadingSlashesIgnored(path: string)
    requires path != "" && !StartsWith(path, "/") && !StartsWith(path, "http")
    ensures GetImageUrl("/" + path) == GetImageUrl("//" + path) == GetImageUrl(path)
  {
    var one, two := "/" + path, "//" + path;
    assert one[1..] == path && two[1..] == one;
    assert path[..1][0] == path[0];
    SlashedNotHttp(one);
    SlashedNotHttp(two);
    RelativeUrl(path);
    RelativeUrl(one);
    RelativeUrl(two);
  }
}
