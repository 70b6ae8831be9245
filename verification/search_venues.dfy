/**
 * The `search-venues` function: it reads a venue name from the request,
 * builds the image-search query, and turns the upstream image results into
 * at most fifteen `{image_url, alt_text}` records. The HTTP request to the
 * image-search service is not modelled; its answer is a parameter.
 */
module SearchVenues {
  import opened Wrappers
  import opened Numeric

  /** Upper bound on the images one search returns. */
  const MaxImages: nat := 15

  /** The message thrown when the upstream answer is not a success. */
  const UpstreamFailedMessage: string := "Failed to fetch images from SerpAPI"

  /** A scalar JSON member as JavaScript sees it: missing, `null`, or a string. */
  datatype JsonField = Absent | Null | Str(s: string)

  /** JavaScript truthiness of such a member: only a non-empty string is truthy. */
  predicate Truthy(f: JsonField) {
    f.Str? && f.s != ""
  }

  /** What a template literal `${f}` makes of the member. */
  function Interpolate(f: JsonField): (r: string)
    ensures f.Str? ==> r == f.s
    ensures f.Absent? ==> r == "undefined"
    ensures f.Null? ==> r == "null"
  {
    match f
    case Absent => "undefined"
    case Null => "null"
    case Str(s) => s
  }

  /** The JSON body a caller posts; the batch import sends all three members. */
  datatype RequestBody = RequestBody(venueName: JsonField, importId: JsonField, venueItemId: JsonField)

  /** One entry of the upstream `images_results` array. */
  datatype SerpImage = SerpImage(original: JsonField, thumbnail: JsonField, title: JsonField)

  /** The upstream JSON document; `images_results` may be missing. */
  datatype SerpData = SerpData(imagesResults: Option<seq<SerpImage>>)

  /** How the upstream request ended: the request itself threw, the status was
      not ok, or an ok response whose body did or did not parse as JSON. */
  datatype Upstream = Unreachable(message: string) | NotOk | Answered(body: Result<SerpData>)

  /** One image of the reply. `imageUrl` is whatever `original || thumbnail`
      evaluates to, so it may be absent or null. */
  datatype Image = Image(imageUrl: JsonField, altText: string)

  datatype ResponseBody = Images(images: seq<Image>) | Error(error: string)
  datatype Response = Response(status: int, body: ResponseBody)

  /** What one call does: the query it sends upstream (if it gets that far) and its reply. */
  datatype Outcome = Outcome(query: Option<string>, response: Response)

  /** The search text: the venue name followed by " wedding venue". */
  function SearchQuery(venueName: JsonField): (q: string)
    ensures |q| == |Interpolate(venueName)| + 14
    ensures q[..|Interpolate(venueName)|] == Interpolate(venueName)
    ensures q[|Interpolate(venueName)|..] == " wedding venue"
  {
    Interpolate(venueName) + " wedding venue"
  }

  /** The alt text used when an upstream image has no usable title. */
  function DefaultAltText(venueName: JsonField): string {
    "Wedding venue " + Interpolate(venueName)
  }

  /** One upstream entry as a reply image: `original || thumbnail` and `title || default`. */
  function ShapeImage(img: SerpImage, venueName: JsonField): (r: Image)
    ensures Truthy(img.original) ==> r.imageUrl == img.original
    ensures !Truthy(img.original) ==> r.imageUrl == img.thumbnail
    ensures Truthy(img.title) ==> r.altText == img.title.s
    ensures !Truthy(img.title) ==> r.altText == DefaultAltText(venueName)
  {
    Image(if Truthy(img.original) then img.original else img.thumbnail,
          if Truthy(img.title) then img.title.s else DefaultAltText(venueName))
  }

  /** `images_results?.slice(0, 15).map(...) || []`. */
  function ShapeImages(data: SerpData, venueName: JsonField): (r: seq<Image>)
    ensures data.imagesResults.None? ==> r == []
    ensures data.imagesResults.Some? ==> |r| == Min(MaxImages, |data.imagesResults.value|)
    ensures forall k :: 0 <= k < |r| ==> r[k] == ShapeImage(data.imagesResults.value[k], venueName)
  {
    match data.imagesResults
    case None => []
    case Some(results) =>
      var kept := results[..Min(MaxImages, |results|)];
      seq(|kept|, k requires 0 <= k < |kept| => ShapeImage(kept[k], venueName))
  }

  function Fail(query: Option<string>, message: string): Outcome {
    Outcome(query, Response(500, Error(message)))
  }

  /** The whole request handler, from the parsed request body and the upstream answer. */
  function HandleSearch(request: Result<RequestBody>, upstream: Upstream): (o: Outcome)
    ensures request.Failure? ==> o.query.None? && o.response == Response(500, Error(request.error))
    ensures request.Success? ==> o.query == Some(SearchQuery(request.value.venueName))
    ensures o.response.status == 200 <==> request.Success? && upstream.Answered? && upstream.body.Success?
    ensures o.response.status != 200 ==> o.response.status == 500 && o.response.body.Error?
    ensures request.Success? && upstream.NotOk? ==> o.response.body == Error(UpstreamFailedMessage)
    ensures o.response.status == 200 ==>
      o.response.body == Images(ShapeImages(upstream.body.value, request.value.venueName))
  {
    match request
    case Failure(e) => Fail(None, e)
    case Success(body) =>
      var query := SearchQuery(body.venueName);
      match upstream
      case Unreachable(e) => Fail(Some(query), e)
      case NotOk => Fail(Some(query), UpstreamFailedMessage)
      case Answered(Failure(e)) => Fail(Some(query), e)
      case Answered(Success(data)) =>
        Outcome(Some(query), Response(200, Images(ShapeImages(data, body.venueName))))
  }

  /** An image has a usable URL exactly when the upstream entry had a usable
      original or thumbnail URL. */
  lemma ImageUrlPresentIff(img: SerpImage, venueName: JsonField)
    ensures Truthy(ShapeImage(img, venueName).imageUrl) <==> Truthy(img.original) || Truthy(img.thumbnail)
  {
  }

  /** Every reply image carries a non-empty alt text mentioning the venue when there is no title. */
  lemma AltTextNeverEmpty(img: SerpImage, venueName: JsonField)
    ensures ShapeImage(img, venueName).altText != ""
  {
    if !Truthy(img.title) {
      assert DefaultAltText(venueName)[0] == 'W';
    }
  }

  /** Only `venue_name` is read from the request: the other members do not affect the call. */
  lemma OnlyVenueNameRead(a: RequestBody, b: RequestBody, upstream: Upstream)
    requires a.venueName == b.venueName
    ensures HandleSearch(Success(a), upstream) == HandleSearch(Success(b), upstream)
  {
  }
}
