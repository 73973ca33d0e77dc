/** Stored image files and the URL a serializer reports for them. */
module Media {
  import opened Common

  /** A file field: `name` is the stored path (empty when no file is attached),
      `url` is what the storage backend serves it under. */
  datatype ImageFile = ImageFile(name: string, url: string) {
    /** A file field is truthy exactly when it names a file. */
    predicate Present() { name != [] }
  }

  const NoImage := ImageFile("", "")

  /** The incoming request, when the serializer was given one. Only its
      presence matters here; what it holds is read by `absolute` alone. */
  datatype Request = Request

  /** The URL reported for an image field. `absolute` stands for the framework's
      `request.build_absolute_uri`, which this model does not interpret. */
  function ImageUrl(image: ImageFile, request: Option<Request>, absolute: (Request, string) -> string): (r: Option<string>)
    ensures r.None? <==> !image.Present()
    ensures r.Some? && request.None? ==> r.value == image.url
    ensures r.Some? && request.Some? ==> r.value == absolute(request.value, image.url)
  {
    if image.Present() then
      match request
      case Some(req) => Some(absolute(req, image.url))
      case None => Some(image.url)
    else
      None
  }
}
