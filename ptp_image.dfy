/** The decision and formatting logic of `ptp-image.py`: the service's debug settings, the
    rule that accepts a login response, the multipart form built from the images, the checks
    around an upload and the image URLs made from the upload's result.

    A response is only its status code and body; the upload result is given already
    decoded; whether an image file exists is given with the image. */
module PtpImage {
  import opened Results
  import opened PyText

  /** The image host's address. */
  const BASE_URL: string := "https://ptpimg.me"

  /** The local intercepting proxy used in debug mode. */
  const DEBUG_PROXY: string := "http://127.0.0.1:8080"

  /** The exceptions the service raises. */
  datatype Error =
    | HttpError(status: int)     // a response status other than 200
    | NotAuthenticated           // a login page without a logout link
    | ImageMissing(path: string) // an image file that does not exist

  datatype Configuration = Configuration(username: string, password: string, apiKey: string)

  datatype Response = Response(status: int, body: string)

  /** `PtpImageService` once constructed: its fields are set by `__init__` and never
      changed afterwards. */
  datatype Service = Service(
    baseUrl: string,
    isDebugMode: bool,
    proxy: map<string, string>,
    configuration: Configuration)

  /** A form POST as the service sends it: URL, form fields, file parts, proxies and whether
      the TLS certificate is verified. */
  datatype Request = Request(
    url: string,
    data: map<string, string>,
    files: map<string, FilePart>,
    proxies: map<string, string>,
    verify: bool)

  // ---------------------------------------------------------------------------
  // Construction and authentication
  // ---------------------------------------------------------------------------

  /** The proxy map of `__init__`: both schemes through the local proxy in debug mode, no
      proxy otherwise. */
  function ProxyFor(isDebugMode: bool): (proxy: map<string, string>)
    ensures |proxy| > 0 <==> isDebugMode
    ensures forall scheme :: scheme in proxy ==> proxy[scheme] == DEBUG_PROXY
  {
    if isDebugMode then map["http" := DEBUG_PROXY, "https" := DEBUG_PROXY] else map[]
  }

  /** The login request `__authenticate` posts. */
  function LoginRequest(service: Service): Request
  {
    Request(
      service.baseUrl + "/login.php",
      map["email" := service.configuration.username,
          "pass" := service.configuration.password,
          "login" := ""],
      map[],
      service.proxy,
      !service.isDebugMode)
  }

  /** `__authenticate`'s verdict on the login response: a status other than 200 is an HTTP
      error, checked first; otherwise the login holds only if the page links to
      `/logout.php`. */
  function Authenticate(response: Response): (r: Outcome<Error>)
    ensures r.Pass? <==> response.status == 200 && Contains(response.body, "/logout.php")
    ensures response.status != 200 ==> r == Fail(HttpError(response.status))
    ensures response.status == 200 && r.Fail? ==> r.error == NotAuthenticated
  {
    if response.status != 200 then Fail(HttpError(response.status))
    else if !Contains(response.body, "/logout.php") then Fail(NotAuthenticated)
    else Pass
  }

  /** What constructing the service produces: the service, or the exception that aborts the
      constructor, together with the login request it posted. */
  datatype Construction = Construction(result: Result<Service, Error>, loginRequest: Request)

  /** `PtpImageService(configuration, is_debug_mode)`: set the fields, post the login request
      and authenticate with its response; the object exists only if that succeeds. */
  function NewService(configuration: Configuration, isDebugMode: bool, loginResponse: Response): (c: Construction)
    ensures c.result.Ok? <==> Authenticate(loginResponse).Pass?
    ensures c.result.Err? ==> c.result.error == Authenticate(loginResponse).error
    ensures c.result.Ok? ==>
      c.result.value.baseUrl == BASE_URL && c.result.value.isDebugMode == isDebugMode &&
      c.result.value.configuration == configuration &&
      (|c.result.value.proxy| > 0 <==> isDebugMode)
    ensures c.loginRequest == LoginRequest(Service(BASE_URL, isDebugMode, ProxyFor(isDebugMode), configuration))
  {
    var service := Service(BASE_URL, isDebugMode, ProxyFor(isDebugMode), configuration);
    var result := match Authenticate(loginResponse)
      case Pass => Ok(service)
      case Fail(e) => Err(e);
    Construction(result, LoginRequest(service))
  }

  /** Whatever the login response, the login request carries the credentials, goes through
      the proxy iff debug mode is on, and checks the certificate iff it is off. */
  lemma DebugModeSettings(configuration: Configuration, isDebugMode: bool, loginResponse: Response)
    ensures var login := NewService(configuration, isDebugMode, loginResponse).loginRequest;
            (|login.proxies| > 0 <==> isDebugMode) && login.verify == !isDebugMode &&
            login.url == BASE_URL + "/login.php" &&
            login.data == map["email" := configuration.username,
                               "pass" := configuration.password,
                               "login" := ""]
  {
  }

  // ---------------------------------------------------------------------------
  // Image URLs
  // ---------------------------------------------------------------------------

  /** An element of the upload result: the image's code and file extension. */
  datatype UploadedImage = UploadedImage(code: string, ext: string)

  /** `__get_image_url(image)`: `<base>/<code>.<ext>`. */
  function ImageUrl(baseUrl: string, image: UploadedImage): string
  {
    baseUrl + "/" + image.code + "." + image.ext
  }

  /** Reading an image URL back: strip `<base>/` and split at the last `.`. */
  function ParseImageUrl(baseUrl: string, url: string): Option<UploadedImage>
  {
    var prefix := baseUrl + "/";
    if |url| < |prefix| || url[..|prefix|] != prefix then None
    else
      var rest := url[|prefix|..];
      match LastIndexOf(rest, '.')
      case None => None
      case Some(d) => Some(UploadedImage(rest[..d], rest[d + 1..]))
  }

  /** An image URL determines the code and the extension it was made from, as long as the
      extension holds no dot. */
  lemma ImageUrlRoundTrip(baseUrl: string, image: UploadedImage)
    requires '.' !in image.ext
    ensures ParseImageUrl(baseUrl, ImageUrl(baseUrl, image)) == Some(image)
  {
    var prefix := baseUrl + "/";
    var url := ImageUrl(baseUrl, image);
    assert url == prefix + (image.code + "." + image.ext);
    assert url[..|prefix|] == prefix;
    var rest := url[|prefix|..];
    assert rest == image.code + "." + image.ext;
    var d := |image.code|;
    assert rest[d] == '.';
    var r := LastIndexOf(rest, '.');
    assert r.Some?;
    assert r.value == d;
    assert rest[..d] == image.code;
    assert rest[d + 1..] == image.ext;
  }

  /** The list comprehension of `upload`: one URL per result element, in order. */
  function ImageUrls(baseUrl: string, uploaded: seq<UploadedImage>): (urls: seq<string>)
    ensures |urls| == |uploaded|
    ensures forall i :: 0 <= i < |uploaded| ==> urls[i] == ImageUrl(baseUrl, uploaded[i])
  {
    seq(|uploaded|, i requires 0 <= i < |uploaded| => ImageUrl(baseUrl, uploaded[i]))
  }

  /** The URLs list the uploaded images one for one and in order: each URL reads back as the
      result element at its own position. */
  lemma ImageUrlsInOrder(baseUrl: string, uploaded: seq<UploadedImage>)
    requires forall i :: 0 <= i < |uploaded| ==> '.' !in uploaded[i].ext
    ensures var urls := ImageUrls(baseUrl, uploaded);
            |urls| == |uploaded| &&
            forall i :: 0 <= i < |urls| ==> ParseImageUrl(baseUrl, urls[i]) == Some(uploaded[i])
  {
    forall i | 0 <= i < |uploaded|
      ensures ParseImageUrl(baseUrl, ImageUrls(baseUrl, uploaded)[i]) == Some(uploaded[i])
    {
      ImageUrlRoundTrip(baseUrl, uploaded[i]);
    }
  }

  // ---------------------------------------------------------------------------
  // The multipart form and the upload
  // ---------------------------------------------------------------------------

  /** An image to upload: its path, the path's last component (`Path.name`) and whether the
      file exists. */
  datatype Image = Image(path: string, name: string, present: bool)

  /** A file part of the form: file name, the file opened for reading (named by its path)
      and content type. */
  datatype FilePart = FilePart(filename: string, file: string, contentType: string)

  /** The part for one image: always declared `image/png`. */
  function ImagePart(image: Image): FilePart
  {
    FilePart(image.name, image.path, "image/png")
  }

  /** The form field of the `i`-th image: `file-upload[<i>]`. */
  function FieldName(i: nat): string
  {
    "file-upload[" + NatToString(i) + "]"
  }

  /** Different images get different fields. */
  lemma FieldNameInjective(i: nat, j: nat)
    requires FieldName(i) == FieldName(j)
    ensures i == j
  {
    var a := FieldName(i);
    var b := FieldName(j);
    assert a[12..|a| - 1] == NatToString(i);
    assert b[12..|b| - 1] == NatToString(j);
    NatToStringInjective(i, j);
  }

  /** `__get_multipart_from_from_images(images)`: one field per image, named by its
      position. */
  method MultipartFromImages(images: seq<Image>) returns (form: map<string, FilePart>)
    ensures |form| == |images|
    ensures forall i :: 0 <= i < |images| ==> FieldName(i) in form && form[FieldName(i)] == ImagePart(images[i])
    ensures forall key :: key in form ==> exists i :: 0 <= i < |images| && key == FieldName(i)
  {
    form := map[];
    for i := 0 to |images|
      invariant |form| == i
      invariant forall j :: 0 <= j < i ==> FieldName(j) in form && form[FieldName(j)] == ImagePart(images[j])
      invariant forall key :: key in form ==> exists j :: 0 <= j < i && key == FieldName(j)
    {
      if FieldName(i) in form {
        var j :| 0 <= j < i && FieldName(i) == FieldName(j);
        FieldNameInjective(i, j);
      }
      form := form[FieldName(i) := ImagePart(images[i])];
    }
  }

  /** The form `upload` posts for `images`: exactly one field per image, in order. */
  ghost predicate IsMultipartFor(form: map<string, FilePart>, images: seq<Image>)
  {
    |form| == |images| &&
    (forall i :: 0 <= i < |images| ==> FieldName(i) in form && form[FieldName(i)] == ImagePart(images[i])) &&
    (forall key :: key in form ==> exists i :: 0 <= i < |images| && key == FieldName(i))
  }

  /** `upload(images)`: every image must exist (checked in order, before anything is built
      or sent); then the form is posted with the API key, a status other than 200 fails,
      and the decoded result becomes one URL per element. Returns the outcome and the
      request that was posted, if any. */
  method Upload(service: Service, images: seq<Image>, response: Response, uploaded: seq<UploadedImage>)
    returns (r: Result<seq<string>, Error>, posted: Option<Request>)
    ensures (exists i :: 0 <= i < |images| && !images[i].present) ==>
      posted.None? &&
      exists i :: 0 <= i < |images| && !images[i].present &&
        (forall j :: 0 <= j < i ==> images[j].present) && r == Err(ImageMissing(images[i].path))
    ensures (forall i :: 0 <= i < |images| ==> images[i].present) ==>
      posted.Some? &&
      posted.value.url == service.baseUrl + "/upload.php" &&
      posted.value.data == map["api_key" := service.configuration.apiKey] &&
      IsMultipartFor(posted.value.files, images) &&
      posted.value.proxies == service.proxy && posted.value.verify == !service.isDebugMode &&
      r == (if response.status != 200 then Err(HttpError(response.status))
            else Ok(ImageUrls(service.baseUrl, uploaded)))
  {
    for i := 0 to |images|
      invariant forall j :: 0 <= j < i ==> images[j].present
    {
      if !images[i].present {
        return Err(ImageMissing(images[i].path)), None;
      }
    }
    var form := MultipartFromImages(images);
    var data := map["api_key" := service.configuration.apiKey];
    posted := Some(Request(service.baseUrl + "/upload.php", data, form, service.proxy, !service.isDebugMode));
    if response.status != 200 {
      return Err(HttpError(response.status)), posted;
    }
    r := Ok(ImageUrls(service.baseUrl, uploaded));
  }
}
