/**
 * The HTTP surface: the three endpoints under `/api/products`, each turning the outcome of a
 * service or store call into a status, headers and a body.
 */
module Controller {
  import opened Common
  import opened Text
  import opened Storage
  import opened Catalog

  /** The values the upload endpoint puts into its JSON object. */
  datatype Json = JBool(b: bool) | JString(s: string) | JInt(n: int) | JProducts(products: seq<Product>)

  datatype Body =
    | NoBody
    | JsonObject(fields: map<string, Json>)
    | Listing(page: ProductResponse)
    | ImageFile(resource: ImageResource)

  /** A response: status, `Content-Type` and `Content-Disposition` headers when set, body. */
  datatype Response = Response(status: int, contentType: Option<string>, contentDisposition: Option<string>, body: Body)

  const OctetStream: string := "application/octet-stream"

  /** The content type guessed from the lower-cased file name's suffix. */
  function ContentTypeFor(filename: Option<string>): (ct: string)
    ensures ct == OctetStream <==> filename.None? || !IsImageName(filename.value)
    ensures ct in {"image/jpeg", "image/png", "image/gif", "image/webp", OctetStream}
    ensures filename.Some? ==>
      var lower := ToLower(filename.value);
      && (ct == "image/jpeg" <==> EndsWith(lower, ".jpg") || EndsWith(lower, ".jpeg"))
      && (ct == "image/png" <==> EndsWith(lower, ".png"))
      && (ct == "image/gif" <==> EndsWith(lower, ".gif"))
      && (ct == "image/webp" <==> EndsWith(lower, ".webp"))
  {
    match filename
    case None => OctetStream
    case Some(f) =>
      var lower := ToLower(f);
      ImageSuffixesDiffer(lower);
      if EndsWith(lower, ".jpg") || EndsWith(lower, ".jpeg") then "image/jpeg"
      else if EndsWith(lower, ".png") then "image/png"
      else if EndsWith(lower, ".gif") then "image/gif"
      else if EndsWith(lower, ".webp") then "image/webp"
      else OctetStream
  }

  /** No name ends in two of the image suffixes, except `.jpg` and `.jpeg` that share one type. */
  lemma ImageSuffixesDiffer(s: string)
    ensures EndsWith(s, ".jpg") || EndsWith(s, ".jpeg") ==> !EndsWith(s, ".png") && !EndsWith(s, ".gif") && !EndsWith(s, ".webp")
    ensures EndsWith(s, ".png") ==> !EndsWith(s, ".gif") && !EndsWith(s, ".webp")
    ensures EndsWith(s, ".gif") ==> !EndsWith(s, ".webp")
  {
    var suffixes := [".jpg", ".jpeg", ".png", ".gif", ".webp"];
    forall x | x in suffixes && EndsWith(s, x)
      ensures s[|s| - 1] == x[|x| - 1] && s[|s| - 2] == x[|x| - 2]
    {
      EndsWithLastTwo(s, x);
    }
  }

  /** The guess ignores letter case. */
  lemma ContentTypeIgnoresCase(f: string)
    ensures ContentTypeFor(Some(f)) == ContentTypeFor(Some(ToLower(f)))
  {
    ToLowerIdempotent(f);
  }

  /** A stored image is served with the content type of the extension it was uploaded with. */
  lemma StoredImageContentType(ext: string)
    ensures ContentTypeFor(Some(ImageFileName(ext))) == ContentTypeFor(Some(ext))
  {
    ImageNameFollowsExtension(ext, ".jpg");
    ImageNameFollowsExtension(ext, ".jpeg");
    ImageNameFollowsExtension(ext, ".png");
    ImageNameFollowsExtension(ext, ".gif");
    ImageNameFollowsExtension(ext, ".webp");
  }

  /** `getProductImage`: 200 with the located file and its headers, 404 when the lookup fails. */
  function GetProductImage(disk: Disk, id: string, listing: seq<string>): (resp: Response)
    requires IsFolderListing(disk, id, listing)
    ensures resp.status == 200 || resp.status == 404
    ensures resp.status == 404 <==> LoadProductImage(disk, id, listing).Err?
    ensures resp.status == 404 ==> resp == Response(404, None, None, NoBody)
    ensures resp.status == 200 ==>
      var image := LoadProductImage(disk, id, listing).value;
      && resp.body == ImageFile(image)
      && resp.contentType == Some(ContentTypeFor(Some(image.filename)))
      && resp.contentType != Some(OctetStream)
      && resp.contentDisposition == Some("inline; filename=\"" + image.filename + "\"")
  {
    match LoadProductImage(disk, id, listing)
    case Err(_) => Response(404, None, None, NoBody)
    case Ok(resource) =>
      var contentType := ContentTypeFor(Some(resource.filename));
      Response(200, Some(contentType), Some("inline; filename=\"" + resource.filename + "\""), ImageFile(resource))
  }

  /**
   * `getAllProducts` with the request parameters `page` (default 0) and `size` (default 10):
   * 200 with the page. The service throws no `IOException`, so the handler's own 500 branch is
   * never taken; when `subList` refuses the range, the unchecked exception leaves the handler
   * and the framework answers 500.
   */
  method GetAllProductsEndpoint(store: FileStorageService, listing: seq<string>, page: Option<int>, size: Option<int>)
    returns (resp: Response)
    ensures var all := NewestFirst(Loaded(store.State(), ProductFolders(store.State(), listing)));
      var p, s := page.GetOr(0), size.GetOr(10);
      var window := RequestedPage(all, p, s);
      && (resp.status == 200 <==> window.Ok?)
      && (window.Err? ==> resp == Response(500, None, None, NoBody))
      && (window.Ok? ==>
            resp == Response(200, None, None, Listing(ProductResponse(ToDtos(window.value), PageCount(|all|, s), |all|, p, s))))
  {
    var p := page.GetOr(0);
    var s := size.GetOr(10);
    var listed := GetAllProducts(store, listing, p, s);
    match listed
    case Ok(response) =>
      resp := Response(200, None, None, Listing(response));
    case Err(_) =>
      resp := Response(500, None, None, NoBody);
  }

  /** With the defaults, the first ten products, newest first, are answered. */
  lemma DefaultListing(all: seq<Product>)
    ensures RequestedPage(all, 0, 10) == Ok(all[..Min(10, |all|)])
    ensures PageCount(|all|, 10) == (|all| + 9) / 10
  {
    if |all| > 0 {
      assert PageOf(all, 0, 10) == all[..Min(10, |all|)];
    }
  }

  function SuccessMessage(count: nat): string {
    "Successfully uploaded " + NatToString(count) + " product(s)"
  }

  /**
   * `uploadProducts`: no files is a 400 and the service is not called; otherwise the products
   * are uploaded and the response object is filled in: 200 on success, 500 on a storage error.
   */
  method UploadEndpoint(store: FileStorageService, files: Option<seq<Upload>>, envs: seq<SaveEnv>) returns (resp: Response)
    requires store.Valid()
    requires files.Some? ==> |files.value| == |envs|
    modifies store
    ensures store.Valid()
    ensures resp.body.JsonObject? && resp.contentType.None? && resp.contentDisposition.None?
    ensures files.None? || files.value == [] ==>
      && resp.status == 400
      && resp.body.fields == map["success" := JBool(false), "message" := JString("No files provided")]
      && store.State() == old(store.State())
    ensures files.Some? && files.value != [] ==>
      var e := UploadFrom(store.config, old(store.State()), files.value, envs, []);
      && store.State() == e.disk
      && (e.result.Ok? ==>
            && resp.status == 200
            && resp.body.fields == map[
                 "success" := JBool(true),
                 "message" := JString(SuccessMessage(|e.result.value|)),
                 "products" := JProducts(e.result.value),
                 "count" := JInt(|e.result.value|)])
      && (e.result.Err? ==>
            && resp.status == 500
            && resp.body.fields == map[
                 "success" := JBool(false),
                 "message" := JString("Error uploading products: " + e.result.error.message)])
  {
    var response: map<string, Json> := map[];
    if files.None? || files.value == [] {
      response := response["success" := JBool(false)];
      response := response["message" := JString("No files provided")];
      return Response(400, None, None, JsonObject(response));
    }

    var uploaded := UploadProducts(store, files.value, envs);
    match uploaded
    case Ok(products) =>
      response := response["success" := JBool(true)];
      response := response["message" := JString(SuccessMessage(|products|))];
      response := response["products" := JProducts(products)];
      response := response["count" := JInt(|products|)];
      resp := Response(200, None, None, JsonObject(response));
    case Err(e) =>
      response := response["success" := JBool(false)];
      response := response["message" := JString("Error uploading products: " + e.message)];
      resp := Response(500, None, None, JsonObject(response));
  }

  /** An upload of one non-empty file followed by an empty one saves just the first. */
  lemma UploadOneOfTwo(config: Config, disk: Disk, f: Upload, g: Upload, env0: SaveEnv, env1: SaveEnv)
    requires !f.IsEmpty() && g.IsEmpty() && SaveAccepted(disk, env0)
    ensures UploadFrom(config, disk, [f, g], [env0, env1], [])
      == Effect(Ok([NewProduct(config, f, env0.id, env0.now)]), SaveEffect(config, disk, f, env0).disk)
  {
    var files, envs := [f, g], [env0, env1];
    var e := SaveEffect(config, disk, f, env0);
    var p := NewProduct(config, f, env0.id, env0.now);
    assert files[0] == f && envs[0] == env0;
    assert files[1..] == [g] && envs[1..] == [env1];
    assert [g][1..] == [] && [env1][1..] == [];
    assert e.result == Ok(p);
    assert [] + [p] == [p];
    calc {
      UploadFrom(config, disk, files, envs, []);
      UploadFrom(config, e.disk, [g], [env1], [p]);
      UploadFrom(config, e.disk, [], [], [p]);
    }
  }

  lemma PhotoName(id: string)
    ensures Extension(Some("photo.JPG")) == ".JPG"
    ensures ProductName(Some("photo.JPG"), id) == "photo"
  {
    assert "photo.JPG" == "photo" + "." + "JPG";
    NameStripsSingleExtension("photo", "JPG", id);
  }

  lemma PhotoImageName()
    ensures ImageFileName(Extension(Some("photo.JPG"))) == "image.JPG"
  {
    PhotoName("");
  }

  lemma PhotoContentType()
    ensures IsImageName("image.JPG")
    ensures ContentTypeFor(Some("image.JPG")) == "image/jpeg"
  {
    var lower := ToLower("image.JPG");
    assert lower[5..] == ".jpg" by {
      assert lower[5] == '.' && lower[6] == LowerChar('J') == 'j';
      assert lower[7] == LowerChar('P') == 'p' && lower[8] == LowerChar('G') == 'g';
    }
  }

  /**
   * After a successful save whose image name has an image suffix, the image endpoint serves the
   * uploaded bytes under that name, with the content type of its suffix.
   */
  lemma SaveThenServeImage(config: Config, disk: Disk, file: Upload, env: SaveEnv, listing: seq<string>)
    requires env.fault == NoFault && FolderName(env.id) !in disk.entries
    requires IsFolderListing(SaveEffect(config, disk, file, env).disk, env.id, listing)
    requires IsImageName(ImageFileName(Extension(file.originalFilename)))
    ensures var image := ImageFileName(Extension(file.originalFilename));
      GetProductImage(SaveEffect(config, disk, file, env).disk, env.id, listing)
        == Response(200, Some(ContentTypeFor(Some(image))), Some("inline; filename=\"" + image + "\""),
                    ImageFile(ImageResource(image, Raw(file.bytes))))
  {
    SaveThenLoadImage(config, disk, file, env, listing);
  }

  /** The stored `photo.JPG` is served as `image/jpeg` with the uploaded bytes. */
  lemma PhotoImageServed(config: Config, disk: Disk, photoFile: Upload, env0: SaveEnv, listing: seq<string>)
    requires photoFile.originalFilename == Some("photo.JPG") && env0.fault == NoFault
    requires FolderName(env0.id) !in disk.entries
    requires IsFolderListing(SaveEffect(config, disk, photoFile, env0).disk, env0.id, listing)
    ensures GetProductImage(SaveEffect(config, disk, photoFile, env0).disk, env0.id, listing)
      == Response(200, Some("image/jpeg"), Some("inline; filename=\"" + "image.JPG" + "\""), ImageFile(ImageResource("image.JPG", Raw(photoFile.bytes))))
  {
    PhotoImageName();
    PhotoContentType();
    SaveThenServeImage(config, disk, photoFile, env0, listing);
  }

  /**
   * End to end: uploading `photo.JPG` (3 bytes) together with an empty `notes.txt` creates one
   * product named `photo` with the declared type and size 3, and its image is served as `image/jpeg`
   * with the uploaded bytes.
   */
  lemma PhotoUploadExample(config: Config, disk: Disk, contentType: Option<string>, photo: Bytes, env0: SaveEnv, env1: SaveEnv, listing: seq<string>)
    requires |photo| == 3 && env0.fault == NoFault && FolderName(env0.id) !in disk.entries
    ensures var files := [Upload(Some("photo.JPG"), contentType, photo), Upload(Some("notes.txt"), Some("text/plain"), [])];
      var e := UploadFrom(config, disk, files, [env0, env1], []);
      && e.result.Ok? && |e.result.value| == 1
      && e.result.value[0].name == "photo"
      && e.result.value[0].contentType == contentType
      && e.result.value[0].fileSize == 3
      && (IsFolderListing(e.disk, env0.id, listing) ==>
            GetProductImage(e.disk, env0.id, listing)
              == Response(200, Some("image/jpeg"), Some("inline; filename=\"" + "image.JPG" + "\""), ImageFile(ImageResource("image.JPG", Raw(photo)))))
  {
    var photoFile := Upload(Some("photo.JPG"), contentType, photo);
    var notes := Upload(Some("notes.txt"), Some("text/plain"), []);
    assert !photoFile.IsEmpty() && notes.IsEmpty();
    UploadOneOfTwo(config, disk, photoFile, notes, env0, env1);
    PhotoName(env0.id);
    var saved := SaveEffect(config, disk, photoFile, env0);
    if IsFolderListing(saved.disk, env0.id, listing) {
      PhotoImageServed(config, disk, photoFile, env0, listing);
    }
  }
}
