/**
 * The file-backed store: one folder `product_<id>` per product under a root directory,
 * holding the uploaded image as `image<ext>` and the metadata sidecar `product-info.json`.
 * The root is a map from entry name to entry; the id, the clock and the order in which a
 * directory lists its entries are parameters, so every operation is deterministic.
 */
module Storage {
  import opened Common
  import opened Text

  type Bytes = seq<bv8>

  /** The persisted product record (`com.assignment.model.Product`); `createdAt` is a timestamp. */
  datatype Product = Product(
    id: string,
    name: string,
    description: string,
    folderPath: string,
    imageUrl: string,
    fileSize: int,
    contentType: Option<string>,
    createdAt: int)

  /** One multipart file as the upload delivers it: original name and declared type may be null. */
  datatype Upload = Upload(originalFilename: Option<string>, contentType: Option<string>, bytes: Bytes) {
    predicate IsEmpty() { |bytes| == 0 }
  }

  /** A regular file: raw bytes, or a sidecar that decodes to a product. */
  datatype FileData = Raw(bytes: Bytes) | Info(product: Product)

  /** An entry of the storage root: a directory with its files, or a plain file. */
  datatype Entry = Dir(files: map<string, FileData>) | PlainFile

  datatype Disk = Disk(rootExists: bool, entries: map<string, Entry>) {
    /** A root that does not exist has no entries. */
    predicate Valid() { rootExists || entries == map[] }
  }

  /** The configured storage path and image URL base. */
  datatype Config = Config(storagePath: string, imageUrlBase: string)

  datatype StorageError = IoFailure(message: string) | Undecodable(message: string)

  /**
   * Which step of a save the file system refuses, if any, with the exception's message. A refused
   * copy or sidecar write may leave a partly written file: `CopyFails` then says how many bytes of
   * the image reached the disk, `InfoWriteFails` what the sidecar holds; `None` leaves the file as
   * it was before the save.
   */
  datatype Fault =
    | NoFault
    | MkdirFails(reason: string)
    | CopyFails(reason: string, copied: Option<nat>)
    | InfoWriteFails(reason: string, written: Option<Bytes>)

  /** What the environment supplies to one save: the generated id, the clock, the fault. */
  datatype SaveEnv = SaveEnv(id: string, now: int, fault: Fault)

  /** A located image: its file name and what the file holds. */
  datatype ImageResource = ImageResource(filename: string, content: FileData)

  /** The result of an operation together with the disk it leaves behind. */
  datatype Effect<T> = Effect(result: Result<T, StorageError>, disk: Disk)

  const FolderPrefix: string := "product_"
  const InfoFileName: string := "product-info.json"

  function FolderName(id: string): string {
    FolderPrefix + id
  }

  /** Save, info lookup, image lookup and listing agree on the folder name: the prefix is stripped back off. */
  lemma FolderNameRoundTrip(id: string, name: string)
    ensures StartsWith(FolderName(id), FolderPrefix) && FolderName(id)[|FolderPrefix|..] == id
    ensures StartsWith(name, FolderPrefix) ==> FolderName(name[|FolderPrefix|..]) == name
  {
    if StartsWith(name, FolderPrefix) {
      assert name == name[..|FolderPrefix|] + name[|FolderPrefix|..];
    }
  }

  /** Distinct ids give distinct folders. */
  lemma FolderNameInjective(a: string, b: string)
    ensures FolderName(a) == FolderName(b) ==> a == b
  {
    if FolderName(a) == FolderName(b) {
      FolderNameRoundTrip(a, "");
      FolderNameRoundTrip(b, "");
    }
  }

  /** The extension of the original file name: from its last `.` to its end, or empty. */
  function Extension(originalFilename: Option<string>): (ext: string)
    ensures originalFilename.None? || '.' !in originalFilename.value ==> ext == ""
    ensures originalFilename.Some? && '.' in originalFilename.value ==>
      |ext| >= 1 && ext[0] == '.' && '.' !in ext[1..] && EndsWith(originalFilename.value, ext)
  {
    match originalFilename
    case None => ""
    case Some(s) =>
      if '.' in s then
        var k := LastIndexOf(s, '.');
        assert s[k..][1..] == s[k + 1..];
        s[k..]
      else ""
  }

  function ImageFileName(ext: string): string {
    "image" + ext
  }

  /** The image and the sidecar never share a name. */
  lemma ImageFileNameIsNotInfoFileName(ext: string)
    ensures ImageFileName(ext) != InfoFileName
  {
    assert ImageFileName(ext)[0] == 'i' != 'p' == InfoFileName[0];
  }

  /** The product name: every occurrence of the extension removed, or `Product <id>` without a file name. */
  function ProductName(originalFilename: Option<string>, id: string): string {
    match originalFilename
    case None => "Product " + id
    case Some(s) => RemoveAll(s, Extension(originalFilename))
  }

  /** A file name without a `.` is the product name unchanged. */
  lemma NameWithoutExtension(s: string, id: string)
    requires '.' !in s
    ensures ProductName(Some(s), id) == s
  {
  }

  /** A file name with a single `.` loses exactly its extension. */
  lemma NameStripsSingleExtension(base: string, rest: string, id: string)
    requires '.' !in base && '.' !in rest
    ensures Extension(Some(base + "." + rest)) == "." + rest
    ensures ProductName(Some(base + "." + rest), id) == base
  {
    var s := base + "." + rest;
    assert s[|base|] == '.';
    var ext := Extension(Some(s));
    assert s == base + ("." + rest);
    assert ext == "." + rest;
    RemoveAllTrailing(base, "." + rest);
  }

  /** A repeated extension is removed everywhere, not only at the end. */
  lemma NameStripsEveryOccurrence()
    ensures Extension(Some("a.jpg.jpg")) == ".jpg"
    ensures ProductName(Some("a.jpg.jpg"), "x") == "a"
  {
    RepeatedExtension();
    RepeatedExtensionRemoved();
  }

  /** The extension of `a.jpg.jpg` starts at its last `.`. */
  lemma RepeatedExtension()
    ensures Extension(Some("a.jpg.jpg")) == ".jpg"
  {
    var s := "a.jpg.jpg";
    assert LastIndexOf(s, '.') == 5;
    assert s[5..] == ".jpg";
  }

  /** Both copies of `.jpg` are removed from `a.jpg.jpg`. */
  lemma RepeatedExtensionRemoved()
    ensures RemoveAll("a.jpg.jpg", ".jpg") == "a"
  {
    var s := "a.jpg.jpg";
    assert s[..4][0] == 'a' != ".jpg"[0];
    assert s[1..][..4] == ".jpg";
    assert s[1..][4..] == ".jpg";
    assert s[1..][4..][4..] == [];
  }

  /** Java's rendering of a possibly null string in a concatenation. */
  function Rendered(s: Option<string>): string {
    s.GetOr("null")
  }

  function Description(originalFilename: Option<string>): string {
    "Product uploaded from image: " + Rendered(originalFilename)
  }

  function FolderPath(config: Config, id: string): string {
    config.storagePath + "/" + FolderName(id)
  }

  function ImageUrl(config: Config, id: string): string {
    config.imageUrlBase + "/" + id
  }

  /** The record `saveProduct` fills in through the product's setters. */
  function NewProduct(config: Config, file: Upload, id: string, now: int): Product {
    Product(
      id,
      ProductName(file.originalFilename, id),
      Description(file.originalFilename),
      FolderPath(config, id),
      ImageUrl(config, id),
      |file.bytes|,
      file.contentType,
      now)
  }

  /**
   * The record `saveProduct` fills in: the name is the original file name with its extension
   * removed (`Product <id>` without a file name), the URL is the id under the configured base,
   * and the size, declared type and time are the upload's.
   */
  lemma NewProductFields(config: Config, file: Upload, id: string, now: int)
    ensures var p := NewProduct(config, file, id, now);
      && p.id == id && p.createdAt == now
      && p.fileSize == |file.bytes| && p.contentType == file.contentType
      && p.imageUrl == config.imageUrlBase + "/" + id
      && p.folderPath == config.storagePath + "/" + FolderPrefix + id
      && p.description == "Product uploaded from image: " + Rendered(file.originalFilename)
      && (file.originalFilename.None? ==> p.name == "Product " + id && p.description == "Product uploaded from image: null")
      && (file.originalFilename.Some? && '.' !in file.originalFilename.value ==> p.name == file.originalFilename.value)
      && (file.originalFilename.Some? && '.' in file.originalFilename.value ==>
            var s, ext := file.originalFilename.value, Extension(file.originalFilename);
            EndsWith(s, ext) && |p.name| <= |s| - |ext|)
  {
    assert config.storagePath + "/" + FolderName(id) == config.storagePath + "/" + FolderPrefix + id;
    if file.originalFilename.Some? && '.' in file.originalFilename.value {
      var s, ext := file.originalFilename.value, Extension(file.originalFilename);
      assert OccursAt(s, ext, |s| - |ext|);
    }
  }

  /** A plain file already holds the folder's name, so the folder cannot be created. */
  predicate FolderBlocked(disk: Disk, id: string) {
    FolderName(id) in disk.entries && disk.entries[FolderName(id)].PlainFile?
  }

  /** The files of the product's folder before a save: none when the folder does not exist yet. */
  function FilesBefore(disk: Disk, id: string): map<string, FileData> {
    var folder := FolderName(id);
    if folder in disk.entries && disk.entries[folder].Dir? then disk.entries[folder].files else map[]
  }

  /**
   * `saveProduct` as a state transition: the folder is created (or reused when it exists), then
   * the image is written, then the sidecar, each replacing a file of the same name; a refused step
   * ends the save with what was written so far left behind. A plain file in the folder's place
   * makes the creation fail with the folder's path as the message.
   */
  function SaveEffect(config: Config, disk: Disk, file: Upload, env: SaveEnv): Effect<Product> {
    var folder := FolderName(env.id);
    var image := ImageFileName(Extension(file.originalFilename));
    var p := NewProduct(config, file, env.id, env.now);
    var before := FilesBefore(disk, env.id);
    var copied := before[image := Raw(file.bytes)];
    if FolderBlocked(disk, env.id) then Effect(Err(IoFailure(FolderPath(config, env.id))), disk)
    else
      match env.fault
      case MkdirFails(m) => Effect(Err(IoFailure(m)), disk)
      case CopyFails(m, copiedBytes) =>
        var files := if copiedBytes.None? then before
          else before[image := Raw(file.bytes[..Min(copiedBytes.value, |file.bytes|)])];
        Effect(Err(IoFailure(m)), Disk(true, disk.entries[folder := Dir(files)]))
      case InfoWriteFails(m, written) =>
        var files := if written.None? then copied else copied[InfoFileName := Raw(written.value)];
        Effect(Err(IoFailure(m)), Disk(true, disk.entries[folder := Dir(files)]))
      case NoFault => Effect(Ok(p), Disk(true, disk.entries[folder := Dir(copied[InfoFileName := Info(p)])]))
  }

  /** A save changes no entry of the root except its own folder, and keeps the disk valid. */
  lemma SaveTouchesOnlyItsFolder(config: Config, disk: Disk, file: Upload, env: SaveEnv, name: string)
    requires disk.Valid()
    requires name != FolderName(env.id)
    ensures var d := SaveEffect(config, disk, file, env).disk;
      && d.Valid()
      && (name in d.entries <==> name in disk.entries)
      && (name in disk.entries ==> d.entries[name] == disk.entries[name])
      && (FolderName(env.id) in d.entries <==> FolderName(env.id) in disk.entries || !env.fault.MkdirFails?)
      && (!FolderBlocked(disk, env.id) && !env.fault.MkdirFails? ==> d.entries[FolderName(env.id)].Dir?)
  {
  }

  /** A save never turns an entry into a plain file or a plain file into anything else. */
  lemma SaveKeepsBlocked(config: Config, disk: Disk, file: Upload, env: SaveEnv, id: string)
    ensures FolderBlocked(SaveEffect(config, disk, file, env).disk, id) <==> FolderBlocked(disk, id)
  {
  }

  /**
   * The save fails exactly when a step is refused or a plain file is in the folder's place; a
   * successful save leaves the image and the sidecar, beside the files the folder already held.
   */
  lemma SaveSucceedsIff(config: Config, disk: Disk, file: Upload, env: SaveEnv)
    ensures var e := SaveEffect(config, disk, file, env);
      var image := ImageFileName(Extension(file.originalFilename));
      && (e.result.Ok? <==> env.fault == NoFault && !FolderBlocked(disk, env.id))
      && (FolderBlocked(disk, env.id) ==> e == Effect(Err(IoFailure(FolderPath(config, env.id))), disk))
      && (e.result.Ok? ==>
            && e.result.value == NewProduct(config, file, env.id, env.now)
            && FolderName(env.id) in e.disk.entries
            && e.disk.entries[FolderName(env.id)].Dir?
            && e.disk.entries[FolderName(env.id)].files.Keys == FilesBefore(disk, env.id).Keys + {image, InfoFileName}
            && e.disk.entries[FolderName(env.id)].files[image] == Raw(file.bytes)
            && (FolderName(env.id) !in disk.entries ==> e.disk.entries[FolderName(env.id)].files.Keys == {image, InfoFileName}))
  {
    ImageFileNameIsNotInfoFileName(Extension(file.originalFilename));
  }

  /** `loadProductInfo`: the sidecar of `product_<id>`, decoded. */
  function LoadProductInfo(disk: Disk, id: string): (r: Result<Product, StorageError>)
    ensures r == Err(IoFailure("Product info not found: " + id)) <==> !SidecarPresent(disk, id)
    ensures r.Ok? <==> SidecarPresent(disk, id) && disk.entries[FolderName(id)].files[InfoFileName].Info?
    ensures r.Ok? ==> disk.entries[FolderName(id)].files[InfoFileName] == Info(r.value)
    ensures r.Err? && SidecarPresent(disk, id) ==> r == Err(Undecodable("Cannot decode product info: " + id))
  {
    if SidecarPresent(disk, id) then
      match disk.entries[FolderName(id)].files[InfoFileName]
      case Info(p) => Ok(p)
      case Raw(_) => Err(Undecodable("Cannot decode product info: " + id))
    else Err(IoFailure("Product info not found: " + id))
  }

  predicate SidecarPresent(disk: Disk, id: string) {
    var folder := FolderName(id);
    folder in disk.entries && disk.entries[folder].Dir? && InfoFileName in disk.entries[folder].files
  }

  /** Round trip: what a successful save records is what loading its sidecar gives back. */
  lemma SaveThenLoadInfo(config: Config, disk: Disk, file: Upload, env: SaveEnv)
    ensures var e := SaveEffect(config, disk, file, env);
      e.result.Ok? ==> LoadProductInfo(e.disk, env.id) == e.result
  {
    ImageFileNameIsNotInfoFileName(Extension(file.originalFilename));
  }

  /**
   * A save into a new folder, interrupted while the image or the sidecar is written, leaves the
   * folder behind but no loadable info: no sidecar at all, or a partly written one that does not
   * decode.
   */
  lemma InterruptedSaveHasNoInfo(config: Config, disk: Disk, file: Upload, env: SaveEnv)
    requires env.fault.CopyFails? || env.fault.InfoWriteFails?
    requires FolderName(env.id) !in disk.entries
    ensures var e := SaveEffect(config, disk, file, env);
      && FolderName(env.id) in e.disk.entries
      && e.result == Err(IoFailure(env.fault.reason))
      && (env.fault.CopyFails? || env.fault.written.None? ==>
            LoadProductInfo(e.disk, env.id) == Err(IoFailure("Product info not found: " + env.id)))
      && (env.fault.InfoWriteFails? && env.fault.written.Some? ==>
            LoadProductInfo(e.disk, env.id) == Err(Undecodable("Cannot decode product info: " + env.id)))
  {
    ImageFileNameIsNotInfoFileName(Extension(file.originalFilename));
  }

  /** The suffixes the image filter accepts, after lower-casing. */
  predicate IsImageName(name: string) {
    var lower := ToLower(name);
    EndsWith(lower, ".jpg") || EndsWith(lower, ".jpeg") || EndsWith(lower, ".png")
      || EndsWith(lower, ".gif") || EndsWith(lower, ".webp")
  }

  /** The position of the first image name in a directory listing. */
  function FirstImage(names: seq<string>): (r: Option<nat>)
    ensures r.None? <==> forall i :: 0 <= i < |names| ==> !IsImageName(names[i])
    ensures r.Some? ==>
      && r.value < |names| && IsImageName(names[r.value])
      && forall i :: 0 <= i < r.value ==> !IsImageName(names[i])
  {
    if names == [] then None
    else if IsImageName(names[0]) then Some(0)
    else
      match FirstImage(names[1..])
      case None => None
      case Some(k) => Some(k + 1)
  }

  /** `listing` enumerates the names of `keys`, each exactly once, in some order. */
  ghost predicate IsListingOf(listing: seq<string>, keys: set<string>) {
    && (forall n :: n in listing <==> n in keys)
    && (forall i, j :: 0 <= i < j < |listing| ==> listing[i] != listing[j])
  }

  ghost predicate IsFolderListing(disk: Disk, id: string, listing: seq<string>) {
    var folder := FolderName(id);
    folder in disk.entries && disk.entries[folder].Dir? ==> IsListingOf(listing, disk.entries[folder].files.Keys)
  }

  /**
   * `loadProductImage`: the folder must exist and be a directory, and the answer is its first
   * entry, in listing order, whose lower-cased name has an image suffix.
   */
  function LoadProductImage(disk: Disk, id: string, listing: seq<string>): (r: Result<ImageResource, StorageError>)
    requires IsFolderListing(disk, id, listing)
    ensures FolderName(id) !in disk.entries ==> r == Err(IoFailure("Product folder not found: " + id))
    ensures FolderName(id) in disk.entries ==>
      (r.Ok? <==> disk.entries[FolderName(id)].Dir? && exists i :: 0 <= i < |listing| && IsImageName(listing[i]))
    ensures r.Err? && FolderName(id) in disk.entries ==> r == Err(IoFailure("Image file not found for product: " + id))
    ensures r.Ok? ==>
      && IsImageName(r.value.filename)
      && r.value.filename in disk.entries[FolderName(id)].files
      && r.value.content == disk.entries[FolderName(id)].files[r.value.filename]
      && exists k :: 0 <= k < |listing| && listing[k] == r.value.filename
           && forall i :: 0 <= i < k ==> !IsImageName(listing[i])
  {
    var folder := FolderName(id);
    if folder !in disk.entries then Err(IoFailure("Product folder not found: " + id))
    else
      match disk.entries[folder]
      case PlainFile => Err(IoFailure("Image file not found for product: " + id))
      case Dir(files) =>
        match FirstImage(listing)
        case None => Err(IoFailure("Image file not found for product: " + id))
        case Some(k) => Ok(ImageResource(listing[k], files[listing[k]]))
  }

  /** The sidecar's name is never taken for an image. */
  lemma InfoFileIsNotImage()
    ensures !IsImageName(InfoFileName)
  {
    var lower := ToLower(InfoFileName);
    assert lower == InfoFileName;
    assert lower[|lower| - 4..] == "json";
    assert lower[|lower| - 5..] == ".json";
  }

  /**
   * Round trip: after a successful save of a file whose extension is an image suffix, the image lookup,
   * whatever the listing order, returns the stored file with the uploaded bytes; with any other extension
   * the lookup fails.
   */
  lemma SaveThenLoadImage(config: Config, disk: Disk, file: Upload, env: SaveEnv, listing: seq<string>)
    requires env.fault == NoFault && FolderName(env.id) !in disk.entries
    requires IsFolderListing(SaveEffect(config, disk, file, env).disk, env.id, listing)
    ensures var image := ImageFileName(Extension(file.originalFilename));
      var r := LoadProductImage(SaveEffect(config, disk, file, env).disk, env.id, listing);
      && (IsImageName(image) ==> r == Ok(ImageResource(image, Raw(file.bytes))))
      && (!IsImageName(image) ==> r.Err?)
  {
    var image := ImageFileName(Extension(file.originalFilename));
    var e := SaveEffect(config, disk, file, env);
    ImageFileNameIsNotInfoFileName(Extension(file.originalFilename));
    InfoFileIsNotImage();
    var files := e.disk.entries[FolderName(env.id)].files;
    assert files.Keys == {image, InfoFileName};
    forall i | 0 <= i < |listing| ensures listing[i] == image || listing[i] == InfoFileName {
      assert listing[i] in listing;
    }
    if IsImageName(image) {
      assert image in listing;
      var k :| 0 <= k < |listing| && listing[k] == image;
      assert FirstImage(listing).Some?;
    }
  }

  /**
   * A copy into a new folder that breaks off after `k` bytes leaves a truncated image, and the
   * image lookup serves those first bytes as if they were the whole upload.
   */
  lemma InterruptedCopyServesTruncatedImage(config: Config, disk: Disk, file: Upload, env: SaveEnv, listing: seq<string>)
    requires env.fault.CopyFails? && env.fault.copied.Some? && FolderName(env.id) !in disk.entries
    requires IsFolderListing(SaveEffect(config, disk, file, env).disk, env.id, listing)
    requires IsImageName(ImageFileName(Extension(file.originalFilename)))
    ensures var image := ImageFileName(Extension(file.originalFilename));
      LoadProductImage(SaveEffect(config, disk, file, env).disk, env.id, listing)
        == Ok(ImageResource(image, Raw(file.bytes[..Min(env.fault.copied.value, |file.bytes|)])))
  {
    var image := ImageFileName(Extension(file.originalFilename));
    var e := SaveEffect(config, disk, file, env);
    assert e.disk.entries[FolderName(env.id)].files.Keys == {image};
    assert listing[0] in listing;
    assert FirstImage(listing) == Some(0);
  }

  /** The image suffix test of a stored file looks only at its extension: `image` adds no suffix of its own. */
  lemma ImageNameFollowsExtension(ext: string, suffix: string)
    requires |suffix| > 0 && suffix[0] == '.'
    ensures EndsWith(ToLower(ImageFileName(ext)), suffix) <==> EndsWith(ToLower(ext), suffix)
    ensures IsImageName(ImageFileName(ext)) <==> IsImageName(ext)
  {
    ToLowerAppend("image", ext);
    ToLowerKeepsDots("image");
    forall suf | |suf| > 0 && suf[0] == '.'
      ensures EndsWith(ToLower("image") + ToLower(ext), suf) <==> EndsWith(ToLower(ext), suf)
    {
      EndsWithDotted(ToLower("image"), ToLower(ext), suf);
    }
  }

  /** `getAllProductFolders`: the listed root entries that are directories, or none when there is no root. */
  function ProductFolders(disk: Disk, listing: seq<string>): (r: seq<string>)
    ensures !disk.rootExists ==> r == []
    ensures disk.rootExists ==> forall n :: n in r <==> n in listing && n in disk.entries && disk.entries[n].Dir?
    ensures IsSubsequence(r, listing)
  {
    if disk.rootExists then Directories(disk.entries, listing) else []
  }

  /**
   * `r` can be obtained from `s` by dropping elements: it keeps their order. Matching from the
   * back, each element of `r` is paired with its last possible position in `s`.
   */
  predicate IsSubsequence<T(==)>(r: seq<T>, s: seq<T>)
    decreases |s|
  {
    if r == [] then true
    else if s == [] then false
    else if r[|r| - 1] == s[|s| - 1] then IsSubsequence(r[..|r| - 1], s[..|s| - 1])
    else IsSubsequence(r, s[..|s| - 1])
  }

  /** The listed entries that are directories, in listing order. */
  function Directories(entries: map<string, Entry>, listing: seq<string>): (r: seq<string>)
    ensures forall n :: n in r <==> n in listing && n in entries && entries[n].Dir?
    ensures IsSubsequence(r, listing)
    ensures |r| <= |listing|
  {
    if listing == [] then []
    else
      var rest := Directories(entries, listing[..|listing| - 1]);
      var n := listing[|listing| - 1];
      assert listing == listing[..|listing| - 1] + [n];
      if n in entries && entries[n].Dir? then rest + [n] else rest
  }

  /**
   * The file store object: the root directory's state, updated in place by `saveProduct`;
   * the read-only operations above are functions of `State()`.
   */
  class FileStorageService {
    const config: Config
    var rootExists: bool
    var entries: map<string, Entry>

    function State(): Disk
      reads this
    {
      Disk(rootExists, entries)
    }

    ghost predicate Valid()
      reads this
    {
      State().Valid()
    }

    constructor (config: Config, disk: Disk)
      requires disk.Valid()
      ensures Valid() && this.config == config && State() == disk
    {
      this.config := config;
      rootExists := disk.rootExists;
      entries := disk.entries;
    }

    /**
     * `saveProduct`: create the folder (or reuse it), copy the image in, build the record, write
     * the sidecar; a refused step returns its error with what was written so far left on disk.
     */
    method SaveProduct(file: Upload, env: SaveEnv) returns (r: Result<Product, StorageError>)
      requires Valid()
      modifies this
      ensures Valid()
      ensures Effect(r, State()) == SaveEffect(config, old(State()), file, env)
    {
      var folder := FolderName(env.id);
      if folder in entries && entries[folder].PlainFile? {
        return Err(IoFailure(FolderPath(config, env.id)));
      }
      if env.fault.MkdirFails? {
        return Err(IoFailure(env.fault.reason));
      }
      var files := if folder in entries then entries[folder].files else map[];
      var ext := Extension(file.originalFilename);
      var image := ImageFileName(ext);
      var product := NewProduct(config, file, env.id, env.now);
      rootExists := true;
      // The folder now exists; its files are gathered in `files` and the folder entry is written
      // once, with everything each path has written by the time it ends.
      if env.fault.CopyFails? {
        if env.fault.copied.Some? {
          var k := Min(env.fault.copied.value, |file.bytes|);
          files := files[image := Raw(file.bytes[..k])];
        }
        entries := entries[folder := Dir(files)];
        return Err(IoFailure(env.fault.reason));
      }
      files := files[image := Raw(file.bytes)];
      if env.fault.InfoWriteFails? {
        if env.fault.written.Some? {
          files := files[InfoFileName := Raw(env.fault.written.value)];
        }
        entries := entries[folder := Dir(files)];
        return Err(IoFailure(env.fault.reason));
      }
      entries := entries[folder := Dir(files[InfoFileName := Info(product)])];
      r := Ok(product);
    }
  }
}
