# Product catalogue over a file store

This is a model of the Spring Boot product catalogue `com.assignment`. It covers:

- the file store `FileStorageService`, which keeps one folder `product_<id>` per product under a configured root;
- the service `ProductService`, which runs multi-file uploads and a sorted, paginated listing;
- the REST controller `ProductController` under `/api/products`.

Each product folder holds two files:

- the uploaded image, named `image<ext>` after the extension of the original file name;
- the metadata sidecar `product-info.json`.

The model has four modules:

- `Common`: `Option` and `Result`, which stand for Java's nullable references and checked exceptions.
- `Text`: the `java.lang.String` operations the code relies on, namely `lastIndexOf`, `replace`, `toLowerCase`, `endsWith` and `startsWith`.
- `Storage`:
  - the disk as a value `Disk`: a map from root entry names to directories of files, or plain files;
  - `saveProduct` as the state transition `SaveEffect`;
  - the read operations `loadProductInfo`, `loadProductImage` and `getAllProductFolders` as functions of the disk;
  - the class `FileStorageService`, whose `SaveProduct` updates the root in place and is proved equal to `SaveEffect`.
- `Catalog`:
  - `uploadProducts` as the transition `UploadFrom` and as a loop method over the store;
  - the listing loop `CollectProducts`;
  - the in-place stable insertion sort `SortNewestFirst`, proved equal to the functional `NewestFirst`;
  - Java's page arithmetic `PageCount`, `RequestedPage` and `PageOf`;
  - the DTO conversion.
- `Controller`: the three endpoints as responses carrying a status, the `Content-Type` and `Content-Disposition` headers, and a body.

What the environment decides is passed in as a parameter:

- the random UUID and the clock (`SaveEnv.id`, `SaveEnv.now`);
- which step of a save the file system refuses, with the exception's message, and how much of a refused copy or sidecar write reached the disk (`SaveEnv.fault`);
- the order in which a directory lists its entries (`listing`).

With those fixed, every operation is deterministic. A refused step ends the save. Whatever was written before it stays on disk, a partly written image or sidecar included, and an upload never rolls back the products it already saved. A save into a folder that already exists adds its files beside the ones there, and a plain file in the folder's place makes the save fail.

A product's name is the original file name with every occurrence of its extension removed, because that is what `String.replace` does. It is not only the trailing extension that goes: `a.jpg.jpg` becomes `a` (`NameStripsEveryOccurrence`).

## Model

| member | source | states |
|---|---|---|
| Text.LastIndexOf | src/main/java/com/assignment/service/FileStorageService.java:44 | -1 exactly when the character is absent; otherwise the position holds it and no later position does |
| Text.RemoveAll | src/main/java/com/assignment/service/FileStorageService.java:53 | `replace(t, "")` never lengthens the string; it leaves it unchanged when `t` is empty or does not occur, and removes at least `|t|` characters when `t` occurs |
| Text.RemoveAllLeftmost | src/main/java/com/assignment/service/FileStorageService.java:53 | the text before the leftmost occurrence of `t` is kept, that occurrence is dropped, and the removal resumes on the text right after it |
| Text.RemoveAllTrailing | src/main/java/com/assignment/service/FileStorageService.java:53 | when `t` starts with a character absent from `base`, removing `t` from `base + t` gives back `base` |
| Text.NatToString | src/main/java/com/assignment/controller/ProductController.java:48 | the decimal rendering of a count is a non-empty string of digits without a leading zero whose value is the count, one digit exactly below ten |
| Storage.FolderNameRoundTrip | src/main/java/com/assignment/service/ProductService.java:41-43 | the folder name of an id starts with `product_`, and stripping the prefix gives back the id; a listed name with the prefix is the folder of its stripped id |
| Storage.FolderNameInjective | src/main/java/com/assignment/service/FileStorageService.java:33-37 | distinct product ids give distinct folders |
| Storage.Extension | src/main/java/com/assignment/service/FileStorageService.java:41-45 | empty for a null name or a name without `.`; otherwise a suffix of the name that starts at a `.` and contains no other `.` (from the last `.`) |
| Storage.ImageFileNameIsNotInfoFileName | src/main/java/com/assignment/service/FileStorageService.java:46-62 | the stored image never shares a name with `product-info.json` |
| Storage.NameWithoutExtension | src/main/java/com/assignment/service/FileStorageService.java:53 | a file name without `.` becomes the product name unchanged |
| Storage.NameStripsSingleExtension | src/main/java/com/assignment/service/FileStorageService.java:42-53 | for `base.rest` with a single `.`, the extension is `.rest` and the product name is `base` |
| Storage.NameStripsEveryOccurrence | src/main/java/com/assignment/service/FileStorageService.java:53 | for `a.jpg.jpg` the extension is `.jpg` and the name is `a`: every occurrence is removed |
| Storage.NewProductFields | src/main/java/com/assignment/service/FileStorageService.java:51-59 | the record has the generated id, the clock's time, the upload's size and declared type, the image URL `<base>/<id>`, the folder path `<storage>/product_<id>` and the description `Product uploaded from image: <name>` (`null` without a name); the name is `Product <id>` without a file name, the file name itself without a `.`, and otherwise shorter than the file name by at least the extension, which the file name ends with |
| Storage.SaveTouchesOnlyItsFolder | src/main/java/com/assignment/service/FileStorageService.java:31-66 | a save, successful or not, changes no root entry other than its own folder; it creates that folder unless directory creation is refused, and leaves a directory there unless a plain file is in the way or creation is refused |
| Storage.SaveKeepsBlocked | src/main/java/com/assignment/service/FileStorageService.java:35-38 | a save never creates or removes a plain file in the root, so it blocks no later save and unblocks none |
| Storage.SaveSucceedsIff | src/main/java/com/assignment/service/FileStorageService.java:31-66 | a save returns a product exactly when no step is refused and no plain file holds the folder's name, which fails with the folder's path and changes nothing; on success the product is the record built from the upload, the folder holds its earlier files plus the image with the uploaded bytes and the sidecar, and a new folder holds exactly those two |
| Storage.LoadProductInfo | src/main/java/com/assignment/service/FileStorageService.java:99-107 | "Product info not found: <id>" exactly when the sidecar is absent; a product exactly when the sidecar is present and decodes, and then the product it holds; "Cannot decode product info: <id>" for a present sidecar that does not decode |
| Storage.SaveThenLoadInfo | src/main/java/com/assignment/service/FileStorageService.java:62-63 | after a successful save, loading the product's info returns exactly the saved record |
| Storage.InterruptedSaveHasNoInfo | src/main/java/com/assignment/service/FileStorageService.java:38-63 | a save into a new folder refused while copying the image or writing the sidecar returns the refusal's message and leaves the folder behind; its info is "not found" when no sidecar was started and "cannot decode" when a partial sidecar was left |
| Storage.FirstImage | src/main/java/com/assignment/service/FileStorageService.java:77-89 | no position when no listed name passes the image filter; otherwise the first position whose name passes it |
| Storage.LoadProductImage | src/main/java/com/assignment/service/FileStorageService.java:68-97 | a missing folder gives "Product folder not found: <id>"; a folder with no image name gives "Image file not found for product: <id>"; otherwise the first image-suffixed entry in listing order, with its contents |
| Storage.InterruptedCopyServesTruncatedImage | src/main/java/com/assignment/service/FileStorageService.java:47-89 | a copy into a new folder broken off after `k` bytes leaves an image that the lookup serves with only the first `k` bytes of the upload |
| Storage.SaveThenLoadImage | src/main/java/com/assignment/service/FileStorageService.java:46-89 | after a successful save into a new folder, the image lookup returns the stored `image<ext>` with the uploaded bytes whatever the listing order if the extension has an image suffix, and fails otherwise |
| Storage.ImageNameFollowsExtension | src/main/java/com/assignment/service/FileStorageService.java:46 | the lower-cased stored name ends with a dotted suffix exactly when the lower-cased extension does, so the stored name passes the image filter exactly when the extension does |
| Storage.ProductFolders | src/main/java/com/assignment/service/FileStorageService.java:109-116 | no folders when the root is missing; otherwise exactly the listed root entries that are directories, in listing order |
| Storage.Directories | src/main/java/com/assignment/service/FileStorageService.java:115 | exactly the listed names that are directories, as a subsequence of the listing (listing order kept), and no more names than listed |
| Storage.FileStorageService.SaveProduct | src/main/java/com/assignment/service/FileStorageService.java:31-66 | creates or reuses the folder, copies the image and writes the sidecar, stopping at a refused step with its partial write left behind; the returned result and the new root are those of `SaveEffect`, and the root stays valid |
| Catalog.ToDtos | src/main/java/com/assignment/service/ProductService.java:69-79 | one DTO per product of the page |
| Catalog.ToDtosCopiesFields | src/main/java/com/assignment/service/ProductService.java:69-79 | each DTO carries its product's id, name, description, image URL, creation time, size and content type |
| Catalog.LoadedMembership | src/main/java/com/assignment/service/ProductService.java:40-52 | a product is collected exactly when some listed `product_` folder's info loads to it |
| Catalog.ListedFromRoot | src/main/java/com/assignment/service/ProductService.java:37-52 | when the root listing names every root entry once, the collected products are exactly those of the `product_` directories whose info loads |
| Catalog.BrokenSidecarDropsOnlyItsProduct | src/main/java/com/assignment/service/ProductService.java:44-50 | deleting or corrupting one folder's sidecar drops exactly that folder's product; every other product is collected, in the same order |
| Catalog.CollectProducts | src/main/java/com/assignment/service/ProductService.java:37-52 | the loop collects, in listing order, the products whose `product_` folder's info loads, and skips the others |
| Catalog.InsertByDatePermutation | src/main/java/com/assignment/service/ProductService.java:55 | inserting a product adds exactly that product to the list |
| Catalog.InsertByDateSorted | src/main/java/com/assignment/service/ProductService.java:55 | inserting into a newest-first list keeps it newest first |
| Catalog.InsertByDateStable | src/main/java/com/assignment/service/ProductService.java:55 | an inserted product lands after every product with the same creation time |
| Catalog.NewestFirstSortedPermutation | src/main/java/com/assignment/service/ProductService.java:55 | the sorted list is ordered by creation time, newest first, and is a permutation of the collected products |
| Catalog.NewestFirstStable | src/main/java/com/assignment/service/ProductService.java:55 | products with equal creation times keep their collection order (`List.sort` is stable) |
| Catalog.InsertAt | src/main/java/com/assignment/service/ProductService.java:55 | one pass of the in-place sort moves the next product left past the strictly older ones; the prefix becomes the insertion of that product, and the rest of the array is unchanged |
| Catalog.SortNewestFirst | src/main/java/com/assignment/service/ProductService.java:55 | the array is sorted in place into the stable newest-first order |
| Catalog.TotalPages | src/main/java/com/assignment/service/ProductService.java:59 | for a positive size, the least page count whose pages hold all elements |
| Catalog.PageOf | src/main/java/com/assignment/service/ProductService.java:60-66 | at most `size` elements; empty exactly when the page is not below the page count; otherwise the elements from `page * size` on, `min(size, remaining)` of them |
| Catalog.PagesArePrefix | src/main/java/com/assignment/service/ProductService.java:58-66 | the first `k` pages laid end to end are the prefix of `k * size` elements |
| Catalog.PagesPartitionList | src/main/java/com/assignment/service/ProductService.java:58-66 | all pages laid end to end give back the whole sorted list, each element once |
| Catalog.PageCount | src/main/java/com/assignment/service/ProductService.java:59 | `(int) Math.ceil((double) total / size)`: the ceiling for any nonzero size, `Integer.MAX_VALUE` for size 0 with elements, and 0 for size 0 without |
| Catalog.RequestedPage | src/main/java/com/assignment/service/ProductService.java:60-66 | `subList` throws exactly when the start is before the end of the list and the start or the size is negative; for a valid page and size the result is `PageOf`; size 0 gives an empty page |
| Catalog.GetAllProducts | src/main/java/com/assignment/service/ProductService.java:36-82 | the response holds the DTOs of the requested window of the newest-first collected products, with the total, Java's page count and the echoed page and size; for sidecars that are complete records or undecodable, it is an error exactly when `subList` throws |
| Catalog.CreatedOnePerNonEmptyFile | src/main/java/com/assignment/service/ProductService.java:26-31 | one product per non-empty file; each is the record saved from its file under its file's id |
| Catalog.CreatedIdsDistinct | src/main/java/com/assignment/service/ProductService.java:23-34 | the products of an upload have pairwise distinct ids when the generated ids are distinct |
| Catalog.UploadSucceedsIff | src/main/java/com/assignment/service/ProductService.java:23-34 | the upload returns products exactly when no non-empty file's save is refused and no plain file holds one of their folders' names |
| Catalog.AcceptedAfterSave | src/main/java/com/assignment/service/ProductService.java:26-31 | whether the remaining saves go through is the same before and after one save |
| Catalog.UploadReturnsCreated | src/main/java/com/assignment/service/ProductService.java:23-34 | a successful upload returns one product per non-empty file, in input order |
| Catalog.UploadFromStep | src/main/java/com/assignment/service/ProductService.java:27-29 | a non-empty file is saved and its product appended before the rest is processed; a refused or blocked save ends the upload with an error |
| Catalog.FreshAfterSave | src/main/java/com/assignment/service/FileStorageService.java:33-38 | after one save, the remaining generated ids still name no existing folder |
| Catalog.UploadKeepsExistingEntries | src/main/java/com/assignment/service/ProductService.java:23-34 | an upload leaves every entry that was already in the root as it was |
| Catalog.UploadKeepsEarlierSaves | src/main/java/com/assignment/service/ProductService.java:26-31 | there is no rollback: a product saved before a later save failed can still be loaded afterwards |
| Catalog.UploadProducts | src/main/java/com/assignment/service/ProductService.java:23-34 | the loop over the store saves the non-empty files in order and stops at the first error; its result and final root are those of `UploadFrom` |
| Controller.ContentTypeFor | src/main/java/com/assignment/controller/ProductController.java:78-93 | `image/jpeg` exactly when the lower-cased name ends in `.jpg` or `.jpeg`, `image/png` exactly for `.png`, `image/gif` for `.gif`, `image/webp` for `.webp`; `application/octet-stream` exactly when the name is null or has none of these suffixes |
| Controller.ImageSuffixesDiffer | src/main/java/com/assignment/controller/ProductController.java:84-92 | no name ends in two of the image suffixes of different types, so the order of the checks does not matter |
| Controller.ContentTypeIgnoresCase | src/main/java/com/assignment/controller/ProductController.java:84-92 | the content type of a name equals that of its lower-cased form |
| Controller.StoredImageContentType | src/main/java/com/assignment/controller/ProductController.java:82-92 | a stored `image<ext>` is served with the content type its extension implies |
| Controller.GetProductImage | src/main/java/com/assignment/controller/ProductController.java:74-106 | 404 with no body exactly when the lookup fails; otherwise 200 with the file, an image content type and `inline; filename="<name>"` |
| Controller.GetAllProductsEndpoint | src/main/java/com/assignment/controller/ProductController.java:61-72 | with defaults page 0 and size 10: 200 with the service's page, or 500 with no body when `subList` throws |
| Controller.DefaultListing | src/main/java/com/assignment/controller/ProductController.java:63-64 | with the default parameters, the page is the first ten products and the page count is the ceiling of the total over ten |
| Controller.UploadEndpoint | src/main/java/com/assignment/controller/ProductController.java:32-59 | no files gives 400 with `success` false and "No files provided", and the store is untouched; otherwise the upload runs and the answer is 200 with `success`, message, products and count, or 500 with "Error uploading products: <message>" |
| Controller.UploadOneOfTwo | src/main/java/com/assignment/service/ProductService.java:26-31 | uploading a non-empty file and an empty one saves only the first and returns its product |
| Controller.PhotoName | src/main/java/com/assignment/service/FileStorageService.java:41-53 | `photo.JPG` has extension `.JPG` and product name `photo` |
| Controller.PhotoImageName | src/main/java/com/assignment/service/FileStorageService.java:41-46 | `photo.JPG` is stored as `image.JPG` |
| Controller.PhotoContentType | src/main/java/com/assignment/controller/ProductController.java:84-85 | `image.JPG` passes the image filter and is served as `image/jpeg` |
| Controller.SaveThenServeImage | src/main/java/com/assignment/controller/ProductController.java:77-101 | after a successful save of an image-suffixed file into a new folder, the endpoint answers 200 with the uploaded bytes, the stored name and that name's content type |
| Controller.PhotoImageServed | src/main/java/com/assignment/controller/ProductController.java:77-101 | a saved `photo.JPG` is served as `image/jpeg`, inline as `image.JPG`, with the uploaded bytes |
| Controller.PhotoUploadExample | src/main/java/com/assignment/service/ProductService.java:23-34 | uploading `photo.JPG` (3 bytes) with an empty `notes.txt` creates one product named `photo`, of size 3 and the declared type; its image is served as `image/jpeg` with those bytes |

## Left out

- Real file system, multipart and network I/O: the disk is a value, and the faults and their messages are parameters.
- Directory listing order: it is a parameter (`listing`). `IsFolderListing` only requires that it name each file of the folder exactly once.
- UUID generation and the clock: they are parameters. The operations also cover an id whose folder exists. The lemmas about what a whole upload leaves on disk (`Catalog.UploadKeepsExistingEntries`, `Catalog.UploadKeepsEarlierSaves`) assume the generated ids to be new and pairwise distinct, as random UUIDs practically are.
- Storage.SaveEffect: a refused copy either leaves the image as it was or leaves a prefix of the upload; the deletion of an old image of the same name before the copy (`REPLACE_EXISTING`) is not modelled separately.
- Storage.LoadProductImage: does not model the `exists`/`isReadable` check on the `UrlResource` (FileStorageService.java:90-94). A file that the listing shows is assumed readable.
- Jackson serialisation: a sidecar is either a decodable product or undecodable bytes. The text of Jackson's exception messages is not modelled.
- Catalog.GetAllProducts: a sidecar holding the JSON `null`, or a record without `createdAt` such as `{}`, decodes without an `IOException` and makes the sort throw a `NullPointerException` (a 500 from the framework); the model has no such sidecar, so `Catalog.BrokenSidecarDropsOnlyItsProduct` covers deleted and undecodable sidecars only.
- A storage root that exists but is not a directory, where `listFiles` returns null and the listing loop throws a `NullPointerException`, is not modelled. Neither are directories nested inside a product folder.
- Storage.FolderPath: the path is the storage path, `/` and the folder name. `Paths.get` normalisation is not modelled.
- `toLowerCase` is modelled for ASCII letters only.
- Integer width: Java `int` overflow of `page * size` and `start + size` is not modelled, and neither is double rounding in the page count for totals near 2^53. Sizes and counts are unbounded integers.
- Controller.GetAllProductsEndpoint: the handler's `IOException` branch (ProductController.java:69-70) is not modelled as reachable, because the service catches every `IOException` itself. For the unchecked `subList` exception, the model stops at status 500: the body of the framework's error page is not modelled.
- Controller.GetProductImage: `Resource.getFilename()` is never null for a file resource, so the "null" rendering in the header is not modelled. The handler's catch-all around the content-type guess never fires.
- CORS configuration, Spring request binding, the `ProductDto` getters and setters, and the frontend `page.tsx` are not part of this model.
