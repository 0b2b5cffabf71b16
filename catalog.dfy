/**
 * The catalogue service: multi-file upload on top of the file store, and the listing that
 * scans the product folders, drops the unloadable ones, sorts newest first and paginates.
 */
module Catalog {
  import opened Common
  import opened Text
  import opened Storage

  /** The listing's view of a product (`ProductDto`). */
  datatype ProductDto = ProductDto(
    id: string,
    name: string,
    description: string,
    imageUrl: string,
    createdAt: int,
    fileSize: int,
    contentType: Option<string>)

  /** One page of the listing with its counters (`ProductResponse`). */
  datatype ProductResponse = ProductResponse(
    items: seq<ProductDto>,
    totalPages: int,
    totalElements: int,
    page: int,
    size: int)

  function ToDto(p: Product): ProductDto {
    ProductDto(p.id, p.name, p.description, p.imageUrl, p.createdAt, p.fileSize, p.contentType)
  }

  function ToDtos(ps: seq<Product>): (ds: seq<ProductDto>)
    ensures |ds| == |ps|
  {
    seq(|ps|, i requires 0 <= i < |ps| => ToDto(ps[i]))
  }

  /** A DTO carries every field of its product except the folder path. */
  lemma ToDtosCopiesFields(ps: seq<Product>, i: int)
    requires 0 <= i < |ps|
    ensures var d := ToDtos(ps)[i];
      && d.id == ps[i].id && d.name == ps[i].name && d.description == ps[i].description
      && d.imageUrl == ps[i].imageUrl && d.createdAt == ps[i].createdAt
      && d.fileSize == ps[i].fileSize && d.contentType == ps[i].contentType
  {
  }

  // ---------------------------------------------------------------------------------------
  // Listing: which folders yield a product

  /** What one listed folder contributes: its product when it is a product folder whose info loads. */
  function LoadOne(disk: Disk, name: string): seq<Product> {
    if StartsWith(name, FolderPrefix) then
      match LoadProductInfo(disk, name[|FolderPrefix|..])
      case Ok(p) => [p]
      case Err(_) => []
    else []
  }

  /** The products of the listed folders, in listing order, unloadable ones left out. */
  function Loaded(disk: Disk, folders: seq<string>): seq<Product> {
    if folders == [] then []
    else Loaded(disk, folders[..|folders| - 1]) + LoadOne(disk, folders[|folders| - 1])
  }

  /** A product is listed exactly when some `product_` folder's info loads to it. */
  lemma {:induction false} LoadedMembership(disk: Disk, folders: seq<string>, p: Product)
    ensures p in Loaded(disk, folders) <==>
      exists n :: n in folders && StartsWith(n, FolderPrefix) && LoadProductInfo(disk, n[|FolderPrefix|..]) == Ok(p)
  {
    if folders != [] {
      var init, last := folders[..|folders| - 1], folders[|folders| - 1];
      assert folders == init + [last];
      LoadedMembership(disk, init, p);
      if p in Loaded(disk, folders) && p !in Loaded(disk, init) {
        assert p in LoadOne(disk, last);
        assert last in folders;
      }
      if exists n :: n in folders && StartsWith(n, FolderPrefix) && LoadProductInfo(disk, n[|FolderPrefix|..]) == Ok(p) {
        var n :| n in folders && StartsWith(n, FolderPrefix) && LoadProductInfo(disk, n[|FolderPrefix|..]) == Ok(p);
        if n !in init {
          assert n == last;
          assert LoadOne(disk, last) == [p];
        }
      }
    }
  }

  /**
   * When the root listing names every root entry once, the listing holds exactly the products of
   * the `product_` directories whose info loads.
   */
  lemma ListedFromRoot(disk: Disk, listing: seq<string>, p: Product)
    requires disk.Valid() && IsListingOf(listing, disk.entries.Keys)
    ensures p in Loaded(disk, ProductFolders(disk, listing)) <==>
      exists n :: n in disk.entries && disk.entries[n].Dir? && StartsWith(n, FolderPrefix)
        && LoadProductInfo(disk, n[|FolderPrefix|..]) == Ok(p)
  {
    var folders := ProductFolders(disk, listing);
    LoadedMembership(disk, folders, p);
    if exists n :: n in disk.entries && disk.entries[n].Dir? && StartsWith(n, FolderPrefix)
        && LoadProductInfo(disk, n[|FolderPrefix|..]) == Ok(p) {
      var n :| n in disk.entries && disk.entries[n].Dir? && StartsWith(n, FolderPrefix)
        && LoadProductInfo(disk, n[|FolderPrefix|..]) == Ok(p);
      assert n in folders;
    }
  }

  /** `names` with every `f` taken out. */
  function Without(names: seq<string>, f: string): seq<string> {
    if names == [] then []
    else Without(names[..|names| - 1], f) + (if names[|names| - 1] == f then [] else [names[|names| - 1]])
  }

  /** The disk after the sidecar of folder `f` is deleted or overwritten with undecodable bytes. */
  function BreakSidecar(disk: Disk, f: string, junk: Option<Bytes>): Disk
    requires f in disk.entries && disk.entries[f].Dir?
  {
    var files := disk.entries[f].files;
    var broken := match junk
      case None => files - {InfoFileName}
      case Some(b) => files[InfoFileName := Raw(b)];
    Disk(disk.rootExists, disk.entries[f := Dir(broken)])
  }

  /**
   * Deleting or corrupting one folder's sidecar removes exactly that folder's product from
   * the listing; every other product is still loaded, in the same order.
   */
  lemma {:induction false} BrokenSidecarDropsOnlyItsProduct(disk: Disk, folders: seq<string>, f: string, junk: Option<Bytes>)
    requires f in disk.entries && disk.entries[f].Dir?
    ensures Loaded(BreakSidecar(disk, f, junk), folders) == Loaded(disk, Without(folders, f))
  {
    if folders != [] {
      var init, last := folders[..|folders| - 1], folders[|folders| - 1];
      BrokenSidecarDropsOnlyItsProduct(disk, init, f, junk);
      var broken := BreakSidecar(disk, f, junk);
      if StartsWith(last, FolderPrefix) {
        FolderNameRoundTrip("", last);
        var id := last[|FolderPrefix|..];
        assert FolderName(id) == last;
        if last == f {
          assert LoadProductInfo(broken, id).Err?;
          assert Without(folders, f) == Without(init, f);
        } else {
          assert LoadProductInfo(broken, id) == LoadProductInfo(disk, id);
          var w := Without(folders, f);
          assert w == Without(init, f) + [last];
          assert w[..|w| - 1] == Without(init, f);
        }
      } else {
        var w := Without(folders, f);
        assert LoadOne(broken, last) == [] && LoadOne(disk, last) == [];
        if last != f {
          assert w == Without(init, f) + [last];
          assert w[..|w| - 1] == Without(init, f);
        } else {
          assert w == Without(init, f);
        }
      }
    }
  }

  // ---------------------------------------------------------------------------------------
  // Sorting: newest first, stable

  /** `sorted` with `x` placed after every product at least as new as `x`. */
  function InsertByDate(sorted: seq<Product>, x: Product): seq<Product> {
    if sorted == [] then [x]
    else if sorted[|sorted| - 1].createdAt < x.createdAt then
      InsertByDate(sorted[..|sorted| - 1], x) + [sorted[|sorted| - 1]]
    else sorted + [x]
  }

  /** The list sorted by creation time, newest first, equal times in their original order. */
  function NewestFirst(s: seq<Product>): seq<Product> {
    if s == [] then []
    else InsertByDate(NewestFirst(s[..|s| - 1]), s[|s| - 1])
  }

  predicate IsNewestFirst(s: seq<Product>) {
    forall i, j :: 0 <= i < j < |s| ==> s[i].createdAt >= s[j].createdAt
  }

  /** The products created at time `t`, in order. */
  function CreatedAt(s: seq<Product>, t: int): seq<Product> {
    if s == [] then []
    else CreatedAt(s[..|s| - 1], t) + (if s[|s| - 1].createdAt == t then [s[|s| - 1]] else [])
  }

  lemma {:induction false} CreatedAtAppend(a: seq<Product>, b: seq<Product>, t: int)
    ensures CreatedAt(a + b, t) == CreatedAt(a, t) + CreatedAt(b, t)
    decreases |b|
  {
    if b == [] {
      assert a + b == a;
    } else {
      var bi := b[..|b| - 1];
      assert (a + b)[..|a + b| - 1] == a + bi;
      CreatedAtAppend(a, bi, t);
    }
  }

  lemma {:induction false} InsertByDatePermutation(sorted: seq<Product>, x: Product)
    ensures multiset(InsertByDate(sorted, x)) == multiset(sorted) + multiset{x}
  {
    if sorted != [] {
      var init, last := sorted[..|sorted| - 1], sorted[|sorted| - 1];
      assert sorted == init + [last];
      if last.createdAt < x.createdAt {
        InsertByDatePermutation(init, x);
      }
    }
  }

  /** Appending a product no newer than any in a newest-first list keeps it newest first. */
  lemma AppendOldest(s: seq<Product>, y: Product)
    requires IsNewestFirst(s)
    requires forall i :: 0 <= i < |s| ==> s[i].createdAt >= y.createdAt
    ensures IsNewestFirst(s + [y])
  {
  }

  lemma {:induction false} InsertByDateSorted(sorted: seq<Product>, x: Product)
    requires IsNewestFirst(sorted)
    ensures IsNewestFirst(InsertByDate(sorted, x))
  {
    if sorted != [] {
      var init, last := sorted[..|sorted| - 1], sorted[|sorted| - 1];
      if last.createdAt < x.createdAt {
        InsertByDateSorted(init, x);
        InsertByDatePermutation(init, x);
        var r := InsertByDate(init, x);
        forall i | 0 <= i < |r| ensures r[i].createdAt >= last.createdAt {
          assert r[i] in multiset(init) + multiset{x} by {
            assert r[i] in multiset(r);
          }
          if r[i] != x {
            var k :| 0 <= k < |init| && init[k] == r[i];
            assert sorted[k] == r[i];
          }
        }
        AppendOldest(r, last);
      } else {
        AppendOldest(sorted, x);
      }
    }
  }

  lemma {:induction false} InsertByDateStable(sorted: seq<Product>, x: Product, t: int)
    ensures CreatedAt(InsertByDate(sorted, x), t) == CreatedAt(sorted, t) + (if x.createdAt == t then [x] else [])
  {
    if sorted == [] {
      assert CreatedAt([x], t) == CreatedAt([], t) + (if x.createdAt == t then [x] else []);
    } else {
      var init, last := sorted[..|sorted| - 1], sorted[|sorted| - 1];
      if last.createdAt < x.createdAt {
        InsertByDateStable(init, x, t);
        CreatedAtAppend(InsertByDate(init, x), [last], t);
        assert CreatedAt([last], t) == (if last.createdAt == t then [last] else []) by {
          assert [last][..0] == [];
        }
      } else {
        assert (sorted + [x])[..|sorted|] == sorted;
      }
    }
  }

  /** Sorting orders the list newest first and loses or invents nothing. */
  lemma {:induction false} NewestFirstSortedPermutation(s: seq<Product>)
    ensures IsNewestFirst(NewestFirst(s))
    ensures multiset(NewestFirst(s)) == multiset(s)
    ensures |NewestFirst(s)| == |s|
  {
    if s != [] {
      var init := s[..|s| - 1];
      assert s == init + [s[|s| - 1]];
      NewestFirstSortedPermutation(init);
      InsertByDateSorted(NewestFirst(init), s[|s| - 1]);
      InsertByDatePermutation(NewestFirst(init), s[|s| - 1]);
    }
  }

  /** Sorting is stable: the products sharing a creation time keep their listing order. */
  lemma {:induction false} NewestFirstStable(s: seq<Product>, t: int)
    ensures CreatedAt(NewestFirst(s), t) == CreatedAt(s, t)
  {
    if s != [] {
      NewestFirstStable(s[..|s| - 1], t);
      InsertByDateStable(NewestFirst(s[..|s| - 1]), s[|s| - 1], t);
    }
  }

  /**
   * Where the insertion lands: after the last product at least as new as `x`, before the
   * strictly older run that ends the list.
   */
  lemma {:induction false} InsertByDatePlace(t: seq<Product>, x: Product, j: int)
    requires 0 <= j <= |t|
    requires forall k :: j <= k < |t| ==> t[k].createdAt < x.createdAt
    requires j == 0 || t[j - 1].createdAt >= x.createdAt
    ensures InsertByDate(t, x) == t[..j] + [x] + t[j..]
    decreases |t|
  {
    if |t| == j {
      assert t[..j] == t && t[j..] == [];
    } else {
      var init, last := t[..|t| - 1], t[|t| - 1];
      assert init[..j] == t[..j];
      InsertByDatePlace(init, x, j);
      assert init[j..] + [last] == t[j..];
    }
  }

  /** One insertion step: `a[i]` moves left past the strictly older products before it. */
  method InsertAt(a: array<Product>, i: int)
    requires 0 <= i < a.Length
    modifies a
    ensures a[..i + 1] == InsertByDate(old(a[..i]), old(a[i]))
    ensures forall k :: i < k < a.Length ==> a[k] == old(a[k])
  {
    ghost var t := a[..i];
    var x := a[i];
    var j := i;
    while j > 0 && a[j - 1].createdAt < x.createdAt
      invariant 0 <= j <= i
      invariant forall k :: 0 <= k < j ==> a[k] == t[k]
      invariant forall k :: j < k <= i ==> a[k] == t[k - 1]
      invariant forall k :: i < k < a.Length ==> a[k] == old(a[k])
      invariant forall k :: j <= k < i ==> t[k].createdAt < x.createdAt
    {
      a[j] := a[j - 1];
      j := j - 1;
    }
    a[j] := x;
    InsertByDatePlace(t, x, j);
    ShiftedInsert(t, x, j, a[..i + 1]);
  }

  /** A list that agrees with `t` before `j`, holds `x` at `j` and `t` shifted right after it. */
  lemma ShiftedInsert(t: seq<Product>, x: Product, j: int, s: seq<Product>)
    requires 0 <= j <= |t| && |s| == |t| + 1
    requires forall k :: 0 <= k < j ==> s[k] == t[k]
    requires s[j] == x
    requires forall k :: j < k < |s| ==> s[k] == t[k - 1]
    ensures s == t[..j] + [x] + t[j..]
  {
    var r := t[..j] + [x] + t[j..];
    forall k | 0 <= k < |s| ensures s[k] == r[k] {
      if k > j {
        assert r[k] == t[k - 1];
      }
    }
  }

  /** `List.sort` with the reversed `createdAt` comparator, in place: a stable insertion sort. */
  method SortNewestFirst(a: array<Product>)
    modifies a
    ensures a[..] == NewestFirst(old(a[..]))
  {
    ghost var original := a[..];
    var i := 0;
    while i < a.Length
      invariant 0 <= i <= a.Length
      invariant a[..i] == NewestFirst(original[..i])
      invariant forall k :: i <= k < a.Length ==> a[k] == original[k]
    {
      assert original[..i + 1][..i] == original[..i];
      assert a[i] == original[i];
      InsertAt(a, i);
      i := i + 1;
    }
    assert a[..] == a[..a.Length];
    assert original == original[..a.Length];
  }

  // ---------------------------------------------------------------------------------------
  // Pagination

  /** `Math.ceil((double) total / size)`: the least number of pages of `size` that hold `total`. */
  function TotalPages(total: nat, size: int): (n: nat)
    requires size > 0
    ensures total <= n * size < total + size
  {
    var n := (total + size - 1) / size;
    assert n * size + (total + size - 1) % size == total + size - 1;
    n
  }

  lemma MulMonotonic(a: int, b: int, size: int)
    requires a <= b && size > 0
    ensures a * size <= b * size
  {
  }

  /**
   * The page: the window of `size` elements that starts at `page * size`, cut at the end of
   * the list, and empty when it starts past the end.
   */
  function PageOf<T>(all: seq<T>, page: int, size: int): (r: seq<T>)
    requires page >= 0 && size > 0
    ensures |r| <= size
    ensures r == [] <==> page >= TotalPages(|all|, size)
    ensures r != [] ==> |r| == Min(size, |all| - page * size)
    ensures forall i :: 0 <= i < |r| ==> page * size + i < |all| && r[i] == all[page * size + i]
  {
    var start := page * size;
    var end := Min(start + size, |all|);
    var n := TotalPages(|all|, size);
    assert page >= n ==> n * size <= page * size by {
      if page >= n { MulMonotonic(n, page, size); }
    }
    assert page < n ==> page * size <= (n - 1) * size by {
      if page < n { MulMonotonic(page, n - 1, size); }
    }
    if start < |all| then all[start..end] else []
  }

  /** Pages `0 .. k-1`, one after the other. */
  function Pages<T>(all: seq<T>, size: int, k: nat): seq<T>
    requires size > 0
  {
    if k == 0 then [] else Pages(all, size, k - 1) + PageOf(all, k - 1, size)
  }

  lemma {:induction false} PagesArePrefix<T>(all: seq<T>, size: int, k: nat)
    requires size > 0
    ensures Pages(all, size, k) == all[..Min(k * size, |all|)]
  {
    if k > 0 {
      PagesArePrefix(all, size, k - 1);
      var start := (k - 1) * size;
      assert k * size == start + size by {
        assert k * size == (k - 1) * size + 1 * size;
      }
      PageWindow(all, k - 1, size);
      PrefixThenWindow(all, start, size);
    }
  }

  /** The prefix up to `start` followed by the window at `start` is the longer prefix. */
  lemma PrefixThenWindow<T>(all: seq<T>, start: nat, size: nat)
    ensures all[..Min(start, |all|)] + (if start < |all| then all[start..Min(start + size, |all|)] else [])
      == all[..Min(start + size, |all|)]
  {
    if start < |all| {
      assert all[..start] + all[start..Min(start + size, |all|)] == all[..Min(start + size, |all|)];
    }
  }

  /** The page as a slice of the list. */
  lemma PageWindow<T>(all: seq<T>, page: nat, size: int)
    requires size > 0
    ensures var start := page * size;
      PageOf(all, page, size) == if start < |all| then all[start..Min(start + size, |all|)] else []
  {
  }

  /** The pages `0 .. totalPages-1` laid end to end give back the whole list, each element once. */
  lemma PagesPartitionList<T>(all: seq<T>, size: int)
    requires size > 0
    ensures Pages(all, size, TotalPages(|all|, size)) == all
  {
    PagesArePrefix(all, size, TotalPages(|all|, size));
    assert all[..|all|] == all;
  }

  // ---------------------------------------------------------------------------------------
  // getAllProducts

  /** `Integer.MAX_VALUE`, what casting positive infinity to `int` gives. */
  const IntMax: int := 0x7fff_ffff

  /**
   * `(int) Math.ceil((double) total / size)` for any `size`: the ceiling for a positive size,
   * the ceiling of a negative quotient for a negative one, and for zero the cast of infinity
   * (`Integer.MAX_VALUE`), or of NaN (`0`) when the total is also zero.
   */
  function PageCount(total: nat, size: int): (n: int)
    ensures size > 0 ==> n == TotalPages(total, size)
    ensures size == 0 ==> n == (if total == 0 then 0 else IntMax)
    ensures size < 0 ==> n <= 0 && total + size < n * size <= total
  {
    if size > 0 then TotalPages(total, size)
    else if size == 0 then (if total == 0 then 0 else IntMax)
    else
      var q := total / -size;
      assert q * -size <= total < q * -size - size;
      -q
  }

  /** Why `List.subList(from, to)` refuses a range. */
  datatype SubListError = FromIndexNegative(from: int) | FromIndexAfterToIndex(from: int, to: int)

  /**
   * The page `getAllProducts` cuts out of the sorted list: from `page * size` to that plus `size`,
   * cut at the end; nothing when the start is not before the end of the list; and the refusal of
   * `subList` when the start is negative or the size negative.
   */
  function RequestedPage<T>(all: seq<T>, page: int, size: int): (r: Result<seq<T>, SubListError>)
    ensures r.Err? <==> page * size < |all| && (page * size < 0 || size < 0)
    ensures page >= 0 && size > 0 ==> r == Ok(PageOf(all, page, size))
    ensures size == 0 ==> r == Ok([])
    ensures r.Ok? && page * size >= |all| ==> r.value == []
  {
    var start := page * size;
    var end := Min(start + size, |all|);
    if start < |all| then
      if start < 0 then Err(FromIndexNegative(start))
      else if start > end then Err(FromIndexAfterToIndex(start, end))
      else Ok(all[start..end])
    else Ok([])
  }

  /**
   * `getAllProducts`: collect the loadable products of the `product_` folders, sort them newest
   * first in place, and answer the requested page with the totals. No argument is checked: a
   * negative start or size makes `subList` throw.
   */
  method GetAllProducts(store: FileStorageService, listing: seq<string>, page: int, size: int)
    returns (r: Result<ProductResponse, SubListError>)
    ensures var all := NewestFirst(Loaded(store.State(), ProductFolders(store.State(), listing)));
      && (r.Err? <==> RequestedPage(all, page, size).Err?)
      && (r.Err? ==> r.error == RequestedPage(all, page, size).error)
      && (r.Ok? ==> r.value == ProductResponse(ToDtos(RequestedPage(all, page, size).value), PageCount(|all|, size), |all|, page, size))
  {
    var disk := store.State();
    var folders := ProductFolders(disk, listing);
    var allProducts := CollectProducts(disk, folders);

    var a := new Product[|allProducts|](k requires 0 <= k < |allProducts| => allProducts[k]);
    assert a[..] == allProducts;
    SortNewestFirst(a);
    var sorted := a[..];

    var totalElements := |sorted|;
    var totalPages := PageCount(totalElements, size);
    var pageProducts := RequestedPage(sorted, page, size);
    if pageProducts.Err? {
      return Err(pageProducts.error);
    }
    r := Ok(ProductResponse(ToDtos(pageProducts.value), totalPages, totalElements, page, size));
  }

  /** The loop of `getAllProducts` over the folders: keep the `product_` ones whose info loads. */
  method CollectProducts(disk: Disk, folders: seq<string>) returns (allProducts: seq<Product>)
    ensures allProducts == Loaded(disk, folders)
  {
    allProducts := [];
    var i := 0;
    while i < |folders|
      invariant 0 <= i <= |folders|
      invariant allProducts == Loaded(disk, folders[..i])
    {
      var name := folders[i];
      assert folders[..i + 1][..i] == folders[..i];
      if StartsWith(name, FolderPrefix) {
        var id := name[|FolderPrefix|..];
        var loaded := LoadProductInfo(disk, id);
        if loaded.Ok? {
          allProducts := allProducts + [loaded.value];
        }
      }
      i := i + 1;
    }
    assert folders[..i] == folders;
  }

  // ---------------------------------------------------------------------------------------
  // uploadProducts

  /** The products a fault-free upload creates: one per non-empty file, in input order. */
  function Created(config: Config, files: seq<Upload>, envs: seq<SaveEnv>): seq<Product>
    requires |files| == |envs|
  {
    if files == [] then []
    else
      (if files[0].IsEmpty() then [] else [NewProduct(config, files[0], envs[0].id, envs[0].now)])
      + Created(config, files[1..], envs[1..])
  }

  function CountNonEmpty(files: seq<Upload>): nat {
    if files == [] then 0
    else (if files[0].IsEmpty() then 0 else 1) + CountNonEmpty(files[1..])
  }

  /** Exactly one product per non-empty file, each carrying its file's size and declared type. */
  lemma {:induction false} CreatedOnePerNonEmptyFile(config: Config, files: seq<Upload>, envs: seq<SaveEnv>)
    requires |files| == |envs|
    ensures |Created(config, files, envs)| == CountNonEmpty(files)
    ensures forall p :: p in Created(config, files, envs) ==>
      exists j :: 0 <= j < |files| && !files[j].IsEmpty() && envs[j].id == p.id
        && p == NewProduct(config, files[j], envs[j].id, envs[j].now)
  {
    if files != [] {
      CreatedOnePerNonEmptyFile(config, files[1..], envs[1..]);
      forall p | p in Created(config, files, envs)
        ensures exists j :: (0 <= j < |files| && !files[j].IsEmpty() && envs[j].id == p.id &&
          p == NewProduct(config, files[j], envs[j].id, envs[j].now))
      {
        if p !in Created(config, files[1..], envs[1..]) {
          assert !files[0].IsEmpty() && p == NewProduct(config, files[0], envs[0].id, envs[0].now);
        } else {
          var j :| 0 <= j < |files[1..]| && !files[1..][j].IsEmpty() && envs[1..][j].id == p.id
            && p == NewProduct(config, files[1..][j], envs[1..][j].id, envs[1..][j].now);
          assert files[j + 1] == files[1..][j] && envs[j + 1] == envs[1..][j];
        }
      }
    }
  }

  /** The ids of the created products are distinct when the generated ids are. */
  lemma {:induction false} CreatedIdsDistinct(config: Config, files: seq<Upload>, envs: seq<SaveEnv>)
    requires |files| == |envs|
    requires forall i, j :: 0 <= i < j < |envs| ==> envs[i].id != envs[j].id
    ensures var ps := Created(config, files, envs);
      forall k, l :: 0 <= k < l < |ps| ==> ps[k].id != ps[l].id
  {
    if files != [] {
      CreatedIdsDistinct(config, files[1..], envs[1..]);
      CreatedOnePerNonEmptyFile(config, files[1..], envs[1..]);
      var rest := Created(config, files[1..], envs[1..]);
      var ps := Created(config, files, envs);
      if !files[0].IsEmpty() {
        assert ps == [NewProduct(config, files[0], envs[0].id, envs[0].now)] + rest;
        forall l | 1 <= l < |ps| ensures ps[0].id != ps[l].id {
          assert ps[l] == rest[l - 1] && rest[l - 1] in rest;
          var j :| 0 <= j < |files[1..]| && envs[1..][j].id == rest[l - 1].id;
          assert envs[j + 1].id == ps[l].id;
        }
      }
    }
  }

  /**
   * `uploadProducts` as a state transition from the left: skip empty files, save the others one by
   * one, stop at the first failed save. `acc` holds the products saved so far.
   */
  function UploadFrom(config: Config, disk: Disk, files: seq<Upload>, envs: seq<SaveEnv>, acc: seq<Product>): Effect<seq<Product>>
    requires |files| == |envs|
    decreases |files|
  {
    if files == [] then Effect(Ok(acc), disk)
    else if files[0].IsEmpty() then UploadFrom(config, disk, files[1..], envs[1..], acc)
    else
      var e := SaveEffect(config, disk, files[0], envs[0]);
      match e.result
      case Err(err) => Effect(Err(err), e.disk)
      case Ok(p) => UploadFrom(config, e.disk, files[1..], envs[1..], acc + [p])
  }

  /** Every generated id is new to the disk, and no two are equal (as random UUIDs are). */
  ghost predicate FreshIds(disk: Disk, envs: seq<SaveEnv>) {
    && (forall i :: 0 <= i < |envs| ==> FolderName(envs[i].id) !in disk.entries)
    && (forall i, j :: 0 <= i < j < |envs| ==> envs[i].id != envs[j].id)
  }

  /** A save goes through: no step is refused and no plain file holds its folder's name. */
  predicate SaveAccepted(disk: Disk, env: SaveEnv) {
    env.fault == NoFault && !FolderBlocked(disk, env.id)
  }

  /** No non-empty file's save is refused. */
  predicate AllSavesAccepted(disk: Disk, files: seq<Upload>, envs: seq<SaveEnv>)
    requires |files| == |envs|
  {
    forall i :: 0 <= i < |files| && !files[i].IsEmpty() ==> SaveAccepted(disk, envs[i])
  }

  lemma AllSavesAcceptedTail(disk: Disk, files: seq<Upload>, envs: seq<SaveEnv>)
    requires |files| == |envs| > 0
    ensures AllSavesAccepted(disk, files, envs)
      <==> (files[0].IsEmpty() || SaveAccepted(disk, envs[0])) && AllSavesAccepted(disk, files[1..], envs[1..])
  {
    if (files[0].IsEmpty() || SaveAccepted(disk, envs[0])) && AllSavesAccepted(disk, files[1..], envs[1..]) {
      forall i | 0 < i < |files| && !files[i].IsEmpty() ensures SaveAccepted(disk, envs[i]) {
        assert files[1..][i - 1] == files[i] && envs[1..][i - 1] == envs[i];
      }
    }
  }

  /** A save blocks no later save and unblocks none: it never creates or removes a plain file. */
  lemma AcceptedAfterSave(config: Config, disk: Disk, file: Upload, env: SaveEnv, files: seq<Upload>, envs: seq<SaveEnv>)
    requires |files| == |envs|
    ensures AllSavesAccepted(SaveEffect(config, disk, file, env).disk, files, envs) <==> AllSavesAccepted(disk, files, envs)
  {
    forall i | 0 <= i < |envs|
      ensures FolderBlocked(SaveEffect(config, disk, file, env).disk, envs[i].id) <==> FolderBlocked(disk, envs[i].id)
    {
      SaveKeepsBlocked(config, disk, file, env, envs[i].id);
    }
  }

  /** One step of the upload over a non-empty first file. */
  lemma UploadFromStep(config: Config, disk: Disk, files: seq<Upload>, envs: seq<SaveEnv>, acc: seq<Product>)
    requires |files| == |envs| > 0 && !files[0].IsEmpty()
    ensures var e := SaveEffect(config, disk, files[0], envs[0]);
      && (SaveAccepted(disk, envs[0]) ==>
            UploadFrom(config, disk, files, envs, acc)
              == UploadFrom(config, e.disk, files[1..], envs[1..], acc + [NewProduct(config, files[0], envs[0].id, envs[0].now)]))
      && (!SaveAccepted(disk, envs[0]) ==> UploadFrom(config, disk, files, envs, acc).result.Err?)
  {
    SaveSucceedsIff(config, disk, files[0], envs[0]);
  }

  /** The upload succeeds exactly when no non-empty file's save is refused. */
  lemma {:induction false} UploadSucceedsIff(config: Config, disk: Disk, files: seq<Upload>, envs: seq<SaveEnv>, acc: seq<Product>)
    requires |files| == |envs|
    ensures UploadFrom(config, disk, files, envs, acc).result.Ok? <==> AllSavesAccepted(disk, files, envs)
    decreases |files|
  {
    if files != [] {
      AllSavesAcceptedTail(disk, files, envs);
      if files[0].IsEmpty() {
        UploadSucceedsIff(config, disk, files[1..], envs[1..], acc);
      } else {
        UploadFromStep(config, disk, files, envs, acc);
        if SaveAccepted(disk, envs[0]) {
          var e := SaveEffect(config, disk, files[0], envs[0]);
          UploadSucceedsIff(config, e.disk, files[1..], envs[1..], acc + [NewProduct(config, files[0], envs[0].id, envs[0].now)]);
          AcceptedAfterSave(config, disk, files[0], envs[0], files[1..], envs[1..]);
        }
      }
    }
  }

  /** The products created after a successful save, joined onto those saved before it. */
  lemma CreatedAfterSave(config: Config, files: seq<Upload>, envs: seq<SaveEnv>, acc: seq<Product>)
    requires |files| == |envs| > 0 && !files[0].IsEmpty()
    ensures acc + [NewProduct(config, files[0], envs[0].id, envs[0].now)] + Created(config, files[1..], envs[1..])
      == acc + Created(config, files, envs)
  {
    var p := NewProduct(config, files[0], envs[0].id, envs[0].now);
    var rest := Created(config, files[1..], envs[1..]);
    assert Created(config, files, envs) == [p] + rest;
    assert acc + [p] + rest == acc + ([p] + rest);
  }

  /** A successful upload returns the products saved before it followed by one per non-empty file. */
  lemma {:induction false} UploadReturnsCreated(config: Config, disk: Disk, files: seq<Upload>, envs: seq<SaveEnv>, acc: seq<Product>)
    requires |files| == |envs|
    ensures var r := UploadFrom(config, disk, files, envs, acc).result;
      r.Ok? ==> r.value == acc + Created(config, files, envs)
    decreases |files|
  {
    if files != [] {
      if files[0].IsEmpty() {
        assert UploadFrom(config, disk, files, envs, acc) == UploadFrom(config, disk, files[1..], envs[1..], acc);
        assert Created(config, files, envs) == Created(config, files[1..], envs[1..]);
        UploadReturnsCreated(config, disk, files[1..], envs[1..], acc);
      } else {
        UploadFromStep(config, disk, files, envs, acc);
        if SaveAccepted(disk, envs[0]) {
          var e := SaveEffect(config, disk, files[0], envs[0]);
          var p := NewProduct(config, files[0], envs[0].id, envs[0].now);
          UploadReturnsCreated(config, e.disk, files[1..], envs[1..], acc + [p]);
          CreatedAfterSave(config, files, envs, acc);
        }
      }
    }
  }

  /** Saving one file keeps the remaining ids fresh. */
  lemma FreshAfterSave(config: Config, disk: Disk, files: seq<Upload>, envs: seq<SaveEnv>)
    requires |files| == |envs| > 0 && FreshIds(disk, envs)
    ensures FreshIds(SaveEffect(config, disk, files[0], envs[0]).disk, envs[1..])
  {
    forall i | 0 <= i < |envs[1..]| ensures FolderName(envs[1..][i].id) != FolderName(envs[0].id) {
      FolderNameInjective(envs[1..][i].id, envs[0].id);
      assert envs[1..][i] == envs[i + 1];
    }
  }

  /** An upload leaves every entry that was already on the disk as it was. */
  lemma {:induction false} UploadKeepsExistingEntries(config: Config, disk: Disk, files: seq<Upload>, envs: seq<SaveEnv>, acc: seq<Product>, name: string)
    requires |files| == |envs| && FreshIds(disk, envs)
    requires name in disk.entries
    ensures var d := UploadFrom(config, disk, files, envs, acc).disk;
      name in d.entries && d.entries[name] == disk.entries[name]
    decreases |files|
  {
    if files != [] {
      if files[0].IsEmpty() {
        UploadKeepsExistingEntries(config, disk, files[1..], envs[1..], acc, name);
      } else {
        var e := SaveEffect(config, disk, files[0], envs[0]);
        assert name != FolderName(envs[0].id);
        if e.result.Ok? {
          FreshAfterSave(config, disk, files, envs);
          UploadKeepsExistingEntries(config, e.disk, files[1..], envs[1..], acc + [e.result.value], name);
        }
      }
    }
  }

  /**
   * No rollback: a non-empty file whose save, and every earlier save, succeeded has its product
   * stored on the final disk, whether or not a later save fails.
   */
  lemma {:induction false} UploadKeepsEarlierSaves(config: Config, disk: Disk, files: seq<Upload>, envs: seq<SaveEnv>, acc: seq<Product>, j: int)
    requires |files| == |envs| && FreshIds(disk, envs)
    requires 0 <= j < |files| && !files[j].IsEmpty()
    requires forall i :: 0 <= i <= j && !files[i].IsEmpty() ==> envs[i].fault == NoFault
    ensures LoadProductInfo(UploadFrom(config, disk, files, envs, acc).disk, envs[j].id)
      == Ok(NewProduct(config, files[j], envs[j].id, envs[j].now))
    decreases |files|
  {
    var e := SaveEffect(config, disk, files[0], envs[0]);
    if j == 0 {
      SaveSucceedsIff(config, disk, files[0], envs[0]);
      SaveThenLoadInfo(config, disk, files[0], envs[0]);
      FreshAfterSave(config, disk, files, envs);
      UploadKeepsExistingEntries(config, e.disk, files[1..], envs[1..], acc + [e.result.value], FolderName(envs[0].id));
    } else {
      forall i | 0 <= i <= j - 1 && !files[1..][i].IsEmpty() ensures envs[1..][i].fault == NoFault {
        assert files[1..][i] == files[i + 1];
      }
      assert files[1..][j - 1] == files[j] && envs[1..][j - 1] == envs[j];
      if files[0].IsEmpty() {
        assert FreshIds(disk, envs[1..]);
        UploadKeepsEarlierSaves(config, disk, files[1..], envs[1..], acc, j - 1);
      } else {
        FreshAfterSave(config, disk, files, envs);
        UploadKeepsEarlierSaves(config, e.disk, files[1..], envs[1..], acc + [e.result.value], j - 1);
      }
    }
  }

  /** `uploadProducts`: save every non-empty file in order; a failed save ends the upload with its error. */
  method UploadProducts(store: FileStorageService, files: seq<Upload>, envs: seq<SaveEnv>) returns (r: Result<seq<Product>, StorageError>)
    requires store.Valid()
    requires |files| == |envs|
    modifies store
    ensures store.Valid()
    ensures Effect(r, store.State()) == UploadFrom(store.config, old(store.State()), files, envs, [])
  {
    var products: seq<Product> := [];
    var i := 0;
    while i < |files|
      invariant 0 <= i <= |files|
      invariant store.Valid()
      invariant UploadFrom(store.config, old(store.State()), files, envs, [])
        == UploadFrom(store.config, store.State(), files[i..], envs[i..], products)
    {
      assert files[i..][1..] == files[i + 1..] && envs[i..][1..] == envs[i + 1..];
      if !files[i].IsEmpty() {
        var saved := store.SaveProduct(files[i], envs[i]);
        if saved.Err? {
          return Err(saved.error);
        }
        products := products + [saved.value];
      }
      i := i + 1;
    }
    r := Ok(products);
  }
}
