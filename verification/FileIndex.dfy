/** The two-level store of buffered images (`file_handler.cpp`): folders of a million images,
    files of a thousand.  Names are numbers here: "5000.dat" in "0000000" is file 5000 of
    folder 0. */
module FileIndex {
  import opened Wrappers

  const FILE_IMAGES: nat := 1000
  const FOLDER_IMAGES: nat := 1_000_000

  /** The number in the name that `get_filename` builds, and the one of `get_folder_path`. */
  function FileId(image: nat): nat { image / FILE_IMAGES * FILE_IMAGES }
  function FolderId(image: nat): nat { image / FOLDER_IMAGES * FOLDER_IMAGES }

  /** A file holds the images of its thousand, a folder the files of its million. */
  lemma NamesRoundDown(image: nat)
    ensures FileId(image) % 1000 == 0 && FileId(image) <= image < FileId(image) + 1000
    ensures FolderId(image) % 1_000_000 == 0 && FolderId(image) <= image < FolderId(image) + 1_000_000
  {
  }

  datatype Folder = Folder(id: nat, files: seq<nat>)

  /** The sorted directory listings. */
  type Store = seq<Folder>

  ghost predicate Ascending(s: seq<nat>) {
    forall i, j :: 0 <= i < j < |s| ==> s[i] < s[j]
  }

  /** Folders are not empty and hold the files of their million only. */
  ghost predicate FolderOk(f: Folder) {
    && f.id % FOLDER_IMAGES == 0 && f.files != [] && Ascending(f.files)
    && forall j :: 0 <= j < |f.files| ==> f.id <= f.files[j] < f.id + FOLDER_IMAGES
  }

  ghost predicate Valid(s: Store) {
    && (forall i :: 0 <= i < |s| ==> FolderOk(s[i]))
    && (forall i, j :: 0 <= i < j < |s| ==> s[i].id < s[j].id)
  }

  ghost predicate Stored(s: Store, file: nat) {
    exists i :: 0 <= i < |s| && file in s[i].files
  }

  // ---- Lookup ----

  /** `lower_bound` on ids. */
  function LowerBound(s: seq<nat>, x: nat): (k: nat)
    ensures k <= |s|
    ensures forall i :: 0 <= i < k ==> s[i] < x
    ensures k < |s| ==> s[k] >= x
  {
    if s == [] || s[0] >= x then 0 else LowerBound(s[1..], x) + 1
  }

  /** `lower_bound` on folders. */
  function FolderBound(s: Store, x: nat): (k: nat)
    ensures k <= |s|
    ensures forall i :: 0 <= i < k ==> s[i].id < x
    ensures k < |s| ==> s[k].id >= x
  {
    if s == [] || s[0].id >= x then 0 else FolderBound(s[1..], x) + 1
  }

  /** `get_first_matching_root_id`. */
  function Lookup(s: Store, image: nat): Option<nat>
    requires Valid(s)
  {
    if s == [] then None
    else
      var k := FolderBound(s, FolderId(image));
      if k < |s| && s[k].id == FolderId(image) then
        var j := LowerBound(s[k].files, FileId(image));
        if j < |s[k].files| then Some(s[k].files[j]) else FirstFile(s, k + 1)
      else FirstFile(s, k)
  }

  function FirstFile(s: Store, k: nat): Option<nat>
    requires Valid(s)
  {
    if k < |s| then
      assert FolderOk(s[k]);
      Some(s[k].files[0])
    else None
  }

  /** `file` is the least stored file from `block` on. */
  ghost predicate Least(s: Store, block: nat, file: nat) {
    Stored(s, file) && file >= block && forall f: nat :: Stored(s, f) && f >= block ==> file <= f
  }

  lemma InFolder(s: Store, i: nat, file: nat)
    requires Valid(s) && i < |s| && file in s[i].files
    ensures s[i].id <= file < s[i].id + FOLDER_IMAGES && s[i].files[0] <= file
  {
    assert FolderOk(s[i]);
    var j :| 0 <= j < |s[i].files| && s[i].files[j] == file;
  }

  lemma MillionsApart(image: nat, id: nat)
    requires id % FOLDER_IMAGES == 0
    ensures id < FolderId(image) ==> id + FOLDER_IMAGES <= FolderId(image)
    ensures id > FolderId(image) ==> id >= FolderId(image) + FOLDER_IMAGES
  {
    var a, b := id / FOLDER_IMAGES, image / FOLDER_IMAGES;
    assert id == a * FOLDER_IMAGES;
  }

  lemma OwnFolder(image: nat)
    ensures FolderId(image) % FOLDER_IMAGES == 0 && FolderId(image) <= FileId(image) < FolderId(image) + FOLDER_IMAGES
  {
    var b, r := image / FOLDER_IMAGES, image % FOLDER_IMAGES;
    assert image == 1000 * (1000 * b) + r;
    assert image / 1000 == 1000 * b + r / 1000;
  }

  /** Folders before the one of the image hold older files only, folders behind it newer ones. */
  lemma FoldersApart(s: Store, image: nat, i: nat, file: nat)
    requires Valid(s) && i < |s| && file in s[i].files
    ensures s[i].id < FolderId(image) ==> file < FileId(image)
    ensures s[i].id > FolderId(image) ==> file > FileId(image)
  {
    InFolder(s, i, file);
    assert FolderOk(s[i]);
    MillionsApart(image, s[i].id);
    OwnFolder(image);
  }

  /** The first file of folder `k` is the least one in the folders from `k` on. */
  lemma FirstIsLeast(s: Store, k: nat, i: nat, file: nat)
    requires Valid(s) && k <= i < |s| && file in s[i].files
    ensures FirstFile(s, k).Some? && FirstFile(s, k).value <= file
  {
    InFolder(s, i, file);
    assert FolderOk(s[k]) && FolderOk(s[i]);
  }

  lemma FirstIsStored(s: Store, k: nat)
    requires Valid(s) && k < |s|
    ensures FirstFile(s, k) == Some(s[k].files[0]) && s[k].files[0] in s[k].files && Stored(s, s[k].files[0])
  {
    assert FolderOk(s[k]);
  }

  /** When no file of the folder of the image will do, the first file behind it is least. */
  lemma NextFolder(s: Store, image: nat, k: nat)
    requires Valid(s) && k <= |s|
    requires forall i :: k <= i < |s| ==> s[i].id > FolderId(image)
    requires forall i, f :: 0 <= i < k && f in s[i].files ==> f < FileId(image)
    ensures FirstFile(s, k).Some? ==> Least(s, FileId(image), FirstFile(s, k).value)
    ensures FirstFile(s, k) == None ==> forall f: nat :: Stored(s, f) ==> f < FileId(image)
  {
    if k < |s| {
      FirstIsStored(s, k);
      FoldersApart(s, image, k, s[k].files[0]);
      forall f: nat | Stored(s, f) && f >= FileId(image)
        ensures s[k].files[0] <= f
      {
        var i :| 0 <= i < |s| && f in s[i].files;
        FirstIsLeast(s, k, i, f);
      }
    }
  }

  /** A file of the folder of the image. */
  lemma SameFolder(s: Store, image: nat, k: nat, j: nat)
    requires Valid(s) && k < |s| && s[k].id == FolderId(image) && j < |s[k].files|
    requires j == LowerBound(s[k].files, FileId(image))
    ensures Least(s, FileId(image), s[k].files[j])
  {
    var file := s[k].files[j];
    assert file in s[k].files && FolderOk(s[k]);
    forall f: nat | Stored(s, f) && f >= FileId(image)
      ensures file <= f
    {
      var i :| 0 <= i < |s| && f in s[i].files;
      FoldersApart(s, image, i, f);
      LeastHere(s, image, k, j, i, f);
    }
  }

  lemma LeastHere(s: Store, image: nat, k: nat, j: nat, i: nat, f: nat)
    requires Valid(s) && k < |s| && s[k].id == FolderId(image) && j < |s[k].files|
    requires j == LowerBound(s[k].files, FileId(image)) && i < |s| && f in s[i].files && f >= FileId(image)
    requires s[i].id >= FolderId(image)
    ensures s[k].files[j] <= f
  {
    assert FolderOk(s[k]) && FolderOk(s[i]);
    if i == k {
      var h :| 0 <= h < |s[k].files| && s[k].files[h] == f;
      assert h >= j;
    } else {
      assert s[i].id > s[k].id;
      MillionsApart(image, s[i].id);
      InFolder(s, i, f);
    }
  }

  /** The two-level lookup agrees with a search of the whole store: it returns the least file
      that is not older than the one of the image, and nothing exactly when there is none. */
  lemma LookupIsLeast(s: Store, image: nat)
    requires Valid(s)
    ensures Lookup(s, image).Some? ==> Least(s, FileId(image), Lookup(s, image).value)
    ensures Lookup(s, image) == None <==> forall f: nat :: Stored(s, f) ==> f < FileId(image)
  {
    var k := FolderBound(s, FolderId(image));
    forall i, f | 0 <= i < k && f in s[i].files
      ensures f < FileId(image)
    {
      FoldersApart(s, image, i, f);
    }
    if k < |s| && s[k].id == FolderId(image) {
      var j := LowerBound(s[k].files, FileId(image));
      if j < |s[k].files| {
        SameFolder(s, image, k, j);
      } else {
        NextFolder(s, image, k + 1);
      }
    } else {
      NextFolder(s, image, k);
    }
  }

  // ---- Writing ----

  /** A sorted listing with `x` in it. */
  function AddId(s: seq<nat>, x: nat): seq<nat> {
    if s == [] || x < s[0] then [x] + s
    else if x == s[0] then s
    else [s[0]] + AddId(s[1..], x)
  }

  lemma {:induction false} AddIdHolds(s: seq<nat>, x: nat, y: nat)
    ensures y in AddId(s, x) <==> y in s || y == x
  {
    if s != [] && x > s[0] {
      AddIdHolds(s[1..], x, y);
      assert s == [s[0]] + s[1..];
    }
  }

  lemma {:induction false} AddIdAscends(s: seq<nat>, x: nat)
    requires Ascending(s)
    ensures Ascending(AddId(s, x)) && AddId(s, x) != []
    ensures AddId(s, x)[0] == if s == [] || x < s[0] then x else s[0]
  {
    if s != [] && x > s[0] {
      AddIdAscends(s[1..], x);
      PrependAscends(s[0], AddId(s[1..], x));
    } else if s == [] || x < s[0] {
      PrependAscends(x, s);
    }
  }

  lemma PrependAscends(x: nat, s: seq<nat>)
    requires Ascending(s) && (s != [] ==> x < s[0])
    ensures Ascending([x] + s)
  {
  }

  lemma AddIdKeeps(s: seq<nat>, x: nat)
    requires Ascending(s)
    ensures Ascending(AddId(s, x)) && AddId(s, x) != []
    ensures forall y :: y in AddId(s, x) <==> y in s || y == x
  {
    AddIdAscends(s, x);
    forall y: nat
      ensures y in AddId(s, x) <==> y in s || y == x
    {
      AddIdHolds(s, x, y);
    }
  }

  /** The store once the file of an image has been opened for writing. */
  function AddFile(s: Store, image: nat): Store {
    var (d, f) := (FolderId(image), FileId(image));
    if s == [] || d < s[0].id then [Folder(d, [f])] + s
    else if d == s[0].id then [Folder(d, AddId(s[0].files, f))] + s[1..]
    else [s[0]] + AddFile(s[1..], image)
  }

  lemma AddedFolderOk(f: Folder, image: nat)
    requires FolderOk(f) && f.id == FolderId(image)
    ensures FolderOk(Folder(f.id, AddId(f.files, FileId(image))))
  {
    OwnFolder(image);
    AddIdKeeps(f.files, FileId(image));
    var t := AddId(f.files, FileId(image));
    assert forall j :: 0 <= j < |t| ==> t[j] in t;
    assert forall y :: y in f.files ==> f.id <= y < f.id + FOLDER_IMAGES;
  }

  lemma PrependValid(d: Folder, s: Store)
    requires FolderOk(d) && Valid(s) && (s != [] ==> d.id < s[0].id)
    ensures Valid([d] + s)
  {
    var t := [d] + s;
    assert forall i :: 0 < i < |t| ==> t[i] == s[i - 1];
  }

  lemma TailValid(s: Store)
    requires Valid(s) && s != []
    ensures FolderOk(s[0]) && Valid(s[1..]) && (|s| > 1 ==> s[0].id < s[1..][0].id)
  {
    assert forall i :: 0 <= i < |s| - 1 ==> s[1..][i] == s[i + 1];
  }

  /** Writing keeps the store in order; only the new file may come in front of others. */
  lemma {:induction false} AddFileKeeps(s: Store, image: nat)
    requires Valid(s)
    ensures Valid(AddFile(s, image)) && AddFile(s, image) != []
    ensures AddFile(s, image)[0].id == if s == [] || FolderId(image) < s[0].id then FolderId(image) else s[0].id
  {
    OwnFolder(image);
    if s == [] || FolderId(image) < s[0].id {
      PrependValid(Folder(FolderId(image), [FileId(image)]), s);
    } else {
      TailValid(s);
      if FolderId(image) == s[0].id {
        AddedFolderOk(s[0], image);
        PrependValid(Folder(s[0].id, AddId(s[0].files, FileId(image))), s[1..]);
      } else {
        AddFileKeeps(s[1..], image);
        PrependValid(s[0], AddFile(s[1..], image));
      }
    }
  }

  lemma {:induction false} AddFileStores(s: Store, image: nat, f: nat)
    requires Valid(s)
    ensures Stored(AddFile(s, image), f) <==> Stored(s, f) || f == FileId(image)
  {
    var t := AddFile(s, image);
    if s == [] || FolderId(image) < s[0].id {
      StoredCons(Folder(FolderId(image), [FileId(image)]), s, f);
    } else if FolderId(image) == s[0].id {
      assert FolderOk(s[0]);
      AddIdKeeps(s[0].files, FileId(image));
      StoredCons(t[0], s[1..], f);
      StoredCons(s[0], s[1..], f);
      assert s == [s[0]] + s[1..];
    } else {
      AddFileStores(s[1..], image, f);
      StoredCons(s[0], s[1..], f);
      StoredCons(s[0], AddFile(s[1..], image), f);
      assert s == [s[0]] + s[1..];
    }
  }

  lemma StoredCons(d: Folder, s: Store, f: nat)
    ensures Stored([d] + s, f) <==> f in d.files || Stored(s, f)
  {
    var t := [d] + s;
    if f in d.files { assert f in t[0].files; }
    if Stored(s, f) {
      var i :| 0 <= i < |s| && f in s[i].files;
      assert f in t[i + 1].files;
    }
    if Stored(t, f) {
      var i :| 0 <= i < |t| && f in t[i].files;
      if i > 0 { assert f in s[i - 1].files; }
    }
  }

  /** An image that has been written is found in its own file. */
  lemma WrittenIsFound(s: Store, image: nat)
    requires Valid(s)
    ensures Valid(AddFile(s, image)) && Lookup(AddFile(s, image), image) == Some(FileId(image))
  {
    AddFileKeeps(s, image);
    AddFileStores(s, image, FileId(image));
    LookupIsLeast(AddFile(s, image), image);
  }
}
