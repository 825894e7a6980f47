/**
 * The data model of the inventory service: one row of the `items` table,
 * the JavaScript truthiness tests the handlers apply to request fields and
 * columns, and the pure expressions the handlers compute (the public photo
 * URL, the search-time description note, the name under which an upload is
 * stored). The invariant every handler keeps is `Consistent`.
 */
module Items {

  datatype Option<+T> = None | Some(value: T)

  /** One row of the `items` table, keyed by its id elsewhere. */
  datatype Item = Item(name: string, description: string,
                       photoPath: Option<string>, photoUrl: Option<string>)

  /** A row as the handlers send it back: the id column and the others. */
  datatype Row = Row(id: string, item: Item)

  /** A request body: multipart and JSON fields, each a string. */
  type Fields = map<string, string>

  /** `req.body.<key>`: undefined when the field was not sent. */
  function Field(body: Fields, key: string): (r: Option<string>)
    ensures r.Some? <==> key in body
    ensures r.Some? ==> r.value == body[key]
  {
    if key in body then Some(body[key]) else None
  }

  /** JavaScript truthiness of a string that may be undefined or null. */
  predicate Truthy(s: Option<string>) {
    s.Some? && s.value != ""
  }

  // ---------------------------------------------------------------------
  // Photo URL

  const InventoryPrefix: string := "/inventory/"
  const PhotoSuffix: string := "/photo"

  /** A path segment that Express binds to `:id`: non-empty, no slash. */
  predicate IsSegment(s: string) {
    s != "" && '/' !in s
  }

  /** The public URL under which an item's photo is served. */
  function PhotoUrl(id: string): (r: string)
    ensures |r| == |InventoryPrefix| + |id| + |PhotoSuffix|
    ensures r[..|InventoryPrefix|] == InventoryPrefix
    ensures r[|InventoryPrefix|..|InventoryPrefix| + |id|] == id
    ensures r[|r| - |PhotoSuffix|..] == PhotoSuffix
  {
    InventoryPrefix + id + PhotoSuffix
  }

  /** Distinct items never advertise the same photo URL. */
  lemma PhotoUrlInjective(a: string, b: string)
    requires PhotoUrl(a) == PhotoUrl(b)
    ensures a == b
  {
  }

  // ---------------------------------------------------------------------
  // Search-time description note

  const NoteOpen: string := " (Фото: "
  const NoteClose: string := ")"

  /** The description `/search` reports when a photo is asked for. */
  function Decorate(description: string, url: string): (r: string)
    ensures |r| == |description| + |NoteOpen| + |url| + |NoteClose|
    ensures r[..|description|] == description
    ensures r[|description|..|description| + |NoteOpen|] == NoteOpen
    ensures r[|description| + |NoteOpen|..|r| - |NoteClose|] == url
    ensures r[|r| - |NoteClose|..] == NoteClose
  {
    description + NoteOpen + url + NoteClose
  }

  /**
   * The row `/search` returns: the stored row, with the note appended to
   * the description only when `has_photo` is the string "true" and the
   * row has a (truthy) photo URL.
   */
  function SearchRow(id: string, item: Item, hasPhoto: Option<string>): (r: Row)
    ensures r.id == id
    ensures r.item.name == item.name
    ensures r.item.photoPath == item.photoPath && r.item.photoUrl == item.photoUrl
    ensures hasPhoto == Some("true") && Truthy(item.photoUrl) ==>
              r.item.description == Decorate(item.description, item.photoUrl.value)
    ensures !(hasPhoto == Some("true") && Truthy(item.photoUrl)) ==> r.item == item
  {
    if hasPhoto == Some("true") && Truthy(item.photoUrl) then
      Row(id, item.(description := Decorate(item.description, item.photoUrl.value)))
    else
      Row(id, item)
  }

  /** A decorated description still starts with the stored one and is longer. */
  lemma DecoratedKeepsStored(id: string, item: Item, hasPhoto: Option<string>)
    ensures var d := SearchRow(id, item, hasPhoto).item.description;
            |item.description| <= |d| && d[..|item.description|] == item.description
    ensures (SearchRow(id, item, hasPhoto).item.description == item.description)
            <==> !(hasPhoto == Some("true") && Truthy(item.photoUrl))
  {
  }

  // ---------------------------------------------------------------------
  // Update by id

  /**
   * The row after `PUT /inventory/:id`: the name is overwritten only by a
   * truthy `name`, the description only by a truthy `description`.
   */
  function Edited(item: Item, name: Option<string>, description: Option<string>): (r: Item)
    ensures r.photoPath == item.photoPath && r.photoUrl == item.photoUrl
    ensures r.name == (if Truthy(name) then name.value else item.name)
    ensures r.description == (if Truthy(description) then description.value else item.description)
  {
    var named := if Truthy(name) then item.(name := name.value) else item;
    if Truthy(description) then named.(description := description.value) else named
  }

  // ---------------------------------------------------------------------
  // Stored file names

  /** The index of the last `c` in `s`, if any. */
  function LastIndexOf(s: string, c: char): (r: Option<nat>)
    ensures r.None? <==> c !in s
    ensures r.Some? ==> r.value < |s| && s[r.value] == c && c !in s[r.value + 1..]
  {
    if s == [] then None
    else if s[|s| - 1] == c then Some(|s| - 1)
    else
      var r := LastIndexOf(s[..|s| - 1], c);
      assert s == s[..|s| - 1] + [s[|s| - 1]];
      r
  }

  /** The last index holding `c` is the only one with no `c` after it. */
  lemma LastIndexOfAt(s: string, c: char, k: nat)
    requires k < |s| && s[k] == c && c !in s[k + 1..]
    ensures LastIndexOf(s, c) == Some(k)
  {
  }

  /** `r` is a suffix of `s`. */
  predicate IsSuffix(r: string, s: string) {
    |r| <= |s| && s[|s| - |r|..] == r
  }

  lemma SuffixOfSuffix(r: string, s: string, t: string)
    requires IsSuffix(r, s) && IsSuffix(s, t)
    ensures IsSuffix(r, t)
  {
  }

  /** The part of a path after its last slash. */
  function BaseName(path: string): (r: string)
    ensures '/' !in r
    ensures IsSuffix(r, path)
  {
    match LastIndexOf(path, '/')
    case None => path
    case Some(i) => path[i + 1..]
  }

  /** The extension of a basename: from its last dot on, unless that dot starts it or it is "..". */
  function BaseExt(base: string): (r: string)
    requires '/' !in base
    ensures r == "" || (r[0] == '.' && '.' !in r[1..])
    ensures IsSuffix(r, base)
    ensures r == "" <==> (base == "" || '.' !in base[1..] || base == "..")
  {
    match LastIndexOf(base, '.')
    case None =>
      assert base != "" ==> base == [base[0]] + base[1..];
      ""
    case Some(i) =>
      if i == 0 || base == ".." then ""
      else
        assert base[i] == base[1..][i - 1];
        assert base[i..][1..] == base[i + 1..];
        base[i..]
  }

  /**
   * Node's `path.extname` for a path without a trailing slash: the
   * basename from its last dot on, or "" when the basename has no dot,
   * starts with its only relevant dot, or is "..".
   */
  function ExtName(path: string): (r: string)
    ensures r == "" || (r[0] == '.' && '.' !in r[1..])
    ensures '/' !in r
    ensures IsSuffix(r, path) && IsSuffix(r, BaseName(path))
    ensures var base := BaseName(path);
            r == "" <==> (base == "" || '.' !in base[1..] || base == "..")
  {
    var base := BaseName(path);
    var r := BaseExt(base);
    SuffixOfSuffix(r, base, path);
    r
  }

  /** A value of `crypto.randomUUID()`: 36 lower-case hex digits and dashes. */
  predicate IsUuidText(s: string) {
    |s| == 36 && forall i | 0 <= i < |s| :: s[i] in "0123456789abcdef-"
  }

  lemma UuidIsSegment(s: string)
    requires IsUuidText(s)
    ensures IsSegment(s) && '.' !in s
  {
  }

  /** The file name multer gives an upload: a fresh uuid plus the original's extension. */
  function StoredFilename(uuid: string, originalName: string): (r: string)
    ensures |r| == |uuid| + |ExtName(originalName)|
    ensures r[..|uuid|] == uuid
    ensures IsSuffix(ExtName(originalName), r)
  {
    uuid + ExtName(originalName)
  }

  /** The path of an upload in the cache directory. */
  function UploadPath(cacheDir: string, uuid: string, originalName: string): (r: string)
    ensures |r| == |cacheDir| + 1 + |StoredFilename(uuid, originalName)|
    ensures r[..|cacheDir|] == cacheDir && r[|cacheDir|] == '/'
    ensures r[|cacheDir| + 1..] == StoredFilename(uuid, originalName)
  {
    cacheDir + "/" + StoredFilename(uuid, originalName)
  }

  /** A dot-free stem followed by an extension has exactly that extension. */
  lemma {:induction false} BaseExtOfStem(stem: string, e: string)
    requires IsSegment(stem) && '.' !in stem
    requires e == "" || (e[0] == '.' && '.' !in e[1..])
    requires '/' !in e
    ensures '/' !in stem + e
    ensures BaseExt(stem + e) == e
  {
    var s := stem + e;
    assert '/' !in s by {
      forall j | 0 <= j < |s| ensures s[j] != '/' {
        if j < |stem| { assert stem[j] in stem; } else { assert e[j - |stem|] in e; }
      }
    }
    if e == "" {
      assert s == stem;
    } else {
      assert s[|stem|] == '.';
      assert s[|stem| + 1..] == e[1..];
      LastIndexOfAt(s, '.', |stem|);
      assert s[0] == stem[0] && stem[0] != '.' by { assert stem[0] in stem; }
      assert s[|stem|..] == e;
    }
  }

  /** The stored file name keeps the extension of the uploaded one. */
  lemma {:induction false} StoredFilenameKeepsExtension(uuid: string, originalName: string)
    requires IsSegment(uuid) && '.' !in uuid
    ensures ExtName(StoredFilename(uuid, originalName)) == ExtName(originalName)
  {
    var e := ExtName(originalName);
    BaseExtOfStem(uuid, e);
    var s := StoredFilename(uuid, originalName);
    assert s == uuid + e;
    assert BaseName(s) == s;
  }

  /** The extension of a path is that of its basename. */
  lemma ExtNameOfBaseName(path: string)
    ensures ExtName(path) == ExtName(BaseName(path))
  {
  }

  /** The whole upload path, too, carries the original extension. */
  lemma {:induction false} UploadPathKeepsExtension(cacheDir: string, uuid: string, originalName: string)
    requires IsSegment(uuid) && '.' !in uuid
    ensures ExtName(UploadPath(cacheDir, uuid, originalName)) == ExtName(originalName)
  {
    var name := StoredFilename(uuid, originalName);
    var p := UploadPath(cacheDir, uuid, originalName);
    var e := ExtName(originalName);
    assert '/' !in name by {
      forall j | 0 <= j < |name| ensures name[j] != '/' {
        if j < |uuid| { assert uuid[j] in uuid; } else { assert e[j - |uuid|] in e; }
      }
    }
    assert p[|cacheDir|] == '/';
    assert p[|cacheDir| + 1..] == name;
    LastIndexOfAt(p, '/', |cacheDir|);
    assert BaseName(p) == name;
    ExtNameOfBaseName(p);
    ExtNameOfBaseName(name);
    assert BaseName(name) == name;
    StoredFilenameKeepsExtension(uuid, originalName);
  }

  /** Distinct uuids give distinct upload paths, whatever the original names. */
  lemma {:induction false} UploadPathsDistinct(cacheDir: string, u1: string, o1: string, u2: string, o2: string)
    requires IsSegment(u1) && '.' !in u1 && IsSegment(u2) && '.' !in u2
    requires u1 != u2
    ensures UploadPath(cacheDir, u1, o1) != UploadPath(cacheDir, u2, o2)
  {
    var s1, s2 := StoredFilename(u1, o1), StoredFilename(u2, o2);
    if UploadPath(cacheDir, u1, o1) == UploadPath(cacheDir, u2, o2) {
      var n := |cacheDir| + 1;
      assert s1 == UploadPath(cacheDir, u1, o1)[n..];
      assert s2 == UploadPath(cacheDir, u2, o2)[n..];
      assert s1 == s2;
      StemOfStored(u1, ExtName(o1));
      StemOfStored(u2, ExtName(o2));
    }
  }

  /** The part of a file name before its first dot. */
  function Stem(s: string): (r: string)
    ensures '.' !in r
  {
    if s == [] || s[0] == '.' then [] else [s[0]] + Stem(s[1..])
  }

  /** A dot-free uuid followed by an extension is the stem of the result. */
  lemma {:induction false} StemOfStored(uuid: string, ext: string)
    requires '.' !in uuid
    requires ext == "" || ext[0] == '.'
    ensures Stem(uuid + ext) == uuid
  {
    if uuid != [] {
      assert uuid[0] in uuid;
      assert (uuid + ext)[1..] == uuid[1..] + ext;
      StemOfStored(uuid[1..], ext);
    }
  }

  // ---------------------------------------------------------------------
  // The invariant every handler keeps

  /** The blob an item owns on disk, as the handlers test for it. */
  function OwnedBlob(item: Item): (r: set<string>)
    ensures r == {} <==> !Truthy(item.photoPath)
    ensures forall p | p in r :: Some(p) == item.photoPath
  {
    if Truthy(item.photoPath) then {item.photoPath.value} else {}
  }

  /**
   * A row as the handlers write it: a photo path exactly when a photo URL,
   * the URL derived from the id, a non-empty path and a non-empty name.
   */
  ghost predicate WellFormed(id: string, item: Item) {
    && item.name != ""
    && (item.photoPath.Some? <==> item.photoUrl.Some?)
    && (item.photoUrl.Some? ==> item.photoUrl.value == PhotoUrl(id))
    && (item.photoPath.Some? ==> item.photoPath.value != "")
  }

  /** No stored row names `path` as its photo. */
  ghost predicate Unreferenced(items: map<string, Item>, path: string) {
    forall id | id in items :: items[id].photoPath != Some(path)
  }

  /**
   * The table and the blob directory agree: every key is a route segment,
   * every row is well formed, every photo path names a stored blob, and no
   * two rows share a blob.
   */
  ghost predicate Consistent(items: map<string, Item>, blobs: set<string>) {
    && (forall id | id in items :: IsSegment(id) && WellFormed(id, items[id]))
    && (forall id | id in items && items[id].photoPath.Some? :: items[id].photoPath.value in blobs)
    && (forall a, b | a in items && b in items && a != b && items[a].photoPath.Some? ::
          items[a].photoPath != items[b].photoPath)
  }

  /** In a consistent store every photo URL an item advertises can be served. */
  lemma ConsistentPhotoServable(items: map<string, Item>, blobs: set<string>, id: string)
    requires Consistent(items, blobs) && id in items
    ensures items[id].photoUrl.Some? <==> OwnedBlob(items[id]) != {}
    ensures OwnedBlob(items[id]) <= blobs
  {
  }

  /** Removing another row's blob leaves a row's photo in place. */
  lemma OwnedBlobsDisjoint(items: map<string, Item>, blobs: set<string>, a: string, b: string)
    requires Consistent(items, blobs) && a in items && b in items && a != b
    ensures OwnedBlob(items[a]) !! OwnedBlob(items[b])
  {
  }

  // ---------------------------------------------------------------------
  // Each write of a handler keeps the invariant

  /** INSERT of a well-formed row under a new id, its photo (if any) on disk and unshared. */
  lemma ConsistentAfterInsert(items: map<string, Item>, blobs: set<string>, id: string, item: Item)
    requires Consistent(items, blobs)
    requires id !in items && IsSegment(id) && WellFormed(id, item)
    requires item.photoPath.Some? ==> item.photoPath.value in blobs && Unreferenced(items, item.photoPath.value)
    ensures Consistent(items[id := item], blobs)
  {
  }

  /** UPDATE of name and description: the photo columns are untouched, the name stays non-empty. */
  lemma ConsistentAfterEdit(items: map<string, Item>, blobs: set<string>, id: string, item: Item)
    requires Consistent(items, blobs) && id in items
    requires item.name != ""
    requires item.photoPath == items[id].photoPath && item.photoUrl == items[id].photoUrl
    ensures Consistent(items[id := item], blobs)
  {
  }

  /** UPDATE of both photo columns to a fresh file, with the old file removed. */
  lemma ConsistentAfterPhoto(items: map<string, Item>, blobs: set<string>, id: string, path: string)
    requires Consistent(items, blobs) && id in items
    requires path != "" && path in blobs && Unreferenced(items, path)
    ensures Consistent(items[id := items[id].(photoPath := Some(path), photoUrl := Some(PhotoUrl(id)))],
                       blobs - OwnedBlob(items[id]))
  {
  }

  /** DELETE of a row together with its file. */
  lemma ConsistentAfterRemove(items: map<string, Item>, blobs: set<string>, id: string)
    requires Consistent(items, blobs) && id in items
    ensures Consistent(items - {id}, blobs - OwnedBlob(items[id]))
  {
  }

  /** multer writing a new file never breaks the invariant. */
  lemma ConsistentAfterWrite(items: map<string, Item>, blobs: set<string>, path: string)
    requires Consistent(items, blobs)
    ensures Consistent(items, blobs + {path})
  {
  }
}
