# Inventory service — a Dafny model of its request handlers

The service keeps inventory items in one SQL table, `items(id, name,
description, photo_path, photo_url)`, and their photos as files in a cache
directory. It answers:

- `POST /register`: create an item, with an optional photo upload;
- `POST /search`: look an item up by the `id` in the body, optionally noting its photo URL in the description;
- `GET /inventory`: list every item;
- `GET`, `PUT` and `DELETE /inventory/:id`: read an item, update its fields, or delete it;
- `GET` and `PUT /inventory/:id/photo`: serve the item's photo, or replace it.

It also has the fallbacks: 405 for other verbs on the two `:id` resources,
404 for every other path, and the CORS middleware's answer to `OPTIONS`.

The model treats the table as a `map<string, Item>` and the cache directory
as a `set<string>` of file paths. Both are fields of the class
`Service.InventoryService`. Every handler is a method on that class. It does
the handler's reads, `INSERT`/`UPDATE`/`DELETE` statements and file removals
in the source's order, and returns a status and a body.

The main invariant is `Items.Consistent`:

- every row has `photo_path` exactly when it has `photo_url`;
- the URL is `/inventory/<id>/photo`;
- the name is non-empty;
- every stored path names a file on disk;
- no two rows share a file.

Every mutating handler keeps it (`ensures old(Valid()) ==> Valid()`). The
per-write lemmas `ConsistentAfter*` state what each write keeps.

The pure expressions are functions:

- the photo URL;
- the `/search` description note;
- the multer file name: a fresh UUID plus `path.extname` of the original name.

The lemmas about them cover:

- the photo URL is injective;
- the route matcher sends the URL back to the same item's photo route;
- the stored name keeps the original extension;
- distinct UUIDs give distinct paths.

The randomness is modelled as parameters:

- `crypto.randomUUID()` is a parameter `freshId`, required to be a UUID-shaped string that is not already a key;
- a multer upload is the path multer will write, required to be new.

`Service.InventoryService.Handle` models multer writing the upload into the
directory before the handler runs. It does this only on the two routes that
use `upload.single('photo')`. An upload sent with a request that then fails
with 400 or 404 therefore stays on disk.

Module layout:

- `items.dfy`: data model, pure helpers, invariant;
- `routes.dfy`: path matching and handler selection;
- `service.dfy`: the handlers;
- `scenarios.dfy`: client sequences proved from the handler contracts.

Where the code and the written design disagree, the model follows the code:

- Only `/inventory/:id` and `/inventory/:id/photo` have a 405 fallback (`.all`). A wrong verb on `/register`, `/search` or `/inventory` falls through to the 404 catch-all.
- `cors()` is mounted first. With its defaults it answers every `OPTIONS` request with 204 before any route is tried.
- `POST /search` without an `id` field does not return 404. The driver refuses the undefined bind parameter, and the handler answers 500 `Database Error`.
- The register response uses the keys `photoPath`/`photoUrl`. Every other handler returns the table's row, with `photo_path`/`photo_url`. `Service.KeyStyle` records which one.
- With each handler atomic, the "best effort" link between rows and files is exact. `Consistent` states that every stored photo path names an existing file, and every handler keeps that.

## Model

| member | source | states |
|---|---|---|
| `Items.Field` | main.js:62 | a body field is present exactly when the key was sent, with the sent value |
| `Items.PhotoUrl` | main.js:71 | the photo URL is `/inventory/`, then the id, then `/photo` (length, prefix, the id in the middle, suffix) |
| `Items.PhotoUrlInjective` | main.js:208 | two ids with the same photo URL are the same id, so no two items advertise one URL |
| `Items.Decorate` | main.js:105 | the search note is the stored description, then ` (Фото: `, then the photo URL, then `)`, each at its own position, with the total length |
| `Items.SearchRow` | main.js:102-107 | the search row changes only the description, and only when `has_photo` is the string "true" and the URL is truthy; otherwise it is the stored row |
| `Items.DecoratedKeepsStored` | main.js:102-105 | the reported description always starts with the stored one, and differs from it exactly when the note was added |
| `Items.Edited` | main.js:146-147 | an update overwrites name or description only when the supplied value is truthy, and never touches the photo columns |
| `Items.ExtName` | main.js:47 | `path.extname`: "" or a dot followed by no other dot, no slash, a suffix of the path and of its basename; "" exactly when the basename is empty, has no dot after its first character, or is `..` |
| `Items.StoredFilename` | main.js:47 | the multer file name is the uuid followed by the original's extension: its length, the uuid as prefix, the extension as suffix |
| `Items.UploadPath` | main.js:46-47 | the upload lands in the cache directory: the directory, one `/`, then the stored file name |
| `Items.UuidIsSegment` | main.js:67 | a `randomUUID()` value is a non-empty route segment without dots |
| `Items.StoredFilenameKeepsExtension` | main.js:47 | the stored file name `<uuid><ext>` has the same extension as the uploaded file |
| `Items.UploadPathKeepsExtension` | main.js:46-47 | the full upload path in the cache directory keeps the uploaded file's extension |
| `Items.UploadPathsDistinct` | main.js:46-47 | distinct UUIDs give distinct upload paths whatever the original names, which is why an upload never overwrites a stored photo |
| `Items.OwnedBlob` | main.js:168 | the file a handler removes for a row is its photo path exactly when that path is truthy |
| `Items.ConsistentPhotoServable` | main.js:184 | in a consistent store an item has a photo URL exactly when it has a file, and that file is on disk |
| `Items.OwnedBlobsDisjoint` | main.js:169 | in a consistent store two items never own the same file, so removing one's photo leaves the other's |
| `Items.ConsistentAfterInsert` | main.js:70-78 | inserting a well-formed row under a new id, with an unshared file on disk, keeps the invariant |
| `Items.ConsistentAfterEdit` | main.js:146-147 | the name/description updates keep the invariant |
| `Items.ConsistentAfterPhoto` | main.js:202-210 | removing the old file and pointing both photo columns at a fresh upload keeps the invariant |
| `Items.ConsistentAfterRemove` | main.js:159-169 | deleting a row together with its file keeps the invariant |
| `Items.ConsistentAfterWrite` | main.js:45-49 | multer writing a new file keeps the invariant |
| `Routes.ParseRoute` | main.js:60-180 | a matched path is exactly the path of a route whose `:id` is a non-empty, slash-free segment |
| `Routes.ParseRoutePath` | main.js:126-180 | every well-formed route is matched by its own path: the matcher inverts route paths |
| `Routes.PhotoUrlRoutesToPhoto` | main.js:180 | the stored photo URL of item `id` matches `/inventory/:id/photo` with that same `id` |
| `Routes.Dispatch` | main.js:51-224 | OPTIONS always gets the CORS answer; each handler is reached exactly by its route and verbs (HEAD with GET); 405 only on the two `:id` resources, exactly for verbs they do not serve; 404 exactly for unmatched paths and wrong verbs on `/register`, `/search` and `/inventory` |
| `Routes.UploadRequests` | main.js:193 | multer writes a file exactly for POST `/register` (main.js:60) and PUT `/inventory/:id/photo`, and for no other request |
| `Routes.AdvertisedPhotoReachable` | main.js:180-188 | in a consistent store, a GET on an item's advertised photo URL reaches that item's photo handler, and the file it names exists |
| `Service.InventoryService.Register` | main.js:60-86 | missing or empty `inventory_name`: 400 and no row; otherwise one new row under the fresh id, description defaulting to "", photo path and URL both null or both set, URL derived from the id; 201 with the row; files untouched; invariant kept |
| `Service.InventoryService.Search` | main.js:89-112 | no `id`: 500; unknown id: 404; otherwise 201 with the search row; the table is only read |
| `Service.InventoryService.List` | main.js:115-123 | 200 with every row exactly once, each equal to the stored row (any order) |
| `Service.InventoryService.Get` | main.js:126-134 | 200 with the stored row, or 404 |
| `Service.InventoryService.Update` | main.js:135-155 | unknown id: 404 and nothing changes; otherwise only that row changes, by the edit rule; 200 with the re-read row; files untouched; invariant kept |
| `Service.InventoryService.Delete` | main.js:156-176 | unknown id: 404, no row and no file removed; otherwise exactly that key and exactly its own file (if on disk) are removed; 200 `Deleted`; invariant kept |
| `Service.InventoryService.GetPhoto` | main.js:180-192 | 200 with the file as `image/jpeg` exactly when the row exists, its path is truthy and the file exists; otherwise 404 `Photo Not Found` |
| `Service.InventoryService.ReplacePhoto` | main.js:193-219 | 404 (unknown id) takes precedence over 400 (no file), and both change nothing; otherwise the old file is removed, both photo columns point at the upload, name and description are kept, 200 with the re-read row; invariant kept |
| `Service.InventoryService.Handle` | main.js:43-224 | the fresh id is demanded only of a register request and the new-upload condition only of the two upload routes; OPTIONS: 204; 405 and 404 fallbacks with their texts; read-only actions change nothing; an upload on the two upload routes is on disk afterwards; invariant kept |
| `Scenarios.RegisterThenGet` | main.js:60-134 | registering "Widget" without a photo yields id, name, "" and two nulls, and a GET of that id returns the same row |
| `Scenarios.SearchThenGet` | main.js:89-134 | a decorating search leaves the stored description, as a later GET shows |
| `Scenarios.UpdateOneField` | main.js:135-155 | updating only the description keeps the name, and the reverse |
| `Scenarios.DeleteThenGet` | main.js:156-192 | after a delete both the row and its photo answer 404 |
| `Scenarios.ReplaceTwice` | main.js:193-219 | after two replacements only the second file is on disk and it is the one served |

## Left out

- Process bootstrap is not modelled: option parsing, cache-directory creation, the MySQL pool and server start-up (main.js:14-41, main.js:227-231).
- Express and middleware wiring is not modelled. That covers JSON and urlencoded body parsing and its errors, the static file server on the application directory, and Swagger at `/docs` (main.js:52-55). Those paths are modelled as unmatched.
- Express's default route matching differs from the model's. Express matches case-insensitively, tolerates a trailing slash and percent-decodes `:id`; the model matches paths exactly. Query strings are not part of the modelled path.
- A HEAD request reaches the GET handlers, as in Express. Dropping the response body is not modelled.
- Request bodies are maps of string fields. A JSON value that is not a string behaves like a field whose value is not "true" and is not modelled further.
- The 500 answers for storage and connectivity failures, and their message texts, are not modelled (main.js:82-85, 108-111, 119-122, 131-133, 152-154, 173-175, 189-191, 216-218). The one exception is `/search` without an `id`.
- Ids are compared exactly. MySQL collations compare case- and trailing-space-insensitively; that is not modelled.
- Each handler is atomic. Interleavings between its awaits are not modelled, for example the check-then-update at main.js:141-147 or a delete racing a photo replacement.
- `crypto.randomUUID()` is a parameter required to be UUID-shaped and unused. A multer upload is a parameter naming a new, unreferenced path.
- `res.sendFile` streaming and `console` logging are not modelled. A swallowed `unlinkSync` failure is not modelled either: the file is checked with `existsSync` first, and with atomic handlers its removal then succeeds.
- Items.ExtName: follows Node's POSIX `path.extname` except for paths with trailing slashes. Those never occur as multer file names.
- Items.UploadPath: joins directory and name with one `/`. It leaves out the normalisation `path.join` performs.
- Service.InventoryService.Handle: states the fallbacks, the CORS answer and which actions leave the state unchanged. It does not restate the response of the handler it dispatches to; that is each handler's own contract.
