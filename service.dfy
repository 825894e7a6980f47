/**
 * The request handlers of the inventory service over its two pieces of
 * shared state: the `items` table, a map from id to row, and the cache
 * directory of uploaded photos, a set of file paths. Each handler runs as
 * one atomic step and performs the table reads and writes and the file
 * removals of its source handler in the same order.
 */
module Service {
  import opened Items
  import opened Routes

  /** Register answers with camelCase JSON keys, every other handler with the table's column names. */
  datatype KeyStyle = CamelCase | SnakeCase

  datatype Body =
    | Text(text: string)
    | Record(row: Row, keys: KeyStyle)
    | Records(rows: seq<Row>)
    | File(path: string, contentType: string)
    | NoBody

  datatype Response = Response(status: int, body: Body)

  /** A request as the handlers see it after body parsing; `upload` is the path multer would write. */
  datatype Request = Request(verb: Verb, path: string, body: Fields, upload: Option<string>)

  /** The ids of a sequence of rows. */
  function RowIds(rows: seq<Row>): (ids: set<string>)
    ensures forall i | 0 <= i < |rows| :: rows[i].id in ids
  {
    set i | 0 <= i < |rows| :: rows[i].id
  }

  lemma RowIdsAppend(rows: seq<Row>, row: Row)
    ensures RowIds(rows + [row]) == RowIds(rows) + {row.id}
  {
    var next := rows + [row];
    forall x | x in RowIds(next) ensures x in RowIds(rows) + {row.id} {
      var i :| 0 <= i < |next| && next[i].id == x;
      if i < |rows| { assert next[i] == rows[i]; }
    }
    forall x | x in RowIds(rows) + {row.id} ensures x in RowIds(next) {
      if x in RowIds(rows) {
        var i :| 0 <= i < |rows| && rows[i].id == x;
        assert next[i] == rows[i];
      } else {
        assert next[|rows|] == row;
      }
    }
  }

  /** No id occurs twice. */
  predicate DistinctIds(rows: seq<Row>) {
    forall i, j | 0 <= i < j < |rows| :: rows[i].id != rows[j].id
  }

  lemma DistinctIdsAppend(rows: seq<Row>, row: Row)
    requires DistinctIds(rows) && row.id !in RowIds(rows)
    ensures DistinctIds(rows + [row])
  {
  }

  /** Rows with distinct ids have as many ids as rows. */
  lemma {:induction false} DistinctIdsCount(rows: seq<Row>)
    requires DistinctIds(rows)
    ensures |RowIds(rows)| == |rows|
  {
    if rows != [] {
      var n := |rows| - 1;
      var prefix := rows[..n];
      assert rows == prefix + [rows[n]];
      assert DistinctIds(prefix) by {
        forall i, j | 0 <= i < j < |prefix| ensures prefix[i].id != prefix[j].id {
          assert prefix[i] == rows[i] && prefix[j] == rows[j];
        }
      }
      RowIdsAppend(prefix, rows[n]);
      assert rows[n].id !in RowIds(prefix) by {
        forall i | 0 <= i < |prefix| ensures prefix[i].id != rows[n].id {
          assert prefix[i] == rows[i];
        }
      }
      DistinctIdsCount(prefix);
    }
  }

  /** An upload multer has written under a fresh name: on disk, and no row points at it. */
  ghost predicate UploadReady(items: map<string, Item>, blobs: set<string>, upload: Option<string>) {
    upload.Some? ==> upload.value != "" && upload.value in blobs && Unreferenced(items, upload.value)
  }

  class InventoryService {
    var items: map<string, Item>
    var blobs: set<string>

    ghost predicate Valid()
      reads this
    {
      Consistent(items, blobs)
    }

    constructor (items0: map<string, Item>, blobs0: set<string>)
      ensures items == items0 && blobs == blobs0
    {
      items := items0;
      blobs := blobs0;
    }

    /** POST /register: validate the name, then insert a row under a fresh id. */
    method Register(body: Fields, upload: Option<string>, freshId: string) returns (resp: Response)
      requires freshId !in items && IsUuidText(freshId)
      requires UploadReady(items, blobs, upload)
      modifies this
      ensures blobs == old(blobs)
      ensures !Truthy(Field(body, "inventory_name")) ==>
                resp == Response(400, Text("\"inventory_name\" is required")) && items == old(items)
      ensures Truthy(Field(body, "inventory_name")) ==>
                var description := if Truthy(Field(body, "description")) then body["description"] else "";
                var url := if upload.Some? then Some(PhotoUrl(freshId)) else None;
                && items == old(items)[freshId := Item(body["inventory_name"], description, upload, url)]
                && resp == Response(201, Record(Row(freshId, items[freshId]), CamelCase))
      ensures old(Valid()) ==> Valid()
    {
      var name := Field(body, "inventory_name");
      if !Truthy(name) {
        return Response(400, Text("\"inventory_name\" is required"));
      }
      UuidIsSegment(freshId);
      var description := Field(body, "description");
      var item := Item(name.value,
                       if Truthy(description) then description.value else "",
                       upload,
                       if upload.Some? then Some(PhotoUrl(freshId)) else None);
      if Valid() {
        ConsistentAfterInsert(items, blobs, freshId, item);
      }
      items := items[freshId := item];
      resp := Response(201, Record(Row(freshId, item), CamelCase));
    }

    /** POST /search: look a row up by the body's `id`; the table is only read. */
    method Search(body: Fields) returns (resp: Response)
      ensures "id" !in body ==> resp == Response(500, Text("Database Error"))
      ensures "id" in body && body["id"] !in items ==> resp == Response(404, Text("Not Found"))
      ensures "id" in body && body["id"] in items ==>
                resp.status == 201 && resp.body.Record? && resp.body.keys == SnakeCase &&
                resp.body.row == SearchRow(body["id"], items[body["id"]], Field(body, "has_photo"))
    {
      if "id" !in body {
        // The driver refuses an undefined bind parameter; the handler answers 500.
        return Response(500, Text("Database Error"));
      }
      var id := body["id"];
      if id !in items {
        return Response(404, Text("Not Found"));
      }
      resp := Response(201, Record(SearchRow(id, items[id], Field(body, "has_photo")), SnakeCase));
    }

    /**
     * GET /inventory: every row, each once, in the order the database
     * returns them. The loop stands for the driver building the result
     * array one row at a time; the choice of the next key is that order.
     */
    method List() returns (resp: Response)
      ensures resp.status == 200 && resp.body.Records?
      ensures RowIds(resp.body.rows) == items.Keys
      ensures |resp.body.rows| == |items|
      ensures forall i | 0 <= i < |resp.body.rows| ::
                resp.body.rows[i].id in items && resp.body.rows[i].item == items[resp.body.rows[i].id]
      ensures DistinctIds(resp.body.rows)
    {
      var rows: seq<Row> := [];
      var rest := items.Keys;
      while rest != {}
        invariant rest <= items.Keys
        invariant RowIds(rows) == items.Keys - rest
        invariant forall i | 0 <= i < |rows| :: rows[i].id in items && rows[i].item == items[rows[i].id]
        invariant DistinctIds(rows)
        decreases rest
      {
        var id :| id in rest;
        var row := Row(id, items[id]);
        RowIdsAppend(rows, row);
        DistinctIdsAppend(rows, row);
        rows := rows + [row];
        rest := rest - {id};
      }
      DistinctIdsCount(rows);
      resp := Response(200, Records(rows));
    }

    /** GET /inventory/:id. */
    method Get(id: string) returns (resp: Response)
      ensures id in items ==> resp == Response(200, Record(Row(id, items[id]), SnakeCase))
      ensures id !in items ==> resp == Response(404, Text("Not Found"))
    {
      if id in items {
        resp := Response(200, Record(Row(id, items[id]), SnakeCase));
      } else {
        resp := Response(404, Text("Not Found"));
      }
    }

    /** PUT /inventory/:id: check the row exists, then one UPDATE per truthy field, then re-read. */
    method Update(id: string, body: Fields) returns (resp: Response)
      modifies this
      ensures blobs == old(blobs)
      ensures id !in old(items) ==> items == old(items) && resp == Response(404, Text("Not Found"))
      ensures id in old(items) ==>
                && items == old(items)[id := Edited(old(items)[id], Field(body, "name"), Field(body, "description"))]
                && resp == Response(200, Record(Row(id, items[id]), SnakeCase))
      ensures old(Valid()) ==> Valid()
    {
      if id !in items {
        return Response(404, Text("Not Found"));
      }
      var name, description := Field(body, "name"), Field(body, "description");
      if Valid() {
        ConsistentAfterEdit(items, blobs, id, Edited(items[id], name, description));
      }
      if Truthy(name) {
        items := items[id := items[id].(name := name.value)];
      }
      if Truthy(description) {
        items := items[id := items[id].(description := description.value)];
      }
      resp := Response(200, Record(Row(id, items[id]), SnakeCase));
    }

    /** DELETE /inventory/:id: read the photo path, delete the row, then remove its file if it exists. */
    method Delete(id: string) returns (resp: Response)
      modifies this
      ensures id !in old(items) ==>
                items == old(items) && blobs == old(blobs) && resp == Response(404, Text("Not Found"))
      ensures id in old(items) ==>
                && items == old(items) - {id}
                && blobs == old(blobs) - OwnedBlob(old(items)[id])
                && resp == Response(200, Text("Deleted"))
      ensures old(Valid()) ==> Valid()
    {
      if Valid() && id in items {
        ConsistentAfterRemove(items, blobs, id);
      }
      var photoPath := if id in items then items[id].photoPath else None;
      var affected := id in items;
      items := items - {id};
      if !affected {
        return Response(404, Text("Not Found"));
      }
      if Truthy(photoPath) && photoPath.value in blobs {
        blobs := blobs - {photoPath.value};
      }
      resp := Response(200, Text("Deleted"));
    }

    /** GET /inventory/:id/photo: serve the row's file as a JPEG, if the row, the path and the file exist. */
    method GetPhoto(id: string) returns (resp: Response)
      ensures resp.status == 200 <==>
                id in items && Truthy(items[id].photoPath) && items[id].photoPath.value in blobs
      ensures resp.status == 200 ==> resp.body == File(items[id].photoPath.value, "image/jpeg")
      ensures resp.status != 200 ==> resp == Response(404, Text("Photo Not Found"))
    {
      if id !in items || !Truthy(items[id].photoPath) || items[id].photoPath.value !in blobs {
        return Response(404, Text("Photo Not Found"));
      }
      resp := Response(200, File(items[id].photoPath.value, "image/jpeg"));
    }

    /**
     * PUT /inventory/:id/photo: the row must exist (404) before the upload
     * is looked at (400); then the old file is removed and both photo
     * columns are overwritten.
     */
    method ReplacePhoto(id: string, upload: Option<string>) returns (resp: Response)
      requires UploadReady(items, blobs, upload)
      modifies this
      ensures id !in old(items) ==>
                items == old(items) && blobs == old(blobs) && resp == Response(404, Text("Not Found"))
      ensures id in old(items) && upload.None? ==>
                items == old(items) && blobs == old(blobs) && resp == Response(400, Text("File not uploaded"))
      ensures id in old(items) && upload.Some? ==>
                && blobs == old(blobs) - OwnedBlob(old(items)[id])
                && upload.value in blobs
                && items == old(items)[id := old(items)[id].(photoPath := upload, photoUrl := Some(PhotoUrl(id)))]
                && resp == Response(200, Record(Row(id, items[id]), SnakeCase))
      ensures old(Valid()) ==> Valid()
    {
      if id !in items {
        return Response(404, Text("Not Found"));
      }
      if upload.None? {
        return Response(400, Text("File not uploaded"));
      }
      if Valid() {
        ConsistentAfterPhoto(items, blobs, id, upload.value);
      }
      var oldPath := items[id].photoPath;
      if Truthy(oldPath) && oldPath.value in blobs {
        blobs := blobs - {oldPath.value};
      }
      items := items[id := items[id].(photoPath := upload, photoUrl := Some(PhotoUrl(id)))];
      resp := Response(200, Record(Row(id, items[id]), SnakeCase));
    }

    /**
     * The whole application for one request: CORS answers OPTIONS, multer
     * writes the upload on its two routes before the handler runs, Express
     * picks the handler or a fallback.
     */
    method Handle(req: Request, freshId: string) returns (resp: Response)
      requires Dispatch(req.verb, ParseRoute(req.path)) == RegisterHandler ==>
                 freshId !in items && IsUuidText(freshId)
      requires WritesUpload(Dispatch(req.verb, ParseRoute(req.path))) && req.upload.Some? ==>
                 req.upload.value != "" && req.upload.value !in blobs && Unreferenced(items, req.upload.value)
      modifies this
      ensures var a := Dispatch(req.verb, ParseRoute(req.path));
              && (a == Preflight ==> resp == Response(204, NoBody))
              && (a == MethodNotAllowed ==> resp == Response(405, Text("Method Not Allowed")))
              && (a == EndpointNotFound ==> resp == Response(404, Text("404 - Endpoint Not Found")))
              && (a !in {RegisterHandler, UpdateHandler, DeleteHandler, ReplacePhotoHandler} ==>
                    items == old(items) && blobs == old(blobs))
              && (WritesUpload(a) && req.upload.Some? ==> req.upload.value in blobs)
      ensures old(Valid()) ==> Valid()
    {
      var route := ParseRoute(req.path);
      var action := Dispatch(req.verb, route);
      var upload := if WritesUpload(action) then req.upload else None;
      if upload.Some? {
        if Valid() {
          ConsistentAfterWrite(items, blobs, upload.value);
        }
        blobs := blobs + {upload.value};
      }
      match action
      case Preflight => resp := Response(204, NoBody);
      case RegisterHandler => resp := Register(req.body, upload, freshId);
      case SearchHandler => resp := Search(req.body);
      case ListHandler => resp := List();
      case GetHandler => resp := Get(route.id);
      case UpdateHandler => resp := Update(route.id, req.body);
      case DeleteHandler => resp := Delete(route.id);
      case GetPhotoHandler => resp := GetPhoto(route.id);
      case ReplacePhotoHandler => resp := ReplacePhoto(route.id, upload);
      case MethodNotAllowed => resp := Response(405, Text("Method Not Allowed"));
      case EndpointNotFound => resp := Response(404, Text("404 - Endpoint Not Found"));
    }
  }
}
