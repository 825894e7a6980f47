/**
 * Client code in the style of a test: sequences of requests against one
 * service and what their responses must be, proved from the handlers'
 * contracts alone.
 */
module Scenarios {
  import opened Items
  import opened Service

  /** Register "Widget" without a photo, then read it back by id. */
  method RegisterThenGet(svc: InventoryService, freshId: string) returns (created: Response, fetched: Response)
    requires freshId !in svc.items && IsUuidText(freshId)
    modifies svc
    ensures created == Response(201, Record(Row(freshId, Item("Widget", "", None, None)), CamelCase))
    ensures fetched == Response(200, Record(created.body.row, SnakeCase))
  {
    created := svc.Register(map["inventory_name" := "Widget"], None, freshId);
    fetched := svc.Get(freshId);
  }

  /** A search that decorates the description does not change what a later read returns. */
  method SearchThenGet(svc: InventoryService, id: string) returns (found: Response, fetched: Response)
    requires id in svc.items && Truthy(svc.items[id].photoUrl)
    ensures found.status == 201
    ensures found.body.Record? &&
            found.body.row.item.description == Decorate(svc.items[id].description, svc.items[id].photoUrl.value)
    ensures fetched == Response(200, Record(Row(id, svc.items[id]), SnakeCase))
  {
    found := svc.Search(map["id" := id, "has_photo" := "true"]);
    fetched := svc.Get(id);
  }

  /** Updating only the description leaves the name; updating only the name leaves the description. */
  method UpdateOneField(svc: InventoryService, id: string, text: string) returns (r1: Response, r2: Response)
    requires id in svc.items && text != ""
    modifies svc
    ensures r1.status == 200 && r1.body.Record?
    ensures r1.body.row.item.name == old(svc.items)[id].name && r1.body.row.item.description == text
    ensures r2.status == 200 && r2.body.Record?
    ensures r2.body.row.item.name == text && r2.body.row.item.description == text
  {
    r1 := svc.Update(id, map["description" := text]);
    r2 := svc.Update(id, map["name" := text]);
  }

  /** After a delete neither the row nor its photo can be read. */
  method DeleteThenGet(svc: InventoryService, id: string) returns (deleted: Response, fetched: Response, photo: Response)
    requires id in svc.items
    modifies svc
    ensures deleted == Response(200, Text("Deleted"))
    ensures fetched == Response(404, Text("Not Found"))
    ensures photo == Response(404, Text("Photo Not Found"))
  {
    deleted := svc.Delete(id);
    fetched := svc.Get(id);
    photo := svc.GetPhoto(id);
  }

  /** Replacing a photo twice leaves one current file: the first upload is gone from disk. */
  method ReplaceTwice(svc: InventoryService, id: string, first: string, second: string)
      returns (r1: Response, r2: Response, photo: Response)
    requires svc.Valid() && id in svc.items
    requires first != second
    requires UploadReady(svc.items, svc.blobs, Some(first))
    requires UploadReady(svc.items, svc.blobs, Some(second))
    modifies svc
    ensures r1.status == 200 && r2.status == 200
    ensures first !in svc.blobs && second in svc.blobs
    ensures id in svc.items && svc.items[id].photoPath == Some(second)
    ensures photo == Response(200, File(second, "image/jpeg"))
  {
    r1 := svc.ReplacePhoto(id, Some(first));
    assert svc.blobs == old(svc.blobs) - OwnedBlob(old(svc.items)[id]);
    assert svc.items[id].photoPath == Some(first);
    r2 := svc.ReplacePhoto(id, Some(second));
    photo := svc.GetPhoto(id);
  }
}
