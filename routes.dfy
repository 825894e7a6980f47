/**
 * How the application maps a request line to a handler: the five route
 * patterns, the verbs each accepts, the `.all` fallbacks that answer 405
 * on the two parametrised resources, the catch-all that answers 404, and
 * the CORS middleware that answers every OPTIONS request first.
 */
module Routes {
  import opened Items

  datatype Verb = Get | Head | Post | Put | Delete | Options | Other(name: string)

  /** The route patterns the application registers. */
  datatype Route =
    | RegisterPath                 // /register
    | SearchPath                   // /search
    | InventoryPath                // /inventory
    | ItemPath(id: string)         // /inventory/:id
    | PhotoPath(id: string)        // /inventory/:id/photo
    | Unmatched

  /** A route whose `:id` is a segment Express can bind. */
  predicate WellFormedRoute(r: Route) {
    r != Unmatched && ((r.ItemPath? || r.PhotoPath?) ==> IsSegment(r.id))
  }

  /** The request path a route is reached by. */
  function RoutePath(r: Route): string
    requires r != Unmatched
  {
    match r
    case RegisterPath => "/register"
    case SearchPath => "/search"
    case InventoryPath => "/inventory"
    case ItemPath(id) => InventoryPrefix + id
    case PhotoPath(id) => PhotoUrl(id)
  }

  /** The route a request path matches, if any. */
  function ParseRoute(path: string): (r: Route)
    ensures r != Unmatched ==> WellFormedRoute(r) && RoutePath(r) == path
  {
    var n := |InventoryPrefix|;
    if path == "/register" then RegisterPath
    else if path == "/search" then SearchPath
    else if path == "/inventory" then InventoryPath
    else if |path| > n && path[..n] == InventoryPrefix then
      var rest := path[n..];
      assert path == InventoryPrefix + rest;
      var m := |rest| - |PhotoSuffix|;
      if IsSegment(rest) then ItemPath(rest)
      else if m > 0 && rest[m..] == PhotoSuffix && IsSegment(rest[..m]) then
        assert rest == rest[..m] + PhotoSuffix;
        PhotoPath(rest[..m])
      else Unmatched
    else Unmatched
  }

  /** Every well-formed route is matched by its own path, and only by it. */
  lemma {:induction false} ParseRoutePath(r: Route)
    requires WellFormedRoute(r)
    ensures ParseRoute(RoutePath(r)) == r
  {
    var n := |InventoryPrefix|;
    match r
    case ItemPath(id) =>
      var p := RoutePath(r);
      assert p[..n] == InventoryPrefix && p[n..] == id;
      assert p != "/register" && p != "/search" && p != "/inventory" by {
        assert |p| > 10;
      }
    case PhotoPath(id) =>
      var p := RoutePath(r);
      var rest := p[n..];
      assert rest == id + PhotoSuffix;
      assert rest[|id|] == '/';
      assert !IsSegment(rest);
      assert rest[..|id|] == id;
      assert p != "/register" && p != "/search" && p != "/inventory" by {
        assert |p| > 10;
      }
    case _ =>
  }

  /** The URL stored for an item's photo leads back to that item's photo route. */
  lemma PhotoUrlRoutesToPhoto(id: string)
    requires IsSegment(id)
    ensures ParseRoute(PhotoUrl(id)) == PhotoPath(id)
  {
    ParseRoutePath(PhotoPath(id));
  }

  /** What the application does with a request. */
  datatype Action =
    | Preflight
    | RegisterHandler
    | SearchHandler
    | ListHandler
    | GetHandler
    | UpdateHandler
    | DeleteHandler
    | GetPhotoHandler
    | ReplacePhotoHandler
    | MethodNotAllowed
    | EndpointNotFound

  /** The action Express selects for a verb on a matched (or unmatched) path. */
  function Dispatch(verb: Verb, route: Route): (a: Action)
    ensures verb == Options <==> a == Preflight
    ensures a == MethodNotAllowed ==> route.ItemPath? || route.PhotoPath?
    ensures (route.ItemPath? || route.PhotoPath?) && verb != Options ==> a != EndpointNotFound
    ensures route == Unmatched && verb != Options ==> a == EndpointNotFound
    ensures a in {RegisterHandler, UpdateHandler, DeleteHandler, ReplacePhotoHandler} ==> verb in {Post, Put, Delete}
    ensures route.ItemPath? ==> (a == MethodNotAllowed <==> verb !in {Get, Head, Put, Delete, Options})
    ensures route.PhotoPath? ==> (a == MethodNotAllowed <==> verb !in {Get, Head, Put, Options})
    ensures a == RegisterHandler <==> route == RegisterPath && verb == Post
    ensures a == SearchHandler <==> route == SearchPath && verb == Post
    ensures a == ListHandler <==> route == InventoryPath && verb in {Get, Head}
    ensures a == GetHandler <==> route.ItemPath? && verb in {Get, Head}
    ensures a == UpdateHandler <==> route.ItemPath? && verb == Put
    ensures a == DeleteHandler <==> route.ItemPath? && verb == Delete
    ensures a == GetPhotoHandler <==> route.PhotoPath? && verb in {Get, Head}
    ensures a == ReplacePhotoHandler <==> route.PhotoPath? && verb == Put
    ensures a == EndpointNotFound <==>
              verb != Options &&
              (|| route == Unmatched
               || (route == RegisterPath && verb != Post)
               || (route == SearchPath && verb != Post)
               || (route == InventoryPath && verb !in {Get, Head}))
  {
    if verb == Options then Preflight
    else
      match route
      case RegisterPath => if verb == Post then RegisterHandler else EndpointNotFound
      case SearchPath => if verb == Post then SearchHandler else EndpointNotFound
      case InventoryPath => if verb in {Get, Head} then ListHandler else EndpointNotFound
      case ItemPath(_) =>
        if verb in {Get, Head} then GetHandler
        else if verb == Put then UpdateHandler
        else if verb == Delete then DeleteHandler
        else MethodNotAllowed
      case PhotoPath(_) =>
        if verb in {Get, Head} then GetPhotoHandler
        else if verb == Put then ReplacePhotoHandler
        else MethodNotAllowed
      case Unmatched => EndpointNotFound
  }

  /** Only the two upload routes run multer, so only they write a file. */
  predicate WritesUpload(a: Action) {
    a == RegisterHandler || a == ReplacePhotoHandler
  }

  /** The requests multer handles: POST /register and PUT /inventory/:id/photo, and no other. */
  lemma UploadRequests(verb: Verb, route: Route)
    ensures WritesUpload(Dispatch(verb, route)) <==>
              (route == RegisterPath && verb == Post) || (route.PhotoPath? && verb == Put)
  {
  }

  /**
   * In a consistent store the URL an item advertises is matched by the
   * photo route of that same item, a GET there reaches the photo handler,
   * and the file it names is on disk.
   */
  lemma AdvertisedPhotoReachable(items: map<string, Item>, blobs: set<string>, id: string)
    requires Consistent(items, blobs) && id in items && items[id].photoUrl.Some?
    ensures ParseRoute(items[id].photoUrl.value) == PhotoPath(id)
    ensures Dispatch(Get, ParseRoute(items[id].photoUrl.value)) == GetPhotoHandler
    ensures Truthy(items[id].photoPath) && items[id].photoPath.value in blobs
  {
    PhotoUrlRoutesToPhoto(id);
  }
}
