/**
  The resource tree of the web server (webserver.hh): URL lookup through
  nested `MapResource`s, the request handler each resource gives for each
  HTTP method, and `WebServer::getRequestHandler`, which turns a request
  line into a reply.

  Status codes are those of RFC 9110: 200 OK (section 15.3.1), 302 Found
  (section 15.4.3), 400 Bad Request (section 15.5.1), 404 Not Found (section
  15.5.5) and 405 Method Not Allowed (section 15.5.6).
*/
module WebServer {
  import opened Wrappers

  const Ok: nat := 200
  const Found: nat := 302
  const BadRequest: nat := 400
  const NotFound: nat := 404
  const MethodNotAllowed: nat := 405

  const OctetStream: string := "application/octet-stream"
  const TextPlain: string := "text/plain"

  // ---------------------------------------------------------------------
  // Replies
  // ---------------------------------------------------------------------

  /** What a response carries. */
  datatype Body =
    | Empty                      // `Response()`
    | Memory(size: nat)          // a static block of bytes
    | FileContents(name: string) // an open file
    | Text(content: string)      // a string copied into the response
    | Generated                  // the text a dynamic resource writes for the request's arguments

  /** A `ResponseRequestHandler`: the status it queues and the response it was built with. */
  datatype Reply = Reply(status: nat, headers: seq<(string, string)>, body: Body)

  /** `makeResponseRequestHandler(code)` and its not-found and method-not-allowed variants. */
  function StatusReply(status: nat): Reply { Reply(status, [], Empty) }

  /** `makeContentRequestHandler(contentType, ...)`: 200 with a Content-Type header. */
  function ContentReply(contentType: string, body: Body): Reply
  {
    Reply(Ok, [("Content-Type", contentType)], body)
  }

  /** `makeRedirectRequestHandler(url)`: 302 with a Location header and no body. */
  function RedirectReply(url: string): Reply
  {
    Reply(Found, [("Location", url)], Empty)
  }

  // ---------------------------------------------------------------------
  // Resources
  // ---------------------------------------------------------------------

  datatype Resource =
    | Plain                                        // `Resource`: every method is not allowed
    | Map(entries: seq<Entry>)                     // `MapResource`, in order of registration
    | StaticData(size: nat, contentType: string)   // `StaticDataResource`
    | File(name: string, contentType: string)      // `FileResource`
    | Directory(directory: string)                 // `DirectoryResource`
    | Str(content: string, contentType: string)    // `StringResource`
    | DynamicStr(contentType: string)              // a `DynamicStringResource`
    | Redirect(url: string)                        // `RedirectResource`

  datatype Entry = Entry(url: string, resource: Resource)

  /** The single-argument constructors' default content types. */
  function FileOf(name: string): Resource { File(name, OctetStream) }

  function StaticDataOf(size: nat): Resource { StaticData(size, OctetStream) }

  function StrOf(content: string): Resource { Str(content, TextPlain) }

  /** `resources_.find(url)`. */
  function Find(entries: seq<Entry>, url: string): (r: Option<Resource>)
    ensures r.Some? <==> exists i :: 0 <= i < |entries| && entries[i].url == url
    ensures r.Some? ==> exists i :: 0 <= i < |entries| && entries[i].url == url && entries[i].resource == r.value
  {
    if |entries| == 0 then None
    else if entries[0].url == url then Some(entries[0].resource)
    else
      var r := Find(entries[1..], url);
      assert forall i :: 1 <= i < |entries| ==> entries[i] == entries[1..][i - 1];
      r
  }

  /** `MapResource::add`: like `std::map::emplace`, a url already present keeps its resource. */
  function Add(entries: seq<Entry>, url: string, resource: Resource): (r: seq<Entry>)
    ensures entries <= r && |r| <= |entries| + 1
    ensures Find(r, url).Some?
  {
    if Find(entries, url).Some? then entries
    else
      var r := entries + [Entry(url, resource)];
      assert r[|entries|].url == url;
      r
  }

  /** The first registration of a url wins; other urls are unaffected. */
  lemma AddKeepsFirst(entries: seq<Entry>, url: string, resource: Resource, other: string)
    requires other != url
    ensures Find(Add(entries, url, resource), url) == if Find(entries, url).Some? then Find(entries, url) else Some(resource)
    ensures Find(Add(entries, url, resource), other) == Find(entries, other)
  {
    if Find(entries, url).None? {
      FindAppend(entries, Entry(url, resource), url);
      FindAppend(entries, Entry(url, resource), other);
    }
  }

  lemma {:induction false} FindAppend(entries: seq<Entry>, e: Entry, url: string)
    ensures Find(entries + [e], url) == if Find(entries, url).Some? then Find(entries, url) else if e.url == url then Some(e.resource) else None
  {
    if |entries| > 0 {
      assert (entries + [e])[1..] == entries[1..] + [e];
      FindAppend(entries[1..], e, url);
    }
  }

  // ---------------------------------------------------------------------
  // URL lookup
  // ---------------------------------------------------------------------

  /** A url as the server hands it on: starting with '/'. */
  predicate Rooted(url: string) { |url| > 0 && url[0] == '/' }

  /** `url.find_last_of('/', p)` on a rooted url: the last '/' at or before p. */
  function LastSlash(url: string, p: nat): (c: nat)
    requires Rooted(url) && p < |url|
    ensures c <= p && url[c] == '/'
    ensures forall k :: c < k <= p ==> url[k] != '/'
  {
    if url[p] == '/' then p else LastSlash(url, p - 1)
  }

  /** A position at which `MapResource` may split a url: a '/' after the start whose prefix is registered. */
  ghost predicate SplitsAt(entries: seq<Entry>, url: string, c: int)
  {
    0 < c < |url| && url[c] == '/' && Find(entries, url[..c]).Some?
  }

  /**
    The prefix loop: from the '/' at `count`, try the prefix before each '/'
    leftwards and stop at the first registered one, with the rest of the url
    from that '/' on. The empty prefix is never tried.
  */
  function Route(entries: seq<Entry>, url: string, count: nat): (r: Option<(Resource, string)>)
    requires Rooted(url) && count < |url| && url[count] == '/'
    ensures r.Some? ==> exists i :: 0 <= i < |entries| && entries[i].resource == r.value.0
    ensures r.Some? ==> Rooted(r.value.1)
    decreases count
  {
    if count == 0 then None
    else match Find(entries, url[..count])
      case Some(sub) => Some((sub, url[count..]))
      case None => Route(entries, url, LastSlash(url, count - 1))
  }

  /** `x` is `r` or a resource registered, at any depth, in the maps below `r`. */
  ghost predicate Holds(r: Resource, x: Resource)
    decreases r
  {
    x == r || (r.Map? && exists i :: 0 <= i < |r.entries| && Holds(r.entries[i].resource, x))
  }

  /**
    `Resource::operator[]` of every kind of resource, with a leaf answering
    "/" with itself (see `LookupAsWritten` for what the source does there).
    Every answer is a resource of the tree or a file a directory makes up.
  */
  function Lookup(r: Resource, url: string): (res: Option<Resource>)
    requires Rooted(url)
    ensures res.Some? ==> Holds(r, res.value) || res.value.File?
    decreases r
  {
    match r
    case Map(entries) =>
      (match Find(entries, url)
       case Some(exact) =>
         var i :| 0 <= i < |entries| && entries[i].url == url && entries[i].resource == exact;
         assert Holds(entries[i].resource, exact);
         Some(exact)
       case None =>
         (match Route(entries, url, LastSlash(url, |url| - 1))
          case None => None
          case Some((sub, rest)) =>
            var i :| 0 <= i < |entries| && entries[i].resource == sub;
            assert sub < r by {
              assert entries[i] < r;
            }
            var res := Lookup(sub, rest);
            assert res.Some? && Holds(sub, res.value) ==> Holds(r, res.value);
            res))
    case Directory(directory) => Some(FileOf(directory + url))
    case _ => if url == "/" then Some(r) else None
  }

  /** Route finds the rightmost splitting position at or before `count`, or reports that there is none. */
  lemma {:induction false} RouteSpec(entries: seq<Entry>, url: string, count: nat)
    requires Rooted(url) && count < |url| && url[count] == '/'
    ensures Route(entries, url, count).None? <==> forall c :: 0 <= c <= count ==> !SplitsAt(entries, url, c)
    ensures Route(entries, url, count).Some? ==>
      exists c :: 0 < c <= count && SplitsAt(entries, url, c) &&
        (forall c' :: c < c' <= count ==> !SplitsAt(entries, url, c')) &&
        Route(entries, url, count) == Some((Find(entries, url[..c]).value, url[c..]))
    decreases count
  {
    if count > 0 && Find(entries, url[..count]).None? {
      var next := LastSlash(url, count - 1);
      RouteSpec(entries, url, next);
      forall c | next < c <= count ensures !SplitsAt(entries, url, c) {
      }
    } else if count > 0 {
      assert SplitsAt(entries, url, count);
    }
  }

  /**
    `MapResource::operator[]` without an exact match: the longest registered
    prefix ending before a '/' receives the rest of the url, from that '/' on,
    and its answer is final, even when it is null and a shorter prefix is
    also registered. Without such a prefix the answer is null.
  */
  lemma LookupByPrefix(entries: seq<Entry>, url: string)
    requires Rooted(url) && Find(entries, url).None?
    ensures (forall c :: !SplitsAt(entries, url, c)) ==> Lookup(Map(entries), url).None?
    ensures forall c :: SplitsAt(entries, url, c) && (forall c' :: c < c' ==> !SplitsAt(entries, url, c')) ==>
      Rooted(url[c..]) && Lookup(Map(entries), url) == Lookup(Find(entries, url[..c]).value, url[c..])
  {
    var last := LastSlash(url, |url| - 1);
    RouteSpec(entries, url, last);
    forall c | last < c ensures !SplitsAt(entries, url, c) {
    }
    forall c | SplitsAt(entries, url, c) && (forall c' :: c < c' ==> !SplitsAt(entries, url, c'))
      ensures Rooted(url[c..]) && Lookup(Map(entries), url) == Lookup(Find(entries, url[..c]).value, url[c..])
    {
      assert c <= last;
      var r := Route(entries, url, last);
      var c0 :| 0 < c0 <= last && SplitsAt(entries, url, c0) &&
        (forall c' :: c0 < c' <= last ==> !SplitsAt(entries, url, c')) &&
        r == Some((Find(entries, url[..c0]).value, url[c0..]));
      assert c0 == c;
    }
  }

  /** An exact registration wins over every prefix. */
  lemma LookupExact(entries: seq<Entry>, url: string)
    requires Rooted(url) && Find(entries, url).Some?
    ensures Lookup(Map(entries), url) == Find(entries, url)
  {
  }

  /** A resource other than a map or directory answers only for "/", with itself. */
  lemma LookupLeaf(r: Resource, url: string)
    requires Rooted(url) && !r.Map? && !r.Directory?
    ensures Lookup(r, url) == if url == "/" then Some(r) else None
  {
  }

  /**
    What `Resource::operator[]` does as written for a leaf asked for "/":
    `Resource` inherits `enable_shared_from_this` protected, so no
    `shared_ptr` ever records itself in it and `shared_from_this()` throws
    `std::bad_weak_ptr`, which nothing on the request path catches.
  */
  datatype Outcome = Answer(resource: Option<Resource>) | Throws

  /**
    `operator[]` with the throwing leaf: wherever it does not throw it agrees
    with `Lookup`, and it throws only where `Lookup` answers with a resource
    of the tree that is neither a map nor a directory.
  */
  function LookupAsWritten(r: Resource, url: string): (o: Outcome)
    requires Rooted(url)
    ensures o.Answer? ==> o.resource == Lookup(r, url)
    ensures o.Throws? ==> Lookup(r, url).Some? && Holds(r, Lookup(r, url).value)
    ensures o.Throws? ==> !Lookup(r, url).value.Map? && !Lookup(r, url).value.Directory?
    decreases r
  {
    match r
    case Map(entries) =>
      (match Find(entries, url)
       case Some(exact) => Answer(Some(exact))
       case None =>
         (match Route(entries, url, LastSlash(url, |url| - 1))
          case None => Answer(None)
          case Some((sub, rest)) =>
            var i :| 0 <= i < |entries| && entries[i].resource == sub;
            assert sub < r by {
              assert entries[i] < r;
            }
            var o := LookupAsWritten(sub, rest);
            assert o.Throws? ==> Holds(r, Lookup(sub, rest).value);
            o))
    case Directory(directory) => Answer(Some(FileOf(directory + url)))
    case _ => if url == "/" then Throws else Answer(None)
  }

  /**
    A map with a string at "/a" asked for "/a/": as written the lookup
    throws, while the model answers with the string and GET is served 200.
  */
  lemma LeafSlashThrows()
    ensures LookupAsWritten(Map([Entry("/a", StrOf("hi"))]), "/a/") == Throws
    ensures Lookup(Map([Entry("/a", StrOf("hi"))]), "/a/") == Some(StrOf("hi"))
    ensures GetRequestHandler(Some(Map([Entry("/a", StrOf("hi"))])), "/a/", "GET", _ => true).status == Ok
  {
    var es := [Entry("/a", StrOf("hi"))];
    var u := "/a/";
    assert Find(es, u).None?;
    assert LastSlash(u, 2) == 2;
    assert u[..2] == "/a" && u[2..] == "/";
    assert Find(es, "/a") == Some(StrOf("hi"));
    assert Route(es, u, 2) == Some((StrOf("hi"), "/"));
  }

  /** A directory answers every url with the file of that name below it. */
  lemma LookupDirectory(directory: string, url: string)
    requires Rooted(url)
    ensures Lookup(Directory(directory), url) == Some(File(directory + url, OctetStream))
  {
  }

  /**
    No backtracking: with "/a" a directory and "/a/b" a plain resource,
    "/a/b/c" goes to "/a/b", which has nothing at "/c", so the answer is null
    even though "/a" would have served it; "/a/x" reaches the directory.
  */
  lemma NoBacktracking()
    ensures Lookup(Map([Entry("/a", Directory("d")), Entry("/a/b", Plain)]), "/a/b/c").None?
    ensures Lookup(Map([Entry("/a", Directory("d")), Entry("/a/b", Plain)]), "/a/x") == Some(File("d/x", OctetStream))
  {
    var es := [Entry("/a", Directory("d")), Entry("/a/b", Plain)];
    var u := "/a/b/c";
    assert Find(es, u).None?;
    assert LastSlash(u, 5) == 4;
    assert u[..4] == "/a/b" && u[4..] == "/c";
    assert Find(es, "/a/b") == Some(Plain);
    assert Route(es, u, 4) == Some((Plain, "/c"));
    var v := "/a/x";
    assert Find(es, v).None?;
    assert LastSlash(v, 3) == 2;
    assert v[..2] == "/a" && v[2..] == "/x";
    assert Find(es, "/a") == Some(Directory("d"));
    assert Route(es, v, 2) == Some((Directory("d"), "/x"));
    assert "d" + "/x" == "d/x";
  }

  // ---------------------------------------------------------------------
  // Methods
  // ---------------------------------------------------------------------

  datatype Method = Get | Head | Post | Put | Patch | Delete

  /** The `strcmp` chain of `getRequestHandler`. */
  function MethodOf(name: string): Option<Method>
  {
    if name == "GET" then Some(Get)
    else if name == "HEAD" then Some(Head)
    else if name == "POST" then Some(Post)
    else if name == "PUT" then Some(Put)
    else if name == "PATCH" then Some(Patch)
    else if name == "DELETE" then Some(Delete)
    else None
  }

  /** `MapResource::root()`: the "/" entry, or a fresh plain resource. */
  function Root(entries: seq<Entry>): Resource
  {
    match Find(entries, "/")
    case Some(r) => r
    case None => Plain
  }

  /**
    `get<Method>Handler` of each kind of resource. `canOpen` says which file
    names open for reading.
  */
  function HandlerFor(r: Resource, m: Method, canOpen: string -> bool): (rep: Reply)
    ensures rep.status == Ok ==> (m == Get || m == Head) && |rep.headers| == 1 && rep.headers[0].0 == "Content-Type"
    ensures rep.status == Found ==> |rep.headers| == 1 && rep.headers[0].0 == "Location"
    ensures rep.status != Ok && rep.status != Found ==> rep.headers == [] && rep.body == Empty
    ensures m == Head ==> rep.body == Empty
    ensures rep.body.FileContents? ==> m == Get && canOpen(rep.body.name)
    decreases r
  {
    match r
    case Plain => StatusReply(MethodNotAllowed)
    case Map(entries) =>
      if m == Delete then StatusReply(MethodNotAllowed)
      else (match Find(entries, "/")
        case None => StatusReply(MethodNotAllowed)
        case Some(root) =>
          assert root < r by {
            var i :| 0 <= i < |entries| && entries[i].url == "/" && entries[i].resource == root;
            assert entries[i] < r;
          }
          HandlerFor(root, m, canOpen))
    case StaticData(size, contentType) =>
      if m == Get then ContentReply(contentType, Memory(size))
      else if m == Head then ContentReply(contentType, Empty)
      else StatusReply(MethodNotAllowed)
    case File(name, contentType) =>
      if m == Get || m == Head then
        if !canOpen(name) then StatusReply(NotFound)
        else if m == Get then ContentReply(contentType, FileContents(name))
        else ContentReply(contentType, Empty)
      else StatusReply(MethodNotAllowed)
    case Directory(_) => StatusReply(MethodNotAllowed)
    case Str(content, contentType) =>
      if m == Get then ContentReply(contentType, Text(content))
      else if m == Head then ContentReply(contentType, Empty)
      else StatusReply(MethodNotAllowed)
    case DynamicStr(contentType) =>
      if m == Get then ContentReply(contentType, Generated)
      else if m == Head then ContentReply(contentType, Empty)
      else StatusReply(MethodNotAllowed)
    case Redirect(url) => RedirectReply(url)
  }

  /**
    A map forwards every method but DELETE to its "/" entry, falling back to
    a plain resource's 405; DELETE is not forwarded and is always 405.
  */
  lemma MapForwarding(entries: seq<Entry>, m: Method, canOpen: string -> bool)
    ensures m != Delete ==> HandlerFor(Map(entries), m, canOpen) == HandlerFor(Root(entries), m, canOpen)
    ensures m == Delete ==> HandlerFor(Map(entries), m, canOpen) == StatusReply(MethodNotAllowed)
    ensures HandlerFor(Plain, m, canOpen) == StatusReply(MethodNotAllowed)
  {
  }

  /** A redirect answers every method with 302 and the target in Location. */
  lemma RedirectEveryMethod(url: string, m: Method, canOpen: string -> bool)
    ensures HandlerFor(Redirect(url), m, canOpen).status == Found
    ensures HandlerFor(Redirect(url), m, canOpen).headers == [("Location", url)]
  {
  }

  /** A resource's handler only ever answers 200, 302, 404 or 405; it never reports a bad request. */
  lemma {:induction false} HandlerStatuses(r: Resource, m: Method, canOpen: string -> bool)
    ensures HandlerFor(r, m, canOpen).status in {Ok, Found, NotFound, MethodNotAllowed}
    ensures HandlerFor(r, m, canOpen).status == NotFound ==> exists name :: !canOpen(name)
    ensures r.File? ==> (HandlerFor(r, m, canOpen).status == NotFound <==> (m == Get || m == Head) && !canOpen(r.name))
    decreases r
  {
    match r
    case Map(entries) =>
      if m != Delete && Find(entries, "/").Some? {
        var root := Find(entries, "/").value;
        assert root < r by {
          var i :| 0 <= i < |entries| && entries[i].url == "/" && entries[i].resource == root;
          assert entries[i] < r;
        }
        HandlerStatuses(root, m, canOpen);
      }
    case File(name, _) =>
    case _ =>
  }

  // ---------------------------------------------------------------------
  // The server
  // ---------------------------------------------------------------------

  /**
    `WebServer::getRequestHandler`: a url not starting with '/' (an empty C
    string included) is a bad request; without a root or a resource at the
    url the answer is 404; one of the six methods goes to the resource's
    handler, any other method is 405.
  */
  function GetRequestHandler(root: Option<Resource>, url: string, verb: string, canOpen: string -> bool): (rep: Reply)
    ensures rep.status == Ok ==> Rooted(url) && (MethodOf(verb) == Some(Get) || MethodOf(verb) == Some(Head))
    ensures rep.status == Ok ==> root.Some? && Lookup(root.value, url).Some?
    ensures !Rooted(url) ==> rep == StatusReply(BadRequest)
    ensures rep.status == Found ==> |rep.headers| == 1 && rep.headers[0].0 == "Location"
  {
    if !Rooted(url) then StatusReply(BadRequest)
    else if root.None? then StatusReply(NotFound)
    else match Lookup(root.value, url)
      case None => StatusReply(NotFound)
      case Some(resource) =>
        match MethodOf(verb)
        case None => StatusReply(MethodNotAllowed)
        case Some(m) => HandlerFor(resource, m, canOpen)
  }

  /**
    The server answers 400 exactly for urls not starting with '/'; it
    answers 404 whenever there is no root or nothing at the url; an unknown
    method on an existing resource is 405; a known one is the resource's own
    handler.
  */
  lemma GetRequestHandlerSpec(root: Option<Resource>, url: string, verb: string, canOpen: string -> bool)
    ensures GetRequestHandler(root, url, verb, canOpen).status == BadRequest <==> !Rooted(url)
    ensures Rooted(url) && (root.None? || Lookup(root.value, url).None?) ==>
      GetRequestHandler(root, url, verb, canOpen) == StatusReply(NotFound)
    ensures Rooted(url) && root.Some? && Lookup(root.value, url).Some? ==>
      GetRequestHandler(root, url, verb, canOpen) ==
        match MethodOf(verb)
        case None => StatusReply(MethodNotAllowed)
        case Some(m) => HandlerFor(Lookup(root.value, url).value, m, canOpen)
  {
    if Rooted(url) && root.Some? && Lookup(root.value, url).Some? && MethodOf(verb).Some? {
      HandlerStatuses(Lookup(root.value, url).value, MethodOf(verb).value, canOpen);
    }
  }

  /** Exactly the six method names are recognised. */
  lemma MethodNames(name: string)
    ensures MethodOf(name).Some? <==> name in {"GET", "HEAD", "POST", "PUT", "PATCH", "DELETE"}
  {
  }
}
