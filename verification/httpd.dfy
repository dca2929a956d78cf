/**
  The request plumbing of httpd.hh: adding headers to a response, the
  field accumulator of `PostRequestHandler`, its call protocol, and the
  per-connection life cycle of request handlers in `Daemon`.

  libmicrohttpd itself is a parameter: whether it accepts a header, how its
  post processor cuts an upload buffer into field chunks, and what a
  handler does when called.
*/
module Httpd {
  import opened Wrappers

  type Header = (string, string)

  // ---------------------------------------------------------------------
  // Response::addHeaders
  // ---------------------------------------------------------------------

  /**
    `Response::addHeaders`: headers are added in order until one is refused;
    the result is the position of the refused header, or the end. `response`
    is the list of headers already on the response and `accepts` says which
    headers libmicrohttpd takes.
  */
  method AddHeaders(response: seq<Header>, headers: seq<Header>, accepts: Header -> bool)
    returns (pos: nat, added: seq<Header>)
    ensures pos <= |headers|
    ensures forall i :: 0 <= i < pos ==> accepts(headers[i])
    ensures pos < |headers| ==> !accepts(headers[pos])
    ensures added == response + headers[..pos]
  {
    pos := 0;
    added := response;
    while pos < |headers| && accepts(headers[pos])
      invariant pos <= |headers|
      invariant forall i :: 0 <= i < pos ==> accepts(headers[i])
      invariant added == response + headers[..pos]
    {
      added := added + [headers[pos]];
      assert headers[..pos + 1] == headers[..pos] + [headers[pos]];
      pos := pos + 1;
    }
  }

  // ---------------------------------------------------------------------
  // PostRequestHandler: fields
  // ---------------------------------------------------------------------

  /**
    One call of the post processor's iterator: a piece of the value of field
    `key`, with the metadata libmicrohttpd passes (absent for a null pointer).
  */
  datatype Chunk = Chunk(key: string, fileName: Option<string>, contentType: Option<string>, encoding: Option<string>, data: string)

  /** `PostRequestHandler::Field`. */
  datatype Field = Field(fileName: string, contentType: string, encoding: string, data: string)

  type Fields = map<string, Field>

  /** A C string that may be null, read as "" when it is. */
  function OrEmpty(s: Option<string>): string
  {
    match s
    case Some(v) => v
    case None => ""
  }

  /** The field a key's first chunk creates: its metadata and no data yet. */
  function Fresh(c: Chunk): Field
  {
    Field(OrEmpty(c.fileName), OrEmpty(c.contentType), OrEmpty(c.encoding), "")
  }

  /**
    The iterator lambda: a new key gets a field with the chunk's metadata,
    an existing one keeps its own; either way the chunk's data is appended,
    and the iterator asks for more.
  */
  function Accept(fields: Fields, c: Chunk): (r: (Fields, bool))
    ensures r.1
    ensures r.0.Keys == fields.Keys + {c.key}
    ensures forall k :: k in fields && k != c.key ==> r.0[k] == fields[k]
    ensures r.0[c.key].data == (if c.key in fields then fields[c.key].data else "") + c.data
  {
    var f := if c.key in fields then fields[c.key] else Fresh(c);
    (fields[c.key := f.(data := f.data + c.data)], true)
  }

  /** The iterator applied to each chunk in turn: no field is ever removed, and every chunk's key gets one. */
  function Feed(fields: Fields, chunks: seq<Chunk>): (r: Fields)
    ensures fields.Keys <= r.Keys
    ensures forall i :: 0 <= i < |chunks| ==> chunks[i].key in r
    decreases |chunks|
  {
    if |chunks| == 0 then fields
    else Feed(Accept(fields, chunks[0]).0, chunks[1..])
  }

  /** Reference: the data of every chunk for `key`, in order of arrival. */
  function DataOf(chunks: seq<Chunk>, key: string): string
  {
    if |chunks| == 0 then ""
    else (if chunks[0].key == key then chunks[0].data else "") + DataOf(chunks[1..], key)
  }

  /** Reference: whether some chunk is for `key`. */
  predicate Seen(chunks: seq<Chunk>, key: string)
  {
    exists i :: 0 <= i < |chunks| && chunks[i].key == key
  }

  /** Reference: the first chunk for `key`. */
  function FirstFor(chunks: seq<Chunk>, key: string): (c: Chunk)
    requires Seen(chunks, key)
    ensures c.key == key
    ensures exists i :: 0 <= i < |chunks| && chunks[i] == c && forall j :: 0 <= j < i ==> chunks[j].key != key
  {
    if chunks[0].key == key then chunks[0]
    else
      assert Seen(chunks[1..], key) by {
        var i :| 0 <= i < |chunks| && chunks[i].key == key;
        assert chunks[1..][i - 1] == chunks[i];
      }
      var c := FirstFor(chunks[1..], key);
      assert forall j :: 1 <= j < |chunks| ==> chunks[j] == chunks[1..][j - 1];
      c
  }

  lemma SeenTail(chunks: seq<Chunk>, key: string)
    requires |chunks| > 0
    ensures Seen(chunks, key) <==> chunks[0].key == key || Seen(chunks[1..], key)
  {
    if Seen(chunks, key) && chunks[0].key != key {
      var i :| 0 <= i < |chunks| && chunks[i].key == key;
      assert chunks[1..][i - 1] == chunks[i];
    }
    if Seen(chunks[1..], key) {
      var i :| 0 <= i < |chunks[1..]| && chunks[1..][i].key == key;
      assert chunks[i + 1] == chunks[1..][i];
    }
  }

  /**
    After feeding chunks, a key has a field iff it had one or some chunk was
    for it; its data is the old data followed by the data of its chunks in
    arrival order; its metadata is the old field's, or else that of its
    first chunk, with null read as "".
  */
  lemma FeedSpec(fields: Fields, chunks: seq<Chunk>, key: string)
    ensures key in Feed(fields, chunks) <==> key in fields || Seen(chunks, key)
    ensures key in Feed(fields, chunks) ==>
      Feed(fields, chunks)[key].data == (if key in fields then fields[key].data else "") + DataOf(chunks, key)
    ensures key in fields ==> Feed(fields, chunks)[key].(data := "") == fields[key].(data := "")
    ensures key !in fields && Seen(chunks, key) ==> Feed(fields, chunks)[key].(data := "") == Fresh(FirstFor(chunks, key))
  {
    FeedKeys(fields, chunks, key);
    FeedData(fields, chunks, key);
    if key in fields {
      FeedKeepsMetadata(fields, chunks, key);
    }
    if key !in fields && Seen(chunks, key) {
      FeedFirstMetadata(fields, chunks, key);
    }
  }

  lemma {:induction false} FeedKeys(fields: Fields, chunks: seq<Chunk>, key: string)
    ensures key in Feed(fields, chunks) <==> key in fields || Seen(chunks, key)
    decreases |chunks|
  {
    if |chunks| > 0 {
      FeedKeys(Accept(fields, chunks[0]).0, chunks[1..], key);
      SeenTail(chunks, key);
    }
  }

  lemma {:induction false} FeedData(fields: Fields, chunks: seq<Chunk>, key: string)
    ensures key in Feed(fields, chunks) ==>
      Feed(fields, chunks)[key].data == (if key in fields then fields[key].data else "") + DataOf(chunks, key)
    decreases |chunks|
  {
    if |chunks| > 0 {
      var next := Accept(fields, chunks[0]).0;
      var head := if chunks[0].key == key then chunks[0].data else "";
      FeedData(next, chunks[1..], key);
      AcceptData(fields, chunks[0], key);
      DataStep(Feed(next, chunks[1..]), next, if key in fields then fields[key].data else "", head, DataOf(chunks[1..], key), key);
    } else if key in fields {
      assert fields[key].data + "" == fields[key].data;
    }
  }

  lemma DataStep(r: Fields, next: Fields, before: string, head: string, rest: string, key: string)
    requires key in r ==> r[key].data == (if key in next then next[key].data else "") + rest
    requires (if key in next then next[key].data else "") == before + head
    ensures key in r ==> r[key].data == before + (head + rest)
  {
    assert (before + head) + rest == before + (head + rest);
  }

  /** Accepting a chunk appends its data to its own key's field and leaves every other field's data alone. */
  lemma AcceptData(fields: Fields, c: Chunk, key: string)
    ensures var next := Accept(fields, c).0;
      (if key in next then next[key].data else "") ==
      (if key in fields then fields[key].data else "") + (if c.key == key then c.data else "")
  {
    if c.key != key {
      var before := if key in fields then fields[key].data else "";
      assert before + "" == before;
    }
  }

  lemma {:induction false} FeedKeepsMetadata(fields: Fields, chunks: seq<Chunk>, key: string)
    requires key in fields
    ensures key in Feed(fields, chunks)
    ensures Feed(fields, chunks)[key].(data := "") == fields[key].(data := "")
    decreases |chunks|
  {
    FeedKeys(fields, chunks, key);
    if |chunks| > 0 {
      var next := Accept(fields, chunks[0]).0;
      FeedKeepsMetadata(next, chunks[1..], key);
    }
  }

  lemma {:induction false} FeedFirstMetadata(fields: Fields, chunks: seq<Chunk>, key: string)
    requires key !in fields && Seen(chunks, key)
    ensures key in Feed(fields, chunks)
    ensures Feed(fields, chunks)[key].(data := "") == Fresh(FirstFor(chunks, key))
    decreases |chunks|
  {
    FeedKeys(fields, chunks, key);
    var next := Accept(fields, chunks[0]).0;
    if chunks[0].key == key {
      FeedKeepsMetadata(next, chunks[1..], key);
    } else {
      SeenTail(chunks, key);
      FeedFirstMetadata(next, chunks[1..], key);
    }
  }

  /** `PostRequestHandler::field`: the field of a key, or null. */
  function FieldOf(fields: Fields, key: string): Option<Field>
  {
    if key in fields then Some(fields[key]) else None
  }

  /**
    What a handler sees after an upload: a field exactly for the keys that
    arrived, holding the concatenation of their chunks and the first chunk's
    metadata.
  */
  lemma FieldAfterUpload(chunks: seq<Chunk>, key: string)
    ensures FieldOf(Feed(map[], chunks), key).Some? <==> Seen(chunks, key)
    ensures Seen(chunks, key) ==>
      FieldOf(Feed(map[], chunks), key) == Some(Fresh(FirstFor(chunks, key)).(data := DataOf(chunks, key)))
  {
    FeedSpec(map[], chunks, key);
    if Seen(chunks, key) {
      var f := Feed(map[], chunks)[key];
      assert "" + DataOf(chunks, key) == DataOf(chunks, key);
      assert f == f.(data := "").(data := f.data);
    }
  }

  /** Feeding two batches is feeding their concatenation. */
  lemma {:induction false} FeedAppend(fields: Fields, a: seq<Chunk>, b: seq<Chunk>)
    ensures Feed(fields, a + b) == Feed(Feed(fields, a), b)
    decreases |a|
  {
    if |a| > 0 {
      assert (a + b)[0] == a[0];
      assert (a + b)[1..] == a[1..] + b;
      FeedAppend(Accept(fields, a[0]).0, a[1..], b);
    } else {
      assert a + b == b;
    }
  }

  // ---------------------------------------------------------------------
  // PostRequestHandler: calls
  // ---------------------------------------------------------------------

  /** The outcome of one call: the handler's fields, the upload size left behind, and the answer. */
  datatype Outcome = Outcome(fields: Fields, remaining: nat, answer: bool)

  /**
    `PostRequestHandler::operator()`: a non-empty upload is run through the
    post processor (`parse` says which chunks it yields), the whole upload
    is consumed and the call succeeds; an empty one is the end of the
    request and runs the concrete handler `complete`.
  */
  function PostCall(fields: Fields, upload: string, parse: string -> seq<Chunk>, complete: Fields -> bool): (r: Outcome)
    ensures r.remaining == 0
    ensures |upload| > 0 ==> r.answer && r.fields == Feed(fields, parse(upload))
    ensures |upload| == 0 ==> r.fields == fields && r.answer == complete(fields)
  {
    if |upload| == 0 then Outcome(fields, |upload|, complete(fields))
    else Outcome(Feed(fields, parse(upload)), 0, true)
  }

  /** The chunks of a sequence of uploads, in order. */
  function ParseAll(uploads: seq<string>, parse: string -> seq<Chunk>): seq<Chunk>
  {
    if |uploads| == 0 then [] else ParseAll(uploads[..|uploads| - 1], parse) + parse(uploads[|uploads| - 1])
  }

  /** The handler's fields after each upload of a request in turn. */
  function PostUploads(fields: Fields, uploads: seq<string>, parse: string -> seq<Chunk>, complete: Fields -> bool): Fields
    requires forall i :: 0 <= i < |uploads| ==> |uploads[i]| > 0
  {
    if |uploads| == 0 then fields
    else PostCall(PostUploads(fields, uploads[..|uploads| - 1], parse, complete), uploads[|uploads| - 1], parse, complete).fields
  }

  /**
    A request body delivered in several non-empty uploads leaves the
    handler with the fields of all their chunks in order, so the final
    empty call hands the concrete handler exactly those.
  */
  lemma {:induction false} PostUploadsFeed(fields: Fields, uploads: seq<string>, parse: string -> seq<Chunk>, complete: Fields -> bool)
    requires forall i :: 0 <= i < |uploads| ==> |uploads[i]| > 0
    ensures PostUploads(fields, uploads, parse, complete) == Feed(fields, ParseAll(uploads, parse))
    ensures PostCall(PostUploads(fields, uploads, parse, complete), "", parse, complete).answer == complete(Feed(fields, ParseAll(uploads, parse)))
  {
    if |uploads| > 0 {
      var init := uploads[..|uploads| - 1];
      PostUploadsFeed(fields, init, parse, complete);
      FeedAppend(fields, ParseAll(init, parse), parse(uploads[|uploads| - 1]));
    }
  }

  // ---------------------------------------------------------------------
  // Daemon
  // ---------------------------------------------------------------------

  /** The connection's slot and the answer given to libmicrohttpd (true for MHD_YES). */
  datatype Access<H> = Access(slot: Option<H>, answer: bool)

  /**
    `Daemon::accessHandlerCallback`. An empty slot is a new request: the
    handler `created` by `getRequestHandler` is stored and the answer is
    whether there is one; the first call carries no upload. An occupied
    slot's handler is called with the upload (`call` gives its new state
    and its answer).
  */
  function AccessHandler<H>(slot: Option<H>, created: Option<H>, upload: string, call: (H, string) -> (H, bool)): (r: Access<H>)
    requires slot.Some? || |upload| == 0
    ensures slot.None? ==> r.slot == created && (r.answer <==> created.Some?)
    ensures slot.Some? ==> r.slot.Some? && (r.slot.value, r.answer) == call(slot.value, upload)
  {
    match slot
    case Some(handler) =>
      var (next, answer) := call(handler, upload);
      Access(Some(next), answer)
    case None => Access(created, created.Some?)
  }

  /** `Daemon::requestCompletedCallback`: the handler is destroyed and the slot emptied. */
  function RequestCompleted<H>(slot: Option<H>): (r: Option<H>)
    ensures r.None?
  {
    None
  }

  /**
    A connection's request: the first access creates the handler, each
    later one calls it, and completion empties the slot. The answers are
    recorded in order.
  */
  function Serve<H>(created: Option<H>, uploads: seq<string>, call: (H, string) -> (H, bool)): (r: (Option<H>, seq<bool>))
    requires created.Some?
    ensures |r.1| == |uploads|
    ensures r.0.Some?
  {
    if |uploads| == 0 then (created, [])
    else
      var (slot, answers) := Serve(created, uploads[..|uploads| - 1], call);
      var a := AccessHandler(slot, None, uploads[|uploads| - 1], call);
      (a.slot, answers + [a.answer])
  }

  /**
    The life cycle of a post request on one connection: the daemon accepts
    it when `getRequestHandler` gives a handler, every non-empty upload is
    answered YES and feeds the handler, the final empty call answers what
    the concrete handler decides about all the chunks, and completion leaves
    the slot empty again.
  */
  lemma PostConnection(uploads: seq<string>, parse: string -> seq<Chunk>, complete: Fields -> bool)
    requires forall i :: 0 <= i < |uploads| ==> |uploads[i]| > 0
    ensures AccessHandler(None, Some(map[]), "", (f, u) => PostStep(f, u, parse, complete)).answer
    ensures var s := Serve(Some(map[]), uploads, (f, u) => PostStep(f, u, parse, complete));
      s.0 == Some(Feed(map[], ParseAll(uploads, parse))) &&
      (forall i :: 0 <= i < |uploads| ==> s.1[i]) &&
      AccessHandler(s.0, None, "", (f, u) => PostStep(f, u, parse, complete)).answer == complete(Feed(map[], ParseAll(uploads, parse))) &&
      RequestCompleted(s.0).None?
  {
    PostServe(uploads, parse, complete);
    PostUploadsFeed(map[], uploads, parse, complete);
  }

  /** A post handler's step as the daemon sees it. */
  function PostStep(fields: Fields, upload: string, parse: string -> seq<Chunk>, complete: Fields -> bool): (Fields, bool)
  {
    var o := PostCall(fields, upload, parse, complete);
    (o.fields, o.answer)
  }

  lemma {:induction false} PostServe(uploads: seq<string>, parse: string -> seq<Chunk>, complete: Fields -> bool)
    requires forall i :: 0 <= i < |uploads| ==> |uploads[i]| > 0
    ensures var s := Serve(Some(map[]), uploads, (f, u) => PostStep(f, u, parse, complete));
      s.0 == Some(PostUploads(map[], uploads, parse, complete)) && (forall i :: 0 <= i < |uploads| ==> s.1[i])
  {
    if |uploads| > 0 {
      PostServe(uploads[..|uploads| - 1], parse, complete);
    }
  }
}
