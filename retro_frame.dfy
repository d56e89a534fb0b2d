/*
 * The requests sendToRetroFrame sends to a RetroFrame device: the device's
 * buffers are cleared, each frame's buffer is uploaded, and the device is
 * told to show the uploaded images. The network is not modelled; the model
 * records the order in which requests are issued and which responses the
 * method waits for.
 */
module RetroFrameTransmitter {
  import opened FrameEncoder

  datatype Verb = Delete | Post

  /** What a request carries: nothing, the raw bytes of a frame, or the JSON
      settings of the show request. */
  datatype Body = NoBody | Binary(bytes: seq<byte>) | ShowSettings(delay: nat)

  datatype Request = Request(verb: Verb, path: string, body: Body)

  /** One step of the transmission: a request is handed to fetch, or the method
      waits for the response to a request it issued. */
  datatype Event = Issue(request: Request) | AwaitResponse(request: Request)

  const BuffersPath := "/api/buffers"
  const ShowPath := "/api/show/image"
  const ShowDelay := 200

  /** DELETE /api/buffers, with no body. */
  const Clear := Request(Delete, BuffersPath, NoBody)

  /** POST /api/show/image with body {"delay": 200}. */
  const Show := Request(Post, ShowPath, ShowSettings(ShowDelay))

  /** POST /api/buffers carrying one frame's bytes. */
  function Upload(bytes: seq<byte>): Request
  {
    Request(Post, BuffersPath, Binary(bytes))
  }

  /** The request body of every frame, in list order. */
  function Encoded(frames: seq<Frame>): (bodies: seq<seq<byte>>)
    ensures |bodies| == |frames|
  {
    seq(|frames|, i requires 0 <= i < |frames| => FrameBytes(frames[i].grid))
  }

  /** The upload requests, in list order. Each one is only issued: the callback
      that awaits it is not awaited by the caller. */
  function Uploads(bodies: seq<seq<byte>>): (events: seq<Event>)
    ensures |events| == |bodies|
  {
    if bodies == [] then []
    else Uploads(bodies[..|bodies| - 1]) + [Issue(Upload(bodies[|bodies| - 1]))]
  }

  /** The whole transmission for the given frame bodies: the clear is issued and
      awaited, every upload is issued, then the show request is issued and awaited. */
  function Transmission(bodies: seq<seq<byte>>): (trace: seq<Event>)
    ensures |trace| == |bodies| + 4
  {
    [Issue(Clear), AwaitResponse(Clear)] + Uploads(bodies) + [Issue(Show), AwaitResponse(Show)]
  }

  /** sendToRetroFrame, step by step: the trace records each fetch as it is
      issued and each response the method waits for. */
  method SendToRetroFrame(frames: seq<Frame>) returns (trace: seq<Event>)
    ensures trace == Transmission(Encoded(frames))
  {
    ghost var bodies := Encoded(frames);
    trace := [Issue(Clear), AwaitResponse(Clear)];
    for idx := 0 to |frames|
      invariant trace == [Issue(Clear), AwaitResponse(Clear)] + Uploads(bodies[..idx])
    {
      var body := EncodeFrame(frames[idx].grid);
      trace := trace + [Issue(Upload(body))];
      assert bodies[..idx + 1][..idx] == bodies[..idx];
    }
    assert bodies[..|frames|] == bodies;
    trace := trace + [Issue(Show), AwaitResponse(Show)];
  }

  // ---------------------------------------------------------------- properties

  /** Upload i is the (i+1)-th issued upload. */
  lemma {:induction false} UploadAt(bodies: seq<seq<byte>>, i: nat)
    requires i < |bodies|
    ensures Uploads(bodies)[i] == Issue(Upload(bodies[i]))
  {
    var n := |bodies| - 1;
    if i < n {
      UploadAt(bodies[..n], i);
    }
  }

  /** Where each event sits: the clear and its response first, upload i at
      position 2 + i, then the show and its response last. */
  lemma TransmissionShape(bodies: seq<seq<byte>>)
    ensures var trace := Transmission(bodies);
      && trace[0] == Issue(Clear)
      && trace[1] == AwaitResponse(Clear)
      && (forall k :: 2 <= k < |bodies| + 2 ==> trace[k] == Issue(Upload(bodies[k - 2])))
      && trace[|bodies| + 2] == Issue(Show)
      && trace[|bodies| + 3] == AwaitResponse(Show)
  {
    forall k | 2 <= k < |bodies| + 2
      ensures Transmission(bodies)[k] == Issue(Upload(bodies[k - 2]))
    {
      UploadAt(bodies, k - 2);
    }
  }

  /** The requests in the order they are issued. */
  function Issued(trace: seq<Event>): seq<Request>
  {
    if trace == [] then []
    else
      var last := trace[|trace| - 1];
      Issued(trace[..|trace| - 1]) + if last.Issue? then [last.request] else []
  }

  lemma {:induction false} IssuedAppend(a: seq<Event>, b: seq<Event>)
    ensures Issued(a + b) == Issued(a) + Issued(b)
  {
    if b != [] {
      var b0 := b[..|b| - 1];
      assert (a + b)[..|a + b| - 1] == a + b0;
      IssuedAppend(a, b0);
    } else {
      assert a + b == a;
    }
  }

  /** Every upload is an issued request, in frame order. */
  lemma {:induction false} IssuedUploads(bodies: seq<seq<byte>>)
    ensures |Issued(Uploads(bodies))| == |bodies|
    ensures forall i :: 0 <= i < |bodies| ==> Issued(Uploads(bodies))[i] == Upload(bodies[i])
  {
    if bodies != [] {
      var n := |bodies| - 1;
      var last: seq<Event> := [Issue(Upload(bodies[n]))];
      IssuedUploads(bodies[..n]);
      IssuedAppend(Uploads(bodies[..n]), last);
      assert Issued(last) == [Upload(bodies[n])] by {
        assert last[..0] == [];
      }
    }
  }

  /** The issued requests are the clear, one upload per frame in list order, and the
      show: |bodies| + 2 requests. */
  lemma IssuedRequests(bodies: seq<seq<byte>>)
    ensures var issued := Issued(Transmission(bodies));
      && |issued| == |bodies| + 2
      && issued[0] == Clear
      && (forall i :: 0 <= i < |bodies| ==> issued[i + 1] == Upload(bodies[i]))
      && issued[|bodies| + 1] == Show
  {
    var head: seq<Event> := [Issue(Clear), AwaitResponse(Clear)];
    var tail: seq<Event> := [Issue(Show), AwaitResponse(Show)];
    IssuedAppend(head + Uploads(bodies), tail);
    IssuedAppend(head, Uploads(bodies));
    IssuedUploads(bodies);
    IssuedPair(Clear);
    IssuedPair(Show);
  }

  /** Issuing a request and waiting for its response issues that one request. */
  lemma IssuedPair(r: Request)
    ensures Issued([Issue(r), AwaitResponse(r)]) == [r]
  {
    var pair := [Issue(r), AwaitResponse(r)];
    assert pair[..1] == [Issue(r)] && pair[..1][..0] == [];
    assert Issued(pair[..1]) == [r];
  }

  /** The method waits for exactly two responses, the clear's and the show's; no
      upload is awaited, so the show request does not wait for the uploads. */
  lemma OnlyClearAndShowAwaited(bodies: seq<seq<byte>>)
    ensures var trace := Transmission(bodies);
      forall k :: 0 <= k < |trace| && trace[k].AwaitResponse? ==> k == 1 || k == |bodies| + 3
  {
    var trace := Transmission(bodies);
    TransmissionShape(bodies);
    forall k | 2 <= k < |bodies| + 2
      ensures trace[k].Issue?
    {
    }
  }

  /** The clear is the only DELETE, and its response arrives before any other
      request is issued. */
  lemma ClearCompletesFirst(bodies: seq<seq<byte>>)
    ensures var trace := Transmission(bodies);
      trace[..2] == [Issue(Clear), AwaitResponse(Clear)]
      && forall k :: 2 <= k < |trace| ==> trace[k].request.verb == Post
  {
    var trace := Transmission(bodies);
    TransmissionShape(bodies);
    forall k | 2 <= k < |bodies| + 2
      ensures trace[k].request.verb == Post
    {
    }
  }

  /** Upload i carries frame i's buffer: four bytes per cell, (b, g, r, 1) per cell. */
  lemma UploadBodies(frames: seq<Frame>, i: nat)
    requires i < |frames|
    ensures var body := Transmission(Encoded(frames))[2 + i].request.body;
      body.Binary? && var bytes := body.bytes;
      |bytes| == 4 * |frames[i].grid|
      && forall c :: 0 <= c < |frames[i].grid| ==> bytes[4 * c..4 * c + 4] == CellBytes(frames[i].grid[c])
  {
    TransmissionShape(Encoded(frames));
    assert Transmission(Encoded(frames))[2 + i] == Issue(Upload(FrameBytes(frames[i].grid)));
    FrameLayout(frames[i].grid);
  }
}
