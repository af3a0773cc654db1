/**
 * The response body and its materialisation (`collect_content` and the
 * close that follows it). A body either answers `each`, yielding its chunks
 * in order, or is a scalar buffer used as it is; independently it may answer
 * `close`. The events a body records are the calls the middleware makes on it.
 */
module Bodies {
  import opened Wrappers

  datatype Payload = Buffered(text: string) | Chunks(parts: seq<string>)

  datatype BodyEvent = Iterated | Closed

  /** The chunks joined in order. */
  function Concat(parts: seq<string>): string
    decreases |parts|
  {
    if parts == [] then "" else parts[0] + Concat(parts[1..])
  }

  /** Where chunk `k` starts in the joined text: the total length of the chunks before it. */
  function Offset(parts: seq<string>, k: nat): nat
    requires k <= |parts|
    decreases k
  {
    if k == 0 then 0 else Offset(parts, k - 1) + |parts[k - 1]|
  }

  /** Joining distributes over splitting the chunk sequence. */
  lemma {:induction false} ConcatAppend(a: seq<string>, b: seq<string>)
    ensures Concat(a + b) == Concat(a) + Concat(b)
    decreases |a|
  {
    if a == [] {
      assert a + b == b;
    } else {
      assert (a + b)[1..] == a[1..] + b;
      ConcatAppend(a[1..], b);
    }
  }

  /**
   * The joined text is every chunk, in arrival order, and nothing else: its
   * length is the sum of the chunk lengths and chunk `k` sits at `Offset(parts, k)`.
   */
  lemma {:induction false} ChunkAt(parts: seq<string>, k: nat)
    requires k < |parts|
    ensures Offset(parts, k) + |parts[k]| <= |Concat(parts)| == Offset(parts, |parts|)
    ensures Concat(parts)[Offset(parts, k)..Offset(parts, k) + |parts[k]|] == parts[k]
    decreases |parts|
  {
    var n := |parts|;
    var init := parts[..n - 1];
    assert parts == init + [parts[n - 1]];
    ConcatAppend(init, [parts[n - 1]]);
    assert Concat([parts[n - 1]]) == parts[n - 1];
    OffsetPrefix(parts, n - 1);
    if k < n - 1 {
      ChunkAt(init, k);
      OffsetPrefix(parts, k);
    } else {
      LengthIsOffset(init);
    }
  }

  lemma {:induction false} OffsetPrefix(parts: seq<string>, k: nat)
    requires k < |parts|
    ensures Offset(parts[..|parts| - 1], k) == Offset(parts, k)
    decreases k
  {
    if k > 0 { OffsetPrefix(parts, k - 1); }
  }

  lemma {:induction false} LengthIsOffset(parts: seq<string>)
    ensures |Concat(parts)| == Offset(parts, |parts|)
    decreases |parts|
  {
    if parts != [] {
      var n := |parts|;
      var init := parts[..n - 1];
      assert parts == init + [parts[n - 1]];
      ConcatAppend(init, [parts[n - 1]]);
      assert Concat([parts[n - 1]]) == parts[n - 1];
      LengthIsOffset(init);
      OffsetPrefix(parts, n - 1);
    }
  }

  /** Every chunk sits, unchanged, at its offset in the joined text. */
  lemma ChunksInConcat(parts: seq<string>)
    ensures |Concat(parts)| == Offset(parts, |parts|)
    ensures forall k :: 0 <= k < |parts| ==>
              Offset(parts, k) + |parts[k]| <= |Concat(parts)| &&
              Concat(parts)[Offset(parts, k)..Offset(parts, k) + |parts[k]|] == parts[k]
  {
    LengthIsOffset(parts);
    forall k | 0 <= k < |parts|
      ensures Offset(parts, k) + |parts[k]| <= |Concat(parts)|
      ensures Concat(parts)[Offset(parts, k)..Offset(parts, k) + |parts[k]|] == parts[k]
    {
      ChunkAt(parts, k);
    }
  }

  /**
   * What `collect_content` yields: a scalar body as it is; the chunks joined
   * in order; `nil` for an empty chunk sequence (the accumulator is never set).
   */
  function Collected(p: Payload): (r: Option<string>)
    ensures r.None? <==> p == Chunks([])
    ensures p.Buffered? ==> r == Some(p.text)
    ensures p.Chunks? && r.Some? ==>
              |r.value| == Offset(p.parts, |p.parts|) &&
              forall k :: 0 <= k < |p.parts| ==>
                Offset(p.parts, k) + |p.parts[k]| <= |r.value| &&
                r.value[Offset(p.parts, k)..Offset(p.parts, k) + |p.parts[k]|] == p.parts[k]
  {
    if p.Chunks? && p.parts != [] then
      ChunksInConcat(p.parts);
      Some(Concat(p.parts))
    else
    match p
    case Buffered(s) => Some(s)
    case Chunks(parts) => if parts == [] then None else Some(Concat(parts))
  }

  /**
   * The loop of `collect_content`: the first chunk becomes the accumulator,
   * every later one is appended to it.
   */
  method Accumulate(parts: seq<string>) returns (content: Option<string>)
    ensures content.None? <==> parts == []
    ensures content.Some? ==> content.value == Concat(parts) && |content.value| == Offset(parts, |parts|)
  {
    content := None;
    var i := 0;
    while i < |parts|
      invariant 0 <= i <= |parts|
      invariant content.None? <==> i == 0
      invariant content.Some? ==> content.value == Concat(parts[..i])
    {
      ConcatAppend(parts[..i], [parts[i]]);
      assert parts[..i + 1] == parts[..i] + [parts[i]];
      assert Concat([parts[i]]) == parts[i];
      content := match content
        case Some(acc) => Some(acc + parts[i])
        case None => Some(parts[i]);
      i := i + 1;
    }
    assert parts[..i] == parts;
    LengthIsOffset(parts);
  }

  /** A chunked body materialises to the same text as the buffer holding those chunks joined. */
  lemma StreamedEqualsBuffered(parts: seq<string>)
    requires parts != []
    ensures Collected(Chunks(parts)) == Collected(Buffered(Concat(parts)))
  {
  }

  /** Three chunks of a page materialise like the page in one buffer. */
  lemma ThreeChunkPage()
    ensures Collected(Chunks(["<html>", "<body>", "</body></html>"])) ==
            Collected(Buffered("<html><body></body></html>"))
  {
    var parts := ["<html>", "<body>", "</body></html>"];
    assert Concat(parts[2..]) == "</body></html>" by {
      assert parts[2..] == ["</body></html>"];
      assert Concat(["</body></html>"]) == "</body></html>" + Concat([]);
    }
    assert Concat(parts[1..]) == "<body>" + Concat(parts[2..]) by { assert parts[1..][1..] == parts[2..]; }
    assert Concat(parts) == "<html>" + Concat(parts[1..]);
    var page := "<html><body></body></html>";
    assert |Concat(parts)| == |page|;
    forall k | 0 <= k < |page| ensures Concat(parts)[k] == page[k] { }
    assert Concat(parts) == page;
    assert parts != [];
    assert Collected(Chunks(parts)) == Some(Concat(parts));
  }

  /** The body object of a response, with the calls made on it so far. */
  class ResponseBody {
    const payload: Payload
    /** Whether the body answers `close`. */
    const closeable: bool
    var events: seq<BodyEvent>

    constructor (payload: Payload, closeable: bool)
      ensures this.payload == payload && this.closeable == closeable && events == []
    {
      this.payload := payload;
      this.closeable := closeable;
      events := [];
    }

    /** `each`: hands out the chunks, in order. */
    method Each() returns (parts: seq<string>)
      requires payload.Chunks?
      modifies this
      ensures parts == payload.parts
      ensures events == old(events) + [Iterated]
    {
      parts := payload.parts;
      events := events + [Iterated];
    }

    /** `close`. */
    method Close()
      requires closeable
      modifies this
      ensures events == old(events) + [Closed]
    {
      events := events + [Closed];
    }
  }

  /**
   * `collect_content` followed by the close at line 41: the body is iterated
   * only if it answers `each`, then closed only if it answers `close`.
   */
  method CollectAndClose(body: ResponseBody) returns (content: Option<string>)
    modifies body
    ensures content == Collected(body.payload)
    ensures body.events == old(body.events) +
                           (if body.payload.Chunks? then [Iterated] else []) +
                           (if body.closeable then [Closed] else [])
  {
    if body.payload.Chunks? {
      var parts := body.Each();
      content := Accumulate(parts);
    } else {
      content := Some(body.payload.text);
    }
    if body.closeable {
      body.Close();
    }
  }
}
