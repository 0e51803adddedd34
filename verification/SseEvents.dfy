/** Reading a whole event stream (client/src/sse.rs, `read_sse_stream`): frames, their
    data lines, and a consumer that may stop. */
module SseEvents {
  import opened Text
  import opened Lines
  import opened Sse

  /** The callbacks, each a function of everything it was called with so far: `onData`
      of the data strings, `onEvents` of the batches (false ends the stream). `utf8`
      decodes a frame or fails. */
  datatype Consumer<!E> = Consumer(
    utf8: Bytes -> Option<string>,
    onData: seq<string> -> Option<seq<E>>,
    onEvents: seq<seq<E>> -> bool)

  /** What the consumer has been given. */
  datatype Given<E> = Given(data: seq<string>, batches: seq<seq<E>>, open: bool)

  const DATA := "data: "

  /** What follows `data: ` on the lines that, trimmed, begin with it. */
  function Payloads(lines: seq<string>): seq<string> {
    if |lines| == 0 then []
    else
      var init, line := Payloads(lines[..|lines| - 1]), Trim(lines[|lines| - 1]);
      if DATA <= line then init + [line[|DATA|..]] else init
  }

  /** Nothing else decides the payloads: each line gives what follows a literal
      `data: `, or nothing, in its place. */
  lemma {:induction false} PayloadsExactly(a: seq<string>, line: string, b: seq<string>)
    ensures Payloads([]) == []
    ensures Payloads(a + [line] + b) ==
              Payloads(a) + (if "data: " <= Trim(line) then [Trim(line)[6..]] else []) + Payloads(b)
  {
    hide Trim;
    var all := a + [line] + b;
    var own := if "data: " <= Trim(line) then [Trim(line)[6..]] else [];
    if |b| == 0 {
      assert all == a + [line] && all[..|a|] == a;
      assert Payloads(a) + own + [] == Payloads(a) + own;
    } else {
      var init := b[..|b| - 1];
      PayloadsExactly(a, line, init);
      assert all[..|all| - 1] == a + [line] + init && all[|all| - 1] == b[|b| - 1];
      Associative(Payloads(a) + own, Payloads(init), [Trim(b[|b| - 1])[if DATA <= Trim(b[|b| - 1]) then 6 else 0..]]);
    }
  }

  function FramePayloads<E>(c: Consumer<E>, frame: Bytes): seq<string> {
    match c.utf8(frame)
    case Some(text) => Payloads(ContentLines(text))
    case None => []
  }

  /** The events for `more`, handed on after `data`. */
  function Events<E>(c: Consumer<E>, data: seq<string>, more: seq<string>): seq<E> {
    if |more| == 0 then []
    else Events(c, data, more[..|more| - 1]) + c.onData(data + more).GetOr([])
  }

  /** They are those of each payload in order, asked for with all that came before. */
  lemma {:induction false} EventsExactly<E>(c: Consumer<E>, data: seq<string>, x: string, more: seq<string>)
    ensures Events(c, data, []) == []
    ensures Events(c, data, [x] + more) == c.onData(data + [x]).GetOr([]) + Events(c, data + [x], more)
  {
    var all, first := [x] + more, c.onData(data + [x]).GetOr([]);
    if |more| == 0 {
      assert all == [x] && all[..0] == [];
      assert [] + first == first + [];
    } else {
      var init := more[..|more| - 1];
      EventsExactly(c, data, x, init);
      assert all[..|all| - 1] == [x] + init && data + all == data + [x] + more;
      Associative(first, Events(c, data + [x], init), c.onData(data + [x] + more).GetOr([]));
    }
  }

  function GiveFrame<E>(c: Consumer<E>, g: Given<E>, frame: Bytes): Given<E> {
    if !g.open then g
    else
      var d := FramePayloads(c, frame);
      var batches := g.batches + [Events(c, g.data, d)];
      Given(g.data + d, batches, c.onEvents(batches))
  }

  /** The frames of a stream in order, until the consumer stops. */
  function Give<E>(c: Consumer<E>, g: Given<E>, frames: seq<Bytes>): Given<E> {
    if |frames| == 0 then g
    else GiveFrame(c, Give(c, g, frames[..|frames| - 1]), frames[|frames| - 1])
  }

  function Nothing<E>(): Given<E> {
    Given([], [], true)
  }

  lemma {:induction false} GiveAppend<E>(c: Consumer<E>, g: Given<E>, a: seq<Bytes>, b: seq<Bytes>)
    ensures Give(c, g, a + b) == Give(c, Give(c, g, a), b)
  {
    hide GiveFrame;
    if |b| == 0 {
      assert a + b == a;
    } else {
      GiveAppend(c, g, a, b[..|b| - 1]);
      assert (a + b)[..|a + b| - 1] == a + b[..|b| - 1] && (a + b)[|a + b| - 1] == b[|b| - 1];
    }
  }

  lemma {:induction false} StoppedStays<E>(c: Consumer<E>, g: Given<E>, frames: seq<Bytes>)
    requires !g.open
    ensures Give(c, g, frames) == g
  {
    if |frames| > 0 {
      StoppedStays(c, g, frames[..|frames| - 1]);
    }
  }

  lemma {:induction false} ConcatAppend(a: seq<Bytes>, b: seq<Bytes>)
    ensures Concat(a + b) == Concat(a) + Concat(b)
  {
    if |b| == 0 {
      assert a + b == a && Concat(a) + [] == Concat(a);
    } else {
      ConcatAppend(a, b[..|b| - 1]);
      assert (a + b)[..|a + b| - 1] == a + b[..|b| - 1];
      Associative(Concat(a), Concat(b[..|b| - 1]), b[|b| - 1]);
    }
  }

  /** A consumer that stopped after some of the chunks has been given all it would be
      given from the whole stream. */
  lemma StoppedEarly<E>(c: Consumer<E>, chunks: seq<Bytes>, k: nat)
    requires k <= |chunks| && !Give(c, Nothing(), Split(Concat(chunks[..k])).frames).open
    ensures Give(c, Nothing(), Split(Concat(chunks)).frames) == Give(c, Nothing(), Split(Concat(chunks[..k])).frames)
  {
    hide Split, Give, Concat;
    var a, b := Concat(chunks[..k]), Concat(chunks[k..]);
    assert chunks == chunks[..k] + chunks[k..];
    ConcatAppend(chunks[..k], chunks[k..]);
    SplitInTwo(a, b);
    GiveAppend(c, Nothing(), Split(a).frames, Split(Split(a).rest + b).frames);
    StoppedStays(c, Give(c, Nothing(), Split(a).frames), Split(Split(a).rest + b).frames);
  }

  lemma GiveStep<E>(c: Consumer<E>, g: Given<E>, frames: seq<Bytes>, k: nat)
    requires k < |frames|
    ensures Give(c, g, frames[..k + 1]) == GiveFrame(c, Give(c, g, frames[..k]), frames[k])
  {
    assert frames[..k + 1][..k] == frames[..k];
  }

  lemma PayloadsStep(lines: seq<string>, k: nat)
    requires k < |lines|
    ensures var line := Trim(lines[k]);
            Payloads(lines[..k + 1]) == Payloads(lines[..k]) + if DATA <= line then [line[|DATA|..]] else []
  {
    hide Trim;
    assert lines[..k + 1][..k] == lines[..k];
    assert Payloads(lines[..k]) + [] == Payloads(lines[..k]);
  }

  lemma EventsStep<E>(c: Consumer<E>, data: seq<string>, d: seq<string>, x: string)
    ensures Events(c, data, d + [x]) == Events(c, data, d) + c.onData(data + d + [x]).GetOr([])
  {
    assert (d + [x])[..|d|] == d && data + (d + [x]) == data + d + [x];
  }

  /** The body of the frame loop: the payloads of the frame are handed on one by one, the
      events they give are one batch, and the consumer says whether to go on. */
  method ConsumeFrame<E>(c: Consumer<E>, g: Given<E>, frame: Bytes) returns (after: Given<E>)
    requires g.open
    ensures var d := if c.utf8(frame).Some? then Payloads(ContentLines(c.utf8(frame).value)) else [];
            && after.data == g.data + d
            && after.batches == g.batches + [Events(c, g.data, d)]
            && after.open == c.onEvents(after.batches)
    ensures after == GiveFrame(c, g, frame)
  {
    hide Trim, ContentLines, Payloads, Events;
    var data, frameEvents: seq<E> := g.data, [];
    var text := c.utf8(frame);
    ghost var d: seq<string> := [];
    NoPayloads(c, g.data);
    assert g.data + [] == g.data;
    if text.Some? {
      var lines := ContentLines(text.value);
      for k := 0 to |lines|
        invariant d == Payloads(lines[..k]) && data == g.data + d && frameEvents == Events(c, g.data, d)
      {
        PayloadsStep(lines, k);
        var line := Trim(lines[k]);
        if DATA <= line {
          var payload := line[|DATA|..];
          EventsStep(c, g.data, d, payload);
          Associative(g.data, d, [payload]);
          data := data + [payload];
          var events := c.onData(data);
          if events.Some? {
            frameEvents := frameEvents + events.value;
          } else {
            assert frameEvents + [] == frameEvents;
          }
          d := d + [payload];
        } else {
          assert d + [] == d;
        }
      }
      assert lines[..|lines|] == lines;
    }
    var batches := g.batches + [frameEvents];
    after := Given(data, batches, c.onEvents(batches));
  }

  lemma NoPayloads<E>(c: Consumer<E>, data: seq<string>)
    ensures Events(c, data, []) == [] && forall lines: seq<string> :: Payloads(lines[..0]) == []
  {
  }

  // ---- what the consumer gets -----------------------------------------------

  /** The payloads of several frames. */
  function DataOf<E>(c: Consumer<E>, frames: seq<Bytes>): seq<string> {
    if |frames| == 0 then []
    else DataOf(c, frames[..|frames| - 1]) + FramePayloads(c, frames[|frames| - 1])
  }

  /** The consumer was given the first `n` frames: all their payloads in order, for each
      a batch with its events, going on after every batch but the last; and all frames
      unless it stopped. */
  ghost predicate WasGiven<E>(c: Consumer<E>, frames: seq<Bytes>, g: Given<E>, n: nat) {
    && n <= |frames| == |g.batches| + (|frames| - n)
    && g.data == DataOf(c, frames[..n])
    && (forall k :: 0 <= k < n ==> g.batches[k] == Events(c, DataOf(c, frames[..k]), FramePayloads(c, frames[k])))
    && (forall k :: 0 < k < n ==> c.onEvents(g.batches[..k]))
    && (g.open <==> n == 0 || c.onEvents(g.batches))
    && (g.open ==> n == |frames|)
  }

  /** `g` stopped before the last of the frames. */
  lemma StaysStopped<E>(c: Consumer<E>, init: seq<Bytes>, last: Bytes, g: Given<E>, n: nat)
    requires WasGiven(c, init, g, n) && !g.open
    ensures WasGiven(c, init + [last], g, n)
  {
    hide Events, FramePayloads, DataOf;
    var frames := init + [last];
    assert forall k :: 0 <= k <= n ==> frames[..k] == init[..k];
  }

  lemma DataStep<E>(c: Consumer<E>, init: seq<Bytes>, last: Bytes)
    ensures DataOf(c, init + [last]) == DataOf(c, init) + FramePayloads(c, last)
  {
    assert (init + [last])[..|init|] == init;
  }

  lemma GoesOn<E>(c: Consumer<E>, init: seq<Bytes>, last: Bytes, g: Given<E>)
    requires WasGiven(c, init, g, |init|) && g.open
    ensures WasGiven(c, init + [last], GiveFrame(c, g, last), |init| + 1)
  {
    hide Events, FramePayloads, DataOf;
    var frames, n := init + [last], |init|;
    var after := GiveFrame(c, g, last);
    DataStep(c, init, last);
    assert init[..n] == init && frames[..n + 1] == frames;
    assert g.data == DataOf(c, init);
    forall k | 0 <= k < n + 1
      ensures after.batches[k] == Events(c, DataOf(c, frames[..k]), FramePayloads(c, frames[k]))
    {
      assert frames[..k] == init[..k];
    }
    forall k | 0 < k < n + 1
      ensures c.onEvents(after.batches[..k])
    {
      assert after.batches[..k] == g.batches[..k];
      assert k == n ==> g.batches[..k] == g.batches;
    }
  }

  lemma {:induction false} GivenExactly<E>(c: Consumer<E>, frames: seq<Bytes>) returns (n: nat)
    ensures WasGiven(c, frames, Give(c, Nothing(), frames), n)
  {
    hide FramePayloads, Events, WasGiven, GiveFrame;
    if |frames| == 0 {
      n := 0;
      NothingGiven(c);
    } else {
      var init, last := frames[..|frames| - 1], frames[|frames| - 1];
      n := GivenExactly(c, init);
      var g := Give(c, Nothing(), init);
      assert init + [last] == frames;
      OpenMeansAll(c, init, g, n);
      if g.open {
        GoesOn(c, init, last, g);
        n := n + 1;
      } else {
        StoppedStaysOne(c, g, last);
        StaysStopped(c, init, last, g, n);
      }
    }
  }

  lemma NothingGiven<E>(c: Consumer<E>)
    ensures WasGiven(c, [], Nothing<E>(), 0)
  {
  }

  lemma OpenMeansAll<E>(c: Consumer<E>, frames: seq<Bytes>, g: Given<E>, n: nat)
    requires WasGiven(c, frames, g, n)
    ensures g.open ==> n == |frames|
  {
  }

  lemma StoppedStaysOne<E>(c: Consumer<E>, g: Given<E>, frame: Bytes)
    requires !g.open
    ensures GiveFrame(c, g, frame) == g
  {
  }

  method ConsumeFrames<E>(c: Consumer<E>, g: Given<E>, frames: seq<Bytes>) returns (after: Given<E>)
    requires g.open
    ensures after == Give(c, g, frames)
  {
    hide GiveFrame;
    after := g;
    for k := 0 to |frames|
      invariant after == Give(c, g, frames[..k]) && after.open
    {
      GiveStep(c, g, frames, k);
      after := ConsumeFrame(c, after, frames[k]);
      if !after.open {
        StoppedInside(c, g, frames, k + 1);
        return;
      }
    }
    assert frames[..|frames|] == frames;
  }

  lemma StoppedInside<E>(c: Consumer<E>, g: Given<E>, frames: seq<Bytes>, k: nat)
    requires k <= |frames| && !Give(c, g, frames[..k]).open
    ensures Give(c, g, frames) == Give(c, g, frames[..k])
  {
    hide Give;
    assert frames == frames[..k] + frames[k..];
    GiveAppend(c, g, frames[..k], frames[k..]);
    StoppedStays(c, Give(c, g, frames[..k]), frames[k..]);
  }

  /** What has been pushed and handed on after `k` chunks. */
  ghost predicate InStep<E>(
    c: Consumer<E>, max: nat, chunks: seq<Bytes>, k: nat, buffer: Bytes, g: Given<E>)
    requires k <= |chunks|
  {
    && buffer == Split(Concat(chunks[..k])).rest
    && g == Give(c, Nothing(), Split(Concat(chunks[..k])).frames)
    && forall j :: 0 <= j < k ==> !TooBig(max, [], chunks, j)
  }

  lemma StartsInStep<E>(c: Consumer<E>, max: nat, chunks: seq<Bytes>)
    ensures InStep(c, max, chunks, 0, [], Nothing())
  {
    SplitStep([]);
  }

  lemma PushKeepsStep<E>(c: Consumer<E>, max: nat, chunks: seq<Bytes>, k: nat, buffer: Bytes, g: Given<E>, r: Fed)
    requires k < |chunks| && InStep(c, max, chunks, k, buffer, g) && r == Feed1(max, buffer, chunks[k])
    ensures r.Overflow? <==> TooBig(max, [], chunks, k)
    ensures r.Fed? ==> InStep(c, max, chunks, k + 1, r.buffer, Give(c, g, r.frames))
  {
    hide Split, Give, Concat;
    var sofar := Concat(chunks[..k]);
    assert [] + sofar == sofar;
    if r.Fed? {
      SplitInTwo(sofar, chunks[k]);
      ConcatStep(chunks, k);
      GiveAppend(c, Nothing(), Split(sofar).frames, r.frames);
    }
  }

  lemma ConcatStep(chunks: seq<Bytes>, k: nat)
    requires k < |chunks|
    ensures Concat(chunks[..k + 1]) == Concat(chunks[..k]) + chunks[k]
  {
    assert chunks[..k + 1][..k] == chunks[..k];
  }

  /** `read_sse_stream`. When it ends normally the consumer has been given, until it
      stopped, the frames of all bytes together, however they were cut into chunks; on
      an overflow, those of the bytes before the first chunk that does not fit. */
  method ReadSseStream<E>(c: Consumer<E>, max: nat, chunks: seq<Bytes>) returns (ok: bool, g: Given<E>)
    ensures ok ==> exists n :: WasGiven(c, Split(Concat(chunks)).frames, g, n)
    ensures ok ==> g == Give(c, Nothing(), Split(Concat(chunks)).frames)
    ensures !ok ==> exists k: nat, n :: k < |chunks| && |Split(Concat(chunks[..k])).rest| + |chunks[k]| > max && g.open
                                        && (forall j :: 0 <= j < k ==> !TooBig(max, [], chunks, j))
                                        && WasGiven(c, Split(Concat(chunks[..k])).frames, g, n)
  {
    hide Split, Give, Concat, TooBig, Feed1, NoDelim, WasGiven;
    var buffer := new SseFrameBuffer(max);
    g := Nothing();
    StartsInStep(c, max, chunks);
    var k := 0;
    while k < |chunks|
      invariant 0 <= k <= |chunks| && buffer.Valid() && buffer.maxSize == max && fresh(buffer)
      invariant g.open && InStep(c, max, chunks, k, buffer.buffer, g)
    {
      ghost var before := buffer.buffer;
      var r := buffer.Push(chunks[k]);
      PushKeepsStep(c, max, chunks, k, before, g, r);
      if r.Overflow? {
        var n := GivenExactly(c, Split(Concat(chunks[..k])).frames);
        StopsAt(max, chunks, k);
        return false, g;
      }
      g := ConsumeFrames(c, g, r.frames);
      k := k + 1;
      if !g.open {
        StoppedEarly(c, chunks, k);
        var n := GivenExactly(c, Split(Concat(chunks)).frames);
        return true, g;
      }
    }
    assert chunks[..k] == chunks;
    var n := GivenExactly(c, Split(Concat(chunks)).frames);
    ok := true;
  }

  lemma StopsAt(max: nat, chunks: seq<Bytes>, k: nat)
    requires k < |chunks|
    ensures TooBig(max, [], chunks, k) <==> |Split(Concat(chunks[..k])).rest| + |chunks[k]| > max
  {
    assert [] + Concat(chunks[..k]) == Concat(chunks[..k]);
  }
}
