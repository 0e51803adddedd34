/** Incremental SSE framing (client/src/sse.rs): the LF LF and CRLF CRLF subset of
    the event-stream grammar in section 9.2 of the WHATWG HTML standard. */
module Sse {
  import opened Text

  newtype Byte = b: int | 0 <= b < 256
  type Bytes = seq<Byte>

  const LF: Byte := 10
  const CR: Byte := 13

  /** Length of the delimiter that starts at `i`, or 0. */
  function DelimAt(s: Bytes, i: nat): nat {
    if i + 2 <= |s| && s[i] == LF && s[i + 1] == LF then 2
    else if i + 4 <= |s| && s[i] == CR && s[i + 1] == LF && s[i + 2] == CR && s[i + 3] == LF then 4
    else 0
  }

  ghost predicate HasAt(s: Bytes, i: nat, part: Bytes) {
    i + |part| <= |s| && s[i..i + |part|] == part
  }

  /** The delimiters are LF LF and CR LF CR LF, byte for byte. */
  lemma DelimAtExactly(s: Bytes, i: nat)
    ensures DelimAt(s, i) == 2 <==> HasAt(s, i, [10, 10])
    ensures DelimAt(s, i) == 4 <==> HasAt(s, i, [13, 10, 13, 10])
    ensures DelimAt(s, i) in {0, 2, 4}
  {
    if i + 2 <= |s| {
      assert s[i..i + 2] == [s[i], s[i + 1]];
    }
    if i + 4 <= |s| {
      assert s[i..i + 4] == [s[i], s[i + 1], s[i + 2], s[i + 3]];
    }
  }

  ghost predicate NoDelim(s: Bytes) {
    forall q: nat :: DelimAt(s, q) == 0
  }

  /** Where the first delimiter at or after `i` starts; the length if there is none. */
  function FirstDelim(s: Bytes, i: nat): (p: nat)
    requires i <= |s|
    ensures i <= p <= |s|
    ensures forall q :: i <= q < p ==> DelimAt(s, q) == 0
    ensures p < |s| ==> DelimAt(s, p) > 0
    decreases |s| - i
  {
    if i == |s| || DelimAt(s, i) > 0 then i else FirstDelim(s, i + 1)
  }

  lemma FirstDelimUnique(s: Bytes, i: nat, p: nat)
    requires i <= p <= |s|
    requires forall q :: i <= q < p ==> DelimAt(s, q) == 0
    requires p < |s| ==> DelimAt(s, p) > 0
    ensures FirstDelim(s, i) == p
  {
    hide DelimAt;
  }

  /** Frames, the delimiter that ended each, and what is left over. */
  datatype Framing = Framing(frames: seq<Bytes>, delims: seq<Bytes>, rest: Bytes)

  /** Cut a whole byte string at its first delimiter, over and over. */
  function Split(s: Bytes): Framing
    decreases |s|
  {
    var p := FirstDelim(s, 0);
    if p == |s| then Framing([], [], s)
    else
      var d := DelimAt(s, p);
      Cons(s[..p], s[p..p + d], Split(s[p + d..]))
  }

  function Cons(frame: Bytes, delim: Bytes, r: Framing): Framing {
    Framing([frame] + r.frames, [delim] + r.delims, r.rest)
  }

  // ---- what a framing is, without an algorithm ------------------------------

  function Glue(frames: seq<Bytes>, delims: seq<Bytes>): Bytes
    requires |frames| == |delims|
  {
    if |frames| == 0 then [] else frames[0] + delims[0] + Glue(frames[1..], delims[1..])
  }

  predicate IsDelim(d: Bytes) {
    d == [LF, LF] || d == [CR, LF, CR, LF]
  }

  /** `d` is the first delimiter of `f + d`; in particular `f` contains none. */
  ghost predicate Ends(f: Bytes, d: Bytes) {
    IsDelim(d) && forall q: nat :: q < |f| ==> DelimAt(f + d, q) == 0
  }

  /** Every byte of `s` is in exactly one frame, one delimiter or the rest, in order. */
  ghost predicate IsFraming(s: Bytes, r: Framing) {
    && |r.frames| == |r.delims|
    && s == Glue(r.frames, r.delims) + r.rest
    && (forall i :: 0 <= i < |r.frames| ==> Ends(r.frames[i], r.delims[i]))
    && NoDelim(r.rest)
  }

  lemma EndsHasNoDelim(f: Bytes, d: Bytes)
    requires Ends(f, d)
    ensures NoDelim(f)
  {
    forall q: nat
      ensures DelimAt(f, q) == 0
    {
      if q < |f| {
        assert DelimAt(f + d, q) == 0;
        assert forall k :: q <= k < |f| ==> (f + d)[k] == f[k];
      }
    }
  }

  /** A delimiter that only appears once more bytes have arrived starts at the last
      byte if it is LF LF; if it is CRLF CRLF it starts among the last three, and
      no delimiter of `s` starts just after it. */
  lemma LateDelim(s: Bytes, t: Bytes, q: nat)
    requires q < |s| && DelimAt(s, q) == 0 && DelimAt(s + t, q) > 0
    ensures q + 1 == |s| || (q + 4 > |s| && DelimAt(s, q + 1) == 0)
  {
    assert forall k :: 0 <= k < |s| ==> (s + t)[k] == s[k];
  }

  lemma EarlyDelim(s: Bytes, t: Bytes, q: nat)
    requires DelimAt(s, q) > 0
    ensures DelimAt(s + t, q) == DelimAt(s, q) && q + 2 <= |s|
  {
  }

  /** A delimiter found in `s` is still the first after more bytes arrive: a CRLF
      CRLF still incomplete at the end of `s` cannot start before it. */
  lemma FirstDelimStable(s: Bytes, t: Bytes)
    requires FirstDelim(s, 0) < |s|
    ensures FirstDelim(s + t, 0) == FirstDelim(s, 0)
    ensures DelimAt(s + t, FirstDelim(s, 0)) == DelimAt(s, FirstDelim(s, 0))
  {
    hide DelimAt;
    var p := FirstDelim(s, 0);
    EarlyDelim(s, t, p);
    forall q | 0 <= q < p
      ensures DelimAt(s + t, q) == 0
    {
      if DelimAt(s + t, q) > 0 {
        LateDelim(s, t, q);
      }
    }
    FirstDelimUnique(s + t, 0, p);
  }

  /** Bytes already searched need not be searched again but for the last three. */
  lemma ResumeIsEnough(b: Bytes, t: Bytes, from: nat)
    requires NoDelim(b) && (from == 0 || from + 3 <= |b|)
    ensures from <= |b + t|
    ensures FirstDelim(b + t, from) == FirstDelim(b + t, 0)
  {
    hide FirstDelim;
    if from > 0 {
      forall q | 0 <= q < from
        ensures DelimAt(b + t, q) == 0
      {
        assert DelimAt(b, q) == 0;
        assert forall k :: q <= k < q + 4 && k < |b| ==> (b + t)[k] == b[k];
      }
      FirstDelimUnique(b + t, 0, FirstDelim(b + t, from));
    }
  }

  lemma NoDelimIffNoneFound(s: Bytes)
    ensures FirstDelim(s, 0) == |s| <==> NoDelim(s)
  {
  }

  lemma PrefixHasNoDelim(s: Bytes, n: nat, q: nat)
    requires n <= |s| && DelimAt(s, q) == 0
    ensures DelimAt(s[..n], q) == 0
  {
  }

  lemma DelimIsDelim(s: Bytes, p: nat)
    requires DelimAt(s, p) > 0
    ensures p + DelimAt(s, p) <= |s| && IsDelim(s[p..p + DelimAt(s, p)])
  {
  }

  lemma FirstDelimEnds(s: Bytes)
    requires FirstDelim(s, 0) < |s|
    ensures var p := FirstDelim(s, 0); var d := DelimAt(s, p);
            p + d <= |s| && Ends(s[..p], s[p..p + d])
  {
    hide DelimAt, IsDelim, FirstDelim;
    var p := FirstDelim(s, 0);
    var d := DelimAt(s, p);
    DelimIsDelim(s, p);
    var f, e := s[..p], s[p..p + d];
    assert f + e == s[..p + d];
    forall q: nat | q < |f|
      ensures DelimAt(f + e, q) == 0
    {
      PrefixHasNoDelim(s, p + d, q);
    }
  }

  lemma SplitStep(s: Bytes)
    ensures var p := FirstDelim(s, 0); var d := DelimAt(s, p);
            if p == |s| then Split(s) == Framing([], [], s)
            else p + d <= |s| && d > 0 && Split(s) == Cons(s[..p], s[p..p + d], Split(s[p + d..]))
  {
    hide DelimAt, Cons, IsDelim, FirstDelim;
    var p := FirstDelim(s, 0);
    if p < |s| {
      DelimIsDelim(s, p);
      assert Split(s) == Cons(s[..p], s[p..p + DelimAt(s, p)], Split(s[p + DelimAt(s, p)..]));
    } else {
      assert Split(s) == Framing([], [], s);
    }
  }

  lemma FramingCons(f: Bytes, d: Bytes, tail: Bytes, r: Framing)
    requires Ends(f, d) && IsFraming(tail, r)
    ensures IsFraming(f + d + tail, Cons(f, d, r))
  {
    hide Ends, NoDelim;
    var fs, ds := [f] + r.frames, [d] + r.delims;
    assert fs[1..] == r.frames && ds[1..] == r.delims;
    assert f + d + (Glue(r.frames, r.delims) + r.rest) == (f + d + Glue(r.frames, r.delims)) + r.rest;
  }

  /** The split is a framing: nothing lost, nothing reordered, no frame contains a
      delimiter. */
  lemma {:induction false} SplitIsFraming(s: Bytes)
    ensures IsFraming(s, Split(s))
    decreases |s|
  {
    hide DelimAt, Ends, IsFraming, Split, Cons;
    var p := FirstDelim(s, 0);
    SplitStep(s);
    if p < |s| {
      var d := DelimAt(s, p);
      FirstDelimEnds(s);
      SplitIsFraming(s[p + d..]);
      FramingCons(s[..p], s[p..p + d], s[p + d..], Split(s[p + d..]));
      assert s == s[..p] + s[p..p + d] + s[p + d..];
    } else {
      EmptyFraming(s);
    }
  }

  lemma EmptyFraming(s: Bytes)
    requires FirstDelim(s, 0) == |s|
    ensures IsFraming(s, Framing([], [], s))
  {
    NoDelimIffNoneFound(s);
  }

  /** And it is the only one. */
  lemma {:induction false} FramingIsUnique(s: Bytes, r: Framing)
    requires IsFraming(s, r)
    ensures r == Split(s)
    decreases |r.frames|
  {
    hide DelimAt, Ends, NoDelim, Split;
    SplitStep(s);
    if |r.frames| > 0 {
      var f, d := r.frames[0], r.delims[0];
      var fs, ds := r.frames[1..], r.delims[1..];
      var tail := Glue(fs, ds) + r.rest;
      assert s == f + d + tail;
      HeadFound(f, d, tail);
      assert s[..|f|] == f && s[|f|..|f| + |d|] == d && s[|f| + |d|..] == tail;
      FramingIsUnique(tail, Framing(fs, ds, r.rest));
      assert r.frames == [f] + fs && r.delims == [d] + ds;
      assert r == Cons(f, d, Framing(fs, ds, r.rest));
    } else {
      assert Glue(r.frames, r.delims) == [];
      assert s == r.rest && r == Framing([], [], s);
      NoDelimIffNoneFound(s);
    }
  }

  lemma HeadFound(f: Bytes, d: Bytes, tail: Bytes)
    requires Ends(f, d)
    ensures FirstDelim(f + d + tail, 0) == |f| && DelimAt(f + d + tail, |f|) == |d| > 0
  {
    var fd := f + d;
    assert fd[|f|] == d[0] && fd[|f| + 1] == d[1];
    if |d| == 4 {
      assert fd[|f| + 2] == d[2] && fd[|f| + 3] == d[3];
    }
    assert DelimAt(fd, |f|) == |d|;
    FirstDelimUnique(fd, 0, |f|);
    FirstDelimStable(fd, tail);
  }

  function Append(x: Framing, y: Framing): Framing {
    Framing(x.frames + y.frames, x.delims + y.delims, y.rest)
  }

  lemma AppendCons(f: Bytes, d: Bytes, x: Framing, y: Framing)
    ensures Append(Cons(f, d, x), y) == Cons(f, d, Append(x, y))
  {
    Associative([f], x.frames, y.frames);
    Associative([d], x.delims, y.delims);
  }

  /** The key to chunk independence: splitting what arrived first and going on with
      what was left gives the split of everything. */
  lemma {:induction false} SplitInTwo(a: Bytes, b: Bytes)
    ensures Split(a + b) == Append(Split(a), Split(Split(a).rest + b))
    decreases |a|
  {
    hide DelimAt, Split;
    var p := FirstDelim(a, 0);
    SplitStep(a);
    if p < |a| {
      hide Append;
      var d := DelimAt(a, p);
      var tail := a[p + d..];
      FirstDelimStable(a, b);
      SplitStep(a + b);
      SplitInTwo(tail, b);
      assert (a + b)[p + d..] == tail + b;
      assert (a + b)[..p] == a[..p] && (a + b)[p..p + d] == a[p..p + d];
      AppendCons(a[..p], a[p..p + d], Split(tail), Split(Split(tail).rest + b));
    } else {
      var y := Split(a + b);
      assert [] + y.frames == y.frames && [] + y.delims == y.delims;
    }
  }

  // ---- feeding chunks -------------------------------------------------------

  datatype Fed = Overflow | Fed(frames: seq<Bytes>, buffer: Bytes)

  /** One `push`. */
  function Feed1(max: nat, buffer: Bytes, chunk: Bytes): Fed {
    if |buffer| + |chunk| > max then Overflow
    else
      var r := Split(buffer + chunk);
      Fed(r.frames, r.rest)
  }

  /** The read loop: push every chunk, stop at the first overflow. */
  function Feed(max: nat, buffer: Bytes, chunks: seq<Bytes>): Fed
    decreases |chunks|
  {
    if |chunks| == 0 then Fed([], buffer)
    else match Feed(max, buffer, chunks[..|chunks| - 1])
      case Overflow => Overflow
      case Fed(frames, b) =>
        match Feed1(max, b, chunks[|chunks| - 1])
        case Overflow => Overflow
        case Fed(more, b') => Fed(frames + more, b')
  }

  function Concat(chunks: seq<Bytes>): Bytes {
    if |chunks| == 0 then [] else Concat(chunks[..|chunks| - 1]) + chunks[|chunks| - 1]
  }

  lemma RestIsNoLonger(s: Bytes)
    ensures |Split(s).rest| <= |s|
  {
  }

  /** Frames and buffer depend on the bytes received, not on where they were cut. */
  lemma {:induction false} ChunksDoNotMatter(max: nat, buffer: Bytes, chunks: seq<Bytes>)
    requires NoDelim(buffer)
    ensures Feed(max, buffer, chunks).Fed? ==>
              Feed(max, buffer, chunks) ==
              Fed(Split(buffer + Concat(chunks)).frames, Split(buffer + Concat(chunks)).rest)
    decreases |chunks|
  {
    hide DelimAt, Split, FirstDelim;
    if |chunks| == 0 {
      assert buffer + [] == buffer;
      NoDelimIffNoneFound(buffer);
      SplitStep(buffer);
    } else {
      var init, last := chunks[..|chunks| - 1], chunks[|chunks| - 1];
      ChunksDoNotMatter(max, buffer, init);
      SplitInTwo(buffer + Concat(init), last);
      assert buffer + Concat(chunks) == buffer + Concat(init) + last;
    }
  }

  /** When the bytes fit in one push, every way of cutting them is accepted too. */
  lemma {:induction false} NoChunkingOverflows(max: nat, buffer: Bytes, chunks: seq<Bytes>)
    requires NoDelim(buffer) && Feed1(max, buffer, Concat(chunks)).Fed?
    ensures Feed(max, buffer, chunks) == Feed1(max, buffer, Concat(chunks))
    decreases |chunks|
  {
    ChunksDoNotMatter(max, buffer, chunks);
    if |chunks| > 0 {
      var init, last := chunks[..|chunks| - 1], chunks[|chunks| - 1];
      NoChunkingOverflows(max, buffer, init);
      RestIsNoLonger(buffer + Concat(init));
    }
  }

  /** Exactly when a stream is refused: some chunk does not fit beside the bytes
      that no delimiter has yet closed. */
  lemma {:induction false} OverflowsExactly(max: nat, buffer: Bytes, chunks: seq<Bytes>)
    requires NoDelim(buffer)
    ensures Feed(max, buffer, chunks).Overflow?
        <==> exists k :: 0 <= k < |chunks| && TooBig(max, buffer, chunks, k)
    decreases |chunks|
  {
    if |chunks| > 0 {
      var n := |chunks| - 1;
      var init := chunks[..n];
      OverflowsExactly(max, buffer, init);
      ChunksDoNotMatter(max, buffer, init);
      hide Split, Concat, NoDelim, DelimAt;
      forall k | 0 <= k < n
        ensures TooBig(max, buffer, init, k) <==> TooBig(max, buffer, chunks, k)
      {
        assert init[..k] == chunks[..k];
      }
      if Feed(max, buffer, init).Fed? {
        assert TooBig(max, buffer, chunks, n) <==> Feed(max, buffer, chunks).Overflow?;
      } else {
        var k :| 0 <= k < n && TooBig(max, buffer, init, k);
        assert TooBig(max, buffer, chunks, k);
      }
    }
  }

  ghost predicate TooBig(max: nat, buffer: Bytes, chunks: seq<Bytes>, k: nat)
    requires k < |chunks|
  {
    |Split(buffer + Concat(chunks[..k])).rest| + |chunks[k]| > max
  }

  // ---- the buffer -----------------------------------------------------------

  /** `find_double_newline`: position and length of the first delimiter from `start`. */
  method FindDoubleNewline(buf: Bytes, start: nat) returns (found: Option<(nat, nat)>)
    ensures found.Some? <==> exists p: nat :: start <= p && DelimAt(buf, p) > 0
    ensures found.Some? ==>
              var (p, n) := found.value;
              && start <= p <= p + n <= |buf| && buf[p..p + n] in {[10, 10], [13, 10, 13, 10]}
              && forall q :: start <= q < p ==> !HasAt(buf, q, [10, 10]) && !HasAt(buf, q, [13, 10, 13, 10])
    ensures found.Some? ==>
              && start <= found.value.0 < |buf| && found.value.1 == DelimAt(buf, found.value.0)
              && FirstDelim(buf, start) == found.value.0
    ensures found == None && start <= |buf| ==> FirstDelim(buf, start) == |buf|
  {
    hide DelimAt, FirstDelim;
    var n := |buf|;
    var i := start;
    while i < n - 1
      invariant start <= i && (start <= n ==> i <= n)
      invariant forall q :: start <= q < i ==> DelimAt(buf, q) == 0
    {
      DelimHere(buf, i);
      if buf[i] == LF && buf[i + 1] == LF {
        FoundFirst(buf, start, i);
        FirstDelimUnique(buf, start, i);
        return Some((i, 2));
      }
      if buf[i] == CR && i + 3 < n && buf[i + 1] == LF && buf[i + 2] == CR && buf[i + 3] == LF {
        FoundFirst(buf, start, i);
        FirstDelimUnique(buf, start, i);
        return Some((i, 4));
      }
      i := i + 1;
    }
    NoneAtEnd(buf);
    if start <= n {
      FirstDelimUnique(buf, start, n);
    }
    return None;
  }

  lemma DelimHere(buf: Bytes, i: nat)
    requires i + 1 < |buf|
    ensures DelimAt(buf, i) ==
              if buf[i] == LF && buf[i + 1] == LF then 2
              else if buf[i] == CR && i + 3 < |buf| && buf[i + 1] == LF && buf[i + 2] == CR && buf[i + 3] == LF then 4
              else 0
  {
  }

  lemma NoneAtEnd(buf: Bytes)
    ensures forall q: nat :: q + 1 >= |buf| ==> DelimAt(buf, q) == 0
  {
  }

  lemma FoundFirst(buf: Bytes, start: nat, p: nat)
    requires start <= p && DelimAt(buf, p) > 0 && forall q :: start <= q < p ==> DelimAt(buf, q) == 0
    ensures var n := DelimAt(buf, p);
            && p + n <= |buf| && buf[p..p + n] in {[10, 10], [13, 10, 13, 10]}
            && forall q :: start <= q < p ==> !HasAt(buf, q, [10, 10]) && !HasAt(buf, q, [13, 10, 13, 10])
  {
    hide DelimAt;
    DelimAtExactly(buf, p);
    forall q | start <= q < p
      ensures !HasAt(buf, q, [10, 10]) && !HasAt(buf, q, [13, 10, 13, 10])
    {
      DelimAtExactly(buf, q);
    }
  }

  /** With `frames` out, what remains of the framing `w` is the framing `x`. */
  predicate Remains(w: Framing, frames: seq<Bytes>, x: Framing) {
    w.frames == frames + x.frames && w.rest == x.rest
  }

  lemma RemainsCons(w: Framing, frames: seq<Bytes>, f: Bytes, d: Bytes, more: Framing)
    requires Remains(w, frames, Cons(f, d, more))
    ensures Remains(w, frames + [f], more)
  {
    Associative(frames, [f], more.frames);
  }

  lemma RemainsAtEnds(w: Framing, frames: seq<Bytes>, s: Bytes)
    ensures Remains(w, [], w)
    ensures Remains(w, frames, Framing([], [], s)) ==> w.frames == frames && w.rest == s
  {
    assert [] + w.frames == w.frames && frames + [] == frames;
  }

  class SseFrameBuffer {
    var buffer: Bytes
    var searchFrom: nat
    const maxSize: nat

    ghost predicate Valid()
      reads this
    {
      NoDelim(buffer) && |buffer| <= maxSize && searchFrom == if |buffer| >= 3 then |buffer| - 3 else 0
    }

    constructor (maxSize: nat)
      ensures Valid() && this.maxSize == maxSize && buffer == []
    {
      buffer, searchFrom, this.maxSize := [], 0, maxSize;
    }

    /** Append bytes and take out all complete frames. A chunk that would not fit is
        refused and changes nothing. */
    method Push(bytes: Bytes) returns (r: Fed)
      requires Valid()
      modifies this
      ensures Valid()
      ensures r == Feed1(maxSize, old(buffer), bytes)
      ensures r.Fed? ==> buffer == r.buffer
      ensures r.Overflow? ==> buffer == old(buffer) && searchFrom == old(searchFrom)
    {
      hide DelimAt, NoDelim, Split, Remains, Cons;
      if |buffer| + |bytes| > maxSize {
        return Overflow;
      }
      ghost var whole := buffer + bytes;
      ResumeIsEnough(buffer, bytes, searchFrom);
      buffer := buffer + bytes;
      var frames: seq<Bytes> := [];
      RemainsAtEnds(Split(whole), [], []);
      var found := FindDoubleNewline(buffer, searchFrom);
      while found.Some?
        invariant |buffer| <= maxSize
        invariant found.Some? <==> FirstDelim(buffer, 0) < |buffer|
        invariant found.Some? ==> found.value == (FirstDelim(buffer, 0), DelimAt(buffer, FirstDelim(buffer, 0)))
        invariant Remains(Split(whole), frames, Split(buffer))
        decreases |buffer|
      {
        var (pos, len) := found.value;
        SplitStep(buffer);
        RemainsCons(Split(whole), frames, buffer[..pos], buffer[pos..pos + len], Split(buffer[pos + len..]));
        assert buffer[pos..][len..] == buffer[pos + len..];
        frames := frames + [buffer[..pos]];
        buffer := buffer[pos..];
        buffer := buffer[len..];
        searchFrom := 0;
        found := FindDoubleNewline(buffer, searchFrom);
      }
      NoDelimIffNoneFound(buffer);
      SplitStep(buffer);
      RemainsAtEnds(Split(whole), frames, buffer);
      searchFrom := if |buffer| >= 3 then |buffer| - 3 else 0;
      r := Fed(frames, buffer);
    }
  }
}
