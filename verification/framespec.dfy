/** What the P1 datagram reader cuts from the byte stream, stated on the
    stream as one flat sequence of bytes: skip to the next `/`, take the body
    up to the first `/` or `!`, and then take at most five further bytes (the
    `!` and four checksum characters), stopping early at a `/`. This is the
    reference the chunked reader in module `Reader` is proved against. */
module FrameSpec {
  import opened Common
  import P1

  /** A frame starts at `/`. */
  const StartStops: set<byte> := {Slash}
  /** The body ends at the next frame start or at `!`. */
  const BodyStops: set<byte> := {Slash, Bang}
  /** `!` followed by four checksum characters. */
  const TrailerLen: nat := 5

  /** One step of the datagram iterator: the stream is exhausted (`None`), a
      telegram is produced, or the thread panics on line 91's index
      arithmetic, having read the short `frame`. */
  datatype Item = End | Emit(outcome: P1.ReadDatagram) | Panic(frame: seq<byte>)

  /** The bytes an item was built from. */
  function Bytes(item: Item): seq<byte> {
    match item
    case End => []
    case Emit(o) => o.datagram
    case Panic(f) => f
  }

  /** The shape of every telegram the reader reports as complete: `/`, a body
      free of `/` and `!`, then `!` and four bytes that are not `/`. */
  predicate IsComplete(d: seq<byte>) {
    && |d| >= 1 + TrailerLen
    && d[0] == Slash
    && d[|d| - TrailerLen] == Bang
    && (forall i :: 1 <= i < |d| - TrailerLen ==> d[i] !in BodyStops)
    && (forall i :: |d| - TrailerLen < i < |d| ==> d[i] != Slash)
  }

  /** The next item of the flat stream `s` and what remains after it. */
  function Next(s: seq<byte>): (r: (Item, seq<byte>))
    ensures r.0.End? <==> Slash !in s
    ensures r.0.End? ==> r.1 == []
    ensures !r.0.End? ==>
              && s == s[..PrefixLen(s, StartStops)] + Bytes(r.0) + r.1
              && Slash !in s[..PrefixLen(s, StartStops)]
              && |Bytes(r.0)| > 0 && Bytes(r.0)[0] == Slash && Slash !in Bytes(r.0)[1..]
    ensures r.0.Emit? ==> !r.0.outcome.InvalidCrc?
    ensures r.0.Emit? && r.0.outcome.Datagram? ==> IsComplete(r.0.outcome.datagram)
    ensures r.0.Panic? ==> |r.0.frame| < TrailerLen
  {
    var noise := PrefixLen(s, StartStops);
    Noise(s);
    if noise == |s| then (End, [])
    else
      var after := s[noise + 1..];
      var r := FromStart(after);
      SplitJoin(s[..noise], [Slash] + after, Bytes(r.0), r.1);
      r
  }

  /** The bytes `Next` skips: none is a `/`, and they run up to the first
      `/` or to the end. */
  lemma Noise(s: seq<byte>)
    ensures var noise := PrefixLen(s, StartStops);
            && Slash !in s[..noise]
            && (noise == |s| <==> Slash !in s)
            && (noise < |s| ==> s == s[..noise] + ([Slash] + s[noise + 1..]))
  {
    var noise := PrefixLen(s, StartStops);
    PrefixLenStops(s, StartStops);
    if noise < |s| {
      assert s == s[..noise] + ([s[noise]] + s[noise + 1..]);
    }
  }

  /** The item that begins with the `/` just before `after`. */
  function FromStart(after: seq<byte>): (r: (Item, seq<byte>))
    ensures !r.0.End?
    ensures [Slash] + after == Bytes(r.0) + r.1
    ensures |Bytes(r.0)| > 0 && Bytes(r.0)[0] == Slash && Slash !in Bytes(r.0)[1..]
    ensures r.0.Emit? ==> !r.0.outcome.InvalidCrc?
    ensures r.0.Emit? && r.0.outcome.Datagram? ==> IsComplete(r.0.outcome.datagram)
    ensures r.0.Panic? ==> |r.0.frame| < TrailerLen
    ensures var n := PrefixLen(after, BodyStops);
            (n == |after| || after[n] == Slash) ==>
              r == (Emit(P1.IncompleteDatagram([Slash] + after[..n])), after[n..])
  {
    var body := PrefixLen(after, BodyStops);
    PrefixLenStops(after, BodyStops);
    var head := [Slash] + after[..body];
    var rem := after[body..];
    assert [Slash] + after == head + rem;
    assert forall i :: 1 <= i < |head| ==> head[i] == after[i - 1];
    if |rem| == 0 || rem[0] == Slash then (Emit(P1.IncompleteDatagram(head)), rem)
    else AfterBody(head, rem)
  }

  /** The item once the body `head` (with its `/`) has met the `!` that
      starts `rem`: at most five more bytes are taken, up to the next `/`. */
  function AfterBody(head: seq<byte>, rem: seq<byte>): (r: (Item, seq<byte>))
    requires |head| > 0 && head[0] == Slash
    requires forall i :: 1 <= i < |head| ==> head[i] !in BodyStops
    requires |rem| > 0 && rem[0] == Bang
    ensures r.0.Emit? || r.0.Panic?
    ensures var t := Min(TrailerLen, PrefixLen(rem, StartStops));
            Bytes(r.0) == head + rem[..t] && r.1 == rem[t..]
    ensures head + rem == Bytes(r.0) + r.1
    ensures |Bytes(r.0)| > 0 && Bytes(r.0)[0] == Slash && Slash !in Bytes(r.0)[1..]
    ensures r.0.Emit? ==> !r.0.outcome.InvalidCrc?
    ensures r.0.Emit? && r.0.outcome.Datagram? ==> IsComplete(r.0.outcome.datagram)
    ensures r.0.Panic? ==> |r.0.frame| < TrailerLen
  {
    var t := Min(TrailerLen, PrefixLen(rem, StartStops));
    PrefixLenStops(rem, StartStops);
    var frame := head + rem[..t];
    assert head + rem == frame + rem[t..];
    assert forall i :: |head| <= i < |frame| ==> frame[i] == rem[i - |head|];
    var item :=
      if |frame| < TrailerLen then Panic(frame)
      else if t == TrailerLen then Emit(P1.Datagram(frame))
      else Emit(P1.IncompleteDatagram(frame));
    (item, rem[t..])
  }

  lemma SplitJoin(a: seq<byte>, b: seq<byte>, c: seq<byte>, d: seq<byte>)
    requires b == c + d
    ensures a + b == a + c + d
  {
  }

  /** The stream around one frame, grouped the way `Next` takes it apart. */
  lemma Regroup(noise: seq<byte>, body: seq<byte>, trailer: seq<byte>, rest: seq<byte>)
    ensures noise + ([Slash] + body + [Bang] + trailer) + rest
         == noise + [Slash] + (body + (([Bang] + trailer) + rest))
    ensures [Slash] + body + [Bang] + trailer == [Slash] + body + ([Bang] + trailer)
  {
  }

  /** `PrefixLen` reaches at least `k` when the first `k` bytes hold no stop. */
  lemma PrefixLenAtLeast(s: seq<byte>, stops: set<byte>, k: nat)
    requires k <= |s| && forall i :: 0 <= i < k ==> s[i] !in stops
    ensures PrefixLen(s, stops) >= k
  {
    PrefixLenStops(s, stops);
  }

  /** `PrefixLen` of `a + b` when `a` holds no stop and `b` starts with one. */
  lemma PrefixLenStopsAt(a: seq<byte>, b: seq<byte>, stops: set<byte>)
    requires forall i :: 0 <= i < |a| ==> a[i] !in stops
    requires |b| > 0 && b[0] in stops
    ensures PrefixLen(a + b, stops) == |a|
  {
    PrefixLenUnique(a + b, stops, |a|);
  }

  /** Noise free of `/` is skipped. */
  lemma SkipNoise(noise: seq<byte>, after: seq<byte>)
    requires Slash !in noise
    ensures Next(noise + [Slash] + after) == FromStart(after)
  {
    var s := noise + [Slash] + after;
    assert s == noise + ([Slash] + after);
    PrefixLenStopsAt(noise, [Slash] + after, StartStops);
    assert s[|noise| + 1..] == after;
  }

  /** A body free of `/` and `!` is taken whole. */
  lemma TakeBody(body: seq<byte>, rem: seq<byte>)
    requires Slash !in body && Bang !in body
    ensures |rem| == 0 || rem[0] == Slash ==> FromStart(body + rem) == (Emit(P1.IncompleteDatagram([Slash] + body)), rem)
    ensures |rem| > 0 && rem[0] == Bang ==> FromStart(body + rem) == AfterBody([Slash] + body, rem)
  {
    var after := body + rem;
    if |rem| == 0 {
      PrefixLenUnique(after, BodyStops, |body|);
    } else if rem[0] in BodyStops {
      PrefixLenStopsAt(body, rem, BodyStops);
    }
    assert |rem| == 0 || rem[0] in BodyStops ==> after[..|body|] == body && after[|body|..] == rem;
  }

  /** After `!`, bytes up to the next `/` are taken, five at most. */
  lemma TakeTrailer(head: seq<byte>, trailer: seq<byte>, rest: seq<byte>)
    requires |head| > 0 && head[0] == Slash
    requires forall i :: 1 <= i < |head| ==> head[i] !in BodyStops
    requires |trailer| > 0 && trailer[0] == Bang && Slash !in trailer
    requires |trailer| == TrailerLen || rest == [] || rest[0] == Slash
    requires |trailer| <= TrailerLen
    ensures var frame := head + trailer;
            (AfterBody(head, trailer + rest)
             == (if |frame| < TrailerLen then Panic(frame)
                 else if |trailer| == TrailerLen then Emit(P1.Datagram(frame))
                 else Emit(P1.IncompleteDatagram(frame)), rest))
  {
    var rem := trailer + rest;
    if |trailer| == TrailerLen {
      PrefixLenAtLeast(rem, StartStops, TrailerLen);
    } else if rest == [] {
      assert rem == trailer;
      PrefixLenUnique(rem, StartStops, |trailer|);
    } else {
      PrefixLenStopsAt(trailer, rest, StartStops);
    }
    assert rem[..|trailer|] == trailer && rem[|trailer|..] == rest;
  }

  /** A whole telegram after noise free of `/` is recognised, exactly five
      trailer bytes are taken, and whatever follows is left untouched. */
  lemma CompleteFrameRecognised(noise: seq<byte>, body: seq<byte>, trailer: seq<byte>, rest: seq<byte>)
    requires Slash !in noise && Slash !in body && Bang !in body
    requires |trailer| == TrailerLen - 1 && Slash !in trailer
    ensures var frame := [Slash] + body + [Bang] + trailer;
            Next(noise + frame + rest) == (Emit(P1.Datagram(frame)), rest)
  {
    var tail := [Bang] + trailer;
    Regroup(noise, body, trailer, rest);
    SkipNoise(noise, body + (tail + rest));
    TakeBody(body, tail + rest);
    assert Slash !in tail;
    TakeTrailer([Slash] + body, tail, rest);
  }

  /** A body cut short by the start of the next frame, or by the end of the
      stream, is reported incomplete, and the `/` that cut it is left for the
      next call. */
  lemma TruncatedBodyIncomplete(noise: seq<byte>, body: seq<byte>, rest: seq<byte>)
    requires Slash !in noise && Slash !in body && Bang !in body
    requires rest == [] || rest[0] == Slash
    ensures Next(noise + [Slash] + body + rest)
         == (Emit(P1.IncompleteDatagram([Slash] + body)), rest)
  {
    assert noise + [Slash] + body + rest == noise + [Slash] + (body + rest);
    SkipNoise(noise, body + rest);
    TakeBody(body, rest);
  }

  /** A checksum cut short (fewer than four characters after `!`) by the next
      frame or the end of the stream: incomplete when the frame still has five
      bytes, and a panic at line 91 when it is shorter. */
  lemma TruncatedTrailer(noise: seq<byte>, body: seq<byte>, partial: seq<byte>, rest: seq<byte>)
    requires Slash !in noise && Slash !in body && Bang !in body
    requires |partial| < TrailerLen - 1 && Slash !in partial
    requires rest == [] || rest[0] == Slash
    ensures var frame := [Slash] + body + [Bang] + partial;
            (Next(noise + frame + rest)
             == (if |frame| < TrailerLen then Panic(frame) else Emit(P1.IncompleteDatagram(frame)), rest))
  {
    var tail := [Bang] + partial;
    Regroup(noise, body, partial, rest);
    SkipNoise(noise, body + (tail + rest));
    TakeBody(body, tail + rest);
    assert Slash !in tail;
    TakeTrailer([Slash] + body, tail, rest);
  }

  /** The shortest panicking input: a frame start and a body terminator with
      nothing after them. */
  lemma ShortFramePanics()
    ensures Next([Slash, Bang]) == (Panic([Slash, Bang]), [])
  {
    TruncatedTrailer([], [], [], []);
    assert [] + ([Slash] + [] + [Bang] + []) + [] == [Slash, Bang];
    assert [Slash] + [] + [Bang] + [] == [Slash, Bang];
  }

  /** The iterator drained until it is exhausted or panics. */
  function Outcomes(s: seq<byte>): (items: seq<Item>)
    ensures |items| > 0
    ensures forall i :: 0 <= i < |items| - 1 ==> items[i].Emit?
    ensures items[|items| - 1].End? || items[|items| - 1].Panic?
    decreases |s|
  {
    var (item, rest) := Next(s);
    if item.Emit? then
      NextShrinks(s);
      var tail := Outcomes(rest);
      PrependEmit(item, tail);
      [item] + tail
    else [item]
  }

  /** An item emitted before a run of emitted items ended by a last one. */
  lemma PrependEmit(item: Item, tail: seq<Item>)
    requires item.Emit? && |tail| > 0
    requires forall i :: 0 <= i < |tail| - 1 ==> tail[i].Emit?
    ensures var items := [item] + tail;
            && (forall i :: 0 <= i < |items| - 1 ==> items[i].Emit?)
            && items[|items| - 1] == tail[|tail| - 1]
  {
    var items := [item] + tail;
    assert forall i :: 1 <= i < |items| ==> items[i] == tail[i - 1];
  }

  /** Every item consumes at least its own `/`. */
  lemma NextShrinks(s: seq<byte>)
    ensures !Next(s).0.End? ==> |Next(s).1| < |s|
  {
    var r := Next(s);
    if !r.0.End? {
      var noise := s[..PrefixLen(s, StartStops)];
      assert |s| == |noise| + |Bytes(r.0)| + |r.1|;
    }
  }
}
