/** The datagram reader of `src/p1/reader.rs`, step by step over a buffered
    byte source, proved to cut out exactly what `FrameSpec` describes on the
    flattened stream, however the bytes are split into reads. */
module Reader {
  import opened Common
  import P1
  import Crc16
  import FrameSpec

  /** The bytes still to come, in the pieces successive `fill_buf` calls
      deliver; after the last piece the source is at end of stream. */
  type Source = seq<seq<byte>>

  /** `fill_buf` yields an empty buffer only at end of stream. */
  predicate Valid(src: Source) {
    forall i :: 0 <= i < |src| ==> |src[i]| > 0
  }

  function Flatten(src: Source): seq<byte>
    decreases |src|
  {
    if |src| == 0 then [] else src[0] + Flatten(src[1..])
  }

  /** `BufRead::fill_buf`: the bytes buffered now, empty only at end of stream. */
  function FillBuf(src: Source): (buf: seq<byte>)
    requires Valid(src)
    ensures |buf| == 0 <==> Flatten(src) == []
  {
    if |src| == 0 then [] else src[0]
  }

  /** The bytes that later `fill_buf` calls will deliver. */
  function Later(src: Source): (later: seq<byte>)
    requires Valid(src)
    ensures Flatten(src) == FillBuf(src) + later
  {
    if |src| == 0 then [] else Flatten(src[1..])
  }

  /** `BufRead::consume(n)`: the first `n` buffered bytes are gone. */
  function Consume(src: Source, n: nat): (r: Source)
    requires Valid(src) && n <= |FillBuf(src)|
    ensures Valid(r)
    ensures Flatten(r) == Flatten(src)[n..]
    ensures |r| <= |src|
    ensures |src| > 0 && n == |src[0]| ==> |r| < |src|
    ensures n == |FillBuf(src)| ==> Flatten(r) == Later(src)
  {
    if n == 0 then src
    else if n == |src[0]| then src[1..]
    else
      var r := [src[0][n..]] + src[1..];
      assert r[1..] == src[1..];
      r
  }

  // ---------------------------------------------------------------------
  // The three phases of `next_datagram`

  /** `r` is what skipping to the next `/` in `src` gives when `read` bytes
      have been dropped so far: the count of all dropped bytes when a `/` is
      found and 0 when the stream ends first, and the source from the `/` on. */
  predicate Synced(src: Source, read: nat, r: (nat, Source))
    requires Valid(src)
  {
    var all := Flatten(src);
    var noise := PrefixLen(all, FrameSpec.StartStops);
    && Flatten(r.1) == all[noise..]
    && r.0 == (if noise < |all| then read + noise else 0)
  }

  /** `sync_to_datagram`: drops everything before the next `/`. The count it
      returns is never used by its caller. */
  function SyncToDatagram(src: Source, read: nat): (r: (nat, Source))
    requires Valid(src)
    ensures Valid(r.1)
    ensures Synced(src, read, r)
    decreases |src|
  {
    var available := FillBuf(src);
    if |available| == 0 then (0, src)
    else
      var dropped := PrefixLen(available, FrameSpec.StartStops);
      if dropped < |available| then
        SyncedStops(src, read);
        (read + dropped, Consume(src, dropped))
      else
        var r := SyncToDatagram(Consume(src, dropped), read + dropped);
        SyncedCarries(src, read, r);
        r
  }

  /** A round of `sync_to_datagram` that finds a `/` in the current buffer
      ends the sync there. */
  lemma SyncedStops(src: Source, read: nat)
    requires Valid(src)
    ensures var a := FillBuf(src);
            var dropped := PrefixLen(a, FrameSpec.StartStops);
            dropped < |a| ==> Synced(src, read, (read + dropped, Consume(src, dropped)))
  {
    var a := FillBuf(src);
    var dropped := PrefixLen(a, FrameSpec.StartStops);
    if dropped < |a| {
      PrefixLenConcat(a, Later(src), FrameSpec.StartStops);
      TakeWithin(a, Later(src), dropped);
    }
  }

  /** A round of `sync_to_datagram` that drops the whole buffer leaves the
      sync to the later buffers. */
  lemma SyncedCarries(src: Source, read: nat, r: (nat, Source))
    requires Valid(src)
    requires var a := FillBuf(src);
             && |a| > 0 && PrefixLen(a, FrameSpec.StartStops) == |a|
             && Synced(Consume(src, |a|), read + |a|, r)
    ensures Synced(src, read, r)
  {
    var a, l := FillBuf(src), Later(src);
    PrefixLenConcat(a, l, FrameSpec.StartStops);
    TakeAcross(a, l, PrefixLen(l, FrameSpec.StartStops));
  }

  /** `read_datagram`: at end of stream nothing; otherwise the frame start
      (written as a literal `/`) and the body up to the next `/` or `!`, which
      stays in the source. */
  function ReadDatagram(src: Source): (r: (seq<byte>, Source))
    requires Valid(src)
    ensures Valid(r.1)
    ensures Flatten(src) == [] ==> r == ([], src)
    ensures Flatten(src) != [] ==>
              var after := Flatten(src)[1..];
              var body := PrefixLen(after, FrameSpec.BodyStops);
              r.0 == [Slash] + after[..body] && Flatten(r.1) == after[body..]
  {
    if |FillBuf(src)| == 0 then ([], src)
    else ReadBody(Consume(src, 1), [Slash])
  }

  /** `r` is what reading on from `src` up to the next `/` or `!` gives
      when `datagram` has been collected so far: the bytes before the stop
      appended, the rest left in the source. */
  predicate BodyRead(src: Source, datagram: seq<byte>, r: (seq<byte>, Source))
    requires Valid(src)
  {
    var all := Flatten(src);
    var body := PrefixLen(all, FrameSpec.BodyStops);
    r.0 == datagram + all[..body] && Flatten(r.1) == all[body..]
  }

  /** The loop of `read_datagram` (lines 47-58): appends buffered bytes up to
      a `/` or `!`, refilling while a whole buffer was taken. */
  function ReadBody(src: Source, datagram: seq<byte>): (r: (seq<byte>, Source))
    requires Valid(src)
    ensures Valid(r.1)
    ensures BodyRead(src, datagram, r)
    decreases |src|
  {
    var available := FillBuf(src);
    var taken := PrefixLen(available, FrameSpec.BodyStops);
    if |available| == 0 || taken < |available| then
      BodyReadStops(src, datagram);
      (datagram + available[..taken], Consume(src, taken))
    else
      var r := ReadBody(Consume(src, taken), datagram + available[..taken]);
      BodyReadCarries(src, datagram, r);
      r
  }

  /** A round of `read_datagram` that meets a stop, or the end of the
      stream, in the current buffer ends the read there. */
  lemma BodyReadStops(src: Source, datagram: seq<byte>)
    requires Valid(src)
    ensures var a := FillBuf(src);
            var taken := PrefixLen(a, FrameSpec.BodyStops);
            (|a| == 0 || taken < |a|) ==>
              BodyRead(src, datagram, (datagram + a[..taken], Consume(src, taken)))
  {
    var a := FillBuf(src);
    var taken := PrefixLen(a, FrameSpec.BodyStops);
    if |a| == 0 || taken < |a| {
      PrefixLenConcat(a, Later(src), FrameSpec.BodyStops);
      Stop(datagram, a, Later(src), taken);
    }
  }

  /** A round of `read_datagram` that took the whole buffer leaves the read
      to the later buffers. */
  lemma BodyReadCarries(src: Source, datagram: seq<byte>, r: (seq<byte>, Source))
    requires Valid(src)
    requires var a := FillBuf(src);
             && |a| > 0 && PrefixLen(a, FrameSpec.BodyStops) == |a|
             && BodyRead(Consume(src, |a|), datagram + a[..|a|], r)
    ensures BodyRead(src, datagram, r)
  {
    var a, l := FillBuf(src), Later(src);
    assert a[..|a|] == a;
    PrefixLenConcat(a, l, FrameSpec.BodyStops);
    Carry(datagram, a, l, PrefixLen(l, FrameSpec.BodyStops), r.0, Flatten(r.1));
  }

  /** A scan that stops inside the current buffer: what was appended and what
      is left are the two sides of the cut in the whole stream. */
  lemma Stop(d: seq<byte>, a: seq<byte>, l: seq<byte>, k: nat)
    requires k <= |a|
    ensures d + a[..k] == d + (a + l)[..k]
    ensures (a + l)[k..] == a[k..] + l
  {
    TakeWithin(a, l, k);
  }

  /** A scan that took the whole buffer and then `k` later bytes: what the
      later rounds appended and left are the cut at `|a| + k` of the whole. */
  lemma Carry(d: seq<byte>, a: seq<byte>, l: seq<byte>, k: nat, r0: seq<byte>, rest: seq<byte>)
    requires k <= |l|
    requires r0 == d + a + l[..k] && rest == l[k..]
    ensures r0 == d + (a + l)[..|a| + k] && rest == (a + l)[|a| + k..]
  {
    TakeAcross(a, l, k);
  }

  /** Cutting a concatenation inside its first part. */
  lemma TakeWithin(a: seq<byte>, b: seq<byte>, j: nat)
    requires j <= |a|
    ensures (a + b)[..j] == a[..j] && (a + b)[j..] == a[j..] + b
  {
  }

  /** Cutting a concatenation inside its second part. */
  lemma TakeAcross(a: seq<byte>, b: seq<byte>, j: nat)
    requires j <= |b|
    ensures (a + b)[..|a| + j] == a + b[..j] && (a + b)[|a| + j..] == b[j..]
  {
  }

  /** `read_crc_bytes`: appends the next bytes up to a `/`, five at most. */
  function ReadCrcBytes(src: Source, datagram: seq<byte>): (r: (seq<byte>, Source))
    requires Valid(src)
    ensures Valid(r.1)
    ensures var all := Flatten(src);
            var t := Min(FrameSpec.TrailerLen, PrefixLen(all, FrameSpec.StartStops));
            r.0 == datagram + all[..t] && Flatten(r.1) == all[t..]
  {
    if |FillBuf(src)| == 0 then (datagram, src)
    else CollectCrc(src, datagram, FrameSpec.TrailerLen)
  }

  /** `PrefixLen` of a prefix: the scan is cut at `m`. */
  lemma PrefixLenTake(s: seq<byte>, m: nat, stops: set<byte>)
    requires m <= |s|
    ensures PrefixLen(s[..m], stops) == Min(m, PrefixLen(s, stops))
  {
    PrefixLenStops(s, stops);
    var k := Min(m, PrefixLen(s, stops));
    assert forall i :: 0 <= i < k ==> s[..m][i] == s[i];
    PrefixLenUnique(s[..m], stops, k);
  }

  /** `r` is what reading at most `needed` more bytes up to a `/` from
      `src` gives when `datagram` has been collected so far. */
  predicate CrcRead(src: Source, datagram: seq<byte>, needed: nat, r: (seq<byte>, Source))
    requires Valid(src)
  {
    var all := Flatten(src);
    var t := Min(needed, PrefixLen(all, FrameSpec.StartStops));
    r.0 == datagram + all[..t] && Flatten(r.1) == all[t..]
  }

  /** The loop of `read_crc_bytes` (lines 65-78) with `needed` bytes still
      wanted: each round takes at most `needed` buffered bytes, up to a `/`. */
  function CollectCrc(src: Source, datagram: seq<byte>, needed: nat): (r: (seq<byte>, Source))
    requires Valid(src) && needed > 0
    ensures Valid(r.1)
    ensures CrcRead(src, datagram, needed, r)
    decreases |src|
  {
    var available := FillBuf(src);
    var taken := CrcTaken(available, needed);
    if |available| == 0 || taken < |available| || needed - taken == 0 then
      CrcReadStops(src, datagram, needed);
      (datagram + available[..taken], Consume(src, taken))
    else
      var r := CollectCrc(Consume(src, taken), datagram + available[..taken], needed - taken);
      CrcReadCarries(src, datagram, needed, r);
      r
  }

  /** The bytes one round of `read_crc_bytes` takes from buffer `a`: at most
      `needed`, up to a `/`. */
  function CrcTaken(a: seq<byte>, needed: nat): (taken: nat)
    ensures taken <= needed && taken <= |a|
  {
    PrefixLen(a[..Min(needed, |a|)], FrameSpec.StartStops)
  }

  /** A round of `read_crc_bytes` that ends the loop ends the read there. */
  lemma CrcReadStops(src: Source, datagram: seq<byte>, needed: nat)
    requires Valid(src) && needed > 0
    ensures var a := FillBuf(src);
            var taken := CrcTaken(a, needed);
            (|a| == 0 || taken < |a| || needed - taken == 0) ==>
              CrcRead(src, datagram, needed, (datagram + a[..taken], Consume(src, taken)))
  {
    var a := FillBuf(src);
    var taken := CrcTaken(a, needed);
    if |a| == 0 || taken < |a| || needed - taken == 0 {
      CrcWindowStops(a, Later(src), needed);
      Stop(datagram, a, Later(src), taken);
    }
  }

  /** A round of `read_crc_bytes` that took the whole buffer short of the
      bound leaves the rest of the bound to the later buffers. */
  lemma CrcReadCarries(src: Source, datagram: seq<byte>, needed: nat, r: (seq<byte>, Source))
    requires Valid(src) && needed > 0
    requires var a := FillBuf(src);
             var taken := CrcTaken(a, needed);
             && |a| > 0 && taken == |a| && taken < needed
             && CrcRead(Consume(src, taken), datagram + a[..taken], needed - taken, r)
    ensures CrcRead(src, datagram, needed, r)
  {
    var a, l := FillBuf(src), Later(src);
    assert a[..|a|] == a;
    assert Flatten(Consume(src, |a|)) == l;
    var k := Min(needed - |a|, PrefixLen(l, FrameSpec.StartStops));
    assert r.0 == datagram + a + l[..k] && Flatten(r.1) == l[k..];
    CrcWindowContinues(a, l, needed);
    Carry(datagram, a, l, k, r.0, Flatten(r.1));
  }

  /** One round of `read_crc_bytes` that ends the loop took exactly the
      bytes the whole-stream bound allows. */
  lemma CrcWindowStops(a: seq<byte>, l: seq<byte>, needed: nat)
    requires needed > 0 && (|a| == 0 ==> l == [])
    ensures var taken := CrcTaken(a, needed);
            (|a| == 0 || taken < |a| || taken == needed) ==> taken == Min(needed, PrefixLen(a + l, FrameSpec.StartStops))
  {
    PrefixLenTake(a, Min(needed, |a|), FrameSpec.StartStops);
    PrefixLenConcat(a, l, FrameSpec.StartStops);
  }

  /** One round of `read_crc_bytes` that took a whole buffer short of the
      bound leaves the rest of the bound to the later bytes. */
  lemma CrcWindowContinues(a: seq<byte>, l: seq<byte>, needed: nat)
    requires needed > 0
    ensures var taken := CrcTaken(a, needed);
            (taken == |a| && taken < needed) ==>
              Min(needed, PrefixLen(a + l, FrameSpec.StartStops))
              == |a| + Min(needed - |a|, PrefixLen(l, FrameSpec.StartStops))
  {
    PrefixLenTake(a, Min(needed, |a|), FrameSpec.StartStops);
    PrefixLenConcat(a, l, FrameSpec.StartStops);
  }

  /** Line 91's test `datagram[len - 5] == '!'` on a frame of at least five
      bytes: it holds exactly when the bytes after the body are a full
      five-byte trailer, because the body before the `!` holds no `!`. */
  lemma BangAtTrailerStart(head: seq<byte>, trailer: seq<byte>)
    requires |head| > 0 && head[0] == Slash
    requires forall i :: 1 <= i < |head| ==> head[i] !in FrameSpec.BodyStops
    requires 0 < |trailer| <= FrameSpec.TrailerLen && trailer[0] == Bang
    requires |head + trailer| >= FrameSpec.TrailerLen
    ensures var frame := head + trailer;
            (frame[|frame| - FrameSpec.TrailerLen] == Bang <==> |trailer| == FrameSpec.TrailerLen)
  {
    var frame := head + trailer;
    var k := |frame| - FrameSpec.TrailerLen;
    if |trailer| < FrameSpec.TrailerLen {
      assert frame[k] == head[k];
      assert k == 0 || head[k] !in FrameSpec.BodyStops;
    }
  }

  /** Line 91's test on the frame `read_crc_bytes` completes: with at least
      five bytes, the byte five from the end is the `!` exactly when all five
      trailer bytes arrived. */
  lemma TrailerDecision(head: seq<byte>, rem: seq<byte>)
    requires |head| > 0 && head[0] == Slash
    requires forall i :: 1 <= i < |head| ==> head[i] !in FrameSpec.BodyStops
    requires |rem| > 0 && rem[0] == Bang
    ensures var t := Min(FrameSpec.TrailerLen, PrefixLen(rem, FrameSpec.StartStops));
            var frame := head + rem[..t];
            |frame| >= FrameSpec.TrailerLen ==>
              (frame[|frame| - FrameSpec.TrailerLen] == Bang <==> t == FrameSpec.TrailerLen)
  {
    var t := Min(FrameSpec.TrailerLen, PrefixLen(rem, FrameSpec.StartStops));
    PrefixLenStops(rem, FrameSpec.StartStops);
    assert rem[..t][0] == Bang;
    if |head + rem[..t]| >= FrameSpec.TrailerLen {
      BangAtTrailerStart(head, rem[..t]);
    }
  }

  /** Lines 88-95 of `next_datagram`: the checksum bytes are read and line 91
      decides, a frame shorter than five bytes making `len - 5` underflow,
      which panics. */
  function FinishFrame(datagram: seq<byte>, src: Source): (r: (FrameSpec.Item, Source))
    requires Valid(src)
    requires |datagram| > 0 && datagram[0] == Slash
    requires forall i :: 1 <= i < |datagram| ==> datagram[i] !in FrameSpec.BodyStops
    requires Flatten(src) != [] && Flatten(src)[0] == Bang
    ensures Valid(r.1)
    ensures var (item, rest) := FrameSpec.AfterBody(datagram, Flatten(src));
            r.0 == item && Flatten(r.1) == rest
  {
    var (frame, rest) := ReadCrcBytes(src, datagram);
    TrailerDecision(datagram, Flatten(src));
    if |frame| < FrameSpec.TrailerLen then (FrameSpec.Panic(frame), rest)
    else if frame[|frame| - FrameSpec.TrailerLen] == Bang then (FrameSpec.Emit(P1.Datagram(frame)), rest)
    else (FrameSpec.Emit(P1.IncompleteDatagram(frame)), rest)
  }

  /** Lines 84-95 of `next_datagram`, once the body is read: a frame cut
      short by the end of the stream or by a new `/` is incomplete; otherwise
      `FinishFrame` completes it. */
  function Finish(datagram: seq<byte>, src: Source): (r: (FrameSpec.Item, Source))
    requires Valid(src)
    requires Flatten(src) != [] && Flatten(src)[0] != Slash ==>
               && Flatten(src)[0] == Bang
               && |datagram| > 0 && datagram[0] == Slash
               && forall i :: 1 <= i < |datagram| ==> datagram[i] !in FrameSpec.BodyStops
    ensures Valid(r.1)
    ensures var rem := Flatten(src);
            (rem == [] || rem[0] == Slash) ==> r == (FrameSpec.Emit(P1.IncompleteDatagram(datagram)), src)
    ensures var rem := Flatten(src);
            (rem != [] && rem[0] != Slash) ==>
              var (item, rest) := FrameSpec.AfterBody(datagram, rem);
              r.0 == item && Flatten(r.1) == rest
  {
    var available := FillBuf(src);
    assert |available| > 0 ==> available[0] == Flatten(src)[0];
    if |available| == 0 || available[0] == Slash then
      (FrameSpec.Emit(P1.IncompleteDatagram(datagram)), src)
    else
      FinishFrame(datagram, src)
  }

  /** The frame start and body `read_datagram` collects: a `/` and bytes
      that are neither `/` nor `!`; what it leaves starts with one of those. */
  lemma BodyShape(after: seq<byte>)
    ensures var body := PrefixLen(after, FrameSpec.BodyStops);
            var head := [Slash] + after[..body];
            && (forall i :: 1 <= i < |head| ==> head[i] !in FrameSpec.BodyStops)
            && (body < |after| ==> after[body] == Slash || after[body] == Bang)
            && (after[body..] != [] ==> after[body..][0] == after[body])
  {
    PrefixLenStops(after, FrameSpec.BodyStops);
    var body := PrefixLen(after, FrameSpec.BodyStops);
    var head := [Slash] + after[..body];
    assert forall i :: 1 <= i < |head| ==> head[i] == after[i - 1];
  }

  /** `next_datagram`: resynchronise, read the body, finish the frame. I/O
      errors are not modelled. */
  function NextDatagram(src: Source): (r: (FrameSpec.Item, Source))
    requires Valid(src)
    ensures Valid(r.1)
    ensures var (item, rest) := FrameSpec.Next(Flatten(src));
            && Flatten(r.1) == rest
            && r.0 == (if item.End? then FrameSpec.Emit(P1.IncompleteDatagram([])) else item)
  {
    var (_, synced) := SyncToDatagram(src, 0);
    var (datagram, afterBody) := ReadDatagram(synced);
    var all := Flatten(src);
    var noise := PrefixLen(all, FrameSpec.StartStops);
    if noise == |all| then
      Finish(datagram, afterBody)
    else
      var after := all[noise + 1..];
      assert Flatten(synced)[1..] == after;
      BodyShape(after);
      Finish(datagram, afterBody)
  }

  // ---------------------------------------------------------------------
  // The iterator

  /** `Iterator::next`: the empty incomplete datagram, which `read_datagram`
      returns only at end of stream, ends the iteration. Whatever the
      chunking, the item and the bytes left are those of `FrameSpec.Next` on
      the concatenated bytes. */
  function Next(src: Source): (r: (FrameSpec.Item, Source))
    requires Valid(src)
    ensures Valid(r.1)
    ensures r.0 == FrameSpec.Next(Flatten(src)).0
    ensures Flatten(r.1) == FrameSpec.Next(Flatten(src)).1
  {
    var (item, rest) := NextDatagram(src);
    if item == FrameSpec.Emit(P1.IncompleteDatagram([])) then (FrameSpec.End, rest)
    else (item, rest)
  }

  /** Two sources holding the same bytes, split differently into reads,
      give the same item and leave the same bytes. */
  lemma ChunkingInvariance(a: Source, b: Source)
    requires Valid(a) && Valid(b) && Flatten(a) == Flatten(b)
    ensures Next(a).0 == Next(b).0
    ensures Flatten(Next(a).1) == Flatten(Next(b).1)
  {
  }

  /** However `/!` arrives, the frame it starts is two bytes long and the
      index at line 91 underflows. */
  lemma ShortFrameUnderflows(src: Source)
    requires Valid(src) && Flatten(src) == [Slash, Bang]
    ensures Next(src).0 == FrameSpec.Panic([Slash, Bang])
  {
    FrameSpec.ShortFramePanics();
  }

  /** Line 91 with the length checked first: a frame too short to hold a
      trailer is reported incomplete instead of panicking. */
  function NextGuarded(src: Source): (r: (FrameSpec.Item, Source))
    requires Valid(src)
    ensures Valid(r.1)
    ensures !r.0.Panic?
    ensures Next(src).0.Panic? ==> r.0 == FrameSpec.Emit(P1.IncompleteDatagram(Next(src).0.frame))
    ensures !Next(src).0.Panic? ==> r.0 == Next(src).0
    ensures Flatten(r.1) == FrameSpec.Next(Flatten(src)).1
  {
    var (item, rest) := Next(src);
    match item
    case Panic(frame) => (FrameSpec.Emit(P1.IncompleteDatagram(frame)), rest)
    case _ => (item, rest)
  }

  /** The items of the iterator until it is exhausted or panics. */
  function Drain(src: Source): (items: seq<FrameSpec.Item>)
    requires Valid(src)
    ensures items == FrameSpec.Outcomes(Flatten(src))
    decreases |Flatten(src)|
  {
    var (item, rest) := Next(src);
    if item.Emit? then [item] + Drain(rest) else [item]
  }

  /** A telegram sealed with its checksum, after noise and before anything,
      is delivered whole and passes the checksum stage unchanged, however
      the stream is split into reads. */
  lemma SealedTelegramDelivered(src: Source, noise: seq<byte>, body: seq<byte>, upper: bool, rest: seq<byte>)
    requires Valid(src)
    requires Slash !in noise && Slash !in body && Bang !in body
    requires Flatten(src) == noise + P1.Seal([Slash] + body + [Bang], upper) + rest
    ensures var telegram := P1.Seal([Slash] + body + [Bang], upper);
            && Next(src).0 == FrameSpec.Emit(P1.Datagram(telegram))
            && Flatten(Next(src).1) == rest
            && P1.VerifyCrc(P1.Datagram(telegram)) == P1.Datagram(telegram)
  {
    var data := [Slash] + body + [Bang];
    var trailer := P1.Hex4(Crc16.Crc16Arc(data), upper);
    assert Slash !in trailer by {
      forall i | 0 <= i < |trailer| ensures trailer[i] != Slash {
        assert P1.IsHexDigit(trailer[i]);
      }
    }
    FrameSpec.CompleteFrameRecognised(noise, body, trailer, rest);
    P1.SealedVerifies(data, upper);
  }
}
