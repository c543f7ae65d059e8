/** The PCM player: samples are collected in a buffer across calls, and each full buffer is
    de-interleaved, faded and scheduled against the clock of the audio context. */
module PcmPlayer {
  import opened Wrappers
  import opened Arithmetic

  // ---------- Decoding ----------

  /** How a sample is encoded: its size, its largest value, and how its bytes are read. */
  datatype Encoding = Encoding(sampleSize: nat, maxValue: real, peek: Data -> real)

  ghost predicate IsEncoding(e: Encoding) {
    e.sampleSize > 0 && e.maxValue > 0.0
  }

  function Sample(e: Encoding, data: Data, i: nat): real
    requires IsEncoding(e) && (i + 1) * e.sampleSize <= |data|
  {
    assert i * e.sampleSize <= (i + 1) * e.sampleSize;
    e.peek(data[i * e.sampleSize..(i + 1) * e.sampleSize]) / e.maxValue
  }

  /** A sample is a share of the largest value: within [-1, 1] if its bytes are within the
      encoding's range, and the largest value is full level. */
  lemma SampleIsScaled(e: Encoding, data: Data, i: nat)
    requires IsEncoding(e) && (i + 1) * e.sampleSize <= |data|
    ensures i * e.sampleSize <= (i + 1) * e.sampleSize
    ensures var v := e.peek(data[i * e.sampleSize..(i + 1) * e.sampleSize]);
            && Sample(e, data, i) * e.maxValue == v
            && (0.0 - e.maxValue <= v <= e.maxValue ==> -1.0 <= Sample(e, data, i) <= 1.0)
  {
    assert i * e.sampleSize <= (i + 1) * e.sampleSize;
    ShareOfLargest(e.peek(data[i * e.sampleSize..(i + 1) * e.sampleSize]), e.maxValue);
  }

  lemma ShareOfLargest(v: real, largest: real)
    requires largest > 0.0
    ensures v / largest * largest == v
    ensures 0.0 - largest <= v <= largest ==> -1.0 <= v / largest <= 1.0
  {
  }

  /** The first n samples of some data. */
  function Decoded(e: Encoding, data: Data, n: nat): seq<real>
    requires IsEncoding(e) && n * e.sampleSize <= |data|
  {
    if n == 0 then [] else
      assert (n - 1) * e.sampleSize <= n * e.sampleSize;
      Decoded(e, data, n - 1) + [Sample(e, data, n - 1)]
  }

  lemma {:induction false} DecodedPrefix(e: Encoding, a: Data, b: Data, n: nat)
    requires IsEncoding(e) && n * e.sampleSize <= |a|
    ensures Decoded(e, a + b, n) == Decoded(e, a, n)
  {
    if n > 0 {
      ProductGrows(n - 1, n, e.sampleSize);
      DecodedPrefix(e, a, b, n - 1);
      assert (a + b)[(n - 1) * e.sampleSize..n * e.sampleSize] == a[(n - 1) * e.sampleSize..n * e.sampleSize];
    }
  }

  /** Data decodes alike in one piece and in two. */
  lemma {:induction false} DecodedInPieces(e: Encoding, a: Data, m: nat, b: Data, n: nat)
    requires IsEncoding(e) && |a| == m * e.sampleSize && n * e.sampleSize <= |b|
    ensures (m + n) * e.sampleSize == |a| + n * e.sampleSize
    ensures Decoded(e, a + b, m + n) == Decoded(e, a, m) + Decoded(e, b, n)
    decreases n
  {
    Distributes(m, n, e.sampleSize);
    if n == 0 {
      DecodedPrefix(e, a, b, m);
    } else {
      ProductGrows(n - 1, n, e.sampleSize);
      DecodedInPieces(e, a, m, b, n - 1);
      SameSample(e, a, m, b, n - 1);
      DecodedStep(e, a + b, m + n);
      DecodedStep(e, b, n);
    }
  }

  lemma {:induction false} DecodedLength(e: Encoding, data: Data, n: nat)
    requires IsEncoding(e) && n * e.sampleSize <= |data|
    ensures |Decoded(e, data, n)| == n
  {
    if n > 0 {
      ProductGrows(n - 1, n, e.sampleSize);
      DecodedLength(e, data, n - 1);
    }
  }

  lemma {:induction false} DecodedAt(e: Encoding, data: Data, n: nat, i: nat)
    requires IsEncoding(e) && i < n && n * e.sampleSize <= |data|
    ensures (i + 1) * e.sampleSize <= |data|
    ensures |Decoded(e, data, n)| == n && Decoded(e, data, n)[i] == Sample(e, data, i)
  {
    ProductGrows(i + 1, n, e.sampleSize);
    ProductGrows(n - 1, n, e.sampleSize);
    DecodedLength(e, data, n);
    DecodedLength(e, data, n - 1);
    if i < n - 1 {
      DecodedAt(e, data, n - 1, i);
    }
  }

  lemma DecodedStep(e: Encoding, data: Data, n: nat)
    requires IsEncoding(e) && 0 < n && n * e.sampleSize <= |data|
    ensures (n - 1) * e.sampleSize <= |data|
    ensures Decoded(e, data, n) == Decoded(e, data, n - 1) + [Sample(e, data, n - 1)]
  {
    ProductGrows(n - 1, n, e.sampleSize);
  }

  lemma SameSample(e: Encoding, a: Data, m: nat, b: Data, i: nat)
    requires IsEncoding(e) && |a| == m * e.sampleSize && (i + 1) * e.sampleSize <= |b|
    ensures (m + i + 1) * e.sampleSize <= |a + b|
    ensures Sample(e, a + b, m + i) == Sample(e, b, i)
  {
    Distributes(m, i, e.sampleSize);
    Distributes(m, i + 1, e.sampleSize);
    ProductGrows(i, i + 1, e.sampleSize);
    assert (a + b)[(m + i) * e.sampleSize..(m + i + 1) * e.sampleSize] == b[i * e.sampleSize..(i + 1) * e.sampleSize];
  }

  // ---------- De-interleaving and fading ----------

  /** What a frame is multiplied with when a buffer of this many frames is faded. */
  function FadeIn(i: nat): real {
    if i < 50 then i as real / 50.0 else 1.0
  }

  /** The counter of the fade-out before frame i: it starts at 50 and counts every frame
      from the 51st before the end. */
  function Countdown(i: nat, length: nat): int {
    if i < length - 51 then 50
    else if length < 51 then 50 - i
    else 50 - (i - (length - 51))
  }

  function FadeOut(i: nat, length: nat): real {
    if i < length - 51 then 1.0 else Countdown(i, length) as real / 50.0
  }

  function Weight(i: nat, length: nat, fade: bool): real {
    if fade then FadeIn(i) * FadeOut(i, length) else 1.0
  }

  /** Every weight is within [0, 1]: the counter never drops below zero. */
  lemma WeightIsAShare(i: nat, length: nat, fade: bool)
    requires i < length
    ensures 0.0 <= Weight(i, length, fade) <= 1.0
    ensures 0 <= Countdown(i, length) <= 50
  {
    Share(FadeIn(i), FadeOut(i, length));
  }

  lemma Share(a: real, b: real)
    requires 0.0 <= a <= 1.0 && 0.0 <= b <= 1.0
    ensures 0.0 <= a * b <= 1.0
  {
    ProductIsPositive(a, b);
    ProductIsPositive(1.0 - a, b);
    assert (1.0 - a) * b == b - a * b;
  }

  lemma ProductIsPositive(a: real, b: real)
    requires 0.0 <= a && 0.0 <= b
    ensures 0.0 <= a * b
    ensures 0.0 < a && 0.0 < b ==> 0.0 < a * b
  {
  }

  /** A faded buffer begins silent, and ends silent exactly if it is long enough. */
  lemma FadeEndsSilentExactly(length: nat)
    requires length > 0
    ensures Weight(0, length, true) == 0.0
    ensures Weight(length - 1, length, true) == 0.0 <==> length >= 51 || length == 1
  {
    if 1 < length < 51 {
      var a, b := FadeIn(length - 1), FadeOut(length - 1, length);
      assert a > 0.0;
      assert b > 0.0;
      ProductIsPositive(a, b);
      assert Weight(length - 1, length, true) == a * b;
    }
  }

  /** A long faded buffer rises and falls alike, is at full level in between, and changes by
      at most a fiftieth from one frame to the next. */
  lemma FadeIsEven(length: nat, i: nat)
    requires length >= 101 && i < length
    ensures Weight(i, length, true) == Weight(length - 1 - i, length, true)
    ensures 50 <= i < length - 50 ==> Weight(i, length, true) == 1.0
    ensures i + 1 < length ==> -0.02 <= Weight(i + 1, length, true) - Weight(i, length, true) <= 0.02
  {
  }

  /** The place of a channel's frame among interleaved samples. */
  function Place(channels: nat, c: nat, i: nat): nat {
    if i == 0 then c else Place(channels, c, i - 1) + channels
  }

  lemma {:induction false} PlaceIs(channels: nat, c: nat, i: nat)
    ensures Place(channels, c, i) == i * channels + c
  {
    if i > 0 {
      PlaceIs(channels, c, i - 1);
      assert i * channels == (i - 1) * channels + channels;
    }
  }

  lemma PlaceIsWithin(channels: nat, length: nat, c: nat, i: nat)
    requires c < channels && i < length
    ensures Place(channels, c, i) < length * channels
  {
    PlaceIs(channels, c, i);
    ProductGrows(i + 1, length, channels);
    assert (i + 1) * channels == i * channels + channels;
  }

  /** A frame of a channel is its sample, weighted. */
  ghost predicate IsFrame(audio: seq<real>, samples: seq<real>, channels: nat, c: nat, fade: bool, i: nat) {
    && i < |audio| && Place(channels, c, i) < |samples|
    && audio[i] == samples[Place(channels, c, i)] * Weight(i, |audio|, fade)
  }

  ghost predicate IsChannel(audio: seq<real>, samples: seq<real>, channels: nat, c: nat, fade: bool) {
    forall i :: 0 <= i < |audio| ==> IsFrame(audio, samples, channels, c, fade, i)
  }

  /** The audio data of a buffer, channel by channel. */
  ghost predicate IsMix(audio: seq<seq<real>>, samples: seq<real>, channels: nat, length: nat, fade: bool) {
    && |audio| == channels
    && forall c :: 0 <= c < channels ==> |audio[c]| == length && IsChannel(audio[c], samples, channels, c, fade)
  }

  /** The data that a channel is to hold. */
  lemma ChannelExists(samples: seq<real>, channels: nat, c: nat, length: nat, fade: bool) returns (audio: seq<real>)
    requires forall i :: 0 <= i < length ==> Place(channels, c, i) < |samples|
    ensures |audio| == length && IsChannel(audio, samples, channels, c, fade)
  {
    audio := seq(length, i requires 0 <= i < length => samples[Place(channels, c, i)] * Weight(i, length, fade));
  }

  /** Every sample is played at exactly one place: in the channel and the frame that its
      position divided by the number of channels leaves. */
  lemma EverySampleIsPlayed(audio: seq<seq<real>>, samples: seq<real>, channels: nat, length: nat, fade: bool, k: nat)
    requires |samples| == length * channels && IsMix(audio, samples, channels, length, fade) && k < |samples|
    ensures channels > 0
    ensures var c, i := k % channels, k / channels;
            c < |audio| && i < |audio[c]| && audio[c][i] == samples[k] * Weight(i, length, fade)
  {
    var c, i := FrameOf(channels, length, k);
    assert IsFrame(audio[c], samples, channels, c, fade, i);
  }

  lemma FrameOf(channels: nat, length: nat, k: nat) returns (c: nat, i: nat)
    requires k < length * channels
    ensures channels > 0 && c == k % channels && i == k / channels
    ensures c < channels && i < length && Place(channels, c, i) == k
  {
    assert channels > 0;
    c, i := k % channels, k / channels;
    assert k == i * channels + c;
    PlaceIs(channels, c, i);
    if i >= length {
      ProductGrows(length, i, channels);
      assert false;
    }
  }

  // ---------- Scheduling ----------

  function Max(a: real, b: real): real {
    if a > b then a else b
  }

  /** How far ahead the start time is, in whole milliseconds. */
  function LagMs(startTime: real, now: real): int {
    ((startTime - now) * 1000.0).Floor
  }

  /** The start time was missed, or is too far ahead. */
  predicate IsOff(startTime: real, now: real, maxAudioLag: real) {
    LagMs(startTime, now) < 0 || LagMs(startTime, now) as real > maxAudioLag
  }

  /** A start time is off exactly if it is over, or as many whole milliseconds ahead as are
      more than the greatest lag. */
  lemma IsOffExactly(startTime: real, now: real, maxAudioLag: real)
    ensures IsOff(startTime, now, maxAudioLag) <==>
              startTime < now || (startTime - now) * 1000.0 >= (maxAudioLag.Floor + 1) as real
  {
    FloorExceeds((startTime - now) * 1000.0, maxAudioLag);
  }

  lemma FloorExceeds(x: real, m: real)
    ensures x.Floor as real > m <==> x >= (m.Floor + 1) as real
    ensures x.Floor < 0 <==> x < 0.0
  {
    var n, f := x.Floor, m.Floor;
    assert n as real <= x < (n + 1) as real;
    assert f as real <= m < (f + 1) as real;
    if n <= f {
      assert n as real <= f as real && (n + 1) as real <= (f + 1) as real;
    } else {
      assert (f + 1) as real <= n as real;
    }
  }

  function StartOf(startTime: real, now: real, maxAudioLag: real): real {
    if IsOff(startTime, now, maxAudioLag) || startTime == 0.0 then now + 0.005 else startTime
  }

  /** A buffer starts no earlier than now, and no later than the larger of 5 ms and the
      greatest lag plus 1 ms; it starts where it should unless the player resynchronises. */
  lemma StartIsNear(startTime: real, now: real, maxAudioLag: real)
    ensures var start := StartOf(startTime, now, maxAudioLag);
            now <= start <= now + Max(0.005, (maxAudioLag + 1.0) / 1000.0)
  {
    var x := (startTime - now) * 1000.0;
    assert x.Floor as real <= x < x.Floor as real + 1.0;
  }

  /** A buffer overlaps the one before it exactly if that was to end more than 5 ms ahead
      and is further ahead than the greatest lag: the player then starts over at once,
      while the buffers it has scheduled keep playing. */
  lemma OverlapsExactly(startTime: real, now: real, maxAudioLag: real)
    requires startTime != 0.0
    ensures StartOf(startTime, now, maxAudioLag) < startTime <==>
              LagMs(startTime, now) as real > maxAudioLag && startTime > now + 0.005
  {
    var x := (startTime - now) * 1000.0;
    assert x.Floor as real <= x < x.Floor as real + 1.0;
  }

  /** The j-th buffer starts before the one in front of it ends. */
  predicate Overlaps(ps: seq<Played>, j: nat) {
    0 < j < |ps| && ps[j].start < ps[j - 1].end
  }

  ghost predicate HasOverlap(ps: seq<Played>) {
    exists j :: Overlaps(ps, j)
  }

  lemma OverlapIsInFrontOrLast(ps: seq<Played>)
    requires ps != []
    ensures HasOverlap(ps) <==> HasOverlap(ps[..|ps| - 1]) || Overlaps(ps, |ps| - 1)
  {
    var n := |ps| - 1;
    assert forall j: nat :: Overlaps(ps[..n], j) <==> Overlaps(ps, j) && j < n;
  }

  /** How far ahead of the clock the n-th buffer after a restart ends, in seconds, as long as
      the clock stands still and no buffer overlaps another. */
  function Ahead(n: nat, duration: real): real {
    0.005 + n as real * duration
  }

  lemma AheadGrows(n: nat, duration: real)
    requires duration > 0.0
    ensures Ahead(0, duration) == 0.005 < Ahead(n + 1, duration) == Ahead(n, duration) + duration
  {
    ProductIsPositive(n as real, duration);
    assert (n + 1) as real * duration == n as real * duration + duration;
  }

  lemma LagGrows(a: real, b: real)
    requires a <= b
    ensures LagMs(a, 0.0) <= LagMs(b, 0.0)
  {
    var x, y := a * 1000.0, b * 1000.0;
    assert x.Floor as real <= x && y < y.Floor as real + 1.0;
  }

  // ---------- The stream of samples ----------

  function Flat(buffers: seq<seq<real>>): seq<real> {
    if buffers == [] then [] else Flat(buffers[..|buffers| - 1]) + buffers[|buffers| - 1]
  }

  lemma FlatAppend(buffers: seq<seq<real>>, buffer: seq<real>)
    ensures Flat(buffers + [buffer]) == Flat(buffers) + buffer
  {
    assert (buffers + [buffer])[..|buffers|] == buffers;
  }

  ghost predicate AreBuffers(buffers: seq<seq<real>>, length: nat) {
    forall k :: 0 <= k < |buffers| ==> |buffers[k]| == length
  }

  lemma {:induction false} FlatLength(buffers: seq<seq<real>>, length: nat)
    requires AreBuffers(buffers, length)
    ensures |Flat(buffers)| == |buffers| * length
  {
    if buffers != [] {
      var front := buffers[..|buffers| - 1];
      assert forall k :: 0 <= k < |front| ==> front[k] == buffers[k];
      FlatLength(front, length);
      assert |buffers| * length == (|buffers| - 1) * length + length;
    }
  }

  /** There is one way only to cut a stream into buffers and an unfinished rest: how the
      samples were spread over the feeds makes no difference. */
  lemma {:induction false} BuffersAreUnique(a: seq<seq<real>>, x: seq<real>, b: seq<seq<real>>, y: seq<real>, length: nat)
    requires AreBuffers(a, length) && AreBuffers(b, length) && |x| < length && |y| < length
    requires Flat(a) + x == Flat(b) + y
    ensures a == b && x == y
    decreases |a|
  {
    SameCount(a, x, b, y, length);
    if a == [] {
      assert x == Flat(a) + x && y == Flat(b) + y;
    } else {
      var n := |a| - 1;
      assert AreBuffers(a[..n], length) && AreBuffers(b[..n], length);
      FlatLength(a[..n], length);
      FlatLength(b[..n], length);
      SameParts(Flat(a[..n]), a[n], x, Flat(b[..n]), b[n], y);
      BuffersAreUnique(a[..n], x, b[..n], y, length);
      assert a == a[..n] + [a[n]] && b == b[..n] + [b[n]];
    }
  }

  lemma SameCount(a: seq<seq<real>>, x: seq<real>, b: seq<seq<real>>, y: seq<real>, length: nat)
    requires AreBuffers(a, length) && AreBuffers(b, length) && |x| < length && |y| < length
    requires Flat(a) + x == Flat(b) + y
    ensures |a| == |b|
  {
    FlatLength(a, length);
    FlatLength(b, length);
    DivisionIsUnique(|a|, |x|, |b|, |y|, length);
  }

  lemma SameParts(f: seq<real>, p: seq<real>, x: seq<real>, g: seq<real>, q: seq<real>, y: seq<real>)
    requires f + p + x == g + q + y && |f| == |g| && |p| == |q|
    ensures f == g && p == q && x == y
  {
    var s := f + p + x;
    assert f == s[..|f|] && g == s[..|g|];
    assert p == s[|f|..|f| + |p|] && q == s[|g|..|g| + |q|];
    assert x == s[|f| + |p|..] && y == s[|g| + |q|..];
  }

  /** The same data in one feed or in two makes the same buffers and leaves the same rest. */
  lemma FeedsDoNotMatter(e: Encoding, taken: seq<real>, a: Data, m: nat, b: Data, n: nat,
                         x: seq<seq<real>>, p: seq<real>, y: seq<seq<real>>, q: seq<real>, length: nat)
    requires IsEncoding(e) && |a| == m * e.sampleSize && |b| == n * e.sampleSize
    requires AreBuffers(x, length) && AreBuffers(y, length) && |p| < length && |q| < length
    requires Flat(x) + p == taken + Decoded(e, a, m) + Decoded(e, b, n)
    requires (m + n) * e.sampleSize == |a + b| && Flat(y) + q == taken + Decoded(e, a + b, m + n)
    ensures x == y && p == q
  {
    DecodedInPieces(e, a, m, b, n);
    assert taken + Decoded(e, a, m) + Decoded(e, b, n) == taken + (Decoded(e, a, m) + Decoded(e, b, n));
    BuffersAreUnique(x, p, y, q, length);
  }

  // ---------- The player ----------

  /** A buffer given to the audio context: its channels, when that was, and when it starts
      and ends. */
  datatype Played = Played(audio: seq<seq<real>>, fade: bool, at: real, start: real, end: real)

  /** The frames of the samples buffer. */
  function Frames(bufferAudioTime: real, sampleRate: nat): (n: nat)
    requires bufferAudioTime >= 0.0
  {
    ProductIsPositive(bufferAudioTime, sampleRate as real);
    (bufferAudioTime * sampleRate as real / 1000.0).Floor
  }

  /** The buffer is empty exactly if it is to hold less than one sample's time. */
  lemma BufferIsEmptyExactly(bufferAudioTime: real, sampleRate: nat, channels: nat)
    requires bufferAudioTime >= 0.0 && channels > 0
    ensures Frames(bufferAudioTime, sampleRate) * channels == 0 <==> bufferAudioTime * sampleRate as real < 1000.0
  {
    var n := Frames(bufferAudioTime, sampleRate);
    assert n > 0 ==> n * channels > 0;
  }

  lemma ZeroProduct(a: real, b: real)
    ensures a * b == 0.0 <==> a == 0.0 || b == 0.0
  {
  }

  class Player {
    const encoding: Encoding
    const channels: nat
    const sampleRate: nat
    const maxAudioLag: real
    const reduceClickingNoise: bool
    const samplesBuffer: array<real>
    var samplesCount: nat
    var startTime: real
    var started: bool
    var running: bool
    var currentTime: real
    var played: seq<Played>
    ghost const frames: nat
    ghost const duration: real
    ghost var flushed: seq<seq<real>>

    ghost function Pending(): seq<real>
      reads this, samplesBuffer
    {
      if samplesCount <= samplesBuffer.Length then samplesBuffer[..samplesCount] else []
    }

    /** All samples taken since the last restart of the stream, in order. */
    ghost function Taken(): seq<real>
      reads this, samplesBuffer
    {
      Flat(flushed) + Pending()
    }

    ghost predicate IsSetUp() {
      && IsEncoding(encoding) && channels > 0 && sampleRate > 0
      && samplesBuffer.Length == frames * channels
      && duration == frames as real / sampleRate as real
    }

    /** A buffer was scheduled in time, and holds these samples. */
    ghost predicate IsPlayed(p: Played, samples: seq<real>) {
      && IsMix(p.audio, samples, channels, frames, p.fade)
      && 0.0 <= p.at <= p.start <= p.at + Max(0.005, (maxAudioLag + 1.0) / 1000.0)
      && p.end == p.start + duration
    }

    ghost predicate Valid()
      reads this
    {
      IsSetUp() && IsScheduled() && (samplesBuffer.Length > 0 ==> samplesCount < samplesBuffer.Length)
    }

    /** Every flushed buffer was scheduled, and the start time is where the last one ends. */
    ghost predicate IsScheduled()
      reads this
    {
      && |played| == |flushed| && AreBuffers(flushed, samplesBuffer.Length)
      && (forall k :: 0 <= k < |played| ==> IsPlayed(played[k], flushed[k]))
      && currentTime >= 0.0
      && (startTime != 0.0 ==> played != [] && startTime == played[|played| - 1].end && startTime > 0.0)
    }

    constructor (encoding: Encoding, channels: nat, sampleRate: nat, bufferAudioTime: real, maxAudioLag: real, reduceClickingNoise: bool)
      requires IsEncoding(encoding) && channels > 0 && sampleRate > 0 && bufferAudioTime >= 0.0
      ensures Valid() && fresh(samplesBuffer) && flushed == [] && Pending() == [] && !started && startTime == 0.0
      ensures frames == Frames(bufferAudioTime, sampleRate)
      ensures samplesBuffer.Length == Frames(bufferAudioTime, sampleRate) * channels
      ensures this.maxAudioLag == Max(maxAudioLag, bufferAudioTime * 2.0)
      ensures this.encoding == encoding && this.channels == channels && this.reduceClickingNoise == reduceClickingNoise
    {
      var frames := Frames(bufferAudioTime, sampleRate);
      this.encoding, this.channels, this.sampleRate, this.frames := encoding, channels, sampleRate, frames;
      duration := frames as real / sampleRate as real;
      this.maxAudioLag := Max(maxAudioLag, bufferAudioTime * 2.0);
      this.reduceClickingNoise := reduceClickingNoise;
      samplesBuffer := new real[frames * channels](_ => 0.0);
      samplesCount, startTime, started, running, currentTime := 0, 0.0, false, false, 0.0;
      played, flushed := [], [];
    }

    // ---------- Flushing ----------

    /** A buffer starts where it should, given the start time that was set, and is faded if
        it does not start there or always. */
    ghost predicate IsNext(startTime: real, p: Played) {
      && p.start == StartOf(startTime, p.at, maxAudioLag)
      && (p.fade <==> reduceClickingNoise || IsOff(startTime, p.at, maxAudioLag))
    }

    method ReadClock() returns (t: real)
      modifies this`currentTime
      ensures t == currentTime >= old(currentTime)
    {
      t := *;
      t := Max(t, currentTime);
      currentTime := t;
    }

    method Flush() returns (ghost p: Played)
      requires IsSetUp() && samplesBuffer.Length > 0 && currentTime >= 0.0
      modifies this`startTime, this`currentTime, this`played
      ensures currentTime >= old(currentTime)
      ensures played == old(played) + [p] && IsPlayed(p, samplesBuffer[..]) && IsNext(old(startTime), p)
      ensures p.at == currentTime && startTime == p.end
    {
      var now := ReadClock();
      var length := samplesBuffer.Length / channels;
      assert length == frames by { DivisionIs(samplesBuffer.Length, channels, frames, 0); }
      var audioLagMs := LagMs(startTime, now);
      var forceClickingNoiseReduction := false;
      if audioLagMs < 0 {
        forceClickingNoiseReduction := true;
        startTime := 0.0;
      }
      if audioLagMs as real > maxAudioLag {
        forceClickingNoiseReduction := true;
        startTime := 0.0;
      }
      var fade := forceClickingNoiseReduction || reduceClickingNoise;
      var audio := CopyChannels(length, fade);
      if startTime == 0.0 {
        startTime := now + 0.005;
      }
      StartIsNear(old(startTime), now, maxAudioLag);
      var end := startTime + length as real / sampleRate as real;
      p := Played(audio, fade, now, startTime, end);
      played := played + [Played(audio, fade, now, startTime, end)];
      startTime := end;
    }

    method CopyChannels(length: nat, fade: bool) returns (audio: seq<seq<real>>)
      requires IsSetUp() && length == frames
      ensures IsMix(audio, samplesBuffer[..], channels, frames, fade)
    {
      audio := [];
      var channel := 0;
      while channel < channels
        invariant 0 <= channel <= channels && |audio| == channel
        invariant forall c :: 0 <= c < channel ==>
                    |audio[c]| == frames && IsChannel(audio[c], samplesBuffer[..], channels, c, fade)
      {
        forall i | 0 <= i < frames
          ensures Place(channels, channel, i) < samplesBuffer.Length
        {
          PlaceIsWithin(channels, frames, channel, i);
        }
        ghost var expected := ChannelExists(samplesBuffer[..], channels, channel, frames, fade);
        var audioData := CopyChannel(expected, channel, length, fade);
        audio := audio + [audioData[..]];
        channel := channel + 1;
      }
    }

    /** Copies one channel, with the counter of the fade-out running down. */
    method CopyChannel(ghost expected: seq<real>, channel: nat, length: nat, fade: bool) returns (audioData: array<real>)
      requires |expected| == length && IsChannel(expected, samplesBuffer[..], channels, channel, fade)
      ensures fresh(audioData) && audioData[..] == expected
    {
      audioData := new real[length](_ => 0.0);
      var offset := channel;
      var decrement := 50;
      for i := 0 to length
        invariant offset == Place(channels, channel, i)
        invariant fade ==> decrement == Countdown(i, length)
        invariant forall j :: 0 <= j < i ==> audioData[j] == expected[j]
      {
        decrement := CopyFrame(expected, channel, audioData, i, fade, offset, decrement);
        offset := offset + channels;
      }
    }

    method CopyFrame(ghost expected: seq<real>, ghost channel: nat, audioData: array<real>, i: nat, fade: bool, offset: nat,
                     decrement: int)
      returns (left: int)
      requires i < |expected| == audioData.Length && audioData != samplesBuffer
      requires IsChannel(expected, samplesBuffer[..], channels, channel, fade) && offset == Place(channels, channel, i)
      requires fade ==> decrement == Countdown(i, audioData.Length)
      modifies audioData
      ensures fade ==> left == Countdown(i + 1, audioData.Length)
      ensures audioData[i] == expected[i]
      ensures forall j :: 0 <= j < audioData.Length && j != i ==> audioData[j] == old(audioData[j])
    {
      assert IsFrame(expected, samplesBuffer[..], channels, channel, fade, i);
      left := decrement;
      audioData[i] := samplesBuffer[offset];
      if fade {
        left := FadeFrame(audioData, i, audioData.Length, left);
      }
    }

    /** Fades a frame in place, and counts the fade-out down. */
    method FadeFrame(audioData: array<real>, i: nat, length: nat, decrement: int) returns (left: int)
      requires i < length == audioData.Length && decrement == Countdown(i, length)
      modifies audioData
      ensures left == Countdown(i + 1, length)
      ensures audioData[i] == old(audioData[i]) * Weight(i, length, true)
      ensures forall j :: 0 <= j < length && j != i ==> audioData[j] == old(audioData[j])
    {
      left := decrement;
      ghost var x := audioData[i];
      if i < 50 {
        audioData[i] := audioData[i] * i as real / 50.0;
      }
      if i >= length - 51 {
        audioData[i] := audioData[i] * left as real / 50.0;
        left := left - 1;
      }
      FadedSample(x, i, length);
    }

    // ---------- Feeding ----------

    method Start()
      requires Valid()
      modifies this`started, this`startTime, this`samplesCount
      ensures Valid() && started
      ensures !old(started) ==> startTime == 0.0 && samplesCount == 0
      ensures old(started) ==> startTime == old(startTime) && samplesCount == old(samplesCount)
    {
      if started {
        return;
      }
      startTime := 0.0;
      samplesCount := 0;
      started := true;
    }

    method Stop()
      requires Valid()
      modifies this`started
      ensures Valid() && !started
    {
      started := false;
    }

    /** The audio context changes its state: what is pending is dropped unless it runs. */
    method OnStateChange(running: bool)
      requires Valid()
      modifies this`running, this`startTime, this`samplesCount
      ensures Valid() && this.running == running
      ensures !running ==> startTime == 0.0 && samplesCount == 0
      ensures running ==> startTime == old(startTime) && samplesCount == old(samplesCount)
    {
      this.running := running;
      if !running {
        startTime := 0.0;
        samplesCount := 0;
      }
    }

    /** Where the next buffer is to start: the first k buffers left it at `first`. */
    ghost function NextStart(ps: seq<Played>, first: real, k: nat): real {
      if |ps| <= k then first else ps[|ps| - 1].end
    }

    /** The buffers scheduled from the k-th on follow each other. */
    ghost predicate AreConsecutive(ps: seq<Played>, first: real, k: nat) {
      |ps| > k ==>
        && IsNext(NextStart(ps[..|ps| - 1], first, k), ps[|ps| - 1])
        && AreConsecutive(ps[..|ps| - 1], first, k)
    }

    lemma OneMoreFollows(ps: seq<Played>, p: Played, first: real, k: nat)
      requires k <= |ps| && AreConsecutive(ps, first, k) && IsNext(NextStart(ps, first, k), p)
      ensures AreConsecutive(ps + [p], first, k) && NextStart(ps + [p], first, k) == p.end
    {
      assert (ps + [p])[..|ps|] == ps;
    }

    /** Among buffers that follow each other, one overlaps the one in front of it exactly if
        that was still to play for longer than 5 ms and than the greatest lag. */
    lemma {:induction false} OverlapsInRun(ps: seq<Played>, first: real, k: nat, j: nat)
      requires AreConsecutive(ps, first, k) && k < j < |ps| && ps[j - 1].end != 0.0
      ensures Overlaps(ps, j) <==>
                LagMs(ps[j - 1].end, ps[j].at) as real > maxAudioLag && ps[j - 1].end > ps[j].at + 0.005
    {
      var n := |ps| - 1;
      if j < n {
        OverlapsInRun(ps[..n], first, k, j);
      } else {
        assert ps[..n][n - 1] == ps[n - 1];
        OverlapsExactly(ps[n - 1].end, ps[n].at, maxAudioLag);
      }
    }

    lemma DurationIsPositive()
      requires IsSetUp() && samplesBuffer.Length > 0
      ensures duration > 0.0
    {
      assert frames > 0;
      assert frames as real / sampleRate as real > 0.0;
    }

    /** These buffers were all scheduled at one reading of the clock. */
    ghost predicate IsBurst(ps: seq<Played>, at: real) {
      forall p :: p in ps ==> p.at == at && p.end == p.start + duration
    }

    /** Without overlap the buffers of a burst end one duration after the other. */
    lemma {:induction false} BurstEnds(ps: seq<Played>, at: real)
      requires AreConsecutive(ps, 0.0, 0) && IsBurst(ps, at) && at >= 0.0 && duration > 0.0
      requires ps != [] && !HasOverlap(ps)
      ensures ps[|ps| - 1].end == at + Ahead(|ps|, duration)
    {
      var n := |ps| - 1;
      AheadGrows(n, duration);
      if n > 0 {
        AheadGrows(n - 1, duration);
        OverlapIsInFrontOrLast(ps);
        BurstEnds(ps[..n], at);
        NextOfBurst(ps, at);
      }
    }

    /** The last buffer of a burst overlaps exactly if those in front of it reach too far
        ahead; otherwise it starts where they end. */
    lemma NextOfBurst(ps: seq<Played>, at: real)
      requires AreConsecutive(ps, 0.0, 0) && IsBurst(ps, at) && at >= 0.0 && duration > 0.0 && |ps| > 1
      requires ps[|ps| - 2].end == at + Ahead(|ps| - 1, duration)
      ensures Overlaps(ps, |ps| - 1) <==> LagMs(Ahead(|ps| - 1, duration), 0.0) as real > maxAudioLag
      ensures !Overlaps(ps, |ps| - 1) ==> ps[|ps| - 1].start == ps[|ps| - 2].end
    {
      var n := |ps| - 1;
      AheadGrows(n - 1, duration);
      assert ps[n] in ps && ps[n].at == at;
      OverlapsInRun(ps, 0.0, 0, n);
      assert IsNext(ps[..n][n - 1].end, ps[n]);
      var x := (ps[n - 1].end - at) * 1000.0;
      assert x.Floor as real <= x < x.Floor as real + 1.0;
    }

    /** Buffers that are scheduled at one reading of the clock, from a restart on, overlap
        exactly if all but the last of them together reach further ahead than the greatest
        lag allows. */
    lemma {:induction false} BurstOverlapsExactly(ps: seq<Played>, at: real)
      requires AreConsecutive(ps, 0.0, 0) && IsBurst(ps, at) && at >= 0.0 && duration > 0.0
      ensures HasOverlap(ps) <==>
                |ps| > 1 && LagMs(Ahead(|ps| - 1, duration), 0.0) as real > maxAudioLag
    {
      if |ps| > 1 {
        var n := |ps| - 1;
        BurstOverlapsExactly(ps[..n], at);
        OverlapIsInFrontOrLast(ps);
        if HasOverlap(ps[..n]) {
          AheadGrows(n - 1, duration);
          LagGrows(Ahead(n - 1, duration), Ahead(n, duration));
        } else {
          BurstEnds(ps[..n], at);
          NextOfBurst(ps, at);
        }
      }
    }

    /** Such buffers can be as many as there is data for. */
    lemma {:induction false} BurstExists(n: nat, at: real) returns (ps: seq<Played>)
      ensures |ps| == n && AreConsecutive(ps, 0.0, 0) && IsBurst(ps, at)
    {
      ps := [];
      if n > 0 {
        var front := BurstExists(n - 1, at);
        var next := NextStart(front, 0.0, 0);
        var start := StartOf(next, at, maxAudioLag);
        var fade := reduceClickingNoise || IsOff(next, at, maxAudioLag);
        ps := front + [Played([], fade, at, start, start + duration)];
        OneMoreFollows(front, ps[n - 1], 0.0, 0);
      }
    }

    /** With buffers of 20 ms and a greatest lag of 250 ms, as by default, it takes fourteen
        buffers at once for one to overlap. */
    lemma DefaultBurstOverlaps(ps: seq<Played>, at: real)
      requires duration == 0.02 && maxAudioLag == 250.0 && at >= 0.0
      requires AreConsecutive(ps, 0.0, 0) && IsBurst(ps, at)
      ensures HasOverlap(ps) <==> |ps| >= 14
    {
      BurstOverlapsExactly(ps, at);
      if |ps| >= 14 {
        LagGrows(Ahead(13, 0.02), Ahead(|ps| - 1, 0.02));
      } else if |ps| > 1 {
        LagGrows(Ahead(|ps| - 1, 0.02), Ahead(12, 0.02));
      }
    }

    /** The last frame of a faded buffer is silent exactly if the buffer is long enough or
        its sample was silent before. */
    lemma PlayedEndsSilentExactly(p: Played, samples: seq<real>, c: nat)
      requires IsPlayed(p, samples) && p.fade && frames > 0 && c < channels
      ensures Place(channels, c, frames - 1) < |samples|
      ensures p.audio[c][frames - 1] == 0.0 <==>
                frames >= 51 || frames == 1 || samples[Place(channels, c, frames - 1)] == 0.0
    {
      assert IsFrame(p.audio[c], samples, channels, c, true, frames - 1);
      FadeEndsSilentExactly(frames);
      WeightIsAShare(frames - 1, frames, true);
      ZeroProduct(samples[Place(channels, c, frames - 1)], Weight(frames - 1, frames, true));
    }

    /** One sample enters the buffer, which is flushed when it is full. */
    method Take(sample: real, ghost first: real, ghost k: nat)
      requires Valid() && samplesBuffer.Length > 0 && k <= |played| && AreConsecutive(played, first, k)
      requires startTime == NextStart(played, first, k)
      modifies this`samplesCount, this`startTime, this`currentTime, this`played, this`flushed, samplesBuffer
      ensures Valid() && Taken() == old(Taken()) + [sample] && currentTime >= old(currentTime)
      ensures old(played) <= played && AreConsecutive(played, first, k) && startTime == NextStart(played, first, k)
    {
      ghost var pending := Pending();
      samplesBuffer[samplesCount] := sample;
      samplesCount := samplesCount + 1;
      assert samplesBuffer[..samplesCount] == pending + [sample];
      assert Taken() == old(Taken()) + [sample];
      if samplesCount == samplesBuffer.Length {
        ghost var p := FlushFull();
        OneMoreFollows(old(played), p, first, k);
      }
    }

    method FlushFull() returns (ghost p: Played)
      requires IsSetUp() && IsScheduled() && samplesCount == samplesBuffer.Length > 0
      modifies this`samplesCount, this`startTime, this`currentTime, this`played, this`flushed
      ensures Valid() && Taken() == old(Taken()) && currentTime >= old(currentTime)
      ensures played == old(played) + [p] && IsNext(old(startTime), p) && startTime == p.end
    {
      assert Pending() == samplesBuffer[..];
      FlatAppend(flushed, samplesBuffer[..]);
      p := Flush();
      flushed := flushed + [samplesBuffer[..]];
      samplesCount := 0;
    }

    /** What is fed only counts while the player is started and the audio context runs. */
    predicate IsListening()
      reads this
    {
      started && running
    }

    /** Takes the samples of some data, in order. What is not a whole number of samples
        is dropped, and breaks the stream. */
    method Feed(data: Data)
      requires Valid()
      modifies this`samplesCount, this`startTime, this`currentTime, this`played, this`flushed, samplesBuffer
      ensures Valid() && currentTime >= old(currentTime) && old(played) <= played
      ensures !old(IsListening()) || data == [] || samplesBuffer.Length == 0 ==>
                Taken() == old(Taken()) && played == old(played)
      ensures old(IsListening()) && samplesBuffer.Length > 0 && |data| % encoding.sampleSize == 0 ==>
                && Taken() == old(Taken()) + Decoded(encoding, data, |data| / encoding.sampleSize)
                && AreConsecutive(played, old(startTime), |old(played)|)
                && startTime == NextStart(played, old(startTime), |old(played)|)
      ensures old(IsListening()) && |data| % encoding.sampleSize != 0 ==>
                startTime == 0.0 && Taken() == old(Taken()) && played == old(played)
    {
      if |data| == 0 || !started || !running {
        return;
      }
      if |data| % encoding.sampleSize != 0 {
        startTime := 0.0;
        return;
      }
      var numSamples := |data| / encoding.sampleSize;
      assert numSamples * encoding.sampleSize == |data|;
      if samplesBuffer.Length == 0 {
        SkipAll(numSamples);
      } else {
        TakeAll(data, numSamples);
      }
    }

    method TakeAll(data: Data, numSamples: nat)
      requires Valid() && samplesBuffer.Length > 0 && numSamples * encoding.sampleSize == |data|
      modifies this`samplesCount, this`startTime, this`currentTime, this`played, this`flushed, samplesBuffer
      ensures Valid() && currentTime >= old(currentTime) && old(played) <= played
      ensures Taken() == old(Taken()) + Decoded(encoding, data, numSamples)
      ensures AreConsecutive(played, old(startTime), |old(played)|)
      ensures startTime == NextStart(played, old(startTime), |old(played)|)
    {
      ghost var first, k, before := startTime, |played|, Taken();
      ghost var all := Decoded(encoding, data, numSamples);
      DecodedLength(encoding, data, numSamples);
      for i := 0 to numSamples
        invariant Valid() && currentTime >= old(currentTime) && old(played) <= played
        invariant Taken() == before + all[..i]
        invariant AreConsecutive(played, first, k) && startTime == NextStart(played, first, k)
      {
        var sample := ReadSample(data, i, numSamples);
        assert before + all[..i + 1] == before + all[..i] + [sample];
        Take(sample, first, k);
      }
      assert all[..numSamples] == all;
    }

    method ReadSample(data: Data, i: nat, ghost numSamples: nat) returns (sample: real)
      requires IsEncoding(encoding) && i < numSamples && numSamples * encoding.sampleSize == |data|
      ensures i < |Decoded(encoding, data, numSamples)| && sample == Decoded(encoding, data, numSamples)[i]
    {
      ProductGrows(i + 1, numSamples, encoding.sampleSize);
      DecodedAt(encoding, data, numSamples, i);
      sample := Sample(encoding, data, i);
    }

    /** Nothing can be written to an empty buffer: the samples are counted and lost, and
        the count never meets the length again. */
    method SkipAll(numSamples: nat)
      requires Valid() && samplesBuffer.Length == 0
      modifies this`samplesCount
      ensures Valid() && samplesCount == old(samplesCount) + numSamples
    {
      for i := 0 to numSamples
        invariant samplesCount == old(samplesCount) + i
      {
        samplesCount := samplesCount + 1;
      }
    }
  }

  /** All that a player was given since it was made is this data: it has played as many
      buffers as that fills, one after the other, and the rest is pending. */
  ghost predicate HasPlayed(player: Player, data: Data)
    requires player.encoding.sampleSize > 0 && player.samplesBuffer.Length > 0
    reads player, player.samplesBuffer
  {
    var n := |data| / player.encoding.sampleSize;
    && IsEncoding(player.encoding) && n * player.encoding.sampleSize == |data|
    && player.Taken() == Decoded(player.encoding, data, n)
    && |player.played| == n / player.samplesBuffer.Length
    && player.AreConsecutive(player.played, 0.0, 0)
  }

  lemma BuffersPlayed(player: Player, data: Data, n: nat)
    requires player.Valid() && player.samplesBuffer.Length > 0 && n * player.encoding.sampleSize == |data|
    requires player.Taken() == Decoded(player.encoding, data, n)
    ensures |player.played| == n / player.samplesBuffer.Length
  {
    DecodedLength(player.encoding, data, n);
    FlatLength(player.flushed, player.samplesBuffer.Length);
    DivisionIs(n, player.samplesBuffer.Length, |player.flushed|, player.samplesCount);
  }

  lemma WholeSamples(data: Data, sampleSize: nat) returns (n: nat)
    requires sampleSize > 0 && |data| % sampleSize == 0
    ensures n == |data| / sampleSize && n * sampleSize == |data|
  {
    n := |data| / sampleSize;
  }

  /** A player that was made, started and given some data at once, with the context running:
      one whose buffer is too short for a sample plays nothing; otherwise as many buffers play
      as there are samples to fill them, and if the clock did not move meanwhile, some
      overlap exactly if they reach too far ahead. */
  method PlayAtOnce(encoding: Encoding, channels: nat, sampleRate: nat, bufferAudioTime: real, maxAudioLag: real, noise: bool,
                    data: Data)
    returns (player: Player)
    requires IsEncoding(encoding) && channels > 0 && sampleRate > 0 && bufferAudioTime >= 0.0
    requires |data| % encoding.sampleSize == 0
    ensures fresh(player) && player.Valid()
    ensures bufferAudioTime * sampleRate as real < 1000.0 ==> player.played == []
    ensures player.encoding == encoding && player.channels == channels && player.reduceClickingNoise == noise
    ensures player.frames == Frames(bufferAudioTime, sampleRate) && player.samplesBuffer.Length == Frames(bufferAudioTime, sampleRate) * channels
    ensures bufferAudioTime * sampleRate as real >= 1000.0 ==>
              player.samplesBuffer.Length > 0 && HasPlayed(player, data)
    ensures OverlapsIfAhead(player)
  {
    player := new Player(encoding, channels, sampleRate, bufferAudioTime, maxAudioLag, noise);
    BufferIsEmptyExactly(bufferAudioTime, sampleRate, channels);
    player.Start();
    player.OnStateChange(true);
    FeedFirst(player, data);
  }

  /** The first data that a new player gets. */
  method FeedFirst(player: Player, data: Data)
    requires player.Valid() && player.IsListening() && player.startTime == 0.0
    requires player.flushed == [] && player.Pending() == [] && |data| % player.encoding.sampleSize == 0
    modifies player`samplesCount, player`startTime, player`currentTime, player`played, player`flushed, player.samplesBuffer
    ensures player.Valid() && OverlapsIfAhead(player)
    ensures player.samplesBuffer.Length == 0 ==> player.played == []
    ensures player.samplesBuffer.Length > 0 ==> HasPlayed(player, data)
  {
    player.Feed(data);
    if player.samplesBuffer.Length > 0 {
      var n := WholeSamples(data, player.encoding.sampleSize);
      BuffersPlayed(player, data, n);
      BurstOverlaps(player);
    }
  }

  /** What a player has played since it was made, if all at one reading of the clock. */
  ghost predicate OverlapsIfAhead(player: Player)
    reads player
  {
    var ps := player.played;
    |ps| > 1 && player.IsBurst(ps, ps[0].at) ==>
      (HasOverlap(ps) <==> LagMs(Ahead(|ps| - 1, player.duration), 0.0) as real > player.maxAudioLag)
  }

  lemma BurstOverlaps(player: Player)
    requires player.Valid() && player.samplesBuffer.Length > 0 && player.AreConsecutive(player.played, 0.0, 0)
    ensures OverlapsIfAhead(player)
  {
    var ps := player.played;
    if |ps| > 1 && player.IsBurst(ps, ps[0].at) {
      assert player.IsPlayed(ps[0], player.flushed[0]);
      player.DurationIsPositive();
      player.BurstOverlapsExactly(ps, ps[0].at);
    }
  }

  /** The last frame of the only buffer played is not silent. */
  ghost predicate EndsLoud(player: Player)
    reads player
  {
    && |player.played| == 1 && player.played[0].fade
    && |player.played[0].audio| == 1 && |player.played[0].audio[0]| == 44 && player.played[0].audio[0][43] != 0.0
  }

  /** A player with a buffer of one millisecond, or 44 frames, that is to reduce noise: the
      buffer it plays is faded, and does not end silent. */
  method PlayShortBuffer(encoding: Encoding, data: Data) returns (player: Player)
    requires IsEncoding(encoding) && |data| == 44 * encoding.sampleSize && Sample(encoding, data, 43) != 0.0
    ensures fresh(player) && player.Valid() && EndsLoud(player)
  {
    OneMillisecond();
    DivisionIs(|data|, encoding.sampleSize, 44, 0);
    player := PlayAtOnce(encoding, 1, 44100, 1.0, 250.0, true, data);
    ShortBufferEndsLoud(player, data);
  }

  lemma OneMillisecond()
    ensures Frames(1.0, 44100) == 44 && 1.0 * 44100 as real == 44100.0
  {
  }

  lemma ShortBufferEndsLoud(player: Player, data: Data)
    requires player.Valid() && player.channels == 1 && player.frames == 44 && player.reduceClickingNoise
    requires HasPlayed(player, data)
    requires |data| == 44 * player.encoding.sampleSize && Sample(player.encoding, data, 43) != 0.0
    ensures EndsLoud(player)
  {
    DivisionIs(|data|, player.encoding.sampleSize, 44, 0);
    SampleIsTaken(player, data);
    PlaceIs(1, 0, 43);
    player.PlayedEndsSilentExactly(player.played[0], player.flushed[0], 0);
  }

  lemma SampleIsTaken(player: Player, data: Data)
    requires player.Valid() && player.channels == 1 && player.frames == 44
    requires |data| == 44 * player.encoding.sampleSize && Sample(player.encoding, data, 43) != 0.0
    requires |player.played| == 1 && player.Taken() == Decoded(player.encoding, data, 44)
    ensures |player.flushed[0]| == 44 && player.flushed[0][43] != 0.0
  {
    DecodedAt(player.encoding, data, 44, 43);
    assert player.flushed[..0] == [];
    assert player.Taken()[43] == player.flushed[0][43];
  }

  lemma FadeTwice(x: real, a: int, b: int)
    ensures x * a as real / 50.0 * b as real / 50.0 == x * (a as real / 50.0 * (b as real / 50.0))
  {
  }

  /** Both fades together come to the weight. */
  lemma FadedSample(x: real, i: nat, length: nat)
    ensures var y := if i < 50 then x * i as real / 50.0 else x;
            (if i >= length - 51 then y * Countdown(i, length) as real / 50.0 else y) == x * Weight(i, length, true)
  {
    FadeTwice(x, i, Countdown(i, length));
    if i >= 50 {
      FadeTwice(x, 50, Countdown(i, length));
    } else if i < length - 51 {
      FadeTwice(x, i, 50);
    }
  }
}
