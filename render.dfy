/** The framebuffer assembly of `render` in src/raymarching.rs, as integer
    index logic: the row-major pixel positions, their split into `jobs`
    equal chunks of `size = len / jobs` pixels, each job's RGBA bytes, and
    the collector that copies job i's buffer to byte offset `i * size * 4`
    of a zero-filled array, in whatever order the jobs finish.

    The colour of a pixel (`at` followed by the `as u8` casts) is a
    parameter. The thread pool and channel are replaced by the arrival
    order `order`, any permutation of the job indices. */
module Render {

  newtype byte = b: int | 0 <= b < 256

  datatype Rgb = Rgb(r: byte, g: byte, b: byte)

  const Jobs: nat := 64

  /** A pixel position (x, y). */
  type Position = (nat, nat)

  /** The four bytes a job pushes for one pixel: the colour, then an opaque
      alpha. */
  function PixelBytes(c: Rgb): seq<byte> {
    [c.r, c.g, c.b, 255]
  }

  /** The positions loop: the outer loop runs over y < outer, the inner
      over x < inner, so position j is (j % inner, j / inner). */
  method Positions(outer: nat, inner: nat) returns (ps: seq<Position>)
    ensures |ps| == outer * inner
    ensures forall j :: 0 <= j < |ps| ==> ps[j] == (j % inner, j / inner)
  {
    ps := [];
    var y := 0;
    while y < outer
      invariant 0 <= y <= outer
      invariant |ps| == y * inner
      invariant forall j :: 0 <= j < |ps| ==> ps[j] == (j % inner, j / inner)
    {
      var x := 0;
      while x < inner
        invariant 0 <= x <= inner
        invariant |ps| == y * inner + x
        invariant forall j :: 0 <= j < |ps| ==> ps[j] == (j % inner, j / inner)
      {
        DivModUnique(|ps|, inner, y, x);
        ps := ps + [(x, y)];
        x := x + 1;
      }
      y := y + 1;
    }
  }

  /** The four bytes of pixel j in a byte buffer (empty past its end). */
  function Pixel(frame: seq<byte>, j: nat): seq<byte> {
    if 4 * j + 4 <= |frame| then frame[4 * j..4 * j + 4] else []
  }

  /** One job: the pixels with indices in [i * size, (i + 1) * size), four
      bytes each, in order. */
  method RunJob(positions: seq<Position>, i: nat, size: nat, at: Position -> Rgb)
    returns (buf: seq<byte>)
    requires i * size + size <= |positions|
    ensures |buf| == 4 * size
    ensures forall k :: 0 <= k < size ==> Pixel(buf, k) == PixelBytes(at(positions[i * size + k]))
  {
    buf := [];
    var first := i * size;
    var j := first;
    while j < first + size
      invariant first <= j <= first + size
      invariant |buf| == 4 * (j - first)
      invariant forall k :: 0 <= k < j - first ==> Pixel(buf, k) == PixelBytes(at(positions[first + k]))
    {
      var color := at(positions[j]);
      PixelAppend(buf, PixelBytes(color));
      buf := buf + [color.r, color.g, color.b, 255];
      j := j + 1;
    }
  }

  /** Appending a pixel keeps the earlier pixels and adds it as the last. */
  lemma PixelAppend(buf: seq<byte>, bytes: seq<byte>)
    requires |buf| % 4 == 0 && |bytes| == 4
    ensures forall k :: 0 <= k < |buf| / 4 ==> Pixel(buf + bytes, k) == Pixel(buf, k)
    ensures Pixel(buf + bytes, |buf| / 4) == bytes
  {
    forall k | 0 <= k < |buf| / 4
      ensures Pixel(buf + bytes, k) == Pixel(buf, k)
    {
      assert (buf + bytes)[4 * k..4 * k + 4] == buf[4 * k..4 * k + 4];
    }
    assert (buf + bytes)[|buf|..|buf| + 4] == bytes;
  }

  /** Job i covers the pixel indices [i * size, (i + 1) * size). */
  predicate InJob(i: nat, size: nat, j: nat) {
    i * size <= j < (i + 1) * size
  }

  /** Two different jobs share no pixel. */
  lemma JobsDisjoint(i1: nat, i2: nat, size: nat, j: nat)
    requires InJob(i1, size, j) && InJob(i2, size, j)
    ensures i1 == i2
  {
    if i1 < i2 {
      MulMono(i1 + 1, i2, size);
    } else if i2 < i1 {
      MulMono(i2 + 1, i1, size);
    }
  }

  /** With size = n / jobs, every index below jobs * size belongs to the job
      j / size, and these indices are all of the n pixels when jobs divides
      n. */
  lemma JobsCover(n: nat, jobs: nat, j: nat)
    requires 0 < jobs && j < jobs * (n / jobs)
    ensures 0 < n / jobs
    ensures j / (n / jobs) < jobs && InJob(j / (n / jobs), n / jobs, j)
    ensures n % jobs == 0 ==> jobs * (n / jobs) == n
  {
    BlockOf(j, n / jobs, jobs);
    assert n == jobs * (n / jobs) + n % jobs;
  }

  /** Every job buffer holds `block` bytes. */
  predicate Buffers(bufs: seq<seq<byte>>, block: nat) {
    forall i :: 0 <= i < |bufs| ==> |bufs[i]| == block
  }

  /** The byte offset of job i: i blocks of `block` bytes, counted without
      multiplication so that the index reasoning stays linear. */
  function Start(i: nat, block: nat): nat {
    if i == 0 then 0 else Start(i - 1, block) + block
  }

  lemma {:induction false} StartIsProduct(i: nat, block: nat)
    ensures Start(i, block) == i * block
  {
    if i > 0 {
      StartIsProduct(i - 1, block);
    }
  }

  /** Blocks follow one another without overlap. */
  lemma {:induction false} StartMono(i: nat, j: nat, block: nat)
    ensures i < j ==> Start(i, block) + block <= Start(j, block)
    decreases j
  {
    if i < j - 1 {
      StartMono(i, j - 1, block);
    }
  }

  /** The job whose block holds byte p, among the first n. */
  function BlockAt(p: nat, block: nat, n: nat): (i: nat)
    requires p < Start(n, block)
    ensures i < n && Start(i, block) <= p < Start(i, block) + block
    decreases n
  {
    if Start(n - 1, block) <= p then n - 1 else BlockAt(p, block, n - 1)
  }

  /** A byte lies in one block only. */
  lemma BlockUnique(p: nat, block: nat, i: nat, j: nat)
    requires Start(i, block) <= p < Start(i, block) + block
    requires Start(j, block) <= p < Start(j, block) + block
    ensures i == j
  {
    StartMono(i, j, block);
    StartMono(j, i, block);
  }

  /** `frame` with the bytes from `start` on replaced by `buf`. */
  function Write(frame: seq<byte>, start: nat, buf: seq<byte>): (f: seq<byte>)
    requires start + |buf| <= |frame|
    ensures |f| == |frame|
    ensures forall p :: 0 <= p < |f| ==> f[p] == if start <= p < start + |buf| then buf[p - start] else frame[p]
  {
    frame[..start] + buf + frame[start + |buf|..]
  }

  /** The collector's buffer after the jobs in `arrived` were copied in, in
      that order, job i at byte offset Start(i, block). */
  function Assembled(bufs: seq<seq<byte>>, block: nat, arrived: seq<nat>, background: seq<byte>): (f: seq<byte>)
    requires Buffers(bufs, block) && Start(|bufs|, block) <= |background|
    requires forall t :: 0 <= t < |arrived| ==> arrived[t] < |bufs|
    ensures |f| == |background|
    decreases |arrived|
  {
    if arrived == [] then
      background
    else
      var i := arrived[|arrived| - 1];
      StartMono(i, |bufs|, block);
      Write(Assembled(bufs, block, arrived[..|arrived| - 1], background), Start(i, block), bufs[i])
  }

  /** The byte at p of the image assembled from all job buffers: the byte of
      the job whose block holds p, and the background past the last block. */
  function FrameByte(bufs: seq<seq<byte>>, block: nat, background: seq<byte>, p: nat): byte
    requires Buffers(bufs, block) && p < |background|
  {
    if p < Start(|bufs|, block) then
      var i := BlockAt(p, block, |bufs|);
      bufs[i][p - Start(i, block)]
    else
      background[p]
  }

  /** The image assembled from all job buffers, independent of any order. */
  function Frame(bufs: seq<seq<byte>>, block: nat, background: seq<byte>): (f: seq<byte>)
    requires Buffers(bufs, block)
    ensures |f| == |background|
    ensures forall p :: 0 <= p < |f| ==> f[p] == FrameByte(bufs, block, background, p)
  {
    seq(|background|, p requires 0 <= p < |background| => FrameByte(bufs, block, background, p))
  }

  /** A byte of the partly assembled buffer comes from a job exactly when
      that job has arrived; otherwise it is the background. */
  lemma {:induction false} AssembledByte(bufs: seq<seq<byte>>, block: nat, arrived: seq<nat>, background: seq<byte>, p: nat)
    requires Buffers(bufs, block) && Start(|bufs|, block) <= |background|
    requires forall t :: 0 <= t < |arrived| ==> arrived[t] < |bufs|
    requires p < |background|
    ensures p < Start(|bufs|, block) ==>
      Assembled(bufs, block, arrived, background)[p] ==
        if BlockAt(p, block, |bufs|) in arrived then FrameByte(bufs, block, background, p) else background[p]
    ensures Start(|bufs|, block) <= p ==> Assembled(bufs, block, arrived, background)[p] == background[p]
    decreases |arrived|
  {
    if arrived != [] {
      var init := arrived[..|arrived| - 1];
      var i := arrived[|arrived| - 1];
      assert arrived == init + [i];
      AssembledByte(bufs, block, init, background, p);
      StartMono(i, |bufs|, block);
      if p < Start(|bufs|, block) {
        var b := BlockAt(p, block, |bufs|);
        if Start(i, block) <= p < Start(i, block) + block {
          BlockUnique(p, block, i, b);
        }
      }
    }
  }

  /** Once every job has arrived the buffer is the assembled frame, so the
      result does not depend on the order of arrival. */
  lemma AssembledIsFrame(bufs: seq<seq<byte>>, block: nat, arrived: seq<nat>, background: seq<byte>)
    requires Buffers(bufs, block) && Start(|bufs|, block) <= |background|
    requires forall t :: 0 <= t < |arrived| ==> arrived[t] < |bufs|
    requires forall i :: 0 <= i < |bufs| ==> i in arrived
    ensures Assembled(bufs, block, arrived, background) == Frame(bufs, block, background)
  {
    forall p | 0 <= p < |background|
      ensures Assembled(bufs, block, arrived, background)[p] == Frame(bufs, block, background)[p]
    {
      AssembledByte(bufs, block, arrived, background, p);
    }
  }

  /** The collector: for each arriving job i, copy its buffer byte by byte
      to offset i * size * 4 of `pixels`. */
  method Collect(pixels: array<byte>, size: nat, bufs: seq<seq<byte>>, order: seq<nat>)
    requires Buffers(bufs, 4 * size) && Start(|bufs|, 4 * size) <= pixels.Length
    requires forall t :: 0 <= t < |order| ==> order[t] < |bufs|
    modifies pixels
    ensures pixels[..] == Assembled(bufs, 4 * size, order, old(pixels[..]))
  {
    ghost var background := pixels[..];
    ghost var block := 4 * size;
    var t := 0;
    while t < |order|
      invariant 0 <= t <= |order|
      invariant pixels[..] == Assembled(bufs, block, order[..t], background)
    {
      var i := order[t];
      var start := i * size * 4;
      StartIsOffset(i, size);
      StartMono(i, |bufs|, block);
      Copy(pixels, start, bufs[i]);
      assert order[..t + 1][..t] == order[..t];
      t := t + 1;
    }
    assert order[..t] == order;
  }

  /** The copy of one job buffer: byte k goes to start + k. */
  method Copy(pixels: array<byte>, start: nat, buf: seq<byte>)
    requires start + |buf| <= pixels.Length
    modifies pixels
    ensures pixels[..] == Write(old(pixels[..]), start, buf)
  {
    ghost var before := pixels[..];
    var k := 0;
    while k < |buf|
      invariant 0 <= k <= |buf|
      invariant forall p :: 0 <= p < pixels.Length ==>
        pixels[p] == if start <= p < start + k then buf[p - start] else before[p]
    {
      pixels[start + k] := buf[k];
      k := k + 1;
    }
  }

  /** The collector's offset i * size * 4 is Start(i, 4 * size). */
  lemma StartIsOffset(i: nat, size: nat)
    ensures i * size * 4 == Start(i, 4 * size)
  {
    StartIsProduct(i, 4 * size);
    assert i * (4 * size) == i * size * 4;
  }

  /** Byte r of job i sits at Start(i, block) + r of the frame. */
  lemma FrameByteAt(bufs: seq<seq<byte>>, block: nat, background: seq<byte>, i: nat, r: nat)
    requires Buffers(bufs, block) && Start(|bufs|, block) <= |background|
    requires i < |bufs| && r < block
    ensures Start(i, block) + r < Start(|bufs|, block)
    ensures FrameByte(bufs, block, background, Start(i, block) + r) == bufs[i][r]
  {
    var p := Start(i, block) + r;
    StartMono(i, |bufs|, block);
    var b := BlockAt(p, block, |bufs|);
    BlockUnique(p, block, i, b);
    assert FrameByte(bufs, block, background, p) == bufs[b][p - Start(b, block)];
  }

  /** Four bytes at a of f are the four bytes at b of g. */
  lemma SameBytes(f: seq<byte>, a: nat, g: seq<byte>, b: nat)
    requires a + 4 <= |f| && b + 4 <= |g|
    requires f[a] == g[b] && f[a + 1] == g[b + 1]
    requires f[a + 2] == g[b + 2] && f[a + 3] == g[b + 3]
    ensures f[a..a + 4] == g[b..b + 4]
  {
  }

  /** Pixel k of job i starts at byte Start(i, 4 * size) + 4 * k. */
  lemma PixelOffset(i: nat, size: nat, k: nat)
    ensures Start(i, 4 * size) + 4 * k == 4 * (i * size + k)
  {
    StartIsProduct(i, 4 * size);
    assert i * (4 * size) == 4 * (i * size);
  }

  /** Pixel k of job i is pixel i * size + k of the assembled frame. */
  lemma FramePixel(bufs: seq<seq<byte>>, size: nat, background: seq<byte>, i: nat, k: nat)
    requires Buffers(bufs, 4 * size) && Start(|bufs|, 4 * size) <= |background|
    requires i < |bufs| && k < size
    ensures Pixel(Frame(bufs, 4 * size, background), i * size + k) == Pixel(bufs[i], k)
  {
    var block := 4 * size;
    var f := Frame(bufs, block, background);
    var a := Start(i, block) + 4 * k;
    PixelOffset(i, size, k);
    FrameByteAt(bufs, block, background, i, 4 * k);
    FrameByteAt(bufs, block, background, i, 4 * k + 1);
    FrameByteAt(bufs, block, background, i, 4 * k + 2);
    FrameByteAt(bufs, block, background, i, 4 * k + 3);
    SameBytes(f, a, bufs[i], 4 * k);
  }

  /** The job loop of `render`: job i renders the pixels
      [i * size, (i + 1) * size) into its own buffer. */
  method RunJobs(positions: seq<Position>, jobs: nat, size: nat, at: Position -> Rgb)
    returns (bufs: seq<seq<byte>>)
    requires jobs * size <= |positions|
    ensures |bufs| == jobs && Buffers(bufs, 4 * size)
    ensures forall i, k :: 0 <= i < jobs && 0 <= k < size && i * size + k < |positions| ==>
      Pixel(bufs[i], k) == PixelBytes(at(positions[i * size + k]))
  {
    bufs := [];
    var i := 0;
    while i < jobs
      invariant 0 <= i <= jobs
      invariant |bufs| == i && Buffers(bufs, 4 * size)
      invariant forall i', k :: 0 <= i' < i && 0 <= k < size && i' * size + k < |positions| ==>
        Pixel(bufs[i'], k) == PixelBytes(at(positions[i' * size + k]))
    {
      MulMono(i + 1, jobs, size);
      assert (i + 1) * size == i * size + size;
      var buf := RunJob(positions, i, size, at);
      bufs := bufs + [buf];
      i := i + 1;
    }
  }

  /** The assembled frame of the rendered jobs over a zero-filled buffer:
      pixel j holds the colour of position j with alpha 255, and the bytes
      past the last job stay 0. */
  lemma RenderedFrame(bufs: seq<seq<byte>>, size: nat, positions: seq<Position>, width: nat, height: nat,
                      at: Position -> Rgb, zeros: seq<byte>)
    requires Buffers(bufs, 4 * size) && |positions| == width * height
    requires |bufs| * size <= |positions| && Start(|bufs|, 4 * size) <= |zeros|
    requires forall p :: 0 <= p < |zeros| ==> zeros[p] == 0
    requires forall i, k :: 0 <= i < |bufs| && 0 <= k < size && i * size + k < |positions| ==>
      Pixel(bufs[i], k) == PixelBytes(at(positions[i * size + k]))
    requires forall j :: 0 <= j < |positions| ==> positions[j] == (j % height, j / height)
    ensures forall j :: 0 <= j < |bufs| * size ==>
      Pixel(Frame(bufs, 4 * size, zeros), j) == PixelBytes(at((j % height, j / height)))
    ensures forall p :: Start(|bufs|, 4 * size) <= p < |zeros| ==> Frame(bufs, 4 * size, zeros)[p] == 0
  {
    forall j | 0 <= j < |bufs| * size
      ensures Pixel(Frame(bufs, 4 * size, zeros), j) == PixelBytes(at((j % height, j / height)))
    {
      MulZero(width, height);
      RenderedPixel(bufs, size, positions, height, at, zeros, j);
    }
  }

  /** Pixel j of the assembled frame, inside the jobs' range. */
  lemma RenderedPixel(bufs: seq<seq<byte>>, size: nat, positions: seq<Position>, height: nat,
                      at: Position -> Rgb, zeros: seq<byte>, j: nat)
    requires Buffers(bufs, 4 * size)
    requires |bufs| * size <= |positions| && Start(|bufs|, 4 * size) <= |zeros|
    requires forall i, k :: 0 <= i < |bufs| && 0 <= k < size && i * size + k < |positions| ==>
      Pixel(bufs[i], k) == PixelBytes(at(positions[i * size + k]))
    requires 0 < height && j < |bufs| * size
    requires j < |positions| ==> positions[j] == (j % height, j / height)
    ensures Pixel(Frame(bufs, 4 * size, zeros), j) == PixelBytes(at((j % height, j / height)))
  {
    BlockOf(j, size, |bufs|);
    var i, k := j / size, j % size;
    assert j == i * size + k;
    FramePixel(bufs, size, zeros, i, k);
  }

  /** `render` up to the image file: the positions, the jobs, and the
      collector over a zero-filled buffer in any arrival order. Pixel j of
      the first jobs * size is the colour of position (j % height,
      j / height) with alpha 255, and the bytes past them stay 0. */
  method Render(width: nat, height: nat, jobs: nat, at: Position -> Rgb, order: seq<nat>)
    returns (frame: seq<byte>)
    requires 0 < jobs
    requires forall t :: 0 <= t < |order| ==> order[t] < jobs
    requires forall i :: 0 <= i < jobs ==> i in order
    ensures |frame| == width * height * 4
    ensures forall j :: 0 <= j < Covered(width * height, jobs) ==>
      0 < height && Pixel(frame, j) == PixelBytes(at((j % height, j / height)))
    ensures forall p :: 4 * Covered(width * height, jobs) <= p < |frame| ==> frame[p] == 0
  {
    var pixels := new byte[width * height * 4](_ => 0);
    ghost var zeros := pixels[..];
    var positions := Positions(width, height);
    var size := |positions| / jobs;
    JobsFit(width * height, jobs);
    var bufs := RunJobs(positions, jobs, size, at);
    Collect(pixels, size, bufs, order);
    frame := pixels[..];
    AssembledIsFrame(bufs, 4 * size, order, zeros);
    RenderedFrame(bufs, size, positions, width, height, at, zeros);
  }

  /** The number of pixels the jobs render: jobs chunks of n / jobs. */
  function Covered(n: nat, jobs: nat): nat
    requires 0 < jobs
  {
    jobs * (n / jobs)
  }

  /** The jobs' pixels fit the image, and their bytes the pixel buffer. */
  lemma JobsFit(n: nat, jobs: nat)
    requires 0 < jobs
    ensures Covered(n, jobs) <= n
    ensures Start(jobs, 4 * (n / jobs)) == 4 * Covered(n, jobs) <= n * 4
  {
    assert n == jobs * (n / jobs) + n % jobs;
    StartIsProduct(jobs, 4 * (n / jobs));
    assert jobs * (4 * (n / jobs)) == 4 * (jobs * (n / jobs));
  }

  /** With the source's constants every pixel is rendered: 64 jobs of
      65536 pixels cover the 2048 x 2048 image exactly. */
  lemma SourceJobsCoverImage()
    ensures var n := 2048 * 2048;
      Covered(n, Jobs) == n && n / Jobs == 65536
  {
  }

  // Integer arithmetic the index reasoning needs.

  lemma MulMono(a: nat, b: nat, c: nat)
    requires a <= b
    ensures a * c <= b * c
  {
    MulNonNeg(b - a, c);
  }

  lemma MulNonNeg(a: int, b: int)
    requires 0 <= a && 0 <= b
    ensures 0 <= a * b
  {
  }

  lemma MulAtLeast(a: int, n: int)
    requires 0 < n
    ensures a >= 1 ==> a * n >= n
    ensures a <= -1 ==> a * n <= -n
  {
    if a >= 1 {
      MulNonNeg(a - 1, n);
    } else if a <= -1 {
      MulNonNeg(-1 - a, n);
    }
  }

  /** Euclidean division is determined by quotient and remainder. */
  lemma DivModUnique(p: int, n: int, q: int, r: int)
    requires 0 < n && 0 <= r < n && p == q * n + r
    ensures p / n == q && p % n == r
  {
    var q', r' := p / n, p % n;
    assert p == q' * n + r';
    assert (q - q') * n == r' - r;
    MulAtLeast(q - q', n);
  }

  lemma MulZero(count: int, width: int)
    ensures width == 0 ==> count * width == 0
  {
  }

  /** An index below count * width falls in block p / width < count. */
  lemma BlockOf(p: nat, width: nat, count: nat)
    requires p < count * width
    ensures 0 < width
    ensures p / width < count && p % width < width
    ensures (p / width) * width <= p < (p / width) * width + width
  {
    MulZero(count, width);
    assert 0 < width;
    assert p == (p / width) * width + p % width;
    MulAtLeast(p / width - count + 1, width);
    assert (p / width - count + 1) * width == (p / width) * width - count * width + width;
  }
}
