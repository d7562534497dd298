/**
 * `ScrapePlaywright.trim_to_encoder_size_generator`: the encoded page is cut into token
 * windows, and the unmodified page is always yielded last.
 *
 * The encoder is abstract: the caller passes the page text together with its token sequence,
 * and a window is reported as its token slice (what the generator decodes and yields).
 */
module Chunker {
  import opened Wrappers

  /** Tokens held back from every window for the prompt text and the reply. */
  const ExtraPromptOrGenerationTokens: int := 160

  /** The default `chunk_size` of the generator. */
  const DefaultChunkSize: int := 8192

  datatype Chunk<T> = Window(tokens: seq<T>) | WholePage(html: string)

  /** `range(0, n, 0)` raises `ValueError`. */
  datatype ChunkError = ZeroRangeStep

  function Min(a: int, b: int): (m: int) { if a <= b then a else b }

  /** How Python normalises one bound of a slice of a sequence of length `n`. */
  function SliceBound(n: nat, i: int): (k: nat)
    ensures k <= n
    ensures 0 <= i <= n ==> k == i
    ensures i > n ==> k == n
  {
    if i < 0 then (if i + n < 0 then 0 else i + n)
    else if i > n then n
    else i
  }

  /** Python's `s[lo:hi]`. */
  function PySlice<T>(s: seq<T>, lo: int, hi: int): (r: seq<T>)
    ensures 0 <= lo <= |s| && lo <= hi ==> r == s[lo..Min(hi, |s|)]
  {
    var a, b := SliceBound(|s|, lo), SliceBound(|s|, hi);
    if a <= b then s[a..b] else []
  }

  /** The values of Python's `range(i, stop, step)` for a positive `step`. */
  function RangeFrom(i: nat, stop: nat, step: int): (r: seq<nat>)
    requires step > 0
    ensures i < stop ==> r != [] && r[0] == i
    ensures i >= stop ==> r == []
    ensures forall k :: 0 <= k < |r| ==> i <= r[k] < stop
    decreases stop - i
  {
    if i >= stop then [] else [i] + RangeFrom(i + step, stop, step)
  }

  /** The window yielded for the `range` value `i`: `html_encoded[i : i + chunk_size - 160]`. */
  function WindowAt<T>(encoded: seq<T>, chunkSize: int, i: int): (window: Chunk<T>)
  {
    Window(PySlice(encoded, i, i + chunkSize - ExtraPromptOrGenerationTokens))
  }

  /** One window per `range` value, in order. */
  function WindowsAt<T>(encoded: seq<T>, chunkSize: int, starts: seq<nat>): (w: seq<Chunk<T>>)
    ensures |w| == |starts|
    ensures forall k :: 0 <= k < |w| ==> w[k].Window?
  {
    if starts == [] then [] else [WindowAt(encoded, chunkSize, starts[0])] + WindowsAt(encoded, chunkSize, starts[1..])
  }

  /** The `k`-th window is the one for the `k`-th start. */
  lemma {:induction false} WindowsAtIndex<T>(encoded: seq<T>, chunkSize: int, starts: seq<nat>, k: nat)
    requires k < |starts|
    ensures k < |WindowsAt(encoded, chunkSize, starts)|
    ensures WindowsAt(encoded, chunkSize, starts)[k] == WindowAt(encoded, chunkSize, starts[k])
    decreases k
  {
    if k > 0 {
      WindowsAtIndex(encoded, chunkSize, starts[1..], k - 1);
    }
  }

  /** The windows of `range(0, len(encoded), chunkSize)`; a negative step gives an empty range. */
  function Windows<T>(encoded: seq<T>, chunkSize: int): (w: seq<Chunk<T>>)
    ensures chunkSize <= 0 || encoded == [] ==> w == []
    ensures chunkSize > 0 && encoded != [] ==> w != []
    ensures forall k :: 0 <= k < |w| ==> w[k].Window?
  {
    if chunkSize > 0 then WindowsAt(encoded, chunkSize, RangeFrom(0, |encoded|, chunkSize)) else []
  }

  /** The first window starts at token 0. */
  lemma FirstWindow<T>(encoded: seq<T>, chunkSize: int)
    requires chunkSize > 0 && encoded != []
    ensures Windows(encoded, chunkSize) != []
    ensures Windows(encoded, chunkSize)[0] == Window(PySlice(encoded, 0, chunkSize - ExtraPromptOrGenerationTokens))
  {
    assert RangeFrom(0, |encoded|, chunkSize)[0] == 0;
  }

  /** Everything the generator yields, in order, or the error it raises before yielding. */
  function Trim<T>(html: string, encoded: seq<T>, chunkSize: int): (r: Result<seq<Chunk<T>>, ChunkError>)
    ensures r.Failure? <==> chunkSize == 0
    ensures r.Success? ==> |r.value| >= 1 && r.value[|r.value| - 1] == WholePage(html)
    ensures r.Success? ==> forall k :: 0 <= k < |r.value| - 1 ==> r.value[k].Window?
    ensures |encoded| <= chunkSize - ExtraPromptOrGenerationTokens ==> r == Success([WholePage(html)])
  {
    if |encoded| > chunkSize - ExtraPromptOrGenerationTokens then
      if chunkSize == 0 then Failure(ZeroRangeStep)
      else Success(Windows(encoded, chunkSize) + [WholePage(html)])
    else Success([WholePage(html)])
  }

  /** The generator, run to exhaustion: the yielded values are appended to a list. */
  method TrimToEncoderSize<T>(html: string, encoded: seq<T>, chunkSize: int)
    returns (r: Result<seq<Chunk<T>>, ChunkError>)
    ensures r == Trim(html, encoded, chunkSize)
  {
    var yielded: seq<Chunk<T>> := [];
    if |encoded| > chunkSize - ExtraPromptOrGenerationTokens {
      if chunkSize == 0 {
        return Failure(ZeroRangeStep);
      }
      if chunkSize > 0 {
        yielded := YieldWindows(encoded, chunkSize);
      }
      assert yielded == Windows(encoded, chunkSize);
    }
    yielded := yielded + [WholePage(html)];
    assert |encoded| <= chunkSize - ExtraPromptOrGenerationTokens ==> yielded == [WholePage(html)];
    return Success(yielded);
  }

  /** The `for i in range(0, len(html_encoded), chunk_size)` loop of the generator. */
  method YieldWindows<T>(encoded: seq<T>, chunkSize: int) returns (yielded: seq<Chunk<T>>)
    requires chunkSize > 0
    ensures yielded == Windows(encoded, chunkSize)
  {
    yielded := [];
    var i: nat := 0;
    WindowsRemaining(encoded, chunkSize, i, yielded);
    while i < |encoded|
      invariant yielded + WindowsAt(encoded, chunkSize, RangeFrom(i, |encoded|, chunkSize)) == Windows(encoded, chunkSize)
      decreases |encoded| - i
    {
      var window := Window(PySlice(encoded, i, i + chunkSize - ExtraPromptOrGenerationTokens));
      WindowsStepAppend(encoded, chunkSize, i, yielded);
      yielded := yielded + [window];
      i := i + chunkSize;
    }
    WindowsRemaining(encoded, chunkSize, i, yielded);
  }

  /** Before the loop nothing is yielded and every window remains; after it none remains. */
  lemma WindowsRemaining<T>(encoded: seq<T>, chunkSize: int, i: nat, yielded: seq<Chunk<T>>)
    requires chunkSize > 0
    ensures i == 0 && yielded == [] ==>
              yielded + WindowsAt(encoded, chunkSize, RangeFrom(i, |encoded|, chunkSize)) == Windows(encoded, chunkSize)
    ensures i >= |encoded| ==> WindowsAt(encoded, chunkSize, RangeFrom(i, |encoded|, chunkSize)) == []
  {
    if i >= |encoded| {
      assert RangeFrom(i, |encoded|, chunkSize) == [];
    }
    if i == 0 && yielded == [] {
      assert [] + WindowsAt(encoded, chunkSize, RangeFrom(0, |encoded|, chunkSize)) == WindowsAt(encoded, chunkSize, RangeFrom(0, |encoded|, chunkSize));
    }
  }

  /** One turn of the generator's loop keeps what is left to yield in step with `Windows`. */
  lemma WindowsStepAppend<T>(encoded: seq<T>, chunkSize: int, i: nat, yielded: seq<Chunk<T>>)
    requires chunkSize > 0 && i < |encoded|
    requires yielded + WindowsAt(encoded, chunkSize, RangeFrom(i, |encoded|, chunkSize)) == Windows(encoded, chunkSize)
    ensures yielded + [Window(PySlice(encoded, i, i + chunkSize - ExtraPromptOrGenerationTokens))]
              + WindowsAt(encoded, chunkSize, RangeFrom(i + chunkSize, |encoded|, chunkSize))
            == Windows(encoded, chunkSize)
  {
    var window := WindowAt(encoded, chunkSize, i);
    var rest := WindowsAt(encoded, chunkSize, RangeFrom(i + chunkSize, |encoded|, chunkSize));
    WindowsStep(encoded, chunkSize, i);
    assert yielded + [window] + rest == yielded + ([window] + rest);
  }

  /** Unrolling one `range` value. */
  lemma WindowsStep<T>(encoded: seq<T>, chunkSize: int, i: nat)
    requires chunkSize > 0 && i < |encoded|
    ensures WindowsAt(encoded, chunkSize, RangeFrom(i, |encoded|, chunkSize))
         == [WindowAt(encoded, chunkSize, i)] + WindowsAt(encoded, chunkSize, RangeFrom(i + chunkSize, |encoded|, chunkSize))
  {
    var r := RangeFrom(i, |encoded|, chunkSize);
    assert r[1..] == RangeFrom(i + chunkSize, |encoded|, chunkSize);
  }

  /** Where window `k` ends for a page of `n` tokens (it starts at `k * chunkSize`). */
  function WindowEnd(n: nat, chunkSize: int, k: nat): (end: int)
  {
    Min(n, k * chunkSize + chunkSize - ExtraPromptOrGenerationTokens)
  }

  /** Token position `p` lies in window `k`. */
  predicate InWindow(n: nat, chunkSize: int, k: nat, p: int)
  {
    k * chunkSize <= p < WindowEnd(n, chunkSize, k)
  }

  lemma MulMono(a: int, b: int, c: int)
    requires a <= b && c >= 0
    ensures a * c <= b * c
  {
    assert b * c - a * c == (b - a) * c;
  }

  lemma MulSucc(k: int, c: int)
    ensures k * c + c == (k + 1) * c
  {
  }

  /**
   * Below the budget the end bound of a window can be negative, and Python then counts it from
   * the end: 100 tokens with `chunk_size = 100` give `encoded[0:-60]`, the first 40 tokens.
   */
  lemma SmallChunkSizeWindow<T>(encoded: seq<T>)
    requires |encoded| == 100
    ensures Trim("page", encoded, 100) == Success([Window(encoded[..40]), WholePage("page")])
  {
    assert RangeFrom(100, 100, 100) == [];
    assert RangeFrom(0, 100, 100) == [0];
    assert WindowsAt(encoded, 100, [0]) == [WindowAt(encoded, 100, 0)];
    assert SliceBound(100, -60) == 40;
    assert PySlice(encoded, 0, -60) == encoded[..40];
    assert Windows(encoded, 100) == [Window(encoded[..40])];
    assert [Window(encoded[..40])] + [WholePage("page")] == [Window(encoded[..40]), WholePage("page")];
  }

  /**
   * A negative end bound runs the first window far past `chunkSize - 160` tokens: with
   * `chunk_size = 100`, 250 tokens give `encoded[0:-60]`, 190 tokens, then two empty windows.
   */
  lemma OversizedWindow<T>(encoded: seq<T>)
    requires |encoded| == 250
    ensures Trim("page", encoded, 100) == Success([Window(encoded[..190]), Window([]), Window([]), WholePage("page")])
  {
    assert RangeFrom(300, 250, 100) == [];
    assert RangeFrom(200, 250, 100) == [200];
    assert RangeFrom(100, 250, 100) == [100, 200];
    assert RangeFrom(0, 250, 100) == [0, 100, 200];
    assert PySlice(encoded, 0, -60) == encoded[..190];
    assert PySlice(encoded, 100, 40) == [];
    assert PySlice(encoded, 200, 140) == [];
    assert WindowsAt(encoded, 100, [200]) == [Window([])];
    assert WindowsAt(encoded, 100, [100, 200]) == [Window([]), Window([])];
    assert Windows(encoded, 100) == [Window(encoded[..190]), Window([]), Window([])];
    assert [Window(encoded[..190]), Window([]), Window([])] + [WholePage("page")]
        == [Window(encoded[..190]), Window([]), Window([]), WholePage("page")];
  }

  /** The `k`-th value of `range(i, stop, step)` is `i + k * step`. */
  lemma {:induction false} RangeAt(i: nat, stop: nat, step: int, k: nat)
    requires step > 0 && k < |RangeFrom(i, stop, step)|
    ensures RangeFrom(i, stop, step)[k] == i + k * step < stop
    decreases k
  {
    if k > 0 {
      RangeAt(i + step, stop, step, k - 1);
      MulSucc(k - 1, step);
    }
  }

  /** `range(i, stop, step)` has `c` values with `i + (c - 1) * step < stop <= i + c * step`. */
  lemma {:induction false} RangeCount(i: nat, stop: nat, step: int)
    requires step > 0
    ensures var c := |RangeFrom(i, stop, step)|;
            && (i >= stop ==> c == 0)
            && (i < stop ==> c > 0 && i + (c - 1) * step < stop <= i + c * step)
    decreases stop - i
  {
    if i < stop {
      RangeCount(i + step, stop, step);
      var c := |RangeFrom(i + step, stop, step)|;
      MulSucc(c, step);
      MulSucc(c - 1, step);
    }
  }

  lemma DivOfBounds(a: int, b: int, q: int)
    requires b > 0 && q * b <= a < q * b + b
    ensures a / b == q
  {
    var d, m := a / b, a % b;
    assert a == d * b + m && 0 <= m < b;
    if d < q { MulMono(d + 1, q, b); }
    if d > q { MulMono(q + 1, d, b); }
  }

  /**
   * A page longer than the budget yields ceil(n / chunkSize) windows and then the page.
   * Window `k` is the token slice from `k * chunkSize` to `WindowEnd`, so it holds at most
   * `chunkSize - 160` tokens.
   */
  lemma {:induction false} LongPageWindows<T>(html: string, encoded: seq<T>, chunkSize: int)
    requires chunkSize > ExtraPromptOrGenerationTokens
    requires |encoded| > chunkSize - ExtraPromptOrGenerationTokens
    ensures Trim(html, encoded, chunkSize).Success?
    ensures var ys := Trim(html, encoded, chunkSize).value;
            && |ys| - 1 == (|encoded| + chunkSize - 1) / chunkSize
            && ys[|ys| - 1] == WholePage(html)
            && forall k :: 0 <= k < |ys| - 1 ==>
                 && k * chunkSize < WindowEnd(|encoded|, chunkSize, k)
                 && ys[k] == Window(encoded[k * chunkSize..WindowEnd(|encoded|, chunkSize, k)])
                 && |ys[k].tokens| <= chunkSize - ExtraPromptOrGenerationTokens
  {
    var n := |encoded|;
    var ys := Trim(html, encoded, chunkSize).value;
    var w := Windows(encoded, chunkSize);
    assert ys == w + [WholePage(html)];
    WindowCount(encoded, chunkSize);
    forall k | 0 <= k < |ys| - 1
      ensures k * chunkSize < WindowEnd(n, chunkSize, k)
      ensures ys[k] == Window(encoded[k * chunkSize..WindowEnd(n, chunkSize, k)])
      ensures |ys[k].tokens| <= chunkSize - ExtraPromptOrGenerationTokens
    {
      WindowNumber(encoded, chunkSize, k);
      assert ys[k] == w[k];
    }
  }

  /** For a positive `chunkSize` there are ceil(n / chunkSize) windows. */
  lemma WindowCount<T>(encoded: seq<T>, chunkSize: int)
    requires chunkSize > 0
    ensures |Windows(encoded, chunkSize)| == |RangeFrom(0, |encoded|, chunkSize)|
    ensures |Windows(encoded, chunkSize)| == (|encoded| + chunkSize - 1) / chunkSize
  {
    var n := |encoded|;
    RangeCount(0, n, chunkSize);
    DivOfBounds(n + chunkSize - 1, chunkSize, |RangeFrom(0, n, chunkSize)|);
  }

  /** Window `k` of `Windows` is the slice from `k * chunkSize` to `WindowEnd`. */
  lemma WindowNumber<T>(encoded: seq<T>, chunkSize: int, k: nat)
    requires chunkSize > ExtraPromptOrGenerationTokens
    requires k < |RangeFrom(0, |encoded|, chunkSize)|
    ensures k < |Windows(encoded, chunkSize)|
    ensures k * chunkSize < WindowEnd(|encoded|, chunkSize, k)
    ensures Windows(encoded, chunkSize)[k] == Window(encoded[k * chunkSize..WindowEnd(|encoded|, chunkSize, k)])
  {
    var starts := RangeFrom(0, |encoded|, chunkSize);
    RangeAt(0, |encoded|, chunkSize, k);
    WindowsAtIndex(encoded, chunkSize, starts, k);
  }

  /**
   * Every window but the last spans exactly `chunkSize - 160` positions. By `LongPageWindows`,
   * window `k` of `Trim` holds the tokens from `k * chunkSize` to `WindowEnd(n, chunkSize, k)`;
   * `FullWindowsOfTrim` states the consequence for the generator's output.
   */
  lemma FullWindowsBeforeLast(n: nat, chunkSize: int, k: nat)
    requires chunkSize > ExtraPromptOrGenerationTokens
    requires k + 1 < (n + chunkSize - 1) / chunkSize
    ensures WindowEnd(n, chunkSize, k) - k * chunkSize == chunkSize - ExtraPromptOrGenerationTokens
  {
    var c := (n + chunkSize - 1) / chunkSize;
    assert c * chunkSize <= n + chunkSize - 1;
    MulMono(k + 2, c, chunkSize);
    assert (k + 2) * chunkSize == k * chunkSize + 2 * chunkSize;
  }

  /** In the generator's output, every window before the last holds `chunkSize - 160` tokens. */
  lemma FullWindowsOfTrim<T>(html: string, encoded: seq<T>, chunkSize: int, k: nat)
    requires chunkSize > ExtraPromptOrGenerationTokens
    requires |encoded| > chunkSize - ExtraPromptOrGenerationTokens
    requires Trim(html, encoded, chunkSize).Success? && k + 2 < |Trim(html, encoded, chunkSize).value|
    ensures Trim(html, encoded, chunkSize).value[k].Window?
    ensures |Trim(html, encoded, chunkSize).value[k].tokens| == chunkSize - ExtraPromptOrGenerationTokens
  {
    LongPageWindows(html, encoded, chunkSize);
    FullWindowsBeforeLast(|encoded|, chunkSize, k);
  }

  /**
   * Windows start in strictly increasing order, each one ending before the next begins. The
   * positions are those of the windows of `Trim`, as `LongPageWindows` gives them.
   */
  lemma WindowsOrdered(n: nat, chunkSize: int, j: nat, k: nat)
    requires chunkSize > ExtraPromptOrGenerationTokens && j < k
    ensures j * chunkSize < k * chunkSize
    ensures WindowEnd(n, chunkSize, j) < k * chunkSize
  {
    MulMono(j + 1, k, chunkSize);
    assert (j + 1) * chunkSize == j * chunkSize + chunkSize;
  }

  /** `c` windows reach just past the last token: `(c - 1) * chunkSize < n <= c * chunkSize`. */
  lemma CeilBounds(n: nat, chunkSize: int)
    requires chunkSize > 0 && n > 0
    ensures var c := (n + chunkSize - 1) / chunkSize;
            (c - 1) * chunkSize < n <= c * chunkSize
  {
    var a := n + chunkSize - 1;
    var c, m := a / chunkSize, a % chunkSize;
    assert a == c * chunkSize + m && 0 <= m < chunkSize;
    MulSucc(c - 1, chunkSize);
  }

  lemma DivMod(a: int, b: int)
    requires b > 0
    ensures a == (a / b) * b + a % b && 0 <= a % b < b
  {
  }

  /** Position `p` lies in block `p / chunkSize`, which has a window. */
  lemma BlockHasWindow(n: nat, chunkSize: int, p: nat)
    requires chunkSize > 0 && p < n
    ensures p / chunkSize < (n + chunkSize - 1) / chunkSize
  {
    var c, q := (n + chunkSize - 1) / chunkSize, p / chunkSize;
    DivMod(p, chunkSize);
    CeilBounds(n, chunkSize);
    if c <= q { MulMono(c, q, chunkSize); }
  }

  /**
   * A token position is in some window exactly when its offset within its `chunkSize` block
   * is below `chunkSize - 160`: the last 160 positions of every block are in no window.
   * `InWindow(n, chunkSize, k, p)` says that the token at `p` is one of those window `k` of
   * `Trim` holds, by `LongPageWindows`.
   */
  lemma CoveredIff(n: nat, chunkSize: int, p: nat)
    requires chunkSize > ExtraPromptOrGenerationTokens && p < n
    ensures (exists k: nat :: k < (n + chunkSize - 1) / chunkSize && InWindow(n, chunkSize, k, p))
        <==> p % chunkSize < chunkSize - ExtraPromptOrGenerationTokens
  {
    var c := (n + chunkSize - 1) / chunkSize;
    var q, m := p / chunkSize, p % chunkSize;
    DivMod(p, chunkSize);
    BlockHasWindow(n, chunkSize, p);
    if m < chunkSize - ExtraPromptOrGenerationTokens {
      assert InWindow(n, chunkSize, q, p);
    } else {
      forall k: nat | k < c ensures !InWindow(n, chunkSize, k, p) {
        Uncovered(n, chunkSize, q, k, p);
      }
    }
  }

  /** A position in the tail of block `q` is in no window `k`. */
  lemma Uncovered(n: nat, chunkSize: int, q: nat, k: nat, p: int)
    requires chunkSize > ExtraPromptOrGenerationTokens
    requires q * chunkSize + chunkSize - ExtraPromptOrGenerationTokens <= p < q * chunkSize + chunkSize
    ensures !InWindow(n, chunkSize, k, p)
  {
    if k < q {
      WindowsOrdered(n, chunkSize, k, q);
    } else if k > q {
      MulMono(q + 1, k, chunkSize);
      MulSucc(q, chunkSize);
    }
  }
}
