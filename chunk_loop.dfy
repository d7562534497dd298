/**
 * The chunk loop of `ScrapePlaywright.run`: for each chunk the model proposes an XPath, the
 * page is queried with its first line, and the browser clicks the result. An unparsable or
 * empty proposal, or a query that raises, ends the run with an exception; a failed click moves
 * on to the next chunk; the first successful click leaves the loop.
 */
module ChunkLoop {
  import opened Wrappers
  import opened PyStrings
  import opened XPathReply
  import Chunker

  /**
   * What happened for one chunk: the model's reply text, whether evaluating the proposed
   * expression against the whole page raised, and whether the click on its result succeeded.
   */
  datatype ChunkOutcome = ChunkOutcome(reply: string, xpathRaises: bool, clickSucceeds: bool)

  datatype LoopError =
    | ReplyNotParsable   // the assertion in `generate_xpath` fails
    | EmptyXPath         // "No XPath expression generated for the href attribute"
    | XPathEvalFailed    // the lxml query raises

  /** What the loop does with one chunk. */
  datatype Step = Abort(error: LoopError) | Discard(selector: string) | Navigate(selector: string)

  /** How the loop ended. */
  datatype Stop = Aborted(error: LoopError) | Navigated(selector: string) | Exhausted

  /** The way out of the loop and the selectors whose click failed, in chunk order. */
  datatype LoopResult = LoopResult(stop: Stop, discarded: seq<string>)

  /** The decision the loop body takes for one chunk. */
  function StepOf(o: ChunkOutcome): (s: Step)
    ensures s == Abort(ReplyNotParsable) <==> !Contains(o.reply, XPathMarker)
    ensures s == Abort(EmptyXPath) <==> ParseXPathReply(o.reply) == Success("")
    ensures !s.Abort? ==> && s.selector != [] && '\n' !in s.selector && !Contains(s.selector, Fence)
                          && !o.xpathRaises
                          && (s.Navigate? <==> o.clickSucceeds)
    ensures s == Abort(XPathEvalFailed) <==>
              ParseXPathReply(o.reply).Success? && ParseXPathReply(o.reply).value != "" && o.xpathRaises
    ensures !s.Abort? ==> ParseXPathReply(o.reply).Success? && s.selector == FirstLine(ParseXPathReply(o.reply).value)
  {
    match ParseXPathReply(o.reply)
    case Failure(_) => Abort(ReplyNotParsable)
    case Success(xpath) =>
      if xpath == "" then Abort(EmptyXPath)
      else if o.xpathRaises then Abort(XPathEvalFailed)
      else
        var selector := FirstLine(xpath);
        FirstLineOfTrimmed(xpath);
        SliceLacks(xpath, Fence, 0, |selector|);
        if o.clickSucceeds then Navigate(selector) else Discard(selector)
  }

  /**
   * `r` is what the loop produces over `chunks`: every discarded selector comes from a chunk
   * whose click failed, and the loop stops at the first chunk that does not discard.
   */
  ghost predicate LoopOutcome<T>(chunks: seq<Chunker.Chunk<T>>, respond: (nat, Chunker.Chunk<T>) -> ChunkOutcome, r: LoopResult)
  {
    && |r.discarded| <= |chunks|
    && (forall j :: 0 <= j < |r.discarded| ==> StepOf(respond(j, chunks[j])) == Discard(r.discarded[j]))
    && (r.stop == Exhausted <==> |r.discarded| == |chunks|)
    && (r.stop.Aborted? ==> |r.discarded| < |chunks| && StepOf(respond(|r.discarded|, chunks[|r.discarded|])) == Abort(r.stop.error))
    && (r.stop.Navigated? ==> |r.discarded| < |chunks| && StepOf(respond(|r.discarded|, chunks[|r.discarded|])) == Navigate(r.stop.selector))
  }

  /**
   * The body of the loop for one chunk: parse the reply, refuse an empty expression, keep its
   * first line, query the page with it, then click. It is the statement form of `StepOf`.
   */
  method ChunkStep(outcome: ChunkOutcome) returns (step: Step)
    ensures step == StepOf(outcome)
  {
    var parsed := ParseXPathReply(outcome.reply);
    if parsed.Failure? {
      return Abort(ReplyNotParsable);
    }
    var xpath := parsed.value;
    if xpath == "" {
      return Abort(EmptyXPath);
    }
    var selector := FirstLine(xpath);
    if outcome.xpathRaises {
      return Abort(XPathEvalFailed);
    }
    if outcome.clickSucceeds {
      return Navigate(selector);
    }
    return Discard(selector);
  }

  /**
   * The loop over the chunks. `respond(k, chunk)` stands for the model call on the `k`-th chunk
   * and for the browser's behaviour with the resulting selector.
   */
  method RunChunkLoop<T>(chunks: seq<Chunker.Chunk<T>>, respond: (nat, Chunker.Chunk<T>) -> ChunkOutcome)
    returns (r: LoopResult)
    ensures LoopOutcome(chunks, respond, r)
  {
    var discarded: seq<string> := [];
    var k := 0;
    while k < |chunks|
      invariant k <= |chunks| && |discarded| == k
      invariant forall j :: 0 <= j < k ==> StepOf(respond(j, chunks[j])) == Discard(discarded[j])
    {
      var step := ChunkStep(respond(k, chunks[k]));
      match step {
        case Abort(error) =>
          return LoopResult(Aborted(error), discarded);
        case Navigate(selector) =>
          return LoopResult(Navigated(selector), discarded);
        case Discard(selector) =>
          DiscardedExtend(chunks, respond, discarded, selector);
          discarded := discarded + [selector];
          k := k + 1;
      }
    }
    return LoopResult(Exhausted, discarded);
  }

  /** A discarded chunk extends the list of discarded selectors by its own. */
  lemma DiscardedExtend<T>(chunks: seq<Chunker.Chunk<T>>, respond: (nat, Chunker.Chunk<T>) -> ChunkOutcome, discarded: seq<string>, selector: string)
    requires |discarded| < |chunks|
    requires forall j :: 0 <= j < |discarded| ==> StepOf(respond(j, chunks[j])) == Discard(discarded[j])
    requires StepOf(respond(|discarded|, chunks[|discarded|])) == Discard(selector)
    ensures forall j :: 0 <= j < |discarded| + 1 ==> StepOf(respond(j, chunks[j])) == Discard((discarded + [selector])[j])
  {
    forall j | 0 <= j < |discarded| + 1
      ensures StepOf(respond(j, chunks[j])) == Discard((discarded + [selector])[j])
    {
      if j < |discarded| {
        assert (discarded + [selector])[j] == discarded[j];
      }
    }
  }

  /** The loop's outcome is determined by the chunks and the responses. */
  lemma LoopOutcomeUnique<T>(chunks: seq<Chunker.Chunk<T>>, respond: (nat, Chunker.Chunk<T>) -> ChunkOutcome, r1: LoopResult, r2: LoopResult)
    requires LoopOutcome(chunks, respond, r1) && LoopOutcome(chunks, respond, r2)
    ensures r1 == r2
  {
    var n1, n2 := |r1.discarded|, |r2.discarded|;
    if n1 < n2 {
      assert false;
    } else if n2 < n1 {
      assert false;
    } else {
      assert r1.discarded == r2.discarded;
    }
  }

  /**
   * The body of `run` from the page text on: chunk the page with the default chunk size, then
   * run the loop over those chunks. The last chunk tried, if the loop gets that far, is the page.
   */
  method Run<T>(html: string, encoded: seq<T>, respond: (nat, Chunker.Chunk<T>) -> ChunkOutcome)
    returns (chunks: seq<Chunker.Chunk<T>>, r: LoopResult)
    ensures Chunker.Trim(html, encoded, Chunker.DefaultChunkSize) == Success(chunks)
    ensures LoopOutcome(chunks, respond, r)
    ensures chunks[|chunks| - 1] == Chunker.WholePage(html)
  {
    var generated := Chunker.TrimToEncoderSize(html, encoded, Chunker.DefaultChunkSize);
    chunks := generated.value;
    r := RunChunkLoop(chunks, respond);
  }
}
