/**
 * The reply-parsing tail of `ScrapePlaywright.generate_xpath`: locate the "```xpath" block,
 * take what follows it up to the next "```xpath", delete every "```" and strip whitespace.
 */
module XPathReply {
  import opened Wrappers
  import opened PyStrings

  /** A Markdown code fence. */
  const Fence: string := "```"

  /** The opening fence of the block the prompt asks the model for. */
  const XPathMarker: string := "```xpath"

  /** The assertion "No parsable xpath expression returned" fails. */
  datatype ParseError = MissingXPathBlock

  /** `re.sub("```", "", s)`: delete the fences found scanning left to right. */
  function RemoveFences(s: string): (r: string)
    ensures |r| <= |s|
    ensures forall c :: c in r ==> c in s
  {
    if StartsWith(s, Fence) then RemoveFences(s[3..])
    else if s == [] then []
    else [s[0]] + RemoveFences(s[1..])
  }

  predicate StartsWith(s: string, prefix: string)
  {
    |prefix| <= |s| && s[..|prefix|] == prefix
  }

  /** Fence removal never creates a leading pair of backticks. */
  lemma {:induction false} TwoTicksSurvive(s: string)
    ensures StartsWith(RemoveFences(s), "``") ==> StartsWith(s, "``")
  {
    if !StartsWith(s, Fence) && s != [] {
      var t := s[1..];
      assert RemoveFences(s) == [s[0]] + RemoveFences(t);
      if !StartsWith(t, Fence) && t != [] {
        assert RemoveFences(t) == [t[0]] + RemoveFences(t[1..]);
        assert s[..2] == [s[0], t[0]];
      }
    }
  }

  /** An occurrence past the first character of `[c] + t` is an occurrence in `t`. */
  lemma OccursAtCons(c: char, t: string, pat: string, i: int)
    requires i > 0
    ensures OccursAt([c] + t, pat, i) <==> OccursAt(t, pat, i - 1)
  {
    if i + |pat| <= 1 + |t| {
      assert ([c] + t)[i..i + |pat|] == t[i - 1..i - 1 + |pat|];
    }
  }

  /** Removing the fences leaves no fence behind, even where two pieces are joined. */
  lemma {:induction false} NoFenceAfterRemoval(s: string)
    ensures !Contains(RemoveFences(s), Fence)
    decreases |s|
  {
    if StartsWith(s, Fence) {
      NoFenceAfterRemoval(s[3..]);
    } else if s != [] {
      var rest := RemoveFences(s[1..]);
      NoFenceAfterRemoval(s[1..]);
      TwoTicksSurvive(s[1..]);
      var r := [s[0]] + rest;
      assert RemoveFences(s) == r;
      assert StartsWith(s[1..], "``") ==> s[..3] == [s[0]] + s[1..][..2];
      forall i | 0 <= i <= |r| ensures !OccursAt(r, Fence, i) {
        if i > 0 {
          OccursAtCons(s[0], rest, Fence, i);
        }
      }
    }
  }

  /** The characters of `s` other than backticks, in order. */
  function NonTicks(s: string): (r: string)
    ensures |r| <= |s|
    ensures '`' !in r
  {
    if s == [] then [] else (if s[0] == '`' then [] else [s[0]]) + NonTicks(s[1..])
  }

  /** Fence removal deletes backticks only: every other character stays, in order. */
  lemma {:induction false} RemoveFencesKeepsOthers(s: string)
    ensures NonTicks(RemoveFences(s)) == NonTicks(s)
    decreases |s|
  {
    if StartsWith(s, Fence) {
      RemoveFencesKeepsOthers(s[3..]);
      assert s[0] == '`' && s[1] == '`' && s[2] == '`' by {
        assert s[..3] == Fence;
      }
      calc {
        NonTicks(s);
        NonTicks(s[1..]);
        NonTicks(s[1..][1..]);
        { assert s[1..][1..][1..] == s[3..]; }
        NonTicks(s[1..][1..][1..]);
      }
    } else if s != [] {
      RemoveFencesKeepsOthers(s[1..]);
      var t := [s[0]] + RemoveFences(s[1..]);
      assert t[1..] == RemoveFences(s[1..]);
    }
  }

  /** Text without a fence is left unchanged. */
  lemma {:induction false} RemoveFencesFenceFree(s: string)
    requires !Contains(s, Fence)
    ensures RemoveFences(s) == s
    decreases |s|
  {
    if s != [] {
      assert !OccursAt(s, Fence, 0);
      SliceLacks(s, Fence, 1, |s|);
      assert s[1..|s|] == s[1..];
      RemoveFencesFenceFree(s[1..]);
      assert s == [s[0]] + s[1..];
    }
  }

  /** A run of `k` backticks. */
  function Ticks(k: nat): (t: string)
    ensures |t| == k
    ensures forall i :: 0 <= i < k ==> t[i] == '`'
  {
    if k == 0 then [] else ['`'] + Ticks(k - 1)
  }

  /**
   * A run of `k` backticks loses a fence for every three of them: `k % 3` backticks survive,
   * and the removal goes on after the run.
   */
  lemma {:induction false} RemoveFencesRun(k: nat, b: string)
    requires b == [] || b[0] != '`'
    ensures RemoveFences(Ticks(k) + b) == Ticks(k % 3) + RemoveFences(b)
    decreases k
  {
    if k >= 3 {
      RemoveFencesRun(k - 3, b);
      RunLongStep(k, b);
    } else if k > 0 {
      RemoveFencesRun(k - 1, b);
      RunShortStep(k, b);
    } else {
      assert Ticks(0) + b == b;
    }
  }

  /** One step of `RemoveFencesRun` for three or more backticks. */
  lemma RunLongStep(k: nat, b: string)
    requires k >= 3
    requires RemoveFences(Ticks(k - 3) + b) == Ticks((k - 3) % 3) + RemoveFences(b)
    ensures RemoveFences(Ticks(k) + b) == Ticks(k % 3) + RemoveFences(b)
  {
    RunDropsFence(k, b);
    ModThree(k);
  }

  /** One step of `RemoveFencesRun` for one or two backticks. */
  lemma RunShortStep(k: nat, b: string)
    requires 0 < k < 3 && (b == [] || b[0] != '`')
    requires RemoveFences(Ticks(k - 1) + b) == Ticks((k - 1) % 3) + RemoveFences(b)
    ensures RemoveFences(Ticks(k) + b) == Ticks(k % 3) + RemoveFences(b)
  {
    RunKeepsTick(k, b);
    ModThree(k);
    assert ['`'] + Ticks(k - 1) == Ticks(k);
    assert ['`'] + (Ticks(k - 1) + RemoveFences(b)) == Ticks(k) + RemoveFences(b);
  }

  lemma ModThree(k: nat)
    ensures k >= 3 ==> (k - 3) % 3 == k % 3
    ensures 0 < k < 3 ==> (k - 1) % 3 == k - 1 && k % 3 == k
  {
  }

  /** A run of three or more backticks starts with a fence, which is deleted. */
  lemma RunDropsFence(k: nat, b: string)
    requires k >= 3
    ensures RemoveFences(Ticks(k) + b) == RemoveFences(Ticks(k - 3) + b)
  {
    var s := Ticks(k) + b;
    assert s[..3] == Fence;
    assert s[3..] == Ticks(k - 3) + b;
  }

  /** A run of one or two backticks before a non-backtick is not a fence, so its first one stays. */
  lemma RunKeepsTick(k: nat, b: string)
    requires 0 < k < 3 && (b == [] || b[0] != '`')
    ensures RemoveFences(Ticks(k) + b) == ['`'] + RemoveFences(Ticks(k - 1) + b)
  {
    var s := Ticks(k) + b;
    assert !StartsWith(s, Fence) by {
      assert |s| < 3 || s[k] != '`';
    }
    assert s[1..] == Ticks(k - 1) + b;
  }

  /** Removal works piecewise across a cut that does not fall inside a run of backticks. */
  lemma {:induction false} RemoveFencesSplit(a: string, b: string)
    requires a == [] || a[|a| - 1] != '`'
    ensures RemoveFences(a + b) == RemoveFences(a) + RemoveFences(b)
    decreases |a|
  {
    if a == [] {
      assert a + b == b;
    } else if StartsWith(a, Fence) {
      RemoveFencesSplit(a[3..], b);
      FenceBeforeCut(a, b);
    } else {
      RemoveFencesSplit(a[1..], b);
      CharBeforeCut(a, b);
    }
  }

  /** A fence at the start of `a` is also the first thing removed from `a + b`. */
  lemma FenceBeforeCut(a: string, b: string)
    requires StartsWith(a, Fence)
    requires RemoveFences(a[3..] + b) == RemoveFences(a[3..]) + RemoveFences(b)
    ensures RemoveFences(a + b) == RemoveFences(a) + RemoveFences(b)
  {
    assert (a + b)[..3] == a[..3];
    assert (a + b)[3..] == a[3..] + b;
  }

  /** A first character of `a` that starts no fence stays, in `a + b` as in `a`. */
  lemma CharBeforeCut(a: string, b: string)
    requires a != [] && a[|a| - 1] != '`' && !StartsWith(a, Fence)
    requires RemoveFences(a[1..] + b) == RemoveFences(a[1..]) + RemoveFences(b)
    ensures RemoveFences(a + b) == RemoveFences(a) + RemoveFences(b)
  {
    NoFenceAcrossCut(a, b);
    assert (a + b)[1..] == a[1..] + b;
    assert [a[0]] + (RemoveFences(a[1..]) + RemoveFences(b)) == [a[0]] + RemoveFences(a[1..]) + RemoveFences(b);
  }

  /** `a + b` starts with a fence only if `a` does, when `a` does not end in a backtick. */
  lemma NoFenceAcrossCut(a: string, b: string)
    requires a != [] && a[|a| - 1] != '`' && !StartsWith(a, Fence)
    ensures !StartsWith(a + b, Fence)
  {
    var ab := a + b;
    if |a| >= 3 {
      assert ab[..3] == a[..3];
    } else if |ab| >= 3 {
      assert ab[..3][|a| - 1] == a[|a| - 1];
      assert Fence[|a| - 1] == '`';
    }
  }

  /** A string without backticks is left unchanged. */
  lemma {:induction false} RemoveFencesNoTicks(s: string)
    requires '`' !in s
    ensures RemoveFences(s) == s
    decreases |s|
  {
    if s != [] {
      assert s[0] in s;
      assert forall c :: c in s[1..] ==> c in s;
      RemoveFencesNoTicks(s[1..]);
    }
  }

  /** Removing fences from a backtick-free prefix keeps the prefix. */
  lemma RemoveFencesAfter(a: string, b: string)
    requires '`' !in a
    ensures RemoveFences(a + b) == a + RemoveFences(b)
  {
    if a != [] {
      assert a[|a| - 1] in a;
    }
    RemoveFencesSplit(a, b);
    RemoveFencesNoTicks(a);
  }

  /** A fence-free string has no fence in any part of it. */
  lemma PaddedLacks(s: string, r: string, i: int)
    requires !Contains(s, Fence) && PaddedAt(s, r, i)
    ensures !Contains(r, Fence)
  {
    SliceLacks(s, Fence, i, i + |r|);
  }

  /**
   * The parse: fail when the reply has no "```xpath"; otherwise the segment after the first
   * "```xpath" (up to a second one), without fences and without surrounding whitespace.
   */
  function ParseXPathReply(content: string): (r: Result<string, ParseError>)
    ensures r.Failure? <==> !Contains(content, XPathMarker)
    ensures r.Success? ==> !Contains(r.value, Fence) && Trimmed(r.value)
    ensures r.Success? ==>
              var removed := RemoveFences(SecondField(content, XPathMarker));
              PaddedAt(removed, r.value, LeadingSpaces(removed))
  {
    if !Contains(content, XPathMarker) then Failure(MissingXPathBlock)
    else
      var field := SecondField(content, XPathMarker);
      var removed := RemoveFences(field);
      var expr := Strip(removed);
      NoFenceAfterRemoval(field);
      PaddedLacks(removed, expr, LeadingSpaces(removed));
      Success(expr)
  }

  /** The reply layout the prompt asks for: "```xpath", a line with the expression, "```". */
  function FencedReply(pre: string, expr: string, post: string): (reply: string)
  {
    pre + XPathMarker + "\n" + expr + "\n" + Fence + post
  }

  /** The only "```xpath" in a well-formed reply is the opening one. */
  lemma NoSecondMarker(pre: string, expr: string, post: string, j: int)
    requires '`' !in pre && '`' !in expr && '`' !in post
    requires j >= 0 && j != |pre|
    requires j == |pre| + |expr| + 10 ==> !StartsWith(post, "xpath")
    ensures !OccursAt(FencedReply(pre, expr, post), XPathMarker, j)
  {
    var s := FencedReply(pre, expr, post);
    var c0 := |pre| + 9 + |expr| + 1;
    assert |s| == c0 + 3 + |post|;
    if j + 8 <= |s| {
      assert OccursAt(s, XPathMarker, j) ==> s[j] == '`' && s[j + 1] == '`' && s[j + 2] == '`' && s[j + 3] == 'x' by {
        if OccursAt(s, XPathMarker, j) {
          var w := s[j..j + 8];
          assert w == XPathMarker;
          assert w[0] == s[j] && w[1] == s[j + 1] && w[2] == s[j + 2] && w[3] == s[j + 3];
        }
      }
      assert s[|pre|..|pre| + 8] == XPathMarker;
      if j < |pre| {
        assert s[j] == pre[j] && pre[j] in pre;
      } else if j < |pre| + 8 {
      } else if j < c0 {
        if |pre| + 9 <= j < c0 - 1 {
          assert s[j] == expr[j - |pre| - 9] && expr[j - |pre| - 9] in expr;
        } else {
          assert s[j] == '\n';
        }
      } else if j == c0 {
        // a marker here would need `post` to start with "xpath"
        assert XPathMarker[3..] == "xpath";
        assert s[j..j + 8][3..] == post[..5];
      } else if j < c0 + 3 {
        assert s[j + 2] == post[j + 2 - c0 - 3] && post[j + 2 - c0 - 3] in post;
      } else {
        assert s[j] == post[j - c0 - 3] && post[j - c0 - 3] in post;
      }
    }
  }

  /** The first line of `e + rest` is `e` when `e` has no line feed and `rest` starts a new line. */
  lemma {:induction false} FirstLineOfPrefix(e: string, rest: string)
    requires '\n' !in e && (rest == [] || rest[0] == '\n')
    ensures FirstLine(e + rest) == e
    decreases |e|
  {
    if e != [] {
      assert e[0] in e;
      assert forall c :: c in e[1..] ==> c in e;
      assert (e + rest)[1..] == e[1..] + rest;
      FirstLineOfPrefix(e[1..], rest);
      assert e == [e[0]] + e[1..];
    } else {
      assert e + rest == rest;
    }
  }

  /** The segment of a well-formed reply runs from after "```xpath" to the end. */
  lemma ReplySegment(pre: string, expr: string, post: string)
    requires '`' !in pre && '`' !in expr && '`' !in post
    requires !StartsWith(post, "xpath")
    ensures Contains(FencedReply(pre, expr, post), XPathMarker)
    ensures SecondField(FencedReply(pre, expr, post), XPathMarker) == "\n" + expr + "\n" + Fence + post
  {
    MarkerOnlyAtPre(pre, expr, post);
    SecondFieldOfSingle(FencedReply(pre, expr, post), XPathMarker, |pre|);
  }

  /** A well-formed reply holds "```xpath" right after `pre` and nowhere else. */
  lemma MarkerOnlyAtPre(pre: string, expr: string, post: string)
    requires '`' !in pre && '`' !in expr && '`' !in post
    requires !StartsWith(post, "xpath")
    ensures OccursAt(FencedReply(pre, expr, post), XPathMarker, |pre|)
    ensures forall j :: 0 <= j && j != |pre| ==> !OccursAt(FencedReply(pre, expr, post), XPathMarker, j)
  {
    var s := FencedReply(pre, expr, post);
    assert s[|pre|..|pre| + 8] == XPathMarker;
    forall j | 0 <= j && j != |pre| ensures !OccursAt(s, XPathMarker, j) {
      NoSecondMarker(pre, expr, post, j);
    }
  }

  /**
   * When the text after the closing fence starts with "xpath", the closing fence opens a second
   * block, and the segment is the expression's line alone.
   */
  lemma ReplySegmentClosedByMarker(pre: string, expr: string, post: string)
    requires '`' !in pre && '`' !in expr && '`' !in post
    requires StartsWith(post, "xpath")
    ensures Contains(FencedReply(pre, expr, post), XPathMarker)
    ensures SecondField(FencedReply(pre, expr, post), XPathMarker) == "\n" + expr + "\n"
  {
    var s := FencedReply(pre, expr, post);
    var close := |pre| + |expr| + 10;
    FencedReplyParts(pre, expr, post);
    ClosingFenceIsMarker(pre, expr, post);
    forall j | 0 <= j < close && j != |pre| ensures !OccursAt(s, XPathMarker, j) {
      NoSecondMarker(pre, expr, post, j);
    }
    SecondFieldOfTwo(s, XPathMarker, |pre|, close);
  }

  /** A closing fence followed by "xpath" reads as a second "```xpath". */
  lemma ClosingFenceIsMarker(pre: string, expr: string, post: string)
    requires StartsWith(post, "xpath")
    ensures OccursAt(FencedReply(pre, expr, post), XPathMarker, |pre| + |expr| + 10)
  {
    var s := FencedReply(pre, expr, post);
    var close := |pre| + |expr| + 10;
    FencedReplyParts(pre, expr, post);
    calc {
      s[close..close + 8];
      (Fence + post)[..8];
      Fence + post[..5];
      XPathMarker;
    }
  }

  /** Where the pieces of a well-formed reply sit. */
  lemma FencedReplyParts(pre: string, expr: string, post: string)
    ensures var s := FencedReply(pre, expr, post);
            var close := |pre| + |expr| + 10;
            && |s| == close + 3 + |post|
            && s[|pre|..|pre| + 8] == XPathMarker
            && s[|pre| + 8..close] == "\n" + expr + "\n"
            && s[close..] == Fence + post
  {
    var s := FencedReply(pre, expr, post);
    var close := |pre| + |expr| + 10;
    assert s == pre + XPathMarker + ("\n" + expr + "\n") + (Fence + post);
  }

  /** What is left of a well-formed reply's segment once its fences are removed. */
  lemma SegmentWithoutFences(expr: string, post: string)
    requires '`' !in expr && '`' !in post
    ensures RemoveFences("\n" + expr + "\n" + Fence + post) == "\n" + expr + "\n" + post
  {
    var a := "\n" + expr + "\n";
    assert '`' !in a;
    assert a + (Fence + post) == "\n" + expr + "\n" + Fence + post;
    RemoveFencesAfter(a, Fence + post);
    assert (Fence + post)[3..] == post;
    RemoveFencesNoTicks(post);
  }

  /** Stripping "\n" + expr + "\n" + post keeps `expr` as the first line. */
  lemma StripAroundExpression(expr: string, post: string)
    requires expr != [] && Trimmed(expr) && '\n' !in expr
    ensures FirstLine(Strip("\n" + expr + "\n" + post)) == expr
  {
    var removed := "\n" + expr + "\n" + post;
    assert removed[0] == '\n' && removed[1] == expr[0];
    assert AllSpace(removed[..1]);
    LeadingUnique(removed, 1);
    var r := Strip(removed);
    assert PaddedAt(removed, r, 1);
    // the last character of `expr` is not whitespace, so the stripped text reaches past it
    assert removed[|expr|] == expr[|expr| - 1];
    forall k | 1 + |r| <= k < |removed| ensures IsSpace(removed[k]) {
      assert removed[1 + |r|..][k - 1 - |r|] == removed[k];
    }
    assert |expr| < 1 + |r|;
    assert r[..|expr|] == removed[1..1 + |expr|] == expr;
    assert r == expr + r[|expr|..];
    assert |r| > |expr| ==> r[|expr|] == removed[1 + |expr|] == '\n';
    FirstLineOfPrefix(expr, r[|expr|..]);
  }

  /** With only whitespace after the closing fence, stripping leaves exactly the expression. */
  lemma StripAroundOnlyExpression(expr: string, post: string)
    requires Trimmed(expr) && AllSpace(post)
    ensures Strip("\n" + expr + "\n" + post) == expr
  {
    var removed := "\n" + expr + "\n" + post;
    var tail := removed[1 + |expr|..];
    assert tail == "\n" + post;
    forall k | 0 <= k < |tail| ensures IsSpace(tail[k]) {
      if k > 0 {
        assert tail[k] == post[k - 1];
      }
    }
    assert removed[..1] == "\n";
    assert removed[1..1 + |expr|] == expr;
    assert PaddedAt(removed, expr, 1);
    StripUnique(removed, expr, 1);
  }

  /**
   * A reply in the requested layout parses to a string whose first line is the expression,
   * whatever backtick-free text follows the closing fence; with only whitespace after it, the
   * parse is exactly the expression.
   */
  lemma FencedReplyParses(pre: string, expr: string, post: string)
    requires '`' !in pre && '`' !in post
    requires expr != [] && Trimmed(expr) && '`' !in expr && '\n' !in expr
    ensures var r := ParseXPathReply(FencedReply(pre, expr, post));
            && r.Success?
            && FirstLine(r.value) == expr
            && (AllSpace(post) ==> r.value == expr)
  {
    if StartsWith(post, "xpath") {
      ReplySegmentClosedByMarker(pre, expr, post);
      RemoveFencesNoTicks("\n" + expr + "\n");
      StripAroundOnlyExpression(expr, []);
      assert "\n" + expr + "\n" + [] == "\n" + expr + "\n";
      FirstLineOfPrefix(expr, []);
      assert expr + [] == expr;
    } else {
      ReplySegment(pre, expr, post);
      SegmentWithoutFences(expr, post);
      StripAroundExpression(expr, post);
      if AllSpace(post) {
        StripAroundOnlyExpression(expr, post);
      }
    }
  }
}
