/**
 * The answer pipeline of `solve_audio_captcha`: join the transcript segments and strip the
 * result, keep only its digits, and type digit `i` into input field `i` while there are fields.
 */
module AudioCaptcha {
  import opened PyStrings

  /** `"".join(texts)`: the segment texts, concatenated in order. */
  function Join(texts: seq<string>): (r: string)
    ensures texts == [] ==> r == []
    ensures |texts| == 1 ==> r == texts[0]
    ensures forall i :: 0 <= i < |texts| ==> |texts[i]| <= |r|
  {
    if texts == [] then [] else texts[0] + Join(texts[1..])
  }

  lemma {:induction false} JoinAppend(a: seq<string>, b: seq<string>)
    ensures Join(a + b) == Join(a) + Join(b)
    decreases |a|
  {
    if a != [] {
      assert (a + b)[1..] == a[1..] + b;
      JoinAppend(a[1..], b);
    } else {
      assert a + b == b;
    }
  }

  /** The transcription: the joined segment texts without surrounding whitespace. */
  function Transcription(texts: seq<string>): (r: string)
    ensures Trimmed(r)
    ensures exists i :: PaddedAt(Join(texts), r, i)
  {
    Strip(Join(texts))
  }

  /** `"".join(filter(str.isdigit, s))`: the digits of `s`, in order. */
  function Digits(s: string): (r: string)
    ensures |r| <= |s|
    ensures forall k :: 0 <= k < |r| ==> IsDigit(r[k])
  {
    if s == [] then []
    else if IsDigit(s[0]) then [s[0]] + Digits(s[1..])
    else Digits(s[1..])
  }

  /** Filtering distributes over concatenation, so the digits keep their original order. */
  lemma {:induction false} DigitsAppend(a: string, b: string)
    ensures Digits(a + b) == Digits(a) + Digits(b)
    decreases |a|
  {
    if a != [] {
      assert (a + b)[0] == a[0];
      assert (a + b)[1..] == a[1..] + b;
      DigitsAppend(a[1..], b);
    } else {
      assert a + b == b;
    }
  }

  /** Every digit of `s` is kept, as often as it occurs, and nothing else is. */
  lemma {:induction false} DigitsCount(s: string, c: char)
    ensures multiset(Digits(s))[c] == if IsDigit(c) then multiset(s)[c] else 0
    decreases |s|
  {
    if s != [] {
      DigitsCount(s[1..], c);
      assert s == [s[0]] + s[1..];
      assert multiset(s) == multiset{s[0]} + multiset(s[1..]);
    }
  }

  /** A string of digits is its own digit filter. */
  lemma {:induction false} DigitsOfDigits(s: string)
    requires forall k :: 0 <= k < |s| ==> IsDigit(s[k])
    ensures Digits(s) == s
    decreases |s|
  {
    if s != [] {
      DigitsOfDigits(s[1..]);
      assert s == [s[0]] + s[1..];
    }
  }

  /** Whitespace holds no digit. */
  lemma {:induction false} DigitsOfSpace(s: string)
    requires AllSpace(s)
    ensures Digits(s) == []
    decreases |s|
  {
    if s != [] {
      assert IsSpace(s[0]);
      DigitsOfSpace(s[1..]);
    }
  }

  /** Stripping the transcription never changes the answer. */
  lemma DigitsIgnoreStrip(s: string)
    ensures Digits(Strip(s)) == Digits(s)
  {
    var r := Strip(s);
    var i := LeadingSpaces(s);
    assert s == s[..i] + r + s[i + |r|..];
    DigitsAppend(s[..i] + r, s[i + |r|..]);
    DigitsAppend(s[..i], r);
    DigitsOfSpace(s[..i]);
    DigitsOfSpace(s[i + |r|..]);
  }

  /** The answer typed into the challenge: the digits of the transcription. */
  function CaptchaSolution(texts: seq<string>): (r: string)
    ensures forall k :: 0 <= k < |r| ==> IsDigit(r[k])
    ensures r == Digits(Join(texts))
  {
    DigitsIgnoreStrip(Join(texts));
    Digits(Transcription(texts))
  }

  /**
   * `for i, char in enumerate(solution): if i < len(input_fields): input_fields[i].fill(char)`.
   * A field's content is modelled as the string last filled into it.
   */
  method FillInputFields(fields: array<string>, solution: string)
    modifies fields
    ensures forall i :: 0 <= i < fields.Length && i < |solution| ==> fields[i] == [solution[i]]
    ensures forall i :: |solution| <= i < fields.Length ==> fields[i] == old(fields[i])
  {
    for i := 0 to |solution|
      invariant forall k :: 0 <= k < fields.Length && k < i ==> fields[k] == [solution[k]]
      invariant forall k :: i <= k < fields.Length ==> fields[k] == old(fields[k])
    {
      if i < fields.Length {
        fields[i] := [solution[i]];
      }
    }
  }

  /** The transcript-to-fields part of `solve_audio_captcha`. */
  method SolveAudioCaptcha(texts: seq<string>, fields: array<string>) returns (solution: string)
    modifies fields
    ensures solution == Digits(Join(texts))
    ensures forall i :: 0 <= i < fields.Length && i < |solution| ==> fields[i] == [solution[i]]
    ensures forall i :: |solution| <= i < fields.Length ==> fields[i] == old(fields[i])
  {
    solution := CaptchaSolution(texts);
    FillInputFields(fields, solution);
  }
}
