/**
 * The Python `str` built-ins the scraper relies on, over `string == seq<char>`:
 * `isspace`, `isdigit`, `strip()`, the `in` operator, `split(sep)[1]` and `split("\n")[0]`.
 */
module PyStrings {
  import opened Wrappers

  /** Python's `str.isspace` on one character: exactly the characters `strip()` removes. */
  predicate IsSpace(c: char): (b: bool)
    ensures c == ' ' || c == '\t' || c == '\n' || c == '\r' ==> b
    ensures b ==> !IsDigit(c)
  {
    || ('\t' <= c <= '\r')                  // tab, line feed, vertical tab, form feed, carriage return
    || ('\U{1C}' <= c <= '\U{1F}')          // file, group, record and unit separators
    || c == ' ' || c == '\U{85}' || c == '\U{A0}' || c == '\U{1680}'
    || ('\U{2000}' <= c <= '\U{200A}')
    || c == '\U{2028}' || c == '\U{2029}' || c == '\U{202F}' || c == '\U{205F}' || c == '\U{3000}'
  }

  /**
   * Python's `str.isdigit` on one character: the ASCII digits and the Unicode digit
   * blocks listed here (superscripts, subscripts, Arabic-Indic, Devanagari, full-width).
   */
  predicate IsDigit(c: char): (b: bool)
    ensures '0' <= c <= '9' ==> b
    ensures b ==> !('a' <= c <= 'z') && !('A' <= c <= 'Z')
  {
    || ('0' <= c <= '9')
    || c == '\U{B2}' || c == '\U{B3}' || c == '\U{B9}'
    || c == '\U{2070}' || ('\U{2074}' <= c <= '\U{2079}') || ('\U{2080}' <= c <= '\U{2089}')
    || ('\U{660}' <= c <= '\U{669}') || ('\U{6F0}' <= c <= '\U{6F9}')
    || ('\U{966}' <= c <= '\U{96F}') || ('\U{FF10}' <= c <= '\U{FF19}')
  }

  predicate AllSpace(s: string)
  {
    forall k :: 0 <= k < |s| ==> IsSpace(s[k])
  }

  /** Neither the first nor the last character is whitespace. */
  predicate Trimmed(s: string)
  {
    s == [] || (!IsSpace(s[0]) && !IsSpace(s[|s| - 1]))
  }

  /** `r` occurs in `s` at offset `i`, with nothing but whitespace before and after it. */
  predicate PaddedAt(s: string, r: string, i: int)
  {
    0 <= i && i + |r| <= |s| && s[i..i + |r|] == r && AllSpace(s[..i]) && AllSpace(s[i + |r|..])
  }

  /** The number of whitespace characters `s` starts with. */
  function LeadingSpaces(s: string): (n: nat)
    ensures n <= |s| && AllSpace(s[..n])
    ensures n == |s| || !IsSpace(s[n])
  {
    if s == [] || !IsSpace(s[0]) then 0
    else
      var m := LeadingSpaces(s[1..]);
      assert s[..1 + m] == [s[0]] + s[1..][..m];
      1 + m
  }

  /** The number of whitespace characters `s` ends with. */
  function TrailingSpaces(s: string): (n: nat)
    ensures n <= |s| && AllSpace(s[|s| - n..])
    ensures n == |s| || !IsSpace(s[|s| - 1 - n])
  {
    if s == [] || !IsSpace(s[|s| - 1]) then 0
    else
      var t := s[..|s| - 1];
      var m := TrailingSpaces(t);
      assert s[|s| - (1 + m)..] == t[|t| - m..] + [s[|s| - 1]];
      1 + m
  }

  /** Python's `str.strip()`: drop leading and trailing whitespace. */
  function Strip(s: string): (r: string)
    ensures Trimmed(r)
    ensures PaddedAt(s, r, LeadingSpaces(s))
  {
    var a := LeadingSpaces(s);
    if a == |s| then []
    else
      var b := TrailingSpaces(s);
      StripPadded(s, a, b);
      s[a..|s| - b]
  }

  /** Between a non-space first character and the trailing whitespace lies a trimmed string. */
  lemma StripPadded(s: string, a: nat, b: nat)
    requires a < |s| && AllSpace(s[..a]) && !IsSpace(s[a])
    requires b <= |s| && AllSpace(s[|s| - b..]) && (b == |s| || !IsSpace(s[|s| - 1 - b]))
    ensures a < |s| - b
    ensures Trimmed(s[a..|s| - b]) && PaddedAt(s, s[a..|s| - b], a)
  {
    var e := |s| - b;
    assert e > a by {
      forall k | e <= k < |s| ensures IsSpace(s[k]) {
        assert s[k] == s[e..][k - e];
      }
    }
    assert s[a..e][0] == s[a] && s[a..e][e - a - 1] == s[e - 1];
  }

  /** A whitespace prefix followed by a non-space (or the end) is exactly `LeadingSpaces`. */
  lemma LeadingUnique(s: string, i: nat)
    requires i <= |s| && AllSpace(s[..i]) && (i == |s| || !IsSpace(s[i]))
    ensures i == LeadingSpaces(s)
    decreases i
  {
    if i > 0 {
      assert IsSpace(s[0]) by { assert s[..i][0] == s[0]; }
      var t := s[1..][..i - 1];
      forall k | 0 <= k < |t| ensures IsSpace(t[k]) {
        assert t[k] == s[..i][k + 1];
      }
      LeadingUnique(s[1..], i - 1);
    }
  }

  /** The two properties in `Strip`'s contract determine its result. */
  lemma StripUnique(s: string, r: string, i: int)
    requires Trimmed(r) && PaddedAt(s, r, i)
    ensures r == Strip(s)
  {
    var r' := Strip(s);
    var a := LeadingSpaces(s);
    if r == [] {
      assert AllSpace(s) by {
        forall k | 0 <= k < |s| ensures IsSpace(s[k]) {
          if k < i { assert s[..i][k] == s[k]; } else { assert s[i..][k - i] == s[k]; }
        }
      }
      LeadingUnique(s, |s|);
    } else {
      assert s[i] == s[i..i + |r|][0];
      LeadingUnique(s, i);
      EndUnique(s, r, r', i);
    }
  }

  /** Two non-empty trimmed strings at the same offset, padded by whitespace, end at the same place. */
  lemma EndUnique(s: string, r: string, r': string, i: int)
    requires r != [] && Trimmed(r) && PaddedAt(s, r, i)
    requires Trimmed(r') && PaddedAt(s, r', i)
    ensures r == r'
  {
    var e, e' := i + |r|, i + |r'|;
    assert s[e - 1] == s[i..e][|r| - 1];
    if r' != [] {
      assert s[e' - 1] == s[i..e'][|r'| - 1];
    }
  }

  /** `pat` occurs in `s` starting at index `i`. */
  predicate OccursAt(s: string, pat: string, i: int)
  {
    0 <= i && i + |pat| <= |s| && s[i..i + |pat|] == pat
  }

  /** Python's `pat in s`. */
  predicate Contains(s: string, pat: string): (b: bool)
    ensures b <==> FindFrom(s, pat, 0).Some?
  {
    exists i :: 0 <= i <= |s| && OccursAt(s, pat, i)
  }

  /** The first occurrence of `pat` in `s` at or after `from`, if any (`s.find(pat, from)`). */
  function FindFrom(s: string, pat: string, from: nat): (r: Option<nat>)
    ensures r.Some? ==> from <= r.value && OccursAt(s, pat, r.value)
    ensures forall j :: from <= j && (r.None? || j < r.value) ==> !OccursAt(s, pat, j)
    decreases |s| - from
  {
    if from + |pat| > |s| then None
    else if s[from..from + |pat|] == pat then Some(from)
    else FindFrom(s, pat, from + 1)
  }

  /** A slice of a string that does not contain `pat` does not contain it either. */
  lemma SliceLacks(s: string, pat: string, i: int, j: int)
    requires 0 <= i <= j <= |s| && !Contains(s, pat)
    ensures !Contains(s[i..j], pat)
  {
    if Contains(s[i..j], pat) {
      var k :| 0 <= k <= |s[i..j]| && OccursAt(s[i..j], pat, k);
      OccursInSlice(s, pat, i, j, k);
    }
  }

  /** An occurrence inside a slice is an occurrence in the whole string, shifted. */
  lemma OccursInSlice(s: string, pat: string, i: int, j: int, k: int)
    requires 0 <= i <= j <= |s| && OccursAt(s[i..j], pat, k)
    ensures OccursAt(s, pat, i + k)
  {
    forall m | 0 <= m < |pat|
      ensures s[i + k..i + k + |pat|][m] == pat[m]
    {
      assert s[i..j][k..k + |pat|][m] == pat[m];
    }
  }

  /** A stretch of `s` in which `pat` starts nowhere does not contain `pat`. */
  lemma StretchLacks(s: string, pat: string, i: int, j: int)
    requires 0 <= i <= j <= |s| && |pat| > 0
    requires forall m :: i <= m < j ==> !OccursAt(s, pat, m)
    ensures !Contains(s[i..j], pat)
  {
    if Contains(s[i..j], pat) {
      var k :| 0 <= k <= j - i && OccursAt(s[i..j], pat, k);
      OccursInSlice(s, pat, i, j, k);
    }
  }

  /**
   * Python's `s.split(sep)[1]`: the text between the first and the second occurrence of
   * `sep`, or from the first occurrence to the end when there is no second one.
   */
  function SecondField(s: string, sep: string): (r: string)
    requires |sep| > 0 && Contains(s, sep)
    ensures FindFrom(s, sep, 0).Some?
    ensures var start := FindFrom(s, sep, 0).value + |sep|;
            && start + |r| <= |s| && s[start..start + |r|] == r
            && !Contains(r, sep)
            && (start + |r| == |s| || OccursAt(s, sep, start + |r|))
            && start + |r| == match FindFrom(s, sep, start) case None => |s| case Some(j) => j
  {
    var first := FindFrom(s, sep, 0);
    assert first.Some? by {
      var k :| 0 <= k <= |s| && OccursAt(s, sep, k);
    }
    var start := first.value + |sep|;
    var next := FindFrom(s, sep, start);
    var end := match next
      case None => |s|
      case Some(j) => j;
    assert start <= end <= |s|;
    StretchLacks(s, sep, start, end);
    var r := s[start..end];
    assert start + |r| == end;
    r
  }

  /** When `sep` occurs only at `i`, the second field is everything after that occurrence. */
  lemma SecondFieldOfSingle(s: string, sep: string, i: int)
    requires |sep| > 0 && 0 <= i && OccursAt(s, sep, i)
    requires forall j :: 0 <= j && j != i ==> !OccursAt(s, sep, j)
    ensures Contains(s, sep)
    ensures SecondField(s, sep) == s[i + |sep|..]
  {
    assert FindFrom(s, sep, 0) == Some(i);
    var r := SecondField(s, sep);
    assert !OccursAt(s, sep, i + |sep| + |r|);
  }

  /**
   * When `sep` occurs at `i` and next at `k`, with no occurrence before `k` other than `i`, the
   * second field is the text between them.
   */
  lemma SecondFieldOfTwo(s: string, sep: string, i: int, k: int)
    requires |sep| > 0 && 0 <= i && i + |sep| <= k
    requires OccursAt(s, sep, i) && OccursAt(s, sep, k)
    requires forall j :: 0 <= j < k && j != i ==> !OccursAt(s, sep, j)
    ensures Contains(s, sep)
    ensures SecondField(s, sep) == s[i + |sep|..k]
  {
    assert FindFrom(s, sep, 0) == Some(i);
    var next := FindFrom(s, sep, i + |sep|);
    assert next.Some? && next.value <= k;
    assert next == Some(k);
    var r := SecondField(s, sep);
    assert |r| == k - (i + |sep|);
  }

  /** Python's `s.split("\n")[0]`: everything before the first line feed. */
  function FirstLine(s: string): (r: string)
    ensures |r| <= |s| && r == s[..|r|]
    ensures '\n' !in r
    ensures |r| == |s| || s[|r|] == '\n'
  {
    if s == [] || s[0] == '\n' then [] else [s[0]] + FirstLine(s[1..])
  }

  /** A non-empty string that does not start with whitespace has a non-empty first line. */
  lemma FirstLineOfTrimmed(s: string)
    requires s != [] && Trimmed(s)
    ensures FirstLine(s) != []
  {
    assert IsSpace('\n');
  }
}
