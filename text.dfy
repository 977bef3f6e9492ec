/** The few Python `str` operations the patch engine and the application rely on
    (`in`, `replace`, `strip`, `isspace`), on strings as `seq<char>`. */
module Text {
  import opened Wrappers

  /** `pat` occurs in `s` starting at index `i`. */
  predicate OccursAt(s: string, pat: string, i: int) {
    0 <= i && i + |pat| <= |s| && s[i..i + |pat|] == pat
  }

  /** Python's `pat in s`. */
  predicate Contains(s: string, pat: string) {
    exists i :: 0 <= i <= |s| && OccursAt(s, pat, i)
  }

  /** `i` is the leftmost occurrence of `pat` in `s`. */
  predicate IsFirstOccurrence(s: string, pat: string, i: int) {
    OccursAt(s, pat, i) && forall j :: 0 <= j < i ==> !OccursAt(s, pat, j)
  }

  /** The leftmost occurrence of `pat` in `s` at or after index `k`. */
  function FindFrom(s: string, pat: string, k: nat): (r: Option<nat>)
    decreases |s| - k
    ensures r.Some? ==> k <= r.value && OccursAt(s, pat, r.value)
    ensures r.Some? ==> forall j :: k <= j < r.value ==> !OccursAt(s, pat, j)
    ensures r.None? ==> forall j :: k <= j ==> !OccursAt(s, pat, j)
  {
    if k + |pat| > |s| then None
    else if s[k..k + |pat|] == pat then Some(k)
    else FindFrom(s, pat, k + 1)
  }

  /** The leftmost index where `pat` occurs: `Some` exactly when Python's `pat in s` holds. */
  function Find(s: string, pat: string): (r: Option<nat>)
    ensures r.Some? <==> Contains(s, pat)
    ensures r.Some? ==> IsFirstOccurrence(s, pat, r.value)
  {
    FindFrom(s, pat, 0)
  }

  lemma FirstOccurrenceUnique(s: string, pat: string, i: int, j: int)
    requires IsFirstOccurrence(s, pat, i) && IsFirstOccurrence(s, pat, j)
    ensures i == j
  {
  }

  /** Python's `s.replace(pat, rep, 1)`: only the leftmost occurrence is replaced. */
  function ReplaceFirst(s: string, pat: string, rep: string): (r: string)
    ensures !Contains(s, pat) ==> r == s
    ensures forall i :: IsFirstOccurrence(s, pat, i) ==> r == s[..i] + rep + s[i + |pat|..]
  {
    match Find(s, pat)
    case None => s
    case Some(i) => s[..i] + rep + s[i + |pat|..]
  }

  /** Python's `s.replace(pat, rep)`: every non-overlapping occurrence, scanning left to right
      (an empty `pat` puts `rep` before every character and at the end). Without an
      occurrence the text is unchanged; the text before the first occurrence is kept; a
      replacement at least as long as the pattern never shortens the text. */
  function ReplaceAll(s: string, pat: string, rep: string): (r: string)
    decreases |s|
    ensures !Contains(s, pat) ==> r == s
    ensures forall i :: IsFirstOccurrence(s, pat, i) ==> i <= |r| && r[..i] == s[..i]
    ensures |rep| >= |pat| ==> |r| >= |s|
  {
    if |pat| == 0 then
      assert OccursAt(s, pat, 0);
      if |s| == 0 then rep else rep + [s[0]] + ReplaceAll(s[1..], pat, rep)
    else
      match Find(s, pat)
      case None => s
      case Some(i) => s[..i] + rep + ReplaceAll(s[i + |pat|..], pat, rep)
  }

  /** One step of `ReplaceAll` on a text where a non-empty pattern occurs. */
  lemma ReplaceAllStep(s: string, pat: string, rep: string)
    requires |pat| > 0 && Contains(s, pat)
    ensures Find(s, pat).Some? && Find(s, pat).value + |pat| <= |s|
    ensures var i := Find(s, pat).value;
            ReplaceAll(s, pat, rep) == s[..i] + rep + ReplaceAll(s[i + |pat|..], pat, rep)
  {
  }

  /** When the pattern occurs and the replacement is longer, the text grows. */
  lemma ReplaceAllGrows(s: string, pat: string, rep: string)
    requires |rep| > |pat| && Contains(s, pat)
    ensures |ReplaceAll(s, pat, rep)| > |s|
  {
    if |pat| > 0 {
      ReplaceAllStep(s, pat, rep);
      var i := Find(s, pat).value;
      var tail := ReplaceAll(s[i + |pat|..], pat, rep);
      assert |tail| >= |s| - i - |pat|;
    } else if |s| > 0 {
      var tail := ReplaceAll(s[1..], pat, rep);
      assert |tail| >= |s| - 1;
      assert ReplaceAll(s, pat, rep) == rep + [s[0]] + tail;
    }
  }

  /** When the pattern occurs, the result contains the replacement. */
  lemma ReplaceAllContainsRep(s: string, pat: string, rep: string)
    requires Contains(s, pat)
    ensures Contains(ReplaceAll(s, pat, rep), rep)
  {
    if |pat| == 0 {
      var r := ReplaceAll(s, pat, rep);
      assert r[..|rep|] == rep;
      assert OccursAt(r, rep, 0);
    } else {
      ReplaceAllStep(s, pat, rep);
      var i := Find(s, pat).value;
      var tail := ReplaceAll(s[i + |pat|..], pat, rep);
      var r := s[..i] + rep + tail;
      assert r[i..i + |rep|] == rep;
      assert OccursAt(r, rep, i);
    }
  }

  /** The pieces between the leftmost non-overlapping occurrences of a non-empty `pat`,
      scanning left to right (Python's `s.split(pat)`). */
  function Split(s: string, pat: string): (r: seq<string>)
    requires |pat| > 0
    decreases |s|
    ensures |r| >= 1
  {
    match Find(s, pat)
    case None => [s]
    case Some(i) => [s[..i]] + Split(s[i + |pat|..], pat)
  }

  /** Joining the pieces with `pat` gives `s` back, no piece holds `pat`, the first piece
      ends at the leftmost occurrence, and the other pieces are the split of the text after
      it, so every cut is made at the leftmost occurrence left to scan. */
  lemma {:induction false} SplitSpec(s: string, pat: string)
    requires |pat| > 0
    decreases |s|
    ensures Join(Split(s, pat), pat) == s
    ensures forall k :: 0 <= k < |Split(s, pat)| ==> !Contains(Split(s, pat)[k], pat)
    ensures Contains(s, pat) ==> IsFirstOccurrence(s, pat, |Split(s, pat)[0]|)
    ensures Contains(s, pat) ==> Split(s, pat)[1..] == Split(s[|Split(s, pat)[0]| + |pat|..], pat)
  {
    match Find(s, pat)
    case None =>
    case Some(i) =>
      var head, rest := s[..i], s[i + |pat|..];
      var r, tail := Split(s, pat), Split(rest, pat);
      assert r == [head] + tail;
      assert |r[0]| == i;
      assert r[1..] == tail;
      SplitSpec(rest, pat);
      assert Join(r, pat) == head + pat + Join(tail, pat);
      assert s == head + pat + rest by {
        assert s[i..i + |pat|] == pat;
      }
      BeforeFirstOccurrence(s, pat, i);
      forall k | 0 < k < |r| ensures r[k] == tail[k - 1] { }
  }

  /** The text before the leftmost occurrence of a non-empty pattern does not hold it. */
  lemma BeforeFirstOccurrence(s: string, pat: string, i: int)
    requires |pat| > 0 && IsFirstOccurrence(s, pat, i)
    ensures !Contains(s[..i], pat)
  {
    var head := s[..i];
    forall j | 0 <= j <= |head| ensures !OccursAt(head, pat, j) {
      if OccursAt(head, pat, j) {
        assert head[j..j + |pat|] == s[j..j + |pat|];
        assert OccursAt(s, pat, j);
      }
    }
  }

  /** `s.replace(pat, rep)` replaces every piece boundary: it is the pieces of `s` joined
      by `rep` instead of `pat`. */
  lemma {:induction false} ReplaceAllSplit(s: string, pat: string, rep: string)
    requires |pat| > 0
    decreases |s|
    ensures ReplaceAll(s, pat, rep) == Join(Split(s, pat), rep)
  {
    if Contains(s, pat) {
      ReplaceAllStep(s, pat, rep);
      var i := Find(s, pat).value;
      var rest := s[i + |pat|..];
      ReplaceAllSplit(rest, pat, rep);
      var tail := Split(rest, pat);
      assert Split(s, pat) == [s[..i]] + tail;
      assert ([s[..i]] + tail)[1..] == tail;
    }
  }

  /** An occurrence inside a middle piece is an occurrence in the whole. */
  lemma ContainsInfix(a: string, b: string, c: string, pat: string)
    requires Contains(b, pat)
    ensures Contains(a + b + c, pat)
  {
    var i :| 0 <= i <= |b| && OccursAt(b, pat, i);
    assert (a + b + c)[|a| + i..|a| + i + |pat|] == b[i..i + |pat|];
    assert OccursAt(a + b + c, pat, |a| + i);
  }

  /** Containment is transitive. */
  lemma ContainsTransitive(s: string, mid: string, pat: string)
    requires Contains(s, mid) && Contains(mid, pat)
    ensures Contains(s, pat)
  {
    var i :| 0 <= i <= |s| && OccursAt(s, mid, i);
    var j :| 0 <= j <= |mid| && OccursAt(mid, pat, j);
    forall k | 0 <= k < |pat| ensures s[i + j + k] == pat[k] {
      assert mid[j + k] == mid[j..j + |pat|][k];
      assert s[i + j + k] == s[i..i + |mid|][j + k];
    }
    assert s[i + j..i + j + |pat|] == pat;
    assert OccursAt(s, pat, i + j);
  }

  /** A pattern occurs in itself. */
  lemma ContainsSelf(s: string)
    ensures Contains(s, s)
  {
    assert OccursAt(s, s, 0);
  }

  /** A pattern with a character the text lacks cannot occur in it. */
  lemma NotContainsChar(s: string, pat: string, c: char)
    requires c in pat && c !in s
    ensures !Contains(s, pat)
  {
  }

  /** A pattern longer than the text cannot occur in it. */
  lemma NotContainsLonger(s: string, pat: string)
    requires |pat| > |s|
    ensures !Contains(s, pat)
  {
  }

  /** Python's `sep.join(lines)`. */
  function Join(lines: seq<string>, sep: string): string
    decreases |lines|
  {
    if |lines| == 0 then "" else if |lines| == 1 then lines[0] else lines[0] + sep + Join(lines[1..], sep)
  }

  /** The joined text starts with the first line, followed by the separator when a second
      line comes. */
  lemma JoinStart(lines: seq<string>, sep: string)
    requires |lines| > 0
    ensures |Join(lines, sep)| >= |lines[0]| && Join(lines, sep)[..|lines[0]|] == lines[0]
    ensures |lines| > 1 ==> |Join(lines, sep)| >= |lines[0]| + |sep|
                            && Join(lines, sep)[|lines[0]|..|lines[0]| + |sep|] == sep
  {
  }

  /** The first line occurs in the joined text. */
  lemma JoinContainsFirst(lines: seq<string>, sep: string)
    requires |lines| > 0
    ensures Contains(Join(lines, sep), lines[0])
  {
    JoinStart(lines, sep);
    assert OccursAt(Join(lines, sep), lines[0], 0);
  }

  /** Every line occurs in the joined text. */
  lemma {:induction false} JoinContainsLine(lines: seq<string>, sep: string, k: nat)
    requires k < |lines|
    decreases |lines|
    ensures Contains(Join(lines, sep), lines[k])
  {
    if k == 0 {
      JoinContainsFirst(lines, sep);
    } else {
      JoinContainsLine(lines[1..], sep, k - 1);
      ContainsInfix(lines[0] + sep, Join(lines[1..], sep), "", lines[k]);
      assert lines[0] + sep + Join(lines[1..], sep) + "" == Join(lines, sep);
    }
  }

  /** Changing the separator changes the length by one separator difference per gap. */
  lemma {:induction false} JoinLength(lines: seq<string>, a: string, b: string)
    requires |lines| > 0
    decreases |lines|
    ensures |Join(lines, a)| - |Join(lines, b)| == (|lines| - 1) * (|a| - |b|)
  {
    if |lines| > 1 {
      JoinLength(lines[1..], a, b);
    }
  }

  /** Python's `str.isspace()` for one character; `\s` in a `re` pattern over `str`
      matches exactly these characters too. */
  predicate IsSpace(c: char) {
    c == ' ' || '\t' <= c <= '\r' || '\U{1C}' <= c <= '\U{1F}' || c == '\U{85}' || c == '\U{A0}'
    || c == '\U{1680}' || '\U{2000}' <= c <= '\U{200A}' || c == '\U{2028}' || c == '\U{2029}'
    || c == '\U{202F}' || c == '\U{205F}' || c == '\U{3000}'
  }

  /** Every character of `s` is whitespace (also true of the empty string). */
  predicate IsBlank(s: string) {
    forall k :: 0 <= k < |s| ==> IsSpace(s[k])
  }

  /** Python's `s.lstrip()`. */
  function StripStart(s: string): string {
    if s != [] && IsSpace(s[0]) then StripStart(s[1..]) else s
  }

  /** `lstrip` drops a blank prefix and stops at the first non-space character. */
  lemma {:induction false} StripStartSpec(s: string)
    ensures var r := StripStart(s);
            |r| <= |s| && r == s[|s| - |r|..] && IsBlank(s[..|s| - |r|])
            && (r != [] ==> !IsSpace(r[0]))
  {
    if s != [] && IsSpace(s[0]) {
      StripStartSpec(s[1..]);
      var r := StripStart(s[1..]);
      assert StripStart(s) == r;
      assert s[1..][|s| - 1 - |r|..] == s[|s| - |r|..];
      var blank, rest := s[..|s| - |r|], s[1..][..|s| - 1 - |r|];
      forall k | 0 <= k < |blank| ensures IsSpace(blank[k]) {
        if k > 0 {
          assert blank[k] == rest[k - 1];
        }
      }
    } else {
      assert s[|s| - |s|..] == s;
    }
  }

  /** Python's `s.rstrip()`. */
  function StripEnd(s: string): string {
    if s != [] && IsSpace(s[|s| - 1]) then StripEnd(s[..|s| - 1]) else s
  }

  /** `rstrip` drops a blank suffix and stops at the last non-space character. */
  lemma {:induction false} StripEndSpec(s: string)
    ensures var r := StripEnd(s);
            |r| <= |s| && r == s[..|r|] && IsBlank(s[|r|..])
            && (r != [] ==> !IsSpace(r[|r| - 1]))
  {
    if s != [] && IsSpace(s[|s| - 1]) {
      var init := s[..|s| - 1];
      StripEndSpec(init);
      var r := StripEnd(init);
      assert StripEnd(s) == r;
      assert init[..|r|] == s[..|r|];
      var blank, rest := s[|r|..], init[|r|..];
      forall k | 0 <= k < |blank| ensures IsSpace(blank[k]) {
        if k < |rest| {
          assert blank[k] == rest[k];
        }
      }
    } else {
      assert s[..|s|] == s;
    }
  }

  /** Python's `s.strip()`. */
  function Strip(s: string): string {
    StripEnd(StripStart(s))
  }

  /** The result of `strip` is `s` without a blank prefix and a blank suffix; it neither
      starts nor ends with whitespace, and is empty exactly when `s` is blank. */
  lemma StripSpec(s: string)
    ensures var r := Strip(s);
            (exists a, b :: 0 <= a <= b <= |s| && r == s[a..b] && IsBlank(s[..a]) && IsBlank(s[b..]))
            && (r != [] ==> !IsSpace(r[0]) && !IsSpace(r[|r| - 1])) && (r == [] <==> IsBlank(s))
  {
    var t := StripStart(s);
    var r := StripEnd(t);
    StripStartSpec(s);
    StripEndSpec(t);
    var a := |s| - |t|;
    assert r == s[a..a + |r|];
    assert t[|r|..] == s[a + |r|..];
    assert r != [] ==> r[0] == t[0];
    assert t != [] ==> t[0] == s[|s| - |t|];
    assert t == [] ==> s[..|s| - |t|] == s;
  }
}
