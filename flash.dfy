/** `patch_flash`: the broken three-line opening of `def flash` (a call to a function that
    does not exist) is replaced, at its first occurrence, by the working opening. */
module FlashPatch {
  import opened Wrappers
  import opened Text

  /** `p` occurs in `t` at index `i` (stated character by character). */
  predicate LitAt(t: string, i: int, p: string) {
    0 <= i && i + |p| <= |t| && forall k :: 0 <= k < |p| ==> t[i + k] == p[k]
  }

  /** `t[a..b]` is what `\s*?\n\s*` matches: whitespace with at least one newline. */
  predicate GapRange(t: string, a: int, b: int) {
    0 <= a <= b <= |t| && (forall k :: a <= k < b ==> IsSpace(t[k]))
    && exists k :: a <= k < b && t[k] == '\n'
  }

  /** A match of `h\s*?\n\s*m\s*?\n\s*e` starting at `q`, whose middle literal `m` starts at
      `b` and whose last literal `e` starts at `d`; it ends at `d + |e|`. */
  predicate IsSite(t: string, q: int, b: int, d: int, h: string, m: string, e: string) {
    LitAt(t, q, h) && GapRange(t, q + |h|, b) && LitAt(t, b, m)
    && GapRange(t, b + |m|, d) && LitAt(t, d, e)
  }

  /** The end of the run of whitespace that starts at `a`. */
  function SpaceEnd(t: string, a: nat): (r: nat)
    requires a <= |t|
    decreases |t| - a
    ensures a <= r <= |t|
  {
    if a < |t| && IsSpace(t[a]) then SpaceEnd(t, a + 1) else a
  }

  lemma {:induction false} SpaceEndSpec(t: string, a: nat)
    requires a <= |t|
    decreases |t| - a
    ensures var r := SpaceEnd(t, a);
            (forall k :: a <= k < r ==> IsSpace(t[k])) && (r < |t| ==> !IsSpace(t[r]))
  {
    if a < |t| && IsSpace(t[a]) {
      SpaceEndSpec(t, a + 1);
    }
  }

  /** A gap followed by a non-space character is the whole whitespace run. */
  lemma GapIsRun(t: string, a: nat, b: int)
    requires GapRange(t, a, b) && b < |t| && !IsSpace(t[b])
    ensures SpaceEnd(t, a) == b
  {
    SpaceEndSpec(t, a);
  }

  /** `p` occurs in `t` at `i`, compared from the `k`-th character of `p` on. */
  function LitFrom(t: string, i: nat, p: string, k: nat): bool
    requires k <= |p|
    decreases |p| - k
  {
    i + |p| <= |t| && (k == |p| || (t[i + k] == p[k] && LitFrom(t, i, p, k + 1)))
  }

  lemma {:induction false} LitFromSpec(t: string, i: nat, p: string, k: nat)
    requires k <= |p|
    decreases |p| - k
    ensures LitFrom(t, i, p, k) <==>
            i + |p| <= |t| && forall j :: k <= j < |p| ==> t[i + j] == p[j]
  {
    if k < |p| {
      LitFromSpec(t, i, p, k + 1);
    }
  }

  /** Some character of `t[a..b]` is a newline. */
  function NewlineIn(t: string, a: nat, b: nat): bool
    requires b <= |t|
    decreases b - a
  {
    a < b && (t[a] == '\n' || NewlineIn(t, a + 1, b))
  }

  lemma {:induction false} NewlineInSpec(t: string, a: nat, b: nat)
    requires b <= |t|
    decreases b - a
    ensures NewlineIn(t, a, b) <==> exists k :: a <= k < b && t[k] == '\n'
  {
    if a < b {
      NewlineInSpec(t, a + 1, b);
    }
  }

  /** The matcher at one position: the starts of `m` and `e` when the pattern matches at
      `q`. With `m` and `e` starting with a non-space character, each lazy gap can only end
      where its whitespace run ends, so there is at most one match at `q`. */
  function SiteAt(t: string, q: nat, h: string, m: string, e: string): (r: Option<(nat, nat)>)
    requires q <= |t|
    ensures r.Some? ==> q + |h| <= r.value.0 && r.value.0 + |m| <= r.value.1
                        && r.value.1 + |e| <= |t|
  {
    if !LitFrom(t, q, h, 0) then None
    else
      var b := SpaceEnd(t, q + |h|);
      if !NewlineIn(t, q + |h|, b) || !LitFrom(t, b, m, 0) then None
      else
        var d := SpaceEnd(t, b + |m|);
        if !NewlineIn(t, b + |m|, d) || !LitFrom(t, d, e, 0) then None
        else Some((b, d))
  }

  /** The matcher finds only matches. */
  lemma SiteAtSound(t: string, q: nat, h: string, m: string, e: string)
    requires q <= |t| && SiteAt(t, q, h, m, e).Some?
    ensures var (b, d) := SiteAt(t, q, h, m, e).value; IsSite(t, q, b, d, h, m, e)
  {
    var (b, d) := SiteAt(t, q, h, m, e).value;
    LitFromSpec(t, q, h, 0);
    SpaceEndSpec(t, q + |h|);
    NewlineInSpec(t, q + |h|, b);
    LitFromSpec(t, b, m, 0);
    SpaceEndSpec(t, b + |m|);
    NewlineInSpec(t, b + |m|, d);
    LitFromSpec(t, d, e, 0);
  }

  /** The matcher finds every match. */
  lemma SiteAtComplete(t: string, q: nat, b: int, d: int, h: string, m: string, e: string)
    requires m != [] && e != [] && !IsSpace(m[0]) && !IsSpace(e[0])
    requires IsSite(t, q, b, d, h, m, e)
    ensures SiteAt(t, q, h, m, e) == Some((b, d))
  {
    assert t[b] == m[0];
    GapIsRun(t, q + |h|, b);
    assert t[d] == e[0];
    GapIsRun(t, b + |m|, d);
    LitFromSpec(t, q, h, 0);
    NewlineInSpec(t, q + |h|, b);
    LitFromSpec(t, b, m, 0);
    NewlineInSpec(t, b + |m|, d);
    LitFromSpec(t, d, e, 0);
  }

  /** The smallest `j` with `k <= j <= n` for which `hit(j)` holds. */
  function FindFirst(k: nat, n: nat, hit: nat -> bool): (r: Option<nat>)
    decreases n - k
    ensures r.Some? ==> k <= r.value <= n && hit(r.value)
    ensures r.Some? ==> forall j :: k <= j < r.value ==> !hit(j)
    ensures r.None? ==> forall j :: k <= j <= n ==> !hit(j)
  {
    if k > n then None else if hit(k) then Some(k) else FindFirst(k + 1, n, hit)
  }

  /** `re.search`'s scan: the leftmost position where the pattern matches. */
  function FindSite(t: string, h: string, m: string, e: string): (r: Option<nat>)
    ensures r.Some? ==> r.value <= |t| && SiteAt(t, r.value, h, m, e).Some?
    ensures r.Some? ==> forall j :: 0 <= j < r.value ==> SiteAt(t, j, h, m, e).None?
    ensures r.None? ==> forall j :: 0 <= j <= |t| ==> SiteAt(t, j, h, m, e).None?
  {
    var hit := (j: nat) => j <= |t| && SiteAt(t, j, h, m, e).Some?;
    assert forall j: nat :: hit(j) == (j <= |t| && SiteAt(t, j, h, m, e).Some?);
    FindFirst(0, |t|, hit)
  }

  /** `re.sub(pattern, fixed, t, count=1)`: the leftmost match is replaced by `fixed`. */
  function PatchSite(t: string, h: string, m: string, e: string, fixed: string): string {
    match FindSite(t, h, m, e)
    case None => t
    case Some(q) => t[..q] + fixed + t[SiteAt(t, q, h, m, e).value.1 + |e|..]
  }

  /** `if re.search(p, t): t = re.sub(p, fixed, t, count=1)`. */
  function SearchAndSub(t: string, h: string, m: string, e: string, fixed: string): string {
    if FindSite(t, h, m, e).Some? then PatchSite(t, h, m, e, fixed) else t
  }

  /** The search before the substitution changes nothing: without a match `re.sub` keeps
      the text too. */
  lemma SearchAndSubIsPatchSite(t: string, h: string, m: string, e: string, fixed: string)
    ensures SearchAndSub(t, h, m, e, fixed) == PatchSite(t, h, m, e, fixed)
  {
  }

  /** Both literals after the gaps start with a non-space character. */
  predicate Shape(h: string, m: string, e: string) {
    |h| >= 2 && m != [] && e != [] && !IsSpace(m[0]) && !IsSpace(e[0])
  }

  /** Without a match the text is unchanged. */
  lemma PatchSiteNoMatch(t: string, h: string, m: string, e: string, fixed: string)
    requires forall q, b, d :: !IsSite(t, q, b, d, h, m, e)
    ensures PatchSite(t, h, m, e, fixed) == t
  {
    var r := FindSite(t, h, m, e);
    if r.Some? {
      SiteAtSound(t, r.value, h, m, e);
    }
  }

  /** The scan stops at the leftmost match. */
  lemma FindSiteLeftmost(t: string, q: nat, b: int, d: int, h: string, m: string, e: string)
    requires Shape(h, m, e) && IsSite(t, q, b, d, h, m, e)
    requires forall j, b', d' :: 0 <= j < q ==> !IsSite(t, j, b', d', h, m, e)
    ensures FindSite(t, h, m, e) == Some(q)
  {
    SiteAtComplete(t, q, b, d, h, m, e);
    var r := FindSite(t, h, m, e);
    assert r.Some? && r.value <= q;
    SiteAtSound(t, r.value, h, m, e);
  }

  /** Only the leftmost match is replaced; the text around it is kept. */
  lemma PatchSiteLeftmost(t: string, q: nat, b: int, d: int, h: string, m: string, e: string,
                          fixed: string)
    requires Shape(h, m, e) && IsSite(t, q, b, d, h, m, e)
    requires forall j, b', d' :: 0 <= j < q ==> !IsSite(t, j, b', d', h, m, e)
    ensures PatchSite(t, h, m, e, fixed) == t[..q] + fixed + t[d + |e|..]
  {
    FindSiteLeftmost(t, q, b, d, h, m, e);
    SiteAtComplete(t, q, b, d, h, m, e);
  }

  /** The `k`-th character of a literal found at `i`. */
  lemma LitAtIndex(t: string, i: int, p: string, k: int)
    requires LitAt(t, i, p) && 0 <= k < |p|
    ensures t[i + k] == p[k]
  {
  }

  /** A gap ends before the first non-space character after its start. */
  lemma GapStop(t: string, a: int, b: int, c: int)
    requires GapRange(t, a, b) && b < |t| && !IsSpace(t[b])
    requires a <= c < |t| && !IsSpace(t[c]) && forall k :: a <= k < c ==> IsSpace(t[k])
    ensures b == c
  {
  }

  lemma LitMoves(t: string, u: string, i: int, s: int, p: string)
    requires LitAt(t, i, p) && 0 <= i + s && i + |p| + s <= |u|
    requires forall y :: i <= y < i + |p| ==> u[y + s] == t[y]
    ensures LitAt(u, i + s, p)
  {
    forall k | 0 <= k < |p| ensures u[i + s + k] == p[k] {
      assert u[(i + k) + s] == t[i + k];
    }
  }

  lemma GapMoves(t: string, u: string, a: int, b: int, s: int)
    requires GapRange(t, a, b) && 0 <= a + s && b + s <= |u|
    requires forall y :: a <= y < b ==> u[y + s] == t[y]
    ensures GapRange(u, a + s, b + s)
  {
    var k :| a <= k < b && t[k] == '\n';
    assert u[k + s] == '\n';
    forall y | a + s <= y < b + s ensures IsSpace(u[y]) {
      assert u[(y - s) + s] == t[y - s];
    }
  }

  /** A match only looks at the text it spans, so it survives being moved by `s` into a
      text that agrees with it there. */
  lemma SiteMoves(t: string, u: string, q: int, b: int, d: int, s: int,
                  h: string, m: string, e: string)
    requires IsSite(t, q, b, d, h, m, e)
    requires 0 <= q + s && d + |e| + s <= |u|
    requires forall y :: q <= y < d + |e| ==> u[y + s] == t[y]
    ensures IsSite(u, q + s, b + s, d + s, h, m, e)
  {
    LitMoves(t, u, q, s, h);
    GapMoves(t, u, q + |h|, b, s);
    LitMoves(t, u, b, s, m);
    GapMoves(t, u, b + |m|, d, s);
    LitMoves(t, u, d, s, e);
  }

  /** What makes the replacement text `fixed` unable to take part in a new match: a
      character `h[x]` that occurs once in `h`, once in `fixed` (at the same place), and
      never in `m`, `e` or a gap; `e` ends in a character absent from `fixed[..x]`; no
      start of `h` is at the end of `fixed`; and after `fixed`'s own copy of `h` the gap ends
      at `g` where `m` fails to match at its `mk`-th character. */
  ghost predicate Marks(h: string, m: string, e: string, fixed: string, x: int, g: int, mk: int) {
    && 0 <= x < |h| && x < |fixed| && fixed[x] == h[x] && !IsSpace(h[x])
    && (forall k :: 0 <= k < |h| && h[k] == h[x] ==> k == x)
    && (forall k :: 0 <= k < |fixed| && fixed[k] == h[x] ==> k == x)
    && (forall k :: 0 <= k < |m| ==> m[k] != h[x])
    && (forall k :: 0 <= k < |e| ==> e[k] != h[x])
    && |e| > 0 && (forall k :: 0 <= k < x ==> fixed[k] != e[|e| - 1])
    && (forall j :: |fixed| - x <= j < |fixed| && fixed[j] == h[0]
          ==> j + 1 < |fixed| && fixed[j + 1] != h[1])
    && |h| <= g < |fixed| && (forall k :: |h| <= k < g ==> IsSpace(fixed[k]))
    && !IsSpace(fixed[g]) && 0 <= mk < |m| && g + mk < |fixed| && fixed[g + mk] != m[mk]
  }

  /** Inside a match, the marker character `h[x]` occurs only in the copy of `h`. */
  lemma MarkerOnlyInHeader(t: string, q: int, b: int, d: int, h: string, m: string, e: string,
                           fixed: string, x: int, g: int, mk: int, y: int)
    requires Marks(h, m, e, fixed, x, g, mk) && IsSite(t, q, b, d, h, m, e)
    requires q <= y < d + |e| && t[y] == h[x]
    ensures y == q + x
  {
    if y < q + |h| {
      LitAtIndex(t, q, h, y - q);
    } else if b <= y < b + |m| {
      LitAtIndex(t, b, m, y - b);
    } else if d <= y {
      LitAtIndex(t, d, e, y - d);
    }
  }

  /** No match starts where `fixed` was put. */
  lemma NoSiteAtFixedStart(out: string, p: int, b: int, d: int, h: string, m: string,
                           e: string, fixed: string, x: int, g: int, mk: int)
    requires Shape(h, m, e) && Marks(h, m, e, fixed, x, g, mk)
    requires 0 <= p && p + |fixed| <= |out|
    requires forall y :: p <= y < p + |fixed| ==> out[y] == fixed[y - p]
    ensures !IsSite(out, p, b, d, h, m, e)
  {
    if IsSite(out, p, b, d, h, m, e) {
      LitAtIndex(out, b, m, 0);
      GapStop(out, p + |h|, b, p + g);
      LitAtIndex(out, b, m, mk);
    }
  }

  /** No match starts strictly inside `fixed`. */
  lemma NoSiteInsideFixed(out: string, p: int, q: int, b: int, d: int, h: string, m: string,
                          e: string, fixed: string, x: int, g: int, mk: int)
    requires Shape(h, m, e) && Marks(h, m, e, fixed, x, g, mk)
    requires 0 <= p < q < p + |fixed| && p + |fixed| <= |out|
    requires forall y :: p <= y < p + |fixed| ==> out[y] == fixed[y - p]
    ensures !IsSite(out, q, b, d, h, m, e)
  {
    if IsSite(out, q, b, d, h, m, e) {
      if q + x < p + |fixed| {
        LitAtIndex(out, q, h, x);
      } else {
        LitAtIndex(out, q, h, 0);
        LitAtIndex(out, q, h, 1);
      }
    }
  }

  /** No match starts before `fixed` and ends inside or after it. */
  lemma NoSiteAcrossFixed(out: string, p: int, q: int, b: int, d: int, h: string, m: string,
                          e: string, fixed: string, x: int, g: int, mk: int)
    requires Shape(h, m, e) && Marks(h, m, e, fixed, x, g, mk)
    requires 0 <= q < p < d + |e| && p + |fixed| <= |out|
    requires forall y :: p <= y < p + |fixed| ==> out[y] == fixed[y - p]
    ensures !IsSite(out, q, b, d, h, m, e)
  {
    if IsSite(out, q, b, d, h, m, e) {
      if d + |e| > p + x {
        MarkerOnlyInHeader(out, q, b, d, h, m, e, fixed, x, g, mk, p + x);
      } else {
      }
    }
  }

  /** Where each character of `code[..p] + fixed + code[n..]` comes from. */
  lemma Splice(code: string, p: int, n: int, fixed: string)
    requires 0 <= p <= n <= |code|
    ensures var out := code[..p] + fixed + code[n..];
            && |out| == p + |fixed| + (|code| - n)
            && (forall y :: 0 <= y < p ==> out[y] == code[y])
            && (forall y :: p <= y < p + |fixed| ==> out[y] == fixed[y - p])
            && (forall y :: p + |fixed| <= y < |out| ==> out[y] == code[y - p - |fixed| + n])
  {
  }

  /** Before `fixed` the text is the original one, which has no match there. */
  lemma NoSiteBeforeFixed(code: string, out: string, p: int, q: int, b: int, d: int,
                          h: string, m: string, e: string)
    requires Shape(h, m, e) && 0 <= q < p <= |code| && p <= |out| && d + |e| <= p
    requires forall j :: 0 <= j < p ==> SiteAt(code, j, h, m, e).None?
    requires forall y :: 0 <= y < p ==> out[y] == code[y]
    ensures !IsSite(out, q, b, d, h, m, e)
  {
    if IsSite(out, q, b, d, h, m, e) {
      SiteMoves(out, code, q, b, d, 0, h, m, e);
      SiteAtComplete(code, q, b, d, h, m, e);
    }
  }

  /** After `fixed` the text is the original one, moved by the change in length. */
  lemma SiteAfterFixed(code: string, out: string, s: int, q: int, b: int, d: int,
                       h: string, m: string, e: string)
    requires IsSite(out, q, b, d, h, m, e) && 0 <= q + s && |out| + s == |code|
    requires forall y :: q <= y < |out| ==> code[y + s] == out[y]
    ensures IsSite(code, q + s, b + s, d + s, h, m, e)
  {
    SiteMoves(out, code, q, b, d, s, h, m, e);
  }

  /** One match of the text after the replacement: it lies wholly after `fixed` and is a
      match of the original text, moved by the change in length. */
  lemma SiteAfterPatch(code: string, out: string, p: int, n: int, q: int, b: int, d: int,
                       h: string, m: string, e: string, fixed: string, x: int, g: int, mk: int)
    requires Shape(h, m, e) && Marks(h, m, e, fixed, x, g, mk)
    requires 0 <= p <= n <= |code| && |out| == p + |fixed| + (|code| - n)
    requires forall j :: 0 <= j < p ==> SiteAt(code, j, h, m, e).None?
    requires forall y :: 0 <= y < p ==> out[y] == code[y]
    requires forall y :: p <= y < p + |fixed| ==> out[y] == fixed[y - p]
    requires forall y :: p + |fixed| <= y < |out| ==> out[y] == code[y - p - |fixed| + n]
    requires IsSite(out, q, b, d, h, m, e)
    ensures p + |fixed| <= q
    ensures IsSite(code, q - p - |fixed| + n, b - p - |fixed| + n, d - p - |fixed| + n, h, m, e)
  {
    if q < p && d + |e| <= p {
      NoSiteBeforeFixed(code, out, p, q, b, d, h, m, e);
    } else if q < p {
      NoSiteAcrossFixed(out, p, q, b, d, h, m, e, fixed, x, g, mk);
    } else if q == p {
      NoSiteAtFixedStart(out, p, b, d, h, m, e, fixed, x, g, mk);
    } else if q < p + |fixed| {
      NoSiteInsideFixed(out, p, q, b, d, h, m, e, fixed, x, g, mk);
    } else {
      SiteAfterFixed(code, out, n - p - |fixed|, q, b, d, h, m, e);
    }
  }

  /** Every match of `code[..p] + fixed + code[n..]` is a moved match of `code`. */
  lemma SitesAfterSplice(code: string, out: string, p: int, n: int, h: string, m: string,
                         e: string, fixed: string, x: int, g: int, mk: int)
    requires Shape(h, m, e) && Marks(h, m, e, fixed, x, g, mk)
    requires 0 <= p <= n <= |code| && out == code[..p] + fixed + code[n..]
    requires forall j :: 0 <= j < p ==> SiteAt(code, j, h, m, e).None?
    ensures forall q, b, d :: IsSite(out, q, b, d, h, m, e) ==>
              (p + |fixed| <= q && IsSite(code, q - p - |fixed| + n, b - p - |fixed| + n,
                                          d - p - |fixed| + n, h, m, e))
  {
    Splice(code, p, n, fixed);
    forall q, b, d | IsSite(out, q, b, d, h, m, e)
      ensures p + |fixed| <= q && IsSite(code, q - p - |fixed| + n, b - p - |fixed| + n,
                                         d - p - |fixed| + n, h, m, e)
    {
      SiteAfterPatch(code, out, p, n, q, b, d, h, m, e, fixed, x, g, mk);
    }
  }

  /** A text with at most one match is left alone by a second application. */
  lemma PatchSiteOnce(code: string, h: string, m: string, e: string, fixed: string,
                      x: int, g: int, mk: int)
    requires Shape(h, m, e) && Marks(h, m, e, fixed, x, g, mk)
    requires forall q1, b1, d1, q2, b2, d2 ::
               (IsSite(code, q1, b1, d1, h, m, e) && IsSite(code, q2, b2, d2, h, m, e)) ==> q1 == q2
    ensures var out := PatchSite(code, h, m, e, fixed);
            PatchSite(out, h, m, e, fixed) == out
  {
    var out := PatchSite(code, h, m, e, fixed);
    if FindSite(code, h, m, e).Some? {
      var p := FindSite(code, h, m, e).value;
      var n := SiteAt(code, p, h, m, e).value.1 + |e|;
      SiteAtSound(code, p, h, m, e);
      SitesAfterSplice(code, out, p, n, h, m, e, fixed, x, g, mk);
      PatchSiteNoMatch(out, h, m, e, fixed);
    }
  }

  /** The pattern's pieces: the `def flash` line, the broken first statement and the start
      of the `append` call; and the replacement, which keeps the `def flash` line. */
  const HeaderStart: string := "def flash("
  const HeaderRest: string := "ind: str, text: str, " + "button: dict | None = None):"
  const FlashHeader: string := HeaderStart + ("k" + HeaderRest)
  const SessionQ: string := "q = st.session_state"
  const BuggyCall: string := SessionQ + ("_inject_css(" + "s.get(\"theme_mode\"))")
  const AppendOpen: string := "q.append({"
  const Indent: string := "\n    "
  const FixedGet: string := ".get(\"_flash\", [])"
  const FixedStore: string := "st.session_state" + "[\"_flash\"] = q"
  const FixedBody: string :=
    Indent + (SessionQ + (FixedGet + (Indent + (FixedStore + (Indent + AppendOpen)))))
  const FlashFixed: string := FlashHeader + FixedBody

  /** `patch_flash`: when the broken opening is found anywhere, its first occurrence is
      replaced by the working one. */
  function PatchFlash(code: string): string {
    SearchAndSub(code, FlashHeader, BuggyCall, AppendOpen, FlashFixed)
  }

  lemma HeaderFacts()
    ensures |FlashHeader| == 60 && FlashHeader[0] == 'd' && FlashHeader[1] == 'e'
    ensures FlashHeader[10] == 'k'
    ensures forall k :: 0 <= k < |FlashHeader| && FlashHeader[k] == 'k' ==> k == 10
  {
    assert 'k' !in HeaderStart && 'k' !in HeaderRest;
  }

  lemma BodyNoMarker()
    ensures 'k' !in FixedBody
  {
    assert 'k' !in Indent && 'k' !in SessionQ && 'k' !in FixedGet && 'k' !in FixedStore;
    assert 'k' !in AppendOpen;
  }

  lemma BodyStart()
    ensures |FixedBody| > 26 && FixedBody[5] == 'q' && FixedBody[25] == '.'
    ensures forall i :: 0 <= i < 5 ==> IsSpace(FixedBody[i])
  {
    var rest := FixedGet + (Indent + (FixedStore + (Indent + AppendOpen)));
    assert rest[0] == '.';
  }

  lemma BodyEnd()
    ensures |FixedBody| >= 10 && FixedBody[|FixedBody| - 10..] == AppendOpen
  {
  }

  lemma HeaderStartFacts()
    ensures |HeaderStart| == 10 && forall k :: 0 <= k < 10 ==> FlashHeader[k] != '{'
  {
    assert '{' !in HeaderStart;
  }

  lemma CallFacts()
    ensures |BuggyCall| > 20 && BuggyCall[0] == 'q' && BuggyCall[20] == '_'
    ensures 'k' !in BuggyCall
  {
    assert 'k' !in SessionQ;
  }

  lemma AppendFacts()
    ensures |AppendOpen| == 10 && AppendOpen[0] == 'q' && AppendOpen[9] == '{'
    ensures AppendOpen[8] == '(' && 'k' !in AppendOpen
    ensures forall i :: 0 <= i < 10 && AppendOpen[i] == 'd' ==> i == 7
  {
  }

  /** The replacement is the header followed by the body. */
  lemma FixedParts()
    ensures |FlashFixed| == |FlashHeader| + |FixedBody|
    ensures forall k :: 0 <= k < |FlashHeader| ==> FlashFixed[k] == FlashHeader[k]
    ensures forall i :: 0 <= i < |FixedBody| ==> FlashFixed[|FlashHeader| + i] == FixedBody[i]
  {
  }

  /** In the replacement, `k` occurs only in `kind`, at index 10. */
  lemma FixedMarker()
    ensures |FlashFixed| > 10 && FlashFixed[10] == 'k'
    ensures forall k :: 0 <= k < |FlashFixed| && FlashFixed[k] == 'k' ==> k == 10
  {
    HeaderFacts();
    BodyNoMarker();
    FixedParts();
    forall k | 60 <= k < |FlashFixed| ensures FlashFixed[k] != 'k' {
      assert FlashFixed[k] == FixedBody[k - 60];
    }
  }

  /** The replacement ends with `q.append({`, whose only `d` is followed by `(`. */
  lemma FixedTail()
    ensures forall j :: |FlashFixed| - 10 <= j < |FlashFixed| && FlashFixed[j] == 'd'
              ==> j + 1 < |FlashFixed| && FlashFixed[j + 1] != 'e'
  {
    BodyEnd();
    AppendFacts();
    FixedParts();
    var n := |FlashFixed| - 10;
    forall j | n <= j < |FlashFixed|
      ensures FlashFixed[j] == AppendOpen[j - n]
    {
      assert FlashFixed[j] == FixedBody[j - 60];
      assert FixedBody[|FixedBody| - 10..][j - n] == FixedBody[j - 60];
    }
  }

  /** After the replacement's header comes a newline, four spaces and `q = st.session_state.`,
      where the broken statement has `q = st.session_state_`. */
  lemma FixedGap()
    ensures |FlashFixed| > 85 && FlashFixed[65] == 'q' && FlashFixed[85] == '.'
    ensures forall k :: 60 <= k < 65 ==> IsSpace(FlashFixed[k])
  {
    HeaderFacts();
    BodyStart();
    FixedParts();
    assert FlashFixed[60 + 5] == FixedBody[5];
    assert FlashFixed[60 + 25] == FixedBody[25];
    forall k | 60 <= k < 65 ensures IsSpace(FlashFixed[k]) {
      assert FlashFixed[60 + (k - 60)] == FixedBody[k - 60];
    }
  }

  /** Both literals after the gaps start with `q`. */
  lemma FlashShape()
    ensures Shape(FlashHeader, BuggyCall, AppendOpen)
  {
    HeaderFacts();
    CallFacts();
    AppendFacts();
  }

  /** The flash pattern and its replacement meet the conditions under which a replacement
      creates no new match. */
  lemma FlashMarks()
    ensures Marks(FlashHeader, BuggyCall, AppendOpen, FlashFixed, 10, 65, 20)
  {
    HeaderFacts();
    HeaderStartFacts();
    CallFacts();
    AppendFacts();
    FixedParts();
    FixedMarker();
    FixedTail();
    FixedGap();
  }

  /** Without the broken opening, `patch_flash` changes nothing. */
  lemma PatchFlashNoMatch(code: string)
    requires forall q, b, d :: !IsSite(code, q, b, d, FlashHeader, BuggyCall, AppendOpen)
    ensures PatchFlash(code) == code
  {
    SearchAndSubIsPatchSite(code, FlashHeader, BuggyCall, AppendOpen, FlashFixed);
    PatchSiteNoMatch(code, FlashHeader, BuggyCall, AppendOpen, FlashFixed);
  }

  /** Only the first broken opening is replaced, and the text around it is kept. */
  lemma PatchFlashFirst(code: string, q: nat, b: int, d: int)
    requires IsSite(code, q, b, d, FlashHeader, BuggyCall, AppendOpen)
    requires forall j, b', d' ::
               0 <= j < q ==> !IsSite(code, j, b', d', FlashHeader, BuggyCall, AppendOpen)
    ensures PatchFlash(code) == code[..q] + FlashFixed + code[d + |AppendOpen|..]
  {
    FlashShape();
    SearchAndSubIsPatchSite(code, FlashHeader, BuggyCall, AppendOpen, FlashFixed);
    PatchSiteLeftmost(code, q, b, d, FlashHeader, BuggyCall, AppendOpen, FlashFixed);
  }

  /** A text with at most one broken opening is repaired by one application: a second one
      changes nothing. */
  lemma PatchFlashOnce(code: string)
    requires forall q1, b1, d1, q2, b2, d2 ::
               (IsSite(code, q1, b1, d1, FlashHeader, BuggyCall, AppendOpen)
                && IsSite(code, q2, b2, d2, FlashHeader, BuggyCall, AppendOpen)) ==> q1 == q2
    ensures PatchFlash(PatchFlash(code)) == PatchFlash(code)
  {
    FlashShape();
    FlashMarks();
    var out := PatchSite(code, FlashHeader, BuggyCall, AppendOpen, FlashFixed);
    SearchAndSubIsPatchSite(code, FlashHeader, BuggyCall, AppendOpen, FlashFixed);
    SearchAndSubIsPatchSite(out, FlashHeader, BuggyCall, AppendOpen, FlashFixed);
    PatchSiteOnce(code, FlashHeader, BuggyCall, AppendOpen, FlashFixed, 10, 65, 20);
  }

  lemma HeaderLacksJ()
    ensures 'j' !in FlashHeader
  {
    assert 'j' !in HeaderStart && 'j' !in HeaderRest;
  }

  lemma BodyLacksJ()
    ensures 'j' !in FixedBody
  {
    assert 'j' !in Indent && 'j' !in SessionQ && 'j' !in FixedGet;
    assert 'j' !in FixedStore && 'j' !in AppendOpen;
  }

  /** The replacement no longer holds the call to the missing function. */
  lemma FixedLacksBuggyCall()
    ensures !Contains(FlashFixed, BuggyCall)
  {
    HeaderLacksJ();
    BodyLacksJ();
    assert BuggyCall[23] == 'j';
    NotContainsChar(FlashFixed, BuggyCall, 'j');
  }
}
