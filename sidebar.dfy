/** `patch_sidebar` (apply_patch.py): the first `st.set_page_config(...)` call gets
    `initial_sidebar_state="expanded"` as its last argument, unless that call already
    mentions `initial_sidebar_state`.

    The regular expression `st\.set_page_config\(([^)]*?)\)` with `count=1` is modelled by a
    matcher for this one shape, written for any call prefix `call`; `PatchSidebar` is that
    matcher applied to `st.set_page_config(`. */
module Sidebar {
  import opened Wrappers
  import opened Text

  const ConfigCall: string := "st.set_page_config("
  const SidebarKey: string := "initial_sidebar_state"
  const SidebarSetting: string := SidebarKey + "=\"expanded\""

  /** No `)` in `s`. */
  ghost predicate NoCloseParen(s: string) {
    forall k :: 0 <= k < |s| ==> s[k] != ')'
  }

  /** The pattern `call([^)]*?)` followed by `)` matches `code[i..j + 1]`: `call` occurs at `i`
      and `j` is the first `)` after it. */
  ghost predicate CallAt(code: string, call: string, i: int, j: int) {
    OccursAt(code, call, i) && i + |call| <= j < |code| && code[j] == ')'
    && NoCloseParen(code[i + |call|..j])
  }

  /** `code[i..j + 1]` is the match a substitution with `count=1` rewrites: the call at the
      first occurrence of `call` (`FirstCallIsLeftmost` shows it is the leftmost match). */
  ghost predicate FirstCallAt(code: string, call: string, i: int, j: int) {
    CallAt(code, call, i, j) && IsFirstOccurrence(code, call, i)
  }

  /** Two occurrences of `call` never overlap: wherever `call` restarts inside itself, its
      second character does not follow. */
  ghost predicate Unbordered(call: string) {
    2 <= |call| &&
    forall d :: 0 < d < |call| && call[d] == call[0] ==> d + 1 < |call| && call[d + 1] != call[1]
  }

  lemma CloseParenAt(s: string, k: int)
    requires 0 <= k < |s|
    ensures OccursAt(s, ")", k) <==> s[k] == ')'
  {
    assert s[k..k + 1] == [s[k]];
  }

  /** The first `)` after an occurrence of `call` closes a match. */
  lemma FirstCloseParen(code: string, call: string, i: int)
    requires OccursAt(code, call, i)
    requires FindFrom(code, ")", i + |call|).Some?
    ensures CallAt(code, call, i, FindFrom(code, ")", i + |call|).value)
  {
    var j := FindFrom(code, ")", i + |call|).value;
    CloseParenAt(code, j);
    var a := code[i + |call|..j];
    forall k | 0 <= k < |a| ensures a[k] != ')' { CloseParenAt(code, i + |call| + k); }
  }

  /** The match `re.sub(..., count=1)` rewrites: where the call opens and where it closes. */
  function CallMatch(code: string, call: string): (r: Option<(nat, nat)>)
    ensures r.Some? ==> FirstCallAt(code, call, r.value.0, r.value.1)
    ensures r.None? ==> forall i, j :: !CallAt(code, call, i, j)
  {
    var first := Find(code, call);
    if first.None? then None
    else
      var i := first.value;
      var close := FindFrom(code, ")", i + |call|);
      if close.None? then
        assert forall i', j' :: !CallAt(code, call, i', j') by {
          forall i', j' | CallAt(code, call, i', j') ensures false {
            CloseParenAt(code, j');
          }
        }
        None
      else
        FirstCloseParen(code, call, i);
        Some((i, close.value))
  }

  /** The call at the first occurrence of `call` is the leftmost match: every match opens
      there or later. */
  lemma FirstCallIsLeftmost(code: string, call: string, i: int, j: int)
    requires CallAt(code, call, i, j)
    ensures FirstCallAt(code, call, i, j) <==> forall i', j' :: CallAt(code, call, i', j') ==> i <= i'
  {
    if !IsFirstOccurrence(code, call, i) {
      var i' :| 0 <= i' < i && OccursAt(code, call, i');
      CloseParenAt(code, j);
      FirstCloseParen(code, call, i');
    }
  }

  lemma FirstCallUnique(code: string, call: string, i: int, j: int, i': int, j': int)
    requires FirstCallAt(code, call, i, j) && FirstCallAt(code, call, i', j')
    ensures i == i' && j == j'
  {
    FirstOccurrenceUnique(code, call, i, i');
  }

  /** The new argument list: the old arguments and `, ` unless they are blank (`strip()` is
      empty), then the setting. */
  function AddArgument(args: string, setting: string): string {
    (if Strip(args) != [] then args + ", " else "") + setting
  }

  /** The text with the call `code[i..j + 1]` replaced by the call with the setting added. */
  function RewriteCall(code: string, call: string, i: nat, j: nat, setting: string): string
    requires i + |call| <= j < |code|
  {
    code[..i] + call + AddArgument(code[i + |call|..j], setting) + ")" + code[j + 1..]
  }

  /** The replacement function applied to the match `code[i..j + 1]`: the match itself when
      it mentions `key`, the rewritten call otherwise. */
  function PatchCallAt(code: string, call: string, key: string, setting: string, i: nat, j: nat): string
    requires i + |call| <= j < |code|
  {
    if Contains(code[i..j + 1], key) then code else RewriteCall(code, call, i, j, setting)
  }

  /** The substitution with `count=1`: the leftmost match only, or nothing without one. */
  function PatchFirstCall(code: string, call: string, key: string, setting: string): string {
    var m := CallMatch(code, call);
    if m.None? then code else PatchCallAt(code, call, key, setting, m.value.0, m.value.1)
  }

  /** `patch_sidebar`. */
  function PatchSidebar(code: string): string {
    PatchFirstCall(code, ConfigCall, SidebarKey, SidebarSetting)
  }

  lemma PatchFirstCallAt(code: string, call: string, key: string, setting: string, i: nat, j: nat)
    requires FirstCallAt(code, call, i, j)
    ensures PatchFirstCall(code, call, key, setting) == PatchCallAt(code, call, key, setting, i, j)
  {
    var m := CallMatch(code, call);
    FirstCallUnique(code, call, i, j, m.value.0, m.value.1);
  }

  lemma PatchFirstCallKeeps(code: string, call: string, key: string, setting: string, i: nat, j: nat)
    requires FirstCallAt(code, call, i, j) && Contains(code[i..j + 1], key)
    ensures PatchFirstCall(code, call, key, setting) == code
  {
    PatchFirstCallAt(code, call, key, setting, i, j);
  }

  lemma PatchFirstCallRewrites(code: string, call: string, key: string, setting: string, i: nat, j: nat)
    requires FirstCallAt(code, call, i, j) && !Contains(code[i..j + 1], key)
    ensures PatchFirstCall(code, call, key, setting) == RewriteCall(code, call, i, j, setting)
  {
    PatchFirstCallAt(code, call, key, setting, i, j);
  }

  lemma AddArgumentNoParen(args: string, setting: string)
    requires NoCloseParen(args) && NoCloseParen(setting)
    ensures NoCloseParen(AddArgument(args, setting))
  {
    var pre := if Strip(args) != [] then args + ", " else "";
    assert NoCloseParen(pre);
  }

  /** Where two occurrences overlap, the later one starts inside the earlier one. */
  lemma OverlapStart(s: string, call: string, a: int, b: int)
    requires 2 <= |call| && OccursAt(s, call, a) && OccursAt(s, call, b) && a < b < a + |call|
    ensures call[b - a] == call[0] && (b - a + 1 < |call| ==> call[b - a + 1] == call[1])
  {
    assert s[a..a + |call|][b - a] == s[b..b + |call|][0];
    if b - a + 1 < |call| {
      assert s[a..a + |call|][b - a + 1] == s[b..b + |call|][1];
    }
  }

  /** A call placed right after a prefix free of it is the first occurrence. */
  lemma FirstAfterPrefix(p: string, call: string, rest: string)
    requires Unbordered(call)
    requires forall i' :: 0 <= i' && i' + |call| <= |p| ==> !OccursAt(p, call, i')
    ensures IsFirstOccurrence(p + call + rest, call, |p|)
  {
    var out := p + call + rest;
    assert out[|p|..|p| + |call|] == call;
    forall i' | 0 <= i' < |p| ensures !OccursAt(out, call, i') {
      if OccursAt(out, call, i') {
        if i' + |call| <= |p| {
          assert out[i'..i' + |call|] == p[i'..i' + |call|];
          assert OccursAt(p, call, i');
        } else {
          OverlapStart(out, call, i', |p|);
        }
      }
    }
  }

  /** After the rewrite the leftmost match is the rewritten call, closing right after the
      setting. */
  lemma RewrittenCallIsFirst(code: string, call: string, i: nat, j: nat, setting: string)
    requires FirstCallAt(code, call, i, j) && Unbordered(call) && NoCloseParen(setting)
    ensures FirstCallAt(RewriteCall(code, call, i, j, setting), call, i,
                        i + |call| + |AddArgument(code[i + |call|..j], setting)|)
  {
    var args := AddArgument(code[i + |call|..j], setting);
    AddArgumentNoParen(code[i + |call|..j], setting);
    var p := code[..i];
    var out := p + call + (args + ")" + code[j + 1..]);
    assert out == RewriteCall(code, call, i, j, setting);
    var j' := i + |call| + |args|;
    assert out[j'] == ')';
    assert out[i + |call|..j'] == args;
    forall i' | 0 <= i' && i' + |call| <= |p| ensures !OccursAt(p, call, i') {
      assert p[i'..i' + |call|] == code[i'..i' + |call|];
      assert !OccursAt(code, call, i');
    }
    FirstAfterPrefix(p, call, args + ")" + code[j + 1..]);
  }

  /** The rewritten call mentions the key when the setting does. */
  lemma RewrittenCallHasKey(code: string, call: string, key: string, i: nat, j: nat, setting: string)
    requires i + |call| <= j < |code| && Contains(setting, key)
    ensures var j' := i + |call| + |AddArgument(code[i + |call|..j], setting)|;
            var out := RewriteCall(code, call, i, j, setting);
            j' < |out| && Contains(out[i..j' + 1], key)
  {
    var args := code[i + |call|..j];
    var pre := call + (if Strip(args) != [] then args + ", " else "");
    var out := RewriteCall(code, call, i, j, setting);
    var j' := i + |call| + |AddArgument(args, setting)|;
    assert out[i..j' + 1] == pre + setting + ")";
    ContainsInfix(pre, setting, ")", key);
  }

  /** Once the first call is rewritten, it mentions the key, so a second run keeps it. */
  lemma RewrittenCallKept(code: string, call: string, key: string, setting: string, i: nat, j: nat)
    requires Unbordered(call) && NoCloseParen(setting) && Contains(setting, key)
    requires FirstCallAt(code, call, i, j)
    ensures var out := RewriteCall(code, call, i, j, setting);
            PatchFirstCall(out, call, key, setting) == out
  {
    var out := RewriteCall(code, call, i, j, setting);
    var j' := i + |call| + |AddArgument(code[i + |call|..j], setting)|;
    RewrittenCallIsFirst(code, call, i, j, setting);
    RewrittenCallHasKey(code, call, key, i, j, setting);
    PatchFirstCallKeeps(out, call, key, setting, i, j');
  }

  /** A second run changes nothing, for any call prefix that cannot overlap itself and any
      setting that mentions the key and has no `)`. */
  lemma PatchFirstCallIdempotent(code: string, call: string, key: string, setting: string)
    requires Unbordered(call) && NoCloseParen(setting) && Contains(setting, key)
    ensures var out := PatchFirstCall(code, call, key, setting);
            PatchFirstCall(out, call, key, setting) == out
  {
    var m := CallMatch(code, call);
    if m.Some? {
      var i := m.value.0;
      var j := m.value.1;
      if !Contains(code[i..j + 1], key) {
        PatchFirstCallRewrites(code, call, key, setting, i, j);
        RewrittenCallKept(code, call, key, setting, i, j);
      } else {
        PatchFirstCallKeeps(code, call, key, setting, i, j);
      }
    }
  }

  /** `st.set_page_config(` cannot overlap itself; the setting has no `)` and mentions the key. */
  lemma SidebarConstants()
    ensures Unbordered(ConfigCall) && NoCloseParen(SidebarSetting) && Contains(SidebarSetting, SidebarKey)
  {
    assert OccursAt(SidebarSetting, SidebarKey, 0);
  }

  /** Without a `st.set_page_config(...)` call the text comes back unchanged. */
  lemma PatchSidebarNoCall(code: string)
    requires forall i, j :: !CallAt(code, ConfigCall, i, j)
    ensures PatchSidebar(code) == code
  {
  }

  /** When the leftmost call already mentions `initial_sidebar_state`, whatever its value
      (`"collapsed"` included), the text comes back unchanged. */
  lemma PatchSidebarKeepsSetting(code: string, i: nat, j: nat)
    requires FirstCallAt(code, ConfigCall, i, j) && Contains(code[i..j + 1], SidebarKey)
    ensures PatchSidebar(code) == code
  {
    PatchFirstCallKeeps(code, ConfigCall, SidebarKey, SidebarSetting, i, j);
  }

  /** Otherwise only the leftmost call is rewritten: the setting becomes its last argument,
      after the original arguments and `, ` when they are not blank, alone when they are; the
      text before and after that call is unchanged. */
  lemma PatchSidebarRewritesFirstCall(code: string, i: nat, j: nat)
    requires FirstCallAt(code, ConfigCall, i, j) && !Contains(code[i..j + 1], SidebarKey)
    ensures var args := code[i + |ConfigCall|..j];
            PatchSidebar(code) == code[..i] + ConfigCall
              + (if IsBlank(args) then "" else args + ", ") + SidebarSetting + ")" + code[j + 1..]
  {
    PatchFirstCallRewrites(code, ConfigCall, SidebarKey, SidebarSetting, i, j);
    StripSpec(code[i + |ConfigCall|..j]);
  }

  /** Running `patch_sidebar` on its own output changes nothing. */
  lemma PatchSidebarIdempotent(code: string)
    ensures PatchSidebar(PatchSidebar(code)) == PatchSidebar(code)
  {
    SidebarConstants();
    PatchFirstCallIdempotent(code, ConfigCall, SidebarKey, SidebarSetting);
  }
}
