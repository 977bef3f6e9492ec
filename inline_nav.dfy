/** `patch_inline_nav`: after the sidebar's page selector, a horizontal "Navegação rápida"
    selector is injected, so the pages stay reachable when the sidebar is hidden. */
module InlineNavPatch {
  import opened Wrappers
  import opened Text

  /** The sidebar's page selector the injection follows. */
  const NavAnchor: string :=
    "page = st.sidebar.radio(\"Ir para\", MENU, index=0, label_visibility=\"collapsed\", key=\"router_menu\")"

  /** The label of the injected selector; its presence means the patch already ran. */
  const NavTitle: string := "Navega\U{E7}\U{E3}o r\U{E1}pida"

  /** The injected lines, in order. */
  const Nav0: string := "# ===== Inline nav (fallback) \U{2014} mant\U{E9}m abas vis\U{ED}veis mesmo sem sidebar"
  const Nav1: string := "st.markdown(\"<div class='card' style='margin-top:8px'>\", unsafe_allow_html=True)"
  const Nav2A: string := "_page_inline = st.radio(\""
  const Nav2B: string :=
    "\", MENU, horizontal=True, index=MENU.index(page) if page in MENU else 0, key=\"router_menu_inline\")"
  const Nav3: string := "st.markdown(\"</div>\", unsafe_allow_html=True)"
  const Nav4: string := "if _page_inline != page:"
  const Nav5: string := "    st.session_state[\"router_menu\"] = _page_inline"
  const Nav6: string := "    page = _page_inline"
  const NavLines: seq<string> := [Nav0, Nav1, Nav2A + NavTitle + Nav2B, Nav3, Nav4, Nav5, Nav6]

  /** The anchor, then the injected lines, each ending in a newline. */
  const NavInject: string := NavAnchor + "\n" + Join(NavLines, "\n") + "\n"

  /** `patch_inline_nav`: when the selector is there and the title is not, the selector's
      first occurrence gets the injected lines after it. */
  function PatchInlineNav(code: string): string {
    InjectWith(code, NavAnchor, NavTitle, NavInject)
  }

  /** The shape of `patch_inline_nav` with its literals as parameters. */
  function InjectWith(code: string, anchor: string, title: string, inject: string): string {
    if Contains(code, anchor) && !Contains(code, title) then ReplaceFirst(code, anchor, inject)
    else code
  }

  /** With the anchor and without the title, the first anchor is replaced by the injection
      and everything around it is kept. */
  lemma InjectWithRewrites(code: string, anchor: string, title: string, inject: string)
    requires Contains(code, anchor) && !Contains(code, title)
    ensures exists i :: IsFirstOccurrence(code, anchor, i)
                        && InjectWith(code, anchor, title, inject)
                           == code[..i] + inject + code[i + |anchor|..]
  {
    var i := Find(code, anchor).value;
    assert IsFirstOccurrence(code, anchor, i);
  }

  /** When the injection holds the title, a second run changes nothing. */
  lemma InjectWithIdempotent(code: string, anchor: string, title: string, inject: string)
    requires Contains(inject, title)
    ensures var out := InjectWith(code, anchor, title, inject);
            InjectWith(out, anchor, title, inject) == out
  {
    if Contains(code, anchor) && !Contains(code, title) {
      var i := Find(code, anchor).value;
      assert IsFirstOccurrence(code, anchor, i);
      ContainsInfix(code[..i], inject, code[i + |anchor|..], title);
    }
  }

  /** The injection starts with the anchor, so the selector itself is kept. */
  lemma InjectKeepsAnchor()
    ensures Contains(NavInject, NavAnchor)
  {
    assert OccursAt(NavInject, NavAnchor, 0);
  }

  /** The injection holds the title. */
  lemma InjectHasTitle()
    ensures Contains(NavInject, NavTitle)
  {
    ContainsSelf(NavTitle);
    ContainsInfix(Nav2A, NavTitle, Nav2B, NavTitle);
    JoinContainsLine(NavLines, "\n", 2);
    ContainsInfix(NavAnchor + "\n", Join(NavLines, "\n"), "\n", Nav2A + NavTitle + Nav2B);
    ContainsTransitive(NavInject, Nav2A + NavTitle + Nav2B, NavTitle);
  }

  /** Without the selector, or once the title is present, nothing changes. */
  lemma PatchInlineNavSkips(code: string)
    requires !Contains(code, NavAnchor) || Contains(code, NavTitle)
    ensures PatchInlineNav(code) == code
  {
  }

  /** With the selector and without the title, the first selector gets the injected lines
      after it; the text before it and after it is kept. */
  lemma PatchInlineNavRewrites(code: string)
    requires Contains(code, NavAnchor) && !Contains(code, NavTitle)
    ensures exists i :: IsFirstOccurrence(code, NavAnchor, i)
                        && PatchInlineNav(code) == code[..i] + NavInject + code[i + |NavAnchor|..]
  {
    InjectWithRewrites(code, NavAnchor, NavTitle, NavInject);
  }

  /** `patch_inline_nav` is idempotent. */
  lemma PatchInlineNavIdempotent(code: string)
    ensures PatchInlineNav(PatchInlineNav(code)) == PatchInlineNav(code)
  {
    InjectHasTitle();
    InjectWithIdempotent(code, NavAnchor, NavTitle, NavInject);
  }
}
