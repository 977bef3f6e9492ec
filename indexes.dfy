/** `patch_indexes`: the start-up block that creates the SQLite indexes is replaced by one
    that creates each index through a guarded helper, or, when that block is not found,
    the helper block is inserted after every `Base.metadata.create_all(engine)`. */
module IndexesPatch {
  import opened Wrappers
  import opened Text

  /** The eight lines of the original start-up block. */
  const Block0: string := "with engine.begin() as conn:"
  const Block1: string := "    conn.exec_driver_sql(\"PRAGMA journal_mode=WAL;\")"
  const Block2: string := "    conn.exec_driver_sql(\"PRAGMA synchronous=NORMAL;\")"
  const Block3: string := "    conn.exec_driver_sql(\"CREATE INDEX IF NOT EXISTS ix_os_obra_data ON os(obra_id, data_emissao);\")"
  const Block4: string := "    conn.exec_driver_sql(\"CREATE INDEX IF NOT EXISTS ix_os_status ON os(status);\")"
  const Block5: string := "    conn.exec_driver_sql(\"CREATE INDEX IF NOT EXISTS ix_os_numero ON os(numero);\")"
  const Block6: string := "    conn.exec_driver_sql(\"CREATE INDEX IF NOT EXISTS ix_ositem_osid ON os_itens(os_id);\")"
  const Block7: string := "    conn.exec_driver_sql(\"CREATE INDEX IF NOT EXISTS ix_medicoes_obra ON medicoes(obra_id);\")"
  const BlockLines: seq<string> := [Block0, Block1, Block2, Block3, Block4, Block5, Block6, Block7]

  /** The needle as the patch writes it: the lines are joined by a backslash and an `n`
      (`'\\n'` in the patch), not by a newline. */
  const Needle: string := Join(BlockLines, "\\n")

  /** The block as it appears in the application, with real newlines. */
  const IntendedNeedle: string := Join(BlockLines, "\n")

  /** The name of the guarded helper that the replacement defines. */
  const Marker: string := "_safe_create_index"

  /** The lines of the replacement, with the helper called `name`: the helper, an empty
      line, and the new start-up block that creates each index through the helper. */
  function SafeLines(name: string): seq<string> {
    [Safe00A + name + Safe00B] + SafeBody(name)
  }

  /** The replacement's lines after the helper's `def` line. */
  function SafeBody(name: string): seq<string> {
    [ Safe01,
      Safe02,
      Safe03,
      Safe04,
      Safe05,
      Safe06,
      Safe07,
      Safe08,
      Safe09,
      Safe10,
      Safe11,
      Safe12,
      Safe13,
      Safe14,
      Safe15,
      Safe16,
      Safe17,
      Safe18A + name + Safe18B,
      Safe19A + name + Safe19B,
      Safe20A + name + Safe20B,
      Safe21A + name + Safe21B,
      Safe22A + name + Safe22B ]
  }

  /** The pieces of the replacement's lines around the helper's name. */
  const Safe00A: string := "def "
  const Safe00B: string := "(conn, idx_name: str, table: str, cols: str):"
  const Safe01: string := "    try:"
  const Safe02: string := "        t = conn.exec_driver_sql(\"SELECT name FROM sqlite_master WHERE type='table' AND name=?\", (table,)).fetchone()"
  const Safe03: string := "        if not t:"
  const Safe04: string := "            return"
  const Safe05: string := "        row = conn.exec_driver_sql(\"SELECT name FROM sqlite_master WHERE type='index' AND name=?\", (idx_name,)).fetchone()"
  const Safe06: string := "        if row:"
  const Safe07: string := "            return"
  const Safe08: string := "        conn.exec_driver_sql(f\"CREATE INDEX {idx_name} ON {table}({cols})\")"
  const Safe09: string := "    except Exception:"
  const Safe10: string := "        pass"
  const Safe11: string := ""
  const Safe12: string := "with engine.begin() as conn:"
  const Safe13: string := "    try:"
  const Safe14: string := "        conn.exec_driver_sql(\"PRAGMA journal_mode=WAL;\")"
  const Safe15: string := "        conn.exec_driver_sql(\"PRAGMA synchronous=NORMAL;\")"
  const Safe16: string := "    except Exception:"
  const Safe17: string := "        pass"
  const Safe18A: string := "    "
  const Safe18B: string := "(conn, \"ix_os_obra_data\", \"os\", \"obra_id, data_emissao\")"
  const Safe19A: string := "    "
  const Safe19B: string := "(conn, \"ix_os_status\", \"os\", \"status\")"
  const Safe20A: string := "    "
  const Safe20B: string := "(conn, \"ix_os_numero\", \"os\", \"numero\")"
  const Safe21A: string := "    "
  const Safe21B: string := "(conn, \"ix_ositem_osid\", \"os_itens\", \"os_id\")"
  const Safe22A: string := "    "
  const Safe22B: string := "(conn, \"ix_medicoes_obra\", \"medicoes\", \"obra_id\")"

  /** The replacement (the patch strips the newlines around its raw string). */
  const SafeIndexBlock: string := Join(SafeLines(Marker), "\n")

  /** The statement after which the fallback inserts the replacement. */
  const Anchor: string := "Base.metadata.create_all(engine)"

  /** `patch_indexes` as written: replace the first needle, otherwise put the replacement
      after every anchor (and keep the anchor). */
  function PatchIndexes(code: string): string {
    PatchWith(code, Needle, SafeIndexBlock, Anchor)
  }

  /** The shape of `patch_indexes` with its three literals as parameters. */
  function PatchWith(code: string, needle: string, block: string, anchor: string): string {
    if Contains(code, needle) then ReplaceFirst(code, needle, block)
    else ReplaceAll(code, anchor, anchor + "\n" + block)
  }

  /** The needle holds a backslash where the block has its first line break, and is one
      character longer per line break. */
  lemma NeedleBackslash()
    ensures |Needle| > 28 && Needle[28] == '\\'
    ensures |IntendedNeedle| > 28 && IntendedNeedle[28] == '\n'
    ensures |Needle| == |IntendedNeedle| + 7
  {
    assert |BlockLines[0]| == 28;
    JoinStart(BlockLines, "\\n");
    JoinStart(BlockLines, "\n");
    JoinLength(BlockLines, "\\n", "\n");
  }

  /** The replacement defines the helper it names. */
  lemma SafeBlockHasName(name: string)
    ensures Contains(Join(SafeLines(name), "\n"), name)
  {
    var first := SafeLines(name)[0];
    ContainsSelf(name);
    ContainsInfix(Safe00A, name, Safe00B, name);
    JoinContainsFirst(SafeLines(name), "\n");
    ContainsTransitive(Join(SafeLines(name), "\n"), first, name);
  }

  /** The replacement starts with `d` (of `def`), the needle with `w` (of `with`). */
  lemma FirstCharacters()
    ensures |SafeIndexBlock| > 0 && SafeIndexBlock[0] == 'd'
    ensures |Needle| > 0 && Needle[0] == 'w'
  {
    JoinStart(SafeLines(Marker), "\n");
    JoinStart(BlockLines, "\\n");
    assert SafeIndexBlock[..|SafeLines(Marker)[0]|][0] == 'd';
    assert Needle[..|BlockLines[0]|][0] == 'w';
  }

  /** Needle branch: only the first needle is replaced, the text around it is kept. */
  lemma PatchWithNeedle(code: string, needle: string, block: string, anchor: string)
    requires Contains(code, needle)
    ensures exists i :: IsFirstOccurrence(code, needle, i)
                        && PatchWith(code, needle, block, anchor)
                           == code[..i] + block + code[i + |needle|..]
  {
    var i := Find(code, needle).value;
    assert IsFirstOccurrence(code, needle, i);
  }

  /** Fallback branch with an anchor: the text up to the first anchor is kept, the anchor
      followed by the replacement appears, the anchor survives and the text grows. */
  lemma PatchWithFallback(code: string, needle: string, block: string, anchor: string)
    requires !Contains(code, needle) && Contains(code, anchor)
    ensures var out := PatchWith(code, needle, block, anchor);
            |out| > |code| && Contains(out, anchor) && Contains(out, anchor + "\n" + block)
            && forall i :: IsFirstOccurrence(code, anchor, i) ==> out[..i] == code[..i]
  {
    var rep := anchor + "\n" + block;
    ReplaceAllGrows(code, anchor, rep);
    ReplaceAllContainsRep(code, anchor, rep);
    assert OccursAt(rep, anchor, 0);
    ContainsTransitive(ReplaceAll(code, anchor, rep), rep, anchor);
  }

  /** Fallback branch, every anchor: cut at its anchors, the text is pieces none of which
      holds the anchor, and the result is those pieces with every anchor followed by a
      newline and the block. */
  lemma PatchWithEveryAnchor(code: string, needle: string, block: string, anchor: string)
    requires !Contains(code, needle) && anchor != []
    ensures var pieces := Split(code, anchor);
            Join(pieces, anchor) == code
            && (forall k :: 0 <= k < |pieces| ==> !Contains(pieces[k], anchor))
            && PatchWith(code, needle, block, anchor) == Join(pieces, anchor + "\n" + block)
  {
    SplitSpec(code, anchor);
    ReplaceAllSplit(code, anchor, anchor + "\n" + block);
  }

  /** A second run after the fallback changes the text again: either the needle now occurs
      and is replaced by a block with a different first character, or the anchor gets one
      more copy of the block. */
  lemma PatchWithNotIdempotent(code: string, needle: string, block: string, anchor: string)
    requires !Contains(code, needle) && Contains(code, anchor)
    requires needle != [] && block != [] && block[0] != needle[0]
    ensures var out := PatchWith(code, needle, block, anchor);
            PatchWith(out, needle, block, anchor) != out
  {
    var out := PatchWith(code, needle, block, anchor);
    PatchWithFallback(code, needle, block, anchor);
    if Contains(out, needle) {
      var i := Find(out, needle).value;
      assert IsFirstOccurrence(out, needle, i);
      var again := out[..i] + block + out[i + |needle|..];
      assert again[i] == block[0];
      assert out[i] == out[i..i + |needle|][0];
    } else {
      PatchWithFallback(out, needle, block, anchor);
    }
  }

  /** Needle branch of `patch_indexes`. */
  lemma PatchIndexesNeedle(code: string)
    requires Contains(code, Needle)
    ensures exists i :: IsFirstOccurrence(code, Needle, i)
                        && PatchIndexes(code) == code[..i] + SafeIndexBlock + code[i + |Needle|..]
  {
    PatchWithNeedle(code, Needle, SafeIndexBlock, Anchor);
  }

  /** Fallback branch without an anchor: nothing changes. */
  lemma PatchIndexesNoAnchor(code: string)
    requires !Contains(code, Needle) && !Contains(code, Anchor)
    ensures PatchIndexes(code) == code
  {
  }

  /** Fallback branch with an anchor of `patch_indexes`. */
  lemma PatchIndexesFallback(code: string)
    requires !Contains(code, Needle) && Contains(code, Anchor)
    ensures var out := PatchIndexes(code);
            |out| > |code| && Contains(out, Anchor) && Contains(out, Anchor + "\n" + SafeIndexBlock)
            && forall i :: IsFirstOccurrence(code, Anchor, i) ==> out[..i] == code[..i]
  {
    PatchWithFallback(code, Needle, SafeIndexBlock, Anchor);
  }

  /** Fallback branch of `patch_indexes`: every `Base.metadata.create_all(engine)` of the
      text is followed by a newline and the block. */
  lemma PatchIndexesEveryAnchor(code: string)
    requires !Contains(code, Needle)
    ensures var pieces := Split(code, Anchor);
            Join(pieces, Anchor) == code
            && (forall k :: 0 <= k < |pieces| ==> !Contains(pieces[k], Anchor))
            && PatchIndexes(code) == Join(pieces, Anchor + "\n" + SafeIndexBlock)
  {
    assert Anchor[0] == 'B';
    PatchWithEveryAnchor(code, Needle, SafeIndexBlock, Anchor);
  }

  /** Running `patch_indexes` again after its fallback changes the text again. */
  lemma PatchIndexesNotIdempotent(code: string)
    requires !Contains(code, Needle) && Contains(code, Anchor)
    ensures PatchIndexes(PatchIndexes(code)) != PatchIndexes(code)
  {
    FirstCharacters();
    PatchWithNotIdempotent(code, Needle, SafeIndexBlock, Anchor);
  }

  /** The needle is longer than the block it was written from, so it never occurs in it. */
  lemma NeedleMissesBlock()
    ensures !Contains(IntendedNeedle, Needle)
  {
    NeedleBackslash();
    NotContainsLonger(IntendedNeedle, Needle);
  }

  /** A text without a backslash never holds the needle. */
  lemma NeedleNeedsBackslash(code: string)
    requires '\\' !in code
    ensures !Contains(code, Needle)
  {
    NeedleBackslash();
    NotContainsChar(code, Needle, '\\');
  }

  /** The intended rewrite: skip a text that already defines the helper; otherwise replace
      the first copy of the block (with real newlines), or else insert after every anchor. */
  function PatchIndexesFixed(code: string): string {
    FixedWith(code, Marker, IntendedNeedle, SafeIndexBlock, Anchor)
  }

  /** The shape of the intended rewrite with its literals as parameters. */
  function FixedWith(code: string, marker: string, needle: string, block: string, anchor: string): string {
    if Contains(code, marker) then code else PatchWith(code, needle, block, anchor)
  }

  /** When the replacement holds the marker, the guarded rewrite is idempotent. */
  lemma FixedWithIdempotent(code: string, marker: string, needle: string, block: string, anchor: string)
    requires Contains(block, marker)
    ensures var out := FixedWith(code, marker, needle, block, anchor);
            FixedWith(out, marker, needle, block, anchor) == out
  {
    var out := FixedWith(code, marker, needle, block, anchor);
    if !Contains(code, marker) {
      if Contains(code, needle) {
        var i := Find(code, needle).value;
        assert IsFirstOccurrence(code, needle, i);
        ContainsInfix(code[..i], block, code[i + |needle|..], marker);
      } else if Contains(code, anchor) {
        var rep := anchor + "\n" + block;
        ReplaceAllContainsRep(code, anchor, rep);
        ContainsInfix(anchor + "\n", block, "", marker);
        assert anchor + "\n" + block + "" == rep;
        ContainsTransitive(out, rep, marker);
      }
    }
  }

  /** The intended rewrite replaces the block as it appears in the application. */
  lemma PatchIndexesFixedBlock(code: string)
    requires !Contains(code, Marker) && Contains(code, IntendedNeedle)
    ensures exists i :: IsFirstOccurrence(code, IntendedNeedle, i)
                        && PatchIndexesFixed(code)
                           == code[..i] + SafeIndexBlock + code[i + |IntendedNeedle|..]
  {
    PatchWithNeedle(code, IntendedNeedle, SafeIndexBlock, Anchor);
  }

  /** The intended rewrite is idempotent. */
  lemma PatchIndexesFixedIdempotent(code: string)
    ensures PatchIndexesFixed(PatchIndexesFixed(code)) == PatchIndexesFixed(code)
  {
    SafeBlockHasName(Marker);
    FixedWithIdempotent(code, Marker, IntendedNeedle, SafeIndexBlock, Anchor);
  }
}
