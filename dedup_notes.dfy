/** Step 4 of the asset consolidation pass (scripts/asset_deduplicator.py,
    `_update_markdown_links`): every note under the notes directory is read,
    the replacement map is applied to its text entry by entry, and the note
    is written back when its text changed.

    The notes directory is a value: the paths the walk yields, the text of
    each note that reads as UTF-8, and the notes whose writing raises. */
module DedupNotes {

  import opened Strings
  import opened DedupStore
  import opened DedupCanonical
  import LinkRewrite

  datatype Vault = Vault(walk: Walk, text: map<Path, string>, unwritable: set<Path>)

  /** `rglob('*.md')` yields the paths whose name ends in `.md`. */
  predicate IsNote(p: Path) {
    IsSuffix(".md", p.name)
  }

  /** A note that reads and whose text the map would change (line 141). */
  predicate Rewrites(v: Vault, m: ReplacementMap, p: Path) {
    IsNote(p) && p in v.text && LinkRewrite.RewriteAll(v.text[p], m) != v.text[p]
  }

  /** The notes among `ps` whose text changed and whose writing did not raise. */
  function UpdatedAmong(v: Vault, m: ReplacementMap, ps: seq<Path>): set<Path> {
    set p | p in ps && Rewrites(v, m, p) && p !in v.unwritable
  }

  /** The set `updated_files`. */
  function NotesUpdated(v: Vault, m: ReplacementMap): set<Path> {
    UpdatedAmong(v, m, v.walk)
  }

  /** The texts once the notes of `u` are rewritten. */
  function WrittenBack(v: Vault, m: ReplacementMap, u: set<Path>): map<Path, string> {
    map p | p in v.text :: if p in u then LinkRewrite.RewriteAll(v.text[p], m) else v.text[p]
  }

  /** The texts of the notes after the pass. */
  function NotesAfter(v: Vault, m: ReplacementMap): map<Path, string> {
    WrittenBack(v, m, NotesUpdated(v, m))
  }

  lemma UpdatedStep(v: Vault, m: ReplacementMap, ps: seq<Path>, p: Path)
    ensures UpdatedAmong(v, m, ps + [p])
      == UpdatedAmong(v, m, ps) + (if Rewrites(v, m, p) && p !in v.unwritable then {p} else {})
  {
  }

  lemma WrittenBackStep(v: Vault, m: ReplacementMap, u: set<Path>, p: Path)
    requires p in v.text
    ensures WrittenBack(v, m, u + {p}) == WrittenBack(v, m, u)[p := LinkRewrite.RewriteAll(v.text[p], m)]
  {
  }

  /** Lines 138-140 for one note: the entries in the map's insertion order,
      each replacing the embeds (line 139) and then the linked images
      (line 140). */
  method RewriteNote(content: string, m: ReplacementMap) returns (r: string)
    ensures r == LinkRewrite.RewriteAll(content, m)
  {
    r := content;
    for i := 0 to |m|
      invariant r == LinkRewrite.RewriteAll(content, m[..i])
    {
      assert m[..i + 1][..i] == m[..i];
      var (oldName, newName) := m[i];
      r := LinkRewrite.ReplaceAll(r, LinkRewrite.Embed(oldName), LinkRewrite.Embed(newName));
      r := LinkRewrite.LinkSub(r, oldName, newName);
    }
    assert m[..|m|] == m;
  }

  /** `_update_markdown_links`: the new texts and the set of notes written. */
  method UpdateMarkdownLinks(v: Vault, m: ReplacementMap) returns (text: map<Path, string>, updated: set<Path>)
    ensures updated == NotesUpdated(v, m)
    ensures text == NotesAfter(v, m)
  {
    text := v.text;
    updated := {};
    for i := 0 to |v.walk|
      invariant updated == UpdatedAmong(v, m, v.walk[..i])
      invariant text == WrittenBack(v, m, updated)
    {
      var p := v.walk[i];
      assert v.walk[..i + 1] == v.walk[..i] + [p];
      UpdatedStep(v, m, v.walk[..i], p);
      if IsNote(p) && p in text {
        assert p !in v.walk[..i];
        var content := text[p];
        var original := content;
        content := RewriteNote(content, m);
        if content != original && p !in v.unwritable {
          WrittenBackStep(v, m, updated, p);
          text := text[p := content];
          updated := updated + {p};
        }
      }
    }
    assert v.walk[..|v.walk|] == v.walk;
  }

  // ---------------------------------------------------------------------
  // Properties of the pass
  // ---------------------------------------------------------------------

  /** A note is reported as updated exactly when its text changed. */
  lemma UpdatedIffChanged(v: Vault, m: ReplacementMap, p: Path)
    ensures NotesAfter(v, m).Keys == v.text.Keys
    ensures p in NotesUpdated(v, m) <==> p in v.walk && p in v.text && NotesAfter(v, m)[p] != v.text[p]
  {
  }

  /** With a map whose rewrite settles in one pass, running the pass again
      on its own output writes no note and changes no text. */
  lemma SecondPassChangesNothing(v: Vault, m: ReplacementMap)
    requires LinkRewrite.RewriteReady(m)
    ensures var v2 := Vault(v.walk, NotesAfter(v, m), v.unwritable);
      NotesUpdated(v2, m) == {} && NotesAfter(v2, m) == NotesAfter(v, m)
  {
    var v2 := Vault(v.walk, NotesAfter(v, m), v.unwritable);
    forall p | p in v2.text ensures !(p in v.walk && Rewrites(v2, m, p) && p !in v.unwritable) {
      if p in NotesUpdated(v, m) {
        LinkRewrite.RewriteIdempotent(v.text[p], m);
      }
    }
    assert NotesUpdated(v2, m) == {};
  }

  /** A note in which no old name of the map occurs is not written. */
  lemma UnrelatedNoteUntouched(v: Vault, m: ReplacementMap, p: Path)
    requires p in v.text && forall i :: 0 <= i < |m| ==> !Contains(v.text[p], m[i].0)
    ensures p !in NotesUpdated(v, m) && NotesAfter(v, m)[p] == v.text[p]
  {
    LinkRewrite.NoKeyUnchanged(v.text[p], m);
  }
}
