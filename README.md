# Omni-Parser migration core, modelled in Dafny

Omni-Parser moves a knowledge base out of Evernote and web clippings into an
Obsidian vault. Five scripts hold the logic that decides what ends up in the
vault:

- `scripts/asset_deduplicator.py` is the centre of the model. It hashes every
  image under the vault and groups identical images. For each group it keeps
  the one with the shortest and then alphabetically first name. It rewrites
  the `![[old]]` and `![alt](old)` references in every note to the kept name,
  deletes the other copies, and reports what it did.
- `scripts/transformer.py` turns HTML into Obsidian markdown. It saves inline
  `data:image` pictures and downloaded pictures as hashed attachments. It then
  strips the leftover tags and collapses runs of blank lines.
- `scripts/sanitizer.py` cleans the converted markdown: links, whitespace,
  tables and code fences. It also validates the result.
- `scripts/metadata_injector.py` derives YAML frontmatter from a note and
  injects or updates it. The frontmatter holds a title, dates, tags, the
  source and a note type.
- `scripts/auditor.py` is the pre-flight audit. It scores every HTML and ENEX
  export, collects the warnings and errors into a report and prints that
  report as text.

## How the model is organised

The filesystem is a value. The hashing, the network, the YAML library, the
clock and the HTML parsers are parameters. Each Dafny module follows one
source file or one part of one:

| module | file | models |
|---|---|---|
| `Wrappers`, `Bytes`, `Strings`, `Assoc` | `wrappers.dfy`, `bytes.dfy`, `strings.dfy`, `assoc.dfy` | `Option`; bytes; the Python string builtins used (`find`, `strip`, `split`, `join`, `lower`, `str(n)`); insertion-ordered dictionaries (`dict[k] = v`, `dict.update`) |
| `DedupStore` | `dedup_store.dfy` | the store of files, the walk, `_hash_all_files`, `_find_duplicates`, `analyze_duplicates` |
| `DedupCanonical` | `dedup_canonical.dfy` | the `(len(name), name)` order, the canonical file, `_build_replacement_map` |
| `LinkRewrite` | `rewrite.dfy` | the two substitutions of `_update_markdown_links` on one note |
| `DedupNotes` | `dedup_notes.dfy` | `_update_markdown_links` over all notes |
| `DedupRemove` | `dedup_remove.dfy` | `_remove_duplicates`, `generate_report` |
| `Dedup` | `dedup.dfy` | `deduplicate_directory` and the facts that join the stages |
| `Base64` | `base64.dfy` | `base64.b64decode` (non-validating), with an encoder as its partner |
| `Transformer` | `transformer.dfy` | the helpers of `transformer.py`: extensions, hashed names, the embed token, `_decode_base64`, `_finalize_markdown` |
| `TransformerImages` | `transformer_images.dfy` | the loop of `_process_images` |
| `Markup` | `markup.dfy` | tag stripping, the collapse of newline runs, fence counting |
| `NoteFiles` | `note_files.dfy` | `Path.name`, `Path.stem` |
| `Sanitizer`, `SanitizerSpace`, `SanitizerTables`, `SanitizerLinks` | `sanitizer*.dfy` | `sanitizer.py`: the pipeline, validation, file and batch processing; whitespace and fences; tables; links |
| `MetadataRules`, `MetadataTags`, `Metadata` | `metadata*.dfy` | the field rules (title, date, source, type); tags; extraction, frontmatter, `inject_metadata`, `update_metadata` |
| `Auditor`, `AuditorReport` | `auditor.dfy`, `auditor_report.dfy` | `FileAudit`, `AuditReport`, `_audit_file`, `_calculate_complexity`, `audit_directory`; `generate_text_report` |

Objects whose fields the source updates in place are classes: `FileAudit` and
`AuditReport` in `Auditor`. Loops of the source are methods with loop
invariants, and each is proved equal to a specification function. Examples
are `_hash_all_files`, `_build_replacement_map`, `_update_markdown_links`,
`_remove_duplicates`, `generate_report`, `_process_images`, `_fix_tables`,
`_extract_tags`, `sanitize_batch`, the loop of `audit_directory` and the line
building of `generate_text_report`. The properties the scripts promise are
proved as lemmas about those functions.

## Model

| member | source | states |
|---|---|---|
| DedupStore.Suffix | scripts/asset_deduplicator.py:100 | the suffix is empty exactly when the name is empty, ends in a dot, or has no dot after its first character; otherwise it ends the name, opens with its one dot and has at least one more character |
| DedupStore.HashAllFiles | scripts/asset_deduplicator.py:96-107 | the loop builds the hash map of the walk: each hashed image with an image suffix is appended under its digest |
| DedupStore.GroupContents | scripts/asset_deduplicator.py:96-107 | the keys of the hash map are distinct; the list under a key is the walk's hashed images with that digest, in walk order; every path is under some key; the lists hold all hashed images together |
| DedupStore.BucketOfPath | scripts/asset_deduplicator.py:98-107 | a path is in the list under a key exactly when the walk has it, it is a hashed image and its digest is that key |
| DedupStore.DigestIsKey | scripts/asset_deduplicator.py:104 | every hashed image of the walk has its digest among the keys |
| DedupStore.GroupNonEmpty | scripts/asset_deduplicator.py:104 | no list of the hash map is empty |
| DedupStore.FindDuplicates | scripts/asset_deduplicator.py:117-119 | at most as many groups as keys, and every group has more than one file |
| DedupStore.FindDuplicatesMembers | scripts/asset_deduplicator.py:117-119 | a list is a duplicate group exactly when it is a list of the hash map with more than one file |
| DedupStore.ExcessOfDuplicates | scripts/asset_deduplicator.py:63 | the files in the duplicate groups, minus one per group, equal the hashed files minus the number of keys |
| DedupStore.DuplicatesFound | scripts/asset_deduplicator.py:59-63 | `duplicates_found` is the number of hashed images minus the number of distinct digests |
| DedupStore.KeepSharedMatchesFind | scripts/asset_deduplicator.py:168-171 | the dry run reports the same groups, in the same order, as the deduplication |
| DedupStore.AnalyzeDuplicates | scripts/asset_deduplicator.py:168-171 | `analyze_duplicates` gives the shared digests with their files, and the files are the duplicate groups in order |
| Dedup.BucketsDisjoint | scripts/asset_deduplicator.py:96-107 | no file is under two keys of the hash map |
| Dedup.GroupsOfWalkDisjoint | scripts/asset_deduplicator.py:117-119 | two different duplicate groups share no file |
| Dedup.DuplicatesOfBuckets | scripts/asset_deduplicator.py:117-119 | every duplicate group is a list of the hash map |
| Dedup.DuplicatesInOrder | scripts/asset_deduplicator.py:117-119 | the duplicate groups keep the order of the hash map |
| Dedup.CanonicalSurvivesWhenNamesUnique | scripts/asset_deduplicator.py:151-153 | when no two grouped files share a name, the pass deletes a file of a group exactly when it is not the group's canonical file |
| Dedup.CanonicalDeletedWhenNameMapped | scripts/asset_deduplicator.py:151-153 | the pass deletes a group's canonical file whenever its name is a key of the replacement map, whether through its own group or another |
| Dedup.DeduplicateDirectory | scripts/asset_deduplicator.py:51-90 | `total_files` is the number of hashed images and `duplicates_found` the excess over distinct digests; without duplicates nothing changes; otherwise the notes hold their rewritten text under the literal reading of file names (see "## Left out"), the files deleted are those of the as-written removal list (every grouped file whose name is a key of the replacement map) that exist and can be deleted, and the removed count and bytes saved are theirs |
| DedupCanonical.NameLessTransitive | scripts/asset_deduplicator.py:125 | the key `(len(name), name)` orders transitively |
| DedupCanonical.NameLessTotal | scripts/asset_deduplicator.py:125 | two different names are always ordered one way or the other |
| DedupCanonical.SortByKey | scripts/asset_deduplicator.py:125 | `sorted(group, key=...)` has the group's length and is a permutation of it |
| DedupCanonical.SortSorted | scripts/asset_deduplicator.py:125 | the sorted group is ordered by the key |
| DedupCanonical.MinByKeyFirst | scripts/asset_deduplicator.py:178 | `min(group, key=...)` is a member of the group and no member comes before it |
| DedupCanonical.SortHeadFirst | scripts/asset_deduplicator.py:125-126 | no member of the group comes before the head of the sorted group |
| DedupCanonical.FirstMinUnique | scripts/asset_deduplicator.py:125-126 | only one member of a group with distinct names can come first |
| DedupCanonical.CanonicalAgrees | scripts/asset_deduplicator.py:126 | the head of the sorted group is the `min` that the report names as canonical |
| DedupCanonical.CanonicalNameOrderFree | scripts/asset_deduplicator.py:125-126 | the canonical name does not depend on the walk order of the group |
| DedupCanonical.PutGroup | scripts/asset_deduplicator.py:127-128 | one group puts each of its non-first files under its name, mapped to the canonical name |
| DedupCanonical.BuildReplacementMap | scripts/asset_deduplicator.py:121-129 | the loop builds the replacement map of the groups |
| DedupCanonical.MapKeysDistinct | scripts/asset_deduplicator.py:121-129 | the map has distinct keys |
| DedupCanonical.MapKeys | scripts/asset_deduplicator.py:127-128 | a name is a key exactly when it is the name of some non-canonical file |
| DedupCanonical.MapEntryOrigin | scripts/asset_deduplicator.py:124-128 | every entry comes from a group: its key names a non-canonical file there and its value is that group's canonical name |
| DedupCanonical.MapsToCanonical | scripts/asset_deduplicator.py:124-128 | with unique names, a non-canonical file's name maps to its own group's canonical name |
| DedupCanonical.CanonicalNotKey | scripts/asset_deduplicator.py:124-128 | with unique names, no canonical name is a key |
| DedupCanonical.SharedNameIsKey | scripts/asset_deduplicator.py:127-128 | a name two files of a group share is a key, even when one of them is canonical |
| DedupCanonical.MapReady | scripts/asset_deduplicator.py:124-128 | with unique, plain names the map meets the conditions under which a rewrite settles in one pass |
| LinkRewrite.LinkMatch | scripts/asset_deduplicator.py:140 | a match of `!\[([^\]]*)\]\(old\)` opens with `![`, has no `]` in its alternative text and is closed by `](old)` |
| LinkRewrite.EmbedRewritten | scripts/asset_deduplicator.py:139 | `![[old]]` becomes `![[new]]` |
| LinkRewrite.LinkRewritten | scripts/asset_deduplicator.py:140 | `![alt](old)` becomes `![alt](new)` and keeps its alternative text |
| LinkRewrite.BareWikilinkUntouched | scripts/asset_deduplicator.py:138-140 | a plain `[[old]]` link is not rewritten |
| LinkRewrite.ReplaceIdentity | scripts/asset_deduplicator.py:139 | a note without `![[old]]` is unchanged by the first substitution |
| LinkRewrite.LinkIdentity | scripts/asset_deduplicator.py:140 | a note without a `![..](old)` link is unchanged by the second substitution |
| LinkRewrite.EmbedStepClears | scripts/asset_deduplicator.py:139 | after the first substitution no `![[old]]` is left, and no reference to anything other than `new` appears |
| LinkRewrite.LinkStepClears | scripts/asset_deduplicator.py:140 | after the second substitution no `![alt](old)` is left, and no reference to anything other than `new` appears |
| LinkRewrite.EntryClears | scripts/asset_deduplicator.py:138-140 | one map entry clears its own key and keeps every other cleared key cleared |
| LinkRewrite.RewriteAllCleans | scripts/asset_deduplicator.py:138-140 | after the rewrite no key of a ready map is referenced |
| LinkRewrite.CleanUnchanged | scripts/asset_deduplicator.py:138-140 | a note that references no key is left as it is |
| LinkRewrite.NoKeyUnchanged | scripts/asset_deduplicator.py:138-143 | a note in which no key occurs is left as it is, so it is not written back |
| LinkRewrite.RewriteIdempotent | scripts/asset_deduplicator.py:138-140 | for a ready map (no target is also a key, and no key or target has a bracket or parenthesis), rewriting a note twice gives the same text as rewriting it once |
| LinkRewrite.LinkMatchAsWritten | scripts/asset_deduplicator.py:140 | for a key whose only special characters are `.` and balanced parentheses, the unescaped pattern matches where the closing `]` of the alternative text is followed by `(`, a target matching the key with its groups opened and a dot standing for any character but a newline, and `)` |
| LinkRewrite.LiteralMatchIsRegexMatch | scripts/asset_deduplicator.py:140 | for such a key without parentheses, the unescaped pattern matches wherever the literal one does |
| LinkRewrite.RegexMatchIsLiteralMatch | scripts/asset_deduplicator.py:140 | for such a key without dots and parentheses, the unescaped pattern matches exactly where the literal one does |
| LinkRewrite.SubAgreesWithoutSpecials | scripts/asset_deduplicator.py:140 | for such a key and a target without a backslash, the substitution as written rewrites every note as the literal one does |
| LinkRewrite.GroupedNameKeepsLink | scripts/asset_deduplicator.py:140 | as written, the key `a (1).png` reads `(1)` as a group, so `![x](a (1).png)` is not retargeted |
| LinkRewrite.LiteralRetargetsGroupedName | scripts/asset_deduplicator.py:140 | with the name read literally, `![x](a (1).png)` becomes `![x](a.png)` |
| LinkRewrite.DotRetargetsOtherFile | scripts/asset_deduplicator.py:140 | as written, the key `a.png` also retargets `![x](aXpng)`, a link to another file |
| LinkRewrite.LiteralKeepsOtherFile | scripts/asset_deduplicator.py:140 | with the name read literally, `![x](aXpng)` is left alone |
| DedupNotes.RewriteNote | scripts/asset_deduplicator.py:138-140 | the loop over the map applies every entry in map order |
| DedupNotes.UpdateMarkdownLinks | scripts/asset_deduplicator.py:131-146 | the notes end up holding their rewritten text under the literal reading of file names (see "## Left out"), and the count is the number of notes whose text changed |
| DedupNotes.UpdatedIffChanged | scripts/asset_deduplicator.py:141-143 | the pass keeps the set of notes, and a note is counted exactly when it is walked and its text after the pass differs from before |
| DedupNotes.SecondPassChangesNothing | scripts/asset_deduplicator.py:131-146 | running the link update again with a ready map changes no note and counts nothing |
| DedupNotes.UnrelatedNoteUntouched | scripts/asset_deduplicator.py:136-143 | a note that mentions no key keeps its text and is not counted |
| DedupRemove.KeyedMembers | scripts/asset_deduplicator.py:152 | a file is in the list built as written exactly when its name is a key of the map |
| DedupRemove.SharedCanonicalNameRemovesAll | scripts/asset_deduplicator.py:151-153 | as written, when a non-canonical file shares the canonical file's name, every file of the group is removed |
| DedupRemove.SameNameLosesEveryCopy | scripts/asset_deduplicator.py:151-153 | as written, the two identical files `a/x.png` and `b/x.png` are both removed, so no copy stays |
| DedupRemove.SameNameMap | scripts/asset_deduplicator.py:127-128 | for that pair the shared name `x.png` is a key of the map |
| DedupRemove.FilesToRemoveMembers | scripts/asset_deduplicator.py:151-153 | built from the files themselves, a file is removed exactly when it is in a group and is not that group's canonical file |
| DedupRemove.CanonicalKept | scripts/asset_deduplicator.py:151-153 | every group keeps its canonical file |
| DedupRemove.AsWrittenAgreesWhenNamesUnique | scripts/asset_deduplicator.py:151-153 | when the names in all groups are unique, the list built as written is the one built from the files |
| DedupRemove.DeleteAll | scripts/asset_deduplicator.py:154-161 | the loop deletes each listed path that is a file, counts the deletions and adds up their sizes |
| DedupRemove.DeletedInOrderIsDeleted | scripts/asset_deduplicator.py:154-161 | the paths deleted one by one are exactly the listed paths that are files |
| DedupRemove.FilesToRemoveAsWrittenMembers | scripts/asset_deduplicator.py:151-153 | as written, a file is listed for removal exactly when it is in some group and its name is a key of the map |
| DedupRemove.RemoveDuplicates | scripts/asset_deduplicator.py:148-162 | the files of the as-written list that exist and can be deleted are deleted, every other file keeps its contents, and the count and bytes are those of the deleted files |
| DedupRemove.SizeSum | scripts/asset_deduplicator.py:180-181 | the sum of the sizes exists exactly when every path is a file |
| DedupRemove.GenerateReport | scripts/asset_deduplicator.py:173-191 | the loop builds the report of the groups, or raises at `stat` of a missing file |
| DedupRemove.ReportRaises | scripts/asset_deduplicator.py:177-181 | the report raises exactly when some group is empty or one of its duplicates (a member other than the canonical file) is not a file |
| DedupRemove.NoneStays | scripts/asset_deduplicator.py:177-181 | once a group raises, the report stays raised |
| DedupRemove.ReportGroupFigures | scripts/asset_deduplicator.py:178-184 | each report entry names the head of the sorted group as canonical and lists exactly the other members as duplicates, one fewer than the group when its members are distinct |
| Assoc.Put | scripts/asset_deduplicator.py:128 | `d[k] = v` gives `k` the value `v`, and adds an entry exactly when `k` is new |
| Assoc.UpdateGet | scripts/metadata_injector.py:77 | after `d.update(u)` each key of `u` has its value from `u` and every other key keeps its old one |
| Transformer.HashedFilenameShape | scripts/transformer.py:198-200 | the name is the base name, `_`, the first twelve characters of the digest, and the extension |
| Transformer.HashedFilenameParts | scripts/transformer.py:198-200 | with a full 32-character digest, the name determines the base name and the digest's first twelve characters |
| Transformer.GuessExtensionRules | scripts/transformer.py:187-196 | `jpeg` in the content type gives `.jpg`, else `png` gives `.png`, else `gif` gives `.gif`, else `.img`; no content type gives `.png`; each rule in both directions |
| Transformer.FirstImageAt | scripts/transformer.py:184 | the position found is the leftmost match of `image/\w` from the start given, and no earlier position matches |
| Transformer.ImageExtensionDefault | scripts/transformer.py:183-185 | without such a match the extension is `.png` |
| Transformer.ImageExtensionAt | scripts/transformer.py:183-185 | with a match it is `.` and the longest run of subtype characters after the leftmost `image/` |
| Transformer.IndexOf | scripts/transformer.py:178 | the index found holds the first `,`, and without one there is no index |
| Transformer.DecodeBase64 | scripts/transformer.py:176-181 | the payload after the first comma, decoded; none when there is no comma or the decoding raises |
| Transformer.DataUriRoundTrip | scripts/transformer.py:176-181 | a data URI built from a header without a comma and the encoding of some bytes decodes back to those bytes |
| Transformer.ObsidianImgShape | scripts/transformer.py:202-203 | the token is `![[`, the name and `]]` |
| Transformer.ObsidianImgFollowsConsolidation | scripts/transformer.py:202-203 | the token the transformer writes is rewritten to the canonical token by a later consolidation that maps its name |
| Transformer.FinalizeMarkdownShape | scripts/transformer.py:235-242 | the result has no leading or trailing whitespace and no run of four newlines |
| Transformer.FinalizeMarkdownChars | scripts/transformer.py:235-242 | every character of the result comes from the input |
| Base64.Encode | scripts/transformer.py:179 | the partner encoder of section 4 of RFC 4648: three bytes make four characters, and a final one or two bytes are padded with `=` |
| Base64.DecodeEncode | scripts/transformer.py:179 | decoding the encoding gives the original bytes (section 4 of RFC 4648) |
| Base64.JunkSkipped | scripts/transformer.py:179 | characters outside the alphabet are discarded before decoding, as `b64decode` does without `validate` |
| Base64.UnpaddedDecodes | scripts/transformer.py:179 | without padding, a payload decodes exactly when its alphabet characters complete the quad in progress |
| Base64.NonAsciiRejected | scripts/transformer.py:179 | a non-ASCII character makes the decoding raise |
| TransformerImages.StepEmpty | scripts/transformer.py:139-141 | an empty source is skipped |
| TransformerImages.StepDecodeFailed | scripts/transformer.py:145-148 | a data URI that does not decode, or decodes to nothing, is kept and counts nothing |
| TransformerImages.StepDecoded | scripts/transformer.py:145-156 | a decoded image is saved under its hashed name, or the write raises |
| TransformerImages.StepFetchFailed | scripts/transformer.py:170-172 | a failed download is kept and counts as external |
| TransformerImages.StepFetched | scripts/transformer.py:161-169 | a fetched picture is saved under its hashed name with the extension of its content type; a failing write is handled like a failed download |
| TransformerImages.ProcessImage | scripts/transformer.py:138-172 | one iteration either raises at a data-image write or gives the next state of the step its source calls for |
| TransformerImages.SaveDataImage | scripts/transformer.py:144-156 | a data source raises exactly when its decoded image cannot be written |
| TransformerImages.SaveAttachment | scripts/transformer.py:152-156 | the write raises exactly when writing that name for that tag fails; otherwise the tag is replaced and the map records the name |
| TransformerImages.FetchImage | scripts/transformer.py:159-172 | a remote source never raises |
| TransformerImages.ProcessImages | scripts/transformer.py:124-174 | the loop gives the state of the specification fold, or the state at the write that raised |
| TransformerImages.RaiseStays | scripts/transformer.py:152 | once the loop has raised, the whole call has raised |
| TransformerImages.FoldRaisesIff | scripts/transformer.py:138-172 | the loop raises exactly when some step raises |
| TransformerImages.StepClasses | scripts/transformer.py:138-172 | a step saves from a data URI exactly for a decoded image, and counts as external exactly for a remote source with downloading on |
| TransformerImages.RaisesIff | scripts/transformer.py:138-172 | `_process_images` raises exactly when the write of some decoded image raises |
| TransformerImages.Counters | scripts/transformer.py:135-172 | `extracted` counts the sources that decode to a non-empty image, `external` counts the attempted downloads, and every tag is accounted for |
| TransformerImages.TagsAndMap | scripts/transformer.py:154-168 | a saved image's tag becomes its embed token and every other tag is kept; under a saved tag's source the map holds the name saved for the last tag with that source, which may differ from this tag's own when a later download of the same URL answers with other content |
| TransformerImages.FoldMap | scripts/transformer.py:154-167 | each key of `image_map` holds the name of the last saved source with that key, and a key no saved source has is absent |
| TransformerImages.LastSaved | scripts/transformer.py:154-167 | the position found is a saved source with that key and no later one is; none is found only when no source with that key was saved |
| TransformerImages.MapRecordsOwnName | scripts/transformer.py:154-167 | when every tag with the same source takes the same step, the map records a saved tag's own name under its source |
| TransformerImages.MapKeys | scripts/transformer.py:154-168 | a key is in `image_map` exactly when it is the source of a saved image |
| TransformerImages.NoDownloadNoExternal | scripts/transformer.py:159 | with downloading off nothing counts as external |
| Markup.StripTags | scripts/transformer.py:237 | `re.sub(r'<[^>]+>', '', ...)` keeps only characters of the input, and keeps a first character that does not open a tag |
| Markup.StripTagsTagFree | scripts/transformer.py:237 | the stripped text holds no complete tag |
| Markup.StripTagsKeepsTagFree | scripts/transformer.py:237 | a text without tags is unchanged |
| Markup.Collapse | scripts/transformer.py:240 | after `re.sub(r'\n{m,}', '\n\n', ...)` no run of `m` newlines is left, and only characters of the input remain |
| Markup.FenceCountAt | scripts/sanitizer.py:159 | each ```` ``` ```` after a stretch without backticks counts once |
| NoteFiles.Stem | scripts/metadata_injector.py:111 | the stem is the name without its suffix |
| Sanitizer.CleanPipeline | scripts/sanitizer.py:82-89 | the cleaned text holds no zero-width character |
| Sanitizer.MalformedLinkUnclosed | scripts/sanitizer.py:162-163 | a `](` never closed by `)` is reported |
| Sanitizer.MalformedLinkNeedsOpen | scripts/sanitizer.py:162-163 | without `](` no malformed link is reported |
| Sanitizer.HtmlTagsNoAngle | scripts/sanitizer.py:166 | without `<` no leftover tag is found |
| Sanitizer.HtmlTagsAt | scripts/sanitizer.py:166 | an opening `div`, `span`, `font` or `center` tag is found by its name and the scan goes on after its `>` |
| Sanitizer.ValidateMarkdownIssues | scripts/sanitizer.py:157-169 | the note is valid exactly when no issue is found, which is when all four checks pass; an odd number of fences is reported first, and exactly when the number is odd |
| Sanitizer.SanitizeFileWrites | scripts/sanitizer.py:42-63 | only the given note can change, and only when the pipeline changes its text; the call succeeds exactly when the note reads and is either unchanged or writable, and the note then holds the cleaned text |
| Sanitizer.SanitizeBatch | scripts/sanitizer.py:65-76 | the loop counts the notes for which `sanitize_file` gave True |
| Sanitizer.BatchFrame | scripts/sanitizer.py:65-76 | the count is at most the batch size, the failure sets stay, and no note outside the batch changes |
| Sanitizer.BatchAllSucceed | scripts/sanitizer.py:65-76 | when every note exists, reads and is writable, every note counts |
| Sanitizer.BatchNoneReadable | scripts/sanitizer.py:65-76 | when no note reads, nothing counts and nothing changes |
| SanitizerSpace.DropTrailingBlanksClean | scripts/sanitizer.py:122 | no line ends in a space or tab any more |
| SanitizerSpace.DropTrailingBlanksNonSpace | scripts/sanitizer.py:122 | the non-whitespace characters stay, in order |
| SanitizerSpace.CollapseKeepsClean | scripts/sanitizer.py:123 | collapsing blank lines keeps lines free of trailing blanks |
| SanitizerSpace.CollapseNonSpace | scripts/sanitizer.py:123 | collapsing blank lines keeps the non-whitespace characters |
| SanitizerSpace.NormalizeWhitespaceShape | scripts/sanitizer.py:121-126 | no trailing blanks, no three newlines in a row, exactly one final newline, and the same non-whitespace characters |
| SanitizerSpace.EndLine | scripts/sanitizer.py:124 | `rstrip() + "\n"` ends in exactly one newline |
| SanitizerSpace.FenceNewlineAt | scripts/sanitizer.py:148 | an opening fence followed by blanks and a newline is followed by exactly one newline |
| SanitizerSpace.FenceNewlineNonSpace | scripts/sanitizer.py:148 | that step keeps the non-whitespace characters |
| SanitizerSpace.BlankBeforeFenceNonSpace | scripts/sanitizer.py:149 | the blank line before a fence keeps the non-whitespace characters |
| SanitizerSpace.BlankAfterFenceNonSpace | scripts/sanitizer.py:150 | the blank line after a fence keeps the non-whitespace characters |
| SanitizerSpace.FixCodeBlocksNonSpace | scripts/sanitizer.py:147-151 | fixing the code blocks changes whitespace only |
| SanitizerTables.PipeNormNoPipe | scripts/sanitizer.py:136 | a line without `\|` is unchanged |
| SanitizerTables.PipeNormAt | scripts/sanitizer.py:136 | the first pipe and the whitespace around it become ` \| ` |
| SanitizerTables.PipeNormLead | scripts/sanitizer.py:136 | leading blanks before a first pipe become one space |
| SanitizerTables.PipeNormNonSpace | scripts/sanitizer.py:136 | the non-whitespace characters of the line stay |
| SanitizerTables.PipeNormNoNewline | scripts/sanitizer.py:136 | no newline is introduced |
| SanitizerTables.DashRunsNoDash | scripts/sanitizer.py:138 | a line without `-` is unchanged |
| SanitizerTables.DashRunsAt | scripts/sanitizer.py:138 | the first run of dashes becomes exactly `---` |
| SanitizerTables.DashRunsIdempotent | scripts/sanitizer.py:138 | normalising the dashes twice is normalising them once |
| SanitizerTables.FixLineNoNewline | scripts/sanitizer.py:134-138 | a fixed table line stays one line |
| SanitizerTables.FixTableLines | scripts/sanitizer.py:133-143 | the loop gives the specification's list of lines |
| SanitizerTables.TableLinesLength | scripts/sanitizer.py:129-145 | the result has one line per input line plus one per blank line inserted before a table |
| SanitizerTables.TableLinesAt | scripts/sanitizer.py:133-143 | input line `i` sits after the blank lines inserted before it; it is fixed exactly when it is a table line, and a blank line precedes it where a table opens after text |
| SanitizerTables.TableLinesNoNewline | scripts/sanitizer.py:133-143 | every result line is one line |
| SanitizerTables.FixTables | scripts/sanitizer.py:128-145 | `_fix_tables` gives the lines of the specification joined by newlines |
| SanitizerTables.FixTablesLines | scripts/sanitizer.py:128-145 | splitting the result gives the fixed lines, and there are at least as many as before |
| SanitizerLinks.FixWikilinksAt | scripts/sanitizer.py:109-114 | `[[x]]` becomes `[[x]]` with `x` stripped and free of tags, and the scan goes on after it |
| SanitizerLinks.FixEmptyLinksAt | scripts/sanitizer.py:116 | a link with only whitespace as its target becomes its text |
| SanitizerLinks.FixImagesAt | scripts/sanitizer.py:118 | `![](u)` becomes `![u](u)` |
| SanitizerLinks.FixImagesNoBracket | scripts/sanitizer.py:118 | a text without `[` is unchanged |
| SanitizerLinks.FixLinksNoBracket | scripts/sanitizer.py:107-119 | a text without `[` goes through the link fixes unchanged |
| MetadataRules.PipePairsRows | scripts/metadata_injector.py:162 | `re.findall(r'\|.*\|')` counts the lines that hold at least two pipes |
| MetadataRules.ClassifyNoteTypeRules | scripts/metadata_injector.py:160-171 | the type is `snippet`, `documentation`, `article` or `note`, each under its conditions in priority order, in both directions |
| MetadataRules.IdentifySourceEvernote | scripts/metadata_injector.py:151-152 | a mention of Evernote in any case makes the source `evernote` |
| MetadataRules.IdentifySourceWeb | scripts/metadata_injector.py:153-155 | otherwise the leftmost web address among the first 1000 characters is the source |
| MetadataRules.IdentifySourceExport | scripts/metadata_injector.py:156-157 | otherwise `export` in the file name makes the source `evernote_export` |
| MetadataRules.IdentifySourceUnknown | scripts/metadata_injector.py:158 | otherwise the source is `unknown` |
| MetadataRules.WebSourceShape | scripts/metadata_injector.py:153 | a web source opens with `http://` or `https://` and has at least one character after it |
| MetadataRules.ExtractTitleHeading | scripts/metadata_injector.py:106-110 | a title taken from a heading has no emphasis characters and comes from that heading's line |
| MetadataRules.ExtractTitleFirstLine | scripts/metadata_injector.py:106-110 | a note opening with `# x` takes its title from `x`, stripped and without emphasis characters |
| MetadataRules.ExtractTitleNoHeading | scripts/metadata_injector.py:111 | without `#` the title comes from the stem |
| MetadataRules.ExtractTitleStem | scripts/metadata_injector.py:111 | that title has the stem's length, no `_` or `-`, and the stem's other non-letters in place |
| MetadataRules.TitleCaseKeeps | scripts/metadata_injector.py:111 | `title()` changes letters only, and only into letters |
| MetadataRules.ExtractCreationDate | scripts/metadata_injector.py:113-131 | the date is the fallback or an ISO date found among the first 500 characters |
| MetadataRules.ExtractCreationDateFound | scripts/metadata_injector.py:119-124 | with an ISO date among the first 500 characters, the leftmost one is the date |
| MetadataRules.ExtractCreationDateFallback | scripts/metadata_injector.py:125-131 | without one, the date is the fallback |
| MetadataTags.HashtagsAll | scripts/metadata_injector.py:134 | the hashtags found are exactly the matches of `(?<!^)(?<!#)#(\w+)` at every position, in order |
| MetadataTags.HashtagWord | scripts/metadata_injector.py:134 | a hashtag is a non-empty word without `/` |
| MetadataTags.TopicTagsSlash | scripts/metadata_injector.py:135-142 | every topic tag holds a `/` |
| MetadataTags.KeywordTagList | scripts/metadata_injector.py:143-146 | a topic tag is listed exactly when its keyword occurs in the lower-cased text |
| MetadataTags.SortedUnique | scripts/metadata_injector.py:148 | a strictly sorted list is determined by its elements |
| MetadataTags.SortedList | scripts/metadata_injector.py:148 | `sorted(list(set))` is strictly sorted and holds exactly the set |
| MetadataTags.ExtractTags | scripts/metadata_injector.py:133-148 | the tags are strictly sorted and are exactly the tag set |
| MetadataTags.TagListTags | scripts/metadata_injector.py:148 | the tag list is strictly sorted and holds exactly the tags |
| MetadataTags.TagSetRules | scripts/metadata_injector.py:133-148 | `migrated` is always a tag; a topic tag is there exactly when its keyword occurs; every other tag is a hashtag |
| Metadata.ExtractMetadata | scripts/metadata_injector.py:93-103 | the method fills the dictionary of the specification |
| Metadata.MetadataOfKeys | scripts/metadata_injector.py:93-103 | the metadata has its eight keys, distinct and in assignment order |
| Metadata.MetadataOfFields | scripts/metadata_injector.py:93-103 | each field holds the value of its rule, the clock's dates and the `completed` status |
| Metadata.GetOr | scripts/metadata_injector.py:179-186 | `get` gives the stored value, or the default for a missing key |
| Metadata.FrontmatterFields | scripts/metadata_injector.py:177-187 | the frontmatter has exactly the eight keys in fixed order, each with the metadata's value or its default, and drops every other key |
| Metadata.FrontmatterDefaults | scripts/metadata_injector.py:178-187 | the defaults are `Untitled`, `[]`, `unknown`, `note`, `completed` and `None` for the dates |
| Metadata.GenerateFrontmatterFences | scripts/metadata_injector.py:188-189 | the frontmatter opens with `---` and a newline and closes with `---` |
| Metadata.InjectWrites | scripts/metadata_injector.py:33-56 | only the given note can be written, and only when it reads and does not open with `---`; it then holds the frontmatter, a newline and its old text; the result is True exactly when it was skipped or written |
| Metadata.InjectSkips | scripts/metadata_injector.py:40-43 | a note that already opens with `---` is left alone and the call gives True |
| Metadata.InjectWritten | scripts/metadata_injector.py:41-49 | a written note is skipped by the next call |
| Metadata.InjectIdempotent | scripts/metadata_injector.py:41-49 | injecting twice is injecting once, whatever the clock says the second time |
| Metadata.SplitFrontmatter | scripts/metadata_injector.py:69-71 | the split fails exactly when no second `---` follows the opening one |
| Metadata.SplitFrontmatterParts | scripts/metadata_injector.py:69-74 | the parts are the text up to the second `---` and the text after it |
| Metadata.UpdateMetadataGuards | scripts/metadata_injector.py:62-71 | without a frontmatter, or with only one `---`, the call gives False; a False call writes nothing, and only the given note can change |
| Metadata.UpdateMetadataOverrides | scripts/metadata_injector.py:73-82 | on success the note holds the frontmatter of the loaded metadata with the updates laid over it, then the body with leading whitespace removed |
| Metadata.UpdateDropsOtherKeys | scripts/metadata_injector.py:178-187 | an update of a key outside the eight frontmatter keys is lost |
| Auditor.ScaledMbNearest | scripts/auditor.py:232 | `:.2f` of the size in MiB is the nearest value, with an exact half going to the even neighbour |
| Auditor.ComplexityMonotone | scripts/auditor.py:205-219 | the score never falls when a count, the size term or the warnings grow, and the warnings add at most 35 |
| Auditor.ComplexityOfScan | scripts/auditor.py:205-219 | the score adds 20 exactly when a table is nested and 15 exactly when a table has merged cells |
| Auditor.AnyIssue | scripts/auditor.py:213-217 | the warnings mention an issue's word exactly when that issue was found |
| Auditor.LargeFileWords | scripts/auditor.py:140 | the large-file warning mentions neither `nested` nor `merged` |
| Auditor.CalculateComplexity | scripts/auditor.py:205-219 | the method computes the score of the counts, the size and the warnings |
| Auditor.FileAudit.constructor | scripts/auditor.py:45-57 | a new audit has zero counts, no flags, no warnings and no errors |
| Auditor.ScanInto | scripts/auditor.py:143-160 | the counts are added, each flag is its count being positive, the issues follow the earlier warnings, the score is computed and the high-complexity warning is added last when the score exceeds 120 |
| Auditor.AuditFile | scripts/auditor.py:132-166 | for a file whose size the stat of line 135 gave, the audit is the specification's record of the file |
| Auditor.RaiseInto | scripts/auditor.py:143-164 | a scan that raises keeps the counts and issue warnings it added before the exception, sets no flag and no score, and appends the message as an error |
| Auditor.AuditOfRaised | scripts/auditor.py:143-164 | a scan that raises keeps the counts found before the raise and leaves the large-file warning, if any, then the issues found, the flags unset, the score 0 and one error |
| Auditor.AuditOfRules | scripts/auditor.py:138-164 | the counts are the scan's; a scanned file's flags follow its counts and a raised scan sets none; the large-file warning comes first exactly above 100 MiB; the high-complexity warning is present exactly when the score exceeds 120 |
| Auditor.WarningOrder | scripts/auditor.py:138-160 | no issue text can pass for the large-file or the high-complexity warning |
| Auditor.AuditReport.constructor | scripts/auditor.py:60-71 | a new report is empty and valid |
| Auditor.AuditReport.Include | scripts/auditor.py:111-121 | the audit is appended and its counts, size, warnings and errors are added |
| Auditor.SourceFiles | scripts/auditor.py:98-101 | exactly the walked files ending in `.html` or `.enex` are audited |
| Auditor.AuditFiles | scripts/auditor.py:110-135 | the loop raises exactly when some file cannot be measured; otherwise it audits every file in order and accumulates the totals |
| Auditor.AuditDirectory | scripts/auditor.py:90-135 | the call raises exactly when the directory exists, has source files, and one of them cannot be measured; otherwise the report is the specification's report, and its audits are those of the source files in order |
| Auditor.AccumulateTotals | scripts/auditor.py:110-121 | the totals are the number of audits and the sums of their counts and sizes; the warnings and errors are theirs in file order |
| Auditor.ConcatOfEmpty | scripts/auditor.py:123-124 | the joined errors are empty exactly when each audit's are |
| Auditor.ReportInvalidCases | scripts/auditor.py:93-106 | a missing directory, or one without source files, gives an invalid report with one error and nothing else |
| Auditor.ReportValidity | scripts/auditor.py:123-124 | once files are audited, the report is valid exactly when every file was scanned without error |
| AuditorReport.GenerateTextReport | scripts/auditor.py:225-253 | the text is the report's lines joined by newlines |
| AuditorReport.ErrorLines | scripts/auditor.py:240-243 | the errors section is a heading and a bullet per error, or nothing without errors |
| AuditorReport.WarningLines | scripts/auditor.py:245-250 | the warnings section is a heading, the first ten warnings and the overflow line |
| AuditorReport.ReportFrame | scripts/auditor.py:225-253 | the rule opens and closes the report, the status line says PASSED exactly when the report is valid, and the line count follows the errors and warnings |
| AuditorReport.ErrorsListed | scripts/auditor.py:240-243 | every error is listed |
| AuditorReport.WarningsListed | scripts/auditor.py:245-248 | the first ten warnings are listed |
| AuditorReport.OverflowPlace | scripts/auditor.py:249-250 | the `... and n more` line is present exactly when there are more than ten warnings |

## Left out

- File I/O is modelled as values. The store of images, the notes and the sets of unreadable or unwritable paths are given, and a write either happens or raises.
- Directory walks (`rglob`) are a given sequence, because their order depends on the filesystem.
- MD5 and the chunked read of `_hash_file` are a parameter digest function, because the hash itself is not what the code decides.
- `_hash_file` raising is modelled only as a path being left out of the hash map, because lines 102-106 do no more with it.
- The outer `except` of `deduplicate_directory` is not modelled, because every modelled stage handles its own errors; `errors` is therefore always empty.
- `generate_report` is modelled by its integer figures. The MB and KB text of its summary is floating-point formatting and is left out.
- The `requests` download of `transformer.py` is a parameter `fetch` that returns content and a content type or fails. It takes the tag's position as well as the URL, since every `<img>` is downloaded anew and two tags with one URL may get different answers. The attachment writes that raise are likewise given per tag.
- BeautifulSoup and lxml are HTML parsers that cannot be modelled here. The model leaves out `_extract_html`, the tag replacement in the tree, and the counts of `_audit_html` and `_audit_enex`; ElementTree goes with them. Their findings are the parameter `Scan` of `_audit_file`. When the scan raises (a later ENEX note whose content neither parser accepts), `Scan` carries the counts and issues already found.
- The pandoc call of `transform_file` and its fallback are left out, because they run an external program.
- `transform_file` and the `TransformResult` record are left out, because they only order the modelled steps and the I/O around them.
- `_remove_html_artifacts` is the parameter `removeHtml` of the sanitizer pipeline. It is a chain of regular-expression deletions (comments, empty tag pairs through a backreference, `style` and `class` attributes, and `div`, `span`, `font` and `center` tags), outside the modelled core, and no modelled property depends on what it removes.
- `validate_markdown`'s text for the set of leftover tag names is a given text, because it prints a Python set, whose order is not defined.
- `yaml.dump` is a parameter `Dump`. `yaml.safe_load` is a parameter that raises, gives a falsy value or gives a mapping.
- `datetime.now`, `date.today`, the file's creation time and the report time stamp are fields of a `Clock`, or a given text.
- `int(file_size / 1024 * 0.1)` is the parameter `sizeTerm`, because it is floating point.
- Logging is left out, because it does not affect results.
- The command-line entry points are not part of this model.
- Regex `\w` and `\d`, `lower()` and `title()` are modelled for ASCII, because Unicode character tables are out of scope.
- MetadataRules.ExtractCreationDate: `\d` of lines 115 and 123 is read as an ASCII digit, so an ISO date written in other decimal digits (such as `٢٠٢٤-٠١-٠٥`) is not found.
- MetadataRules.ExtractCreationDateFound: holds for ISO dates in ASCII digits only, for the reason above.
- MetadataRules.ExtractCreationDateFallback: "without an ISO date" means without one in ASCII digits, so a note whose only date uses other decimal digits gets the fallback in the model but its own date in the code.
- SanitizerSpace.NormalizeWhitespaceShape: the heading substitution of line 125 is not written out. It needs three newlines in a row, and line 123 has just removed them, so it never changes anything.
- MetadataRules.ExtractCreationDate: the second and third patterns of lines 115-124 are not written out. A date they find is returned only if it opens with an ISO date, which neither pattern can match, so they never decide the result.
- LinkRewrite.LinkRewritten: the note rewriting reads names literally, not as regular expressions. For a name whose characters are all ordinary, both readings agree on every note (LinkRewrite.SubAgreesWithoutSpecials); but every name the pass groups ends in an image suffix with a dot, so that agreement covers no key it produces. For those keys only one direction is proved: where the literal reading matches, the regular expression matches the same link (LinkRewrite.LiteralMatchIsRegexMatch). A dot in a name matches any character (see Findings). Parentheses form a group, so a link to a copy such as `image (1).png` is not retargeted while the file is still deleted (see Findings). A name with an unbalanced `(` or `)`, a `[`, or another metacharacter either matches differently or makes line 140 raise `re.error`. That error is caught per note, so no note is updated at all. LinkRewrite.LinkMatchAsWritten covers only names whose special characters are dots and balanced parentheses. The other cases are not modelled.
- LinkRewrite.LinkSubAsWritten: a backslash in the new name is read as an escape of the replacement template. The model requires the new name to have none.
- The code does not gate deletion on the link update succeeding, does not rewrite bare `[[name]]` links (LinkRewrite.BareWikilinkUntouched), and does not check for an existing file before writing an extracted image. The model follows the code in these.
- Writes are modelled as atomic: a failed write raises and leaves the old text. `Path.write_text` opens the file with truncation, so a write that fails after the open (a full disk, say) leaves a truncated note, and that state is not modelled.
- Dedup.DeduplicateDirectory: the notes' new text is the literal rewrite of LinkRewrite.LinkRewritten, not what the unescaped pattern of line 140 gives. For a name with dots or parentheses the two differ (see LinkRewrite.LinkRewritten and Findings), so this contract does not state the notes' text for such names.
- DedupNotes.UpdateMarkdownLinks: the same holds here. The notes get the literal rewrite, and for a name with dots or parentheses the code's own text differs (see LinkRewrite.LinkRewritten and Findings).
- A note whose write fails is not counted as updated and keeps its old links, while the images those links name are still deleted. The model follows the code here as well.

## Findings

| source | as written | input that shows it | evidently intended | confidence | as-written member | corrected member |
|---|---|---|---|---|---|---|
| scripts/asset_deduplicator.py:140 | the file name is put into the pattern unescaped, so `.` matches any character | the map `a.png -> b.png` and a note with `![x](aXpng)` | only links to `a.png` are retargeted | not executed | LinkRewrite.DotRetargetsOtherFile | LinkRewrite.LiteralKeepsOtherFile |
| scripts/asset_deduplicator.py:140 | the file name is put into the pattern unescaped, so parentheses form a group | the map `a (1).png -> a.png` and a note with `![x](a (1).png)` | the link is retargeted to the kept file | not executed | LinkRewrite.GroupedNameKeepsLink | LinkRewrite.LiteralRetargetsGroupedName |
| scripts/asset_deduplicator.py:151-153 | the files to remove are chosen by name, which is the key of the replacement map | two identical files `a/x.png` and `b/x.png` give the entry `x.png -> x.png`, so both are removed | the canonical file of each group is kept | not executed | DedupRemove.SameNameLosesEveryCopy | DedupRemove.CanonicalKept |
