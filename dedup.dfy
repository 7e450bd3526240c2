/** The asset consolidation pass as a whole (scripts/asset_deduplicator.py,
    `deduplicate_directory`): hash the attachments, group the duplicates,
    build the replacement map, rewrite the notes, delete the duplicates,
    and report the counts. */
module Dedup {

  import opened Bytes
  import opened Assoc
  import opened DedupStore
  import opened DedupCanonical
  import opened DedupNotes
  import opened DedupRemove

  /** `DeduplicationResult`. */
  datatype DeduplicationResult = DeduplicationResult(
    totalFiles: nat, duplicatesFound: int, duplicatesRemoved: nat,
    bytesSaved: nat, filesUpdated: nat, errors: seq<string>)

  /** `deduplicate_directory`: the result, the attachment files left and the
      texts of the notes. */
  method DeduplicateDirectory(st: Store, v: Vault, md5: seq<byte> -> Digest)
    returns (res: DeduplicationResult, files: map<Path, seq<byte>>, text: map<Path, string>)
    ensures res.totalFiles == |HashedPaths(st, st.walk)|
    ensures res.duplicatesFound == |HashedPaths(st, st.walk)| - |Group(st, md5, st.walk)|
    ensures res.errors == []
    ensures var gs := FindDuplicates(Group(st, md5, st.walk));
      gs == [] ==> res.filesUpdated == 0 && res.duplicatesRemoved == 0 && res.bytesSaved == 0
                   && files == st.files && text == v.text
    ensures var gs := FindDuplicates(Group(st, md5, st.walk));
      gs != [] ==>
        var m := ReplacementMapOf(gs);
        res.filesUpdated == |NotesUpdated(v, m)| && text == NotesAfter(v, m)
        && files == st.files - Deleted(st, FilesToRemoveAsWritten(gs, m))
        && res.duplicatesRemoved == |DeletedInOrder(st, FilesToRemoveAsWritten(gs, m))|
        && res.bytesSaved == Sizes(st.files, DeletedInOrder(st, FilesToRemoveAsWritten(gs, m)))
  {
    var hashMap := HashAllFiles(st, md5);
    GroupContents(st, md5, st.walk);
    DuplicatesFound(st, md5);
    var total := Total(hashMap);
    var groups := FindDuplicates(hashMap);
    res := DeduplicationResult(total, Excess(groups), 0, 0, 0, []);
    files, text := st.files, v.text;
    if groups == [] {
      return;
    }
    var replacementMap := BuildReplacementMap(groups);
    var updated;
    text, updated := UpdateMarkdownLinks(v, replacementMap);
    res := res.(filesUpdated := |updated|);
    var bytesSaved, removed;
    files, bytesSaved, removed := RemoveDuplicates(st, groups, replacementMap);
    res := res.(duplicatesRemoved := removed, bytesSaved := bytesSaved);
  }

  // ---------------------------------------------------------------------
  // The groups of a walk
  // ---------------------------------------------------------------------

  /** The lists of the hash map share no path: a path has one digest. */
  lemma BucketsDisjoint(st: Store, md5: seq<byte> -> Digest, i: nat, k: nat, x: Path)
    requires i < k < |Group(st, md5, st.walk)|
    requires x in Group(st, md5, st.walk)[i].1
    ensures x !in Group(st, md5, st.walk)[k].1
  {
    var b := Group(st, md5, st.walk);
    GroupContents(st, md5, st.walk);
    BucketOfPath(st, md5, i, x);
    BucketOfPath(st, md5, k, x);
  }

  /** The lists of `b` that `FindDuplicates` keeps are lists of `b`. */
  lemma {:induction false} DuplicatesOfBuckets(b: Buckets, j: nat) returns (i: nat)
    requires j < |FindDuplicates(b)|
    ensures i < |b| && FindDuplicates(b)[j] == b[i].1
    decreases |b|
  {
    var init := b[..|b| - 1];
    var r0 := FindDuplicates(init);
    if j < |r0| {
      i := DuplicatesOfBuckets(init, j);
      assert init[i] == b[i];
    } else {
      i := |b| - 1;
    }
  }

  /** ... and they keep their order. */
  lemma {:induction false} DuplicatesInOrder(b: Buckets, j: nat, l: nat) returns (i: nat, k: nat)
    requires j < l < |FindDuplicates(b)|
    ensures i < k < |b| && FindDuplicates(b)[j] == b[i].1 && FindDuplicates(b)[l] == b[k].1
    decreases |b|
  {
    var init := b[..|b| - 1];
    var r0 := FindDuplicates(init);
    if l < |r0| {
      i, k := DuplicatesInOrder(init, j, l);
      assert init[i] == b[i] && init[k] == b[k];
    } else {
      i := DuplicatesOfBuckets(init, j);
      assert init[i] == b[i];
      k := |b| - 1;
    }
  }

  /** The duplicate groups of a walk share no path. */
  lemma GroupsOfWalkDisjoint(st: Store, md5: seq<byte> -> Digest)
    ensures GroupsDisjoint(FindDuplicates(Group(st, md5, st.walk)))
  {
    var b := Group(st, md5, st.walk);
    var gs := FindDuplicates(b);
    forall j, l, x | 0 <= j < l < |gs| && x in gs[j] ensures x !in gs[l] {
      var i, k := DuplicatesInOrder(b, j, l);
      BucketsDisjoint(st, md5, i, k, x);
    }
  }

  /** When no two grouped files share a name, the pass keeps the canonical
      member of every duplicate group and deletes every other member. */
  lemma CanonicalSurvivesWhenNamesUnique(st: Store, md5: seq<byte> -> Digest, i: nat, x: Path)
    requires var gs := FindDuplicates(Group(st, md5, st.walk));
      NamesUnique(gs) && i < |gs| && x in gs[i]
    ensures var gs := FindDuplicates(Group(st, md5, st.walk));
      x in FilesToRemoveAsWritten(gs, ReplacementMapOf(gs)) <==> x != MinByKey(gs[i])
  {
    var gs := FindDuplicates(Group(st, md5, st.walk));
    GroupsOfWalkDisjoint(st, md5);
    AsWrittenAgreesWhenNamesUnique(gs);
    CanonicalKept(gs, i, x);
  }

  /** Whatever the names, the pass deletes a group's canonical member as soon
      as its name is a key of the replacement map, be it through a duplicate
      of the same group or of another one. */
  lemma CanonicalDeletedWhenNameMapped(st: Store, md5: seq<byte> -> Digest, i: nat)
    requires var gs := FindDuplicates(Group(st, md5, st.walk));
      i < |gs| && HasKey(ReplacementMapOf(gs), MinByKey(gs[i]).name)
    ensures var gs := FindDuplicates(Group(st, md5, st.walk));
      MinByKey(gs[i]) in FilesToRemoveAsWritten(gs, ReplacementMapOf(gs))
  {
    var gs := FindDuplicates(Group(st, md5, st.walk));
    MinByKeyMember(gs[i]);
    FilesToRemoveAsWrittenMembers(gs, ReplacementMapOf(gs), MinByKey(gs[i]));
  }
}
