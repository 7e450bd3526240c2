/** Step 5 of the asset consolidation pass and the duplicate report
    (scripts/asset_deduplicator.py, `_remove_duplicates` and
    `generate_report`): which files of the duplicate groups are deleted,
    what their deletion saves, and the per-group figures of the report. */
module DedupRemove {

  import opened Wrappers
  import opened Strings
  import opened Bytes
  import opened Assoc
  import opened DedupStore
  import opened DedupCanonical

  // ---------------------------------------------------------------------
  // The files to remove, as written (lines 151-153)
  // ---------------------------------------------------------------------

  /** The members of `g`, in order, whose name is a key of the map. */
  function KeyedMembers(g: seq<Path>, m: ReplacementMap): (r: seq<Path>)
    ensures forall x :: x in r <==> x in g && HasKey(m, x.name)
    decreases |g|
  {
    if |g| == 0 then []
    else
      var init := g[..|g| - 1];
      assert g == init + [g[|g| - 1]];
      KeyedMembers(init, m) + (if HasKey(m, g[|g| - 1].name) then [g[|g| - 1]] else [])
  }

  /** Lines 151-153 as written: every member of every group whose name is a
      key of the map. */
  function FilesToRemoveAsWritten(gs: seq<seq<Path>>, m: ReplacementMap): seq<Path>
    decreases |gs|
  {
    if |gs| == 0 then []
    else FilesToRemoveAsWritten(gs[..|gs| - 1], m) + KeyedMembers(gs[|gs| - 1], m)
  }

  /** When another member of a group has the canonical member's name, that
      name is a key, so every member of the group is removed and no copy of
      the content is left. */
  lemma SharedCanonicalNameRemovesAll(gs: seq<seq<Path>>, i: nat, x: Path)
    requires NonEmptyGroups(gs) && i < |gs| && x in gs[i]
    requires x != MinByKey(gs[i]) && x.name == MinByKey(gs[i]).name
    ensures forall y :: y in gs[i] ==> y in FilesToRemoveAsWritten(gs, ReplacementMapOf(gs))
  {
    var m := ReplacementMapOf(gs);
    CanonicalAgrees(gs[i]);
    forall y | y in gs[i] ensures HasKey(m, y.name) {
      var z := if y == MinByKey(gs[i]) then x else y;
      OtherMemberNamed(gs[i], z);
      MapKeys(gs, z.name);
      assert RestNames(gs[i]) == Names(SortByKey(gs[i])[1..]);
      assert Rests(gs)[i] == RestNames(gs[i]);
    }
    GroupRemovedAsWritten(gs, m, i);
  }

  /** Everything `KeyedMembers` keeps of a group is in the list. */
  lemma {:induction false} GroupRemovedAsWritten(gs: seq<seq<Path>>, m: ReplacementMap, i: nat)
    requires i < |gs|
    ensures forall y :: y in KeyedMembers(gs[i], m) ==> y in FilesToRemoveAsWritten(gs, m)
    decreases |gs|
  {
    if i < |gs| - 1 {
      var init := gs[..|gs| - 1];
      assert init[i] == gs[i];
      GroupRemovedAsWritten(init, m, i);
    }
  }

  /** A path is listed exactly when it is a member of some group and its
      name is a key of the map. */
  lemma {:induction false} FilesToRemoveAsWrittenMembers(gs: seq<seq<Path>>, m: ReplacementMap, x: Path)
    ensures x in FilesToRemoveAsWritten(gs, m) <==> exists i :: 0 <= i < |gs| && x in gs[i] && HasKey(m, x.name)
    decreases |gs|
  {
    if |gs| > 0 {
      var init := gs[..|gs| - 1];
      FilesToRemoveAsWrittenMembers(init, m, x);
      if exists i :: 0 <= i < |gs| && x in gs[i] && HasKey(m, x.name) {
        var i :| 0 <= i < |gs| && x in gs[i] && HasKey(m, x.name);
        if i < |init| {
          assert x in init[i];
        }
      }
      if exists i :: 0 <= i < |init| && x in init[i] && HasKey(m, x.name) {
        var i :| 0 <= i < |init| && x in init[i] && HasKey(m, x.name);
        assert x in gs[i];
      }
    }
  }

  /** Two byte-identical files `a/x.png` and `b/x.png`: both are removed. */
  lemma SameNameLosesEveryCopy()
    ensures var a, b := Path(["a"], "x.png"), Path(["b"], "x.png");
      FilesToRemoveAsWritten([[a, b]], ReplacementMapOf([[a, b]])) == [a, b]
  {
    var a, b := Path(["a"], "x.png"), Path(["b"], "x.png");
    var m := SameNameMap();
    assert [a, b][..1] == [a] && [[a, b]][..0] == [];
    assert KeyedMembers([a], m) == [a];
    assert KeyedMembers([a, b], m) == [a, b];
  }

  /** The map built for that group sends the shared name to itself. */
  lemma SameNameMap() returns (m: ReplacementMap)
    ensures var a, b := Path(["a"], "x.png"), Path(["b"], "x.png");
      m == ReplacementMapOf([[a, b]]) && HasKey(m, "x.png")
  {
    var a, b := Path(["a"], "x.png"), Path(["b"], "x.png");
    var gs := [[a, b]];
    assert !KeyLess(a, b) && !KeyLess(b, a) by {
      StrLessIrreflexive("x.png");
    }
    assert SortByKey([b]) == [b];
    var s := SortByKey(gs[0]);
    assert s == [a, b];
    assert s[1..] == [b] && s[0].name == "x.png";
    assert gs[..0] == [] && [b][..0] == [];
    assert PutAll([], [b], "x.png") == Put([], "x.png", "x.png") == [("x.png", "x.png")];
    m := ReplacementMapOf(gs);
    assert m == PutAll(ReplacementMapOf([]), s[1..], s[0].name);
  }

  // ---------------------------------------------------------------------
  // The files to remove, as intended: every member but the canonical one
  // ---------------------------------------------------------------------

  /** The members of `g`, in order, other than `c`. */
  function Without(g: seq<Path>, c: Path): (r: seq<Path>)
    ensures forall x :: x in r <==> x in g && x != c
    decreases |g|
  {
    if |g| == 0 then []
    else
      var init := g[..|g| - 1];
      assert g == init + [g[|g| - 1]];
      Without(init, c) + (if g[|g| - 1] != c then [g[|g| - 1]] else [])
  }

  /** The duplicates of a group (line 179): its members other than the
      canonical one. */
  function Duplicates(g: seq<Path>): seq<Path>
    requires |g| > 0
  {
    Without(g, MinByKey(g))
  }

  /** The files the deletion step should remove: the duplicates of every group. */
  function FilesToRemove(gs: seq<seq<Path>>): seq<Path>
    requires NonEmptyGroups(gs)
    decreases |gs|
  {
    if |gs| == 0 then []
    else FilesToRemove(gs[..|gs| - 1]) + Duplicates(gs[|gs| - 1])
  }

  /** A path is removed exactly when it is a non-canonical member of a group. */
  lemma {:induction false} FilesToRemoveMembers(gs: seq<seq<Path>>, x: Path)
    requires NonEmptyGroups(gs)
    ensures x in FilesToRemove(gs) <==> exists i :: 0 <= i < |gs| && x in gs[i] && x != MinByKey(gs[i])
    decreases |gs|
  {
    if |gs| > 0 {
      var init := gs[..|gs| - 1];
      FilesToRemoveMembers(init, x);
      if exists i :: 0 <= i < |gs| && x in gs[i] && x != MinByKey(gs[i]) {
        var i :| 0 <= i < |gs| && x in gs[i] && x != MinByKey(gs[i]);
        if i < |init| {
          assert x in init[i] && x != MinByKey(init[i]);
        }
      }
      if exists i :: 0 <= i < |init| && x in init[i] && x != MinByKey(init[i]) {
        var i :| 0 <= i < |init| && x in init[i] && x != MinByKey(init[i]);
        assert x in gs[i] && x != MinByKey(gs[i]);
      }
    }
  }

  /** No group shares a path with another: so it is for the groups of a walk. */
  predicate GroupsDisjoint(gs: seq<seq<Path>>) {
    forall i, k, x :: 0 <= i < k < |gs| && x in gs[i] ==> x !in gs[k]
  }

  /** The canonical member of each group survives, every other member goes. */
  lemma CanonicalKept(gs: seq<seq<Path>>, i: nat, x: Path)
    requires NonEmptyGroups(gs) && GroupsDisjoint(gs) && i < |gs| && x in gs[i]
    ensures x in FilesToRemove(gs) <==> x != MinByKey(gs[i])
  {
    FilesToRemoveMembers(gs, x);
    if x in FilesToRemove(gs) {
      var k :| 0 <= k < |gs| && x in gs[k] && x != MinByKey(gs[k]);
      assert k == i;
    }
  }

  /** Without shared names the code as written removes exactly the intended files. */
  lemma AsWrittenAgreesWhenNamesUnique(gs: seq<seq<Path>>)
    requires NonEmptyGroups(gs) && NamesUnique(gs)
    ensures FilesToRemoveAsWritten(gs, ReplacementMapOf(gs)) == FilesToRemove(gs)
  {
    var m := ReplacementMapOf(gs);
    forall i | 0 <= i < |gs| ensures KeyedMembers(gs[i], m) == Duplicates(gs[i]) {
      forall x | x in gs[i] ensures HasKey(m, x.name) <==> x != MinByKey(gs[i]) {
        CanonicalAgrees(gs[i]);
        if x != MinByKey(gs[i]) {
          MapsToCanonical(gs, i, x);
        } else {
          CanonicalNotKey(gs, i);
        }
      }
      FilterAgree(gs[i], m, MinByKey(gs[i]));
    }
    ListsAgree(gs, m);
  }

  lemma {:induction false} FilterAgree(g: seq<Path>, m: ReplacementMap, c: Path)
    requires forall x :: x in g ==> (HasKey(m, x.name) <==> x != c)
    ensures KeyedMembers(g, m) == Without(g, c)
    decreases |g|
  {
    if |g| > 0 {
      var init := g[..|g| - 1];
      assert forall x :: x in init ==> x in g;
      FilterAgree(init, m, c);
    }
  }

  lemma {:induction false} ListsAgree(gs: seq<seq<Path>>, m: ReplacementMap)
    requires NonEmptyGroups(gs)
    requires forall i :: 0 <= i < |gs| ==> KeyedMembers(gs[i], m) == Duplicates(gs[i])
    ensures FilesToRemoveAsWritten(gs, m) == FilesToRemove(gs)
    decreases |gs|
  {
    if |gs| > 0 {
      var init := gs[..|gs| - 1];
      assert forall i :: 0 <= i < |init| ==> init[i] == gs[i];
      ListsAgree(init, m);
    }
  }

  // ---------------------------------------------------------------------
  // Deleting (lines 154-162)
  // ---------------------------------------------------------------------

  /** The paths of `ps` that exist and whose deletion does not raise. */
  function Deleted(st: Store, ps: seq<Path>): set<Path> {
    set p | p in ps && p in st.files && p !in st.undeletable
  }

  /** The same paths in the order they are deleted, each at its first
      occurrence in `ps`. */
  function DeletedInOrder(st: Store, ps: seq<Path>): (r: seq<Path>)
    ensures forall p :: p in r ==> p in st.files
    decreases |ps|
  {
    if |ps| == 0 then []
    else
      var init := ps[..|ps| - 1];
      var p := ps[|ps| - 1];
      DeletedInOrder(st, init)
        + (if p in st.files && p !in st.undeletable && p !in init then [p] else [])
  }

  /** The sizes `stat().st_size` of the files `ps`, added up. */
  function Sizes(files: map<Path, seq<byte>>, ps: seq<Path>): nat
    requires forall p :: p in ps ==> p in files
    decreases |ps|
  {
    if |ps| == 0 then 0 else Sizes(files, ps[..|ps| - 1]) + |files[ps[|ps| - 1]]|
  }

  /** The deletion order lists each deleted path once. */
  lemma {:induction false} DeletedInOrderIsDeleted(st: Store, ps: seq<Path>)
    ensures Distinct(DeletedInOrder(st, ps))
    ensures forall p :: p in DeletedInOrder(st, ps) <==> p in Deleted(st, ps)
    decreases |ps|
  {
    if |ps| > 0 {
      var init := ps[..|ps| - 1];
      DeletedInOrderIsDeleted(st, init);
      var p := ps[|ps| - 1];
      assert ps == init + [p];
      if p in st.files && p !in st.undeletable && p !in init {
        DistinctAppend(DeletedInOrder(st, init), p);
      }
    }
  }

  lemma DistinctAppend(s: seq<Path>, x: Path)
    requires Distinct(s) && x !in s
    ensures Distinct(s + [x])
  {
  }

  lemma SizesAppend(files: map<Path, seq<byte>>, ps: seq<Path>, p: Path)
    requires (forall q :: q in ps ==> q in files) && p in files
    ensures Sizes(files, ps + [p]) == Sizes(files, ps) + |files[p]|
  {
    assert (ps + [p])[..|ps|] == ps;
  }

  /** `_remove_duplicates`: the remaining files, the bytes saved and the
      number of files removed. */
  method RemoveDuplicates(st: Store, gs: seq<seq<Path>>, m: ReplacementMap) returns (files: map<Path, seq<byte>>, bytesSaved: nat, removed: nat)
    ensures files == st.files - Deleted(st, FilesToRemoveAsWritten(gs, m))
    ensures removed == |DeletedInOrder(st, FilesToRemoveAsWritten(gs, m))|
    ensures bytesSaved == Sizes(st.files, DeletedInOrder(st, FilesToRemoveAsWritten(gs, m)))
  {
    var toRemove := FilesToRemoveAsWritten(gs, m);
    files, bytesSaved, removed := DeleteAll(st, toRemove);
  }

  /** Lines 154-161: each path in turn is measured and deleted. A path that
      is gone already, or whose deletion raises, is skipped and not counted. */
  method DeleteAll(st: Store, toRemove: seq<Path>) returns (files: map<Path, seq<byte>>, bytesSaved: nat, removed: nat)
    ensures files == st.files - Deleted(st, toRemove)
    ensures removed == |DeletedInOrder(st, toRemove)|
    ensures bytesSaved == Sizes(st.files, DeletedInOrder(st, toRemove))
  {
    files := st.files;
    bytesSaved, removed := 0, 0;
    for i := 0 to |toRemove|
      invariant files == st.files - Deleted(st, toRemove[..i])
      invariant removed == |DeletedInOrder(st, toRemove[..i])|
      invariant bytesSaved == Sizes(st.files, DeletedInOrder(st, toRemove[..i]))
    {
      var p := toRemove[i];
      if p in files && p !in st.undeletable {
        DeleteTaken(st, toRemove, i, files);
        bytesSaved := bytesSaved + |files[p]|;
        removed := removed + 1;
        files := files - {p};
      } else {
        DeleteSkipped(st, toRemove, i, files);
      }
    }
    assert toRemove[..|toRemove|] == toRemove;
  }

  /** A pass of the loop that deletes `ps[i]`. */
  lemma DeleteTaken(st: Store, ps: seq<Path>, i: nat, files: map<Path, seq<byte>>)
    requires i < |ps| && files == st.files - Deleted(st, ps[..i])
    requires ps[i] in files && ps[i] !in st.undeletable
    ensures files - {ps[i]} == st.files - Deleted(st, ps[..i + 1])
    ensures |DeletedInOrder(st, ps[..i + 1])| == |DeletedInOrder(st, ps[..i])| + 1
    ensures Sizes(st.files, DeletedInOrder(st, ps[..i + 1]))
         == Sizes(st.files, DeletedInOrder(st, ps[..i])) + |files[ps[i]]|
  {
    var p := ps[i];
    ghost var done := DeletedInOrder(st, ps[..i]);
    RemoveStep(st, ps, i);
    assert DeletedInOrder(st, ps[..i + 1]) == done + [p];
    SizesAppend(st.files, done, p);
    FilesStep(st.files, Deleted(st, ps[..i]), p);
  }

  /** A pass of the loop that skips `ps[i]`. */
  lemma DeleteSkipped(st: Store, ps: seq<Path>, i: nat, files: map<Path, seq<byte>>)
    requires i < |ps| && files == st.files - Deleted(st, ps[..i])
    requires !(ps[i] in files && ps[i] !in st.undeletable)
    ensures files == st.files - Deleted(st, ps[..i + 1])
    ensures DeletedInOrder(st, ps[..i + 1]) == DeletedInOrder(st, ps[..i])
  {
    RemoveStep(st, ps, i);
  }

  lemma FilesStep(fs: map<Path, seq<byte>>, d: set<Path>, p: Path)
    requires p in fs - d
    ensures (fs - d)[p] == fs[p] && (fs - d) - {p} == fs - (d + {p})
  {
  }

  /** One pass of the loop at line 154. */
  lemma RemoveStep(st: Store, ps: seq<Path>, i: nat)
    requires i < |ps|
    ensures var p, pre := ps[i], ps[..i];
      var go := p in st.files && p !in st.undeletable && p !in Deleted(st, pre);
      && (go <==> p in st.files - Deleted(st, pre) && p !in st.undeletable)
      && Deleted(st, ps[..i + 1]) == Deleted(st, pre) + (if go then {p} else {})
      && DeletedInOrder(st, ps[..i + 1]) == if go then DeletedInOrder(st, pre) + [p] else DeletedInOrder(st, pre)
  {
    var p, pre := ps[i], ps[..i];
    assert ps[..i + 1][..i] == pre && ps[..i + 1][i] == p;
    assert ps[..i + 1] == pre + [p];
    assert DeletedInOrder(st, pre) + [] == DeletedInOrder(st, pre);
  }

  // ---------------------------------------------------------------------
  // The report (lines 173-191)
  // ---------------------------------------------------------------------

  /** The figures of one group: the canonical member, the duplicates and
      the bytes they take. */
  datatype GroupReport = GroupReport(canonical: Path, duplicates: seq<Path>, wastedBytes: nat)

  /** `sum(f.stat().st_size for f in ps)`; `None` when a path is not a file,
      for then `stat` raises. */
  function SizeSum(files: map<Path, seq<byte>>, ps: seq<Path>): (r: Option<nat>)
    ensures r.Some? <==> forall p :: p in ps ==> p in files
    decreases |ps|
  {
    if |ps| == 0 then Some(0)
    else
      var init := ps[..|ps| - 1];
      var p := ps[|ps| - 1];
      assert ps == init + [p];
      match SizeSum(files, init)
      case None => None
      case Some(s) => if p in files then Some(s + |files[p]|) else None
  }

  /** Lines 178-181 for one group; `min` of an empty group raises. */
  function GroupReportOf(files: map<Path, seq<byte>>, g: seq<Path>): Option<GroupReport> {
    if |g| == 0 then None
    else
      match SizeSum(files, Duplicates(g))
      case None => None
      case Some(w) => Some(GroupReport(MinByKey(g), Duplicates(g), w))
  }

  /** The group figures and `total_wasted`, or `None` when the report raises. */
  datatype Report = Report(groups: seq<GroupReport>, totalWasted: nat)

  function ReportOf(files: map<Path, seq<byte>>, gs: seq<seq<Path>>): Option<Report>
    decreases |gs|
  {
    if |gs| == 0 then Some(Report([], 0))
    else
      match ReportOf(files, gs[..|gs| - 1])
      case None => None
      case Some(r) =>
        match GroupReportOf(files, gs[|gs| - 1])
        case None => None
        case Some(g) => Some(Report(r.groups + [g], r.totalWasted + g.wastedBytes))
  }

  /** `generate_report`, its figures without the text layout. */
  method GenerateReport(files: map<Path, seq<byte>>, gs: seq<seq<Path>>) returns (r: Option<Report>)
    ensures r == ReportOf(files, gs)
  {
    var groups: seq<GroupReport> := [];
    var totalWasted: nat := 0;
    for i := 0 to |gs|
      invariant ReportOf(files, gs[..i]) == Some(Report(groups, totalWasted))
    {
      ReportStep(files, gs, i);
      var group := gs[i];
      if |group| == 0 {
        r := None;
        NoneStays(files, gs, i + 1);
        return;
      }
      var canonical := MinByKey(group);
      var duplicates := Without(group, canonical);
      var wasted := SizeSum(files, duplicates);
      if wasted.None? {
        r := None;
        NoneStays(files, gs, i + 1);
        return;
      }
      totalWasted := totalWasted + wasted.value;
      groups := groups + [GroupReport(canonical, duplicates, wasted.value)];
    }
    assert gs[..|gs|] == gs;
    r := Some(Report(groups, totalWasted));
  }

  lemma ReportStep(files: map<Path, seq<byte>>, gs: seq<seq<Path>>, i: nat)
    requires i < |gs|
    ensures ReportOf(files, gs[..i + 1])
      == match ReportOf(files, gs[..i])
         case None => None
         case Some(r) =>
           match GroupReportOf(files, gs[i])
           case None => None
           case Some(g) => Some(Report(r.groups + [g], r.totalWasted + g.wastedBytes))
  {
    assert gs[..i + 1][..i] == gs[..i];
  }

  /** Once the report raises for a prefix of the groups it raises for all of them. */
  lemma {:induction false} NoneStays(files: map<Path, seq<byte>>, gs: seq<seq<Path>>, n: nat)
    requires n <= |gs| && ReportOf(files, gs[..n]).None?
    ensures ReportOf(files, gs).None?
    decreases |gs| - n
  {
    if n < |gs| {
      assert gs[..n + 1][..n] == gs[..n];
      NoneStays(files, gs, n + 1);
    } else {
      assert gs[..n] == gs;
    }
  }

  /** A group whose figures can be computed: it is not empty and each of
      its duplicates is a file. */
  predicate GroupOk(files: map<Path, seq<byte>>, g: seq<Path>) {
    |g| > 0 && forall p :: p in Duplicates(g) ==> p in files
  }

  /** The report raises exactly when a group is empty or a duplicate is not a file. */
  lemma {:induction false} ReportRaises(files: map<Path, seq<byte>>, gs: seq<seq<Path>>)
    ensures ReportOf(files, gs).Some? <==> forall i :: 0 <= i < |gs| ==> GroupOk(files, gs[i])
    decreases |gs|
  {
    if |gs| > 0 {
      var init := gs[..|gs| - 1];
      ReportRaises(files, init);
      ReportSomeStep(files, gs);
      AllOkInit(files, gs);
    }
  }

  lemma ReportSomeStep(files: map<Path, seq<byte>>, gs: seq<seq<Path>>)
    requires |gs| > 0
    ensures ReportOf(files, gs).Some?
        <==> ReportOf(files, gs[..|gs| - 1]).Some? && GroupOk(files, gs[|gs| - 1])
  {
  }

  lemma AllOkInit(files: map<Path, seq<byte>>, gs: seq<seq<Path>>)
    requires |gs| > 0
    ensures var init := gs[..|gs| - 1];
      (forall i :: 0 <= i < |gs| ==> GroupOk(files, gs[i]))
      <==> (forall i :: 0 <= i < |init| ==> GroupOk(files, init[i])) && GroupOk(files, gs[|gs| - 1])
  {
    var init := gs[..|gs| - 1];
    assert forall i :: 0 <= i < |init| ==> init[i] == gs[i];
  }

  /** Each group of the report names the member the map keeps, lists the
      others, and with distinct members lists one fewer than the group has. */
  lemma {:induction false} ReportGroupFigures(files: map<Path, seq<byte>>, gs: seq<seq<Path>>, i: nat)
    requires ReportOf(files, gs).Some? && i < |gs|
    ensures |ReportOf(files, gs).value.groups| == |gs|
    ensures var gr := ReportOf(files, gs).value.groups[i];
      |gs[i]| > 0 && gr.canonical == SortByKey(gs[i])[0]
      && (forall x :: x in gr.duplicates <==> x in gs[i] && x != gr.canonical)
      && (Distinct(gs[i]) ==> |gr.duplicates| == |gs[i]| - 1)
    decreases |gs|
  {
    var init := gs[..|gs| - 1];
    if i < |gs| - 1 {
      assert init[i] == gs[i];
      ReportGroupFigures(files, init, i);
    } else {
      ReportGroupLength(files, init);
      CanonicalAgrees(gs[i]);
      if Distinct(gs[i]) {
        MinByKeyMember(gs[i]);
        WithoutCount(gs[i], MinByKey(gs[i]));
      }
    }
  }

  lemma {:induction false} ReportGroupLength(files: map<Path, seq<byte>>, gs: seq<seq<Path>>)
    requires ReportOf(files, gs).Some?
    ensures |ReportOf(files, gs).value.groups| == |gs|
    decreases |gs|
  {
    if |gs| > 0 {
      ReportGroupLength(files, gs[..|gs| - 1]);
    }
  }

  lemma MinByKeyMember(g: seq<Path>)
    requires |g| > 0
    ensures MinByKey(g) in g
  {
    CanonicalAgrees(g);
    SortedMember(g, 0);
  }

  /** Taking out a member that occurs once removes one element. */
  lemma {:induction false} WithoutCount(g: seq<Path>, c: Path)
    requires Distinct(g) && c in g
    ensures |Without(g, c)| == |g| - 1
    decreases |g|
  {
    var init := g[..|g| - 1];
    if g[|g| - 1] != c {
      assert c in init;
      WithoutCount(init, c);
    } else {
      assert c !in init;
      WithoutAbsent(init, c);
    }
  }

  lemma {:induction false} WithoutAbsent(g: seq<Path>, c: Path)
    requires c !in g
    ensures Without(g, c) == g
    decreases |g|
  {
    if |g| > 0 {
      WithoutAbsent(g[..|g| - 1], c);
    }
  }
}
