/** Step 3 of the asset consolidation pass (scripts/asset_deduplicator.py,
    `_build_replacement_map`): in each group of identical files the member
    that comes first under the key `(len(name), name)` is kept, and the
    name of every other member is mapped to the name of that one. */
module DedupCanonical {

  import opened Strings
  import opened Wrappers
  import opened Assoc
  import opened DedupStore
  import LinkRewrite

  // ---------------------------------------------------------------------
  // The key (len(p.name), p.name)
  // ---------------------------------------------------------------------

  /** Tuple order on `(len(a), a)` against `(len(b), b)`. */
  predicate NameLess(a: string, b: string) {
    |a| < |b| || (|a| == |b| && StrLess(a, b))
  }

  predicate KeyLess(p: Path, q: Path) {
    NameLess(p.name, q.name)
  }

  lemma NameLessIrreflexive(a: string)
    ensures !NameLess(a, a)
  {
    StrLessIrreflexive(a);
  }

  lemma NameLessTransitive(a: string, b: string, c: string)
    requires NameLess(a, b) && NameLess(b, c)
    ensures NameLess(a, c)
  {
    if |a| == |b| == |c| {
      StrLessTransitive(a, b, c);
    }
  }

  lemma NameLessTotal(a: string, b: string)
    ensures a == b || NameLess(a, b) || NameLess(b, a)
  {
    StrLessTotal(a, b);
  }

  lemma NameLessAsymmetric(a: string, b: string)
    requires NameLess(a, b)
    ensures !NameLess(b, a)
  {
    if |a| == |b| {
      StrLessAsymmetric(a, b);
    }
  }

  /** `a <= b` and `b <= c` give `a <= c`, written with the strict order. */
  lemma NotLessTransitive(a: string, b: string, c: string)
    requires !NameLess(b, a) && !NameLess(c, b)
    ensures !NameLess(c, a)
  {
    NameLessTotal(a, b);
    NameLessTotal(b, c);
    if NameLess(a, b) && NameLess(b, c) {
      NameLessTransitive(a, b, c);
      NameLessAsymmetric(a, c);
    } else if NameLess(a, b) {
      NameLessAsymmetric(a, c);
    } else if NameLess(b, c) {
      NameLessAsymmetric(a, c);
    } else {
      NameLessIrreflexive(a);
    }
  }

  /** `a < b` and `b <= c` give `a < c`. */
  lemma LessNotLess(a: string, b: string, c: string)
    requires NameLess(a, b) && !NameLess(c, b)
    ensures NameLess(a, c)
  {
    NameLessTotal(b, c);
    if NameLess(b, c) {
      NameLessTransitive(a, b, c);
    }
  }

  // ---------------------------------------------------------------------
  // sorted(group, key=...) and min(group, key=...)
  // ---------------------------------------------------------------------

  predicate Sorted(s: seq<Path>) {
    forall i, j :: 0 <= i < j < |s| ==> !KeyLess(s[j], s[i])
  }

  /** Puts `x` before the first element that is not less than it, so that
      `x` stays ahead of the equal elements that followed it. */
  function Insert(x: Path, s: seq<Path>): (r: seq<Path>)
    ensures multiset(r) == multiset(s) + multiset{x}
    ensures |r| == |s| + 1
    decreases |s|
  {
    if |s| == 0 then [x]
    else if !KeyLess(s[0], x) then [x] + s
    else
      assert s == [s[0]] + s[1..];
      [s[0]] + Insert(x, s[1..])
  }

  /** `sorted(group, key=lambda p: (len(p.name), p.name))`, a stable sort. */
  function SortByKey(g: seq<Path>): (r: seq<Path>)
    ensures multiset(r) == multiset(g)
    ensures |r| == |g|
    decreases |g|
  {
    if |g| == 0 then []
    else
      assert g == [g[0]] + g[1..];
      Insert(g[0], SortByKey(g[1..]))
  }

  lemma {:induction false} InsertSorted(x: Path, s: seq<Path>)
    requires Sorted(s)
    ensures Sorted(Insert(x, s))
    decreases |s|
  {
    if |s| > 0 {
      if !KeyLess(s[0], x) {
        forall j | 1 < j < |s| + 1 ensures !KeyLess(([x] + s)[j], x) {
          NotLessTransitive(x.name, s[0].name, s[j - 1].name);
        }
      } else {
        var t := s[1..];
        InsertSorted(x, t);
        var r := Insert(x, t);
        forall e | e in r ensures !KeyLess(e, s[0]) {
          assert e in multiset(r);
          if e == x {
            NameLessAsymmetric(s[0].name, x.name);
          } else {
            assert e in t;
          }
        }
      }
    }
  }

  /** The sorted group is in non-decreasing key order. */
  lemma {:induction false} SortSorted(g: seq<Path>)
    ensures Sorted(SortByKey(g))
    decreases |g|
  {
    if |g| > 0 {
      SortSorted(g[1..]);
      InsertSorted(g[0], SortByKey(g[1..]));
    }
  }

  /** `min(group, key=...)`: the running minimum is replaced only by an
      element whose key is strictly smaller. */
  function MinByKey(g: seq<Path>): Path
    requires |g| > 0
    decreases |g|
  {
    if |g| == 1 then g[0]
    else
      var c := MinByKey(g[..|g| - 1]);
      if KeyLess(g[|g| - 1], c) then g[|g| - 1] else c
  }

  /** `c` is the earliest element of `g` with the least key. */
  predicate IsFirstMin(g: seq<Path>, c: Path) {
    (exists i :: 0 <= i < |g| && g[i] == c && forall j :: 0 <= j < i ==> KeyLess(c, g[j]))
    && forall x :: x in g ==> !KeyLess(x, c)
  }

  lemma {:induction false} MinByKeyFirst(g: seq<Path>)
    requires |g| > 0
    ensures IsFirstMin(g, MinByKey(g))
    decreases |g|
  {
    var c := MinByKey(g);
    if |g| == 1 {
      NameLessIrreflexive(g[0].name);
      assert g[0] == c;
    } else {
      var init := g[..|g| - 1];
      var x := g[|g| - 1];
      MinByKeyFirst(init);
      var c0 := MinByKey(init);
      var i0 :| 0 <= i0 < |init| && init[i0] == c0 && forall j :: 0 <= j < i0 ==> KeyLess(c0, init[j]);
      assert g == init + [x];
      if KeyLess(x, c0) {
        forall j | 0 <= j < |g| - 1 ensures KeyLess(x, g[j]) {
          assert g[j] in init;
          LessNotLess(x.name, c0.name, g[j].name);
        }
        forall y | y in g ensures !KeyLess(y, x) {
          if y == x {
            NameLessIrreflexive(x.name);
          } else {
            var j :| 0 <= j < |g| && g[j] == y;
            if j < |g| - 1 {
              NameLessAsymmetric(x.name, y.name);
            }
          }
        }
      } else {
        assert g[i0] == c0;
        assert forall j :: 0 <= j < i0 ==> g[j] == init[j];
      }
    }
  }

  lemma {:induction false} SortHeadFirst(g: seq<Path>)
    requires |g| > 0
    ensures IsFirstMin(g, SortByKey(g)[0])
    decreases |g|
  {
    var t := g[1..];
    assert g == [g[0]] + t;
    if |t| == 0 {
      NameLessIrreflexive(g[0].name);
    } else {
      SortHeadFirst(t);
      var s := SortByKey(t);
      var c := s[0];
      if !KeyLess(c, g[0]) {
        forall y | y in g ensures !KeyLess(y, g[0]) {
          if y == g[0] {
            NameLessIrreflexive(y.name);
          } else {
            assert y in t;
            NotLessTransitive(g[0].name, c.name, y.name);
          }
        }
      } else {
        var i0 :| 0 <= i0 < |t| && t[i0] == c && forall j :: 0 <= j < i0 ==> KeyLess(c, t[j]);
        assert g[i0 + 1] == c;
        forall j | 0 <= j < i0 + 1 ensures KeyLess(c, g[j]) {
          if j > 0 {
            assert g[j] == t[j - 1];
          }
        }
        forall y | y in g ensures !KeyLess(y, c) {
          if y == g[0] {
            NameLessAsymmetric(c.name, g[0].name);
          } else {
            assert y in t;
          }
        }
      }
    }
  }

  lemma FirstMinUnique(g: seq<Path>, c: Path, d: Path)
    requires IsFirstMin(g, c) && IsFirstMin(g, d)
    ensures c == d
  {
    var i :| 0 <= i < |g| && g[i] == c && forall j :: 0 <= j < i ==> KeyLess(c, g[j]);
    var k :| 0 <= k < |g| && g[k] == d && forall j :: 0 <= j < k ==> KeyLess(d, g[j]);
    assert !KeyLess(g[k], c) && !KeyLess(g[i], d);
    assert i == k;
  }

  /** The first element of the sorted group (line 126) is the member that
      `min` with the same key picks in `generate_report` (line 178). */
  lemma CanonicalAgrees(g: seq<Path>)
    requires |g| > 0
    ensures SortByKey(g)[0] == MinByKey(g)
  {
    SortHeadFirst(g);
    MinByKeyFirst(g);
    FirstMinUnique(g, SortByKey(g)[0], MinByKey(g));
  }

  /** The canonical name does not depend on the order of the group's members. */
  lemma CanonicalNameOrderFree(g: seq<Path>, h: seq<Path>)
    requires |g| > 0 && multiset(g) == multiset(h)
    ensures |h| > 0 && MinByKey(g).name == MinByKey(h).name
  {
    assert g[0] in multiset(h);
    MinByKeyFirst(g);
    MinByKeyFirst(h);
    var c, d := MinByKey(g), MinByKey(h);
    assert c in multiset(h) && d in multiset(g);
    assert !KeyLess(d, c) && !KeyLess(c, d);
    NameLessTotal(c.name, d.name);
  }

  // ---------------------------------------------------------------------
  // The replacement map (lines 121-129)
  // ---------------------------------------------------------------------

  type Name = LinkRewrite.Name

  type ReplacementMap = seq<(Name, Name)>

  predicate NonEmptyGroups(gs: seq<seq<Path>>) {
    forall i :: 0 <= i < |gs| ==> |gs[i]| > 0
  }

  /** Line 128 for every path of `ds`: its name is mapped to `c`. */
  function PutAll(m: ReplacementMap, ds: seq<Path>, c: Name): ReplacementMap
    decreases |ds|
  {
    if |ds| == 0 then m else Put(PutAll(m, ds[..|ds| - 1], c), ds[|ds| - 1].name, c)
  }

  /** The map after the groups of `gs`, the group order being the order of
      the loop at line 124. */
  function ReplacementMapOf(gs: seq<seq<Path>>): ReplacementMap
    requires NonEmptyGroups(gs)
    decreases |gs|
  {
    if |gs| == 0 then []
    else
      var s := SortByKey(gs[|gs| - 1]);
      PutAll(ReplacementMapOf(gs[..|gs| - 1]), s[1..], s[0].name)
  }

  /** The map after one more group. */
  lemma ReplacementMapStep(gs: seq<seq<Path>>, i: nat)
    requires NonEmptyGroups(gs) && i < |gs|
    ensures ReplacementMapOf(gs[..i + 1])
      == PutAll(ReplacementMapOf(gs[..i]), SortByKey(gs[i])[1..], SortByKey(gs[i])[0].name)
  {
    assert gs[..i + 1][..i] == gs[..i];
  }

  /** Lines 127-128 extend the map by one more name of the group. */
  lemma PutAllStep(m: ReplacementMap, s: seq<Path>, j: nat, c: Name)
    requires 1 <= j < |s|
    ensures PutAll(m, s[1..j + 1], c) == Put(PutAll(m, s[1..j], c), s[j].name, c)
  {
    assert s[1..j + 1][..j - 1] == s[1..j];
  }

  /** Lines 127-128 for one sorted group: every member after the first is
      mapped to the name `c` of the first. */
  method PutGroup(m: ReplacementMap, sorted: seq<Path>, c: Name) returns (m': ReplacementMap)
    requires |sorted| > 0
    ensures m' == PutAll(m, sorted[1..], c)
  {
    m' := m;
    for j := 1 to |sorted|
      invariant m' == PutAll(m, sorted[1..j], c)
    {
      PutAllStep(m, sorted, j, c);
      m' := Put(m', sorted[j].name, c);
    }
    assert sorted[1..|sorted|] == sorted[1..];
  }

  /** `_build_replacement_map`. A group of the argument cannot be empty:
      line 126 takes its first element. */
  method BuildReplacementMap(gs: seq<seq<Path>>) returns (m: ReplacementMap)
    requires NonEmptyGroups(gs)
    ensures m == ReplacementMapOf(gs)
  {
    m := [];
    for i := 0 to |gs|
      invariant m == ReplacementMapOf(gs[..i])
    {
      var sorted := SortByKey(gs[i]);
      var canonical := sorted[0];
      m := PutGroup(m, sorted, canonical.name);
      ReplacementMapStep(gs, i);
    }
    assert gs[..|gs|] == gs;
  }

  function Names(ds: seq<Path>): (r: seq<Name>)
    ensures |r| == |ds| && forall i :: 0 <= i < |ds| ==> r[i] == ds[i].name
  {
    seq(|ds|, i requires 0 <= i < |ds| => ds[i].name)
  }

  lemma NamesInit(ds: seq<Path>)
    requires |ds| > 0
    ensures Names(ds) == Names(ds[..|ds| - 1]) + [ds[|ds| - 1].name]
  {
  }

  /** A name of `Names(ds)` is the name of a path of `ds`. */
  lemma NamedMember(ds: seq<Path>, n: Name) returns (j: nat)
    requires n in Names(ds)
    ensures j < |ds| && ds[j].name == n
  {
    j :| 0 <= j < |ds| && Names(ds)[j] == n;
  }

  /** The names line 128 maps for one group: every member but the first of
      the sorted group. */
  function RestNames(g: seq<Path>): seq<Name> {
    if |g| == 0 then [] else Names(SortByKey(g)[1..])
  }

  /** The names line 128 maps, group by group. */
  function Rests(gs: seq<seq<Path>>): (r: seq<seq<Name>>)
    ensures |r| == |gs| && forall i :: 0 <= i < |gs| ==> r[i] == RestNames(gs[i])
  {
    seq(|gs|, i requires 0 <= i < |gs| => RestNames(gs[i]))
  }

  ghost predicate InSome(rs: seq<seq<Name>>, n: Name) {
    exists i :: 0 <= i < |rs| && n in rs[i]
  }

  /** The names line 128 maps over all the groups. */
  ghost predicate NonCanonicalName(gs: seq<seq<Path>>, n: Name) {
    InSome(Rests(gs), n)
  }

  lemma {:induction false} PutAllKeys(m: ReplacementMap, ds: seq<Path>, c: Name, n: Name)
    ensures HasKey(PutAll(m, ds, c), n) <==> HasKey(m, n) || n in Names(ds)
    decreases |ds|
  {
    if |ds| > 0 {
      var init := ds[..|ds| - 1];
      PutAllKeys(m, init, c, n);
      HasKeyPut(PutAll(m, init, c), ds[|ds| - 1].name, c, n);
      NamesInit(ds);
    }
  }

  lemma {:induction false} PutAllGet(m: ReplacementMap, ds: seq<Path>, c: Name, n: Name)
    ensures Get(PutAll(m, ds, c), n) == if n in Names(ds) then Some(c) else Get(m, n)
    decreases |ds|
  {
    if |ds| > 0 {
      var init := ds[..|ds| - 1];
      PutAllGet(m, init, c, n);
      PutFrame(PutAll(m, init, c), ds[|ds| - 1].name, c);
      NamesInit(ds);
    }
  }

  lemma {:induction false} PutAllEntries(m: ReplacementMap, ds: seq<Path>, c: Name, e: (Name, Name))
    requires e in PutAll(m, ds, c)
    ensures e in m || (e.1 == c && e.0 in Names(ds))
    decreases |ds|
  {
    if |ds| > 0 {
      var init := ds[..|ds| - 1];
      var m1 := PutAll(m, init, c);
      PutFrame(m1, ds[|ds| - 1].name, c);
      NamesInit(ds);
      if e in m1 {
        PutAllEntries(m, init, c, e);
      }
    }
  }

  lemma {:induction false} PutAllKeysDistinct(m: ReplacementMap, ds: seq<Path>, c: Name)
    requires KeysDistinct(m)
    ensures KeysDistinct(PutAll(m, ds, c))
    decreases |ds|
  {
    if |ds| > 0 {
      PutAllKeysDistinct(m, ds[..|ds| - 1], c);
      PutKeysDistinct(PutAll(m, ds[..|ds| - 1], c), ds[|ds| - 1].name, c);
    }
  }

  /** Each name is a key at most once, so `items()` visits it once. */
  lemma {:induction false} MapKeysDistinct(gs: seq<seq<Path>>)
    requires NonEmptyGroups(gs)
    ensures KeysDistinct(ReplacementMapOf(gs))
    decreases |gs|
  {
    if |gs| > 0 {
      MapKeysDistinct(gs[..|gs| - 1]);
      var s := SortByKey(gs[|gs| - 1]);
      PutAllKeysDistinct(ReplacementMapOf(gs[..|gs| - 1]), s[1..], s[0].name);
    }
  }

  /** The keys are exactly the names of the members after the first in
      each sorted group. */
  lemma {:induction false} MapKeys(gs: seq<seq<Path>>, n: Name)
    requires NonEmptyGroups(gs)
    ensures HasKey(ReplacementMapOf(gs), n) <==> NonCanonicalName(gs, n)
    decreases |gs|
  {
    if |gs| > 0 {
      var init := gs[..|gs| - 1];
      var s := SortByKey(gs[|gs| - 1]);
      MapKeys(init, n);
      PutAllKeys(ReplacementMapOf(init), s[1..], s[0].name, n);
      NonCanonicalInit(gs, n);
    }
  }

  /** A name is mapped by the groups when it is mapped by all but the last
      or by the last. */
  lemma NonCanonicalInit(gs: seq<seq<Path>>, n: Name)
    requires |gs| > 0
    ensures NonCanonicalName(gs, n)
      <==> NonCanonicalName(gs[..|gs| - 1], n) || n in RestNames(gs[|gs| - 1])
  {
    var rs := Rests(gs);
    assert Rests(gs[..|gs| - 1]) == rs[..|rs| - 1];
    InSomeInit(rs, n);
  }

  lemma InSomeInit(rs: seq<seq<Name>>, n: Name)
    requires |rs| > 0
    ensures InSome(rs, n) <==> InSome(rs[..|rs| - 1], n) || n in rs[|rs| - 1]
  {
    if InSome(rs, n) {
      var i :| 0 <= i < |rs| && n in rs[i];
      if i < |rs| - 1 {
        assert n in rs[..|rs| - 1][i];
      }
    }
    if InSome(rs[..|rs| - 1], n) {
      var i :| 0 <= i < |rs| - 1 && n in rs[..|rs| - 1][i];
      assert n in rs[i];
    }
  }

  /** Every entry maps the name of a member after the first of a sorted
      group to the name of the first member of a sorted group. */
  lemma {:induction false} MapEntryOrigin(gs: seq<seq<Path>>, e: (Name, Name)) returns (i: nat, j: nat, k: nat)
    requires NonEmptyGroups(gs) && e in ReplacementMapOf(gs)
    ensures i < |gs| && 1 <= j < |gs[i]| && SortByKey(gs[i])[j].name == e.0
    ensures k < |gs| && SortByKey(gs[k])[0].name == e.1
    decreases |gs|, 1
  {
    var fromInit := EntrySplit(gs, e);
    if fromInit {
      i, j, k := OriginInInit(gs, e);
    } else {
      j := OriginInLast(gs[|gs| - 1], e.0);
      i, k := |gs| - 1, |gs| - 1;
    }
  }

  lemma OriginInLast(g: seq<Path>, n: Name) returns (j: nat)
    requires |g| > 0 && n in Names(SortByKey(g)[1..])
    ensures 1 <= j < |g| && SortByKey(g)[j].name == n
  {
    var s := SortByKey(g);
    var j1 := NamedMember(s[1..], n);
    assert s[1..][j1] == s[j1 + 1];
    j := j1 + 1;
  }

  lemma {:induction false} OriginInInit(gs: seq<seq<Path>>, e: (Name, Name)) returns (i: nat, j: nat, k: nat)
    requires NonEmptyGroups(gs) && |gs| > 0 && e in ReplacementMapOf(gs[..|gs| - 1])
    ensures i < |gs| && 1 <= j < |gs[i]| && SortByKey(gs[i])[j].name == e.0
    ensures k < |gs| && SortByKey(gs[k])[0].name == e.1
    decreases |gs|, 0
  {
    var init := gs[..|gs| - 1];
    i, j, k := MapEntryOrigin(init, e);
    assert init[i] == gs[i] && init[k] == gs[k];
  }

  /** An entry comes from the groups before the last or from the last. */
  lemma EntrySplit(gs: seq<seq<Path>>, e: (Name, Name)) returns (fromInit: bool)
    requires NonEmptyGroups(gs) && e in ReplacementMapOf(gs)
    ensures |gs| > 0
    ensures fromInit ==> e in ReplacementMapOf(gs[..|gs| - 1])
    ensures !fromInit ==> e.1 == SortByKey(gs[|gs| - 1])[0].name
                          && e.0 in Names(SortByKey(gs[|gs| - 1])[1..])
  {
    var s := SortByKey(gs[|gs| - 1]);
    PutAllEntries(ReplacementMapOf(gs[..|gs| - 1]), s[1..], s[0].name, e);
    fromInit := e in ReplacementMapOf(gs[..|gs| - 1]);
  }

  // ---------------------------------------------------------------------
  // Unique names across the store
  // ---------------------------------------------------------------------

  /** No two members of the groups, in one group or in two, share a name. */
  predicate NamesUnique(gs: seq<seq<Path>>) {
    (forall i, a, b :: 0 <= i < |gs| && 0 <= a < b < |gs[i]| ==> gs[i][a].name != gs[i][b].name)
    && (forall i, k, x, y :: 0 <= i < k < |gs| && x in gs[i] && y in gs[k] ==> x.name != y.name)
  }

  predicate NamesDistinct(s: seq<Path>) {
    forall a, b :: 0 <= a < b < |s| ==> s[a].name != s[b].name
  }

  /** The head of a sequence of distinct names shares its name with no later element. */
  lemma HeadNameUnshared(s: seq<Path>, y: Path)
    requires |s| > 0 && NamesDistinct(s) && y in s[1..]
    ensures y.name != s[0].name
  {
    var b :| 0 <= b < |s| - 1 && s[1..][b] == y;
    assert s[b + 1] == y;
  }

  lemma InsertMember(x: Path, s: seq<Path>, y: Path)
    requires y in Insert(x, s)
    ensures y == x || y in s
  {
    assert y in multiset(Insert(x, s));
  }

  lemma {:induction false} InsertNamesDistinct(x: Path, s: seq<Path>)
    requires NamesDistinct(s) && forall y :: y in s ==> y.name != x.name
    ensures NamesDistinct(Insert(x, s))
    decreases |s|
  {
    if |s| > 0 && KeyLess(s[0], x) {
      var t := s[1..];
      assert forall y :: y in t ==> y in s;
      InsertNamesDistinct(x, t);
      var r := Insert(x, t);
      forall y | y in r ensures y.name != s[0].name {
        InsertMember(x, t, y);
        if y != x {
          HeadNameUnshared(s, y);
        }
      }
      assert Insert(x, s) == [s[0]] + r;
    }
  }

  lemma {:induction false} SortNamesDistinct(g: seq<Path>)
    requires NamesDistinct(g)
    ensures NamesDistinct(SortByKey(g))
    decreases |g|
  {
    if |g| > 0 {
      var t := g[1..];
      SortNamesDistinct(t);
      forall y | y in SortByKey(t) ensures y.name != g[0].name {
        assert y in multiset(SortByKey(t));
        var b :| 0 <= b < |t| && t[b] == y;
        assert g[b + 1] == y;
      }
      InsertNamesDistinct(g[0], SortByKey(t));
    }
  }

  lemma SortedMember(g: seq<Path>, j: nat)
    requires j < |SortByKey(g)|
    ensures SortByKey(g)[j] in g
  {
    assert SortByKey(g)[j] in multiset(SortByKey(g));
  }

  /** Distinct members of two groups have distinct names. */
  lemma CrossNames(gs: seq<seq<Path>>, i: nat, k: nat, x: Path, y: Path)
    requires NamesUnique(gs) && i < |gs| && k < |gs| && i != k && x in gs[i] && y in gs[k]
    ensures x.name != y.name
  {
  }

  /** A name no member of `g` has is not named in the sorted group. */
  lemma AbsentName(g: seq<Path>, n: Name)
    requires |g| > 0 && forall y :: y in g ==> y.name != n
    ensures n !in Names(SortByKey(g)[1..])
  {
    var s := SortByKey(g);
    forall j | 0 <= j < |s| - 1 ensures Names(s[1..])[j] != n {
      SortedMember(g, j + 1);
    }
  }

  /** In a group of distinct names the canonical name is not among the rest. */
  lemma CanonicalNotRest(g: seq<Path>)
    requires |g| > 0 && NamesDistinct(g)
    ensures SortByKey(g)[0].name !in Names(SortByKey(g)[1..])
  {
    var s := SortByKey(g);
    SortNamesDistinct(g);
    forall j | 0 <= j < |s| - 1 ensures Names(s[1..])[j] != s[0].name {
      assert Names(s[1..])[j] == s[j + 1].name;
    }
  }

  /** The canonical name of group `i` is not the name of a member after the
      first in the sorted group `k`. */
  lemma CanonicalNotMapped(gs: seq<seq<Path>>, i: nat, k: nat)
    requires NonEmptyGroups(gs) && NamesUnique(gs) && i < |gs| && k < |gs|
    ensures SortByKey(gs[i])[0].name !in Names(SortByKey(gs[k])[1..])
  {
    if k == i {
      assert NamesDistinct(gs[i]);
      CanonicalNotRest(gs[i]);
    } else {
      SortedMember(gs[i], 0);
      NotNamedElsewhere(gs, i, k, SortByKey(gs[i])[0]);
    }
  }

  /** With unique names no canonical name is a key: the map has no chains. */
  lemma CanonicalNotKey(gs: seq<seq<Path>>, i: nat)
    requires NonEmptyGroups(gs) && NamesUnique(gs) && i < |gs|
    ensures !HasKey(ReplacementMapOf(gs), SortByKey(gs[i])[0].name)
  {
    var n := SortByKey(gs[i])[0].name;
    var rs := Rests(gs);
    forall k | 0 <= k < |gs| ensures n !in rs[k] {
      CanonicalNotMapped(gs, i, k);
    }
    MapKeys(gs, n);
  }

  /** A member other than the first of its sorted group is named among the rest. */
  lemma OtherMemberNamed(g: seq<Path>, x: Path)
    requires x in g && x != SortByKey(g)[0]
    ensures x.name in Names(SortByKey(g)[1..])
  {
    var s := SortByKey(g);
    assert x in multiset(s);
    assert x in s;
    var j :| 0 <= j < |s| && s[j] == x;
    assert j > 0;
    assert s[1..][j - 1] == x;
    assert Names(s[1..])[j - 1] == x.name;
  }

  /** A member of group `i` is not named in another group. */
  lemma NotNamedElsewhere(gs: seq<seq<Path>>, i: nat, k: nat, x: Path)
    requires NonEmptyGroups(gs) && NamesUnique(gs) && i < |gs| && k < |gs| && i != k && x in gs[i]
    ensures x.name !in Names(SortByKey(gs[k])[1..])
  {
    forall y | y in gs[k] ensures y.name != x.name {
      CrossNames(gs, i, k, x, y);
    }
    AbsentName(gs[k], x.name);
  }

  /** Every member but the canonical one is mapped to the canonical name. */
  lemma MapsToCanonical(gs: seq<seq<Path>>, i: nat, x: Path)
    requires NonEmptyGroups(gs) && NamesUnique(gs)
    requires i < |gs| && x in gs[i] && x != MinByKey(gs[i])
    ensures Get(ReplacementMapOf(gs), x.name) == Some(MinByKey(gs[i]).name)
  {
    CanonicalAgrees(gs[i]);
    OtherMemberNamed(gs[i], x);
    forall k | i < k < |gs| ensures x.name !in RestNames(gs[k]) {
      NotNamedElsewhere(gs, i, k, x);
    }
    NamedInLastGroup(gs, i, x.name);
  }

  /** A name is mapped to the canonical name of the last group that maps it. */
  lemma {:induction false} NamedInLastGroup(gs: seq<seq<Path>>, i: nat, n: Name)
    requires NonEmptyGroups(gs) && i < |gs| && n in RestNames(gs[i])
    requires forall k :: i < k < |gs| ==> n !in RestNames(gs[k])
    ensures Get(ReplacementMapOf(gs), n) == Some(SortByKey(gs[i])[0].name)
    decreases |gs|
  {
    if i == |gs| - 1 {
      MapOfLast(gs, n);
    } else {
      MapOfInit(gs, n);
      RestsOfInit(gs, i, n);
      NamedInLastGroup(gs[..|gs| - 1], i, n);
    }
  }

  lemma RestsOfInit(gs: seq<seq<Path>>, i: nat, n: Name)
    requires NonEmptyGroups(gs) && i < |gs| - 1 && n in RestNames(gs[i])
    requires forall k :: i < k < |gs| ==> n !in RestNames(gs[k])
    ensures NonEmptyGroups(gs[..|gs| - 1]) && gs[..|gs| - 1][i] == gs[i]
    ensures n in RestNames(gs[..|gs| - 1][i])
    ensures var init := gs[..|gs| - 1]; forall k :: i < k < |init| ==> n !in RestNames(init[k])
  {
    var init := gs[..|gs| - 1];
    assert forall k :: 0 <= k < |init| ==> init[k] == gs[k];
  }

  /** A name the last group maps is mapped to its canonical name. */
  lemma MapOfLast(gs: seq<seq<Path>>, n: Name)
    requires NonEmptyGroups(gs) && |gs| > 0 && n in RestNames(gs[|gs| - 1])
    ensures Get(ReplacementMapOf(gs), n) == Some(SortByKey(gs[|gs| - 1])[0].name)
  {
    var s := SortByKey(gs[|gs| - 1]);
    PutAllGet(ReplacementMapOf(gs[..|gs| - 1]), s[1..], s[0].name, n);
  }

  /** A name the last group does not map keeps the value of the earlier groups. */
  lemma MapOfInit(gs: seq<seq<Path>>, n: Name)
    requires NonEmptyGroups(gs) && |gs| > 0 && n !in RestNames(gs[|gs| - 1])
    ensures Get(ReplacementMapOf(gs), n) == Get(ReplacementMapOf(gs[..|gs| - 1]), n)
  {
    var s := SortByKey(gs[|gs| - 1]);
    PutAllGet(ReplacementMapOf(gs[..|gs| - 1]), s[1..], s[0].name, n);
  }

  predicate PlainGroups(gs: seq<seq<Path>>) {
    forall i, x :: 0 <= i < |gs| && x in gs[i] ==> LinkRewrite.PlainName(x.name)
  }

  lemma EntryReady(gs: seq<seq<Path>>, e: (Name, Name))
    requires NonEmptyGroups(gs) && NamesUnique(gs) && PlainGroups(gs)
    requires e in ReplacementMapOf(gs)
    ensures LinkRewrite.PlainName(e.0) && LinkRewrite.PlainName(e.1)
    ensures !HasKey(ReplacementMapOf(gs), e.1)
  {
    var i, j, k := MapEntryOrigin(gs, e);
    SortedMember(gs[i], j);
    SortedMember(gs[k], 0);
    CanonicalNotKey(gs, k);
  }

  /** With unique, plain names the map meets the conditions under which
      the rewrite of a note settles in one pass. */
  lemma MapReady(gs: seq<seq<Path>>)
    requires NonEmptyGroups(gs) && NamesUnique(gs) && PlainGroups(gs)
    ensures LinkRewrite.RewriteReady(ReplacementMapOf(gs))
  {
    var m := ReplacementMapOf(gs);
    forall t | 0 <= t < |m|
      ensures LinkRewrite.PlainName(m[t].0) && LinkRewrite.PlainName(m[t].1)
      ensures forall u :: 0 <= u < |m| ==> m[t].1 != m[u].0
    {
      EntryReady(gs, m[t]);
    }
  }

  /** Two members of one group with the same name (the same file name in two
      sub-directories) make that name a key, even when it is the canonical
      name: a `name -> name` entry. */
  lemma SharedNameIsKey(gs: seq<seq<Path>>, i: nat, a: nat, b: nat)
    requires NonEmptyGroups(gs) && i < |gs| && a < b < |gs[i]|
    requires gs[i][a].name == gs[i][b].name
    ensures HasKey(ReplacementMapOf(gs), gs[i][a].name)
  {
    var g := gs[i];
    var s := SortByKey(g);
    var x, y := g[a], g[b];
    if s[0] != x {
      OtherMemberNamed(g, x);
    } else if s[0] != y {
      OtherMemberNamed(g, y);
    } else {
      RepeatedNamed(g, a, b);
    }
    MapKeys(gs, x.name);
  }

  /** A path that occurs twice in a group is named among the rest of the sorted group. */
  lemma RepeatedNamed(g: seq<Path>, a: nat, b: nat)
    requires a < b < |g| && g[a] == g[b]
    ensures g[a].name in Names(SortByKey(g)[1..])
  {
    var s := SortByKey(g);
    var x := g[a];
    TwiceInMultiset(g, a, b);
    assert s == [s[0]] + s[1..];
    assert multiset(s) == multiset{s[0]} + multiset(s[1..]);
    assert x in multiset(s[1..]);
    var j :| 0 <= j < |s| - 1 && s[1..][j] == x;
    assert Names(s[1..])[j] == x.name;
  }

  lemma TwiceInMultiset(g: seq<Path>, a: nat, b: nat)
    requires a < b < |g| && g[a] == g[b]
    ensures multiset(g)[g[a]] >= 2
  {
    assert g == g[..b] + [g[b]] + g[b + 1..];
    assert g[a] in g[..b];
    assert multiset(g) == multiset(g[..b]) + multiset{g[b]} + multiset(g[b + 1..]);
  }
}
