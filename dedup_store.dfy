/** Steps 1 and 2 of the asset consolidation pass
    (scripts/asset_deduplicator.py): walking the attachment directory,
    grouping the image files by the digest of their content, and keeping
    the groups with more than one member.

    The file system is a value: the paths a recursive walk yields, the
    contents of the regular files among them, and the files whose reading
    raises. The digest is a parameter standing for MD5. */
module DedupStore {

  import opened Strings
  import opened Bytes
  import opened Assoc

  /** A path found by a directory walk: its parent directories and its
      final component (`Path.name`). */
  datatype Path = Path(dirs: seq<string>, name: string)

  predicate Distinct<T(==)>(s: seq<T>) {
    forall i, j :: 0 <= i < j < |s| ==> s[i] != s[j]
  }

  /** What `rglob` yields: each path at most once. */
  type Walk = s: seq<Path> | Distinct(s) witness []

  /** The attachment directory: the walk, the contents of its regular files,
      the files whose reading raises and the files whose deletion raises. */
  datatype Store = Store(walk: Walk, files: map<Path, seq<byte>>,
                         unreadable: set<Path>, undeletable: set<Path>)

  /** A hexadecimal digest. */
  type Digest = string

  // ---------------------------------------------------------------------
  // Which files are hashed (line 100)
  // ---------------------------------------------------------------------

  /** `s.rfind(c)`. */
  function LastIndexOf(s: string, c: char): (r: int)
    ensures -1 <= r < |s|
    ensures r >= 0 ==> s[r] == c
    ensures forall i :: r < i < |s| ==> s[i] != c
    decreases |s|
  {
    if |s| == 0 then -1
    else if s[|s| - 1] == c then |s| - 1
    else LastIndexOf(s[..|s| - 1], c)
  }

  /** `PurePath.suffix`: the name from its last dot on, unless that dot is
      the first or the last character of the name. */
  function Suffix(name: string): (r: string)
    ensures r == "" || (IsSuffix(r, name) && 2 <= |r| < |name| && r[0] == '.'
                        && forall i :: 1 <= i < |r| ==> r[i] != '.')
    ensures r == "" <==> (|name| == 0 || name[|name| - 1] == '.'
                          || forall i :: 0 < i < |name| ==> name[i] != '.')
  {
    var i := LastIndexOf(name, '.');
    if 0 < i < |name| - 1 then name[i..] else ""
  }

  /** `AssetDeduplicator.IMAGE_EXTENSIONS`. */
  const ImageExtensions: set<string> := {".png", ".jpg", ".jpeg", ".gif", ".webp", ".svg", ".bmp"}

  predicate IsImage(p: Path) {
    Lower(Suffix(p.name)) in ImageExtensions
  }

  /** A walked path that is a regular file with an image suffix and whose
      hashing does not raise. */
  predicate Hashed(st: Store, p: Path) {
    p in st.files && IsImage(p) && p !in st.unreadable
  }

  function DigestOf(st: Store, md5: seq<byte> -> Digest, p: Path): Digest
    requires p in st.files
  {
    md5(st.files[p])
  }

  // ---------------------------------------------------------------------
  // The reference definitions: which paths carry which digest
  // ---------------------------------------------------------------------

  /** The hashed paths among `ps`, in walk order. */
  function HashedPaths(st: Store, ps: seq<Path>): seq<Path>
    decreases |ps|
  {
    if |ps| == 0 then []
    else HashedPaths(st, ps[..|ps| - 1]) + (if Hashed(st, ps[|ps| - 1]) then [ps[|ps| - 1]] else [])
  }

  /** The hashed paths among `ps` whose digest is `h`, in walk order. */
  function WithDigest(st: Store, md5: seq<byte> -> Digest, ps: seq<Path>, h: Digest): seq<Path>
    decreases |ps|
  {
    if |ps| == 0 then []
    else
      var p := ps[|ps| - 1];
      WithDigest(st, md5, ps[..|ps| - 1], h)
      + (if Hashed(st, p) && DigestOf(st, md5, p) == h then [p] else [])
  }

  lemma {:induction false} InWithDigest(st: Store, md5: seq<byte> -> Digest, ps: seq<Path>, h: Digest, p: Path)
    ensures p in WithDigest(st, md5, ps, h) <==> p in ps && Hashed(st, p) && DigestOf(st, md5, p) == h
    decreases |ps|
  {
    if |ps| > 0 {
      var init := ps[..|ps| - 1];
      InWithDigest(st, md5, init, h, p);
      assert ps == init + [ps[|ps| - 1]];
    }
  }

  // ---------------------------------------------------------------------
  // The hash map of lines 98-107
  // ---------------------------------------------------------------------

  /** A `dict` from digests to the lists of paths that share them. */
  type Buckets = seq<(Digest, seq<Path>)>

  /** `hash_map[h]` of the `defaultdict(list)`: the empty list when absent. */
  function Bucket(b: Buckets, h: Digest): seq<Path> {
    match Get(b, h)
    case Some(l) => l
    case None => []
  }

  /** `hash_map[h].append(p)`. */
  function AddTo(b: Buckets, h: Digest, p: Path): Buckets {
    Put(b, h, Bucket(b, h) + [p])
  }

  /** The hash map after the walk has reached the end of `ps`. */
  function Group(st: Store, md5: seq<byte> -> Digest, ps: seq<Path>): Buckets
    decreases |ps|
  {
    if |ps| == 0 then []
    else
      var b := Group(st, md5, ps[..|ps| - 1]);
      var p := ps[|ps| - 1];
      if Hashed(st, p) then AddTo(b, DigestOf(st, md5, p), p) else b
  }

  /** `_hash_all_files` (lines 96-107): every walked path that is an image
      file is hashed and appended to the list of its digest; a failure to
      hash skips that path and the walk goes on. */
  method HashAllFiles(st: Store, md5: seq<byte> -> Digest) returns (b: Buckets)
    ensures b == Group(st, md5, st.walk)
  {
    b := [];
    for i := 0 to |st.walk|
      invariant b == Group(st, md5, st.walk[..i])
    {
      var p := st.walk[i];
      assert st.walk[..i + 1][..i] == st.walk[..i];
      if p in st.files && IsImage(p) {
        if p !in st.unreadable {
          var h := md5(st.files[p]);
          b := Put(b, h, Bucket(b, h) + [p]);
        }
      }
    }
    assert st.walk[..|st.walk|] == st.walk;
  }

  /** Sum of the lengths of the lists (line 59). */
  function Total(b: Buckets): nat
    decreases |b|
  {
    if |b| == 0 then 0 else Total(b[..|b| - 1]) + |b[|b| - 1].1|
  }

  lemma {:induction false} TotalSplit(b: Buckets, i: nat)
    requires i <= |b|
    ensures Total(b) == Total(b[..i]) + Total(b[i..])
    decreases |b|
  {
    if i < |b| {
      var init := b[..|b| - 1];
      TotalSplit(init, i);
      assert init[..i] == b[..i];
      assert init[i..] == b[i..|b| - 1];
      assert b[i..][..|b[i..]| - 1] == b[i..|b| - 1];
    } else {
      assert b[..i] == b;
      assert b[i..] == [];
    }
  }

  /** Appending to one list adds one to the total. */
  lemma {:induction false} AddToTotal(b: Buckets, h: Digest, p: Path)
    ensures Total(AddTo(b, h, p)) == Total(b) + 1
    decreases |b|
  {
    var r := AddTo(b, h, p);
    if |b| == 0 {
      assert Bucket(b, h) + [p] == [p];
      assert r == [(h, [p])];
      assert r[..0] == [];
    } else {
      TotalSplit(b, 1);
      TotalSplit(r, 1);
      assert b[..1][..0] == [] && r[..1][..0] == [];
      if b[0].0 == h {
        assert r == [(h, b[0].1 + [p])] + b[1..];
        assert r[1..] == b[1..];
      } else {
        AddToTotal(b[1..], h, p);
        assert Bucket(b, h) == Bucket(b[1..], h);
        assert r == [b[0]] + AddTo(b[1..], h, p);
        assert r[1..] == AddTo(b[1..], h, p);
      }
    }
  }

  lemma BucketAddTo(b: Buckets, d: Digest, p: Path, h: Digest)
    ensures Bucket(AddTo(b, d, p), h) == Bucket(b, h) + (if h == d then [p] else [])
  {
    PutFrame(b, d, Bucket(b, d) + [p]);
  }

  /** What the hash map holds: distinct digests; for each digest, exactly
      the hashed paths with that digest in walk order; a digest is present
      exactly when some path has it; and the lists together hold every
      hashed path once. */
  lemma GroupContents(st: Store, md5: seq<byte> -> Digest, ps: seq<Path>)
    ensures KeysDistinct(Group(st, md5, ps))
    ensures forall h :: Bucket(Group(st, md5, ps), h) == WithDigest(st, md5, ps, h)
    ensures forall h :: HasKey(Group(st, md5, ps), h) <==> |WithDigest(st, md5, ps, h)| > 0
    ensures Total(Group(st, md5, ps)) == |HashedPaths(st, ps)|
  {
    GroupKeysDistinct(st, md5, ps);
    GroupBuckets(st, md5, ps);
    GroupKeys(st, md5, ps);
    GroupTotal(st, md5, ps);
  }

  lemma {:induction false} GroupKeysDistinct(st: Store, md5: seq<byte> -> Digest, ps: seq<Path>)
    ensures KeysDistinct(Group(st, md5, ps))
    decreases |ps|
  {
    if |ps| > 0 {
      var init := ps[..|ps| - 1];
      var p := ps[|ps| - 1];
      GroupKeysDistinct(st, md5, init);
      var b := Group(st, md5, init);
      if Hashed(st, p) {
        var d := DigestOf(st, md5, p);
        PutKeysDistinct(b, d, Bucket(b, d) + [p]);
      }
    }
  }

  lemma {:induction false} GroupBuckets(st: Store, md5: seq<byte> -> Digest, ps: seq<Path>)
    ensures forall h :: Bucket(Group(st, md5, ps), h) == WithDigest(st, md5, ps, h)
    decreases |ps|
  {
    if |ps| > 0 {
      var init := ps[..|ps| - 1];
      var p := ps[|ps| - 1];
      GroupBuckets(st, md5, init);
      var b := Group(st, md5, init);
      if Hashed(st, p) {
        var d := DigestOf(st, md5, p);
        forall h ensures Bucket(AddTo(b, d, p), h) == WithDigest(st, md5, ps, h) {
          BucketAddTo(b, d, p, h);
        }
      }
    }
  }

  lemma {:induction false} GroupKeys(st: Store, md5: seq<byte> -> Digest, ps: seq<Path>)
    ensures forall h :: HasKey(Group(st, md5, ps), h) <==> |WithDigest(st, md5, ps, h)| > 0
    decreases |ps|
  {
    if |ps| > 0 {
      var init := ps[..|ps| - 1];
      var p := ps[|ps| - 1];
      GroupKeys(st, md5, init);
      var b := Group(st, md5, init);
      if Hashed(st, p) {
        var d := DigestOf(st, md5, p);
        forall h ensures HasKey(AddTo(b, d, p), h) <==> |WithDigest(st, md5, ps, h)| > 0 {
          HasKeyPut(b, d, Bucket(b, d) + [p], h);
        }
      }
    }
  }

  lemma {:induction false} GroupTotal(st: Store, md5: seq<byte> -> Digest, ps: seq<Path>)
    ensures Total(Group(st, md5, ps)) == |HashedPaths(st, ps)|
    decreases |ps|
  {
    if |ps| > 0 {
      var init := ps[..|ps| - 1];
      var p := ps[|ps| - 1];
      GroupTotal(st, md5, init);
      if Hashed(st, p) {
        AddToTotal(Group(st, md5, init), DigestOf(st, md5, p), p);
      }
    }
  }

  /** Every hashed path of the walk lies in exactly one list, the one whose
      key is its own digest; no other path lies in any list. */
  lemma BucketOfPath(st: Store, md5: seq<byte> -> Digest, i: nat, p: Path)
    requires i < |Group(st, md5, st.walk)|
    ensures var b := Group(st, md5, st.walk);
      p in b[i].1 <==> p in st.walk && Hashed(st, p) && DigestOf(st, md5, p) == b[i].0
  {
    var b := Group(st, md5, st.walk);
    GroupContents(st, md5, st.walk);
    GetAt(b, i);
    assert Bucket(b, b[i].0) == b[i].1;
    InWithDigest(st, md5, st.walk, b[i].0, p);
  }

  /** A hashed path of the walk has its digest among the keys. */
  lemma DigestIsKey(st: Store, md5: seq<byte> -> Digest, p: Path)
    requires p in st.walk && Hashed(st, p)
    ensures HasKey(Group(st, md5, st.walk), DigestOf(st, md5, p))
  {
    GroupContents(st, md5, st.walk);
    InWithDigest(st, md5, st.walk, DigestOf(st, md5, p), p);
  }

  /** No list of the hash map is empty. */
  lemma GroupNonEmpty(st: Store, md5: seq<byte> -> Digest, ps: seq<Path>)
    ensures forall i :: 0 <= i < |Group(st, md5, ps)| ==> |Group(st, md5, ps)[i].1| > 0
  {
    var b := Group(st, md5, ps);
    GroupContents(st, md5, ps);
    forall i | 0 <= i < |b| ensures |b[i].1| > 0 {
      GetAt(b, i);
      assert HasKey(b, b[i].0);
      assert Bucket(b, b[i].0) == b[i].1;
    }
  }

  // ---------------------------------------------------------------------
  // Lines 117-119, 63 and 168-171
  // ---------------------------------------------------------------------

  /** `_find_duplicates`: the lists with more than one member, in order. */
  function FindDuplicates(b: Buckets): (r: seq<seq<Path>>)
    ensures |r| <= |b|
    ensures forall g :: g in r ==> |g| > 1
    decreases |b|
  {
    if |b| == 0 then []
    else FindDuplicates(b[..|b| - 1]) + (if |b[|b| - 1].1| > 1 then [b[|b| - 1].1] else [])
  }

  /** A list is reported exactly when it is the list of an entry and has
      more than one member. */
  lemma {:induction false} FindDuplicatesMembers(b: Buckets, g: seq<Path>)
    ensures g in FindDuplicates(b) <==> |g| > 1 && exists i :: 0 <= i < |b| && b[i].1 == g
    decreases |b|
  {
    if |b| > 0 {
      var init := b[..|b| - 1];
      FindDuplicatesMembers(init, g);
      if |g| > 1 && (exists i :: 0 <= i < |b| && b[i].1 == g) {
        var i :| 0 <= i < |b| && b[i].1 == g;
        if i < |init| {
          assert init[i].1 == g;
        }
      }
      if exists i :: 0 <= i < |init| && init[i].1 == g {
        var i :| 0 <= i < |init| && init[i].1 == g;
        assert b[i].1 == g;
      }
    }
  }

  /** `sum(len(group) - 1 for group in duplicate_groups)`. */
  function Excess(gs: seq<seq<Path>>): int
    decreases |gs|
  {
    if |gs| == 0 then 0 else Excess(gs[..|gs| - 1]) + |gs[|gs| - 1]| - 1
  }

  /** When no list is empty, the duplicates found are the listed paths less
      one per list. */
  lemma {:induction false} ExcessOfDuplicates(b: Buckets)
    requires forall i :: 0 <= i < |b| ==> |b[i].1| > 0
    ensures Excess(FindDuplicates(b)) == Total(b) - |b|
    decreases |b|
  {
    if |b| > 0 {
      var init := b[..|b| - 1];
      assert forall i :: 0 <= i < |init| ==> init[i] == b[i];
      ExcessOfDuplicates(init);
      var r0 := FindDuplicates(init);
      var r := FindDuplicates(b);
      if |b[|b| - 1].1| > 1 {
        assert r[..|r| - 1] == r0;
      } else {
        assert r == r0;
      }
    }
  }

  /** `duplicates_found` is the number of hashed files less the number of
      distinct contents among them. */
  lemma DuplicatesFound(st: Store, md5: seq<byte> -> Digest)
    ensures Excess(FindDuplicates(Group(st, md5, st.walk)))
         == |HashedPaths(st, st.walk)| - |Group(st, md5, st.walk)|
  {
    GroupContents(st, md5, st.walk);
    GroupNonEmpty(st, md5, st.walk);
    ExcessOfDuplicates(Group(st, md5, st.walk));
  }

  /** The dict comprehension of line 171: the entries with more than one path. */
  function KeepShared(b: Buckets): (r: Buckets)
    ensures forall e :: e in r ==> e in b && |e.1| > 1
    decreases |b|
  {
    if |b| == 0 then []
    else KeepShared(b[..|b| - 1]) + (if |b[|b| - 1].1| > 1 then [b[|b| - 1]] else [])
  }

  function Values(b: Buckets): (r: seq<seq<Path>>)
    ensures |r| == |b| && forall i :: 0 <= i < |b| ==> r[i] == b[i].1
  {
    seq(|b|, i requires 0 <= i < |b| => b[i].1)
  }

  /** The dry run reports the same groups, in the same order, as the
      deduplication itself. */
  lemma {:induction false} KeepSharedMatchesFind(b: Buckets)
    ensures Values(KeepShared(b)) == FindDuplicates(b)
    decreases |b|
  {
    if |b| > 0 {
      var init := b[..|b| - 1];
      KeepSharedMatchesFind(init);
      var last := if |b[|b| - 1].1| > 1 then [b[|b| - 1]] else [];
      assert Values(KeepShared(init) + last) == Values(KeepShared(init)) + Values(last);
    }
  }

  /** `analyze_duplicates` (lines 168-171): the shared digests and their paths. */
  method AnalyzeDuplicates(st: Store, md5: seq<byte> -> Digest) returns (r: Buckets)
    ensures r == KeepShared(Group(st, md5, st.walk))
    ensures Values(r) == FindDuplicates(Group(st, md5, st.walk))
  {
    var b := HashAllFiles(st, md5);
    r := KeepShared(b);
    KeepSharedMatchesFind(b);
  }
}
