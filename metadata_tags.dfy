/** The tags the metadata injector gives a note
    (scripts/metadata_injector.py:133-148): the note's hashtags, a topic
    tag for each topic keyword it mentions, and `migrated`, as a sorted list
    without repeats. */
module MetadataTags {

  import opened Wrappers
  import opened Strings

  // ---------------------------------------------------------------------
  // Hashtags (line 134)
  // ---------------------------------------------------------------------

  /** The length of the run of word characters from `j`. */
  function WordRun(s: string, j: nat): (n: nat)
    requires j <= |s|
    ensures j + n <= |s| && forall k :: j <= k < j + n ==> IsWordChar(s[k])
    ensures j + n < |s| ==> !IsWordChar(s[j + n])
    decreases |s| - j
  {
    if j < |s| && IsWordChar(s[j]) then 1 + WordRun(s, j + 1) else 0
  }

  /** Where `(?<!^)(?<!#)#(\w+)` matches at `i` in multi-line mode, its
      group: the `#` is neither at the start of a line nor after another
      `#`, and `\w+` takes the whole run of word characters after it. */
  function HashtagAt(s: string, i: nat): (r: Option<string>)
    ensures r.Some? ==> 0 < i && i + 1 + |r.value| <= |s| && s[i] == '#'
  {
    if 0 < i < |s| && s[i - 1] != '\n' && s[i - 1] != '#' && s[i] == '#' && WordRun(s, i + 1) > 0
    then Some(s[i + 1..i + 1 + WordRun(s, i + 1)])
    else None
  }

  /** `re.findall` of that pattern from `i` on: after a match the search
      resumes where the match ended. */
  function Hashtags(s: string, i: nat): seq<string>
    requires i <= |s|
    decreases |s| - i
  {
    if i == |s| then []
    else match HashtagAt(s, i)
      case Some(w) => [w] + Hashtags(s, i + 1 + |w|)
      case None => Hashtags(s, i + 1)
  }

  /** The set of the hashtags of a note. */
  function HashtagSet(s: string): set<string> {
    set w | w in Hashtags(s, 0)
  }

  /** Resuming after a match skips nothing: the words found are exactly the
      groups of the matches at every position. */
  lemma {:induction false} HashtagsAll(s: string, i: nat)
    requires i <= |s|
    ensures forall w :: w in Hashtags(s, i) <==> HashtagFrom(s, i, w)
    decreases |s| - i
  {
    if i < |s| {
      match HashtagAt(s, i)
      case Some(w) =>
        var e := i + 1 + |w|;
        HashtagsAll(s, e);
        HashtagsInside(s, i);
        forall x ensures HashtagFrom(s, i, x) <==> x == w || HashtagFrom(s, e, x) {
          HashtagFromFound(s, i, w, x);
        }
      case None =>
        HashtagsAll(s, i + 1);
        forall x ensures HashtagFrom(s, i, x) <==> HashtagFrom(s, i + 1, x) {
          HashtagFromNone(s, i, x);
        }
    }
  }

  /** Past a hashtag found at `i`, the next one starts after its end. */
  lemma HashtagFromFound(s: string, i: nat, w: string, x: string)
    requires i < |s| && HashtagAt(s, i) == Some(w) && i + 1 + |w| <= |s|
    requires forall k :: i < k < i + 1 + |w| ==> HashtagAt(s, k).None?
    ensures HashtagFrom(s, i, x) <==> x == w || HashtagFrom(s, i + 1 + |w|, x)
  {
    var e := i + 1 + |w|;
    if HashtagFrom(s, i, x) {
      var k :| i <= k < |s| && HashtagAt(s, k) == Some(x);
      assert k == i || e <= k;
    }
    if HashtagFrom(s, e, x) {
      var k :| e <= k < |s| && HashtagAt(s, k) == Some(x);
    }
  }

  /** Where no hashtag starts, the hashtags from `i` are those from `i + 1`. */
  lemma HashtagFromNone(s: string, i: nat, x: string)
    requires i < |s| && HashtagAt(s, i).None?
    ensures HashtagFrom(s, i, x) <==> HashtagFrom(s, i + 1, x)
  {
    if HashtagFrom(s, i, x) {
      var k :| i <= k < |s| && HashtagAt(s, k) == Some(x);
      assert k != i;
    }
    if HashtagFrom(s, i + 1, x) {
      var k :| i + 1 <= k < |s| && HashtagAt(s, k) == Some(x);
    }
  }

  /** Some match at or after `i` has the group `w`. */
  predicate HashtagFrom(s: string, i: nat, w: string) {
    exists k :: i <= k < |s| && HashtagAt(s, k) == Some(w)
  }

  /** No match starts inside the word of a match. */
  lemma {:induction false} HashtagsInside(s: string, i: nat)
    requires HashtagAt(s, i).Some?
    ensures forall k :: i < k <= i + |HashtagAt(s, i).value| ==> HashtagAt(s, k).None?
  {
    var w := HashtagAt(s, i).value;
    forall k | i < k <= i + |w| ensures HashtagAt(s, k).None? {
      assert s[k] == w[k - i - 1];
    }
  }

  /** A hashtag is a non-empty run of word characters, so it has no `/`. */
  lemma HashtagWord(s: string, w: string)
    requires w in HashtagSet(s)
    ensures |w| > 0 && forall k :: 0 <= k < |w| ==> IsWordChar(w[k])
    ensures '/' !in w
  {
    HashtagsAll(s, 0);
    var i :| 0 <= i < |s| && HashtagAt(s, i) == Some(w);
    forall k | 0 <= k < |w| ensures IsWordChar(w[k]) {
      assert w[k] == s[i + 1 + k];
    }
  }

  // ---------------------------------------------------------------------
  // Topic keywords (lines 135-146)
  // ---------------------------------------------------------------------

  /** The keyword table, in its order: keyword and the tag it adds. */
  const TopicKeywords: seq<(string, string)> := [
    ("python", "programming/python"),
    ("javascript", "programming/javascript"),
    ("tutorial", "learning/tutorial"),
    ("documentation", "reference/docs"),
    ("api", "reference/api"),
    ("guide", "learning/guide")
  ]

  /** The tags of the first `n` keywords that occur in `lower`. */
  function KeywordTags(lower: string, n: nat): set<string>
    requires n <= |TopicKeywords|
  {
    set k | 0 <= k < n && Contains(lower, TopicKeywords[k].0) :: TopicKeywords[k].1
  }

  /** Every topic tag holds a `/`. */
  lemma {:induction false} TopicTagsSlash(k: nat)
    requires k < |TopicKeywords|
    ensures '/' in TopicKeywords[k].1
  {
    var t := TopicKeywords[k].1;
    if k < 2 {
      assert t[11] == '/';
    } else if k == 2 || k == 5 {
      assert t[8] == '/';
    } else {
      assert t[9] == '/';
    }
  }

  /** The tags of the first `n` keywords that occur in `lower`, in table
      order. */
  function KeywordTagList(lower: string, n: nat): (r: seq<string>)
    requires n <= |TopicKeywords|
    ensures forall t :: t in r <==> t in KeywordTags(lower, n)
  {
    if n == 0 then []
    else
      var r := KeywordTagList(lower, n - 1) + (if Contains(lower, TopicKeywords[n - 1].0) then [TopicKeywords[n - 1].1] else []);
      assert forall t :: t in KeywordTags(lower, n) <==>
        (t in KeywordTags(lower, n - 1) || (Contains(lower, TopicKeywords[n - 1].0) && t == TopicKeywords[n - 1].1));
      r
  }

  /** The tag list, sorted and without repeats. */
  function TagList(content: string): seq<string> {
    InsertAll(Hashtags(content, 0) + KeywordTagList(Lower(content), |TopicKeywords|) + ["migrated"], [])
  }

  /** The tag list is strictly sorted and holds exactly the tags. */
  lemma TagListTags(content: string)
    ensures StrictlySorted(TagList(content))
    ensures forall t :: t in TagList(content) <==> t in TagSet(content)
  {
    InsertAllSorted(Hashtags(content, 0) + KeywordTagList(Lower(content), |TopicKeywords|) + ["migrated"], []);
  }

  /** Every tag the note gets, before sorting. */
  function TagSet(content: string): set<string> {
    HashtagSet(content) + KeywordTags(Lower(content), |TopicKeywords|) + {"migrated"}
  }

  // ---------------------------------------------------------------------
  // Sorted without repeats (line 148)
  // ---------------------------------------------------------------------

  predicate StrictlySorted(xs: seq<string>) {
    forall i, j :: 0 <= i < j < |xs| ==> StrLess(xs[i], xs[j])
  }

  /** `x` put into its place in a sorted list, unless it is there already. */
  function Insert(xs: seq<string>, x: string): (r: seq<string>)
    ensures forall y :: y in r <==> y in xs || y == x
    decreases |xs|
  {
    if |xs| == 0 then [x]
    else if x == xs[0] then xs
    else if StrLess(x, xs[0]) then [x] + xs
    else
      var t := Insert(xs[1..], x);
      assert forall y :: y in xs <==> y == xs[0] || y in xs[1..];
      [xs[0]] + t
  }

  lemma {:induction false} InsertSorted(xs: seq<string>, x: string)
    requires StrictlySorted(xs)
    ensures StrictlySorted(Insert(xs, x))
    decreases |xs|
  {
    if |xs| > 0 && x != xs[0] {
      if StrLess(x, xs[0]) {
        forall j | 0 < j < |xs| ensures StrLess(x, xs[j]) {
          StrLessTransitive(x, xs[0], xs[j]);
        }
        assert forall j :: 0 < j <= |xs| ==> ([x] + xs)[j] == xs[j - 1];
      } else {
        StrLessTotal(x, xs[0]);
        InsertSorted(xs[1..], x);
        var t := Insert(xs[1..], x);
        forall j | 0 <= j < |t| ensures StrLess(xs[0], t[j]) {
          assert t[j] in t;
        }
      }
    }
  }

  /** A strictly sorted list is determined by its elements, so the list is
      the one `sorted` gives for the set. */
  lemma {:induction false} SortedUnique(a: seq<string>, b: seq<string>)
    requires StrictlySorted(a) && StrictlySorted(b)
    requires forall x :: x in a <==> x in b
    ensures a == b
    decreases |a|
  {
    HeadIn(b);
    if |a| > 0 {
      assert a[0] in b && b[0] in a;
      SortedFirst(a);
      SortedFirst(b);
      if a[0] != b[0] {
        StrLessAsymmetric(a[0], b[0]);
      }
      SortedUnique(a[1..], b[1..]);
      assert a == [a[0]] + a[1..] && b == [b[0]] + b[1..];
    }
  }

  lemma {:induction false} HeadIn(b: seq<string>)
    ensures |b| > 0 ==> b[0] in b
  {
  }

  /** The head of a strictly sorted list is below every other element, and
      the tail holds the other elements. */
  lemma {:induction false} SortedFirst(a: seq<string>)
    requires StrictlySorted(a) && |a| > 0
    ensures forall x :: x in a && x != a[0] ==> StrLess(a[0], x)
    ensures forall x :: x in a[1..] <==> x in a && x != a[0]
  {
    StrLessIrreflexive(a[0]);
    forall x | x in a[1..] ensures x in a && x != a[0] {
      var k :| 0 <= k < |a[1..]| && a[1..][k] == x;
      assert StrLess(a[0], a[k + 1]);
    }
    forall x | x in a && x != a[0] ensures x in a[1..] && StrLess(a[0], x) {
      var k :| 0 <= k < |a| && a[k] == x;
      assert a[1..][k - 1] == x;
    }
  }

  /** The elements of `xs` inserted one by one into `acc`. */
  function InsertAll(xs: seq<string>, acc: seq<string>): (r: seq<string>)
    ensures forall y :: y in r <==> y in xs || y in acc
    decreases |xs|
  {
    if |xs| == 0 then acc
    else
      var r := InsertAll(xs[1..], Insert(acc, xs[0]));
      assert forall y :: y in xs <==> y == xs[0] || y in xs[1..];
      r
  }

  lemma {:induction false} InsertAllSorted(xs: seq<string>, acc: seq<string>)
    requires StrictlySorted(acc)
    ensures StrictlySorted(InsertAll(xs, acc))
    decreases |xs|
  {
    if |xs| > 0 {
      InsertSorted(acc, xs[0]);
      InsertAllSorted(xs[1..], Insert(acc, xs[0]));
    }
  }

  /** `sorted(list(s))`. */
  method SortedList(s: set<string>) returns (xs: seq<string>)
    ensures StrictlySorted(xs)
    ensures forall x :: x in xs <==> x in s
  {
    xs := [];
    var rest := s;
    while rest != {}
      invariant rest <= s && StrictlySorted(xs)
      invariant forall x :: x in xs <==> x in s && x !in rest
      decreases |rest|
    {
      var x :| x in rest;
      InsertSorted(xs, x);
      xs := Insert(xs, x);
      rest := rest - {x};
    }
  }

  // ---------------------------------------------------------------------
  // `_extract_tags`
  // ---------------------------------------------------------------------

  /** `_extract_tags`: the hashtags, then one tag per keyword found in the
      lower-cased content, then `migrated`, sorted. */
  method ExtractTags(content: string) returns (tags: seq<string>)
    ensures StrictlySorted(tags)
    ensures forall t :: t in tags <==> t in TagSet(content)
    ensures tags == TagList(content)
  {
    var found := set w | w in Hashtags(content, 0);
    var lower := Lower(content);
    for k := 0 to |TopicKeywords|
      invariant found == HashtagSet(content) + KeywordTags(lower, k)
    {
      var (keyword, tag) := TopicKeywords[k];
      if Contains(lower, keyword) {
        found := found + {tag};
      }
    }
    found := found + {"migrated"};
    tags := SortedList(found);
    TagListTags(content);
    SortedUnique(tags, TagList(content));
  }

  /** `migrated` is always a tag; a topic tag is present exactly when its
      keyword occurs in the lower-cased content (a topic tag holds a `/`, so
      no hashtag can supply it); any other tag is a hashtag of the note. */
  lemma TagSetRules(content: string)
    ensures "migrated" in TagSet(content)
    ensures forall k :: 0 <= k < |TopicKeywords| ==>
      (TopicKeywords[k].1 in TagSet(content) <==> Contains(Lower(content), TopicKeywords[k].0))
    ensures forall t :: t in TagSet(content) && t != "migrated" && t !in KeywordTags(Lower(content), |TopicKeywords|)
                     ==> t in HashtagSet(content)
  {
    var lower := Lower(content);
    forall k | 0 <= k < |TopicKeywords|
      ensures TopicKeywords[k].1 in TagSet(content) <==> Contains(lower, TopicKeywords[k].0)
    {
      var tag := TopicKeywords[k].1;
      TopicTagsSlash(k);
      forall w | w in HashtagSet(content) ensures w != tag {
        HashtagWord(content, w);
      }
      if tag in KeywordTags(lower, |TopicKeywords|) {
        var k' :| 0 <= k' < |TopicKeywords| && Contains(lower, TopicKeywords[k'].0) && TopicKeywords[k'].1 == tag;
        assert k' == k;
      }
    }
  }
}
