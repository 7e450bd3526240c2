/** Regular-expression clean-ups that the transformer and the sanitizer
    both apply: removing `<...>` tags and collapsing runs of newlines. */
module Markup {

  import opened Wrappers
  import opened Strings

  /** The pattern `<[^>]+>` matches at the start of `s`. */
  predicate TagAtStart(s: string) {
    |s| > 1 && s[0] == '<' && s[1] != '>' && FindFrom(s, '>', 1).Some?
  }

  /** `re.sub(r"<[^>]+>", "", md)`: each match, leftmost first, runs to
      the first `>` after its `<`. */
  function StripTags(s: string): (r: string)
    ensures forall c :: c in r ==> c in s
    ensures |s| > 0 && s[0] != '<' ==> |r| > 0 && r[0] == s[0]
    decreases |s|
  {
    if |s| == 0 then ""
    else if TagAtStart(s) then StripTags(s[FindFrom(s, '>', 1).value + 1..])
    else
      var t := StripTags(s[1..]);
      assert forall c :: c in t ==> c in s[1..];
      [s[0]] + t
  }

  /** No `<` is followed by a character other than `>` and, further on, a `>`:
      the pattern matches nowhere. */
  predicate TagFree(r: string) {
    forall i :: 0 <= i < |r| - 1 && r[i] == '<' && r[i + 1] != '>' ==> '>' !in r[i + 1..]
  }

  /** After the removal no tag is left, so removing again changes nothing. */
  lemma {:induction false} StripTagsTagFree(s: string)
    ensures TagFree(StripTags(s))
    decreases |s|
  {
    if |s| > 0 {
      if TagAtStart(s) {
        StripTagsTagFree(s[FindFrom(s, '>', 1).value + 1..]);
      } else {
        var t := StripTags(s[1..]);
        StripTagsTagFree(s[1..]);
        var r := [s[0]] + t;
        forall i | 0 <= i < |r| - 1 && r[i] == '<' && r[i + 1] != '>' ensures '>' !in r[i + 1..] {
          if i == 0 {
            assert forall x :: 1 <= x < |s| ==> s[x] != '>';
            assert r[1..] == t;
          } else {
            assert r[i + 1..] == t[i..];
          }
        }
      }
    }
  }

  /** Text without a tag is left alone. */
  lemma {:induction false} StripTagsKeepsTagFree(s: string)
    requires TagFree(s)
    ensures StripTags(s) == s
    decreases |s|
  {
    if |s| > 0 {
      assert !TagAtStart(s);
      assert TagFree(s[1..]) by {
        forall i | 0 <= i < |s[1..]| - 1 && s[1..][i] == '<' && s[1..][i + 1] != '>'
          ensures '>' !in s[1..][i + 1..]
        {
          assert s[1..][i + 1..] == s[i + 2..];
        }
      }
      StripTagsKeepsTagFree(s[1..]);
      assert s == [s[0]] + s[1..];
    }
  }

  /** `m` newlines in a row at `i`. */
  predicate RunAt(s: string, i: int, m: nat) {
    0 <= i && i + m <= |s| && forall k :: i <= k < i + m ==> s[k] == '\n'
  }

  /** No run of `m` newlines anywhere. */
  ghost predicate NoRun(s: string, m: nat) {
    forall i :: !RunAt(s, i, m)
  }

  /** A character other than a newline in front keeps a text free of runs. */
  lemma NoRunCons(c: char, t: string, m: nat)
    requires c != '\n' && m > 0 && NoRun(t, m)
    ensures NoRun([c] + t, m)
  {
    var r := [c] + t;
    forall i ensures !RunAt(r, i, m) {
      if 1 <= i && i + m <= |r| {
        assert !RunAt(t, i - 1, m);
        assert forall k :: i - 1 <= k < i - 1 + m ==> t[k] == r[k + 1];
      } else if i == 0 && m <= |r| {
        assert r[0] != '\n';
      }
    }
  }

  /** So do fewer than `m` newlines in front of a text that does not open
      with one. */
  lemma NoRunJoin(p: string, t: string, m: nat)
    requires |p| < m && (forall k :: 0 <= k < |p| ==> p[k] == '\n')
    requires NoRun(t, m) && (|t| > 0 ==> t[0] != '\n')
    ensures NoRun(p + t, m)
  {
    var r := p + t;
    forall i ensures !RunAt(r, i, m) {
      if |p| <= i && i + m <= |r| {
        assert !RunAt(t, i - |p|, m);
        assert forall k :: i - |p| <= k < i - |p| + m ==> t[k] == r[k + |p|];
      } else if 0 <= i < |p| && i + m <= |r| {
        assert r[|p|] != '\n';
      }
    }
  }

  /** `re.sub(r"\n{m,}", "\n\n", s)` for `m` at least three: every run of
      `m` or more newlines becomes two; shorter runs stay. */
  function Collapse(s: string, m: nat): (r: string)
    requires m >= 3
    ensures NoRun(r, m)
    ensures |s| > 0 && s[0] != '\n' ==> |r| > 0 && r[0] == s[0]
    ensures forall c :: c in r ==> c in s
    decreases |s|
  {
    if |s| == 0 then ""
    else if s[0] != '\n' then
      var t := Collapse(s[1..], m);
      NoRunCons(s[0], t, m);
      assert forall c :: c in t ==> c in s[1..];
      [s[0]] + t
    else
      var n := CharRun(s, '\n');
      var p := if n >= m then "\n\n" else s[..n];
      var t := Collapse(s[n..], m);
      NoRunJoin(p, t, m);
      assert forall c :: c in p ==> c in s by {
        assert s[0] == '\n';
      }
      assert forall c :: c in t ==> c in s[n..];
      p + t
  }

  /** A run of `m` newlines in a slice is one in the whole. */
  lemma NoRunSlice(s: string, a: nat, b: nat, m: nat)
    requires a <= b <= |s| && NoRun(s, m)
    ensures NoRun(s[a..b], m)
  {
    forall i ensures !RunAt(s[a..b], i, m) {
      if 0 <= i && i + m <= b - a {
        assert !RunAt(s, i + a, m);
        assert forall k :: i <= k < i + m ==> s[a..b][k] == s[k + a];
      }
    }
  }

  lemma NoRunRStrip(c: string, m: nat)
    requires NoRun(c, m)
    ensures NoRun(RStrip(c), m)
  {
    RStripShape(c);
    NoRunSlice(c, 0, |RStrip(c)|, m);
  }

  lemma NoRunLStrip(c: string, m: nat)
    requires NoRun(c, m)
    ensures NoRun(LStrip(c), m)
  {
    LStripShape(c);
    NoRunSlice(c, |c| - |LStrip(c)|, |c|, m);
    assert c[|c| - |LStrip(c)|..|c|] == LStrip(c);
  }

  /** `len(re.findall(r'```', content))`, in the sanitizer's validation
      and in the note classifier: the matches do not overlap, so
      the scan resumes after each. */
  function FenceCount(s: string): nat
    decreases |s|
  {
    if |s| < 3 then 0
    else if s[..3] == "```" then 1 + FenceCount(s[3..])
    else FenceCount(s[1..])
  }

  /** Text without a backtick in front of the rest adds no fence. */
  lemma {:induction false} FenceCountPrefix(p: string, q: string)
    requires '`' !in p
    ensures FenceCount(p + q) == FenceCount(q)
    decreases |p|
  {
    if |p| > 0 {
      var s := p + q;
      assert s[0] == p[0] != '`';
      if |s| >= 3 {
        assert s[..3][0] == s[0];
        assert s[1..] == p[1..] + q;
        FenceCountPrefix(p[1..], q);
      }
    } else {
      assert p + q == q;
    }
  }

  /** Each fence after a stretch without backticks counts once. */
  lemma FenceCountAt(p: string, q: string)
    requires '`' !in p
    ensures FenceCount(p + "```" + q) == 1 + FenceCount(q)
  {
    var s := "```" + q;
    assert s[..3] == "```" && s[3..] == q;
    assert p + "```" + q == p + s;
    FenceCountPrefix(p, s);
  }
}
