/** The two reference rewrites that point a note at a canonical image
    (scripts/asset_deduplicator.py, `_update_markdown_links`): the literal
    `str.replace` of the embed token `![[old]]` by `![[new]]`, and the
    `re.sub` that turns the linked image `![alt](old)` into `![alt](new)`.

    The main result is that applying the whole replacement map is an
    idempotent operation on the text of a note, provided that file names
    carry no brackets or parentheses and no canonical name is itself a key
    of the map. */
module LinkRewrite {

  import opened Strings
  import opened Wrappers

  type Name = string

  /** A file name free of the characters that delimit the two reference forms. */
  predicate PlainName(n: Name) {
    '[' !in n && ']' !in n && '(' !in n && ')' !in n
  }

  /** The embed token `![[n]]`. */
  function Embed(n: Name): (r: string)
    ensures |r| == |n| + 5
    ensures r[0] == '!' && r[1] == '[' && r[2] == '['
    ensures r[|n| + 3] == ']' && r[|n| + 4] == ']'
  {
    "![[" + n + "]]"
  }

  /** The target part `](n)` of a linked image `![alt](n)`. */
  function Tail(n: Name): (r: string)
    ensures |r| == |n| + 3
    ensures r[0] == ']' && r[1] == '(' && r[|n| + 2] == ')'
  {
    "](" + n + ")"
  }

  // ---------------------------------------------------------------------
  // The two substitutions
  // ---------------------------------------------------------------------

  /** Python's `s.replace(p, q)` for a non-empty `p`: the occurrences are
      taken from left to right and do not overlap. */
  function ReplaceAll(s: string, p: string, q: string): string
    requires |p| > 0
    decreases |s|
  {
    if |s| == 0 then s
    else if IsPrefix(p, s) then q + ReplaceAll(s[|p|..], p, q)
    else [s[0]] + ReplaceAll(s[1..], p, q)
  }

  /** The first `]` of `s` at or after `from` (or `|s|` when there is none). */
  function FirstClose(s: string, from: nat): (j: nat)
    requires from <= |s|
    ensures from <= j <= |s|
    ensures forall x :: from <= x < j ==> s[x] != ']'
    ensures j < |s| ==> s[j] == ']'
    decreases |s| - from
  {
    if from == |s| || s[from] == ']' then from else FirstClose(s, from + 1)
  }

  /** Whether the pattern `!\[([^\]]*)\]\(k\)` matches at the start of `s`,
      with `k` read literally; on a match, the index of the `]` that closes
      the alternative text. Because `[^\]]*` cannot pass a `]`, that index
      is the first `]` after the opening `![`. */
  function LinkMatch(s: string, k: Name): (r: Option<nat>)
    ensures r.Some? ==>
      2 <= r.value && r.value + |Tail(k)| <= |s| && s[0] == '!' && s[1] == '['
      && (forall x :: 2 <= x < r.value ==> s[x] != ']')
      && s[r.value..r.value + |Tail(k)|] == Tail(k)
  {
    if |s| >= 2 && s[0] == '!' && s[1] == '[' then
      var j := FirstClose(s, 2);
      if IsPrefix(Tail(k), s[j..]) then Some(j) else None
    else None
  }

  /** `re.sub(r'!\[([^\]]*)\]\(k\)', r'![\1](v)', s)` with `k` and `v`
      taken literally: scanning from the left, each match keeps its
      alternative text and gets the target `v`. */
  function LinkSub(s: string, k: Name, v: Name): string
    decreases |s|
  {
    if |s| == 0 then s
    else match LinkMatch(s, k)
      case Some(j) => s[..j] + Tail(v) + LinkSub(s[j + |Tail(k)|..], k, v)
      case None => [s[0]] + LinkSub(s[1..], k, v)
  }

  /** One entry of the replacement map applied to a note: line 139, then line 140. */
  function RewriteEntry(c: string, k: Name, v: Name): string {
    LinkSub(ReplaceAll(c, Embed(k), Embed(v)), k, v)
  }

  /** The whole replacement map applied in its insertion order. */
  function RewriteAll(c: string, m: seq<(Name, Name)>): string
    decreases |m|
  {
    if |m| == 0 then c
    else RewriteEntry(RewriteAll(c, m[..|m| - 1]), m[|m| - 1].0, m[|m| - 1].1)
  }

  // ---------------------------------------------------------------------
  // References to a name
  // ---------------------------------------------------------------------

  datatype Pattern = EmbedOf(key: Name) | LinkOf(key: Name)

  /** `w` is a whole linked image `![alt](k)` with no `]` in `alt`. */
  predicate IsLink(w: string, k: Name) {
    var j := |w| - |Tail(k)|;
    2 <= j && w[0] == '!' && w[1] == '['
    && (forall x :: 2 <= x < j ==> w[x] != ']')
    && w[j..] == Tail(k)
  }

  predicate Shaped(w: string, pat: Pattern) {
    match pat
    case EmbedOf(k) => w == Embed(k)
    case LinkOf(k) => IsLink(w, k)
  }

  /** Some stretch of `t` is a reference of the form `pat`. */
  ghost predicate Occurs(t: string, pat: Pattern) {
    exists i, e :: 0 <= i <= e <= |t| && Shaped(t[i..e], pat)
  }

  /** No key of the map is referenced by `t` in either form. */
  ghost predicate Clean(t: string, m: seq<(Name, Name)>) {
    forall i :: 0 <= i < |m| ==> !Occurs(t, EmbedOf(m[i].0)) && !Occurs(t, LinkOf(m[i].0))
  }

  /** The conditions under which the rewrite settles in one pass: plain
      names, and no target of the map is also one of its keys. */
  predicate RewriteReady(m: seq<(Name, Name)>) {
    (forall i :: 0 <= i < |m| ==> PlainName(m[i].0) && PlainName(m[i].1))
    && (forall i, j :: 0 <= i < |m| && 0 <= j < |m| ==> m[i].1 != m[j].0)
  }

  // ---------------------------------------------------------------------
  // Characters of the two forms
  // ---------------------------------------------------------------------

  lemma SubSlice(t: string, i: nat, e: nat, a: nat, b: nat)
    requires i <= e <= |t| && a <= b <= e - i
    ensures t[i..e][a..b] == t[i + a..i + b]
  {
    forall y | 0 <= y < b - a ensures t[i..e][a..b][y] == t[i + a..i + b][y] {
      assert t[i..e][a..b][y] == t[i + a + y];
    }
  }

  lemma EmbedKey(n: Name)
    ensures Embed(n)[3..|n| + 3] == n
  {
    forall t | 0 <= t < |n| ensures Embed(n)[3..|n| + 3][t] == n[t] {
      assert Embed(n)[3..|n| + 3][t] == Embed(n)[t + 3];
    }
  }

  lemma TailKey(n: Name)
    ensures Tail(n)[2..|n| + 2] == n
  {
    forall t | 0 <= t < |n| ensures Tail(n)[2..|n| + 2][t] == n[t] {
      assert Tail(n)[2..|n| + 2][t] == Tail(n)[t + 2];
    }
  }

  lemma ShapedOpens(w: string, pat: Pattern)
    ensures Shaped(w, pat) ==> |w| >= 5 && w[0] == '!' && w[1] == '['
  {
  }

  /** The only `]` of a linked image with a plain key opens its target. */
  lemma LinkCloses(w: string, k: Name)
    requires IsLink(w, k) && PlainName(k)
    ensures forall x :: 0 <= x < |w| && w[x] == ']' ==> x == |w| - |Tail(k)|
  {
    var j := |w| - |Tail(k)|;
    forall x | j < x < |w| ensures w[x] != ']' {
      assert w[x] == w[j..][x - j] == Tail(k)[x - j];
    }
  }

  // ---------------------------------------------------------------------
  // Matching and shapes
  // ---------------------------------------------------------------------

  lemma {:induction false} FirstCloseAt(s: string, from: nat, j: nat)
    requires from <= j < |s| && s[j] == ']'
    requires forall x :: from <= x < j ==> s[x] != ']'
    ensures FirstClose(s, from) == j
    decreases j - from
  {
    if from < j {
      FirstCloseAt(s, from + 1, j);
    }
  }

  /** A linked image at the start of `t` is exactly what `LinkMatch` finds. */
  lemma LinkMatchOfShape(t: string, w: string, k: Name)
    ensures IsLink(w, k) ==> w[|w| - |Tail(k)|] == ']'
    ensures IsLink(w, k) && IsPrefix(w, t) ==> LinkMatch(t, k) == Some(|w| - |Tail(k)|)
  {
    if IsLink(w, k) && IsPrefix(w, t) {
      var j := |w| - |Tail(k)|;
      assert t[..|w|] == w;
      assert t[j..j + |Tail(k)|] == w[j..];
      FirstCloseAt(t, 2, j);
      assert t[j..][..|Tail(k)|] == t[j..j + |Tail(k)|];
    }
  }

  /** A match of `LinkMatch` spans a linked image. */
  lemma ShapeOfLinkMatch(s: string, k: Name)
    ensures LinkMatch(s, k).Some? ==> IsLink(s[..LinkMatch(s, k).value + |Tail(k)|], k)
  {
    if LinkMatch(s, k).Some? {
      var j := LinkMatch(s, k).value;
      var w := s[..j + |Tail(k)|];
      assert w[j..] == s[j..j + |Tail(k)|];
    }
  }

  lemma LinkSubMatched(s: string, k: Name, v: Name)
    requires LinkMatch(s, k).Some?
    ensures LinkSub(s, k, v)
         == s[..LinkMatch(s, k).value] + Tail(v) + LinkSub(s[LinkMatch(s, k).value + |Tail(k)|..], k, v)
  {
  }

  lemma LinkSubUnmatched(s: string, k: Name, v: Name)
    requires |s| > 0 && LinkMatch(s, k).None?
    ensures LinkSub(s, k, v) == [s[0]] + LinkSub(s[1..], k, v)
  {
  }

  lemma OccursDrop(s: string, d: nat, pat: Pattern)
    requires d <= |s|
    ensures Occurs(s[d..], pat) ==> Occurs(s, pat)
  {
    if Occurs(s[d..], pat) {
      var i, e :| 0 <= i <= e <= |s[d..]| && Shaped(s[d..][i..e], pat);
      assert s[d..][i..e] == s[d + i..d + e];
      assert 0 <= d + i <= d + e <= |s| && Shaped(s[d + i..d + e], pat);
    }
  }

  lemma OccursShift(s: string, d: nat, w: string, x: nat)
    requires d <= |s| && OccursAt(s[d..], w, x)
    ensures OccursAt(s, w, x + d) && s[x + d..] == s[d..][x..]
  {
    assert s[d..][x..x + |w|] == s[x + d..x + d + |w|];
  }

  // ---------------------------------------------------------------------
  // Overlaps of two strings
  // ---------------------------------------------------------------------

  /** `b` lines up with `a` from offset `o` of `a` on, as far as both reach. */
  predicate Agree(a: string, b: string, o: nat) {
    o <= |a| && a[o..o + Min(|a| - o, |b|)] == b[..Min(|a| - o, |b|)]
  }

  /** One mismatching character is enough to rule an overlap out. */
  lemma DisagreeAt(a: string, b: string, o: nat, t: nat)
    requires o + t < |a| && t < |b| && a[o + t] != b[t]
    ensures !Agree(a, b, o)
  {
    var n := Min(|a| - o, |b|);
    assert a[o..o + n][t] == a[o + t] && b[..n][t] == b[t];
  }

  lemma AgreeFromChars(a: string, b: string, o: nat)
    requires o <= |a| && forall t :: 0 <= t < Min(|a| - o, |b|) ==> a[o + t] == b[t]
    ensures Agree(a, b, o)
  {
    var n := Min(|a| - o, |b|);
    forall t | 0 <= t < n ensures a[o..o + n][t] == b[..n][t] {
      assert a[o..o + n][t] == a[o + t];
    }
  }

  lemma AgreeShift(w: string, q: string, o: nat)
    requires |w| > 0 && Agree(w[1..], q, o)
    ensures Agree(w, q, o + 1)
  {
    var n := Min(|w| - (o + 1), |q|);
    assert w[1..][o..o + n] == w[o + 1..o + 1 + n];
  }

  // ---------------------------------------------------------------------
  // Windows of a string made of three parts
  // ---------------------------------------------------------------------

  lemma BeforeParts(a: string, b: string, c: string, i: nat, w: string)
    requires OccursAt(a + b + c, w, i) && i + |w| <= |a|
    ensures OccursAt(a, w, i)
  {
    forall y | 0 <= y < |w| ensures a[i..i + |w|][y] == w[y] {
      assert w[y] == (a + b + c)[i..i + |w|][y] == (a + b + c)[i + y];
    }
  }

  lemma IntoMiddle(a: string, b: string, c: string, i: nat, w: string)
    requires OccursAt(a + b + c, w, i) && i < |a| < i + |w|
    ensures Agree(w, b, |a| - i) && w[|a| - i - 1] == a[|a| - 1]
  {
    var o := |a| - i;
    assert w[o - 1] == (a + b + c)[i..i + |w|][o - 1];
    forall t | 0 <= t < Min(|w| - o, |b|) ensures w[o + t] == b[t] {
      assert w[o + t] == (a + b + c)[i..i + |w|][o + t] == (a + b + c)[|a| + t];
    }
    AgreeFromChars(w, b, o);
  }

  lemma InMiddle(a: string, b: string, c: string, i: nat, w: string)
    requires OccursAt(a + b + c, w, i) && |a| <= i < |a| + |b|
    ensures Agree(b, w, i - |a|)
  {
    var o := i - |a|;
    forall t | 0 <= t < Min(|b| - o, |w|) ensures b[o + t] == w[t] {
      assert w[t] == (a + b + c)[i..i + |w|][t] == (a + b + c)[i + t];
    }
    AgreeFromChars(b, w, o);
  }

  lemma AfterParts(a: string, b: string, c: string, i: nat, w: string)
    requires OccursAt(a + b + c, w, i) && |a| + |b| <= i
    ensures OccursAt(c, w, i - |a| - |b|)
  {
    var x := i - |a| - |b|;
    forall y | 0 <= y < |w| ensures c[x..x + |w|][y] == w[y] {
      assert w[y] == (a + b + c)[i..i + |w|][y] == (a + b + c)[i + y];
    }
  }

  // ---------------------------------------------------------------------
  // Where a window of the output comes from
  // ---------------------------------------------------------------------

  /** A prefix of the output of `ReplaceAll` is a prefix of the input or
      runs into an inserted copy of `q`. */
  lemma {:induction false} ReplacePrefix(s: string, p: string, q: string, w: string)
    requires |p| > 0 && |q| > 0 && IsPrefix(w, ReplaceAll(s, p, q))
    ensures IsPrefix(w, s) || exists o :: 0 <= o < |w| && Agree(w, q, o) && (o == 0 ==> IsPrefix(p, s))
    decreases |s|
  {
    var out := ReplaceAll(s, p, q);
    if |w| == 0 || |s| == 0 {
    } else if IsPrefix(p, s) {
      var rest := ReplaceAll(s[|p|..], p, q);
      assert out == [] + q + rest;
      assert OccursAt(out, w, 0);
      InMiddle([], q, rest, 0, w);
      AgreeSwap(q, w);
    } else {
      var rest := ReplaceAll(s[1..], p, q);
      assert out == [s[0]] + rest;
      assert IsPrefix(w[1..], rest) by {
        assert rest[..|w| - 1] == out[..|w|][1..];
      }
      ReplacePrefix(s[1..], p, q, w[1..]);
      if IsPrefix(w[1..], s[1..]) {
        assert s[..|w|] == [s[0]] + s[1..][..|w| - 1];
        assert w == [w[0]] + w[1..];
      } else {
        var o :| 0 <= o < |w[1..]| && Agree(w[1..], q, o) && (o == 0 ==> IsPrefix(p, s[1..]));
        AgreeShift(w, q, o);
      }
    }
  }

  /** Agreement at offset 0 is symmetric. */
  lemma AgreeSwap(a: string, b: string)
    requires Agree(a, b, 0)
    ensures Agree(b, a, 0)
  {
  }

  /** A window of the output of `ReplaceAll` (A) stood already in the input
      at a place where `p` does not start, or (B) ends in a prefix of an
      inserted `q`, or (C) starts inside an inserted `q`. */
  lemma {:induction false} ReplaceWindow(s: string, p: string, q: string, i: nat, w: string)
    requires |p| > 0 && |q| > 0 && |w| > 0
    requires OccursAt(ReplaceAll(s, p, q), w, i)
    ensures (exists x :: OccursAt(s, w, x) && !IsPrefix(p, s[x..]))
         || (exists o :: 1 <= o < |w| && Agree(w, q, o))
         || (exists o :: 0 <= o < |q| && Agree(q, w, o))
    decreases |s|
  {
    var out := ReplaceAll(s, p, q);
    if |s| == 0 {
    } else if IsPrefix(p, s) {
      var rest := ReplaceAll(s[|p|..], p, q);
      assert out == [] + q + rest;
      if i < |q| {
        InMiddle([], q, rest, i, w);
      } else {
        AfterParts([], q, rest, i, w);
        ReplaceWindow(s[|p|..], p, q, i - |q|, w);
        if exists x :: OccursAt(s[|p|..], w, x) && !IsPrefix(p, s[|p|..][x..]) {
          var x :| OccursAt(s[|p|..], w, x) && !IsPrefix(p, s[|p|..][x..]);
          OccursShift(s, |p|, w, x);
        }
      }
    } else {
      var rest := ReplaceAll(s[1..], p, q);
      assert out == [s[0]] + [] + rest;
      if i == 0 {
        assert IsPrefix(w, out) by { assert out[..|w|] == out[0..|w|]; }
        ReplacePrefix(s, p, q, w);
        if IsPrefix(w, s) {
          assert OccursAt(s, w, 0) && s[0..] == s;
        }
      } else {
        AfterParts([s[0]], [], rest, i, w);
        ReplaceWindow(s[1..], p, q, i - 1, w);
        if exists x :: OccursAt(s[1..], w, x) && !IsPrefix(p, s[1..][x..]) {
          var x :| OccursAt(s[1..], w, x) && !IsPrefix(p, s[1..][x..]);
          OccursShift(s, 1, w, x);
        }
      }
    }
  }

  /** A prefix of the output of `LinkSub` is a prefix of the input or runs
      into an inserted target `](v)`, which never follows a `]`. */
  lemma {:induction false} LinkPrefix(s: string, k: Name, v: Name, w: string)
    requires IsPrefix(w, LinkSub(s, k, v))
    ensures IsPrefix(w, s) || exists o :: 2 <= o < |w| && Agree(w, Tail(v), o) && w[o - 1] != ']'
    decreases |s|
  {
    if |w| > 0 && |s| > 0 {
      if LinkMatch(s, k).Some? {
        LinkMatchedPrefix(s, k, v, w);
      } else {
        var out := LinkSub(s, k, v);
        var rest := LinkSub(s[1..], k, v);
        LinkSubUnmatched(s, k, v);
        assert IsPrefix(w[1..], rest) by {
          assert rest[..|w| - 1] == out[..|w|][1..];
        }
        LinkPrefix(s[1..], k, v, w[1..]);
        if IsPrefix(w[1..], s[1..]) {
          assert s[..|w|] == [s[0]] + s[1..][..|w| - 1];
          assert w == [w[0]] + w[1..];
        } else {
          var o :| 2 <= o < |w[1..]| && Agree(w[1..], Tail(v), o) && w[1..][o - 1] != ']';
          AgreeShift(w, Tail(v), o);
          assert w[o] == w[1..][o - 1];
        }
      }
    }
  }

  lemma LinkMatchedPrefix(s: string, k: Name, v: Name, w: string)
    requires LinkMatch(s, k).Some? && IsPrefix(w, LinkSub(s, k, v))
    ensures IsPrefix(w, s) || exists o :: 2 <= o < |w| && Agree(w, Tail(v), o) && w[o - 1] != ']'
  {
    var j := LinkMatch(s, k).value;
    var rest := LinkSub(s[j + |Tail(k)|..], k, v);
    LinkSubMatched(s, k, v);
    assert OccursAt(s[..j] + Tail(v) + rest, w, 0);
    if |w| <= j {
      BeforeParts(s[..j], Tail(v), rest, 0, w);
      assert s[..j][..|w|] == s[..|w|];
    } else {
      IntoMiddle(s[..j], Tail(v), rest, 0, w);
    }
  }

  /** The three origins of a window of the output of `LinkSub`, as for
      `ReplaceWindow`; in case (A) the window is not a linked image of `k`. */
  lemma {:induction false} LinkWindow(s: string, k: Name, v: Name, i: nat, w: string)
    requires |w| > 0 && OccursAt(LinkSub(s, k, v), w, i)
    ensures (exists x :: OccursAt(s, w, x) && !IsLink(w, k))
         || (exists o :: 1 <= o < |w| && Agree(w, Tail(v), o) && w[o - 1] != ']')
         || (exists o :: 0 <= o < |Tail(v)| && Agree(Tail(v), w, o))
    decreases |s|, 2
  {
    if |s| > 0 {
      if LinkMatch(s, k).Some? {
        LinkMatchedWindow(s, k, v, i, w);
      } else {
        var out := LinkSub(s, k, v);
        var rest := LinkSub(s[1..], k, v);
        LinkSubUnmatched(s, k, v);
        if i == 0 {
          assert IsPrefix(w, out) by { assert out[..|w|] == out[0..|w|]; }
          LinkPrefix(s, k, v, w);
          if IsPrefix(w, s) {
            LinkMatchOfShape(s, w, k);
            assert OccursAt(s, w, 0);
          }
        } else {
          assert out == [s[0]] + [] + rest;
          AfterParts([s[0]], [], rest, i, w);
          LinkWindow(s[1..], k, v, i - 1, w);
          if exists x :: OccursAt(s[1..], w, x) && !IsLink(w, k) {
            var x :| OccursAt(s[1..], w, x) && !IsLink(w, k);
            OccursShift(s, 1, w, x);
          }
        }
      }
    }
  }

  /** A window inside `![alt`, where `alt` has no `]`, is no linked image. */
  lemma AltTextWindow(s: string, j: nat, i: nat, w: string, k: Name)
    requires j <= |s| && OccursAt(s[..j], w, i)
    requires forall x :: 0 <= x < j ==> s[x] != ']'
    ensures OccursAt(s, w, i) && !IsLink(w, k)
  {
    assert s[i..i + |w|] == s[..j][i..i + |w|];
    forall y | 0 <= y < |w| ensures w[y] != ']' {
      assert w[y] == s[i + y];
    }
    if |w| >= |Tail(k)| {
      assert w[|w| - |Tail(k)|] != ']';
    }
  }

  lemma {:induction false} LinkMatchedWindow(s: string, k: Name, v: Name, i: nat, w: string)
    requires |w| > 0 && OccursAt(LinkSub(s, k, v), w, i) && LinkMatch(s, k).Some?
    ensures (exists x :: OccursAt(s, w, x) && !IsLink(w, k))
         || (exists o :: 1 <= o < |w| && Agree(w, Tail(v), o) && w[o - 1] != ']')
         || (exists o :: 0 <= o < |Tail(v)| && Agree(Tail(v), w, o))
    decreases |s|, 1
  {
    var j := LinkMatch(s, k).value;
    var d := j + |Tail(k)|;
    var rest := LinkSub(s[d..], k, v);
    LinkSubMatched(s, k, v);
    assert OccursAt(s[..j] + Tail(v) + rest, w, i);
    MatchedParts(s, j, Tail(v), rest, k, i, w);
    if j + |Tail(v)| <= i {
      LinkWindowAfter(s, k, v, d, i - j - |Tail(v)|, w);
    }
  }

  /** The cases of a window of `![alt` + `t` + `rest`, where `alt` has no `]`. */
  lemma MatchedParts(s: string, j: nat, t: string, rest: string, k: Name, i: nat, w: string)
    requires j <= |s| && forall x :: 0 <= x < j ==> s[x] != ']'
    requires |w| > 0 && OccursAt(s[..j] + t + rest, w, i)
    ensures i < j + |t| ==>
      ((exists x :: OccursAt(s, w, x) && !IsLink(w, k))
       || (exists o :: 1 <= o < |w| && Agree(w, t, o) && w[o - 1] != ']')
       || (exists o :: 0 <= o < |t| && Agree(t, w, o)))
    ensures j + |t| <= i ==> OccursAt(rest, w, i - j - |t|)
  {
    var pre := s[..j];
    if i + |w| <= j {
      BeforeParts(pre, t, rest, i, w);
      AltTextWindow(s, j, i, w, k);
    } else if i < j {
      IntoMiddle(pre, t, rest, i, w);
    } else if i < j + |t| {
      InMiddle(pre, t, rest, i, w);
    } else {
      AfterParts(pre, t, rest, i, w);
    }
  }

  /** A window in the rewrite of what follows a match. */
  lemma {:induction false} LinkWindowAfter(s: string, k: Name, v: Name, d: nat, i: nat, w: string)
    requires 0 < d <= |s| && |w| > 0 && OccursAt(LinkSub(s[d..], k, v), w, i)
    ensures (exists x :: OccursAt(s, w, x) && !IsLink(w, k))
         || (exists o :: 1 <= o < |w| && Agree(w, Tail(v), o) && w[o - 1] != ']')
         || (exists o :: 0 <= o < |Tail(v)| && Agree(Tail(v), w, o))
    decreases |s|, 0
  {
    LinkWindow(s[d..], k, v, i, w);
    if exists x :: OccursAt(s[d..], w, x) && !IsLink(w, k) {
      var x :| OccursAt(s[d..], w, x) && !IsLink(w, k);
      OccursShift(s, d, w, x);
    }
  }

  // ---------------------------------------------------------------------
  // Clashes: an inserted token cannot complete a reference to a key
  // ---------------------------------------------------------------------

  /** Two embed tokens of plain names overlap only when they coincide. */
  lemma EmbedAgreeEmbed(x: Name, y: Name, o: nat)
    requires PlainName(x) && PlainName(y)
    ensures o < |Embed(x)| && Agree(Embed(x), Embed(y), o) ==> o == 0 && x == y
  {
    var X, Y := Embed(x), Embed(y);
    if o >= |X| {
    } else if o > 0 {
      if X[o] != '!' {
        DisagreeAt(X, Y, o, 0);
      } else {
        assert 3 <= o < |x| + 3;
        assert X[o + 1] != '[' by {
          assert o + 1 == |x| + 3 || X[o + 1] == x[o - 2];
        }
        DisagreeAt(X, Y, o, 1);
      }
    } else if |x| < |y| {
      assert Y[|x| + 3] == y[|x|];
      DisagreeAt(X, Y, 0, |x| + 3);
    } else if |y| < |x| {
      assert X[|y| + 3] == x[|y|];
      DisagreeAt(X, Y, 0, |y| + 3);
    } else if x != y {
      var d :| 0 <= d < |x| && x[d] != y[d];
      assert X[d + 3] == x[d] && Y[d + 3] == y[d];
      DisagreeAt(X, Y, 0, d + 3);
    }
  }

  /** An inserted embed token never ends a linked image (case B). */
  lemma LinkEndsNotInEmbed(w: string, a: Name, b: Name, o: nat)
    requires PlainName(a) && PlainName(b) && 1 <= o < |w|
    ensures IsLink(w, a) ==> !Agree(w, Embed(b), o)
  {
    if IsLink(w, a) {
      var Q := Embed(b);
      LinkCloses(w, a);
      if |w| - o >= |Q| {
        if o + |b| + 3 != |w| - |Tail(a)| {
          DisagreeAt(w, Q, o, |b| + 3);
        } else {
          DisagreeAt(w, Q, o, |b| + 4);
        }
      } else {
        var n := |w| - o;
        assert w[|w| - 1] == w[|w| - |Tail(a)|..][|a| + 2] == ')';
        assert Q[n - 1] != ')' by {
          assert n - 1 < 3 || n - 1 >= |b| + 3 || Q[n - 1] == b[n - 4];
        }
        DisagreeAt(w, Q, o, n - 1);
      }
    }
  }

  /** A linked image never starts inside an inserted embed token (case C). */
  lemma LinkStartsNotInEmbed(w: string, a: Name, b: Name, o: nat)
    requires PlainName(a) && PlainName(b)
    ensures IsLink(w, a) && o < |Embed(b)| ==> !Agree(Embed(b), w, o)
  {
    var Q := Embed(b);
    if IsLink(w, a) && o < |Q| {
      LinkCloses(w, a);
      if Q[o] != '!' {
        DisagreeAt(Q, w, o, 0);
      } else if o == 0 {
        if |Q| <= |w| {
          if |b| + 3 != |w| - |Tail(a)| {
            DisagreeAt(Q, w, 0, |b| + 3);
          } else {
            DisagreeAt(Q, w, 0, |b| + 4);
          }
        } else {
          assert w[|w| - 1] == w[|w| - |Tail(a)|..][|a| + 2] == ')';
          assert Q[|w| - 1] != ')' by {
            assert |w| - 1 < 3 || |w| - 1 >= |b| + 3 || Q[|w| - 1] == b[|w| - 4];
          }
          DisagreeAt(Q, w, 0, |w| - 1);
        }
      } else {
        assert 3 <= o < |b| + 3;
        assert Q[o + 1] != '[' by {
          assert o + 1 == |b| + 3 || Q[o + 1] == b[o - 2];
        }
        DisagreeAt(Q, w, o, 1);
      }
    }
  }

  /** An inserted target `](b)` completes an embed token only by starting at
      its second closing bracket, which the guard of `LinkPrefix` excludes
      (case B). */
  lemma EmbedEndsInTail(a: Name, b: Name, o: nat)
    requires PlainName(a) && PlainName(b)
    ensures 1 <= o < |Embed(a)| && Agree(Embed(a), Tail(b), o) ==> Embed(a)[o - 1] == ']'
  {
    var E := Embed(a);
    if 1 <= o < |E| {
      if E[o] != ']' {
        DisagreeAt(E, Tail(b), o, 0);
      } else if o == |a| + 3 {
        DisagreeAt(E, Tail(b), o, 1);
      }
    }
  }

  /** Nothing that starts with `![` starts inside a target `](b)` (case C). */
  lemma OpenerNotInTail(b: Name, w: string, o: nat)
    requires PlainName(b) && |w| >= 2 && w[0] == '!' && w[1] == '['
    ensures o < |Tail(b)| ==> !Agree(Tail(b), w, o)
  {
    var T := Tail(b);
    if o < |T| {
      if T[o] != '!' {
        DisagreeAt(T, w, o, 0);
      } else {
        assert 2 <= o < |b| + 2;
        assert T[o + 1] != '[' by {
          assert o + 1 == |b| + 2 || T[o + 1] == b[o - 1];
        }
        DisagreeAt(T, w, o, 1);
      }
    }
  }

  /** An inserted target `](b)` completes a linked image only for the key `b`. */
  lemma LinkEndsInTail(w: string, a: Name, b: Name, o: nat)
    requires PlainName(a) && PlainName(b) && 1 <= o < |w|
    ensures IsLink(w, a) && Agree(w, Tail(b), o) ==> a == b
  {
    if IsLink(w, a) {
      var j := |w| - |Tail(a)|;
      var A, B := Tail(a), Tail(b);
      LinkCloses(w, a);
      assert forall t :: 0 <= t < |A| ==> w[j + t] == w[j..][t] == A[t];
      if w[o] != ']' {
        DisagreeAt(w, B, o, 0);
      } else if |a| < |b| {
        assert B[|a| + 2] == b[|a|];
        DisagreeAt(w, B, o, |a| + 2);
      } else if |b| < |a| {
        assert A[|b| + 2] == a[|b|];
        DisagreeAt(w, B, o, |b| + 2);
      } else if a != b {
        var d :| 0 <= d < |a| && a[d] != b[d];
        assert A[d + 2] == a[d] && B[d + 2] == b[d];
        DisagreeAt(w, B, o, d + 2);
      }
    }
  }

  // ---------------------------------------------------------------------
  // One substitution removes its key and brings in no other key
  // ---------------------------------------------------------------------

  lemma EmbedWindowClear(s: string, k: Name, v: Name, pat: Pattern, i: nat, w: string)
    requires PlainName(k) && PlainName(v) && PlainName(pat.key) && k != v
    requires pat != EmbedOf(v)
    requires pat == EmbedOf(k) || !Occurs(s, pat)
    requires OccursAt(ReplaceAll(s, Embed(k), Embed(v)), w, i)
    ensures !Shaped(w, pat)
  {
    if |w| >= 2 && w[0] == '!' && w[1] == '[' {
      ReplaceWindow(s, Embed(k), Embed(v), i, w);
      if exists x :: OccursAt(s, w, x) && !IsPrefix(Embed(k), s[x..]) {
        var x :| OccursAt(s, w, x) && !IsPrefix(Embed(k), s[x..]);
        assert s[x..][..|w|] == s[x..x + |w|] == w;
      } else if exists o :: 1 <= o < |w| && Agree(w, Embed(v), o) {
        var o :| 1 <= o < |w| && Agree(w, Embed(v), o);
        match pat {
          case EmbedOf(a) => EmbedAgreeEmbed(a, v, o);
          case LinkOf(a) => LinkEndsNotInEmbed(w, a, v, o);
        }
      } else {
        var o :| 0 <= o < |Embed(v)| && Agree(Embed(v), w, o);
        match pat {
          case EmbedOf(a) => EmbedAgreeEmbed(v, a, o);
          case LinkOf(a) => LinkStartsNotInEmbed(w, a, v, o);
        }
      }
    }
  }

  /** Replacing `![[k]]` by `![[v]]` leaves no `![[k]]` and creates no
      reference of any other form or key except to `v`. */
  lemma EmbedStepClears(s: string, k: Name, v: Name, pat: Pattern)
    requires PlainName(k) && PlainName(v) && PlainName(pat.key) && k != v
    requires pat != EmbedOf(v)
    requires pat == EmbedOf(k) || !Occurs(s, pat)
    ensures !Occurs(ReplaceAll(s, Embed(k), Embed(v)), pat)
  {
    var out := ReplaceAll(s, Embed(k), Embed(v));
    forall i, e | 0 <= i <= e <= |out| ensures !Shaped(out[i..e], pat) {
      EmbedWindowClear(s, k, v, pat, i, out[i..e]);
    }
  }

  lemma LinkWindowClear(s: string, k: Name, v: Name, pat: Pattern, i: nat, w: string)
    requires PlainName(k) && PlainName(v) && PlainName(pat.key) && k != v
    requires pat != LinkOf(v)
    requires pat == LinkOf(k) || !Occurs(s, pat)
    requires OccursAt(LinkSub(s, k, v), w, i)
    ensures !Shaped(w, pat)
  {
    if |w| >= 2 && w[0] == '!' && w[1] == '[' {
      LinkWindow(s, k, v, i, w);
      if exists x :: OccursAt(s, w, x) && !IsLink(w, k) {
        var x :| OccursAt(s, w, x) && !IsLink(w, k);
        assert s[x..x + |w|] == w;
      } else if exists o :: 1 <= o < |w| && Agree(w, Tail(v), o) && w[o - 1] != ']' {
        var o :| 1 <= o < |w| && Agree(w, Tail(v), o) && w[o - 1] != ']';
        TailClash(w, v, pat, o);
      } else {
        var o :| 0 <= o < |Tail(v)| && Agree(Tail(v), w, o);
        OpenerNotInTail(v, w, o);
      }
    }
  }

  /** An inserted target `](v)` that does not follow a `]` completes no
      reference except a linked image of `v`. */
  lemma TailClash(w: string, v: Name, pat: Pattern, o: nat)
    requires PlainName(v) && PlainName(pat.key) && pat != LinkOf(v)
    requires 1 <= o < |w| && w[o - 1] != ']'
    ensures Agree(w, Tail(v), o) ==> !Shaped(w, pat)
  {
    match pat {
      case EmbedOf(a) => EmbedEndsInTail(a, v, o);
      case LinkOf(a) => LinkEndsInTail(w, a, v, o);
    }
  }

  /** Retargeting `![alt](k)` to `![alt](v)` leaves no such link to `k` and
      creates no reference of any other form or key except to `v`. */
  lemma LinkStepClears(s: string, k: Name, v: Name, pat: Pattern)
    requires PlainName(k) && PlainName(v) && PlainName(pat.key) && k != v
    requires pat != LinkOf(v)
    requires pat == LinkOf(k) || !Occurs(s, pat)
    ensures !Occurs(LinkSub(s, k, v), pat)
  {
    var out := LinkSub(s, k, v);
    forall i, e | 0 <= i <= e <= |out| ensures !Shaped(out[i..e], pat) {
      LinkWindowClear(s, k, v, pat, i, out[i..e]);
    }
  }

  lemma {:induction false} ReplaceIdentity(s: string, k: Name, v: Name)
    requires !Occurs(s, EmbedOf(k))
    ensures ReplaceAll(s, Embed(k), Embed(v)) == s
    decreases |s|
  {
    if |s| > 0 {
      if |Embed(k)| <= |s| {
        assert !Shaped(s[0..|Embed(k)|], EmbedOf(k));
        assert s[..|Embed(k)|] == s[0..|Embed(k)|];
      }
      OccursDrop(s, 1, EmbedOf(k));
      ReplaceIdentity(s[1..], k, v);
      assert s == [s[0]] + s[1..];
    }
  }

  lemma NoLinkNoMatch(s: string, k: Name)
    requires !Occurs(s, LinkOf(k))
    ensures LinkMatch(s, k).None?
  {
    var e := if LinkMatch(s, k).Some? then LinkMatch(s, k).value + |Tail(k)| else 0;
    assert !Shaped(s[0..e], LinkOf(k));
    assert s[..e] == s[0..e];
    ShapeOfLinkMatch(s, k);
  }

  lemma {:induction false} LinkIdentity(s: string, k: Name, v: Name)
    requires !Occurs(s, LinkOf(k))
    ensures LinkSub(s, k, v) == s
    decreases |s|
  {
    if |s| > 0 {
      NoLinkNoMatch(s, k);
      OccursDrop(s, 1, LinkOf(k));
      LinkIdentity(s[1..], k, v);
      LinkSubUnmatched(s, k, v);
      assert s == [s[0]] + s[1..];
    }
  }

  // ---------------------------------------------------------------------
  // The whole map
  // ---------------------------------------------------------------------

  /** One entry clears its own key and keeps every other plain key that is
      not its target cleared. */
  lemma EntryClears(t: string, k: Name, v: Name, a: Name)
    requires PlainName(k) && PlainName(v) && PlainName(a) && k != v && a != v
    requires a == k || (!Occurs(t, EmbedOf(a)) && !Occurs(t, LinkOf(a)))
    ensures !Occurs(RewriteEntry(t, k, v), EmbedOf(a)) && !Occurs(RewriteEntry(t, k, v), LinkOf(a))
  {
    var t1 := ReplaceAll(t, Embed(k), Embed(v));
    EmbedStepClears(t, k, v, EmbedOf(a));
    if a != k {
      EmbedStepClears(t, k, v, LinkOf(a));
    }
    LinkStepClears(t1, k, v, EmbedOf(a));
    LinkStepClears(t1, k, v, LinkOf(a));
  }

  /** After the rewrite no key of the map is referenced any more. */
  lemma {:induction false} RewriteAllCleans(c: string, m: seq<(Name, Name)>)
    requires RewriteReady(m)
    ensures Clean(RewriteAll(c, m), m)
    decreases |m|
  {
    if |m| > 0 {
      var init := m[..|m| - 1];
      assert forall i :: 0 <= i < |init| ==> init[i] == m[i];
      assert RewriteReady(init);
      RewriteAllCleans(c, init);
      var t := RewriteAll(c, init);
      var k, v := m[|m| - 1].0, m[|m| - 1].1;
      forall i | 0 <= i < |m|
        ensures !Occurs(RewriteEntry(t, k, v), EmbedOf(m[i].0))
        ensures !Occurs(RewriteEntry(t, k, v), LinkOf(m[i].0))
      {
        EntryClears(t, k, v, m[i].0);
      }
    }
  }

  /** A note that references no key is left as it is. */
  lemma {:induction false} CleanUnchanged(t: string, m: seq<(Name, Name)>)
    requires Clean(t, m)
    ensures RewriteAll(t, m) == t
    decreases |m|
  {
    if |m| > 0 {
      var init := m[..|m| - 1];
      assert forall i :: 0 <= i < |init| ==> init[i] == m[i];
      CleanUnchanged(t, init);
      ReplaceIdentity(t, m[|m| - 1].0, m[|m| - 1].1);
      LinkIdentity(t, m[|m| - 1].0, m[|m| - 1].1);
    }
  }

  /** Running the rewrite of a note a second time changes nothing. */
  lemma RewriteIdempotent(c: string, m: seq<(Name, Name)>)
    requires RewriteReady(m)
    ensures RewriteAll(RewriteAll(c, m), m) == RewriteAll(c, m)
  {
    RewriteAllCleans(c, m);
    CleanUnchanged(RewriteAll(c, m), m);
  }

  lemma ShapedNamesKey(t: string, i: nat, e: nat, pat: Pattern)
    requires i <= e <= |t|
    ensures Shaped(t[i..e], pat) ==> Contains(t, pat.key)
  {
    match pat {
      case EmbedOf(k) => EmbedNamesKey(t, i, e, k);
      case LinkOf(k) => LinkNamesKey(t, i, e, k);
    }
  }

  lemma EmbedNamesKey(t: string, i: nat, e: nat, k: Name)
    requires i <= e <= |t|
    ensures t[i..e] == Embed(k) ==> OccursAt(t, k, i + 3)
  {
    if t[i..e] == Embed(k) {
      EmbedKey(k);
      SubSlice(t, i, e, 3, 3 + |k|);
    }
  }

  lemma LinkNamesKey(t: string, i: nat, e: nat, k: Name)
    requires i <= e <= |t|
    ensures IsLink(t[i..e], k) ==> OccursAt(t, k, e - |Tail(k)| + 2)
  {
    var w := t[i..e];
    if IsLink(w, k) {
      var j := |w| - |Tail(k)|;
      TailKey(k);
      assert w[j..|w|] == w[j..];
      SubSlice(w, j, |w|, 2, 2 + |k|);
      SubSlice(t, i, e, j + 2, j + 2 + |k|);
    }
  }

  /** A note in which no key of the map occurs as a substring is left as it is. */
  lemma NoKeyUnchanged(c: string, m: seq<(Name, Name)>)
    requires forall i :: 0 <= i < |m| ==> !Contains(c, m[i].0)
    ensures RewriteAll(c, m) == c
  {
    forall i, x, e, pat: Pattern | 0 <= i < |m| && 0 <= x <= e <= |c| && pat.key == m[i].0
      ensures !Shaped(c[x..e], pat)
    {
      ShapedNamesKey(c, x, e, pat);
    }
    assert forall i :: 0 <= i < |m| ==> EmbedOf(m[i].0).key == m[i].0 && LinkOf(m[i].0).key == m[i].0;
    CleanUnchanged(c, m);
  }

  /** The embed token of a key becomes the embed token of its target. */
  lemma EmbedRewritten(k: Name, v: Name)
    requires PlainName(v)
    ensures RewriteEntry(Embed(k), k, v) == Embed(v)
  {
    var E := Embed(v);
    assert Embed(k)[|Embed(k)|..] == [];
    assert ReplaceAll(Embed(k), Embed(k), Embed(v)) == E + [] == E;
    forall y | 0 <= y < |E| ensures E[y] != '(' {
      if 3 <= y < |v| + 3 {
        assert E[y] == v[y - 3];
      }
    }
    forall x, e | 0 <= x <= e <= |E| ensures !Shaped(E[x..e], LinkOf(k)) {
      var w := E[x..e];
      if |w| >= |Tail(k)| {
        var j := |w| - |Tail(k)|;
        assert w[j + 1] == w[j..][1] == E[x + j + 1];
      }
    }
    LinkIdentity(E, k, v);
  }

  /** The single `]` of a linked image `![alt](k)` with a plain key. */
  lemma LinkTextCloses(alt: string, k: Name)
    requires ']' !in alt && PlainName(k)
    ensures var s := "![" + alt + Tail(k);
      forall y :: 0 <= y < |s| && s[y] == ']' ==> y == |alt| + 2
  {
    var s := "![" + alt + Tail(k);
    var j := |alt| + 2;
    forall y | 0 <= y < |s| && y != j ensures s[y] != ']' {
      if 2 <= y < j {
        assert s[y] == alt[y - 2];
      } else if y > j {
        assert s[y] == Tail(k)[y - j];
      }
    }
  }

  /** A linked image has no embed token in it, having only one `]`. */
  lemma LinkTextHasNoEmbed(alt: string, k: Name)
    requires ']' !in alt && PlainName(k)
    ensures !Occurs("![" + alt + Tail(k), EmbedOf(k))
  {
    var s := "![" + alt + Tail(k);
    LinkTextCloses(alt, k);
    forall x, e | 0 <= x <= e <= |s| ensures !Shaped(s[x..e], EmbedOf(k)) {
      if e - x == |k| + 5 {
        assert s[x..e][|k| + 3] == s[x + |k| + 3];
        assert s[x..e][|k| + 4] == s[x + |k| + 4];
      }
    }
  }

  lemma LinkTextMatches(alt: string, k: Name)
    requires ']' !in alt && PlainName(k)
    ensures LinkMatch("![" + alt + Tail(k), k) == Some(|alt| + 2)
  {
    var s := "![" + alt + Tail(k);
    var j := |alt| + 2;
    LinkTextCloses(alt, k);
    FirstCloseAt(s, 2, j);
    assert s[j..] == Tail(k);
  }

  /** A linked image of a key keeps its alternative text and gets the target. */
  lemma LinkRewritten(alt: string, k: Name, v: Name)
    requires ']' !in alt && PlainName(k)
    ensures RewriteEntry("![" + alt + Tail(k), k, v) == "![" + alt + Tail(v)
  {
    var s := "![" + alt + Tail(k);
    var j := |alt| + 2;
    LinkTextHasNoEmbed(alt, k);
    ReplaceIdentity(s, k, v);
    LinkTextMatches(alt, k);
    LinkSubMatched(s, k, v);
    assert s[j + |Tail(k)|..] == [];
    assert s[..j] == "![" + alt;
  }

  /** A bare wikilink `[[k]]` is not one of the two forms and is left as it is. */
  lemma BareWikilinkUntouched(k: Name, m: seq<(Name, Name)>)
    requires '!' !in k
    ensures RewriteAll("[[" + k + "]]", m) == "[[" + k + "]]"
  {
    var t := "[[" + k + "]]";
    assert forall y :: 0 <= y < |t| ==> t[y] != '!';
    forall x, e, pat: Pattern | 0 <= x <= e <= |t| ensures !Shaped(t[x..e], pat) {
      ShapedOpens(t[x..e], pat);
      if x < e {
        assert t[x..e][0] == t[x];
      }
    }
    CleanUnchanged(t, m);
  }

  // ---------------------------------------------------------------------
  // The pattern as the source builds it
  // ---------------------------------------------------------------------

  /** The characters other than `.`, `(` and `)` that Python's `re` reads
      as operators outside a character class. */
  predicate IsMeta(c: char) {
    c == '\\' || c == '^' || c == '$' || c == '*' || c == '+' || c == '?'
    || c == '{' || c == '}' || c == '[' || c == ']' || c == '|'
  }

  /** Scanning `k` at group depth `d`: no metacharacter, and the
      parentheses open and close in order. */
  predicate ReadableFrom(k: string, d: nat)
    decreases |k|
  {
    if |k| == 0 then d == 0
    else if IsMeta(k[0]) then false
    else if k[0] == '(' then ReadableFrom(k[1..], d + 1)
    else if k[0] == ')' then d > 0 && ReadableFrom(k[1..], d - 1)
    else ReadableFrom(k[1..], d)
  }

  /** A key that line 140 compiles without an error and that matches like a
      name: its only special characters are `.` and balanced parentheses. */
  predicate RegexReadable(k: Name) {
    ReadableFrom(k, 0)
  }

  /** The characters a key matches once its parentheses, which only group,
      are taken out. */
  function Ungrouped(k: Name): (r: Name)
    ensures |r| <= |k|
    decreases |k|
  {
    if |k| == 0 then k
    else (if k[0] == '(' || k[0] == ')' then [] else [k[0]]) + Ungrouped(k[1..])
  }

  /** A key without parentheses reads as itself. */
  lemma {:induction false} UngroupedPlain(k: Name)
    requires '(' !in k && ')' !in k
    ensures Ungrouped(k) == k
    decreases |k|
  {
    if |k| > 0 {
      assert k[0] in k;
      assert forall c :: c in k[1..] ==> c in k;
      UngroupedPlain(k[1..]);
      assert k == [k[0]] + k[1..];
    }
  }

  /** How the ungrouped key `u` matches `t`: a dot stands for any character
      except a newline, every other character for itself. */
  predicate DotMatch(u: Name, t: string) {
    |t| == |u| && forall y :: 0 <= y < |u| ==> if u[y] == '.' then t[y] != '\n' else t[y] == u[y]
  }

  /** `LinkMatch` with the key read as a regular expression, as line 140
      does: the target must match the key with its groups opened. */
  function LinkMatchAsWritten(s: string, k: Name): (r: Option<nat>)
    requires RegexReadable(k)
    ensures r.Some? ==> 2 <= r.value && r.value + |Tail(Ungrouped(k))| <= |s|
  {
    if |s| >= 2 && s[0] == '!' && s[1] == '[' then
      var j := FirstClose(s, 2);
      var u := Ungrouped(k);
      if j + |Tail(u)| <= |s| && s[j] == ']' && s[j + 1] == '('
         && DotMatch(u, s[j + 2..j + 2 + |u|]) && s[j + 2 + |u|] == ')'
      then Some(j) else None
    else None
  }

  /** The substitution of line 140 with the key read as a regular expression;
      a backslash in the target would be read as an escape of the template. */
  function LinkSubAsWritten(s: string, k: Name, v: Name): string
    requires RegexReadable(k) && '\\' !in v
    decreases |s|
  {
    if |s| == 0 then s
    else match LinkMatchAsWritten(s, k)
      case Some(j) => s[..j] + Tail(v) + LinkSubAsWritten(s[j + |Tail(Ungrouped(k))|..], k, v)
      case None => [s[0]] + LinkSubAsWritten(s[1..], k, v)
  }

  /** For a key without groups, every literal match is also a match of the
      pattern as written. */
  lemma LiteralMatchIsRegexMatch(s: string, k: Name)
    requires RegexReadable(k) && '(' !in k && ')' !in k
    ensures LinkMatch(s, k).Some? ==> LinkMatchAsWritten(s, k) == LinkMatch(s, k)
  {
    UngroupedPlain(k);
    if LinkMatch(s, k).Some? {
      var j := LinkMatch(s, k).value;
      TailInside(s, j, k);
    }
  }

  /** For a key without dots and groups, the pattern as written matches
      exactly where the literal one does. */
  lemma RegexMatchIsLiteralMatch(s: string, k: Name)
    requires RegexReadable(k) && '.' !in k && '(' !in k && ')' !in k
    ensures LinkMatchAsWritten(s, k) == LinkMatch(s, k)
  {
    LiteralMatchIsRegexMatch(s, k);
    UngroupedPlain(k);
    if LinkMatchAsWritten(s, k).Some? {
      var j := LinkMatchAsWritten(s, k).value;
      DotFreeMatch(k, s[j + 2..j + 2 + |k|]);
      TailAt(s, j, k);
    }
  }

  lemma TailInside(s: string, j: nat, k: Name)
    requires j + |k| + 3 <= |s| && s[j..j + |k| + 3] == Tail(k)
    ensures s[j] == ']' && s[j + 1] == '(' && s[j + 2 + |k|] == ')'
    ensures s[j + 2..j + 2 + |k|] == k
  {
    var w := s[j..j + |k| + 3];
    assert s[j] == w[0] && s[j + 1] == w[1] && s[j + 2 + |k|] == w[|k| + 2];
    var x, y := w[2..|k| + 2], s[j + 2..j + 2 + |k|];
    forall t | 0 <= t < |k| ensures x[t] == y[t] {
      assert x[t] == w[t + 2] == s[j + 2 + t];
    }
    assert x == y;
    TailKey(k);
  }

  /** Without a dot, a key matches only itself. */
  lemma DotFreeMatch(u: Name, t: string)
    requires '.' !in u && DotMatch(u, t)
    ensures t == u
  {
  }

  lemma TailAt(s: string, j: nat, k: Name)
    requires j + |k| + 3 <= |s| && s[j] == ']' && s[j + 1] == '(' && s[j + 2 + |k|] == ')'
    requires s[j + 2..j + 2 + |k|] == k
    ensures IsPrefix(Tail(k), s[j..])
  {
    assert s[j..][..|k| + 3] == s[j..j + |k| + 3] == "](" + s[j + 2..j + 2 + |k|] + ")";
  }

  /** A key without parentheses has balanced ones. */
  lemma {:induction false} NoParensClose(k: string)
    requires '(' !in k && ')' !in k
    requires forall y :: 0 <= y < |k| ==> !IsMeta(k[y])
    ensures ReadableFrom(k, 0)
    decreases |k|
  {
    if |k| > 0 {
      assert k[0] in k;
      assert forall c :: c in k[1..] ==> c in k;
      assert forall y :: 0 <= y < |k[1..]| ==> k[1..][y] == k[y + 1];
      NoParensClose(k[1..]);
    }
  }

  /** A key whose characters are all letters, digits, spaces and dots is
      readable. */
  lemma PlainKeyReadable(k: Name)
    requires forall y :: 0 <= y < |k| ==> k[y] == '.' || 'a' <= k[y] <= 'z' || '0' <= k[y] <= '9' || k[y] == ' '
    ensures RegexReadable(k)
  {
    NoParensClose(k);
  }

  /** For such a key both readings rewrite a note the same way. */
  lemma {:induction false} SubAgreesWithoutSpecials(s: string, k: Name, v: Name)
    requires RegexReadable(k) && '.' !in k && '(' !in k && ')' !in k && '\\' !in v
    ensures LinkSubAsWritten(s, k, v) == LinkSub(s, k, v)
    decreases |s|
  {
    if |s| > 0 {
      RegexMatchIsLiteralMatch(s, k);
      UngroupedPlain(k);
      match LinkMatch(s, k)
      case Some(j) =>
        var r := s[j + |Tail(k)|..];
        SubAgreesWithoutSpecials(r, k, v);
        AsWrittenMatched(s, k, v, j);
        LinkSubMatched(s, k, v);
      case None =>
        SubAgreesWithoutSpecials(s[1..], k, v);
        AsWrittenUnmatched(s, k, v);
        LinkSubUnmatched(s, k, v);
    }
  }

  lemma AsWrittenMatched(s: string, k: Name, v: Name, j: nat)
    requires RegexReadable(k) && '\\' !in v && Ungrouped(k) == k
    requires LinkMatchAsWritten(s, k) == Some(j)
    ensures LinkSubAsWritten(s, k, v) == s[..j] + Tail(v) + LinkSubAsWritten(s[j + |Tail(k)|..], k, v)
  {
  }

  lemma AsWrittenUnmatched(s: string, k: Name, v: Name)
    requires RegexReadable(k) && '\\' !in v
    requires |s| > 0 && LinkMatchAsWritten(s, k).None?
    ensures LinkSubAsWritten(s, k, v) == [s[0]] + LinkSubAsWritten(s[1..], k, v)
  {
  }

  /** The pattern as written also retargets a link to a different file
      whose name differs from the key only where the key has a dot. */
  lemma DotRetargetsOtherFile(s: string, k: Name, v: Name)
    requires s == "![x](aXpng)" && k == "a.png" && v == "b.png"
    ensures RegexReadable(k)
    ensures LinkSubAsWritten(s, k, v) == "![x](b.png)"
  {
    DotKeyMatches(s, k);
    assert s[..3] == "![x" && s[11..] == [];
  }

  lemma DotKeyMatches(s: string, k: Name)
    requires s == "![x](aXpng)" && k == "a.png"
    ensures RegexReadable(k) && LinkMatchAsWritten(s, k) == Some(3)
  {
    DotKeyReadable(k);
    FirstCloseAt(s, 2, 3);
    assert DotMatch(k, s[5..10]);
  }

  lemma DotKeyReadable(k: Name)
    requires k == "a.png"
    ensures RegexReadable(k) && Ungrouped(k) == k
  {
    PlainKeyReadable(k);
    UngroupedPlain(k);
  }

  /** The literal reading leaves that link alone. */
  lemma LiteralKeepsOtherFile()
    ensures LinkSub("![x](aXpng)", "a.png", "b.png") == "![x](aXpng)"
  {
    var s := "![x](aXpng)";
    var T := Tail("a.png");
    assert forall y :: 0 <= y < |s| ==> s[y] != '.';
    forall x, e | 0 <= x <= e <= |s| ensures !Shaped(s[x..e], LinkOf("a.png")) {
      var w := s[x..e];
      if |w| >= |T| {
        var j := |w| - |T|;
        assert T[3] == '.';
        assert w[j..][3] == w[j + 3] == s[x + j + 3];
      }
    }
    LinkIdentity(s, "a.png", "b.png");
  }

  /** A note with no `!` is left alone by the pattern as written. */
  lemma {:induction false} NoBangUnchangedAsWritten(s: string, k: Name, v: Name)
    requires RegexReadable(k) && '\\' !in v && '!' !in s
    ensures LinkSubAsWritten(s, k, v) == s
    decreases |s|
  {
    if |s| > 0 {
      assert s[0] != '!';
      NoBangUnchangedAsWritten(s[1..], k, v);
      assert s == [s[0]] + s[1..];
    }
  }

  /** The pattern as written does not retarget a link to a key whose
      parentheses it reads as a group, such as a copy named `a (1).png`. */
  lemma GroupedNameKeepsLink(s: string, k: Name, v: Name)
    requires s == "![x](a (1).png)" && k == "a (1).png" && v == "a.png"
    ensures RegexReadable(k)
    ensures LinkSubAsWritten(s, k, v) == s
  {
    GroupedKeyMisses(s, k);
    NoBangUnchangedAsWritten(s[1..], k, v);
    assert s == [s[0]] + s[1..];
  }

  lemma GroupedKeyMisses(s: string, k: Name)
    requires s == "![x](a (1).png)" && k == "a (1).png"
    ensures RegexReadable(k) && LinkMatchAsWritten(s, k) == None
  {
    GroupedKey(k);
    FirstCloseAt(s, 2, 3);
    var u := Ungrouped(k);
    assert s[5..5 + |u|][2] == '(';
  }

  /** `a (1).png` is readable, and with its group opened it reads `a 1.png`. */
  lemma GroupedKey(k: Name)
    requires k == "a (1).png"
    ensures RegexReadable(k)
    ensures |Ungrouped(k)| == 7 && Ungrouped(k)[2] == '1'
  {
    GroupedKeyReadable(k);
    GroupedKeyUngrouped(k);
  }

  lemma GroupedKeyReadable(k: Name)
    requires k == "a (1).png"
    ensures RegexReadable(k)
  {
    PlainKeyReadable(k[5..]);
    assert k[5..] == k[4..][1..] && k[4] == ')';
    assert k[4..] == k[3..][1..] && k[3] == '1';
    assert k[3..] == k[2..][1..] && k[2] == '(';
    assert k[2..] == k[1..][1..] && k[1] == ' ';
    assert k[0] == 'a';
    assert ReadableFrom(k[4..], 1);
    assert ReadableFrom(k[3..], 1);
    assert ReadableFrom(k[2..], 0);
    assert ReadableFrom(k[1..], 0);
  }

  lemma GroupedKeyUngrouped(k: Name)
    requires k == "a (1).png"
    ensures |Ungrouped(k)| == 7 && Ungrouped(k)[2] == '1'
  {
    assert k == "a " + "(" + "1" + ")" + ".png";
    UngroupedGroup("a ", "1", ".png");
  }

  /** A group in a key matches what its contents match. */
  lemma UngroupedGroup(a: Name, b: Name, c: Name)
    requires '(' !in a && ')' !in a && '(' !in b && ')' !in b && '(' !in c && ')' !in c
    ensures Ungrouped(a + "(" + b + ")" + c) == a + b + c
  {
    assert "("[1..] == [] && ")"[1..] == [];
    assert Ungrouped("(") == [] && Ungrouped(")") == [];
    calc {
      Ungrouped(a + "(" + b + ")" + c);
      { UngroupedAppend(a + "(" + b + ")", c); }
      Ungrouped(a + "(" + b + ")") + Ungrouped(c);
      { UngroupedAppend(a + "(" + b, ")"); }
      Ungrouped(a + "(" + b) + Ungrouped(c);
      { UngroupedAppend(a + "(", b); }
      Ungrouped(a + "(") + Ungrouped(b) + Ungrouped(c);
      { UngroupedAppend(a, "("); }
      Ungrouped(a) + Ungrouped(b) + Ungrouped(c);
      { UngroupedPlain(a); UngroupedPlain(b); UngroupedPlain(c); }
      a + b + c;
    }
  }

  lemma {:induction false} UngroupedAppend(a: Name, b: Name)
    ensures Ungrouped(a + b) == Ungrouped(a) + Ungrouped(b)
    decreases |a|
  {
    if |a| > 0 {
      assert (a + b)[1..] == a[1..] + b;
      assert (a + b)[0] == a[0];
      UngroupedAppend(a[1..], b);
    } else {
      assert a + b == b;
    }
  }

  /** The literal reading retargets that link. */
  lemma LiteralRetargetsGroupedName()
    ensures LinkSub("![x](a (1).png)", "a (1).png", "a.png") == "![x](a.png)"
  {
    var s := "![x](a (1).png)";
    var k := "a (1).png";
    FirstCloseAt(s, 2, 3);
    assert s[3..] == Tail(k);
    assert LinkMatch(s, k) == Some(3);
    assert s[3 + |Tail(k)|..] == [];
    assert s[..3] == "![x";
  }
}
