/** The image loop of the transformer (scripts/transformer.py,
    `_process_images`): every `<img>` source in document order is either
    left alone, saved as an attachment and replaced by its embed token, or
    answered with a warning; two counters keep the score.

    The parsed HTML is the sequence of the `src` attributes of its `<img>`
    tags (`""` where the attribute is missing); the network answer to the
    request made for each tag, the MD5 hex digest and the attachment writes
    that raise are parameters. Both the answers and the writes are indexed
    by the tag's position, since the loop downloads and writes anew for
    every tag, and two tags with the same URL may be answered differently. */
module TransformerImages {

  import opened Wrappers
  import opened Bytes
  import opened Strings
  import opened Assoc
  import opened Transformer

  /** `requests.get(src, timeout=10)` with `raise_for_status()`: the
      `Content-Type` header and the body, or an exception. */
  datatype Fetch = Fetched(contentType: Option<string>, content: seq<byte>) | FetchFailed

  /** `fetch(i, src)` is the answer to the request for the `i`-th tag, and
      `(i, name)` is in `unwritable` when writing `name` for the `i`-th tag
      raises. */
  datatype Env = Env(baseName: string, download: bool, hexdigest: seq<byte> -> string,
                     fetch: (nat, string) -> Fetch, unwritable: set<(nat, string)>)

  /** An `<img>` tag after the loop: left as it was, or replaced by a token. */
  datatype ImageTag = Kept(src: string) | Replaced(token: string)

  /** What the loop does with one stripped source. */
  datatype Step = Skip | DecodeFailed | Saved(name: string, local: bool) | DownloadFailed | WriteRaised

  const DecodeWarning := "Failed to decode base64 image"

  function DownloadWarning(src: string): string { "Failed to download image: " + src }

  /** The branches of lines 139-172 for the stripped source `src` of the
      `i`-th tag. The write
      of a decoded image is outside any `try`, so its failure raises; the
      write of a downloaded one is inside, so it only warns. */
  function StepOf(i: nat, src: string, env: Env): Step {
    if src == "" then Skip
    else if IsPrefix("data:image", src) then DataStep(i, src, env)
    else if IsPrefix("http", src) && env.download then RemoteStep(i, src, env)
    else Skip
  }

  /** Lines 145-156: a data URI. */
  function DataStep(i: nat, src: string, env: Env): Step {
    match DecodeBase64(src)
    case None => DecodeFailed
    case Some(data) =>
      if |data| == 0 then DecodeFailed
      else
        var name := HashedFilename(env.baseName, data, ImageExtension(src), env.hexdigest);
        if (i, name) in env.unwritable then WriteRaised else Saved(name, true)
  }

  /** Lines 160-172: a download. */
  function RemoteStep(i: nat, src: string, env: Env): Step {
    match env.fetch(i, src)
    case FetchFailed => DownloadFailed
    case Fetched(contentType, content) =>
      var name := HashedFilename(env.baseName, content, GuessExtension(contentType), env.hexdigest);
      if (i, name) in env.unwritable then DownloadFailed else Saved(name, false)
  }

  /** The state of the loop: the tags so far, `image_map`, the two counters
      and the warnings. */
  datatype Images = Images(tags: seq<ImageTag>, imageMap: seq<(string, string)>,
                           extracted: nat, external: nat, warnings: seq<string>)

  const NoImages := Images([], [], 0, 0, [])

  /** One pass of the loop that does not raise, for the source `raw`
      whose step is `step`. */
  function Apply(acc: Images, raw: string, step: Step): Images {
    match step
    case Skip => acc.(tags := acc.tags + [Kept(raw)])
    case DecodeFailed => acc.(tags := acc.tags + [Kept(raw)], warnings := acc.warnings + [DecodeWarning])
    case DownloadFailed =>
      acc.(tags := acc.tags + [Kept(raw)], external := acc.external + 1,
           warnings := acc.warnings + [DownloadWarning(Strip(raw))])
    case Saved(name, local) =>
      acc.(tags := acc.tags + [Replaced(ObsidianImg(name))], imageMap := Put(acc.imageMap, Strip(raw), name),
           extracted := if local then acc.extracted + 1 else acc.extracted,
           external := if local then acc.external else acc.external + 1)
    case WriteRaised => acc
  }

  /** The loop over sources whose steps are given, and whether it raised;
      the state is the one at the raise. */
  function Fold(raws: seq<string>, steps: seq<Step>): (Images, bool)
    requires |raws| == |steps|
    decreases |raws|
  {
    if |raws| == 0 then (NoImages, false)
    else
      var (acc, raised) := Fold(raws[..|raws| - 1], steps[..|steps| - 1]);
      var step := steps[|steps| - 1];
      if raised || step.WriteRaised? then (acc, true)
      else (Apply(acc, raws[|raws| - 1], step), false)
  }

  /** The step of every source. */
  function Steps(srcs: seq<string>, env: Env): (r: seq<Step>)
    ensures |r| == |srcs|
    ensures forall i :: 0 <= i < |srcs| ==> r[i] == StepOf(i, Strip(srcs[i]), env)
  {
    seq(|srcs|, i requires 0 <= i < |srcs| => StepOf(i, Strip(srcs[i]), env))
  }

  /** The loop of `_process_images` over the sources `srcs`. */
  function Process(srcs: seq<string>, env: Env): (Images, bool) {
    Fold(srcs, Steps(srcs, env))
  }

  lemma FoldStep(raws: seq<string>, steps: seq<Step>, i: nat)
    requires |raws| == |steps| && i < |raws|
    ensures var (acc, raised) := Fold(raws[..i], steps[..i]);
      Fold(raws[..i + 1], steps[..i + 1])
      == if raised || steps[i].WriteRaised? then (acc, true) else (Apply(acc, raws[i], steps[i]), false)
  {
    assert raws[..i + 1][..i] == raws[..i];
    assert steps[..i + 1][..i] == steps[..i];
  }

  /** Once the loop has raised, it has raised for the whole document. */
  lemma {:induction false} RaiseStays(raws: seq<string>, steps: seq<Step>, n: nat)
    requires |raws| == |steps| && n <= |raws| && Fold(raws[..n], steps[..n]).1
    ensures Fold(raws, steps).1
    decreases |raws| - n
  {
    if n < |raws| {
      FoldStep(raws, steps, n);
      RaiseStays(raws, steps, n + 1);
    } else {
      assert raws[..n] == raws && steps[..n] == steps;
    }
  }

  // The branches of the loop body, each fixing the step of its source.

  lemma StepEmpty(i: nat, env: Env)
    ensures StepOf(i, "", env) == Skip
  {
  }

  lemma StepDecodeFailed(i: nat, src: string, env: Env)
    requires DecodeBase64(src).None? || |DecodeBase64(src).value| == 0
    ensures DataStep(i, src, env) == DecodeFailed
  {
  }

  lemma StepDecoded(i: nat, src: string, env: Env, name: string)
    requires DecodeBase64(src).Some? && |DecodeBase64(src).value| > 0
    requires name == HashedFilename(env.baseName, DecodeBase64(src).value, ImageExtension(src), env.hexdigest)
    ensures DataStep(i, src, env) == if (i, name) in env.unwritable then WriteRaised else Saved(name, true)
  {
  }

  lemma StepFetchFailed(i: nat, src: string, env: Env)
    requires env.fetch(i, src).FetchFailed?
    ensures RemoteStep(i, src, env) == DownloadFailed
  {
  }

  lemma StepFetched(i: nat, src: string, env: Env, name: string)
    requires env.fetch(i, src).Fetched?
    requires name == HashedFilename(env.baseName, env.fetch(i, src).content,
                                    GuessExtension(env.fetch(i, src).contentType), env.hexdigest)
    ensures RemoteStep(i, src, env) == if (i, name) in env.unwritable then DownloadFailed else Saved(name, false)
  {
  }

  lemma StepData(i: nat, src: string, env: Env)
    requires src != "" && IsPrefix("data:image", src)
    ensures StepOf(i, src, env) == DataStep(i, src, env)
  {
  }

  lemma StepRemote(i: nat, src: string, env: Env)
    requires src != "" && !IsPrefix("data:image", src) && IsPrefix("http", src) && env.download
    ensures StepOf(i, src, env) == RemoteStep(i, src, env)
  {
  }

  lemma StepOther(i: nat, src: string, env: Env)
    requires src != "" && !IsPrefix("data:image", src) && !(IsPrefix("http", src) && env.download)
    ensures StepOf(i, src, env) == Skip
  {
  }

  /** The loop does not raise at `i`: the next state applies its step. */
  lemma FoldNext(raws: seq<string>, steps: seq<Step>, i: nat, acc: Images)
    requires |raws| == |steps| && i < |raws| && Fold(raws[..i], steps[..i]) == (acc, false)
    requires !steps[i].WriteRaised?
    ensures Fold(raws[..i + 1], steps[..i + 1]) == (Apply(acc, raws[i], steps[i]), false)
  {
    FoldStep(raws, steps, i);
  }

  /** The loop raises at `i`. */
  lemma FoldRaises(raws: seq<string>, steps: seq<Step>, i: nat, acc: Images)
    requires |raws| == |steps| && i < |raws| && Fold(raws[..i], steps[..i]) == (acc, false)
    requires steps[i].WriteRaised?
    ensures Fold(raws, steps) == (acc, true)
  {
    FoldStep(raws, steps, i);
    RaiseStays(raws, steps, i + 1);
    RaiseKeeps(raws, steps, i + 1, acc);
  }

  /** After a raise the state stays the one at the raise. */
  lemma {:induction false} RaiseKeeps(raws: seq<string>, steps: seq<Step>, n: nat, acc: Images)
    requires |raws| == |steps| && n <= |raws| && Fold(raws[..n], steps[..n]) == (acc, true)
    ensures Fold(raws, steps) == (acc, true)
    decreases |raws| - n
  {
    if n < |raws| {
      FoldStep(raws, steps, n);
      RaiseKeeps(raws, steps, n + 1, acc);
    } else {
      assert raws[..n] == raws && steps[..n] == steps;
    }
  }

  /** The body of the loop at line 138 for the `i`-th `<img>` tag: `false`
      when the write of a decoded image raises, and otherwise the next state. */
  method ProcessImage(acc: Images, i: nat, raw: string, env: Env) returns (next: Images, ok: bool)
    ensures ok <==> !StepOf(i, Strip(raw), env).WriteRaised?
    ensures ok ==> next == Apply(acc, raw, StepOf(i, Strip(raw), env))
  {
    var src := Strip(raw);
    if src == "" {
      StepEmpty(i, env);
      next, ok := acc.(tags := acc.tags + [Kept(raw)]), true;
    } else if IsPrefix("data:image", src) {
      StepData(i, src, env);
      next, ok := SaveDataImage(acc, i, raw, env);
    } else if IsPrefix("http", src) && env.download {
      StepRemote(i, src, env);
      next := FetchImage(acc, i, raw, env);
      ok := true;
    } else {
      StepOther(i, src, env);
      next, ok := acc.(tags := acc.tags + [Kept(raw)]), true;
    }
  }

  /** Lines 144-156: a `data:image` source. */
  method SaveDataImage(acc: Images, i: nat, raw: string, env: Env) returns (next: Images, ok: bool)
    ensures ok <==> !DataStep(i, Strip(raw), env).WriteRaised?
    ensures ok ==> next == Apply(acc, raw, DataStep(i, Strip(raw), env))
  {
    var src := Strip(raw);
    var data := DecodeBase64(src);
    if data.None? || |data.value| == 0 {
      StepDecodeFailed(i, src, env);
      next, ok := acc.(tags := acc.tags + [Kept(raw)], warnings := acc.warnings + [DecodeWarning]), true;
      return;
    }
    var name := HashedFilename(env.baseName, data.value, ImageExtension(src), env.hexdigest);
    StepDecoded(i, src, env, name);
    next, ok := SaveAttachment(acc, i, raw, name, true, env.unwritable);
  }

  /** Lines 152-156 and 165-170: write the attachment `name` for the `i`-th
      tag and record it; `false` when the write raises. */
  method SaveAttachment(acc: Images, i: nat, raw: string, name: string, local: bool,
                        unwritable: set<(nat, string)>)
    returns (next: Images, ok: bool)
    ensures ok <==> (i, name) !in unwritable
    ensures ok ==> next == Apply(acc, raw, Saved(name, local))
  {
    if (i, name) in unwritable {
      next, ok := acc, false;
      return;
    }
    var imageMap := Put(acc.imageMap, Strip(raw), name);
    var tags := acc.tags + [Replaced(ObsidianImg(name))];
    next := acc.(tags := tags, imageMap := imageMap);
    if local {
      next := next.(extracted := acc.extracted + 1);
    } else {
      next := next.(external := acc.external + 1);
    }
    ok := true;
  }

  /** Lines 159-172: an `http` source with downloading on. */
  method FetchImage(acc: Images, i: nat, raw: string, env: Env) returns (next: Images)
    ensures !RemoteStep(i, Strip(raw), env).WriteRaised?
    ensures next == Apply(acc, raw, RemoteStep(i, Strip(raw), env))
  {
    var src := Strip(raw);
    var resp := env.fetch(i, src);
    if resp.FetchFailed? {
      StepFetchFailed(i, src, env);
      next := acc.(tags := acc.tags + [Kept(raw)], external := acc.external + 1,
                   warnings := acc.warnings + [DownloadWarning(src)]);
      return;
    }
    var name := HashedFilename(env.baseName, resp.content, GuessExtension(resp.contentType), env.hexdigest);
    StepFetched(i, src, env, name);
    var ok;
    next, ok := SaveAttachment(acc, i, raw, name, false, env.unwritable);
    if !ok {
      next := acc.(tags := acc.tags + [Kept(raw)], external := acc.external + 1,
                   warnings := acc.warnings + [DownloadWarning(src)]);
    }
  }

  /** `_process_images`: the loop's final state, or the state at the write
      that raised. */
  method ProcessImages(srcs: seq<string>, env: Env) returns (r: Images, raised: bool)
    ensures (r, raised) == Process(srcs, env)
  {
    ghost var steps := Steps(srcs, env);
    r := NoImages;
    for i := 0 to |srcs|
      invariant Fold(srcs[..i], steps[..i]) == (r, false)
    {
      var next, ok := ProcessImage(r, i, srcs[i], env);
      if !ok {
        FoldRaises(srcs, steps, i, r);
        raised := true;
        return;
      }
      FoldNext(srcs, steps, i, r);
      r := next;
    }
    assert srcs[..|srcs|] == srcs && steps[..|steps|] == steps;
    raised := false;
  }

  // ---------------------------------------------------------------------
  // Properties of the loop over given steps
  // ---------------------------------------------------------------------

  /** The number of elements of `xs` where `p` holds. */
  function CountWhere<T>(xs: seq<T>, p: T -> bool): (n: nat)
    ensures n <= |xs|
    decreases |xs|
  {
    if |xs| == 0 then 0
    else CountWhere(xs[..|xs| - 1], p) + (if p(xs[|xs| - 1]) then 1 else 0)
  }

  /** The loop raises exactly when some step raises. */
  lemma {:induction false} FoldRaisesIff(raws: seq<string>, steps: seq<Step>)
    requires |raws| == |steps|
    ensures Fold(raws, steps).1 <==> exists i :: 0 <= i < |steps| && steps[i].WriteRaised?
    decreases |raws|
  {
    if |raws| > 0 {
      var init := steps[..|steps| - 1];
      FoldRaisesIff(raws[..|raws| - 1], init);
      assert forall i :: 0 <= i < |init| ==> init[i] == steps[i];
    }
  }

  /** `extracted` counts the images saved from data URIs, `external` the
      downloads tried, and there is one tag per source. */
  lemma {:induction false} FoldCounters(raws: seq<string>, steps: seq<Step>)
    requires |raws| == |steps| && !Fold(raws, steps).1
    ensures Fold(raws, steps).0.extracted == CountWhere(steps, (s: Step) => s.Saved? && s.local)
    ensures Fold(raws, steps).0.external == CountWhere(steps, (s: Step) => (s.Saved? && !s.local) || s.DownloadFailed?)
    ensures |Fold(raws, steps).0.tags| == |raws|
    decreases |raws|
  {
    if |raws| > 0 {
      FoldCounters(raws[..|raws| - 1], steps[..|steps| - 1]);
    }
  }

  /** The tag a source ends up as. */
  function TagFor(raw: string, step: Step): ImageTag {
    if step.Saved? then Replaced(ObsidianImg(step.name)) else Kept(raw)
  }

  /** Each tag is replaced by the embed token of the attachment saved for
      it, and left as it was otherwise. */
  lemma {:induction false} FoldTags(raws: seq<string>, steps: seq<Step>, i: nat)
    requires |raws| == |steps| && !Fold(raws, steps).1 && i < |raws|
    ensures |Fold(raws, steps).0.tags| == |raws|
    ensures Fold(raws, steps).0.tags[i] == TagFor(raws[i], steps[i])
    decreases |raws|
  {
    FoldCounters(raws, steps);
    var n := |raws| - 1;
    FoldCounters(raws[..n], steps[..n]);
    if i < n {
      FoldTags(raws[..n], steps[..n], i);
    }
  }

  /** The last pass of a loop that did not raise. */
  lemma FoldLast(raws: seq<string>, steps: seq<Step>)
    requires |raws| == |steps| && |raws| > 0 && !Fold(raws, steps).1
    ensures var n := |raws| - 1;
      && !Fold(raws[..n], steps[..n]).1 && !steps[n].WriteRaised?
      && Fold(raws, steps).0 == Apply(Fold(raws[..n], steps[..n]).0, raws[n], steps[n])
  {
  }

  /** The position of the last source that strips to `k` and was saved. */
  function LastSaved(raws: seq<string>, steps: seq<Step>, k: string): (r: Option<nat>)
    requires |raws| == |steps|
    ensures r.Some? ==> r.value < |raws| && Strip(raws[r.value]) == k && steps[r.value].Saved?
    ensures r.Some? ==> forall j :: r.value < j < |raws| && Strip(raws[j]) == k ==> !steps[j].Saved?
    ensures r.None? ==> forall j :: 0 <= j < |raws| && Strip(raws[j]) == k ==> !steps[j].Saved?
    decreases |raws|
  {
    if |raws| == 0 then None
    else
      var n := |raws| - 1;
      if Strip(raws[n]) == k && steps[n].Saved? then Some(n)
      else
        assert forall j :: 0 <= j < n ==> raws[..n][j] == raws[j] && steps[..n][j] == steps[j];
        LastSaved(raws[..n], steps[..n], k)
  }

  /** What one pass does to `image_map`. */
  lemma ApplyMap(acc: Images, raw: string, step: Step)
    ensures Apply(acc, raw, step).imageMap
         == if step.Saved? then Put(acc.imageMap, Strip(raw), step.name) else acc.imageMap
  {
  }

  /** `image_map` holds, under each key, the name of the last source saved
      with that stripped form, and nothing for a key no saved source has:
      a later assignment to the key overwrites an earlier one. */
  lemma {:induction false} FoldMap(raws: seq<string>, steps: seq<Step>, k: string)
    requires |raws| == |steps| && !Fold(raws, steps).1
    ensures var j := LastSaved(raws, steps, k);
      Get(Fold(raws, steps).0.imageMap, k) == if j.Some? then Some(steps[j.value].name) else None
    decreases |raws|
  {
    if |raws| > 0 {
      var n := |raws| - 1;
      FoldLast(raws, steps);
      var acc := Fold(raws[..n], steps[..n]).0;
      ApplyMap(acc, raws[n], steps[n]);
      if !(Strip(raws[n]) == k && steps[n].Saved?) {
        if steps[n].Saved? {
          PutFrame(acc.imageMap, Strip(raws[n]), steps[n].name);
        }
        FoldMap(raws[..n], steps[..n], k);
        var j := LastSaved(raws[..n], steps[..n], k);
        assert LastSaved(raws, steps, k) == j;
        if j.Some? {
          assert steps[..n][j.value] == steps[j.value];
        }
      }
    }
  }

  // ---------------------------------------------------------------------
  // The same properties of `_process_images`
  // ---------------------------------------------------------------------

  /** A source that decodes to a non-empty image. */
  predicate DecodesImage(raw: string) {
    var src := Strip(raw);
    IsPrefix("data:image", src) && DecodeBase64(src).Some? && |DecodeBase64(src).value| > 0
  }

  /** A source the loop tries to download. */
  predicate Remote(raw: string, env: Env) {
    var src := Strip(raw);
    src != "" && !IsPrefix("data:image", src) && IsPrefix("http", src) && env.download
  }

  /** The step saves from a data URI exactly for a decoded image whose
      write does not raise, and counts a download exactly for a remote
      source. */
  lemma StepClasses(i: nat, raw: string, env: Env)
    ensures var s := StepOf(i, Strip(raw), env);
      && (s.WriteRaised? ==> DecodesImage(raw))
      && (!s.WriteRaised? ==> (s.Saved? && s.local <==> DecodesImage(raw)))
      && ((s.Saved? && !s.local) || s.DownloadFailed? <==> Remote(raw, env))
  {
  }

  /** The loop raises exactly when the write of a decoded image does. */
  lemma RaisesIff(srcs: seq<string>, env: Env)
    ensures Process(srcs, env).1 <==> exists i :: 0 <= i < |srcs| && StepOf(i, Strip(srcs[i]), env).WriteRaised?
  {
    FoldRaisesIff(srcs, Steps(srcs, env));
  }

  lemma {:induction false} CountsAgree(srcs: seq<string>, steps: seq<Step>, p: Step -> bool, q: string -> bool)
    requires |srcs| == |steps| && forall i :: 0 <= i < |srcs| ==> (p(steps[i]) <==> q(srcs[i]))
    ensures CountWhere(steps, p) == CountWhere(srcs, q)
    decreases |srcs|
  {
    if |srcs| > 0 {
      var n := |srcs| - 1;
      assert forall i :: 0 <= i < n ==> srcs[..n][i] == srcs[i] && steps[..n][i] == steps[i];
      CountsAgree(srcs[..n], steps[..n], p, q);
    }
  }

  /** `extracted` counts the sources that decode to a non-empty image;
      `external` counts the sources the loop tries to download, whether the
      download succeeds or not; every source keeps its tag or gets a token. */
  lemma Counters(srcs: seq<string>, env: Env)
    requires !Process(srcs, env).1
    ensures Process(srcs, env).0.extracted == CountWhere(srcs, raw => DecodesImage(raw))
    ensures Process(srcs, env).0.external == CountWhere(srcs, raw => Remote(raw, env))
    ensures |Process(srcs, env).0.tags| == |srcs|
  {
    var steps := Steps(srcs, env);
    FoldCounters(srcs, steps);
    FoldRaisesIff(srcs, steps);
    forall i | 0 <= i < |srcs| ensures
      && ((steps[i].Saved? && steps[i].local) <==> DecodesImage(srcs[i]))
      && (((steps[i].Saved? && !steps[i].local) || steps[i].DownloadFailed?) <==> Remote(srcs[i], env))
    {
      StepClasses(i, srcs[i], env);
    }
    CountsAgree(srcs, steps, (s: Step) => s.Saved? && s.local, raw => DecodesImage(raw));
    CountsAgree(srcs, steps, (s: Step) => (s.Saved? && !s.local) || s.DownloadFailed?, raw => Remote(raw, env));
  }

  /** Each `<img>` whose image was saved is replaced by the embed token of
      its name, and every other tag is left as it was. `image_map` records
      under the stripped source the name saved for the last tag with that
      source, which is this tag's own name only when no later tag with the
      same source was saved under another name. */
  lemma TagsAndMap(srcs: seq<string>, env: Env, i: nat)
    requires !Process(srcs, env).1 && i < |srcs|
    ensures var (r, _) := Process(srcs, env);
      var s := StepOf(i, Strip(srcs[i]), env);
      && |r.tags| == |srcs|
      && (s.Saved? ==> r.tags[i] == Replaced(ObsidianImg(s.name)))
      && (!s.Saved? ==> r.tags[i] == Kept(srcs[i]))
      && (s.Saved? ==>
            exists j :: i <= j < |srcs| && Strip(srcs[j]) == Strip(srcs[i])
              && StepOf(j, Strip(srcs[j]), env).Saved?
              && Get(r.imageMap, Strip(srcs[i])) == Some(StepOf(j, Strip(srcs[j]), env).name)
              && forall l :: j < l < |srcs| && Strip(srcs[l]) == Strip(srcs[i]) ==> !StepOf(l, Strip(srcs[l]), env).Saved?)
  {
    var steps := Steps(srcs, env);
    FoldTags(srcs, steps, i);
    if steps[i].Saved? {
      var k := Strip(srcs[i]);
      FoldMap(srcs, steps, k);
      var j := LastSaved(srcs, steps, k).value;
      assert i <= j;
    }
  }

  /** When every tag with the same source takes the same step (the answers
      to its downloads and writes agree), `image_map` records a saved tag's
      own name under its source. */
  lemma MapRecordsOwnName(srcs: seq<string>, env: Env, i: nat)
    requires !Process(srcs, env).1 && i < |srcs| && StepOf(i, Strip(srcs[i]), env).Saved?
    requires forall j :: 0 <= j < |srcs| && Strip(srcs[j]) == Strip(srcs[i])
               ==> StepOf(j, Strip(srcs[j]), env) == StepOf(i, Strip(srcs[i]), env)
    ensures Get(Process(srcs, env).0.imageMap, Strip(srcs[i])) == Some(StepOf(i, Strip(srcs[i]), env).name)
  {
    FoldMap(srcs, Steps(srcs, env), Strip(srcs[i]));
  }

  /** The keys of `image_map` are exactly the stripped forms of the saved
      sources. */
  lemma MapKeys(srcs: seq<string>, env: Env, k: string)
    requires !Process(srcs, env).1
    ensures HasKey(Process(srcs, env).0.imageMap, k)
        <==> exists i :: 0 <= i < |srcs| && Strip(srcs[i]) == k && StepOf(i, k, env).Saved?
  {
    FoldMap(srcs, Steps(srcs, env), k);
  }

  /** With downloading off, nothing counts as external. */
  lemma NoDownloadNoExternal(srcs: seq<string>, env: Env)
    requires !env.download && !Process(srcs, env).1
    ensures Process(srcs, env).0.external == 0
  {
    Counters(srcs, env);
    NoneCounted(srcs, raw => Remote(raw, env));
  }

  lemma {:induction false} NoneCounted(srcs: seq<string>, p: string -> bool)
    requires forall i :: 0 <= i < |srcs| ==> !p(srcs[i])
    ensures CountWhere(srcs, p) == 0
    decreases |srcs|
  {
    if |srcs| > 0 {
      var n := |srcs| - 1;
      assert forall i :: 0 <= i < n ==> srcs[..n][i] == srcs[i];
      NoneCounted(srcs[..n], p);
    }
  }
}
