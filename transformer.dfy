/** The string helpers of the HTML-to-Markdown transformer
    (scripts/transformer.py): attachment names, extensions, data URIs, the
    embed token and the final clean-up of Pandoc's output. */
module Transformer {

  import opened Wrappers
  import opened Bytes
  import opened Strings
  import Base64
  import LinkRewrite
  import opened Markup

  // ---------------------------------------------------------------------
  // Attachment names (lines 198-200)
  // ---------------------------------------------------------------------

  /** `_hashed_filename`: the base name, an underscore, the first twelve
      characters of the hex digest and the extension. `hexdigest` is the
      MD5 hex digest, a parameter of the model. */
  function HashedFilename(base: string, data: seq<byte>, ext: string, hexdigest: seq<byte> -> string): string {
    base + "_" + Take(hexdigest(data), 12) + ext
  }

  /** The name reads back as its three parts. */
  lemma HashedFilenameShape(base: string, data: seq<byte>, ext: string, hexdigest: seq<byte> -> string)
    ensures var r := HashedFilename(base, data, ext, hexdigest);
      && IsPrefix(base + "_", r) && IsSuffix(ext, r)
      && |r| == |base| + 1 + Min(12, |hexdigest(data)|) + |ext|
      && r[|base| + 1..|r| - |ext|] == Take(hexdigest(data), 12)
  {
    var h := Take(hexdigest(data), 12);
    var r := base + "_" + h + ext;
    assert r[..|base| + 1] == base + "_";
    assert r[|r| - |ext|..] == ext;
    assert r[|base| + 1..|r| - |ext|] == h;
  }

  /** With a digest of the full 32 hex characters, the name determines its
      base name and the digest's first twelve characters. */
  lemma HashedFilenameParts(base: string, data: seq<byte>, ext: string, hexdigest: seq<byte> -> string,
                            base': string, data': seq<byte>)
    requires |hexdigest(data)| == 32 && |hexdigest(data')| == 32 && |base| == |base'|
    requires HashedFilename(base, data, ext, hexdigest) == HashedFilename(base', data', ext, hexdigest)
    ensures base == base' && hexdigest(data)[..12] == hexdigest(data')[..12]
  {
    HashedFilenameShape(base, data, ext, hexdigest);
    HashedFilenameShape(base', data', ext, hexdigest);
    var r := HashedFilename(base, data, ext, hexdigest);
    assert base == (base + "_")[..|base|] == r[..|base|];
    assert base' == (base' + "_")[..|base|] == r[..|base|];
  }

  // ---------------------------------------------------------------------
  // Extensions (lines 183-196)
  // ---------------------------------------------------------------------

  /** `_guess_extension` of the `Content-Type` header, `None` when absent. */
  function GuessExtension(contentType: Option<string>): string {
    if contentType.None? || contentType.value == "" then ".png"
    else if Contains(contentType.value, "jpeg") then ".jpg"
    else if Contains(contentType.value, "png") then ".png"
    else if Contains(contentType.value, "gif") then ".gif"
    else ".img"
  }

  /** The rules of `_guess_extension` in priority order, each in both directions. */
  lemma GuessExtensionRules(contentType: Option<string>)
    ensures var t := if contentType.None? then "" else contentType.value;
      && (GuessExtension(contentType) == ".jpg" <==> Contains(t, "jpeg"))
      && (GuessExtension(contentType) == ".png" <==> t == "" || (!Contains(t, "jpeg") && Contains(t, "png")))
      && (GuessExtension(contentType) == ".gif" <==> !Contains(t, "jpeg") && !Contains(t, "png") && Contains(t, "gif"))
      && (GuessExtension(contentType) == ".img"
          <==> t != "" && !Contains(t, "jpeg") && !Contains(t, "png") && !Contains(t, "gif"))
  {
    var t := if contentType.None? then "" else contentType.value;
    if t == "" {
      assert !Contains(t, "jpeg") && !Contains(t, "png") && !Contains(t, "gif");
    }
  }

  /** The characters of the class `[\w+]`. */
  predicate IsSubtypeChar(c: char) { IsWordChar(c) || c == '+' }

  /** The length of the run of subtype characters at `s[j..]`. */
  function SubtypeRun(s: string, j: nat): (n: nat)
    requires j <= |s|
    ensures j + n <= |s|
    ensures forall k :: j <= k < j + n ==> IsSubtypeChar(s[k])
    ensures j + n < |s| ==> !IsSubtypeChar(s[j + n])
    decreases |s| - j
  {
    if j < |s| && IsSubtypeChar(s[j]) then 1 + SubtypeRun(s, j + 1) else 0
  }

  /** `image/` followed by at least one subtype character at `i`. */
  predicate ImageAt(s: string, i: nat) {
    OccursAt(s, "image/", i) && i + 6 < |s| && IsSubtypeChar(s[i + 6])
  }

  /** The leftmost position from `i` on where the pattern matches. */
  function FirstImageAt(s: string, i: nat): (r: Option<nat>)
    ensures r.Some? ==> i <= r.value && ImageAt(s, r.value)
    ensures forall k :: i <= k && (r.None? || k < r.value) ==> !ImageAt(s, k)
    decreases |s| - i
  {
    if i + 6 >= |s| then None
    else if ImageAt(s, i) then Some(i)
    else FirstImageAt(s, i + 1)
  }

  /** `_image_extension`: `re.search(r"image/([\w+]+)", uri)` keeps the
      leftmost match, the group running as far as it can. */
  function ImageExtension(uri: string): string {
    match FirstImageAt(uri, 0)
    case None => ".png"
    case Some(i) => "." + uri[i + 6..i + 6 + SubtypeRun(uri, i + 6)]
  }

  /** With no match the extension is `.png`. */
  lemma ImageExtensionDefault(uri: string)
    requires forall i: nat :: !ImageAt(uri, i)
    ensures ImageExtension(uri) == ".png"
  {
  }

  /** With a match, the extension is the subtype after the leftmost
      `image/`, extended as far as the class allows. */
  lemma ImageExtensionAt(uri: string, i: nat)
    requires ImageAt(uri, i) && forall k: nat :: k < i ==> !ImageAt(uri, k)
    ensures var e := ImageExtension(uri);
      var j := i + 6 + |e| - 1;
      && j <= |uri| && e == "." + uri[i + 6..j]
      && (forall k :: i + 6 <= k < j ==> IsSubtypeChar(uri[k]))
      && (j < |uri| ==> !IsSubtypeChar(uri[j]))
  {
    var r := FirstImageAt(uri, 0);
    assert r == Some(i);
  }

  // ---------------------------------------------------------------------
  // Data URIs (lines 176-181)
  // ---------------------------------------------------------------------

  /** The index of the first `c` in `s`. */
  function IndexOf(s: string, c: char): (r: Option<nat>)
    ensures r.Some? ==> r.value < |s| && s[r.value] == c && c !in s[..r.value]
    ensures r.None? ==> c !in s
    decreases |s|
  {
    if |s| == 0 then None
    else if s[0] == c then Some(0)
    else
      match IndexOf(s[1..], c)
      case None => None
      case Some(k) =>
        assert s[..k + 1] == [s[0]] + s[1..][..k];
        Some(k + 1)
  }

  /** The first occurrence is the one `IndexOf` finds. */
  lemma {:induction false} IndexOfFirst(s: string, c: char, j: nat)
    requires j < |s| && s[j] == c && c !in s[..j]
    ensures IndexOf(s, c) == Some(j)
    decreases |s|
  {
    if j > 0 {
      assert s[0] in s[..j];
      assert s[1..][..j - 1] == s[1..j] && s[1..j] == s[..j][1..];
      IndexOfFirst(s[1..], c, j - 1);
    }
  }

  /** `_decode_base64`: the payload after the first comma, decoded; `None`
      when there is no comma (the unpacking raises) or decoding raises. */
  function DecodeBase64(uri: string): (r: Option<seq<byte>>)
    ensures ',' !in uri ==> r.None?
  {
    match IndexOf(uri, ',')
    case None => None
    case Some(i) => Base64.Decode(uri[i + 1..])
  }

  /** A data URI built from a header without a comma and an encoding
      decodes to the bytes encoded. */
  lemma DataUriRoundTrip(header: string, data: seq<byte>)
    requires ',' !in header
    ensures DecodeBase64(header + "," + Base64.Encode(data)) == Some(data)
  {
    var uri := header + "," + Base64.Encode(data);
    assert uri[|header|] == ',';
    assert uri[..|header|] == header;
    assert ',' !in uri[..|header|];
    IndexOfFirst(uri, ',', |header|);
    var i := |header|;
    assert uri[i + 1..] == Base64.Encode(data);
    Base64.DecodeEncode(data);
  }

  // ---------------------------------------------------------------------
  // The embed token (lines 202-203)
  // ---------------------------------------------------------------------

  /** `_obsidian_img`: the embed token `![[name]]`, the form the asset
      consolidation pass rewrites. */
  function ObsidianImg(name: string): string {
    "![[" + name + "]]"
  }

  /** The token is the embed of `name`: `![[`, the name, `]]`. */
  lemma ObsidianImgShape(name: string)
    ensures ObsidianImg(name) == LinkRewrite.Embed(name)
    ensures var r := ObsidianImg(name);
      IsPrefix("![[", r) && IsSuffix("]]", r) && r[3..|r| - 2] == name
  {
    var r := ObsidianImg(name);
    assert r[..3] == "![[" && r[|r| - 2..] == "]]" && r[3..|r| - 2] == name;
  }

  /** An extracted image's token is rewritten by a later consolidation
      that maps its name to another plain name. */
  lemma ObsidianImgFollowsConsolidation(name: string, canonical: string)
    requires LinkRewrite.PlainName(canonical)
    ensures LinkRewrite.RewriteEntry(ObsidianImg(name), name, canonical) == ObsidianImg(canonical)
  {
    ObsidianImgShape(name);
    ObsidianImgShape(canonical);
    LinkRewrite.EmbedRewritten(name, canonical);
  }

  // ---------------------------------------------------------------------
  // Finalisation (lines 235-242)
  // ---------------------------------------------------------------------

  /** `_finalize_markdown`. */
  function FinalizeMarkdown(md: string): string {
    Strip(Collapse(StripTags(md), 4))
  }

  /** The output has no leading or trailing whitespace and no run of four
      newlines. */
  lemma FinalizeMarkdownShape(md: string)
    ensures var r := FinalizeMarkdown(md);
      (|r| > 0 ==> !IsSpace(r[0]) && !IsSpace(r[|r| - 1])) && NoRun(r, 4)
  {
    var c := Collapse(StripTags(md), 4);
    StripShape(c);
    NoRunRStrip(c, 4);
    NoRunLStrip(RStrip(c), 4);
  }

  /** The clean-up removes no character other than tags, and introduces none. */
  lemma FinalizeMarkdownChars(md: string, c: char)
    ensures c in FinalizeMarkdown(md) ==> c in md
  {
    var s := Collapse(StripTags(md), 4);
    var rs := RStrip(s);
    var r := LStrip(rs);
    RStripShape(s);
    LStripShape(rs);
    if c in r {
      var i :| 0 <= i < |r| && r[i] == c;
      assert rs[|rs| - |r| + i] == c;
      assert s[|rs| - |r| + i] == c;
    }
  }
}
