/** The metadata injector (scripts/metadata_injector.py): the metadata it
    reads from a note, the YAML frontmatter it writes in front of the note,
    and the update of an existing frontmatter. */
module Metadata {

  import opened Wrappers
  import opened Strings
  import opened Assoc
  import opened NoteFiles
  import MetadataRules
  import MetadataTags

  /** A value of the metadata dictionary: a string, a list of strings,
      `None`, or any other YAML value, which is carried along unread. */
  datatype Value = Str(s: string) | StrList(items: seq<string>) | Null | Other(yaml: string)

  /** A Python `dict` from keys to values, in insertion order. */
  type Dict = seq<(string, Value)>

  /** The environment's share of the metadata: the creation date used when
      the note holds no ISO date (the file's creation time, or today when
      that cannot be read), the current time `%Y-%m-%d %H:%M` and the
      current date `%Y-%m-%d`. */
  datatype Clock = Clock(created: string, now: string, today: string)

  // ---------------------------------------------------------------------
  // `_extract_metadata` (lines 93-103)
  // ---------------------------------------------------------------------

  /** The keys `_extract_metadata` assigns, in order. */
  const MetadataKeys: seq<string> :=
    ["title", "created", "modified", "tags", "source", "migration_status", "migrated_at", "type"]

  /** The metadata of a note, key by key in the order they are assigned. */
  function MetadataOf(content: string, path: FilePath, clock: Clock): Dict {
    Fields(Str(MetadataRules.ExtractTitle(content, Stem(path))),
           Str(MetadataRules.ExtractCreationDate(content, clock.created)),
           Str(clock.now),
           StrList(MetadataTags.TagList(content)),
           Str(MetadataRules.IdentifySource(Name(path), content)),
           Str("completed"),
           Str(clock.today),
           Str(MetadataRules.ClassifyNoteType(content)))
  }

  /** `_extract_metadata`: the dictionary filled field by field. */
  method ExtractMetadata(content: string, path: FilePath, clock: Clock) returns (md: Dict)
    ensures md == MetadataOf(content, path, clock)
  {
    var title := Str(MetadataRules.ExtractTitle(content, Stem(path)));
    var created := Str(MetadataRules.ExtractCreationDate(content, clock.created));
    var tags := MetadataTags.ExtractTags(content);
    var source := Str(MetadataRules.IdentifySource(Name(path), content));
    var noteType := Str(MetadataRules.ClassifyNoteType(content));
    md := [];
    md := Put(md, "title", title);
    md := Put(md, "created", created);
    md := Put(md, "modified", Str(clock.now));
    md := Put(md, "tags", StrList(tags));
    md := Put(md, "source", source);
    md := Put(md, "migration_status", Str("completed"));
    md := Put(md, "migrated_at", Str(clock.today));
    md := Put(md, "type", noteType);
    FreshPuts(title, created, Str(clock.now), StrList(tags), source, Str("completed"), Str(clock.today), noteType);
  }

  /** The dictionary with the eight keys of `_extract_metadata`, in order. */
  function Fields(a: Value, b: Value, c: Value, d: Value, e: Value, f: Value, g: Value, h: Value): (m: Dict)
    ensures |m| == |MetadataKeys| && forall i :: 0 <= i < |m| ==> m[i].0 == MetadataKeys[i]
  {
    [("title", a), ("created", b), ("modified", c), ("tags", d),
     ("source", e), ("migration_status", f), ("migrated_at", g), ("type", h)]
  }

  /** Assigning the eight keys in turn to an empty dictionary lists them in
      that order. */
  lemma {:induction false} FreshPuts(a: Value, b: Value, c: Value, d: Value, e: Value, f: Value, g: Value, h: Value)
    ensures Put(Put(Put(Put(Put(Put(Put(Put([], "title", a), "created", b), "modified", c), "tags", d),
              "source", e), "migration_status", f), "migrated_at", g), "type", h)
            == Fields(a, b, c, d, e, f, g, h)
  {
    var m := Fields(a, b, c, d, e, f, g, h);
    assert KeysDistinct(m) by {
      forall i, j | 0 <= i < j < |m| ensures m[i].0 != m[j].0 {
        KeyNamesDistinct(MetadataKeys, i, j);
      }
    }
    assert m[..0] == [] && m[..8] == m;
    FourPuts(m, 0);
    FourPuts(m, 4);
  }

  /** Four entries of a dictionary with distinct keys, assigned in turn to
      the entries before them, extend it by those four. */
  lemma {:induction false} FourPuts(m: Dict, n: nat)
    requires KeysDistinct(m) && n + 4 <= |m|
    ensures Put(Put(Put(Put(m[..n], m[n].0, m[n].1), m[n + 1].0, m[n + 1].1),
                    m[n + 2].0, m[n + 2].1), m[n + 3].0, m[n + 3].1) == m[..n + 4]
  {
    PutNext(m, n);
    PutNext(m, n + 1);
    PutNext(m, n + 2);
    PutNext(m, n + 3);
  }

  /** Assigning the next entry of a dictionary with distinct keys to the
      entries before it appends it. */
  lemma {:induction false} PutNext(m: Dict, n: nat)
    requires KeysDistinct(m) && n < |m|
    ensures Put(m[..n], m[n].0, m[n].1) == m[..n + 1]
  {
    assert !HasKey(m[..n], m[n].0) by {
      forall i | 0 <= i < n ensures m[..n][i].0 != m[n].0 {
        assert m[..n][i] == m[i];
      }
    }
    PutNew(m[..n], m[n].0, m[n].1);
    assert m[..n] + [m[n]] == m[..n + 1];
  }

  /** The metadata has the eight keys, distinct and in assignment order. */
  lemma MetadataOfKeys(content: string, path: FilePath, clock: Clock)
    ensures var md := MetadataOf(content, path, clock);
      && |md| == |MetadataKeys|
      && (forall i :: 0 <= i < |md| ==> md[i].0 == MetadataKeys[i])
      && KeysDistinct(md)
  {
    var md := MetadataOf(content, path, clock);
    forall i, j | 0 <= i < j < |md| ensures md[i].0 != md[j].0 {
      KeyNamesDistinct(MetadataKeys, i, j);
    }
  }

  /** The metadata of a note: its title, creation date, tags, source and
      type follow the rules for each, and the migration status is
      `completed`. */
  lemma MetadataOfFields(content: string, path: FilePath, clock: Clock)
    ensures var md := MetadataOf(content, path, clock);
      && Get(md, "title") == Some(Str(MetadataRules.ExtractTitle(content, Stem(path))))
      && Get(md, "created") == Some(Str(MetadataRules.ExtractCreationDate(content, clock.created)))
      && Get(md, "modified") == Some(Str(clock.now))
      && Get(md, "migrated_at") == Some(Str(clock.today))
      && Get(md, "tags") == Some(StrList(MetadataTags.TagList(content)))
      && Get(md, "source") == Some(Str(MetadataRules.IdentifySource(Name(path), content)))
      && Get(md, "migration_status") == Some(Str("completed"))
      && Get(md, "type") == Some(Str(MetadataRules.ClassifyNoteType(content)))
  {
    FieldsGet(Str(MetadataRules.ExtractTitle(content, Stem(path))),
              Str(MetadataRules.ExtractCreationDate(content, clock.created)),
              Str(clock.now),
              StrList(MetadataTags.TagList(content)),
              Str(MetadataRules.IdentifySource(Name(path), content)),
              Str("completed"),
              Str(clock.today),
              Str(MetadataRules.ClassifyNoteType(content)));
  }

  /** Each key of the eight-key dictionary reads back its own value. */
  lemma {:induction false} FieldsGet(a: Value, b: Value, c: Value, d: Value, e: Value, f: Value, g: Value, h: Value)
    ensures var m := Fields(a, b, c, d, e, f, g, h);
      && Get(m, "title") == Some(a) && Get(m, "created") == Some(b) && Get(m, "modified") == Some(c)
      && Get(m, "tags") == Some(d) && Get(m, "source") == Some(e) && Get(m, "migration_status") == Some(f)
      && Get(m, "migrated_at") == Some(g) && Get(m, "type") == Some(h)
  {
    var m := Fields(a, b, c, d, e, f, g, h);
    assert KeysDistinct(m) by {
      forall i, j | 0 <= i < j < |m| ensures m[i].0 != m[j].0 {
        KeyNamesDistinct(MetadataKeys, i, j);
      }
    }
    GetAt(m, 0);
    GetAt(m, 1);
    GetAt(m, 2);
    GetAt(m, 3);
    GetAt(m, 4);
    GetAt(m, 5);
    GetAt(m, 6);
    GetAt(m, 7);
  }

  /** The keys of either table differ pairwise: the keys that share a first
      letter differ in length or in their second letter. */
  lemma {:induction false} KeyNamesDistinct(keys: seq<string>, i: nat, j: nat)
    requires keys == MetadataKeys || keys == FrontmatterKeys
    requires i < j < |keys|
    ensures keys[i] != keys[j]
  {
    var a, b := keys[i], keys[j];
    if a[0] == b[0] {
      assert |a| != |b| || a[1] != b[1];
    }
  }

  // ---------------------------------------------------------------------
  // `_generate_frontmatter` (lines 177-189)
  // ---------------------------------------------------------------------

  /** `d.get(k, default)`. */
  function GetOr(d: Dict, k: string, default: Value): (v: Value)
    ensures HasKey(d, k) ==> Get(d, k) == Some(v)
    ensures !HasKey(d, k) ==> v == default
  {
    match Get(d, k)
    case Some(v) => v
    case None => default
  }

  /** The keys of the frontmatter, in the order written. */
  const FrontmatterKeys: seq<string> :=
    ["title", "created", "modified", "tags", "source", "type", "migration_status", "migrated_at"]

  /** The value written for a key the metadata lacks. */
  function Default(k: string): Value {
    if k == "title" then Str("Untitled")
    else if k == "tags" then StrList([])
    else if k == "source" then Str("unknown")
    else if k == "type" then Str("note")
    else if k == "migration_status" then Str("completed")
    else Null
  }

  /** The dictionary `fm` handed to `yaml.dump`. */
  function Frontmatter(md: Dict): Dict {
    seq(|FrontmatterKeys|, i requires 0 <= i < |FrontmatterKeys| =>
      (FrontmatterKeys[i], GetOr(md, FrontmatterKeys[i], Default(FrontmatterKeys[i]))))
  }

  /** The frontmatter has exactly the eight keys, in their fixed order; each
      holds the metadata's value when there is one and its default
      otherwise; any other key of the metadata is dropped. */
  lemma FrontmatterFields(md: Dict)
    ensures var fm := Frontmatter(md);
      && KeysDistinct(fm)
      && (forall i :: 0 <= i < |fm| ==> fm[i].0 == FrontmatterKeys[i])
      && (forall k :: k in FrontmatterKeys ==>
            Get(fm, k) == Some(if HasKey(md, k) then Get(md, k).value else Default(k)))
      && (forall k :: k !in FrontmatterKeys ==> !HasKey(fm, k))
  {
    var fm := Frontmatter(md);
    assert KeysDistinct(fm) by {
      forall i, j | 0 <= i < j < |fm| ensures fm[i].0 != fm[j].0 {
        KeyNamesDistinct(FrontmatterKeys, i, j);
      }
    }
    forall k | k in FrontmatterKeys
      ensures Get(fm, k) == Some(if HasKey(md, k) then Get(md, k).value else Default(k))
    {
      var i :| 0 <= i < |FrontmatterKeys| && FrontmatterKeys[i] == k;
      GetAt(fm, i);
    }
  }

  /** The defaults of the source: `Untitled`, `[]`, `unknown`, `note` and
      `completed`, and `None` for the dates. */
  lemma FrontmatterDefaults()
    ensures var fm := Frontmatter([]);
      fm == [("title", Str("Untitled")), ("created", Null), ("modified", Null), ("tags", StrList([])),
             ("source", Str("unknown")), ("type", Str("note")), ("migration_status", Str("completed")),
             ("migrated_at", Null)]
  {
  }

  /** `yaml.dump` of a dictionary with the settings the metadata injector
      uses; its text is not modelled. */
  type Dump = Dict -> string

  /** `_generate_frontmatter`. */
  function GenerateFrontmatter(md: Dict, dump: Dump): string {
    "---\n" + dump(Frontmatter(md)) + "---"
  }

  /** The frontmatter opens with `---` and a newline and closes with `---`,
      whatever the dump writes. */
  lemma GenerateFrontmatterFences(md: Dict, dump: Dump)
    ensures IsPrefix("---\n", GenerateFrontmatter(md, dump))
    ensures IsSuffix("---", GenerateFrontmatter(md, dump))
  {
    var r := GenerateFrontmatter(md, dump);
    assert r[..4] == "---\n";
    assert r[|r| - 3..] == "---";
  }

  // ---------------------------------------------------------------------
  // `inject_metadata` (lines 33-56)
  // ---------------------------------------------------------------------

  /** `inject_metadata`: `(returned value, notes afterwards)`. A note that
      does not read gives False; one that already opens with `---` is left
      alone and gives True; otherwise the frontmatter and a newline go in
      front of it, and a write that raises gives False. */
  function Inject(v: Notes, path: FilePath, clock: Clock, dump: Dump): (bool, Notes) {
    if !Readable(v, path) then (false, v)
    else
      var content := v.text[path];
      if IsPrefix("---", content) then (true, v)
      else if path in v.unwritable then (false, v)
      else
        var fm := GenerateFrontmatter(MetadataOf(content, path, clock), dump);
        (true, v.(text := v.text[path := fm + "\n" + content]))
  }

  /** Only `path` is ever written, and only when it reads and does not open
      with `---`; it then holds the frontmatter, a newline and its old
      text. */
  lemma InjectWrites(v: Notes, path: FilePath, clock: Clock, dump: Dump)
    ensures var (ok, w) := Inject(v, path, clock, dump);
      && w.unreadable == v.unreadable && w.unwritable == v.unwritable
      && w.text.Keys == v.text.Keys
      && (forall p :: p in v.text && p != path ==> w.text[p] == v.text[p])
      && (ok <==> Readable(v, path) && (IsPrefix("---", v.text[path]) || path !in v.unwritable))
      && (w != v <==> Readable(v, path) && !IsPrefix("---", v.text[path]) && path !in v.unwritable)
      && (w != v ==>
            w.text[path] == GenerateFrontmatter(MetadataOf(v.text[path], path, clock), dump) + "\n" + v.text[path])
  {
    var (ok, w) := Inject(v, path, clock, dump);
    if Readable(v, path) && !IsPrefix("---", v.text[path]) && path !in v.unwritable {
      var c := v.text[path];
      var fm := GenerateFrontmatter(MetadataOf(c, path, clock), dump);
      assert |fm + "\n" + c| > |c|;
      assert w.text[path] != v.text[path];
    }
  }

  /** A note that already has a frontmatter is skipped: nothing is written
      and the call gives True. */
  lemma InjectSkips(v: Notes, path: FilePath, clock: Clock, dump: Dump)
    requires Readable(v, path) && IsPrefix("---", v.text[path])
    ensures Inject(v, path, clock, dump) == (true, v)
  {
  }

  /** Injecting twice is injecting once, whatever the clock says the second
      time: the injected text opens with the frontmatter's `---`, so the
      second call skips it, and a call that failed fails the same way
      again. */
  lemma InjectIdempotent(v: Notes, path: FilePath, clock: Clock, clock': Clock, dump: Dump)
    ensures var (ok, w) := Inject(v, path, clock, dump);
      Inject(w, path, clock', dump) == (ok, w)
  {
    if Inject(v, path, clock, dump).1 != v {
      InjectWritten(v, path, clock, clock', dump);
    } else {
      InjectUnwritten(v, path, clock, clock', dump);
    }
  }

  /** A written note opens with `---`, so the next call skips it. */
  lemma InjectWritten(v: Notes, path: FilePath, clock: Clock, clock': Clock, dump: Dump)
    requires Inject(v, path, clock, dump).1 != v
    ensures var w := Inject(v, path, clock, dump).1;
      Inject(w, path, clock', dump) == (true, w)
  {
    var w := Inject(v, path, clock, dump).1;
    InjectOpensFence(v, path, clock, dump);
    InjectSkips(w, path, clock', dump);
  }

  /** A written note reads and opens with `---`. */
  lemma InjectOpensFence(v: Notes, path: FilePath, clock: Clock, dump: Dump)
    requires Inject(v, path, clock, dump).1 != v
    ensures var w := Inject(v, path, clock, dump).1;
      Readable(w, path) && IsPrefix("---", w.text[path])
  {
    var w := Inject(v, path, clock, dump).1;
    var c := v.text[path];
    var md := MetadataOf(c, path, clock);
    var fm := GenerateFrontmatter(md, dump);
    assert w.text[path] == fm + "\n" + c;
    GenerateFrontmatterFences(md, dump);
    PrefixExtends("---", fm, "\n" + c);
  }

  /** A call that writes nothing gives the same answer under any clock. */
  lemma InjectUnwritten(v: Notes, path: FilePath, clock: Clock, clock': Clock, dump: Dump)
    requires Inject(v, path, clock, dump).1 == v
    ensures Inject(v, path, clock', dump) == Inject(v, path, clock, dump)
  {
    InjectWrites(v, path, clock, dump);
  }

  lemma PrefixExtends(p: string, a: string, b: string)
    requires IsPrefix(p + "\n", a)
    ensures IsPrefix(p, a + b)
  {
    assert (a + b)[..|p|] == a[..|p| + 1][..|p|];
  }

  // ---------------------------------------------------------------------
  // `update_metadata` (lines 58-87)
  // ---------------------------------------------------------------------

  /** What `yaml.safe_load` of the frontmatter gives: it raises; a falsy
      value (`None`, an empty mapping, ...), which `or {}` replaces by an
      empty dictionary; a mapping; or a truthy value that is not a
      mapping, on which `update` or `get` raises. */
  datatype Loaded = Raises | Falsy | Mapping(d: Dict) | NotMapping

  /** `content.split('---', 2)`, for a content that opens with `---`: the
      text between the first two `---` and the text after the second, or
      None when there is no second one and so fewer than three parts. */
  function SplitFrontmatter(content: string): (r: Option<(string, string)>)
    requires IsPrefix("---", content)
    ensures r.None? <==> forall k :: 3 <= k ==> !OccursAt(content, "---", k)
  {
    match FindSub(content, "---", 3)
    case Some(j) => Some((content[3..j], content[j + 3..]))
    case None => None
  }

  /** The two parts are the text up to the first later `---` and the text
      after it, so that the content is `---` + part 1 + `---` + part 2. */
  lemma SplitFrontmatterParts(content: string)
    requires IsPrefix("---", content) && SplitFrontmatter(content).Some?
    ensures var (y, b) := SplitFrontmatter(content).value;
      && content == "---" + y + "---" + b
      && forall k :: 0 <= k <= |y| - 3 ==> !OccursAt(y, "---", k)
  {
    var j := FindSub(content, "---", 3).value;
    var (y, b) := SplitFrontmatter(content).value;
    assert content == content[..3] + content[3..j] + content[j..j + 3] + content[j + 3..];
    forall k | 0 <= k <= |y| - 3 ensures !OccursAt(y, "---", k) {
      assert y[k..k + 3] == content[3 + k..3 + k + 3];
      assert !OccursAt(content, "---", 3 + k);
    }
  }

  /** The metadata after `update`, or None when loading or updating
      raises. */
  function Merged(loaded: Loaded, updates: Dict): Option<Dict> {
    match loaded
    case Raises => None
    case NotMapping => None
    case Falsy => Some(Update([], updates))
    case Mapping(d) => Some(Update(d, updates))
  }

  /** `update_metadata`: `(returned value, notes afterwards)`. */
  function UpdateMetadata(v: Notes, path: FilePath, updates: Dict, load: string -> Loaded, dump: Dump)
    : (bool, Notes)
  {
    if !Readable(v, path) then (false, v)
    else
      var content := v.text[path];
      if !IsPrefix("---", content) then (false, v)
      else match SplitFrontmatter(content)
        case None => (false, v)
        case Some((yamlText, body)) =>
          match Merged(load(yamlText), updates)
          case None => (false, v)
          case Some(md) =>
            if path in v.unwritable then (false, v)
            else (true, v.(text := v.text[path := GenerateFrontmatter(md, dump) + "\n" + LStrip(body)]))
  }

  /** Without a frontmatter to update, or with only one `---`, the call
      gives False and writes nothing; it writes nothing whenever it gives
      False, and only `path` when it gives True. */
  lemma UpdateMetadataGuards(v: Notes, path: FilePath, updates: Dict, load: string -> Loaded, dump: Dump)
    ensures var (ok, w) := UpdateMetadata(v, path, updates, load, dump);
      && (!ok ==> w == v)
      && (Readable(v, path) && !IsPrefix("---", v.text[path]) ==> !ok)
      && ((Readable(v, path) && IsPrefix("---", v.text[path])
           && forall k :: 3 <= k ==> !OccursAt(v.text[path], "---", k)) ==> !ok)
      && w.unreadable == v.unreadable && w.unwritable == v.unwritable && w.text.Keys == v.text.Keys
      && (forall p :: p in v.text && p != path ==> w.text[p] == v.text[p])
  {
  }

  /** When the call succeeds, the note holds the frontmatter of the loaded
      metadata with the updates laid over it, then the body with its leading
      whitespace removed: each updated key has its new value and every
      other key its loaded one. */
  lemma UpdateMetadataOverrides(v: Notes, path: FilePath, updates: Dict, load: string -> Loaded, dump: Dump)
    requires KeysDistinct(updates)
    requires UpdateMetadata(v, path, updates, load, dump).0
    ensures var w := UpdateMetadata(v, path, updates, load, dump).1;
      && Readable(v, path) && IsPrefix("---", v.text[path]) && path !in v.unwritable
      && SplitFrontmatter(v.text[path]).Some?
      && var (yamlText, body) := SplitFrontmatter(v.text[path]).value;
      && Merged(load(yamlText), updates).Some?
      && var md := Merged(load(yamlText), updates).value;
      && w.text[path] == GenerateFrontmatter(md, dump) + "\n" + LStrip(body)
      && (forall k :: HasKey(updates, k) ==> Get(md, k) == Get(updates, k))
      && (forall k :: !HasKey(updates, k) ==>
            Get(md, k) == (if load(yamlText).Mapping? then Get(load(yamlText).d, k) else None))
  {
    var (yamlText, body) := SplitFrontmatter(v.text[path]).value;
    match load(yamlText)
    case Mapping(d) => UpdateGet(d, updates);
    case Falsy => UpdateGet([], updates);
  }

  /** An update of a key the frontmatter does not write is lost: only the
      eight frontmatter keys survive. */
  lemma UpdateDropsOtherKeys(md: Dict, k: string)
    requires k !in FrontmatterKeys
    ensures !HasKey(Frontmatter(md), k)
  {
    FrontmatterFields(md);
  }
}
