/**
 * The decisions of the command-line tool around the template codec: building the
 * local template set from a directory listing, selecting the single active version
 * of a remote template, deciding what one sync step writes into the directory, the
 * batch sync over all remote templates, and the read-only check of local templates
 * against the remote ones. The provider is reached through a `Fetch` function and
 * the directory is a map from file name to contents.
 */
module Reconcile {
  import opened Wrappers
  import opened Text
  import opened Manage

  const TemplateExtension: string := "mailtemplate"
  const PendingExtension: string := TemplateExtension + "." + "tmp"

  // ---------------------------------------------------------------- remote records

  /** A version of a remote template; the content fields are absent in listings. */
  datatype TemplateVersion = TemplateVersion(
    id: string,
    templateId: string,
    name: string,
    active: int,
    plainContent: Option<string>,
    htmlContent: Option<string>)

  datatype RemoteTemplate = RemoteTemplate(id: string, name: string, versions: seq<TemplateVersion>)

  /** The provider's "get version" call: template id and version id to the full version record. */
  type Fetch = (string, string) -> TemplateVersion

  // ---------------------------------------------------------------- file names

  /** Index of the last `c` in `s`, if any. */
  function LastIndexOf(s: string, c: char): (r: Option<nat>)
    ensures r.Some? ==> r.value < |s| && s[r.value] == c
    ensures r.None? ==> c !in s
  {
    if |s| == 0 then None
    else if s[|s| - 1] == c then Some(|s| - 1)
    else
      assert s == s[..|s| - 1] + [s[|s| - 1]];
      LastIndexOf(s[..|s| - 1], c)
  }

  /** No `c` follows the one found. */
  lemma {:induction false} LastIndexOfLast(s: string, c: char)
    ensures LastIndexOf(s, c).Some? ==> forall j :: LastIndexOf(s, c).value < j < |s| ==> s[j] != c
  {
    if |s| > 0 && s[|s| - 1] != c {
      var init := s[..|s| - 1];
      LastIndexOfLast(init, c);
      assert forall j :: 0 <= j < |init| ==> init[j] == s[j];
    }
  }

  /** The last `c` of `a + [c] + b` is the one after `a` when `b` has none. */
  lemma {:induction false} LastIndexOfAfter(a: string, c: char, b: string)
    requires c !in b
    ensures LastIndexOf(a + [c] + b, c) == Some(|a|)
    decreases |b|
  {
    var s := a + [c] + b;
    if b != [] {
      var b' := b[..|b| - 1];
      assert s[|s| - 1] == b[|b| - 1] && b[|b| - 1] in b;
      assert s[..|s| - 1] == a + [c] + b';
      assert forall x :: x in b' ==> x in b;
      LastIndexOfAfter(a, c, b');
    }
  }

  /**
   * Position of the dot that starts a file name's extension: the last dot, unless
   * it is the first character (a hidden file such as ".profile") or the name is "..".
   */
  function ExtensionDot(fileName: string): Option<nat> {
    if fileName == ".." then None
    else
      match LastIndexOf(fileName, '.')
      case None => None
      case Some(i) => if i == 0 then None else Some(i)
  }

  /** Rust's `Path::extension` of a file name. */
  function Extension(fileName: string): (r: Option<string>)
    ensures r.Some? ==>
      var n := |fileName| - |r.value|;
      2 <= n && fileName[n - 1] == '.' && fileName[n..] == r.value
  {
    match ExtensionDot(fileName)
    case None => None
    case Some(i) => Some(fileName[i + 1..])
  }

  /**
   * A name has an extension unless it is ".." or has no dot after its first
   * character; the extension is what follows the last dot, and holds no dot.
   */
  lemma ExtensionSpec(fileName: string)
    ensures Extension(fileName).None? <==>
      fileName == ".." || forall i :: 0 < i < |fileName| ==> fileName[i] != '.'
    ensures Extension(fileName).Some? ==> '.' !in Extension(fileName).value
  {
    LastIndexOfLast(fileName, '.');
    var last := LastIndexOf(fileName, '.');
    if last.Some? {
      var i := last.value;
      var ext := fileName[i + 1..];
      assert forall k :: 0 <= k < |ext| ==> ext[k] == fileName[i + 1 + k];
    }
  }

  /** Rust's `Path::set_extension` on a file name: replace the extension, or add one. */
  function SetExtension(fileName: string, ext: string): (r: string)
    ensures fileName != "" && ext != "" && '.' !in ext ==>
      ExtensionDot(r) == Some(|r| - |ext| - 1) && Extension(r) == Some(ext)
  {
    var stem := match ExtensionDot(fileName) case None => fileName case Some(i) => fileName[..i];
    if ext == "" then stem
    else
      var r := stem + "." + ext;
      if fileName != "" && '.' !in ext then ExtensionOf(stem, ext); r else r
  }

  /** Setting a dot-free extension a second time changes nothing. */
  lemma SetExtensionIdempotent(fileName: string, ext: string)
    requires fileName != "" && ext != "" && '.' !in ext
    ensures SetExtension(SetExtension(fileName, ext), ext) == SetExtension(fileName, ext)
  {
    var r := SetExtension(fileName, ext);
    assert r[..|r| - |ext| - 1] + "." + ext == r;
  }

  /** The local file a remote template is synchronised to: `<id>.mailtemplate`. */
  function FileName(id: string): string {
    id + "." + TemplateExtension
  }

  /** The sibling written when the local file differs: its extension set to `mailtemplate.tmp`. */
  function PendingFileName(id: string): string {
    SetExtension(FileName(id), PendingExtension)
  }

  lemma TemplateExtensionDotFree()
    ensures '.' !in TemplateExtension
  {
  }

  lemma TmpDotFree()
    ensures '.' !in "tmp"
  {
  }

  /** A file name `stem.ext` has extension `ext` when the stem is non-empty and `ext` has no dot. */
  lemma ExtensionOf(stem: string, ext: string)
    requires stem != "" && ext != "" && '.' !in ext
    ensures ExtensionDot(stem + "." + ext) == Some(|stem|)
    ensures Extension(stem + "." + ext) == Some(ext)
  {
    var s := stem + "." + ext;
    LastIndexOfAfter(stem, '.', ext);
    assert s[|s| - 1] == ext[|ext| - 1] && ext[|ext| - 1] in ext;
    assert s[|stem| + 1..] == ext;
  }

  /** A name made of a dot and a dot-free extension is a hidden file without extension. */
  lemma HiddenName(ext: string)
    requires '.' !in ext
    ensures ExtensionDot("." + ext) == None
  {
    LastIndexOfAfter("", '.', ext);
    assert "" + ['.'] + ext == "." + ext;
  }

  /** The synchronised file of a template is picked up by the directory scan when the id is non-empty. */
  lemma FileNameExtension(id: string)
    requires id != ""
    ensures Extension(FileName(id)) == Some(TemplateExtension)
    ensures SetExtension(FileName(id), PendingExtension) == id + "." + PendingExtension
  {
    TemplateExtensionDotFree();
    ExtensionOf(id, TemplateExtension);
    assert FileName(id)[..|id|] == id;
  }

  /** The file of the empty id is a hidden file, without extension. */
  lemma EmptyIdFileName()
    ensures ExtensionDot(FileName("")) == None
  {
    TemplateExtensionDotFree();
    assert FileName("") == "." + TemplateExtension;
    HiddenName(TemplateExtension);
  }

  /**
   * The pending sibling of a template's file is `<id>.mailtemplate.tmp` for a
   * non-empty id, and the directory scan never picks it up: its extension is `tmp`.
   */
  lemma FileNameExtensions(id: string)
    ensures id != "" ==> PendingFileName(id) == FileName(id) + "." + "tmp"
    ensures Extension(PendingFileName(id)) == Some("tmp")
  {
    var stem := if id != "" then id else FileName(id);
    if id != "" {
      FileNameExtension(id);
    } else {
      EmptyIdFileName();
    }
    assert PendingFileName(id) == stem + "." + PendingExtension;
    assert stem + "." + PendingExtension == (stem + "." + TemplateExtension) + "." + "tmp";
    TmpDotFree();
    ExtensionOf(stem + "." + TemplateExtension, "tmp");
  }

  /** Different ids give different files, and no synchronised file is ever a pending file. */
  lemma FileNamesDistinct(a: string, b: string)
    ensures FileName(a) == FileName(b) ==> a == b
    ensures FileName(a) != PendingFileName(b)
  {
    if FileName(a) == FileName(b) {
      assert a == FileName(a)[..|a|];
      assert b == FileName(b)[..|b|];
    }
    var stem := match ExtensionDot(FileName(b)) case None => FileName(b) case Some(i) => FileName(b)[..i];
    var p := PendingFileName(b);
    assert p == stem + "." + PendingExtension;
    assert p[|p| - 1] == 'p';
    assert FileName(a)[|FileName(a)| - 1] == 'e';
  }

  /** Distinct non-empty ids give distinct pending files. */
  lemma PendingNamesDistinct(a: string, b: string)
    requires a != "" && b != ""
    ensures PendingFileName(a) == PendingFileName(b) ==> a == b
  {
    FileNameExtensions(a);
    FileNameExtensions(b);
    if PendingFileName(a) == PendingFileName(b) {
      FileNamesDistinct(a, b);
      assert FileName(a) == PendingFileName(a)[..|PendingFileName(a)| - 4];
      assert FileName(b) == PendingFileName(b)[..|PendingFileName(b)| - 4];
    }
  }

  /**
   * The empty id and the id ".mailtemplate" share a pending file: the file of the
   * empty id has no extension, so `set_extension` appends to it.
   */
  lemma PendingNameCollision()
    ensures PendingFileName("") == PendingFileName("." + TemplateExtension)
  {
    EmptyIdFileName();
    FileNameExtensions("." + TemplateExtension);
  }

  // ---------------------------------------------------------------- local scan

  datatype FileType = RegularFile | Directory | Symlink

  /**
   * One item of a directory listing: an item that could not be read, or an entry
   * with its file name, its type (absent when it could not be read) and its contents
   * (absent when the file could not be read as text).
   */
  datatype DirEntry =
    | EntryError
    | Entry(fileName: string, fileType: Option<FileType>, contents: Option<string>)

  datatype Listing = Unreadable | Listed(entries: seq<DirEntry>)

  /** The template an entry contributes: a regular `.mailtemplate` file that reads and parses. */
  function Accepted(e: DirEntry): Option<Template> {
    match e
    case EntryError => None
    case Entry(fileName, fileType, contents) =>
      if fileType == Some(RegularFile) && Extension(fileName) == Some(TemplateExtension)
         && contents.Some? && Decode(contents.value).Ok?
      then Some(Decode(contents.value).value)
      else None
  }

  /** Contribution `o` is a template named `k`. */
  predicate Names(o: Option<Template>, k: string) {
    o.Some? && o.value.name == k
  }

  /** Contribution `i` is the last one naming its template's name. */
  predicate LastNaming(os: seq<Option<Template>>, i: nat)
    requires i < |os|
  {
    os[i].Some? && forall j :: i < j < |os| ==> !Names(os[j], os[i].value.name)
  }

  /** The contributed templates, by name, each inserted over the earlier ones. */
  function InsertAll(os: seq<Option<Template>>): map<string, Template> {
    if os == [] then map[]
    else
      var m := InsertAll(os[..|os| - 1]);
      match os[|os| - 1]
      case None => m
      case Some(t) => m[t.name := t]
  }

  /** What each entry of a listing contributes, in listing order. */
  function Contributions(es: seq<DirEntry>): (os: seq<Option<Template>>)
    ensures |os| == |es|
    ensures forall i :: 0 <= i < |es| ==> os[i] == Accepted(es[i])
  {
    seq(|es|, i requires 0 <= i < |es| => Accepted(es[i]))
  }

  /** The local template set of a directory; an unreadable directory has none. */
  function LocalSet(listing: Listing): map<string, Template> {
    match listing
    case Unreadable => map[]
    case Listed(es) => InsertAll(Contributions(es))
  }

  /** The set holds a name exactly when some contribution is a template with that name. */
  lemma {:induction false} InsertAllKeys(os: seq<Option<Template>>)
    ensures forall k :: k in InsertAll(os) <==> exists i :: 0 <= i < |os| && Names(os[i], k)
  {
    if os != [] {
      var n := |os| - 1;
      var init := os[..n];
      InsertAllKeys(init);
      forall k ensures k in InsertAll(os) <==> exists i :: 0 <= i < |os| && Names(os[i], k) {
        if k in InsertAll(init) {
          var i :| 0 <= i < n && Names(init[i], k);
          assert init[i] == os[i];
        }
        if exists i :: 0 <= i < |os| && Names(os[i], k) {
          var i :| 0 <= i < |os| && Names(os[i], k);
          if i < n {
            assert init[i] == os[i];
          }
        }
      }
    }
  }

  /** The set keys each template by its own name. */
  lemma {:induction false} InsertAllNames(os: seq<Option<Template>>)
    ensures forall k :: k in InsertAll(os) ==> InsertAll(os)[k].name == k
  {
    if os != [] {
      InsertAllNames(os[..|os| - 1]);
    }
  }

  /** For each name, the set holds the template of the last contribution naming it. */
  lemma {:induction false} InsertAllLast(os: seq<Option<Template>>)
    ensures forall i :: 0 <= i < |os| && LastNaming(os, i) ==>
      os[i].value.name in InsertAll(os) && InsertAll(os)[os[i].value.name] == os[i].value
  {
    InsertAllKeys(os);
    if os != [] {
      var n := |os| - 1;
      var init := os[..n];
      InsertAllLast(init);
      forall i | 0 <= i < |os| && LastNaming(os, i)
        ensures os[i].value.name in InsertAll(os) && InsertAll(os)[os[i].value.name] == os[i].value
      {
        assert Names(os[i], os[i].value.name);
        if i < n {
          assert init[i] == os[i];
          assert forall j :: i < j < n ==> init[j] == os[j];
          assert LastNaming(init, i);
          assert !Names(os[n], os[i].value.name);
        }
      }
    }
  }

  /** The file a sync step writes for a template is accepted by the scan, as that template. */
  lemma AcceptedSyncedFile(id: string, t: Template)
    requires id != "" && Encodable(t)
    ensures Accepted(Entry(FileName(id), Some(RegularFile), Some(Encode(t)))) == Some(t)
  {
    FileNameExtension(id);
    RoundTrip(t);
  }

  /** A pending file is never accepted by the scan, whatever its type and contents. */
  lemma PendingNeverAccepted(id: string, fileType: Option<FileType>, contents: Option<string>)
    ensures Accepted(Entry(PendingFileName(id), fileType, contents)) == None
  {
    FileNameExtensions(id);
  }

  lemma UnreadableDirectory()
    ensures LocalSet(Unreadable) == map[]
  {
  }

  /** One more contribution inserts its template, if any, over the earlier ones. */
  lemma InsertAllStep(os: seq<Option<Template>>, i: nat)
    requires i < |os|
    ensures InsertAll(os[..i + 1]) ==
      if os[i].Some? then InsertAll(os[..i])[os[i].value.name := os[i].value] else InsertAll(os[..i])
  {
    assert os[..i + 1][..i] == os[..i];
  }

  /** One directory entry: a regular `.mailtemplate` file is parsed; anything else is skipped. */
  method ReadEntry(e: DirEntry) returns (found: Option<Template>)
    ensures found == Accepted(e)
  {
    found := None;
    match e {
      case EntryError =>
      case Entry(fileName, fileType, contents) =>
        if fileType == Some(RegularFile) && Extension(fileName) == Some(TemplateExtension) {
          if contents.Some? {
            var r := Parse(contents.value);
            if r.Ok? {
              found := Some(r.value);
            }
          }
        }
    }
  }

  /** The directory scan: a loop inserting every accepted template under its name. */
  method ReadAllTemplates(listing: Listing) returns (templates: map<string, Template>)
    ensures templates == LocalSet(listing)
  {
    templates := map[];
    if listing.Unreadable? {
      return;
    }
    var es := listing.entries;
    ghost var os := Contributions(es);
    var i := 0;
    while i < |es|
      invariant 0 <= i <= |es|
      invariant templates == InsertAll(os[..i])
    {
      var found := ReadEntry(es[i]);
      if found.Some? {
        templates := templates[found.value.name := found.value];
      }
      InsertAllStep(os, i);
      i := i + 1;
    }
    assert os[..i] == os;
  }

  // ---------------------------------------------------------------- active versions

  /** The versions flagged active (`active == 1`), in order. */
  function ActiveVersions(vs: seq<TemplateVersion>): (r: seq<TemplateVersion>)
    ensures |r| <= |vs|
  {
    if vs == [] then []
    else
      var last := vs[|vs| - 1];
      ActiveVersions(vs[..|vs| - 1]) + (if last.active == 1 then [last] else [])
  }

  /** The active versions are exactly the versions flagged active. */
  lemma {:induction false} ActiveVersionsMembers(vs: seq<TemplateVersion>)
    ensures forall v :: v in ActiveVersions(vs) <==> v in vs && v.active == 1
  {
    if vs != [] {
      var n := |vs| - 1;
      ActiveVersionsMembers(vs[..n]);
      assert vs == vs[..n] + [vs[n]];
    }
  }

  /** Some version is active exactly when one position is flagged active. */
  lemma {:induction false} AnyActive(vs: seq<TemplateVersion>)
    ensures |ActiveVersions(vs)| >= 1 <==> exists i :: 0 <= i < |vs| && vs[i].active == 1
  {
    if vs != [] {
      var n := |vs| - 1;
      var init := vs[..n];
      AnyActive(init);
      assert |ActiveVersions(vs)| == |ActiveVersions(init)| + (if vs[n].active == 1 then 1 else 0);
      if exists i :: 0 <= i < n && init[i].active == 1 {
        var i :| 0 <= i < n && init[i].active == 1;
        assert vs[i] == init[i];
      }
      if exists i :: 0 <= i < |vs| && vs[i].active == 1 {
        var i :| 0 <= i < |vs| && vs[i].active == 1;
        if i < n {
          assert init[i] == vs[i];
        }
      }
    }
  }

  /** At least two active versions, and only then, means two positions flagged active. */
  lemma {:induction false} TwoActive(vs: seq<TemplateVersion>)
    ensures |ActiveVersions(vs)| >= 2 <==>
      exists i, j :: 0 <= i < j < |vs| && vs[i].active == 1 && vs[j].active == 1
  {
    if vs != [] {
      var n := |vs| - 1;
      var init := vs[..n];
      TwoActive(init);
      AnyActive(init);
      assert |ActiveVersions(vs)| == |ActiveVersions(init)| + (if vs[n].active == 1 then 1 else 0);
      if |ActiveVersions(vs)| >= 2 {
        if |ActiveVersions(init)| >= 2 {
          var i, j :| 0 <= i < j < n && init[i].active == 1 && init[j].active == 1;
          assert vs[i] == init[i] && vs[j] == init[j];
        } else {
          var i :| 0 <= i < n && init[i].active == 1;
          assert vs[i] == init[i];
          assert 0 <= i < n < |vs| && vs[i].active == 1 && vs[n].active == 1;
        }
      }
      if exists i, j :: 0 <= i < j < |vs| && vs[i].active == 1 && vs[j].active == 1 {
        var i, j :| 0 <= i < j < |vs| && vs[i].active == 1 && vs[j].active == 1;
        assert init[i] == vs[i];
        if j < n {
          assert init[j] == vs[j];
          assert 0 <= i < j < n && init[i].active == 1 && init[j].active == 1;
        } else {
          assert 0 <= i < n && init[i].active == 1;
        }
      }
    }
  }

  datatype Activity = Unversioned | NoneActive | SeveralActive | OneActive(version: TemplateVersion)

  /**
   * How many versions of a template are active: none at all (no versions), none
   * flagged, more than one flagged, or exactly one, which is then the only one.
   */
  function Classify(t: RemoteTemplate): (a: Activity)
    ensures a.Unversioned? <==> |t.versions| == 0
  {
    var active := ActiveVersions(t.versions);
    if |t.versions| == 0 then Unversioned
    else if |active| == 0 then NoneActive
    else if |active| > 1 then SeveralActive
    else OneActive(active[0])
  }

  /**
   * Classification by the active flags: no version flagged, two positions flagged,
   * or exactly one flagged version, which is then the only one.
   */
  lemma ClassifySpec(t: RemoteTemplate)
    ensures Classify(t).NoneActive? <==> |t.versions| > 0 && forall v :: v in t.versions ==> v.active != 1
    ensures Classify(t).SeveralActive? <==>
      |t.versions| > 0 &&
      exists i, j :: 0 <= i < j < |t.versions| && t.versions[i].active == 1 && t.versions[j].active == 1
    ensures Classify(t).OneActive? ==>
      var v := Classify(t).version;
      v in t.versions && v.active == 1 && forall w :: w in t.versions && w.active == 1 ==> w == v
  {
    var active := ActiveVersions(t.versions);
    ActiveVersionsMembers(t.versions);
    TwoActive(t.versions);
    if |active| == 1 {
      assert active[0] in active;
      assert forall w :: w in active ==> w == active[0];
    }
  }

  /** Templates with exactly one active version, in their order. */
  function Qualifying(ts: seq<RemoteTemplate>): (r: seq<RemoteTemplate>)
    ensures |r| <= |ts|
  {
    if ts == [] then []
    else
      var last := ts[|ts| - 1];
      Qualifying(ts[..|ts| - 1]) + (if Classify(last).OneActive? then [last] else [])
  }

  /** The qualifying templates are exactly those with a single active version. */
  lemma {:induction false} QualifyingMembers(ts: seq<RemoteTemplate>)
    ensures forall t :: t in Qualifying(ts) <==> t in ts && Classify(t).OneActive?
  {
    if ts != [] {
      var n := |ts| - 1;
      QualifyingMembers(ts[..n]);
      assert ts == ts[..n] + [ts[n]];
    }
  }

  /** The full record of the active version of a qualifying template. */
  function Resolve(t: RemoteTemplate, fetch: Fetch): TemplateVersion
    requires Classify(t).OneActive?
  {
    fetch(t.id, Classify(t).version.id)
  }

  /** The full records of the active versions, one per qualifying template, in input order. */
  function ResolveActive(ts: seq<RemoteTemplate>, fetch: Fetch): (r: seq<TemplateVersion>)
    ensures |r| == |Qualifying(ts)| <= |ts|
  {
    var q := Qualifying(ts);
    QualifyingMembers(ts);
    assert forall i :: 0 <= i < |q| ==> q[i] in q;
    seq(|q|, i requires 0 <= i < |q| => Resolve(q[i], fetch))
  }

  /** One more template adds its resolved version exactly when it qualifies. */
  lemma ResolveActiveSnoc(ts: seq<RemoteTemplate>, t: RemoteTemplate, fetch: Fetch)
    ensures ResolveActive(ts + [t], fetch) ==
      ResolveActive(ts, fetch) + (if Classify(t).OneActive? then [Resolve(t, fetch)] else [])
  {
    assert (ts + [t])[..|ts|] == ts;
    var q := Qualifying(ts);
    assert Qualifying(ts + [t]) == q + (if Classify(t).OneActive? then [t] else []);
  }

  /** Resolves every template with exactly one active version, skipping the others. */
  method ListVersionRemoteActive(templates: seq<RemoteTemplate>, fetch: Fetch) returns (found: seq<TemplateVersion>)
    ensures found == ResolveActive(templates, fetch)
    ensures |found| <= |templates|
  {
    found := [];
    for i := 0 to |templates|
      invariant found == ResolveActive(templates[..i], fetch)
    {
      var t := templates[i];
      assert templates[..i + 1] == templates[..i] + [t];
      ResolveActiveSnoc(templates[..i], t, fetch);
      if |t.versions| != 0 {
        var active := ActiveVersions(t.versions);
        if |active| == 1 {
          var long := fetch(t.id, active[0].id);
          found := found + [long];
        }
      }
    }
    assert templates[..|templates|] == templates;
  }

  // ---------------------------------------------------------------- sync

  datatype SyncOutcome =
    | NoVersions                    // nothing reported
    | NoActiveVersion
    | MultipleActiveVersions
    | MissingContent                // the fetched version lacks its plain or html content
    | DownloadedNew
    | SameTemplate
    | BodiesDiffer(plainBodyDiff: bool, htmlBodyDiff: bool)  // pending file written
    | ReadError(error: TemplateError)

  datatype SyncStep = SyncStep(outcome: SyncOutcome, files: map<string, string>)

  /** The template built from a fetched version, when both bodies are present. */
  function Candidate(long: TemplateVersion): (c: Option<Template>)
    ensures c.Some? <==> long.plainContent.Some? && long.htmlContent.Some?
    ensures c.Some? ==>
      c.value.name == long.name &&
      Some(c.value.plainBody) == long.plainContent && Some(c.value.htmlBody) == long.htmlContent
  {
    if long.plainContent.Some? && long.htmlContent.Some?
    then Some(Template(long.name, long.plainContent.value, long.htmlContent.value))
    else None
  }

  /**
   * The sync's equality test and the check's content match agree: a local template
   * of the version's name equals the candidate exactly when both contents are
   * present and match its bodies.
   */
  lemma CandidateMatch(local: Template, long: TemplateVersion)
    requires local.name == long.name
    ensures Candidate(long) == Some(local) <==>
      long.plainContent.Some? && long.htmlContent.Some? && ContentMatch(local, long)
  {
  }

  /** The candidate a remote template offers, when it has one active version with content. */
  function Offered(t: RemoteTemplate, fetch: Fetch): Option<Template> {
    if Classify(t).OneActive? then Candidate(Resolve(t, fetch)) else None
  }

  /** Reading a template file: absent when the file is missing, else the parse of its contents. */
  function ReadTemplate(files: map<string, string>, path: string): (r: Option<Result<Template>>)
    ensures r.None? <==> path !in files
    ensures r.Some? ==> r.value == Decode(files[path])
  {
    if path in files then Some(Decode(files[path])) else None
  }

  /** An `Encodable` template written to a path reads back from it; a missing file reads as nothing. */
  lemma WrittenFileReads(files: map<string, string>, path: string, t: Template)
    requires Encodable(t)
    ensures ReadTemplate(files[path := Encode(t)], path) == Some(Ok(t))
    ensures path !in files ==> ReadTemplate(files, path) == None
  {
    RoundTrip(t);
  }

  /**
   * What one sync step reports for remote template `t`, given what reading its
   * local file gave: the activity checks first, then the content check, then the
   * comparison with the local file.
   */
  function SyncDecision(t: RemoteTemplate, fetch: Fetch, read: Option<Result<Template>>): (o: SyncOutcome)
    ensures o.DownloadedNew? ==> read.None? && Offered(t, fetch).Some?
    ensures o.BodiesDiffer? ==> Offered(t, fetch).Some?
  {
    match Classify(t)
    case Unversioned => NoVersions
    case NoneActive => NoActiveVersion
    case SeveralActive => MultipleActiveVersions
    case OneActive(active) =>
      match Candidate(fetch(t.id, active.id))
      case None => MissingContent
      case Some(template) =>
        match read
        case None => DownloadedNew
        case Some(Err(e)) => ReadError(e)
        case Some(Ok(local)) =>
          if local == template then SameTemplate
          else BodiesDiffer(local.plainBody != template.plainBody, local.htmlBody != template.htmlBody)
  }

  /**
   * One sync step for remote template `t` over directory `files`: a download writes
   * the template's file, a difference writes its pending file, nothing else writes.
   * An original file that reads as text is never overwritten: the only existing
   * file a step may change is the pending file, and the only new files are the
   * template's file and its pending file.
   */
  function SyncTemplate(files: map<string, string>, t: RemoteTemplate, fetch: Fetch): (r: SyncStep)
    ensures forall f :: f in files ==> f in r.files && (f != PendingFileName(t.id) ==> r.files[f] == files[f])
    ensures forall f :: f in r.files && f !in files ==> f == FileName(t.id) || f == PendingFileName(t.id)
    ensures !(r.outcome.DownloadedNew? || r.outcome.BodiesDiffer?) ==> r.files == files
  {
    var outcome := SyncDecision(t, fetch, ReadTemplate(files, FileName(t.id)));
    FileNamesDistinct(t.id, t.id);
    var written :=
      if outcome.DownloadedNew? then files[FileName(t.id) := Encode(Offered(t, fetch).value)]
      else if outcome.BodiesDiffer? then files[PendingFileName(t.id) := Encode(Offered(t, fetch).value)]
      else files;
    SyncStep(outcome, written)
  }

  /** The outcomes that write nothing, each exactly when the source reports it. */
  lemma SyncSkips(files: map<string, string>, t: RemoteTemplate, fetch: Fetch)
    ensures var r := SyncTemplate(files, t, fetch);
      (r.outcome.NoVersions? <==> |t.versions| == 0) &&
      (r.outcome.NoActiveVersion? <==> Classify(t).NoneActive?) &&
      (r.outcome.MultipleActiveVersions? <==> Classify(t).SeveralActive?) &&
      (r.outcome.MissingContent? <==> Classify(t).OneActive? && Offered(t, fetch).None?)
  {
  }

  /** Without a single active version, the outcome does not depend on the directory. */
  lemma SyncOutcomeUnsynced(f1: map<string, string>, f2: map<string, string>, t: RemoteTemplate, fetch: Fetch)
    requires !Classify(t).OneActive?
    ensures SyncTemplate(f1, t, fetch).outcome == SyncTemplate(f2, t, fetch).outcome
  {
  }

  /** The outcomes of a template offering content, decided by reading its own file. */
  lemma SyncOffered(files: map<string, string>, t: RemoteTemplate, fetch: Fetch)
    requires Offered(t, fetch).Some?
    ensures var r, remote, read := SyncTemplate(files, t, fetch), Offered(t, fetch).value, ReadTemplate(files, FileName(t.id));
      (r.outcome.DownloadedNew? <==> read.None?) &&
      (r.outcome.DownloadedNew? ==> r.files == files[FileName(t.id) := Encode(remote)]) &&
      (r.outcome.SameTemplate? <==> read == Some(Ok(remote))) &&
      (r.outcome.ReadError? <==> read.Some? && read.value.Err?) &&
      (r.outcome.ReadError? ==> read == Some(Err(r.outcome.error))) &&
      (r.outcome.BodiesDiffer? <==> read.Some? && read.value.Ok? && read.value.value != remote) &&
      (r.outcome.BodiesDiffer? ==>
        r.outcome.plainBodyDiff == (read.value.value.plainBody != remote.plainBody) &&
        r.outcome.htmlBodyDiff == (read.value.value.htmlBody != remote.htmlBody) &&
        r.files == files[PendingFileName(t.id) := Encode(remote)])
  {
  }

  /** A newly downloaded file reads back as the template, when it is `Encodable`. */
  lemma SyncNewFileReadsBack(files: map<string, string>, t: RemoteTemplate, fetch: Fetch)
    requires SyncTemplate(files, t, fetch).outcome.DownloadedNew?
    requires Encodable(Offered(t, fetch).value)
    ensures ReadTemplate(SyncTemplate(files, t, fetch).files, FileName(t.id)) == Some(Ok(Offered(t, fetch).value))
  {
    var c := Offered(t, fetch).value;
    SyncOffered(files, t, fetch);
    assert SyncTemplate(files, t, fetch).files[FileName(t.id)] == Encode(c);
    RoundTrip(c);
  }

  /**
   * When the local file differs, it is left as it was and the pending file reads
   * back as the remote template, when it is `Encodable`.
   */
  lemma SyncPendingReadsBack(files: map<string, string>, t: RemoteTemplate, fetch: Fetch)
    requires SyncTemplate(files, t, fetch).outcome.BodiesDiffer?
    requires Encodable(Offered(t, fetch).value)
    ensures var r := SyncTemplate(files, t, fetch);
      FileName(t.id) in files && FileName(t.id) in r.files &&
      r.files[FileName(t.id)] == files[FileName(t.id)] &&
      ReadTemplate(r.files, PendingFileName(t.id)) == Some(Ok(Offered(t, fetch).value))
  {
    var c := Offered(t, fetch).value;
    SyncOffered(files, t, fetch);
    FileNamesDistinct(t.id, t.id);
    assert SyncTemplate(files, t, fetch).files[PendingFileName(t.id)] == Encode(c);
    RoundTrip(c);
  }

  /** After a download or a match, syncing again reports the same template and writes nothing. */
  lemma SyncTwice(files: map<string, string>, t: RemoteTemplate, fetch: Fetch)
    requires SyncTemplate(files, t, fetch).outcome == DownloadedNew || SyncTemplate(files, t, fetch).outcome == SameTemplate
    requires Encodable(Offered(t, fetch).value)
    ensures var again := SyncTemplate(SyncTemplate(files, t, fetch).files, t, fetch);
      again.outcome == SameTemplate && again.files == SyncTemplate(files, t, fetch).files
  {
    var c := Offered(t, fetch).value;
    var r := SyncTemplate(files, t, fetch);
    SyncOffered(files, t, fetch);
    if r.outcome == DownloadedNew {
      SyncNewFileReadsBack(files, t, fetch);
    }
    assert ReadTemplate(r.files, FileName(t.id)) == Some(Ok(c));
    SyncOffered(r.files, t, fetch);
  }

  /**
   * A remote plain body ending in '\n' is written without a second '\n', so the
   * file reads back without it: the next sync reports a plain-body difference,
   * writes a pending file and leaves the template's file as downloaded, so (by
   * `SyncOutcomeLocal`) every later sync reports the same difference.
   */
  lemma TrailingNewlineDiverges(files: map<string, string>, t: RemoteTemplate, fetch: Fetch, p: string)
    requires SyncTemplate(files, t, fetch).outcome.DownloadedNew?
    requires Offered(t, fetch).value.plainBody == p + "\n"
    requires Encodable(Offered(t, fetch).value.(plainBody := p))
    ensures var again := SyncTemplate(SyncTemplate(files, t, fetch).files, t, fetch);
      again.outcome == BodiesDiffer(true, false) &&
      FileName(t.id) in again.files &&
      again.files[FileName(t.id)] == SyncTemplate(files, t, fetch).files[FileName(t.id)]
  {
    var c := Offered(t, fetch).value;
    var c' := c.(plainBody := p);
    var r := SyncTemplate(files, t, fetch);
    SyncOffered(files, t, fetch);
    EncodeNewlineIdempotent(c, p);
    assert c.(plainBody := p + "\n") == c;
    assert r.files[FileName(t.id)] == Encode(c');
    RoundTrip(c');
    assert ReadTemplate(r.files, FileName(t.id)) == Some(Ok(c'));
    assert p != p + "\n" by {
      assert |p + "\n"| == |p| + 1;
    }
    SyncOffered(r.files, t, fetch);
    FileNamesDistinct(t.id, t.id);
  }

  /** Path `p` is missing from both directories or holds the same contents in both. */
  predicate SameFile(f1: map<string, string>, f2: map<string, string>, p: string) {
    (p in f1 <==> p in f2) && (p in f1 ==> f1[p] == f2[p])
  }

  /** A sync step's outcome depends only on the template's own file. */
  lemma SyncOutcomeLocal(f1: map<string, string>, f2: map<string, string>, t: RemoteTemplate, fetch: Fetch)
    requires SameFile(f1, f2, FileName(t.id))
    ensures SyncTemplate(f1, t, fetch).outcome == SyncTemplate(f2, t, fetch).outcome
  {
    assert ReadTemplate(f1, FileName(t.id)) == ReadTemplate(f2, FileName(t.id));
  }

  /** Every file of `files` is still in `cur`, with its contents unless it is a pending file. */
  predicate Kept(files: map<string, string>, cur: map<string, string>) {
    forall f :: f in files ==> f in cur && (Extension(f) != Some("tmp") ==> cur[f] == files[f])
  }

  lemma StepKeeps(files: map<string, string>, cur: map<string, string>, t: RemoteTemplate, fetch: Fetch)
    requires Kept(files, cur)
    ensures Kept(files, SyncTemplate(cur, t, fetch).files)
  {
    FileNameExtensions(t.id);
  }

  predicate DistinctIds(ts: seq<RemoteTemplate>) {
    forall i, j :: 0 <= i < j < |ts| ==> ts[i].id != ts[j].id
  }

  /** The files of templates `from` onwards are as in the original directory. */
  predicate Untouched(files: map<string, string>, cur: map<string, string>, ts: seq<RemoteTemplate>, from: nat) {
    forall j :: from <= j < |ts| ==> SameFile(files, cur, FileName(ts[j].id))
  }

  /** A step for one template leaves the files of the later templates alone when ids are distinct. */
  lemma StepUntouched(files: map<string, string>, cur: map<string, string>, ts: seq<RemoteTemplate>, i: nat, fetch: Fetch)
    requires i < |ts| && DistinctIds(ts) && Untouched(files, cur, ts, i)
    ensures Untouched(files, SyncTemplate(cur, ts[i], fetch).files, ts, i + 1)
  {
    forall j | i < j < |ts|
      ensures FileName(ts[j].id) != FileName(ts[i].id)
      ensures FileName(ts[j].id) != PendingFileName(ts[i].id)
    {
      FileNamesDistinct(ts[j].id, ts[i].id);
    }
  }

  datatype SyncBatch = SyncBatch(outcomes: seq<SyncOutcome>, files: map<string, string>)

  /** The batch sync: each template's step runs on the directory the earlier steps left. */
  function SyncAll(files: map<string, string>, ts: seq<RemoteTemplate>, fetch: Fetch): (b: SyncBatch)
    ensures |b.outcomes| == |ts|
  {
    if ts == [] then SyncBatch([], files)
    else
      var prev := SyncAll(files, ts[..|ts| - 1], fetch);
      var step := SyncTemplate(prev.files, ts[|ts| - 1], fetch);
      SyncBatch(prev.outcomes + [step.outcome], step.files)
  }

  /** The batch over the first `i + 1` templates is one more step after the first `i`. */
  lemma SyncAllPrefix(files: map<string, string>, ts: seq<RemoteTemplate>, fetch: Fetch, i: nat)
    requires i < |ts|
    ensures var prev := SyncAll(files, ts[..i], fetch);
      var step := SyncTemplate(prev.files, ts[i], fetch);
      SyncAll(files, ts[..i + 1], fetch) == SyncBatch(prev.outcomes + [step.outcome], step.files)
  {
    assert ts[..i + 1][..i] == ts[..i];
  }

  /** Outcome `i` is the step of template `i` on the directory the first `i` steps left. */
  lemma {:induction false} SyncAllOutcome(files: map<string, string>, ts: seq<RemoteTemplate>, fetch: Fetch, i: nat)
    requires i < |ts|
    ensures SyncAll(files, ts, fetch).outcomes[i] ==
      SyncTemplate(SyncAll(files, ts[..i], fetch).files, ts[i], fetch).outcome
  {
    var n := |ts| - 1;
    var init := ts[..n];
    var prev := SyncAll(files, init, fetch);
    var last := SyncTemplate(prev.files, ts[n], fetch).outcome;
    assert SyncAll(files, ts, fetch).outcomes == prev.outcomes + [last];
    if i < n {
      SyncAllOutcome(files, init, fetch, i);
      assert init[..i] == ts[..i] && init[i] == ts[i];
      assert SyncAll(files, ts, fetch).outcomes[i] == prev.outcomes[i];
    } else {
      assert init == ts[..i];
      assert SyncAll(files, ts, fetch).outcomes[i] == last;
    }
  }

  /** No step of the batch changes a file other than a pending file. */
  lemma {:induction false} SyncAllKept(files: map<string, string>, ts: seq<RemoteTemplate>, fetch: Fetch)
    ensures Kept(files, SyncAll(files, ts, fetch).files)
  {
    if ts != [] {
      var init := ts[..|ts| - 1];
      SyncAllKept(files, init, fetch);
      StepKeeps(files, SyncAll(files, init, fetch).files, ts[|ts| - 1], fetch);
    }
  }

  /** Every file the batch creates is the file or the pending file of one of its templates. */
  lemma {:induction false} SyncAllNewKeys(files: map<string, string>, ts: seq<RemoteTemplate>, fetch: Fetch)
    ensures forall f :: f in SyncAll(files, ts, fetch).files && f !in files ==>
      exists j :: 0 <= j < |ts| && (f == FileName(ts[j].id) || f == PendingFileName(ts[j].id))
  {
    if ts != [] {
      var n := |ts| - 1;
      var init := ts[..n];
      var prev := SyncAll(files, init, fetch).files;
      SyncAllNewKeys(files, init, fetch);
      forall f | f in SyncAll(files, ts, fetch).files && f !in files
        ensures exists j :: 0 <= j < |ts| && (f == FileName(ts[j].id) || f == PendingFileName(ts[j].id))
      {
        if f in prev {
          var j :| 0 <= j < n && (f == FileName(init[j].id) || f == PendingFileName(init[j].id));
          assert init[j] == ts[j];
        } else {
          assert f == FileName(ts[n].id) || f == PendingFileName(ts[n].id);
        }
      }
    }
  }

  /** With distinct ids, the first `k` steps leave the files of the later templates alone. */
  lemma {:induction false} SyncAllUntouched(files: map<string, string>, ts: seq<RemoteTemplate>, fetch: Fetch, k: nat)
    requires k <= |ts| && DistinctIds(ts)
    ensures Untouched(files, SyncAll(files, ts[..k], fetch).files, ts, k)
  {
    if k > 0 {
      SyncAllUntouched(files, ts, fetch, k - 1);
      SyncAllPrefix(files, ts, fetch, k - 1);
      StepUntouched(files, SyncAll(files, ts[..k - 1], fetch).files, ts, k - 1, fetch);
    }
  }

  /**
   * Each outcome is the one its template gets on the original directory alone when
   * it has no single active version, and always when the ids are distinct.
   */
  lemma SyncAllAlone(files: map<string, string>, ts: seq<RemoteTemplate>, fetch: Fetch, i: nat)
    requires i < |ts|
    ensures !Classify(ts[i]).OneActive? ==>
      SyncAll(files, ts, fetch).outcomes[i] == SyncTemplate(files, ts[i], fetch).outcome
    ensures DistinctIds(ts) ==>
      SyncAll(files, ts, fetch).outcomes[i] == SyncTemplate(files, ts[i], fetch).outcome
  {
    var cur := SyncAll(files, ts[..i], fetch).files;
    SyncAllOutcome(files, ts, fetch, i);
    if !Classify(ts[i]).OneActive? {
      SyncOutcomeUnsynced(cur, files, ts[i], fetch);
    }
    if DistinctIds(ts) {
      SyncAllUntouched(files, ts, fetch, i);
      SyncOutcomeLocal(files, cur, ts[i], fetch);
    }
  }

  /**
   * A file present after the first `k` steps keeps its contents to the end, unless
   * it is the pending file of a later template.
   */
  lemma {:induction false} KeptAfter(files: map<string, string>, ts: seq<RemoteTemplate>, fetch: Fetch, k: nat, f: string)
    requires k <= |ts| && f in SyncAll(files, ts[..k], fetch).files
    requires forall j :: k <= j < |ts| ==> f != PendingFileName(ts[j].id)
    ensures f in SyncAll(files, ts, fetch).files
    ensures SyncAll(files, ts, fetch).files[f] == SyncAll(files, ts[..k], fetch).files[f]
    decreases |ts| - k
  {
    if k == |ts| {
      assert ts[..k] == ts;
    } else {
      SyncAllPrefix(files, ts, fetch, k);
      KeptAfter(files, ts, fetch, k + 1, f);
    }
  }

  /**
   * What the batch leaves on disk: a download leaves the template at its file, and
   * a difference leaves it at its pending file unless a later template shares that
   * pending file.
   */
  lemma SyncAllWrites(files: map<string, string>, ts: seq<RemoteTemplate>, fetch: Fetch, i: nat)
    requires i < |ts|
    ensures var b := SyncAll(files, ts, fetch);
      b.outcomes[i].DownloadedNew? ==>
        Offered(ts[i], fetch).Some? &&
        FileName(ts[i].id) in b.files && b.files[FileName(ts[i].id)] == Encode(Offered(ts[i], fetch).value)
    ensures var b := SyncAll(files, ts, fetch);
      b.outcomes[i].BodiesDiffer? && (forall j :: i < j < |ts| ==> PendingFileName(ts[j].id) != PendingFileName(ts[i].id)) ==>
        Offered(ts[i], fetch).Some? &&
        PendingFileName(ts[i].id) in b.files && b.files[PendingFileName(ts[i].id)] == Encode(Offered(ts[i], fetch).value)
  {
    var o := SyncAll(files, ts, fetch).outcomes[i];
    var cur := SyncAll(files, ts[..i], fetch).files;
    SyncAllOutcome(files, ts, fetch, i);
    SyncAllPrefix(files, ts, fetch, i);
    if o.DownloadedNew? || o.BodiesDiffer? {
      SyncOffered(cur, ts[i], fetch);
    }
    if o.DownloadedNew? {
      forall j | i + 1 <= j < |ts|
        ensures FileName(ts[i].id) != PendingFileName(ts[j].id)
      {
        FileNamesDistinct(ts[i].id, ts[j].id);
      }
      KeptAfter(files, ts, fetch, i + 1, FileName(ts[i].id));
    }
    if o.BodiesDiffer? && (forall j :: i < j < |ts| ==> PendingFileName(ts[j].id) != PendingFileName(ts[i].id)) {
      KeptAfter(files, ts, fetch, i + 1, PendingFileName(ts[i].id));
    }
  }

  /**
   * Syncs every remote template in turn. Every template yields an outcome, one bad
   * template stopping none of the others; no file other than a pending (`.tmp`)
   * file is ever changed; and when the ids are distinct, each outcome is the one
   * the template would get on the original directory alone, so the order (or
   * concurrency) of the steps does not matter.
   */
  method SyncToDirectory(files: map<string, string>, templates: seq<RemoteTemplate>, fetch: Fetch)
    returns (outcomes: seq<SyncOutcome>, files': map<string, string>)
    ensures SyncBatch(outcomes, files') == SyncAll(files, templates, fetch)
    ensures |outcomes| == |templates|
    ensures Kept(files, files')
    ensures forall i :: 0 <= i < |templates| && !Classify(templates[i]).OneActive? ==>
      outcomes[i] == SyncTemplate(files, templates[i], fetch).outcome
    ensures DistinctIds(templates) ==> forall i :: 0 <= i < |templates| ==>
      outcomes[i] == SyncTemplate(files, templates[i], fetch).outcome
  {
    outcomes := [];
    files' := files;
    for i := 0 to |templates|
      invariant SyncBatch(outcomes, files') == SyncAll(files, templates[..i], fetch)
    {
      var step := SyncTemplate(files', templates[i], fetch);
      SyncAllPrefix(files, templates, fetch, i);
      outcomes := outcomes + [step.outcome];
      files' := step.files;
    }
    assert templates[..|templates|] == templates;
    SyncAllKept(files, templates, fetch);
    forall i | 0 <= i < |templates|
      ensures !Classify(templates[i]).OneActive? ==> outcomes[i] == SyncTemplate(files, templates[i], fetch).outcome
      ensures DistinctIds(templates) ==> outcomes[i] == SyncTemplate(files, templates[i], fetch).outcome
    {
      SyncAllAlone(files, templates, fetch, i);
    }
  }

  // ---------------------------------------------------------------- check

  datatype CheckResult = NoRemote | Found(remoteTemplateId: string, contentMatch: bool)
  datatype CheckLine = CheckLine(name: string, result: CheckResult)

  /** Counts reported and one line per local template; no remote count when the listing was skipped. */
  datatype CheckReport = CheckReport(localCount: nat, remoteCount: Option<nat>, lines: seq<CheckLine>)

  /** Position of the first version named `name`, if any. */
  function FindByName(vs: seq<TemplateVersion>, name: string): (r: Option<nat>)
    ensures r.Some? ==>
      r.value < |vs| && vs[r.value].name == name &&
      forall j :: 0 <= j < r.value ==> vs[j].name != name
    ensures r.None? ==> forall j :: 0 <= j < |vs| ==> vs[j].name != name
  {
    if vs == [] then None
    else if vs[0].name == name then Some(0)
    else
      match FindByName(vs[1..], name)
      case None => None
      case Some(i) => Some(i + 1)
  }

  /**
   * Both bodies equal the remote content, an absent remote field counting as the
   * empty text.
   */
  function ContentMatch(local: Template, remote: TemplateVersion): (b: bool)
    ensures b <==>
      (remote.htmlContent == Some(local.htmlBody) || (remote.htmlContent.None? && local.htmlBody == "")) &&
      (remote.plainContent == Some(local.plainBody) || (remote.plainContent.None? && local.plainBody == ""))
  {
    local.htmlBody == remote.htmlContent.GetOr("") && local.plainBody == remote.plainContent.GetOr("")
  }

  /** Looks a local template up among the resolved remote versions by name. */
  function CheckOne(local: Template, resolved: seq<TemplateVersion>): (r: CheckResult)
    ensures r.NoRemote? <==> forall v :: v in resolved ==> v.name != local.name
    ensures r.Found? ==>
      exists i ::
        0 <= i < |resolved| && resolved[i].name == local.name &&
        (forall j :: 0 <= j < i ==> resolved[j].name != local.name) &&
        r == Found(resolved[i].templateId, ContentMatch(local, resolved[i]))
  {
    match FindByName(resolved, local.name)
    case None => NoRemote
    case Some(i) => assert resolved[i] in resolved; Found(resolved[i].templateId, ContentMatch(local, resolved[i]))
  }

  /**
   * One line per local template, each name once, in no particular order, each
   * looked up among the resolved remote versions.
   */
  method ReportLines(local: map<string, Template>, resolved: seq<TemplateVersion>) returns (lines: seq<CheckLine>)
    ensures |lines| == |local|
    ensures forall i :: 0 <= i < |lines| ==>
      lines[i].name in local && lines[i].result == CheckOne(local[lines[i].name], resolved)
    ensures forall i, j :: 0 <= i < j < |lines| ==> lines[i].name != lines[j].name
    ensures forall k :: k in local ==> exists i :: 0 <= i < |lines| && lines[i].name == k
  {
    lines := [];
    var remaining := local.Keys;
    while remaining != {}
      invariant remaining <= local.Keys
      invariant |lines| + |remaining| == |local|
      invariant forall i :: 0 <= i < |lines| ==>
        lines[i].name in local && lines[i].name !in remaining &&
        lines[i].result == CheckOne(local[lines[i].name], resolved)
      invariant forall i, j :: 0 <= i < j < |lines| ==> lines[i].name != lines[j].name
      invariant forall k :: k in local && k !in remaining ==> exists i :: 0 <= i < |lines| && lines[i].name == k
      decreases |remaining|
    {
      var k :| k in remaining;
      ghost var prev := lines;
      lines := lines + [CheckLine(k, CheckOne(local[k], resolved))];
      remaining := remaining - {k};
      forall k' | k' in local && k' !in remaining
        ensures exists i :: 0 <= i < |lines| && lines[i].name == k'
      {
        if k' == k {
          assert lines[|lines| - 1].name == k;
        } else {
          var i :| 0 <= i < |prev| && prev[i].name == k';
          assert lines[i] == prev[i];
        }
      }
    }
  }

  /**
   * The check: reads the local set, stops when it is empty (before the remote
   * listing is used), and otherwise reports each local template once against the
   * resolved active versions. It writes nothing.
   */
  method CheckAgainstLocal(listing: Listing, remotes: seq<RemoteTemplate>, fetch: Fetch)
    returns (report: CheckReport)
    ensures var local := LocalSet(listing);
      report.localCount == |local| &&
      (|local| == 0 ==> report.remoteCount == None && report.lines == []) &&
      (|local| > 0 ==>
        report.remoteCount == Some(|remotes|) &&
        |report.lines| == |local| &&
        (forall i :: 0 <= i < |report.lines| ==>
          report.lines[i].name in local &&
          report.lines[i].result == CheckOne(local[report.lines[i].name], ResolveActive(remotes, fetch))) &&
        (forall i, j :: 0 <= i < j < |report.lines| ==> report.lines[i].name != report.lines[j].name) &&
        (forall k :: k in local ==> exists i :: 0 <= i < |report.lines| && report.lines[i].name == k))
  {
    var local := ReadAllTemplates(listing);
    if |local| == 0 {
      return CheckReport(0, None, []);
    }
    var resolved := ListVersionRemoteActive(remotes, fetch);
    var lines := ReportLines(local, resolved);
    return CheckReport(|local|, Some(|remotes|), lines);
  }
}
