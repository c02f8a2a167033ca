/** The content registry: documents and their versions, under create, save, archive, restore and
    inventory sync. */
module ContentLedger {
  import opened Text

  datatype VersionState = Published | Archived | Restored | Imported

  /** A row of content_document_versions. */
  datatype Version = Version(id: string, contentId: string, number: nat, state: VersionState, text: string, sha: string)

  /** A row of content_documents. */
  datatype Document = Document(contentId: string, path: string, current: string, sha: string, archived: bool)

  /** The two tables, rows in insertion order. */
  datatype Registry = Registry(versions: seq<Version>, documents: seq<Document>)

  /** A file found by the inventory. */
  datatype Item = Item(classKey: string, path: string, text: string, sha: string)

  type Hash = string -> string

  function ContentId(classKey: string, path: string): string {
    classKey + ":" + path
  }

  function VersionId(contentId: string, number: nat): string {
    contentId + ":" + ("v" + Decimal(number))
  }

  lemma VersionIdsDiffer(c: string, n: nat, c': string, n': nat)
    requires VersionId(c, n) == VersionId(c', n')
    ensures c == c' && n == n'
  {
    DecimalHasDigits(n);
    DecimalHasDigits(n');
    LastColon(c, "v" + Decimal(n), c', "v" + Decimal(n'));
    assert Decimal(n) == ("v" + Decimal(n))[1..] && Decimal(n') == ("v" + Decimal(n'))[1..];
    DecimalIsInjective(n, n');
  }

  // ---------------------------------------------------------------- queries

  /** The versions of a document, in insertion order. */
  function VersionsOf(vs: seq<Version>, contentId: string): seq<Version> {
    if vs == [] then []
    else
      var last := vs[|vs| - 1];
      VersionsOf(vs[..|vs| - 1], contentId) + (if last.contentId == contentId then [last] else [])
  }

  /** `ORDER BY version_number DESC LIMIT 1`. */
  function Newest(vs: seq<Version>): Version
    requires vs != []
  {
    if |vs| == 1 then vs[0]
    else
      var m := Newest(vs[..|vs| - 1]);
      if vs[|vs| - 1].number > m.number then vs[|vs| - 1] else m
  }

  function Latest(r: Registry, contentId: string): Option<Version> {
    var vs := VersionsOf(r.versions, contentId);
    if vs == [] then None else Some(Newest(vs))
  }

  function VersionCount(r: Registry, contentId: string): nat {
    |VersionsOf(r.versions, contentId)|
  }

  function CurrentText(r: Registry, contentId: string): string {
    var v := Latest(r, contentId);
    if v.None? then [] else v.value.text
  }

  function ByContentId(ds: seq<Document>, contentId: string): Option<Document> {
    if ds == [] then None else if ds[0].contentId == contentId then Some(ds[0]) else ByContentId(ds[1..], contentId)
  }

  function ByPath(ds: seq<Document>, path: string): Option<Document> {
    if ds == [] then None else if ds[0].path == path then Some(ds[0]) else ByPath(ds[1..], path)
  }

  // ---------------------------------------------------------------- statements

  predicate VersionTaken(vs: seq<Version>, v: Version) {
    exists i :: 0 <= i < |vs| && (vs[i].id == v.id || (vs[i].contentId == v.contentId && vs[i].number == v.number))
  }

  /** INSERT INTO content_document_versions: a taken id, or a taken number of the document, raises. */
  function InsertVersion(vs: seq<Version>, v: Version): Option<seq<Version>> {
    if VersionTaken(vs, v) then None else Some(vs + [v])
  }

  function OverwriteVersion(vs: seq<Version>, v: Version): seq<Version> {
    if vs == [] then []
    else
      (if vs[0].id == v.id then [vs[0].(state := v.state, text := v.text, sha := v.sha)] else [vs[0]])
      + OverwriteVersion(vs[1..], v)
  }

  predicate VersionIdTaken(vs: seq<Version>, id: string) {
    exists i :: 0 <= i < |vs| && vs[i].id == id
  }

  /** The same with ON CONFLICT(version_id) DO UPDATE: a row with the id would be overwritten. */
  function UpsertVersion(vs: seq<Version>, v: Version): Option<seq<Version>> {
    if VersionIdTaken(vs, v.id) then Some(OverwriteVersion(vs, v)) else InsertVersion(vs, v)
  }

  /** UPDATE content_documents ... WHERE content_id = ?. */
  function UpdateDocument(ds: seq<Document>, contentId: string, current: string, sha: Option<string>,
                          archived: bool): seq<Document> {
    if ds == [] then []
    else
      var d := ds[0];
      var sha' := if sha.Some? then sha.value else d.sha;
      (if d.contentId == contentId then [d.(current := current, sha := sha', archived := archived)] else [d])
      + UpdateDocument(ds[1..], contentId, current, sha, archived)
  }

  /** INSERT INTO content_documents: a taken content id or path raises. */
  function InsertDocument(ds: seq<Document>, d: Document): Option<seq<Document>> {
    if ByContentId(ds, d.contentId).Some? || ByPath(ds, d.path).Some? then None else Some(ds + [d])
  }

  function OverwritePath(ds: seq<Document>, d: Document): seq<Document> {
    if ds == [] then []
    else
      (if ds[0].path == d.path then [ds[0].(current := d.current, sha := d.sha, archived := d.archived)] else [ds[0]])
      + OverwritePath(ds[1..], d)
  }

  /** The same with ON CONFLICT(file_path) DO UPDATE, which keeps the content id of the row. */
  function UpsertDocument(ds: seq<Document>, d: Document): Option<seq<Document>> {
    if ByPath(ds, d.path).Some? then Some(OverwritePath(ds, d)) else InsertDocument(ds, d)
  }

  // ---------------------------------------------------------------- operations

  /** None where the operation raises; the caller's transaction is then rolled back. */
  function Create(r: Registry, h: Hash, classes: set<string>, classKey: string, path: string,
                  text: string): Option<Registry> {
    if classKey !in classes || ByPath(r.documents, path).Some? then None
    else
      var id := ContentId(classKey, path);
      var vs := InsertVersion(r.versions, Version(VersionId(id, 1), id, 1, Published, text, h(text)));
      var ds := InsertDocument(r.documents, Document(id, path, VersionId(id, 1), h(text), false));
      if vs.None? || ds.None? then None else Some(Registry(vs.value, ds.value))
  }

  /** A new version numbered by counting, and the document pointed at it. */
  function Append(r: Registry, h: Hash, contentId: string, state: VersionState, text: string,
                  sha: Option<string>): Option<Registry> {
    var n := VersionCount(r, contentId) + 1;
    var vs := InsertVersion(r.versions, Version(VersionId(contentId, n), contentId, n, state, text, h(text)));
    if vs.None? then None
    else
      var ds := UpdateDocument(r.documents, contentId, VersionId(contentId, n), sha, state == Archived);
      Some(Registry(vs.value, ds))
  }

  function Save(r: Registry, h: Hash, contentId: string, text: string): Option<Registry> {
    if ByContentId(r.documents, contentId).None? then None
    else Append(r, h, contentId, Published, text, Some(h(text)))
  }

  function Archive(r: Registry, h: Hash, contentId: string): Option<Registry> {
    if ByContentId(r.documents, contentId).None? || CurrentText(r, contentId) == [] then None
    else Append(r, h, contentId, Archived, CurrentText(r, contentId), None)
  }

  function Restore(r: Registry, h: Hash, contentId: string): Option<Registry> {
    if ByContentId(r.documents, contentId).None? || CurrentText(r, contentId) == [] then None
    else Append(r, h, contentId, Restored, CurrentText(r, contentId), None)
  }

  /** One inventory item; a new version is numbered from the highest one. */
  function SyncItem(r: Registry, item: Item): Option<Registry> {
    var id := ContentId(item.classKey, item.path);
    var latest := if ByPath(r.documents, item.path).Some? then Latest(r, id) else None;
    if latest.Some? && latest.value.sha == item.sha then
      var ds := UpsertDocument(r.documents, Document(id, item.path, latest.value.id, item.sha, false));
      if ds.None? then None else Some(r.(documents := ds.value))
    else
      var n := if latest.Some? then latest.value.number + 1 else 1;
      var vs := UpsertVersion(r.versions, Version(VersionId(id, n), id, n, Imported, item.text, item.sha));
      var ds := UpsertDocument(r.documents, Document(id, item.path, VersionId(id, n), item.sha, false));
      if vs.None? || ds.None? then None else Some(Registry(vs.value, ds.value))
  }

  function Sync(r: Registry, items: seq<Item>): Option<Registry>
    decreases |items|
  {
    if items == [] then Some(r)
    else
      var r' := SyncItem(r, items[0]);
      if r'.None? then None else Sync(r'.value, items[1..])
  }

  // ---------------------------------------------------------------- the invariant

  /** Versions 1, 2, ... of document `c`, in order, each with its own id and the hash of its text. */
  predicate Numbered(vs: seq<Version>, c: string, h: Hash) {
    forall i :: 0 <= i < |vs| ==>
      vs[i].contentId == c && vs[i].number == i + 1 && vs[i].id == VersionId(c, i + 1) && vs[i].sha == h(vs[i].text)
  }

  /** The document has versions 1..n without a gap, and shows version n. */
  predicate DocumentOk(vs: seq<Version>, d: Document, h: Hash, classOf: string -> string) {
    var own := VersionsOf(vs, d.contentId);
    && d.contentId == ContentId(classOf(d.path), d.path)
    && own != [] && Numbered(own, d.contentId, h)
    && d.current == own[|own| - 1].id && d.sha == own[|own| - 1].sha
  }

  ghost predicate Inv(r: Registry, h: Hash, classOf: string -> string) {
    && (forall i :: 0 <= i < |r.documents| ==> DocumentOk(r.versions, r.documents[i], h, classOf))
    && (forall i, j :: 0 <= i < j < |r.documents| ==> r.documents[i].path != r.documents[j].path)
    && (forall i :: 0 <= i < |r.versions| ==> HasDocument(r.documents, r.versions[i].contentId))
  }

  predicate HasDocument(ds: seq<Document>, contentId: string) {
    exists i :: 0 <= i < |ds| && ds[i].contentId == contentId
  }

  /** Class keys hold no colon, so a content id determines its path. */
  ghost predicate ClassKeys(classOf: string -> string) {
    forall p :: ':' !in classOf(p)
  }

  lemma ContentIdsDiffer(classOf: string -> string, p: string, p': string)
    requires ClassKeys(classOf) && ContentId(classOf(p), p) == ContentId(classOf(p'), p')
    ensures p == p'
  {
    FirstColon(classOf(p), p, classOf(p'), p');
  }

  lemma {:induction false} NewestIsLast(vs: seq<Version>, c: string, h: Hash)
    requires vs != [] && Numbered(vs, c, h)
    ensures Newest(vs) == vs[|vs| - 1] && Newest(vs).number == |vs|
  {
    if |vs| > 1 {
      NewestIsLast(vs[..|vs| - 1], c, h);
    }
  }

  lemma {:induction false} OwnVersion(vs: seq<Version>, i: nat)
    requires i < |vs|
    ensures vs[i] in VersionsOf(vs, vs[i].contentId)
  {
    if i < |vs| - 1 {
      OwnVersion(vs[..|vs| - 1], i);
    }
  }

  lemma {:induction false} OwnsOnly(vs: seq<Version>, c: string)
    ensures forall i :: 0 <= i < |VersionsOf(vs, c)| ==>
              VersionsOf(vs, c)[i].contentId == c && VersionsOf(vs, c)[i] in vs
  {
    if vs != [] {
      OwnsOnly(vs[..|vs| - 1], c);
    }
  }

  lemma VersionsOfAppend(vs: seq<Version>, v: Version, c: string)
    ensures VersionsOf(vs + [v], c) == VersionsOf(vs, c) + (if v.contentId == c then [v] else [])
  {
    assert (vs + [v])[..|vs|] == vs;
  }

  lemma {:induction false} FoundById(ds: seq<Document>, c: string)
    ensures ByContentId(ds, c).Some? <==> HasDocument(ds, c)
    ensures ByContentId(ds, c).Some? ==> ByContentId(ds, c).value in ds && ByContentId(ds, c).value.contentId == c
  {
    if ds != [] {
      FoundById(ds[1..], c);
      if HasDocument(ds[1..], c) {
        var i :| 0 <= i < |ds[1..]| && ds[1..][i].contentId == c;
        assert ds[i + 1].contentId == c;
      }
      if HasDocument(ds, c) && ds[0].contentId != c {
        var i :| 0 <= i < |ds| && ds[i].contentId == c;
        assert ds[1..][i - 1].contentId == c;
      }
    }
  }

  lemma {:induction false} FoundByPath(ds: seq<Document>, p: string)
    ensures ByPath(ds, p).Some? ==> ByPath(ds, p).value in ds && ByPath(ds, p).value.path == p
    ensures ByPath(ds, p).None? ==> forall i :: 0 <= i < |ds| ==> ds[i].path != p
  {
    if ds != [] && ds[0].path != p {
      FoundByPath(ds[1..], p);
    }
  }

  lemma {:induction false} Updated(ds: seq<Document>, c: string, current: string, sha: Option<string>, archived: bool)
    ensures var ds' := UpdateDocument(ds, c, current, sha, archived);
            |ds'| == |ds| && forall i :: 0 <= i < |ds| ==>
              ds'[i] == if ds[i].contentId != c then ds[i]
                        else ds[i].(current := current, archived := archived,
                                    sha := if sha.Some? then sha.value else ds[i].sha)
  {
    if ds != [] {
      Updated(ds[1..], c, current, sha, archived);
    }
  }

  lemma {:induction false} Overwritten(ds: seq<Document>, d: Document)
    ensures var ds' := OverwritePath(ds, d);
            |ds'| == |ds| && forall i :: 0 <= i < |ds| ==>
              ds'[i] == if ds[i].path != d.path then ds[i]
                        else ds[i].(current := d.current, sha := d.sha, archived := d.archived)
  {
    if ds != [] {
      Overwritten(ds[1..], d);
    }
  }

  /** A row's number and id follow from its place. */
  lemma RowIsNumbered(r: Registry, h: Hash, classOf: string -> string, i: nat)
    requires Inv(r, h, classOf) && i < |r.versions|
    ensures var v := r.versions[i];
            1 <= v.number <= VersionCount(r, v.contentId) && v.id == VersionId(v.contentId, v.number)
  {
    var v := r.versions[i];
    var k :| 0 <= k < |r.documents| && r.documents[k].contentId == v.contentId;
    assert DocumentOk(r.versions, r.documents[k], h, classOf);
    OwnVersion(r.versions, i);
    var own := VersionsOf(r.versions, v.contentId);
    var j :| 0 <= j < |own| && own[j] == v;
  }

  /** The next number of a document, counted or taken from the highest, is free, and so is its id. */
  lemma NextIsFree(r: Registry, h: Hash, classOf: string -> string, v: Version)
    requires Inv(r, h, classOf)
    requires v.number == VersionCount(r, v.contentId) + 1 && v.id == VersionId(v.contentId, v.number)
    ensures !VersionTaken(r.versions, v) && !VersionIdTaken(r.versions, v.id)
  {
    forall i | 0 <= i < |r.versions|
      ensures r.versions[i].id != v.id
      ensures !(r.versions[i].contentId == v.contentId && r.versions[i].number == v.number)
    {
      RowIsNumbered(r, h, classOf, i);
      var w := r.versions[i];
      if w.id == v.id {
        VersionIdsDiffer(w.contentId, w.number, v.contentId, v.number);
      }
    }
  }

  /** Counting and taking the highest number agree. */
  lemma LatestIsCounted(r: Registry, h: Hash, classOf: string -> string, d: Document)
    requires Inv(r, h, classOf) && d in r.documents
    ensures Latest(r, d.contentId).Some?
    ensures Latest(r, d.contentId).value == VersionsOf(r.versions, d.contentId)[VersionCount(r, d.contentId) - 1]
    ensures Latest(r, d.contentId).value.number == VersionCount(r, d.contentId)
  {
    var i :| 0 <= i < |r.documents| && r.documents[i] == d;
    assert DocumentOk(r.versions, r.documents[i], h, classOf);
    NewestIsLast(VersionsOf(r.versions, d.contentId), d.contentId, h);
  }

  /** The row found for a path: its content id, and its latest version, at which it points. */
  lemma FoundRow(r: Registry, h: Hash, classOf: string -> string, path: string, d: Document)
    requires Inv(r, h, classOf) && ByPath(r.documents, path) == Some(d)
    ensures d.path == path && d.contentId == ContentId(classOf(path), path) && HasDocument(r.documents, d.contentId)
    ensures var latest := Latest(r, d.contentId);
            && latest.Some? && latest.value.number == VersionCount(r, d.contentId)
            && d.current == latest.value.id && d.sha == latest.value.sha
  {
    FoundByPath(r.documents, path);
    var k :| 0 <= k < |r.documents| && r.documents[k] == d;
    assert DocumentOk(r.versions, r.documents[k], h, classOf);
    LatestIsCounted(r, h, classOf, d);
  }

  lemma VersionHasDocument(r: Registry, h: Hash, classOf: string -> string, c: string)
    requires Inv(r, h, classOf) && VersionsOf(r.versions, c) != []
    ensures HasDocument(r.documents, c)
  {
    OwnsOnly(r.versions, c);
    var own := VersionsOf(r.versions, c);
    var k :| 0 <= k < |r.versions| && r.versions[k] == own[0];
    assert HasDocument(r.documents, r.versions[k].contentId);
  }

  /** Appending version n+1 of document `c` and pointing its row at it keeps the invariant. */
  lemma PointedAt(r: Registry, r': Registry, h: Hash, classOf: string -> string, v: Version)
    requires Inv(r, h, classOf)
    requires v.number == VersionCount(r, v.contentId) + 1 && v.id == VersionId(v.contentId, v.number)
    requires v.sha == h(v.text)
    requires r'.versions == r.versions + [v]
    requires HasDocument(r.documents, v.contentId) && |r'.documents| == |r.documents|
    requires forall i :: 0 <= i < |r.documents| ==>
      var d, d' := r.documents[i], r'.documents[i];
      && d'.path == d.path && d'.contentId == d.contentId
      && (if d.contentId == v.contentId then d'.current == v.id && d'.sha == v.sha else d' == d)
    ensures Inv(r', h, classOf)
  {
    forall i | 0 <= i < |r'.documents| ensures DocumentOk(r'.versions, r'.documents[i], h, classOf) {
      assert DocumentOk(r.versions, r.documents[i], h, classOf);
      VersionsOfAppend(r.versions, v, r.documents[i].contentId);
    }
    forall c | HasDocument(r.documents, c) ensures HasDocument(r'.documents, c) {
      var i :| 0 <= i < |r.documents| && r.documents[i].contentId == c;
      assert r'.documents[i].contentId == c;
    }
  }

  /** A path without a document has no document under its content id, and no version. */
  lemma NewPathIsNew(r: Registry, h: Hash, classOf: string -> string, path: string)
    requires Inv(r, h, classOf) && ClassKeys(classOf) && ByPath(r.documents, path).None?
    ensures !HasDocument(r.documents, ContentId(classOf(path), path))
    ensures VersionsOf(r.versions, ContentId(classOf(path), path)) == []
  {
    var c := ContentId(classOf(path), path);
    FoundByPath(r.documents, path);
    if HasDocument(r.documents, c) {
      var i :| 0 <= i < |r.documents| && r.documents[i].contentId == c;
      assert DocumentOk(r.versions, r.documents[i], h, classOf);
      ContentIdsDiffer(classOf, r.documents[i].path, path);
    }
    if VersionsOf(r.versions, c) != [] {
      VersionHasDocument(r, h, classOf, c);
    }
  }

  lemma HasDocumentAppend(ds: seq<Document>, d: Document, c: string)
    requires HasDocument(ds, c) || c == d.contentId
    ensures HasDocument(ds + [d], c)
  {
    if c == d.contentId {
      assert (ds + [d])[|ds|].contentId == c;
    } else {
      var i :| 0 <= i < |ds| && ds[i].contentId == c;
      assert (ds + [d])[i].contentId == c;
    }
  }

  lemma OtherDocumentOk(vs: seq<Version>, v: Version, d: Document, h: Hash, classOf: string -> string)
    requires DocumentOk(vs, d, h, classOf) && d.contentId != v.contentId
    ensures DocumentOk(vs + [v], d, h, classOf)
  {
    VersionsOfAppend(vs, v, d.contentId);
    assert VersionsOf(vs, d.contentId) + [] == VersionsOf(vs, d.contentId);
  }

  lemma FirstDocumentOk(vs: seq<Version>, v: Version, d: Document, h: Hash, classOf: string -> string)
    requires VersionsOf(vs, d.contentId) == [] && d.contentId == ContentId(classOf(d.path), d.path) == v.contentId
    requires v.number == 1 && v.id == VersionId(v.contentId, 1) == d.current && v.sha == h(v.text) == d.sha
    ensures DocumentOk(vs + [v], d, h, classOf)
  {
    VersionsOfAppend(vs, v, d.contentId);
    assert [] + [v] == [v];
  }

  /** A first version and its document keep the invariant. */
  lemma FirstVersion(r: Registry, r': Registry, h: Hash, classOf: string -> string, v: Version, d: Document)
    requires Inv(r, h, classOf) && ClassKeys(classOf)
    requires ByPath(r.documents, d.path).None? && d.contentId == ContentId(classOf(d.path), d.path) == v.contentId
    requires v.number == 1 && v.id == VersionId(v.contentId, 1) && v.sha == h(v.text)
    requires d.current == v.id && d.sha == v.sha
    requires r' == Registry(r.versions + [v], r.documents + [d])
    ensures Inv(r', h, classOf) && !HasDocument(r.documents, d.contentId) && VersionCount(r, d.contentId) == 0
  {
    FoundByPath(r.documents, d.path);
    NewPathIsNew(r, h, classOf, d.path);
    forall i | 0 <= i < |r.documents| ensures DocumentOk(r'.versions, r'.documents[i], h, classOf) {
      assert HasDocument(r.documents, r.documents[i].contentId);
      OtherDocumentOk(r.versions, v, r.documents[i], h, classOf);
    }
    FirstDocumentOk(r.versions, v, d, h, classOf);
    forall i | 0 <= i < |r'.versions| ensures HasDocument(r'.documents, r'.versions[i].contentId) {
      HasDocumentAppend(r.documents, d, r'.versions[i].contentId);
    }
  }

  // ---------------------------------------------------------------- every operation

  /** What every operation keeps: rows are only added, and the invariant holds again. */
  ghost predicate Keeps(r: Registry, r': Registry, h: Hash, classOf: string -> string) {
    Inv(r', h, classOf) && r.versions <= r'.versions
  }

  lemma ShownText(r: Registry, h: Hash, classOf: string -> string, d: Document)
    requires Inv(r, h, classOf) && d in r.documents
    ensures d.sha == h(CurrentText(r, d.contentId))
  {
    var i :| 0 <= i < |r.documents| && r.documents[i] == d;
    assert DocumentOk(r.versions, r.documents[i], h, classOf);
    LatestIsCounted(r, h, classOf, d);
  }

  /** Save, archive and restore: they cannot fail once the document is found, and add one version. */
  lemma AppendKeeps(r: Registry, h: Hash, classOf: string -> string, c: string, state: VersionState, text: string,
                    sha: Option<string>)
    requires Inv(r, h, classOf) && HasDocument(r.documents, c)
    requires sha == Some(h(text)) || (sha.None? && text == CurrentText(r, c))
    ensures var r', n := Append(r, h, c, state, text, sha), VersionCount(r, c) + 1;
            && r'.Some? && Keeps(r, r'.value, h, classOf)
            && VersionsOf(r'.value.versions, c) ==
               VersionsOf(r.versions, c) + [Version(VersionId(c, n), c, n, state, text, h(text))]
  {
    var n := VersionCount(r, c) + 1;
    var v := Version(VersionId(c, n), c, n, state, text, h(text));
    NextIsFree(r, h, classOf, v);
    var r' := Append(r, h, c, state, text, sha).value;
    Updated(r.documents, c, v.id, sha, state == Archived);
    forall i | 0 <= i < |r.documents| && r.documents[i].contentId == c ensures r'.documents[i].sha == v.sha {
      if sha.None? {
        ShownText(r, h, classOf, r.documents[i]);
      }
    }
    PointedAt(r, r', h, classOf, v);
    VersionsOfAppend(r.versions, v, c);
  }

  lemma CreateKeeps(r: Registry, h: Hash, classOf: string -> string, classes: set<string>, path: string, text: string)
    requires Inv(r, h, classOf) && ClassKeys(classOf)
    ensures var r' := Create(r, h, classes, classOf(path), path, text);
            && (r'.Some? <==> classOf(path) in classes && ByPath(r.documents, path).None?)
            && (r'.Some? ==> Keeps(r, r'.value, h, classOf))
  {
    if classOf(path) in classes && ByPath(r.documents, path).None? {
      var c := ContentId(classOf(path), path);
      var v := Version(VersionId(c, 1), c, 1, Published, text, h(text));
      var d := Document(c, path, VersionId(c, 1), h(text), false);
      FirstVersion(r, Registry(r.versions + [v], r.documents + [d]), h, classOf, v, d);
      NextIsFree(r, h, classOf, v);
      FoundById(r.documents, c);
    }
  }

  /** An item as the inventory builds it: classified by its path, hashed by its text. */
  predicate Inventoried(item: Item, h: Hash, classOf: string -> string) {
    item.classKey == classOf(item.path) && item.sha == h(item.text)
  }

  lemma {:induction false} HasDocumentSame(ds: seq<Document>, ds': seq<Document>, c: string)
    requires |ds| == |ds'| && forall i :: 0 <= i < |ds| ==> ds[i].contentId == ds'[i].contentId
    ensures HasDocument(ds, c) == HasDocument(ds', c)
  {
    if HasDocument(ds, c) {
      var i :| 0 <= i < |ds| && ds[i].contentId == c;
      assert ds'[i].contentId == c;
    }
  }

  /** A change of flags only keeps the invariant. */
  lemma Reflagged(r: Registry, r': Registry, h: Hash, classOf: string -> string)
    requires Inv(r, h, classOf) && r'.versions == r.versions && |r'.documents| == |r.documents|
    requires forall i :: 0 <= i < |r.documents| ==>
      r'.documents[i] == r.documents[i].(archived := r'.documents[i].archived)
    ensures Inv(r', h, classOf)
  {
    forall i | 0 <= i < |r'.documents| ensures DocumentOk(r'.versions, r'.documents[i], h, classOf) {
      assert DocumentOk(r.versions, r.documents[i], h, classOf);
    }
    forall c ensures HasDocument(r'.documents, c) == HasDocument(r.documents, c) {
      HasDocumentSame(r.documents, r'.documents, c);
    }
  }

  lemma OneRowPerPath(r: Registry, h: Hash, classOf: string -> string, i: nat, d: Document)
    requires Inv(r, h, classOf) && i < |r.documents| && ByPath(r.documents, r.documents[i].path) == Some(d)
    ensures r.documents[i] == d
  {
    FoundByPath(r.documents, r.documents[i].path);
    var k :| 0 <= k < |r.documents| && r.documents[k] == d;
  }

  lemma UnchangedItem(r: Registry, h: Hash, classOf: string -> string, item: Item, d: Document)
    requires Inv(r, h, classOf) && Inventoried(item, h, classOf) && ByPath(r.documents, item.path) == Some(d)
    requires Latest(r, d.contentId).Some? && Latest(r, d.contentId).value.sha == item.sha
    ensures var r' := SyncItem(r, item);
            r'.Some? && Keeps(r, r'.value, h, classOf) && r'.value.versions == r.versions
  {
    FoundRow(r, h, classOf, item.path, d);
    var d' := Document(d.contentId, item.path, d.current, item.sha, false);
    var r' := Registry(r.versions, OverwritePath(r.documents, d'));
    assert SyncItem(r, item) == Some(r');
    Overwritten(r.documents, d');
    forall i | 0 <= i < |r.documents| && r.documents[i].path == item.path ensures r.documents[i] == d {
      OneRowPerPath(r, h, classOf, i, d);
    }
    Reflagged(r, r', h, classOf);
  }

  lemma ChangedItem(r: Registry, h: Hash, classOf: string -> string, item: Item, d: Document)
    requires Inv(r, h, classOf) && ClassKeys(classOf) && Inventoried(item, h, classOf)
    requires ByPath(r.documents, item.path) == Some(d)
    requires Latest(r, d.contentId).Some? && Latest(r, d.contentId).value.sha != item.sha
    ensures var r' := SyncItem(r, item);
            && r'.Some? && Keeps(r, r'.value, h, classOf) && |r'.value.versions| == |r.versions| + 1
            && r'.value.versions[|r.versions|].contentId == ContentId(item.classKey, item.path)
  {
    FoundRow(r, h, classOf, item.path, d);
    var c, n := d.contentId, VersionCount(r, d.contentId) + 1;
    var v := Version(VersionId(c, n), c, n, Imported, item.text, item.sha);
    NextIsFree(r, h, classOf, v);
    var d' := Document(c, item.path, v.id, item.sha, false);
    Overwritten(r.documents, d');
    var r' := SyncItem(r, item).value;
    assert r' == Registry(r.versions + [v], OverwritePath(r.documents, d'));
    forall i | 0 <= i < |r.documents| ensures r.documents[i].contentId == c <==> r.documents[i].path == item.path {
      assert DocumentOk(r.versions, r.documents[i], h, classOf);
      if r.documents[i].contentId == c {
        ContentIdsDiffer(classOf, r.documents[i].path, item.path);
      }
    }
    PointedAt(r, r', h, classOf, v);
  }

  lemma NewItem(r: Registry, h: Hash, classOf: string -> string, item: Item)
    requires Inv(r, h, classOf) && ClassKeys(classOf) && Inventoried(item, h, classOf)
    requires ByPath(r.documents, item.path).None?
    ensures var r' := SyncItem(r, item);
            && r'.Some? && Keeps(r, r'.value, h, classOf) && |r'.value.versions| == |r.versions| + 1
            && r'.value.versions[|r.versions|].contentId == ContentId(item.classKey, item.path)
  {
    var c := ContentId(item.classKey, item.path);
    var v := Version(VersionId(c, 1), c, 1, Imported, item.text, item.sha);
    var d := Document(c, item.path, v.id, item.sha, false);
    FirstVersion(r, Registry(r.versions + [v], r.documents + [d]), h, classOf, v, d);
    NextIsFree(r, h, classOf, v);
    FoundById(r.documents, c);
  }

  lemma SyncItemKeeps(r: Registry, h: Hash, classOf: string -> string, item: Item)
    requires Inv(r, h, classOf) && ClassKeys(classOf) && Inventoried(item, h, classOf)
    ensures SyncItem(r, item).Some? && Keeps(r, SyncItem(r, item).value, h, classOf)
  {
    var d := ByPath(r.documents, item.path);
    if d.None? {
      NewItem(r, h, classOf, item);
    } else {
      FoundRow(r, h, classOf, item.path, d.value);
      if Latest(r, d.value.contentId).value.sha == item.sha {
        UnchangedItem(r, h, classOf, item, d.value);
      } else {
        ChangedItem(r, h, classOf, item, d.value);
      }
    }
  }

  predicate AllInventoried(items: seq<Item>, h: Hash, classOf: string -> string) {
    forall i :: 0 <= i < |items| ==> Inventoried(items[i], h, classOf)
  }

  lemma {:induction false} SyncKeeps(r: Registry, h: Hash, classOf: string -> string, items: seq<Item>)
    requires Inv(r, h, classOf) && ClassKeys(classOf) && AllInventoried(items, h, classOf)
    ensures Sync(r, items).Some? && Keeps(r, Sync(r, items).value, h, classOf)
    decreases |items|
  {
    if items != [] {
      SyncItemKeeps(r, h, classOf, items[0]);
      SyncKeeps(SyncItem(r, items[0]).value, h, classOf, items[1..]);
    }
  }

  // ---------------------------------------------------------------- runs

  datatype Op =
    | Creating(classKey: string, path: string, text: string)
    | Saving(contentId: string, text: string)
    | Archiving(contentId: string)
    | Restoring(contentId: string)
    | Syncing(items: seq<Item>)

  /** A path is created under the class that the inventory gives it. */
  predicate Fits(op: Op, h: Hash, classOf: string -> string) {
    match op
    case Creating(k, p, _) => k == classOf(p)
    case Syncing(items) => AllInventoried(items, h, classOf)
    case _ => true
  }

  function Perform(r: Registry, h: Hash, classes: set<string>, op: Op): Option<Registry> {
    match op
    case Creating(k, p, text) => Create(r, h, classes, k, p, text)
    case Saving(c, text) => Save(r, h, c, text)
    case Archiving(c) => Archive(r, h, c)
    case Restoring(c) => Restore(r, h, c)
    case Syncing(items) => Sync(r, items)
  }

  /** The registry after a run; an operation that raises leaves it as it was. */
  function Run(h: Hash, classes: set<string>, ops: seq<Op>): Registry {
    if ops == [] then Registry([], [])
    else
      var r := Run(h, classes, ops[..|ops| - 1]);
      var r' := Perform(r, h, classes, ops[|ops| - 1]);
      if r'.Some? then r'.value else r
  }

  lemma FoundKeeps(r: Registry, h: Hash, classOf: string -> string, c: string,
                   state: VersionState, text: string, sha: Option<string>)
    requires Inv(r, h, classOf) && (sha == Some(h(text)) || (sha.None? && text == CurrentText(r, c)))
    ensures ByContentId(r.documents, c).Some? ==>
              var r' := Append(r, h, c, state, text, sha); r'.Some? && Keeps(r, r'.value, h, classOf)
  {
    FoundById(r.documents, c);
    if HasDocument(r.documents, c) {
      AppendKeeps(r, h, classOf, c, state, text, sha);
    }
  }

  lemma PerformKeeps(r: Registry, h: Hash, classes: set<string>, classOf: string -> string, op: Op)
    requires Inv(r, h, classOf) && ClassKeys(classOf) && Fits(op, h, classOf)
    ensures Perform(r, h, classes, op).Some? ==> Keeps(r, Perform(r, h, classes, op).value, h, classOf)
  {
    match op {
      case Creating(_, p, text) => CreateKeeps(r, h, classOf, classes, p, text);
      case Syncing(items) => SyncKeeps(r, h, classOf, items);
      case Saving(c, text) => FoundKeeps(r, h, classOf, c, Published, text, Some(h(text)));
      case Archiving(c) => FoundKeeps(r, h, classOf, c, Archived, CurrentText(r, c), None);
      case Restoring(c) => FoundKeeps(r, h, classOf, c, Restored, CurrentText(r, c), None);
    }
  }

  /** Over any run: every document has versions 1..n without a gap, points at version n and shows
      its hash; and no version row that was ever written changes or goes. */
  lemma {:induction false} RunKeeps(h: Hash, classes: set<string>, classOf: string -> string, ops: seq<Op>, k: nat)
    requires ClassKeys(classOf) && k <= |ops| && forall i :: 0 <= i < |ops| ==> Fits(ops[i], h, classOf)
    ensures Inv(Run(h, classes, ops), h, classOf)
    ensures Run(h, classes, ops[..k]).versions <= Run(h, classes, ops).versions
  {
    if ops != [] {
      var n := |ops| - 1;
      RunKeeps(h, classes, classOf, ops[..n], if k <= n then k else n);
      PerformKeeps(Run(h, classes, ops[..n]), h, classes, classOf, ops[n]);
      if k <= n {
        assert ops[..n][..k] == ops[..k];
      } else {
        assert ops[..k] == ops;
      }
    }
  }

  /** Archiving and restoring keep the text: the new version repeats the one before it. */
  lemma ArchiveAndRestoreKeepText(r: Registry, h: Hash, classOf: string -> string, c: string)
    requires Inv(r, h, classOf) && HasDocument(r.documents, c) && CurrentText(r, c) != []
    ensures Archive(r, h, c).Some? && CurrentText(Archive(r, h, c).value, c) == CurrentText(r, c)
    ensures Restore(Archive(r, h, c).value, h, c).Some?
    ensures CurrentText(Restore(Archive(r, h, c).value, h, c).value, c) == CurrentText(r, c)
  {
    FoundById(r.documents, c);
    AppendKeeps(r, h, classOf, c, Archived, CurrentText(r, c), None);
    var a := Archive(r, h, c).value;
    CurrentIsLast(a, h, classOf, c);
    FoundById(a.documents, c);
    AppendKeeps(a, h, classOf, c, Restored, CurrentText(a, c), None);
    CurrentIsLast(Restore(a, h, c).value, h, classOf, c);
  }

  lemma CurrentIsLast(r: Registry, h: Hash, classOf: string -> string, c: string)
    requires Inv(r, h, classOf) && VersionsOf(r.versions, c) != []
    ensures HasDocument(r.documents, c)
    ensures CurrentText(r, c) == VersionsOf(r.versions, c)[VersionCount(r, c) - 1].text
  {
    VersionHasDocument(r, h, classOf, c);
    var i :| 0 <= i < |r.documents| && r.documents[i].contentId == c;
    LatestIsCounted(r, h, classOf, r.documents[i]);
  }

  // ---------------------------------------------------------------- syncing again

  /** The registry already shows the item. */
  predicate Shows(r: Registry, item: Item) {
    var d := ByPath(r.documents, item.path);
    d.Some? && Latest(r, d.value.contentId).Some? && Latest(r, d.value.contentId).value.sha == item.sha
  }

  /** What one item changes: its own document row, and at most a version appended to its own. */
  ghost predicate Local(r: Registry, r': Registry, item: Item) {
    && (r'.versions == r.versions ||
        exists v: Version :: r'.versions == r.versions + [v] && v.contentId == ContentId(item.classKey, item.path))
    && (forall p :: p != item.path ==> ByPath(r'.documents, p) == ByPath(r.documents, p))
  }

  lemma {:induction false} OverwriteIsLocal(ds: seq<Document>, d: Document, p: string)
    requires p != d.path
    ensures ByPath(OverwritePath(ds, d), p) == ByPath(ds, p)
  {
    if ds != [] {
      OverwriteIsLocal(ds[1..], d, p);
    }
  }

  lemma {:induction false} AppendIsLocal(ds: seq<Document>, d: Document, p: string)
    requires p != d.path
    ensures ByPath(ds + [d], p) == ByPath(ds, p)
  {
    if ds != [] {
      assert (ds + [d])[1..] == ds[1..] + [d];
      AppendIsLocal(ds[1..], d, p);
    }
  }

  lemma {:induction false} OverwriteSets(ds: seq<Document>, d: Document)
    requires ByPath(ds, d.path).Some?
    ensures ByPath(OverwritePath(ds, d), d.path) ==
            Some(ByPath(ds, d.path).value.(current := d.current, sha := d.sha, archived := d.archived))
  {
    if ds[0].path != d.path {
      OverwriteSets(ds[1..], d);
    }
  }

  lemma {:induction false} AppendSets(ds: seq<Document>, d: Document)
    requires ByPath(ds, d.path).None?
    ensures ByPath(ds + [d], d.path) == Some(d)
  {
    if ds != [] {
      assert (ds + [d])[1..] == ds[1..] + [d];
      AppendSets(ds[1..], d);
    }
  }

  /** A document upsert sets its own row and no other. */
  lemma UpsertSets(ds: seq<Document>, d: Document)
    requires UpsertDocument(ds, d).Some?
    ensures var ds' := UpsertDocument(ds, d).value;
            && ByPath(ds', d.path).Some? && ByPath(ds', d.path).value.sha == d.sha
            && ByPath(ds', d.path).value.archived == d.archived
            && forall p :: p != d.path ==> ByPath(ds', p) == ByPath(ds, p)
  {
    if ByPath(ds, d.path).Some? {
      OverwriteSets(ds, d);
    } else {
      AppendSets(ds, d);
    }
    forall p | p != d.path ensures ByPath(UpsertDocument(ds, d).value, p) == ByPath(ds, p) {
      OverwriteIsLocal(ds, d, p);
      AppendIsLocal(ds, d, p);
    }
  }

  /** In a valid registry a document with the item's hash shows the item. */
  lemma ShownByHash(r: Registry, h: Hash, classOf: string -> string, item: Item)
    requires Inv(r, h, classOf)
    requires ByPath(r.documents, item.path).Some? && ByPath(r.documents, item.path).value.sha == item.sha
    ensures Shows(r, item)
  {
    FoundRow(r, h, classOf, item.path, ByPath(r.documents, item.path).value);
  }

  /** The version that syncing an item adds, if it adds one. */
  lemma SyncItemAdds(r: Registry, h: Hash, classOf: string -> string, item: Item)
    requires Inv(r, h, classOf) && ClassKeys(classOf) && Inventoried(item, h, classOf)
    ensures SyncItem(r, item).Some?
    ensures var r' := SyncItem(r, item).value;
            if Shows(r, item) then r'.versions == r.versions
            else exists v: Version ::
                   r'.versions == r.versions + [v] && v.contentId == ContentId(item.classKey, item.path)
  {
    var d := ByPath(r.documents, item.path);
    if d.None? {
      NewItem(r, h, classOf, item);
      OneAdded(r.versions, SyncItem(r, item).value.versions);
    } else {
      FoundRow(r, h, classOf, item.path, d.value);
      if Shows(r, item) {
        UnchangedItem(r, h, classOf, item, d.value);
      } else {
        ChangedItem(r, h, classOf, item, d.value);
        OneAdded(r.versions, SyncItem(r, item).value.versions);
      }
    }
  }

  lemma OneAdded(vs: seq<Version>, vs': seq<Version>)
    requires vs <= vs' && |vs'| == |vs| + 1
    ensures vs' == vs + [vs'[|vs|]]
  {
  }

  /** Syncing an item sets its own document row, which is then not archived, and no other. */
  lemma SyncItemSets(r: Registry, item: Item)
    requires SyncItem(r, item).Some?
    ensures var ds := SyncItem(r, item).value.documents;
            && ByPath(ds, item.path).Some? && ByPath(ds, item.path).value.sha == item.sha
            && !ByPath(ds, item.path).value.archived
            && forall p :: p != item.path ==> ByPath(ds, p) == ByPath(r.documents, p)
  {
    var d := SyncedRow(r, item);
    UpsertSets(r.documents, d);
  }

  /** The document row that syncing an item upserts. */
  lemma SyncedRow(r: Registry, item: Item) returns (d: Document)
    requires SyncItem(r, item).Some?
    ensures d.path == item.path && d.sha == item.sha && !d.archived
    ensures UpsertDocument(r.documents, d) == Some(SyncItem(r, item).value.documents)
  {
    var c := ContentId(item.classKey, item.path);
    var latest := if ByPath(r.documents, item.path).Some? then Latest(r, c) else None;
    var n := if latest.Some? then latest.value.number + 1 else 1;
    var current := if latest.Some? && latest.value.sha == item.sha then latest.value.id else VersionId(c, n);
    d := Document(c, item.path, current, item.sha, false);
  }

  /** Syncing an item changes nothing else, and the registry then shows it. */
  lemma SyncItemShows(r: Registry, h: Hash, classOf: string -> string, item: Item, r': Registry)
    requires Inv(r, h, classOf) && ClassKeys(classOf) && Inventoried(item, h, classOf)
    requires SyncItem(r, item) == Some(r')
    ensures Local(r, r', item) && Shows(r', item)
  {
    SyncItemKeeps(r, h, classOf, item);
    SyncItemAdds(r, h, classOf, item);
    SyncItemSets(r, item);
    ShownByHash(r', h, classOf, item);
  }

  lemma OwnStay(r: Registry, r': Registry, item: Item, c: string)
    requires Local(r, r', item) && c != ContentId(item.classKey, item.path)
    ensures VersionsOf(r'.versions, c) == VersionsOf(r.versions, c)
  {
    if r'.versions != r.versions {
      var v: Version :| r'.versions == r.versions + [v] && v.contentId == ContentId(item.classKey, item.path);
      VersionsOfAppend(r.versions, v, c);
      assert VersionsOf(r.versions, c) + [] == VersionsOf(r.versions, c);
    }
  }

  /** What the registry shows stays shown after any item but one of the same path with another hash. */
  lemma StillShows(r: Registry, r': Registry, h: Hash, classOf: string -> string, item: Item, other: Item)
    requires Inv(r, h, classOf) && ClassKeys(classOf) && Local(r, r', item) && Shows(r, other) && Shows(r', item)
    requires item.classKey == classOf(item.path) && (item.path == other.path ==> item.sha == other.sha)
    ensures Shows(r', other)
  {
    if item.path != other.path {
      var d := ByPath(r.documents, other.path).value;
      FoundRow(r, h, classOf, other.path, d);
      if d.contentId == ContentId(item.classKey, item.path) {
        ContentIdsDiffer(classOf, item.path, other.path);
      }
      OwnStay(r, r', item, d.contentId);
    }
  }

  /** Items of one path have one hash. */
  predicate OneHashPerPath(items: seq<Item>) {
    forall i, j :: 0 <= i < j < |items| && items[i].path == items[j].path ==> items[i].sha == items[j].sha
  }

  predicate AgreesWith(items: seq<Item>, other: Item) {
    forall i :: 0 <= i < |items| && items[i].path == other.path ==> items[i].sha == other.sha
  }

  lemma AgreesWithRest(items: seq<Item>)
    requires items != [] && OneHashPerPath(items)
    ensures AgreesWith(items[1..], items[0]) && OneHashPerPath(items[1..])
  {
  }

  lemma {:induction false} SyncStillShows(r: Registry, h: Hash, classOf: string -> string, items: seq<Item>,
                                          other: Item)
    requires Inv(r, h, classOf) && ClassKeys(classOf) && AllInventoried(items, h, classOf)
    requires Shows(r, other) && AgreesWith(items, other)
    ensures Sync(r, items).Some? && Shows(Sync(r, items).value, other)
    decreases |items|
  {
    if items != [] {
      SyncItemKeeps(r, h, classOf, items[0]);
      var r1 := SyncItem(r, items[0]).value;
      SyncItemShows(r, h, classOf, items[0], r1);
      StillShows(r, r1, h, classOf, items[0], other);
      SyncStillShows(r1, h, classOf, items[1..], other);
    }
  }

  predicate ShowsAll(r: Registry, items: seq<Item>) {
    forall i :: 0 <= i < |items| ==> Shows(r, items[i])
  }

  lemma ShowsAllParts(r: Registry, items: seq<Item>)
    requires items != [] && Shows(r, items[0]) && ShowsAll(r, items[1..])
    ensures ShowsAll(r, items)
  {
    forall i | 0 < i < |items| ensures Shows(r, items[i]) {
      assert items[1..][i - 1] == items[i];
    }
  }

  lemma {:induction false} SyncShowsAll(r: Registry, h: Hash, classOf: string -> string, items: seq<Item>)
    requires Inv(r, h, classOf) && ClassKeys(classOf) && AllInventoried(items, h, classOf) && OneHashPerPath(items)
    ensures Sync(r, items).Some? && ShowsAll(Sync(r, items).value, items)
    decreases |items|
  {
    if items != [] {
      AgreesWithRest(items);
      SyncItemKeeps(r, h, classOf, items[0]);
      var r1 := SyncItem(r, items[0]).value;
      SyncItemShows(r, h, classOf, items[0], r1);
      SyncShowsAll(r1, h, classOf, items[1..]);
      SyncStillShows(r1, h, classOf, items[1..], items[0]);
      ShowsAllParts(Sync(r, items).value, items);
    }
  }

  /** A registry shows one hash for a path. */
  lemma ShownIsOneHash(r: Registry, items: seq<Item>)
    requires ShowsAll(r, items)
    ensures OneHashPerPath(items)
  {
    forall i, j | 0 <= i < j < |items| && items[i].path == items[j].path ensures items[i].sha == items[j].sha {
      assert Shows(r, items[i]) && Shows(r, items[j]);
    }
  }

  lemma {:induction false} SyncOfShownAddsNothing(r: Registry, h: Hash, classOf: string -> string, items: seq<Item>)
    requires Inv(r, h, classOf) && ClassKeys(classOf) && AllInventoried(items, h, classOf) && ShowsAll(r, items)
    ensures Sync(r, items).Some? && Sync(r, items).value.versions == r.versions
    decreases |items|
  {
    if items != [] {
      ShownIsOneHash(r, items);
      SyncItemAdds(r, h, classOf, items[0]);
      SyncItemKeeps(r, h, classOf, items[0]);
      var r1 := SyncItem(r, items[0]).value;
      SyncItemShows(r, h, classOf, items[0], r1);
      forall i | 0 <= i < |items[1..]| ensures Shows(r1, items[1..][i]) {
        StillShows(r, r1, h, classOf, items[0], items[i + 1]);
      }
      SyncOfShownAddsNothing(r1, h, classOf, items[1..]);
    }
  }

  /** What is shown after an item that added nothing was shown before it. */
  lemma ShownBefore(r: Registry, r1: Registry, h: Hash, classOf: string -> string, item: Item, other: Item)
    requires Inv(r, h, classOf) && Inv(r1, h, classOf) && Local(r, r1, item) && r1.versions == r.versions
    requires Shows(r, item) && Shows(r1, other)
    ensures Shows(r, other)
  {
    FoundRow(r, h, classOf, item.path, ByPath(r.documents, item.path).value);
    FoundRow(r1, h, classOf, other.path, ByPath(r1.documents, other.path).value);
  }

  lemma {:induction false} AddedNothing(r: Registry, h: Hash, classOf: string -> string, items: seq<Item>)
    requires Inv(r, h, classOf) && ClassKeys(classOf) && AllInventoried(items, h, classOf)
    requires Sync(r, items).Some? && Sync(r, items).value.versions == r.versions
    ensures ShowsAll(r, items)
    decreases |items|
  {
    if items != [] {
      SyncItemAdds(r, h, classOf, items[0]);
      SyncItemKeeps(r, h, classOf, items[0]);
      var r1 := SyncItem(r, items[0]).value;
      SyncItemShows(r, h, classOf, items[0], r1);
      SyncKeeps(r1, h, classOf, items[1..]);
      assert r1.versions == r.versions;
      AddedNothing(r1, h, classOf, items[1..]);
      forall i | 0 <= i < |items[1..]| ensures Shows(r, items[1..][i]) {
        ShownBefore(r, r1, h, classOf, items[0], items[1..][i]);
      }
      ShowsAllParts(r, items);
    }
  }

  /** A sync adds no version if and only if the registry shows every item already. */
  lemma SyncAddsNothingIff(r: Registry, h: Hash, classOf: string -> string, items: seq<Item>)
    requires Inv(r, h, classOf) && ClassKeys(classOf) && AllInventoried(items, h, classOf)
    ensures Sync(r, items).Some?
    ensures Sync(r, items).value.versions == r.versions <==> ShowsAll(r, items)
  {
    SyncKeeps(r, h, classOf, items);
    if ShowsAll(r, items) {
      SyncOfShownAddsNothing(r, h, classOf, items);
    }
    if Sync(r, items).value.versions == r.versions {
      AddedNothing(r, h, classOf, items);
    }
  }

  /** Syncing the same inventory again adds no version if and only if its items of one path have one
      hash. */
  lemma SecondSyncAddsNothingIff(r: Registry, h: Hash, classOf: string -> string, items: seq<Item>)
    requires Inv(r, h, classOf) && ClassKeys(classOf) && AllInventoried(items, h, classOf)
    ensures Sync(r, items).Some? && Sync(Sync(r, items).value, items).Some?
    ensures var once := Sync(r, items).value;
            Sync(once, items).value.versions == once.versions <==> OneHashPerPath(items)
  {
    SyncKeeps(r, h, classOf, items);
    var once := Sync(r, items).value;
    SyncAddsNothingIff(once, h, classOf, items);
    if OneHashPerPath(items) {
      SyncShowsAll(r, h, classOf, items);
    }
    if ShowsAll(once, items) {
      ShownIsOneHash(once, items);
    }
  }

  // ---------------------------------------------------------------- the class of a created path

  /** The document's pointer is the id of its own last version. */
  predicate PointsAtOwn(r: Registry, d: Document) {
    var own := VersionsOf(r.versions, d.contentId);
    own != [] && d.current == own[|own| - 1].id
  }

  /** The document of the path is there and points at its own last version. */
  predicate PathPoints(r: Registry, path: string) {
    var d := ByPath(r.documents, path);
    d.Some? && PointsAtOwn(r, d.value)
  }

  /** In a valid registry every document points at its own last version. */
  lemma ValidPoints(r: Registry, h: Hash, classOf: string -> string, path: string)
    requires Inv(r, h, classOf) && ByPath(r.documents, path).Some?
    ensures PathPoints(r, path)
  {
    var d := ByPath(r.documents, path).value;
    FoundByPath(r.documents, path);
    var k :| 0 <= k < |r.documents| && r.documents[k] == d;
    assert DocumentOk(r.versions, r.documents[k], h, classOf);
  }

  /** A content id of another class than the one that the path's document was created under has no
      version. */
  lemma OtherClassIsUnused(r: Registry, h: Hash, classOf: string -> string, classKey: string, path: string)
    requires Inv(r, h, classOf) && ClassKeys(classOf) && ':' !in classKey && classKey != classOf(path)
    ensures VersionsOf(r.versions, ContentId(classKey, path)) == []
  {
    var c := ContentId(classKey, path);
    if VersionsOf(r.versions, c) != [] {
      VersionHasDocument(r, h, classOf, c);
      var k :| 0 <= k < |r.documents| && r.documents[k].contentId == c;
      assert DocumentOk(r.versions, r.documents[k], h, classOf);
      FirstColon(classOf(r.documents[k].path), r.documents[k].path, classKey, path);
    }
  }

  lemma UnusedIsInserted(r: Registry, h: Hash, classOf: string -> string, item: Item)
    requires Inv(r, h, classOf) && ClassKeys(classOf) && ':' !in item.classKey && item.classKey != classOf(item.path)
    requires ByPath(r.documents, item.path).Some?
    ensures var c := ContentId(item.classKey, item.path);
            var v := Version(VersionId(c, 1), c, 1, Imported, item.text, item.sha);
            var d := Document(c, item.path, v.id, item.sha, false);
            SyncItem(r, item) == Some(Registry(r.versions + [v], OverwritePath(r.documents, d)))
  {
    var c := ContentId(item.classKey, item.path);
    OtherClassIsUnused(r, h, classOf, item.classKey, item.path);
    NextIsFree(r, h, classOf, Version(VersionId(c, 1), c, 1, Imported, item.text, item.sha));
  }

  /** The last own version of a document keeps its id when a version of another content id comes. */
  lemma OwnLastStays(r: Registry, h: Hash, classOf: string -> string, d: Document, v: Version)
    requires Inv(r, h, classOf) && d in r.documents && v.contentId != d.contentId
    ensures var own := VersionsOf(r.versions + [v], d.contentId);
            own != [] && own[|own| - 1].id == VersionId(d.contentId, |own|)
  {
    var k :| 0 <= k < |r.documents| && r.documents[k] == d;
    assert DocumentOk(r.versions, r.documents[k], h, classOf);
    VersionsOfAppend(r.versions, v, d.contentId);
    assert VersionsOf(r.versions, d.contentId) + [] == VersionsOf(r.versions, d.contentId);
  }

  /** A sync under another class adds a version of an unused content id, and points the document of
      the path at it. */
  lemma OtherClassMispoints(r: Registry, h: Hash, classOf: string -> string, item: Item)
    requires Inv(r, h, classOf) && ClassKeys(classOf) && ':' !in item.classKey && item.classKey != classOf(item.path)
    requires ByPath(r.documents, item.path).Some?
    ensures SyncItem(r, item).Some? && ByPath(SyncItem(r, item).value.documents, item.path).Some?
    ensures !PathPoints(SyncItem(r, item).value, item.path)
  {
    var c := ContentId(item.classKey, item.path);
    var d := ByPath(r.documents, item.path).value;
    FoundRow(r, h, classOf, item.path, d);
    FoundByPath(r.documents, item.path);
    UnusedIsInserted(r, h, classOf, item);
    var v := Version(VersionId(c, 1), c, 1, Imported, item.text, item.sha);
    OverwriteSets(r.documents, Document(c, item.path, v.id, item.sha, false));
    if d.contentId == c {
      FirstColon(classOf(item.path), item.path, item.classKey, item.path);
    }
    OwnLastStays(r, h, classOf, d, v);
    var own := VersionsOf(r.versions + [v], d.contentId);
    if own[|own| - 1].id == v.id {
      VersionIdsDiffer(d.contentId, |own|, c, 1);
    }
  }

  /** An item of the class that the path's document was created under keeps the document pointing at
      its own last version, and an item of any other class does not. */
  lemma SyncedClassMatters(r: Registry, h: Hash, classOf: string -> string, item: Item)
    requires Inv(r, h, classOf) && ClassKeys(classOf) && ':' !in item.classKey && item.sha == h(item.text)
    requires ByPath(r.documents, item.path).Some?
    ensures SyncItem(r, item).Some?
    ensures PathPoints(SyncItem(r, item).value, item.path) <==> item.classKey == classOf(item.path)
  {
    if item.classKey == classOf(item.path) {
      SyncItemKeeps(r, h, classOf, item);
      SyncItemSets(r, item);
      ValidPoints(SyncItem(r, item).value, h, classOf, item.path);
    } else {
      OtherClassMispoints(r, h, classOf, item);
    }
  }

  /** After any run in which every path is created and synced under one class, its next item leaves
      the document of its path pointing at its own last version if and only if it has that class. */
  lemma RunClassMatters(h: Hash, classes: set<string>, classOf: string -> string, ops: seq<Op>, item: Item)
    requires ClassKeys(classOf) && forall i :: 0 <= i < |ops| ==> Fits(ops[i], h, classOf)
    requires ':' !in item.classKey && item.sha == h(item.text)
    requires ByPath(Run(h, classes, ops).documents, item.path).Some?
    ensures SyncItem(Run(h, classes, ops), item).Some?
    ensures PathPoints(SyncItem(Run(h, classes, ops), item).value, item.path) <==> item.classKey == classOf(item.path)
  {
    RunKeeps(h, classes, classOf, ops, 0);
    SyncedClassMatters(Run(h, classes, ops), h, classOf, item);
  }

  /** The class of a path without a document can be anything. */
  lemma UnusedPathAnyClass(r: Registry, h: Hash, classOf: string -> string, classOf': string -> string, path: string)
    requires Inv(r, h, classOf) && ByPath(r.documents, path).None?
    requires forall p :: p != path ==> classOf'(p) == classOf(p)
    ensures Inv(r, h, classOf')
  {
    FoundByPath(r.documents, path);
    forall i | 0 <= i < |r.documents| ensures DocumentOk(r.versions, r.documents[i], h, classOf') {
      assert DocumentOk(r.versions, r.documents[i], h, classOf);
    }
  }

  /** A document created in any registry under a class of the caller's choice, then met by the
      inventory: its pointer still names its own last version if and only if the class is the one
      that the inventory gives the path. */
  lemma CreatedClassMatters(r: Registry, h: Hash, classes: set<string>, classOf: string -> string,
                            classKey: string, text: string, item: Item)
    requires Inv(r, h, classOf) && ClassKeys(classOf) && ByPath(r.documents, item.path).None?
    requires classKey in classes && ':' !in classKey && Inventoried(item, h, classOf)
    ensures var r' := Create(r, h, classes, classKey, item.path, text);
            && r'.Some? && SyncItem(r'.value, item).Some?
            && (PathPoints(SyncItem(r'.value, item).value, item.path) <==> classKey == classOf(item.path))
  {
    var classOf' := (p: string) => if p == item.path then classKey else classOf(p);
    UnusedPathAnyClass(r, h, classOf, classOf', item.path);
    CreateKeeps(r, h, classOf', classes, item.path, text);
    var r' := Create(r, h, classes, classKey, item.path, text).value;
    AppendSets(r.documents, r'.documents[|r.documents|]);
    SyncedClassMatters(r', h, classOf', item);
  }

  // ---------------------------------------------------------------- the archived flag

  /** The document's flag says what the state of its last version says. */
  predicate FlagAgrees(r: Registry, d: Document) {
    var own := VersionsOf(r.versions, d.contentId);
    own != [] && (d.archived <==> own[|own| - 1].state == Archived)
  }

  ghost predicate FlagsAgree(r: Registry) {
    forall i :: 0 <= i < |r.documents| ==> FlagAgrees(r, r.documents[i])
  }

  lemma FlagAfter(r: Registry, r': Registry, v: Version, d: Document, d': Document)
    requires r'.versions == r.versions + [v] && d'.contentId == d.contentId
    requires if d.contentId == v.contentId then d'.archived <==> v.state == Archived
             else d'.archived == d.archived && FlagAgrees(r, d)
    ensures FlagAgrees(r', d')
  {
    VersionsOfAppend(r.versions, v, d.contentId);
  }

  lemma AppendFlags(r: Registry, h: Hash, classOf: string -> string, c: string, state: VersionState, text: string,
                    sha: Option<string>)
    requires Inv(r, h, classOf) && FlagsAgree(r) && HasDocument(r.documents, c)
    requires Append(r, h, c, state, text, sha).Some?
    ensures FlagsAgree(Append(r, h, c, state, text, sha).value)
  {
    var r' := Append(r, h, c, state, text, sha).value;
    var n := VersionCount(r, c) + 1;
    var v := Version(VersionId(c, n), c, n, state, text, h(text));
    Updated(r.documents, c, v.id, sha, state == Archived);
    forall i | 0 <= i < |r'.documents| ensures FlagAgrees(r', r'.documents[i]) {
      FlagAfter(r, r', v, r.documents[i], r'.documents[i]);
    }
  }

  lemma CreateFlags(r: Registry, h: Hash, classOf: string -> string, classes: set<string>, path: string, text: string)
    requires Inv(r, h, classOf) && ClassKeys(classOf) && FlagsAgree(r)
    requires Create(r, h, classes, classOf(path), path, text).Some?
    ensures FlagsAgree(Create(r, h, classes, classOf(path), path, text).value)
  {
    var r' := Create(r, h, classes, classOf(path), path, text).value;
    var c := ContentId(classOf(path), path);
    var v := Version(VersionId(c, 1), c, 1, Published, text, h(text));
    NewPathIsNew(r, h, classOf, path);
    forall i | 0 <= i < |r'.documents| ensures FlagAgrees(r', r'.documents[i]) {
      if i < |r.documents| {
        assert HasDocument(r.documents, r.documents[i].contentId);
        FlagAfter(r, r', v, r.documents[i], r'.documents[i]);
      } else {
        FlagAfter(r, r', v, r'.documents[i], r'.documents[i]);
      }
    }
  }

  lemma FoundFlags(r: Registry, h: Hash, classOf: string -> string, c: string,
                   state: VersionState, text: string, sha: Option<string>)
    requires Inv(r, h, classOf) && FlagsAgree(r) && ByContentId(r.documents, c).Some?
    requires Append(r, h, c, state, text, sha).Some?
    ensures FlagsAgree(Append(r, h, c, state, text, sha).value)
  {
    FoundById(r.documents, c);
    AppendFlags(r, h, classOf, c, state, text, sha);
  }

  lemma PerformFlags(r: Registry, h: Hash, classes: set<string>, classOf: string -> string, op: Op)
    requires Inv(r, h, classOf) && ClassKeys(classOf) && FlagsAgree(r) && Fits(op, h, classOf) && !op.Syncing?
    requires Perform(r, h, classes, op).Some?
    ensures FlagsAgree(Perform(r, h, classes, op).value)
  {
    match op {
      case Creating(_, p, text) => CreateFlags(r, h, classOf, classes, p, text);
      case Saving(c, text) => FoundFlags(r, h, classOf, c, Published, text, Some(h(text)));
      case Archiving(c) => FoundFlags(r, h, classOf, c, Archived, CurrentText(r, c), None);
      case Restoring(c) => FoundFlags(r, h, classOf, c, Restored, CurrentText(r, c), None);
    }
  }

  /** Over any run without a sync, a document is flagged archived exactly when its last version is
      an archived one. */
  lemma {:induction false} FlagsAgreeWithoutSync(h: Hash, classes: set<string>, classOf: string -> string, ops: seq<Op>)
    requires ClassKeys(classOf) && forall i :: 0 <= i < |ops| ==> Fits(ops[i], h, classOf) && !ops[i].Syncing?
    ensures FlagsAgree(Run(h, classes, ops))
  {
    if ops != [] {
      var n := |ops| - 1;
      var r := Run(h, classes, ops[..n]);
      FlagsAgreeWithoutSync(h, classes, classOf, ops[..n]);
      RunKeeps(h, classes, classOf, ops[..n], n);
      if Perform(r, h, classes, ops[n]).Some? {
        PerformFlags(r, h, classes, classOf, ops[n]);
      }
    }
  }

  // ---------------------------------------------------------------- the tables in place

  /** The rows that a new version of an existing document leaves. */
  lemma AppendAdds(r: Registry, h: Hash, classOf: string -> string, c: string, state: VersionState, text: string,
                   sha: Option<string>)
    requires Inv(r, h, classOf) && HasDocument(r.documents, c)
    requires sha == Some(h(text)) || (sha.None? && text == CurrentText(r, c))
    ensures var r', n := Append(r, h, c, state, text, sha), VersionCount(r, c) + 1;
            && r'.Some? && Inv(r'.value, h, classOf)
            && r'.value.versions == r.versions + [Version(VersionId(c, n), c, n, state, text, h(text))]
            && OnlyTouched(r.documents, r'.value.documents, c, state == Archived)
  {
    AppendKeeps(r, h, classOf, c, state, text, sha);
    AppendTouches(r, h, c, state, text, sha);
  }

  lemma AppendTouches(r: Registry, h: Hash, c: string, state: VersionState, text: string, sha: Option<string>)
    requires Append(r, h, c, state, text, sha).Some?
    ensures OnlyTouched(r.documents, Append(r, h, c, state, text, sha).value.documents, c, state == Archived)
  {
    Updated(r.documents, c, VersionId(c, VersionCount(r, c) + 1), sha, state == Archived);
  }

  /** The rows of one document are flagged, and no other row is touched. */
  predicate OnlyTouched(ds: seq<Document>, ds': seq<Document>, contentId: string, archived: bool) {
    |ds'| == |ds| && forall i :: 0 <= i < |ds| ==>
      && ds'[i].path == ds[i].path && ds'[i].contentId == ds[i].contentId
      && (if ds[i].contentId == contentId then ds'[i].archived == archived else ds'[i] == ds[i])
  }

  lemma UpsertCounts(ds: seq<Document>, d: Document)
    requires UpsertDocument(ds, d).Some?
    ensures |UpsertDocument(ds, d).value| == |ds| + (if ByPath(ds, d.path).Some? then 0 else 1)
  {
    Overwritten(ds, d);
  }

  /** The item's last version, found by the content id of its class and path, has its hash. */
  predicate IsCurrent(r: Registry, item: Item) {
    var latest := if ByPath(r.documents, item.path).Some? then Latest(r, ContentId(item.classKey, item.path)) else None;
    latest.Some? && latest.value.sha == item.sha
  }

  lemma VersionCounts(r: Registry, h: Hash, classOf: string -> string, item: Item)
    requires Inv(r, h, classOf) && ClassKeys(classOf) && Inventoried(item, h, classOf)
    ensures SyncItem(r, item).Some?
    ensures |SyncItem(r, item).value.versions| == |r.versions| + (if IsCurrent(r, item) then 0 else 1)
  {
    SyncItemAdds(r, h, classOf, item);
    if ByPath(r.documents, item.path).Some? {
      FoundRow(r, h, classOf, item.path, ByPath(r.documents, item.path).value);
    }
  }

  predicate PathIsNew(ds: seq<Document>, path: string) {
    forall i :: 0 <= i < |ds| ==> ds[i].path != path
  }

  class ContentRegistry {
    var versions: seq<Version>
    var documents: seq<Document>
    const h: Hash
    const classes: set<string>
    /** The class that the inventory gives a path. */
    ghost const classOf: string -> string

    function State(): Registry
      reads this
    {
      Registry(versions, documents)
    }

    /** Every document has versions 1..n and shows version n. */
    ghost predicate Valid()
      reads this
    {
      Inv(State(), h, classOf) && ClassKeys(classOf)
    }

    constructor (h: Hash, classes: set<string>, ghost classOf: string -> string)
      requires ClassKeys(classOf)
      ensures Valid() && State() == Registry([], [])
      ensures this.h == h && this.classes == classes && this.classOf == classOf
    {
      this.versions, this.documents, this.h, this.classes, this.classOf := [], [], h, classes, classOf;
    }

    /** `create_content_document`: a new path gets a document that shows its version 1. It is refused
        for an unknown class or a path that has a document, and for no other reason if the class is
        the path's own. */
    method CreateDocument(classKey: string, path: string, text: string) returns (ok: bool)
      requires Valid()
      modifies this
      ensures !ok ==> State() == old(State())
      ensures ok ==> classKey in classes && PathIsNew(old(documents), path)
      ensures ok ==> var id := ContentId(classKey, path);
                && versions == old(versions) + [Version(VersionId(id, 1), id, 1, Published, text, h(text))]
                && documents == old(documents) + [Document(id, path, VersionId(id, 1), h(text), false)]
      ensures classKey == classOf(path) ==> Valid()
      ensures classKey == classOf(path) ==>
                (ok <==> classKey in classes && PathIsNew(old(documents), path))
    {
      ghost var r := State();
      CreateKeeps(r, h, classOf, classes, path, text);
      FoundByPath(documents, path);
      if classKey !in classes || ByPath(documents, path).Some? {
        return false;
      }
      var id := ContentId(classKey, path);
      var versionId := VersionId(id, 1);
      var vs := InsertVersion(versions, Version(versionId, id, 1, Published, text, h(text)));
      var ds := InsertDocument(documents, Document(id, path, versionId, h(text), false));
      if vs.None? || ds.None? {
        return false;
      }
      versions, documents := vs.value, ds.value;
      assert Create(r, h, classes, classKey, path, text) == Some(State());
      return true;
    }

    /** What save, archive and restore share: count, insert the next version, point at it. On a
        document that exists the insert succeeds. */
    method AppendVersion(contentId: string, state: VersionState, text: string, sha: Option<string>) returns (ok: bool)
      requires Valid() && HasDocument(documents, contentId)
      requires sha == Some(h(text)) || (sha.None? && text == CurrentText(State(), contentId))
      modifies this
      ensures Valid() && ok
      ensures var n := VersionCount(old(State()), contentId) + 1;
              versions == old(versions) + [Version(VersionId(contentId, n), contentId, n, state, text, h(text))]
      ensures OnlyTouched(old(documents), documents, contentId, state == Archived)
    {
      ghost var before := State();
      AppendAdds(before, h, classOf, contentId, state, text, sha);
      var existing := VersionCount(State(), contentId);
      var number := existing + 1;
      var versionId := VersionId(contentId, number);
      var vs := InsertVersion(versions, Version(versionId, contentId, number, state, text, h(text)));
      if vs.None? {
        return false;
      }
      versions := vs.value;
      documents := UpdateDocument(documents, contentId, versionId, sha, state == Archived);
      assert Append(before, h, contentId, state, text, sha) == Some(State());
      return true;
    }

    /** `save_content_document`: it succeeds on every document that exists, and adds exactly the
        next version, which the document then shows. */
    method SaveDocument(contentId: string, text: string) returns (ok: bool)
      requires Valid()
      modifies this
      ensures Valid() && (ok <==> HasDocument(old(documents), contentId)) && (!ok ==> State() == old(State()))
      ensures ok ==> var n := VersionCount(old(State()), contentId) + 1;
                && versions ==
                   old(versions) + [Version(VersionId(contentId, n), contentId, n, Published, text, h(text))]
                && OnlyTouched(old(documents), documents, contentId, false)
    {
      FoundById(documents, contentId);
      if ByContentId(documents, contentId).None? {
        return false;
      }
      ok := AppendVersion(contentId, Published, text, Some(h(text)));
    }

    /** `archive_content_document`: the next version repeats the text, which must not be empty. */
    method ArchiveDocument(contentId: string) returns (ok: bool)
      requires Valid()
      modifies this
      ensures Valid() && (!ok ==> State() == old(State()))
      ensures ok <==> HasDocument(old(documents), contentId) && CurrentText(old(State()), contentId) != []
      ensures ok ==> var n, text := VersionCount(old(State()), contentId) + 1, CurrentText(old(State()), contentId);
                && versions == old(versions) + [Version(VersionId(contentId, n), contentId, n, Archived, text, h(text))]
                && OnlyTouched(old(documents), documents, contentId, true)
    {
      var text := CurrentText(State(), contentId);
      FoundById(documents, contentId);
      if ByContentId(documents, contentId).None? || text == [] {
        return false;
      }
      ok := AppendVersion(contentId, Archived, text, None);
    }

    /** `restore_content_document`: the same, and the document is no longer archived. */
    method RestoreDocument(contentId: string) returns (ok: bool)
      requires Valid()
      modifies this
      ensures Valid() && (!ok ==> State() == old(State()))
      ensures ok <==> HasDocument(old(documents), contentId) && CurrentText(old(State()), contentId) != []
      ensures ok ==> var n, text := VersionCount(old(State()), contentId) + 1, CurrentText(old(State()), contentId);
                && versions == old(versions) + [Version(VersionId(contentId, n), contentId, n, Restored, text, h(text))]
                && OnlyTouched(old(documents), documents, contentId, false)
    {
      var text := CurrentText(State(), contentId);
      FoundById(documents, contentId);
      if ByContentId(documents, contentId).None? || text == [] {
        return false;
      }
      ok := AppendVersion(contentId, Restored, text, None);
    }

    /** `sync_content_inventory`, with its counters: what is created are new documents, what is created or
        updated are new versions, and the rest of the items is unchanged. When a statement raises, the enclosing
        transaction puts both tables back. */
    method SyncInventory(items: seq<Item>) returns (ok: bool, created: nat, updated: nat, same: nat)
      modifies this
      ensures var r := Sync(old(State()), items);
              ok == r.Some? && State() == if ok then r.value else old(State())
      ensures ok ==> created + updated + same == |items| && created == |documents| - |old(documents)|
      ensures old(Valid()) && AllInventoried(items, h, classOf) ==> created + updated == |versions| - |old(versions)|
      ensures old(Valid()) && AllInventoried(items, h, classOf) ==> ok && Valid() && old(versions) <= versions
    {
      var before := State();
      ghost var regular := Valid() && AllInventoried(items, h, classOf);
      if regular {
        SyncKeeps(before, h, classOf, items);
      }
      created, updated, same := 0, 0, 0;
      for i := 0 to |items|
        invariant created + updated + same == i
        invariant Sync(State(), items[i..]) == Sync(before, items)
        invariant |documents| == |before.documents| + created
        invariant regular ==> Valid() && |versions| == |before.versions| + created + updated
      {
        var item := items[i];
        ghost var r := State();
        if regular {
          VersionCounts(r, h, classOf, item);
          SyncItemKeeps(r, h, classOf, item);
        }
        assert items[i..][1..] == items[i + 1..];
        var id := ContentId(item.classKey, item.path);
        var existing := ByPath(documents, item.path);
        var latest := if existing.Some? then Latest(State(), id) else None;
        if latest.Some? && latest.value.sha == item.sha {
          UpsertCounts(documents, Document(id, item.path, latest.value.id, item.sha, false));
          documents := UpsertDocument(documents, Document(id, item.path, latest.value.id, item.sha, false)).value;
          same := same + 1;
        } else {
          var number := if latest.Some? then latest.value.number + 1 else 1;
          var versionId := VersionId(id, number);
          var vs := UpsertVersion(versions, Version(versionId, id, number, Imported, item.text, item.sha));
          var ds := UpsertDocument(documents, Document(id, item.path, versionId, item.sha, false));
          if vs.None? || ds.None? {
            versions, documents := before.versions, before.documents;
            return false, created, updated, same;
          }
          UpsertCounts(documents, Document(id, item.path, versionId, item.sha, false));
          versions, documents := vs.value, ds.value;
          if existing.None? {
            created := created + 1;
          } else {
            updated := updated + 1;
          }
        }
      }
      return true, created, updated, same;
    }
  }
}
