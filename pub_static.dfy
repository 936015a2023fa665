/**
 * The directory-listing iteration of the server (src/pub_static.rs): a
 * request path is sanitised onto ".", a regular file is returned with its
 * guessed media type, and a directory is returned as its breadcrumb trail and
 * its entries sorted by lower-cased name.
 */
module PubStatic {

  import opened Wrappers
  import opened Paths
  import opened Ordering
  import opened Media
  import opened FileSystem

  /** One row of a directory listing. */
  datatype Entry = Entry(href: string, name: string, mtime: string, size: nat)

  datatype Static =
    | Directory(currentPath: string, breadcrumbs: seq<(string, string)>, entries: seq<Entry>)
    | File(mimeType: Mime, buffer: seq<byte>)

  // ----- sanitize_path -----

  /**
   * What `sanitize_path` builds: "." with each normal component of `path`
   * pushed in order. It has no `RootDir`, `ParentDir` or `Prefix` component,
   * and its normal components are those of the input in their order.
   */
  function Sanitized(path: string): (r: string)
    ensures Confined(r)
    ensures NormalNames(Components(r)) == NormalNames(Components(path))
  {
    NormalNamesValid(path);
    DottedNames(NormalNames(Components(path)));
    PushAll(".", NormalNames(Components(path)))
  }

  /** `sanitize_path`: keeps the `Normal` components and drops every other kind. */
  method SanitizePath(path: string) returns (acc: string)
    ensures acc == Sanitized(path)
    ensures Components(acc) == [CurDir] + Normals(NormalNames(Components(path)))
  {
    var cs := Components(path);
    acc := ".";
    assert cs[0..] == cs;
    for i := 0 to |cs|
      invariant PushAll(acc, NormalNames(cs[i..])) == Sanitized(path)
    {
      NormalNamesSuffix(cs, i);
      if cs[i].Normal? {
        var x := cs[i].name;
        PushAllCons(acc, x, NormalNames(cs[i + 1..]));
        acc := Push(acc, x);
      } else {
        assert NormalNames(cs[i..]) == NormalNames(cs[i + 1..]);
      }
    }
    assert cs[|cs|..] == [];
    NormalNamesValid(path);
    DottedComponents(NormalNames(Components(path)));
  }

  /** Sanitising a sanitised path changes nothing, so `breadcrumbs` may sanitise again. */
  lemma SanitizeIdempotent(path: string)
    ensures Sanitized(Sanitized(path)) == Sanitized(path)
  {
  }

  /** What `fs::metadata` finds at the sanitised path. */
  function Target(fs: Tree, path: string): Option<Node> {
    Lookup(fs, Sanitized(path))
  }

  /** Whatever the request path, the node looked up is the one its normal components name below the root. */
  lemma TargetIsBelowRoot(fs: Tree, path: string)
    ensures var key := NormalNames(Components(path));
      Target(fs, path) == if key in fs then Some(fs[key]) else None
  {
  }

  // ----- breadcrumbs -----

  /**
   * `crumbs` is the trail for the names `ns`: ("/", "root") first, then for
   * each k the first k names joined by '/' paired with the k-th name.
   */
  predicate IsTrail(crumbs: seq<(string, string)>, ns: seq<string>) {
    && |crumbs| == 1 + |ns|
    && crumbs[0] == ("/", "root")
    && forall k :: 1 <= k < |crumbs| ==> crumbs[k] == (PushAll("", ns[..k]), ns[k - 1])
  }

  lemma TrailSnoc(crumbs: seq<(string, string)>, ns: seq<string>, x: string)
    requires IsTrail(crumbs, ns)
    ensures IsTrail(crumbs + [(Push(PushAll("", ns), x), x)], ns + [x])
  {
    PushAllSnoc("", ns, x);
    var crumbs' := crumbs + [(Push(PushAll("", ns), x), x)];
    forall k | 1 <= k < |crumbs'| ensures crumbs'[k] == (PushAll("", (ns + [x])[..k]), (ns + [x])[k - 1]) {
      if k <= |ns| {
        assert (ns + [x])[..k] == ns[..k];
      } else {
        assert (ns + [x])[..k] == ns + [x];
      }
    }
  }

  /** `breadcrumbs`: the trail of the path's normal components, after sanitising it once more. */
  method Breadcrumbs(path: string) returns (crumbs: seq<(string, string)>)
    ensures IsTrail(crumbs, NormalNames(Components(path)))
  {
    var sanitized := SanitizePath(path);
    var cs := Components(sanitized);
    var acc := "";
    crumbs := [("/", "root")];
    for i := 0 to |cs|
      invariant IsTrail(crumbs, NormalNames(cs[..i]))
      invariant acc == PushAll("", NormalNames(cs[..i]))
    {
      NormalNamesPrefix(cs, i);
      if cs[i].Normal? {
        var x := cs[i].name;
        ghost var ns := NormalNames(cs[..i]);
        TrailSnoc(crumbs, ns, x);
        PushAllSnoc("", ns, x);
        acc := Push(acc, x);
        crumbs := crumbs + [(acc, x)];
      }
    }
    assert cs[..|cs|] == cs;
  }

  /**
   * Along a trail each href extends the one before it by exactly its own
   * label, and the href of crumb k parses to the first k names.
   */
  lemma TrailExtends(crumbs: seq<(string, string)>, ns: seq<string>)
    requires IsTrail(crumbs, ns) && AllValid(ns)
    ensures forall k :: 1 <= k < |crumbs| - 1 ==> crumbs[k + 1].0 == Push(crumbs[k].0, crumbs[k + 1].1)
    ensures forall k :: 1 <= k < |crumbs| ==> Components(crumbs[k].0) == Normals(ns[..k])
    ensures forall k :: 1 <= k < |crumbs| ==> crumbs[k].0 == JoinSegments(ns[..k])
  {
    forall k | 1 <= k < |crumbs| - 1 ensures crumbs[k + 1].0 == Push(crumbs[k].0, crumbs[k + 1].1) {
      assert ns[..k + 1] == ns[..k] + [ns[k]];
      PushAllSnoc("", ns[..k], ns[k]);
    }
    forall k | 1 <= k < |crumbs| ensures Components(crumbs[k].0) == Normals(ns[..k]) {
      assert AllValid(ns[..k]) by {
        forall i | 0 <= i < k ensures ValidName(ns[..k][i]) { assert ns[..k][i] == ns[i]; }
      }
      RelativeComponents(ns[..k]);
    }
    forall k | 1 <= k < |crumbs| ensures crumbs[k].0 == JoinSegments(ns[..k]) {
      assert AllValid(ns[..k]) by {
        forall i | 0 <= i < k ensures ValidName(ns[..k][i]) { assert ns[..k][i] == ns[i]; }
      }
      RelativeJoin(ns[..k]);
    }
  }

  // ----- Entry::new and the listing pipeline -----

  /**
   * `Entry::new` for the child `name` of `dir`: it fails exactly when the
   * child's metadata or modification time cannot be read, and otherwise
   * describes that child, whose href names it one level below `dir`.
   */
  function NewEntry(fs: Tree, dir: string, name: EntryName): (r: Option<Entry>)
    requires Confined(dir)
    ensures var key := NormalNames(Components(dir)) + [name];
      r.Some? <==> key in fs && fs[key].meta.mtime.Some?
    ensures var key := NormalNames(Components(dir)) + [name];
      r.Some? ==>
        && r.value.name == name && r.value.href == Push(dir, name)
        && Confined(r.value.href) && NormalNames(Components(r.value.href)) == key
        && r.value.mtime == fs[key].meta.mtime.value && r.value.size == fs[key].meta.size
  {
    var path := Push(dir, name);
    PushConfined(dir, name);
    match Lookup(fs, path)
    case None => None
    case Some(node) =>
      match node.meta.mtime
      case None => None
      case Some(t) => Some(Entry(path, name, t, node.meta.size))
  }

  /**
   * The `filter_map`/`map`/`filter_map` pipeline over `read_dir`: the entries
   * of the listed names whose `Entry::new` succeeded, in enumeration order.
   */
  function BuildEntries(fs: Tree, dir: string, listing: seq<Option<EntryName>>): seq<Entry>
    requires Confined(dir)
  {
    if listing == [] then []
    else
      var head :=
        if listing[0].Some? && NewEntry(fs, dir, listing[0].value).Some?
        then [NewEntry(fs, dir, listing[0].value).value] else [];
      head + BuildEntries(fs, dir, listing[1..])
  }

  /** Every built entry is the entry of some name the listing reports. */
  lemma {:induction false} BuildEntriesSound(fs: Tree, dir: string, listing: seq<Option<EntryName>>, e: Entry)
    requires Confined(dir)
    requires e in BuildEntries(fs, dir, listing)
    ensures exists j :: 0 <= j < |listing| && listing[j].Some? && NewEntry(fs, dir, listing[j].value) == Some(e)
  {
    var head :=
      if listing[0].Some? && NewEntry(fs, dir, listing[0].value).Some?
      then [NewEntry(fs, dir, listing[0].value).value] else [];
    if e in head {
      assert NewEntry(fs, dir, listing[0].value) == Some(e);
    } else {
      BuildEntriesSound(fs, dir, listing[1..], e);
      var j :| 0 <= j < |listing[1..]| && listing[1..][j].Some? && NewEntry(fs, dir, listing[1..][j].value) == Some(e);
      assert listing[j + 1] == listing[1..][j];
    }
  }

  /** Every listed name whose `Entry::new` succeeds has its entry built: only failures are dropped. */
  lemma {:induction false} BuildEntriesComplete(fs: Tree, dir: string, listing: seq<Option<EntryName>>, j: nat)
    requires Confined(dir)
    requires j < |listing| && listing[j].Some? && NewEntry(fs, dir, listing[j].value).Some?
    ensures NewEntry(fs, dir, listing[j].value).value in BuildEntries(fs, dir, listing)
  {
    if j > 0 {
      assert listing[1..][j - 1] == listing[j];
      BuildEntriesComplete(fs, dir, listing[1..], j - 1);
    }
  }

  /** The sort key of `sort_by`. */
  function LowerName(e: Entry): string {
    Lower(e.name)
  }

  /** `entries.sort_by(...)` on the built entries: the stable sort by lower-cased name. */
  method SortEntries(built: seq<Entry>) returns (entries: seq<Entry>)
    ensures entries == InsertionSort(built, LowerName)
  {
    var a := new Entry[|built|](i requires 0 <= i < |built| => built[i]);
    assert a[..] == built;
    SortBy(a, LowerName);
    entries := a[..];
  }

  /** The directory page `Static::new` returns for a listing of the sanitised path. */
  predicate IsListingOf(r: Result<Static>, path: string, built: seq<Entry>) {
    && r.Ok? && r.value.Directory?
    && r.value.currentPath == Sanitized(path)
    && IsTrail(r.value.breadcrumbs, NormalNames(Components(path)))
    && r.value.entries == InsertionSort(built, LowerName)
  }

  /** `Static::new` picks the file, directory or failure case from what the tree holds at the sanitised path. */
  method NewStatic(fs: Tree, path: string, guessMime: string -> Mime) returns (r: Result<Static>)
    ensures var t := Target(fs, path);
      if t.None? then r == Failed
      else if t.value.FileNode? then
        r == (if t.value.contents.Bytes? then Ok(File(guessMime(Sanitized(path)), t.value.contents.data)) else Failed)
      else if t.value.listing.None? then r == Failed
      else IsListingOf(r, path, BuildEntries(fs, Sanitized(path), t.value.listing.value))
  {
    var p := SanitizePath(path);
    var target := Lookup(fs, p);
    assert target == Target(fs, path);
    if target.Some? && target.value.FileNode? {
      if target.value.contents.Bytes? {
        r := Ok(File(guessMime(p), target.value.contents.data));
      } else {
        r := Failed;
      }
    } else if target.Some? && target.value.listing.Some? {
      var listing := target.value.listing.value;
      assert listing == Target(fs, path).value.listing.value;
      var built := BuildEntries(fs, p, listing);
      var entries := SortEntries(built);
      var crumbs := Breadcrumbs(p);
      r := Ok(Directory(p, crumbs, entries));
      assert r.value.entries == InsertionSort(built, LowerName);
    } else {
      r := Failed;
    }
  }

  /** The entries of a listing page are sorted by lower-cased name, stably, and are exactly the built ones. */
  lemma ListingSorted(r: Result<Static>, path: string, built: seq<Entry>)
    requires IsListingOf(r, path, built)
    ensures Sorted(r.value.entries, LowerName)
    ensures multiset(r.value.entries) == multiset(built)
    ensures forall k :: Filter(r.value.entries, LowerName, k) == Filter(built, LowerName, k)
    ensures |r.value.breadcrumbs| == 1 + |NormalNames(Components(path))|
  {
    StableSortPromises(built, LowerName);
  }
}
