/**
 * The request handler of the server (src/handlers/mod.rs): the request path is
 * sanitised into a relative path, pushed onto ".", and the node found there is
 * served as text, as an HTML list of links, or reported as missing.
 */
module Handlers {

  import opened Wrappers
  import opened Paths
  import opened Ordering
  import opened Media
  import opened FileSystem

  /** What the handler hands back; `Panic` stands for an `unwrap()` on a failed call. */
  datatype Response = Reply(mime: Mime, body: string) | Panic

  // ----- sanitize_path -----

  /**
   * `sanitize_path`: a fold that pushes each `Normal` component onto an empty
   * path and drops every other kind. The result parses back to exactly the
   * normal components of the input, in order.
   */
  function SanitizePath(path: string): (r: string)
    ensures Components(r) == Normals(NormalNames(Components(path)))
  {
    NormalNamesValid(path);
    RelativeComponents(NormalNames(Components(path)));
    PushAll("", NormalNames(Components(path)))
  }

  /** Sanitising twice is sanitising once. */
  lemma SanitizeIdempotent(path: string)
    ensures SanitizePath(SanitizePath(path)) == SanitizePath(path)
  {
    NormalNamesOfNormals(NormalNames(Components(path)));
  }

  /** Sanitising a path built on "." drops the leading `CurDir`: "./sub/x" becomes "sub/x". */
  lemma SanitizeDropsCurDir(ns: seq<string>)
    requires AllValid(ns)
    ensures SanitizePath(PushAll(".", ns)) == PushAll("", ns)
  {
    DottedNames(ns);
  }

  /** The path `static_handler` touches: `SanitizePath` of the request pushed onto ".". */
  function ServePath(requestPath: string): string {
    Push(".", SanitizePath(requestPath))
  }

  /** The serve root: pushing no name onto "." gives "./", which parses to `CurDir` alone. */
  lemma ServeRoot()
    ensures Push(".", PushAll("", [])) == "./"
    ensures Components("./") == [CurDir]
  {
    TrailingSep(".");
    DottedComponents([]);
    assert "./" == "." + [Sep];
  }

  /** A relative path of names is the first name, then '/' and each further name. */
  lemma RelativeSlashed(ns: seq<string>)
    requires AllValid(ns) && ns != []
    ensures PushAll("", ns) == ns[0] + Slashed(ns[1..])
    ensures PushAll("", ns)[0] != Sep
  {
    ValidTail(ns);
    NameEnds(ns[0]);
    assert PushAll("", ns) == PushAll(ns[0], ns[1..]) by { assert Push("", ns[0]) == ns[0]; }
    PushAllSlashed(ns[0], ns[1..]);
  }

  /** Pushing a relative path of names onto "." is pushing the names one by one. */
  lemma ServeBelowRoot(ns: seq<string>)
    requires AllValid(ns) && ns != []
    ensures Push(".", PushAll("", ns)) == PushAll(".", ns)
  {
    var r, tail := PushAll("", ns), Slashed(ns[1..]);
    RelativeSlashed(ns);
    assert Push(".", r) == "." + [Sep] + r;
    assert PushAll(".", ns) == "." + ([Sep] + ns[0] + tail) by { PushAllSlashed(".", ns); }
    AppendAssoc(".", [Sep], r);
    AppendAssoc([Sep], ns[0], tail);
    AppendAssoc(".", [Sep] + ns[0], tail);
    AppendAssoc(".", [Sep], ns[0]);
  }

  /**
   * The served path is "." followed only by the normal components of the
   * request, so it never leaves the serve root; the root itself is "./".
   */
  lemma ServePathConfined(requestPath: string)
    ensures var ns := NormalNames(Components(requestPath));
      && Components(ServePath(requestPath)) == [CurDir] + Normals(ns)
      && ServePath(requestPath) == (if ns == [] then "./" else PushAll(".", ns))
      && Confined(ServePath(requestPath))
  {
    var ns := NormalNames(Components(requestPath));
    var sp := ServePath(requestPath);
    assert sp == Push(".", PushAll("", ns));
    NormalNamesValid(requestPath);
    if ns == [] {
      ServeRoot();
      assert Normals(ns) == [];
    } else {
      ServeBelowRoot(ns);
      DottedComponents(ns);
    }
    DottedConfined(sp, ns);
  }

  /** A path that parses to `CurDir` and then names only is confined. */
  lemma DottedConfined(p: string, ns: seq<string>)
    requires Components(p) == [CurDir] + Normals(ns)
    ensures Confined(p)
  {
    forall c | c in Components(p) ensures c == CurDir || c.Normal? {
      var i :| 0 <= i < |Components(p)| && Components(p)[i] == c;
      if i > 0 { assert c == Normals(ns)[i - 1]; }
    }
  }

  /** What `fs::metadata` finds at the served path. */
  function Target(fs: Tree, requestPath: string): Option<Node> {
    ServePathConfined(requestPath);
    Lookup(fs, ServePath(requestPath))
  }

  /** Whatever the request path, the node looked up is the one its normal components name below the root. */
  lemma TargetIsBelowRoot(fs: Tree, requestPath: string)
    ensures var key := NormalNames(Components(requestPath));
      Target(fs, requestPath) == if key in fs then Some(fs[key]) else None
  {
    var ns := NormalNames(Components(requestPath));
    ServePathConfined(requestPath);
    NormalNamesConcat([CurDir], Normals(ns));
    NormalNamesOfNormals(ns);
    assert NormalNames([CurDir]) == [] by { assert [CurDir][1..] == []; }
    assert NormalNames(Components(ServePath(requestPath))) == ns;
  }

  // ----- render_link and directory_listing -----

  const LinkOpen: string := "<li><a href=\"/"

  /**
   * `render_link` for the child `name` of `dir`: the child's path sanitised
   * as the href and its `file_name` as the text. `file_name` cannot fail
   * here, because the child path ends in the name that was pushed.
   */
  function RenderLink(dir: string, name: EntryName): string {
    var path := Push(dir, name);
    PushFileName(dir, name);
    LinkOpen + SanitizePath(path) + "\">" + FileName(path).value + "</a></li>"
  }

  /** The part of a link after the name in its href. */
  function LinkTail(name: string): string {
    "\">" + name + "</a></li>"
  }

  /** A link is the opening tag, the directory's names and the entry's name joined by '/', and the entry's name as text. */
  lemma RenderLinkText(dir: string, name: EntryName)
    ensures RenderLink(dir, name) == LinkOpen + PushAll("", NormalNames(Components(dir)) + [name]) + LinkTail(name)
  {
    var path := Push(dir, name);
    var href := PushAll("", NormalNames(Components(dir)) + [name]);
    assert SanitizePath(path) == href by { PushConfined(dir, name); }
    assert FileName(path) == Some(name) by { PushFileName(dir, name); }
    AppendAssoc(LinkOpen + href, "\">", name);
    AppendAssoc(LinkOpen + href, "\">" + name, "</a></li>");
  }

  /**
   * A link names the entry it was rendered for: its text is the entry's name,
   * and its href, after the leading '/', is the directory's normal components
   * followed by that name, joined by '/', so it holds no ".." segment.
   */
  lemma RenderLinkNamesEntry(dir: string, name: EntryName)
    ensures var ms := NormalNames(Components(dir)) + [name];
      var href := PushAll("", ms);
      && RenderLink(dir, name) == LinkOpen + href + LinkTail(name)
      && Components(href) == Normals(ms)
      && Split(href) == ms
      && href == JoinSegments(ms)
      && ".." !in Split(href)
  {
    var ms := NormalNames(Components(dir)) + [name];
    RenderLinkText(dir, name);
    NormalNamesValid(dir);
    assert AllValid(ms) by {
      forall i | 0 <= i < |ms| ensures ValidName(ms[i]) {
        if i < |ms| - 1 { assert ms[i] == NormalNames(Components(dir))[i]; }
      }
    }
    RelativeComponents(ms);
    RelativeSplit(ms);
    JoinSplit(PushAll("", ms));
    assert ".." !in ms by {
      forall i | 0 <= i < |ms| ensures ms[i] != ".." { assert ValidName(ms[i]); }
    }
  }

  /** The href of `dir`'s entries up to the entry's name: its names joined by '/', then a '/' if there are any. */
  function DirHref(dir: string): string {
    var h := PushAll("", NormalNames(Components(dir)));
    if |h| > 0 && h[|h| - 1] != Sep then h + [Sep] else h
  }

  lemma HrefParts(dir: string, name: EntryName)
    ensures PushAll("", NormalNames(Components(dir)) + [name]) == DirHref(dir) + name
  {
    PushAllSnoc("", NormalNames(Components(dir)), name);
    NameEnds(name);
  }

  /** The part of every link of `dir` before the entry's name: the opening tag and the directory's href. */
  function LinkPrefix(dir: string): string {
    LinkOpen + DirHref(dir)
  }

  /** The links of one directory differ only from the entry's name on. */
  lemma RenderLinkParts(dir: string, name: EntryName)
    ensures RenderLink(dir, name) == LinkPrefix(dir) + (name + LinkTail(name))
  {
    RenderLinkText(dir, name);
    HrefParts(dir, name);
    AppendAssoc(LinkOpen, DirHref(dir), name);
    AppendAssoc(LinkOpen + DirHref(dir), name, LinkTail(name));
  }

  /**
   * Sorting the links of a directory orders them by name followed by the rest
   * of the link, whatever the directory.
   */
  lemma LinkOrder(dir: string, n1: EntryName, n2: EntryName)
    ensures LexLe(RenderLink(dir, n1), RenderLink(dir, n2)) <==> LexLe(n1 + LinkTail(n1), n2 + LinkTail(n2))
  {
    RenderLinkParts(dir, n1);
    RenderLinkParts(dir, n2);
    LexLeSharedPrefix(LinkPrefix(dir), n1 + LinkTail(n1), n2 + LinkTail(n2), RenderLink(dir, n1), RenderLink(dir, n2));
  }

  /**
   * The rendered order is not the order of names or of hrefs: in any
   * directory "a" comes before "a!", but the link of "a!" comes before the
   * link of "a", because '!' is below the '"' that closes the href.
   */
  lemma LinkOrderIsNotNameOrder(dir: string, a: EntryName, b: EntryName)
    requires a == "a" && b == "a!"
    ensures LexLe(a, b)
    ensures !LexLe(RenderLink(dir, a), RenderLink(dir, b))
    ensures LexLe(RenderLink(dir, b), RenderLink(dir, a))
  {
    LinkOrder(dir, a, b);
    LinkOrder(dir, b, a);
    TailOrder();
  }

  lemma TailOrder()
    ensures !LexLe("a" + LinkTail("a"), "a!" + LinkTail("a!"))
    ensures LexLe("a!" + LinkTail("a!"), "a" + LinkTail("a"))
  {
    assert ("a" + LinkTail("a"))[1..] == LinkTail("a");
    assert ("a!" + LinkTail("a!"))[1..] == "!" + LinkTail("a!");
  }

  /** `filter_map(|e| e.ok()).map(f)`: `f` of each listed name, in order, skipping the error items. */
  function Collect<T>(listing: seq<Option<T>>, f: T -> string): seq<string>
  {
    if listing == [] then []
    else (if listing[0].Some? then [f(listing[0].value)] else []) + Collect(listing[1..], f)
  }

  lemma {:induction false} CollectComplete<T>(listing: seq<Option<T>>, f: T -> string, j: nat)
    requires j < |listing| && listing[j].Some?
    ensures f(listing[j].value) in Collect(listing, f)
  {
    if j > 0 {
      assert listing[1..][j - 1] == listing[j];
      CollectComplete(listing[1..], f, j - 1);
    }
  }

  lemma {:induction false} CollectSound<T>(listing: seq<Option<T>>, f: T -> string, l: string)
    requires l in Collect(listing, f)
    ensures exists j :: 0 <= j < |listing| && listing[j].Some? && l == f(listing[j].value)
  {
    if listing[0].Some? && l == f(listing[0].value) {
    } else {
      assert l in Collect(listing[1..], f);
      CollectSound(listing[1..], f, l);
      var j :| 0 <= j < |listing[1..]| && listing[1..][j].Some? && l == f(listing[1..][j].value);
      assert listing[j + 1] == listing[1..][j];
    }
  }

  /** The links of the listed names, in enumeration order. */
  function RenderLinks(dir: string, listing: seq<Option<EntryName>>): seq<string> {
    Collect(listing, (name: EntryName) => RenderLink(dir, name))
  }

  /** Every listed name has its link, and every link is that of a listed name. */
  lemma RenderLinksExact(dir: string, listing: seq<Option<EntryName>>)
    ensures forall j :: 0 <= j < |listing| && listing[j].Some? ==> RenderLink(dir, listing[j].value) in RenderLinks(dir, listing)
    ensures forall l :: l in RenderLinks(dir, listing) ==>
      exists j :: 0 <= j < |listing| && listing[j].Some? && l == RenderLink(dir, listing[j].value)
  {
    var f := (name: EntryName) => RenderLink(dir, name);
    forall j | 0 <= j < |listing| && listing[j].Some? ensures RenderLink(dir, listing[j].value) in RenderLinks(dir, listing) {
      CollectComplete(listing, f, j);
    }
    forall l | l in RenderLinks(dir, listing)
      ensures exists j :: 0 <= j < |listing| && listing[j].Some? && l == RenderLink(dir, listing[j].value)
    {
      CollectSound(listing, f, l);
    }
  }

  /** `entries.join("")`. */
  function Concat(ss: seq<string>): string {
    if ss == [] then "" else ss[0] + Concat(ss[1..])
  }

  /** The sort key of `Vec<String>::sort`: the whole rendered string. */
  function Itself(s: string): string {
    s
  }

  /** The listing page for a set of links: them sorted, joined, and wrapped in a list. */
  function ListingPage(links: seq<string>): string {
    "<ul>" + Concat(InsertionSort(links, Itself)) + "</ul>"
  }

  /** A listing page holds every link once, in ascending order of the rendered strings. */
  lemma ListingPageSorted(links: seq<string>)
    ensures var sorted := InsertionSort(links, Itself);
      && ListingPage(links) == "<ul>" + Concat(sorted) + "</ul>"
      && Sorted(sorted, Itself)
      && multiset(sorted) == multiset(links)
  {
    InsertionSortSorted(links, Itself);
    InsertionSortPermutes(links, Itself);
  }

  /** `directory_listing`; None stands for the panic of `read_dir(path).unwrap()`. */
  method DirectoryListing(fs: Tree, path: string) returns (r: Option<string>)
    requires Confined(path)
    ensures var t := Lookup(fs, path);
      if t.Some? && t.value.DirNode? && t.value.listing.Some?
      then r == Some(ListingPage(RenderLinks(path, t.value.listing.value)))
      else r == None
  {
    var t := Lookup(fs, path);
    if t.Some? && t.value.DirNode? && t.value.listing.Some? {
      var links := RenderLinks(path, t.value.listing.value);
      var a := new string[|links|](i requires 0 <= i < |links| => links[i]);
      assert a[..] == links;
      SortBy(a, Itself);
      r := Some("<ul>" + Concat(a[..]) + "</ul>");
    } else {
      r := None;
    }
  }

  /** The text `read_to_string` leaves in the buffer; decoding UTF-8 is the caller's function. */
  function ReadText(contents: Contents, decodeUtf8: seq<byte> -> Option<string>): string {
    match contents
    case Bytes(data) => (match decodeUtf8(data) case Some(text) => text case None => "")
    case _ => ""
  }

  // ----- static_handler -----

  /** `static_handler`: not found, directory listing or file contents, by what the served path holds. */
  method StaticHandler(fs: Tree, requestPath: string, decodeUtf8: seq<byte> -> Option<string>)
    returns (resp: Response)
    ensures var t := Target(fs, requestPath);
      if t.None? then resp == Reply(TextHtml, "<h2>No file found at path: " + ServePath(requestPath))
      else if t.value.DirNode? then
        resp == (if t.value.listing.Some?
                 then Reply(TextHtml, ListingPage(RenderLinks(ServePath(requestPath), t.value.listing.value)))
                 else Panic)
      else if t.value.contents.Unopenable? then resp == Panic
      else resp == Reply(TextPlain, ReadText(t.value.contents, decodeUtf8))
  {
    var path := ".";
    path := Push(path, SanitizePath(requestPath));
    ServePathConfined(requestPath);
    var meta := Lookup(fs, path);
    if meta.None? {
      resp := Reply(TextHtml, "<h2>No file found at path: " + path);
    } else if meta.value.DirNode? {
      var listing := DirectoryListing(fs, path);
      resp := if listing.Some? then Reply(TextHtml, listing.value) else Panic;
    } else if meta.value.contents.Unopenable? {
      resp := Panic;
    } else {
      var buffer := ReadText(meta.value.contents, decodeUtf8);
      resp := Reply(TextPlain, buffer);
    }
  }
}
