# Static file server: path sanitising and directory listing

This project models the content-resolution core of a small static file server.
The server turns an untrusted request path into a path below its serve root. It
returns a regular file's contents or a listing of a directory. The repository has
two iterations of this logic, and both are modelled:

- `src/pub_static.rs`. `sanitize_path` pushes the `Normal` components of the
  request onto `"."`. `breadcrumbs` builds the trail of `(href, label)` pairs.
  `Static::new` returns either a file with its guessed media type, or a directory
  with breadcrumbs and entries stable-sorted by lower-cased name.
- `src/handlers/mod.rs`. `sanitize_path` folds the `Normal` components onto an
  empty path. `static_handler` pushes that onto `"."` and answers in one of three
  ways: not found, an HTML list of links, or the file's text. `render_link`
  formats one link, and `directory_listing` sorts the links and joins them.

Module layout:

- `Wrappers`: `Option`, and `Result` for `io::Result`.
- `Paths`: a Unix stand-in for `std::path`.
  - `Components` splits the path on '/'. A leading '/' gives `RootDir`, and a
    first segment "." gives `CurDir`. Empty segments and interior "." are
    skipped. ".." gives `ParentDir`; anything else is `Normal`.
  - `Push` models `PathBuf::push`: an absolute argument replaces the buffer, and
    otherwise a '/' is inserted only when needed. So pushing "" onto "." gives
    "./".
- `Ordering`: the order of `Ord for str`, ASCII lower-casing, and the stable
  in-place sort `SortBy`. `SortBy` works on an array and is specified by a
  functional insertion sort.
- `FileSystem`: the serve root as a map from a node's names below the root to
  the node. `Lookup` requires a confined path, meaning one with only `CurDir`
  and `Normal` components. Every filesystem access in the model is therefore
  proved confined.
- `Media`: the media types.
- `PubStatic` and `Handlers`: the two source files.

Behaviour of the code worth knowing:

- Unix paths never produce `Component::Prefix`.
- An `unwrap()` on a failed call in the handler is a `Panic` response. The
  second iteration panics when `read_dir` or `File::open` fails.
- The links are sorted as whole rendered strings, so their order is neither
  name order nor href order: `LinkOrderIsNotNameOrder` shows that in every
  directory the link of "a!" sorts before the link of "a", although "a" sorts
  before "a!".
- Entry hrefs in the first iteration are relative paths such as `./sub/x`.
- No request path is percent-decoded before it is split into components.
- A request for "/" resolves to "." in the first iteration and to "./" in the
  second.

The media-type guess and UTF-8 decoding are parameters of the model. They are
explained under "Left out".

## Model

| member | source | states |
|---|---|---|
| PubStatic.Sanitized | src/pub_static.rs:84-97 | the sanitised path is confined (no root, parent or prefix component) and has exactly the input's normal components, in order |
| PubStatic.SanitizePath | src/pub_static.rs:84-97 | the loop returns "." with each normal component pushed in order; its components are `CurDir` followed by exactly the input's normal components |
| PubStatic.SanitizeIdempotent | src/pub_static.rs:25 | sanitising the already sanitised path again, as `breadcrumbs` does, gives the same path |
| PubStatic.TargetIsBelowRoot | src/pub_static.rs:103-105 | whatever the request, the node looked up is the one named by the request's normal components below the root |
| PubStatic.Breadcrumbs | src/pub_static.rs:24-46 | the trail is ("/", "root") followed by one crumb per normal component: crumb k pairs the first k names joined by '/' with the k-th name, so there are 1 + (number of names) crumbs |
| PubStatic.TrailExtends | src/pub_static.rs:33-39 | along a trail each href is the previous href with its own label pushed, href k is the first k names joined by '/', and it parses to exactly those names |
| PubStatic.NewEntry | src/pub_static.rs:57-68 | `Entry::new` fails exactly when the child has no metadata or no modification time; otherwise the entry carries the listed name, that child's time and size, and as href the directory path with the name pushed, which is confined and names the child one level below the directory |
| PubStatic.BuildEntriesSound | src/pub_static.rs:117-121 | every built entry is the successful `Entry::new` of some listed name |
| PubStatic.BuildEntriesComplete | src/pub_static.rs:117-121 | every listed name whose `Entry::new` succeeds has its entry in the result; only failures are dropped |
| PubStatic.SortEntries | src/pub_static.rs:123 | the entries after `sort_by` are the stable sort of the built entries by lower-cased name |
| PubStatic.NewStatic | src/pub_static.rs:102-131 | missing path: error. File: its bytes and the guess for the sanitised path, or an error if it cannot be opened or read. Unreadable directory: error. Otherwise a directory page for the sanitised path with its trail and sorted entries |
| PubStatic.ListingSorted | src/pub_static.rs:117-129 | the page's entries are sorted by lower-cased name, are a permutation of the built entries, keep the enumeration order among equal names, and the trail has 1 + (number of names) crumbs |
| Ordering.LexLeTotal | src/pub_static.rs:123 | any two strings are comparable in the order of `str::cmp` |
| Ordering.LexLeTransitive | src/pub_static.rs:123 | the order of `str::cmp` is transitive |
| Ordering.LexLeAntisymmetric | src/handlers/mod.rs:67 | two strings that compare equal either way are the same string |
| Ordering.InsertionSortSorted | src/handlers/mod.rs:67 | the stable sort leaves its input in non-decreasing order of the key |
| Ordering.InsertionSortPermutes | src/handlers/mod.rs:67 | the stable sort rearranges its input without losing or adding an element |
| Ordering.InsertionSortStable | src/pub_static.rs:123 | elements with equal keys keep their relative order |
| Ordering.SortBy | src/pub_static.rs:123 | sorting the array in place leaves it equal to the stable sort of its old contents |
| Paths.PushComponents | src/pub_static.rs:89-91 | pushing a name onto any path appends exactly one `Normal` component for it and leaves the others as they were |
| Paths.PushConfined | src/handlers/mod.rs:13-16 | pushing a name keeps a path confined and appends the name to its normal names |
| Paths.PushFileName | src/handlers/mod.rs:56 | the file name of a path with a name pushed onto it is that name, so `file_name().unwrap()` cannot fail |
| Paths.DottedComponents | src/pub_static.rs:85-94 | "." with names pushed parses to `CurDir` followed by exactly those names |
| Paths.RelativeComponents | src/handlers/mod.rs:11-18 | the empty path with names pushed parses to exactly those names |
| Paths.RelativeJoin | src/handlers/mod.rs:11-18 | the empty path with names pushed is exactly those names joined by '/' |
| FileSystem.Lookup | src/handlers/mod.rs:28 | a confined path finds a node exactly when the tree holds one at its normal names |
| Handlers.SanitizePath | src/handlers/mod.rs:10-19 | the fold's result parses to exactly the input's normal components, in order, and nothing else |
| Handlers.SanitizeIdempotent | src/handlers/mod.rs:10-19 | sanitising twice is sanitising once |
| Handlers.SanitizeDropsCurDir | src/handlers/mod.rs:55 | re-sanitising a child path built on "." drops the leading "." (e.g. "./sub/x" becomes "sub/x") |
| Handlers.ServePathConfined | src/handlers/mod.rs:24-26 | the path the handler touches parses to `CurDir` followed by only the request's normal names, so it is confined; the root request gives "./" |
| Handlers.TargetIsBelowRoot | src/handlers/mod.rs:28 | the node found is the one named by the request's normal components below the root |
| Handlers.RenderLinkText | src/handlers/mod.rs:52-58 | a link is `<li><a href="/`, then the directory's names and the entry's name joined by '/', then `">`, the entry's name and `</a></li>` |
| Handlers.RenderLinkNamesEntry | src/handlers/mod.rs:52-58 | the href after the leading '/' is the directory's names then the entry's name joined by '/': it parses to those names, its segments are exactly those names, and none of them is ".." |
| Handlers.LinkOrder | src/handlers/mod.rs:67 | two links of one directory compare as their names followed by the rest of the link compare, whatever the directory |
| Handlers.LinkOrderIsNotNameOrder | src/handlers/mod.rs:67 | "a" sorts before "a!", but the link of "a!" sorts before the link of "a" |
| Handlers.RenderLinksExact | src/handlers/mod.rs:61-65 | every listed name has its link, and every link is that of a listed name |
| Handlers.ListingPageSorted | src/handlers/mod.rs:67-69 | the page is `<ul>`, the links in ascending order joined, and `</ul>`; the links on it are a permutation of the rendered ones |
| Handlers.DirectoryListing | src/handlers/mod.rs:60-70 | a readable directory gives the listing page of its rendered links (sorted in place); an unreadable one panics |
| Handlers.StaticHandler | src/handlers/mod.rs:21-50 | not found: `text/html` "No file found" with the served path. Directory: `text/html` listing, or a panic if unreadable. File: a panic if it cannot be opened, otherwise `text/plain` with its decoded text |

## Left out

- `src/main.rs` (server start-up, bind address, routing) is not part of this model.
- Percent-decoding and zip archiving: neither is implemented in the modelled files.
- `path_to_string`, `os_str_to_string`, `to_string_lossy` (src/pub_static.rs:10-22, 64) and `to_str().unwrap()` in `render_link` (src/handlers/mod.rs:56): every path and name in the model is a string of Unicode characters, so `to_str` always succeeds and these are the identity. The empty-string fallback for non-UTF-8 names in the first iteration, and the panic of the whole request that such a name causes in the second iteration, are not modelled.
- Ordering.Lower: ASCII lower-casing stands in for Unicode `to_lowercase`, and other letters compare unfolded.
- Ordering.SortBy: Rust's `sort` and `sort_by` are stable merge sorts. The model sorts by insertion, which is stable as well. It is not proved that every stable sort by the same key gives this result.
- `Path::components` on Windows: drive and UNC prefixes are never produced.
- Real filesystem calls (`fs::metadata`, `is_file`, `read_dir`, `File::open`, `read_to_end`, `read_to_string`) are lookups in an abstract tree.
  - Every error is one `Failed` value (or one of the `Unopenable`, `Unreadable` and unlistable cases), with no error kinds.
  - Symbolic links and node kinds other than file and directory are not modelled.
- Handlers.StaticHandler: `read_to_string` gives "" when decoding fails or the read fails. A read that fails part-way, after valid text was appended, is not modelled. UTF-8 decoding is the parameter `decodeUtf8`.
- PubStatic.NewStatic: `guess_mime_type` is the parameter `guessMime`, a function of the sanitised path.
- PubStatic.NewEntry: `meta.modified()` and the `chrono` formatting are one optional string per node. `meta.len()` is an unbounded `nat`, not a `u64`.
- `eprintln!` logging in the not-found branch is not modelled.
- Panics are a `Panic` response (or `None` from `DirectoryListing`), not an abort of the thread.
