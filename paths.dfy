/**
 * A Unix stand-in for the parts of Rust's `std::path` that the server uses:
 * `Path::components`, `PathBuf::push` and `Path::file_name`, on paths written
 * as strings with '/' as the only separator.
 *
 * `Components` follows the Unix rules of `Path::components`: a leading '/'
 * yields `RootDir`; empty segments (repeated or trailing separators) are
 * skipped; a "." segment is reported as `CurDir` only when it is the first
 * segment of a relative path and is skipped elsewhere; ".." yields
 * `ParentDir`; every other segment is `Normal`. `Prefix` (a Windows drive or
 * UNC prefix) never comes out of this parser but is part of the component type,
 * so the sanitisers are stated for it too.
 */
module Paths {

  import opened Wrappers

  datatype Component = RootDir | CurDir | ParentDir | Prefix(raw: string) | Normal(name: string)

  const Sep: char := '/'

  /** A name that `Path::components` reports as a `Normal` component. */
  predicate ValidName(x: string) {
    x != "" && x != "." && x != ".." && Sep !in x
  }

  predicate AllValid(ns: seq<string>) {
    forall i :: 0 <= i < |ns| ==> ValidName(ns[i])
  }

  /** The text between separators: "a//b/" has the segments "a", "", "b", "". */
  function Split(s: string): (r: seq<string>)
    ensures |r| >= 1
    ensures forall i :: 0 <= i < |r| ==> Sep !in r[i]
  {
    if s == [] then [""]
    else if s[0] == Sep then [""] + Split(s[1..])
    else
      var t := Split(s[1..]);
      [[s[0]] + t[0]] + t[1..]
  }

  /** Puts the separators back between segments. */
  function JoinSegments(ts: seq<string>): string
    requires |ts| >= 1
  {
    if |ts| == 1 then ts[0] else ts[0] + [Sep] + JoinSegments(ts[1..])
  }

  /** Splitting loses nothing: the segments joined by '/' give the string back. */
  lemma {:induction false} JoinSplit(s: string)
    ensures JoinSegments(Split(s)) == s
  {
    if s != [] {
      JoinSplit(s[1..]);
      var t := Split(s[1..]);
      if s[0] == Sep {
        assert Split(s)[1..] == t;
      } else if |t| == 1 {
        assert Split(s) == [[s[0]] + t[0]];
      } else {
        assert Split(s)[1..] == t[1..];
        assert JoinSegments(t) == t[0] + [Sep] + JoinSegments(t[1..]);
      }
    }
  }

  /** The component a segment after the first one stands for. */
  function Segment(t: string): seq<Component> {
    if t == "" || t == "." then []
    else if t == ".." then [ParentDir]
    else [Normal(t)]
  }

  function Segments(ts: seq<string>): (r: seq<Component>)
    ensures forall j :: 0 <= j < |r| ==>
      r[j] == ParentDir || (r[j].Normal? && r[j].name in ts && r[j].name != "" && r[j].name != "." && r[j].name != "..")
  {
    if ts == [] then [] else Segment(ts[0]) + Segments(ts[1..])
  }

  /** `Path::components` on Unix. */
  function Components(s: string): seq<Component> {
    var ts := Split(s);
    Lead(s, ts[0]) + Segments(ts[1..])
  }

  /**
   * Unix paths have no `Prefix`; only the first component can be `RootDir` or
   * `CurDir`; and every `Normal` component is a valid name.
   */
  lemma ComponentsShape(s: string)
    ensures var r := Components(s);
      && (forall i :: 0 <= i < |r| ==> !r[i].Prefix?)
      && (forall i :: 0 < i < |r| ==> r[i] == ParentDir || r[i].Normal?)
      && (forall i :: 0 <= i < |r| && r[i].Normal? ==> ValidName(r[i].name))
  {
    var ts := Split(s);
    var lead, rest := Lead(s, ts[0]), Segments(ts[1..]);
    var r := Components(s);
    assert r == lead + rest;
    forall i | 0 <= i < |r| && r[i].Normal? ensures ValidName(r[i].name) {
      if i < |lead| {
        assert r[i] == lead[i];
      } else {
        assert r[i] == rest[i - |lead|];
        var k :| 0 <= k < |ts[1..]| && ts[1..][k] == r[i].name;
        assert Sep !in ts[1 + k];
      }
    }
    forall i | 0 < i < |r| ensures r[i] == ParentDir || r[i].Normal? {
      assert |lead| <= 1;
      assert r[i] == rest[i - |lead|];
    }
  }

  /** The component the first segment stands for; a leading '/' leaves the first segment empty. */
  function Lead(s: string, first: string): seq<Component> {
    if |s| > 0 && s[0] == Sep then [RootDir]
    else if first == "." then [CurDir]
    else Segment(first)
  }

  /** The names of the `Normal` components, in order; every other kind is dropped. */
  function NormalNames(cs: seq<Component>): (ns: seq<string>)
    ensures |ns| <= |cs|
    ensures forall n :: n in ns ==> Normal(n) in cs
  {
    if cs == [] then []
    else (if cs[0].Normal? then [cs[0].name] else []) + NormalNames(cs[1..])
  }

  function Normals(ns: seq<string>): seq<Component> {
    seq(|ns|, i requires 0 <= i < |ns| => Normal(ns[i]))
  }

  /** A path that names the serve root or something below it: only `CurDir` and `Normal` components. */
  predicate Confined(p: string) {
    forall c :: c in Components(p) ==> c == CurDir || c.Normal?
  }

  /**
   * `PathBuf::push` for the Unix case: an absolute `x` replaces the buffer;
   * otherwise a separator is inserted unless the buffer is empty or already
   * ends with one.
   */
  function Push(acc: string, x: string): string {
    if |x| > 0 && x[0] == Sep then x
    else if |acc| > 0 && acc[|acc| - 1] != Sep then acc + [Sep] + x
    else acc + x
  }

  /** Pushes every name of `ns` in turn, as a left fold. */
  function PushAll(acc: string, ns: seq<string>): string
    decreases |ns|
  {
    if ns == [] then acc else PushAll(Push(acc, ns[0]), ns[1..])
  }

  /** `Path::file_name`: the last component when it is `Normal`. */
  function FileName(p: string): (r: Option<string>)
    ensures r.Some? ==> ValidName(r.value)
  {
    var cs := Components(p);
    if |cs| > 0 && cs[|cs| - 1].Normal? then Some(cs[|cs| - 1].name) else None
  }

  // ----- sequence helpers -----

  /** Each name preceded by a separator: ["a", "b"] gives "/a/b". */
  function Slashed(ns: seq<string>): string
    decreases |ns|
  {
    if ns == [] then "" else [Sep] + ns[0] + Slashed(ns[1..])
  }

  lemma ValidTail(ns: seq<string>)
    requires AllValid(ns) && ns != []
    ensures ValidName(ns[0]) && AllValid(ns[1..])
  {
    forall i | 0 <= i < |ns[1..]| ensures ValidName(ns[1..][i]) { assert ns[1..][i] == ns[i + 1]; }
  }

  lemma NameEnds(x: string)
    requires ValidName(x)
    ensures x[0] != Sep && x[|x| - 1] != Sep
  {
    assert x[0] in x && x[|x| - 1] in x;
  }

  lemma {:induction false} NormalNamesConcat(a: seq<Component>, b: seq<Component>)
    ensures NormalNames(a + b) == NormalNames(a) + NormalNames(b)
  {
    if a == [] {
      assert a + b == b;
    } else {
      var head := if a[0].Normal? then [a[0].name] else [];
      var ab := a + b;
      assert ab[0] == a[0] && ab[1..] == a[1..] + b;
      NormalNamesConcat(a[1..], b);
      var ra, rb := NormalNames(a[1..]), NormalNames(b);
      assert NormalNames(ab) == head + (ra + rb);
      assert head + (ra + rb) == (head + ra) + rb;
    }
  }

  lemma NormalNamesSnoc(cs: seq<Component>, c: Component)
    ensures NormalNames(cs + [c]) == NormalNames(cs) + (if c.Normal? then [c.name] else [])
  {
    NormalNamesConcat(cs, [c]);
    assert [c][1..] == [];
  }

  /** Extending a prefix of `cs` by one component extends its names by that component's name, if it has one. */
  lemma NormalNamesPrefix(cs: seq<Component>, i: nat)
    requires i < |cs|
    ensures NormalNames(cs[..i + 1]) == NormalNames(cs[..i]) + (if cs[i].Normal? then [cs[i].name] else [])
  {
    assert cs[..i + 1] == cs[..i] + [cs[i]];
    NormalNamesSnoc(cs[..i], cs[i]);
  }

  /** Dropping the first component of a suffix of `cs` drops its name, if it has one. */
  lemma NormalNamesSuffix(cs: seq<Component>, i: nat)
    requires i < |cs|
    ensures NormalNames(cs[i..]) == (if cs[i].Normal? then [cs[i].name] else []) + NormalNames(cs[i + 1..])
  {
    assert cs[i..][0] == cs[i] && cs[i..][1..] == cs[i + 1..];
  }

  lemma PushAllCons(acc: string, x: string, rest: seq<string>)
    ensures PushAll(acc, [x] + rest) == PushAll(Push(acc, x), rest)
  {
    assert ([x] + rest)[0] == x && ([x] + rest)[1..] == rest;
  }

  lemma {:induction false} NormalNamesOfNormals(ns: seq<string>)
    ensures NormalNames(Normals(ns)) == ns
    decreases |ns|
  {
    if ns != [] {
      var cs := Normals(ns);
      assert cs[0] == Normal(ns[0]);
      assert cs[1..] == Normals(ns[1..]);
      NormalNamesOfNormals(ns[1..]);
      assert NormalNames(cs) == [ns[0]] + ns[1..];
    }
  }

  lemma {:induction false} SegmentsConcat(a: seq<string>, b: seq<string>)
    ensures Segments(a + b) == Segments(a) + Segments(b)
  {
    if a == [] {
      assert a + b == b;
    } else {
      assert (a + b)[0] == a[0];
      assert (a + b)[1..] == a[1..] + b;
      SegmentsConcat(a[1..], b);
      assert Segments(a + b) == Segment(a[0]) + Segments(a[1..] + b);
    }
  }

  lemma {:induction false} SegmentsOfValid(ns: seq<string>)
    requires AllValid(ns)
    ensures Segments(ns) == Normals(ns)
    decreases |ns|
  {
    if ns != [] {
      ValidTail(ns);
      SegmentsOfValid(ns[1..]);
      assert Normals(ns) == [Normal(ns[0])] + Normals(ns[1..]);
    }
  }

  /** Splitting at a separator splits the segment lists apart. */
  lemma {:induction false} SplitConcat(a: string, b: string)
    ensures Split(a + [Sep] + b) == Split(a) + Split(b)
  {
    if a == [] {
      assert a + [Sep] + b == [Sep] + b;
      assert ([Sep] + b)[1..] == b;
    } else {
      assert (a + [Sep] + b)[0] == a[0];
      assert (a + [Sep] + b)[1..] == a[1..] + [Sep] + b;
      SplitConcat(a[1..], b);
    }
  }

  lemma {:induction false} SplitName(x: string)
    requires Sep !in x
    ensures Split(x) == [x]
  {
    if x != [] {
      SplitName(x[1..]);
      assert [x[0]] + x[1..] == x;
    }
  }

  lemma {:induction false} SplitSlashed(base: string, ns: seq<string>)
    requires AllValid(ns)
    ensures Split(base + Slashed(ns)) == Split(base) + ns
    decreases |ns|
  {
    if ns != [] {
      ValidTail(ns);
      var base' := base + [Sep] + ns[0];
      assert Slashed(ns) == [Sep] + ns[0] + Slashed(ns[1..]);
      assert base + Slashed(ns) == base' + Slashed(ns[1..]);
      SplitSlashed(base', ns[1..]);
      SplitConcat(base, ns[0]);
      SplitName(ns[0]);
      assert Split(base') == Split(base) + [ns[0]];
      assert Split(base) + [ns[0]] + ns[1..] == Split(base) + ns;
    } else {
      assert base + Slashed(ns) == base;
    }
  }

  lemma {:induction false} PushAllSlashed(base: string, ns: seq<string>)
    requires base != "" && base[|base| - 1] != Sep
    requires AllValid(ns)
    ensures PushAll(base, ns) == base + Slashed(ns)
    decreases |ns|
  {
    if ns != [] {
      ValidTail(ns);
      NameEnds(ns[0]);
      var base' := base + [Sep] + ns[0];
      assert Push(base, ns[0]) == base';
      assert base'[|base'| - 1] == ns[0][|ns[0]| - 1];
      PushAllSlashed(base', ns[1..]);
      assert Slashed(ns) == [Sep] + ns[0] + Slashed(ns[1..]);
      assert base' + Slashed(ns[1..]) == base + Slashed(ns);
    }
  }

  /** Pushing one more name is the same as pushing it after the others. */
  lemma {:induction false} PushAllSnoc(base: string, ns: seq<string>, x: string)
    ensures PushAll(base, ns + [x]) == Push(PushAll(base, ns), x)
    decreases |ns|
  {
    if ns != [] {
      assert (ns + [x])[1..] == ns[1..] + [x];
      PushAllSnoc(Push(base, ns[0]), ns[1..], x);
    }
  }

  /** A run of pushes onto "." parses back to `CurDir` followed by exactly these names. */
  lemma DottedComponents(ns: seq<string>)
    requires AllValid(ns)
    ensures Components(PushAll(".", ns)) == [CurDir] + Normals(ns)
  {
    PushAllSlashed(".", ns);
    SplitSlashed(".", ns);
    SplitName(".");
    SegmentsOfValid(ns);
    var ts := Split(PushAll(".", ns));
    assert ts == ["."] + ns;
    assert ts[1..] == ns;
  }

  /** The segments of a run of pushes onto the empty path are the names pushed. */
  lemma RelativeSplit(ns: seq<string>)
    requires AllValid(ns) && ns != []
    ensures Split(PushAll("", ns)) == ns
    ensures PushAll("", ns)[0] != Sep
  {
    var n, rest := ns[0], ns[1..];
    ValidTail(ns);
    NameEnds(n);
    assert Push("", n) == n;
    assert PushAll("", ns) == PushAll(n, rest);
    PushAllSlashed(n, rest);
    SplitSlashed(n, rest);
    SplitName(n);
    assert (n + Slashed(rest))[0] == n[0];
  }

  /** A run of pushes onto the empty path is the names joined by '/'. */
  lemma RelativeJoin(ns: seq<string>)
    requires AllValid(ns) && ns != []
    ensures PushAll("", ns) == JoinSegments(ns)
  {
    RelativeSplit(ns);
    JoinSplit(PushAll("", ns));
  }

  lemma NormalsCons(ns: seq<string>)
    requires ns != []
    ensures Normals(ns) == [Normal(ns[0])] + Normals(ns[1..])
  {
  }

  /** A run of pushes onto the empty path parses back to exactly these names. */
  lemma RelativeComponents(ns: seq<string>)
    requires AllValid(ns)
    ensures Components(PushAll("", ns)) == Normals(ns)
  {
    if ns == [] {
      assert Split("") == [""];
    } else {
      var p := PushAll("", ns);
      RelativeSplit(ns);
      ValidTail(ns);
      assert Lead(p, ns[0]) == [Normal(ns[0])] by {
        assert p[0] != Sep;
        assert ValidName(ns[0]);
      }
      assert Segments(ns[1..]) == Normals(ns[1..]) by { SegmentsOfValid(ns[1..]); }
      assert Components(p) == [Normal(ns[0])] + Normals(ns[1..]) by {
        assert Split(p)[0] == ns[0] && Split(p)[1..] == ns[1..];
      }
      NormalsCons(ns);
    }
  }

  /** The names of a dotted push run are exactly the names pushed. */
  lemma DottedNames(ns: seq<string>)
    requires AllValid(ns)
    ensures NormalNames(Components(PushAll(".", ns))) == ns
    ensures Confined(PushAll(".", ns))
  {
    DottedComponents(ns);
    NormalNamesConcat([CurDir], Normals(ns));
    NormalNamesOfNormals(ns);
  }

  /** The names of every parse are names `Path::components` would accept. */
  lemma NormalNamesValid(p: string)
    ensures AllValid(NormalNames(Components(p)))
  {
    var ns := NormalNames(Components(p));
    forall i | 0 <= i < |ns| ensures ValidName(ns[i]) {
      assert ns[i] in ns;
    }
  }

  lemma NameComponents(x: string)
    requires ValidName(x)
    ensures Components(x) == [Normal(x)]
  {
    NameEnds(x);
    SplitName(x);
    var ts := Split(x);
    assert ts[1..] == [];
    assert Components(x) == Segment(x) + Segments([]);
  }

  /** A trailing separator adds no component to a non-empty path. */
  lemma TrailingSep(d: string)
    requires d != ""
    ensures Components(d + [Sep]) == Components(d)
  {
    assert Split("") == [""];
    assert Segments([""]) == [] by { assert [""][1..] == []; }
    var t := d + [Sep] + "";
    assert t == d + [Sep] && t[0] == d[0];
    SplitConcat(d, "");
    var ts := Split(d) + [""];
    assert ts[0] == Split(d)[0];
    assert ts[1..] == Split(d)[1..] + [""];
    SegmentsConcat(Split(d)[1..], [""]);
  }

  /** The components of `d/t`, for a segment `t`: those `d/` starts with, then what `t` stands for. */
  lemma ComponentsSep(d: string, t: string)
    requires Sep !in t
    ensures Components(d + [Sep] + t) == Lead(d + [Sep], Split(d)[0]) + Segments(Split(d)[1..]) + Segment(t)
  {
    var s, ds := d + [Sep] + t, Split(d);
    var first := ds[0];
    assert Split(s) == ds + [t] by {
      SplitConcat(d, t);
      SplitName(t);
    }
    assert Segments((ds + [t])[1..]) == Segments(ds[1..]) + Segment(t) by {
      assert (ds + [t])[1..] == ds[1..] + [t];
      SegmentsConcat(ds[1..], [t]);
      assert Segments([t]) == Segment(t) by { assert [t][1..] == []; }
    }
    assert Lead(s, first) == Lead(d + [Sep], first) by { assert s[0] == (d + [Sep])[0]; }
    assert Components(s) == Lead(s, first) + Segments((ds + [t])[1..]) by { assert (ds + [t])[0] == first; }
    AppendAssoc(Lead(s, first), Segments(ds[1..]), Segment(t));
  }

  /** Concatenation regroups freely; stated once so proofs can rewrite by it instead of comparing elements. */
  lemma AppendAssoc<T>(a: seq<T>, b: seq<T>, c: seq<T>)
    ensures a + (b + c) == a + b + c
  {
  }

  lemma SepName(d: string, x: string)
    requires ValidName(x)
    ensures Components(d + [Sep] + x) == Components(d + [Sep]) + [Normal(x)]
  {
    ComponentsSep(d, x);
    ComponentsSep(d, "");
    assert d + [Sep] + "" == d + [Sep];
  }

  /**
   * Pushing a name onto any path appends exactly one `Normal` component and
   * leaves the components before it as they were.
   */
  lemma PushComponents(acc: string, x: string)
    requires ValidName(x)
    ensures Components(Push(acc, x)) == Components(acc) + [Normal(x)]
  {
    NameEnds(x);
    if acc == [] {
      assert Push(acc, x) == x;
      NameComponents(x);
      assert Split("") == [""];
    } else if acc[|acc| - 1] == Sep {
      var d := acc[..|acc| - 1];
      assert acc == d + [Sep];
      assert Push(acc, x) == d + [Sep] + x;
      SepName(d, x);
    } else {
      assert Push(acc, x) == acc + [Sep] + x;
      SepName(acc, x);
      TrailingSep(acc);
    }
  }

  /** A confined path stays confined when a name is pushed, and gains that name. */
  lemma PushConfined(acc: string, x: string)
    requires ValidName(x)
    ensures Confined(acc) ==> Confined(Push(acc, x))
    ensures NormalNames(Components(Push(acc, x))) == NormalNames(Components(acc)) + [x]
  {
    PushComponents(acc, x);
    NormalNamesConcat(Components(acc), [Normal(x)]);
    assert NormalNames([Normal(x)]) == [x] by { assert [Normal(x)][1..] == []; }
  }

  /** Pushing a name onto any path makes that name its final component, so `file_name` finds it. */
  lemma PushFileName(acc: string, x: string)
    requires ValidName(x)
    ensures FileName(Push(acc, x)) == Some(x)
  {
    PushComponents(acc, x);
  }
}
