/**
  `File::bind`: resolving a '/'-separated path, component by component,
  from a base directory (the root when none is given). Each component is
  looked up with `readEntry` and compared without regard to case.
*/
module PathResolver {
  import opened Words
  import opened VolumeGeometry
  import opened BlockDevice
  import opened Files
  import opened DirectoryScanner

  /** Where a walk over a path ends. */
  datatype Walked =
    | Found(file: File)
    | NotFound
    | Hangs
    | NoFuel

  /** The outcome of `bind`: its result code and the new value of `*this`. */
  datatype Bound =
    | Bound(code: Result, file: File)
    | BindHangs
    | BindOutOfFuel

  /** The component before the first '/', and what follows that '/' (none when there is no '/'). */
  function SplitFirst(path: string): (r: (string, Option<string>))
    ensures '/' !in r.0
    ensures r.1.None? ==> r.0 == path
    ensures r.1.Some? ==> path == r.0 + "/" + r.1.value
  {
    if |path| == 0 then ("", None)
    else if path[0] == '/' then ("", Some(path[1..]))
    else
      var (comp, rest) := SplitFirst(path[1..]);
      ([path[0]] + comp, rest)
  }

  function RestLength(rest: Option<string>): nat
  {
    if rest.None? then 0 else |rest.value|
  }

  /** How an entry is matched against a path component. */
  type Matcher = (File, string) -> bool

  /** The match `bind` uses: the entry's name and the component agree ignoring case (`strcasecmp`). */
  predicate Names(f: File, comp: string)
  {
    CaseEqual(CStr(f.name), comp)
  }

  /**
    The outer loop of `bind`: an empty path ends at the base; a leading '/'
    is skipped; otherwise the first component is looked up in the base.
    `read` is `readEntry` on the volume and `named` is `Names`.
  */
  function BindPath(read: Reader, named: Matcher, path: string, base: File, fuel: nat): (r: Walked)
    decreases |path|, 0, 0, 0
  {
    if |path| == 0 then Found(base)
    else if path[0] == '/' then BindPath(read, named, path[1..], base, fuel)
    else
      var (comp, rest) := SplitFirst(path);
      Search(read, named, comp, rest, base, fuel)
  }

  /**
    The inner loop of `bind`: read entries of `dir` until one is `named` by
    `comp`. `fuel` bounds the entries read.
  */
  function Search(read: Reader, named: Matcher, comp: string, rest: Option<string>, dir: File, fuel: nat): (r: Walked)
    decreases RestLength(rest), 1, fuel, 1
  {
    Examine(read, named, comp, rest, read(dir, fuel), fuel)
  }

  /**
    What the inner loop does with one result of `readEntry`: `ERR_READ` is
    retried forever on the same pointer; `INF_STOP`, and `INF_LAST` on a
    different name, give up; a matching name either ends the walk or
    continues it with the rest of the path from the entry found.
  */
  function Examine(read: Reader, named: Matcher, comp: string, rest: Option<string>, scan: Scan, fuel: nat): (r: Walked)
    decreases RestLength(rest), 1, fuel, 0
  {
    match scan
    case ScanOutOfFuel => NoFuel
    case Scanned(code, dir', entry) =>
      if code == ErrRead then Hangs
      else if code == InfStop || entry.None? then NotFound
      else
        var file := entry.value;
        if named(file, comp) then
          if rest.Some? then BindPath(read, named, rest.value, file, fuel) else Found(file)
        else if code == InfLast then NotFound
        else if fuel == 0 then NoFuel
        else Search(read, named, comp, rest, dir', fuel - 1)
  }

  /** The stand-in for the root directory used when no base is given. */
  function RootDir(g: Geometry): (r: File)
    ensures r.name == "/" && r.attr == 0x14 && r.baseCluster == g.rootCluster && r.size == 0
    ensures r.pos == Cursor(g.rootCluster, 0, 0)
  {
    Reset(File("/", AttrSystem + AttrDirectory, g.rootCluster, 0, Cursor(0, 0, 0)))
  }

  /** Where `bind` starts: the base given, or the root. */
  function Start(g: Geometry, base: Option<File>): (r: File)
    ensures base.None? ==> r.baseCluster == g.rootCluster && r.pos == Cursor(g.rootCluster, 0, 0)
  {
    if base.Some? then base.value else RootDir(g)
  }

  /**
    `bind(path, base)`: `*this` becomes the file the components of the path
    lead to, and `INF_SUCCESS` is returned; when a component has no match
    in its directory's listing, `ERR_READ` is returned and `*this` is only
    reset; a directory that cannot be read makes the call hang.
  */
  function Bind(g: Geometry, d: Disk, self: File, path: string, base: Option<File>, fuel: nat): (r: Bound)
    requires '\0' !in path
    requires base.Some? ==> base.value.baseCluster == 0 || SlotAligned(base.value.pos)
    ensures r.Bound? ==> r.code == InfSuccess || r.code == ErrRead
    ensures var cs := Components(path);
      var t := Follow(Lists(Reads(g, d)), Names, cs, 0, |cs|, Start(g, base), fuel);
      && (t.Reached? <==> r.Bound? && r.code == InfSuccess)
      && (t.Reached? ==> r.file == t.file)
      && (t.Stuck? && t.end == Exhausted <==> r.Bound? && r.code == ErrRead)
      && (t.Stuck? && t.end == Unreadable <==> r == BindHangs)
    ensures r.Bound? && r.code == ErrRead ==> r.file == Reset(self)
  {
    var start := Start(g, base);
    BindPathResolves(Reads(g, d), Names, path, start, fuel);
    match BindPath(Reads(g, d), Names, path, start, fuel)
    case Found(f) => Bound(InfSuccess, f)
    case NotFound => Bound(ErrRead, Reset(self))
    case Hangs => BindHangs
    case NoFuel => BindOutOfFuel
  }

  // ---------------------------------------------------------------------------
  // The reference resolution: components, listings, first matches.

  /** The position of the first entry `named` by `comp`, or the length of the list when none is. */
  function FirstMatch(named: Matcher, entries: seq<File>, comp: string): (k: nat)
    ensures k <= |entries|
  {
    if |entries| == 0 then 0
    else if named(entries[0], comp) then 0
    else 1 + FirstMatch(named, entries[1..], comp)
  }

  /** The entry `FirstMatch` picks is named by the component, and no entry before it is. */
  lemma {:induction false} FirstMatchIsFirst(named: Matcher, entries: seq<File>, comp: string)
    ensures var k := FirstMatch(named, entries, comp);
      && (k < |entries| ==> named(entries[k], comp))
      && (forall j :: 0 <= j < k ==> !named(entries[j], comp))
  {
    if |entries| > 0 && !named(entries[0], comp) {
      FirstMatchIsFirst(named, entries[1..], comp);
      var k := FirstMatch(named, entries, comp);
      forall j | 0 <= j < k
        ensures !named(entries[j], comp)
      {
        if j > 0 {
          assert entries[j] == entries[1..][j - 1];
        }
      }
    }
  }

  /** The components of a path: its maximal runs of characters other than '/', in order. */
  function Components(path: string): (cs: seq<string>)
    ensures forall j :: 0 <= j < |cs| ==> |cs[j]| > 0 && '/' !in cs[j]
    decreases |path|
  {
    if |path| == 0 then []
    else if path[0] == '/' then Components(path[1..])
    else
      var (comp, rest) := SplitFirst(path);
      [comp] + (if rest.Some? then Components(rest.value) else [])
  }

  /** Following components: the file reached and the fuel left, or the component where it stops and why. */
  datatype Trail = Reached(file: File, fuel: nat) | Stuck(at: nat, end: ListEnd)

  /** A way of listing a directory, allowed some fuel. */
  type Lister = (File, nat) -> Listing

  /** The listings that successive `readEntry` calls give. */
  function Lists(read: Reader): Lister
  {
    (dir: File, fuel: nat) => List(read, dir, fuel)
  }

  /**
    Following components `lo` up to (not including) `hi` of `cs`: each in
    turn selects the first entry of the current directory's listing that it
    names, the entries passed over using up fuel; a component that no
    listed entry names stops the walk, with the way that listing ended.
    (A listing of `List` never holds more than `fuel + 1` entries, so
    `fuel - k` never falls below zero for it.)
  */
  function Follow(list: Lister, named: Matcher, cs: seq<string>, lo: nat, hi: nat, base: File, fuel: nat): (t: Trail)
    requires lo <= hi <= |cs|
    ensures t.Stuck? ==> lo <= t.at < hi
    decreases hi - lo
  {
    if lo == hi then Reached(base, fuel)
    else
      var l := list(base, fuel);
      var k := FirstMatch(named, l.entries, cs[lo]);
      if k < |l.entries| then Follow(list, named, cs, lo + 1, hi, l.entries[k], if k <= fuel then fuel - k else 0)
      else Stuck(lo, l.end)
  }

  /** What a listing's end means for a lookup that reached it. */
  function EndOf(e: ListEnd): Walked
  {
    match e
    case Exhausted => NotFound
    case Unreadable => Hangs
    case ListOutOfFuel => NoFuel
  }

  /** The outcome of following all of a list of components. */
  function Resolve(list: Lister, named: Matcher, cs: seq<string>, base: File, fuel: nat): (r: Walked)
  {
    match Follow(list, named, cs, 0, |cs|, base, fuel)
    case Reached(f, _) => Found(f)
    case Stuck(_, e) => EndOf(e)
  }

  /**
    One lookup is the first match in the directory's listing: the entry
    found is the first one the component names, and when none is named the
    lookup ends as the listing does (`NotFound` once the directory is
    exhausted).
  */
  lemma SearchFindsFirst(read: Reader, named: Matcher, comp: string, rest: Option<string>, dir: File, fuel: nat)
    ensures var l := List(read, dir, fuel);
      var k := FirstMatch(named, l.entries, comp);
      Search(read, named, comp, rest, dir, fuel) ==
        if k == |l.entries| then EndOf(l.end)
        else if rest.Some? then BindPath(read, named, rest.value, l.entries[k], fuel - k)
        else Found(l.entries[k])
    decreases fuel, 1
  {
    ExamineFindsFirst(read, named, comp, rest, read(dir, fuel), fuel);
  }

  lemma {:induction false} ExamineFindsFirst(read: Reader, named: Matcher, comp: string, rest: Option<string>, scan: Scan, fuel: nat)
    ensures var l := ListScan(read, scan, fuel);
      var k := FirstMatch(named, l.entries, comp);
      Examine(read, named, comp, rest, scan, fuel) ==
        if k == |l.entries| then EndOf(l.end)
        else if rest.Some? then BindPath(read, named, rest.value, l.entries[k], fuel - k)
        else Found(l.entries[k])
    decreases fuel, 0
  {
    match scan
    case ScanOutOfFuel =>
    case Scanned(code, dir', entry) =>
      if code != ErrRead && code != InfStop && entry.Some? && !named(entry.value, comp)
         && code != InfLast && fuel > 0
      {
        SearchFindsFirst(read, named, comp, rest, dir', fuel - 1);
        FirstMatchCons(named, entry.value, List(read, dir', fuel - 1).entries, comp);
      }
  }


  /** Matching a list with an entry put in front. */
  lemma FirstMatchCons(named: Matcher, e: File, es: seq<File>, comp: string)
    ensures var k := FirstMatch(named, es, comp);
      && FirstMatch(named, [e] + es, comp) == (if named(e, comp) then 0 else 1 + k)
      && (k < |es| ==> ([e] + es)[1 + k] == es[k])
  {
    assert ([e] + es)[1..] == es;
  }


  /** The outer loop of `bind` is the reference resolution of the path's components. */
  lemma {:induction false} BindPathResolves(read: Reader, named: Matcher, path: string, base: File, fuel: nat)
    ensures BindPath(read, named, path, base, fuel) == Resolve(Lists(read), named, Components(path), base, fuel)
    decreases |path|
  {
    if |path| > 0 {
      if path[0] == '/' {
        BindPathResolves(read, named, path[1..], base, fuel);
      } else {
        var (comp, rest) := SplitFirst(path);
        var tail := if rest.Some? then Components(rest.value) else [];
        assert Components(path) == [comp] + tail;
        SearchFindsFirst(read, named, comp, rest, base, fuel);
        ResolveCons(Lists(read), named, comp, tail, base, fuel);
        var l := List(read, base, fuel);
        var k := FirstMatch(named, l.entries, comp);
        if k < |l.entries| && rest.Some? {
          BindPathResolves(read, named, rest.value, l.entries[k], fuel - k);
        }
      }
    }
  }

  /** Resolving components is a first-match lookup of the first, then resolving the others from the entry found. */
  lemma ResolveCons(list: Lister, named: Matcher, c: string, cs: seq<string>, base: File, fuel: nat)
    ensures var l := list(base, fuel);
      var k := FirstMatch(named, l.entries, c);
      Resolve(list, named, [c] + cs, base, fuel) ==
        if k == |l.entries| then EndOf(l.end) else Resolve(list, named, cs, l.entries[k], if k <= fuel then fuel - k else 0)
  {
    var l := list(base, fuel);
    var k := FirstMatch(named, l.entries, c);
    assert ([c] + cs)[0] == c;
    if k < |l.entries| {
      FollowShift(list, named, c, cs, 0, |cs|, l.entries[k], if k <= fuel then fuel - k else 0);
      assert Follow(list, named, [c] + cs, 0, |cs| + 1, base, fuel) == Follow(list, named, [c] + cs, 1, |cs| + 1, l.entries[k], if k <= fuel then fuel - k else 0);
    } else {
      assert Follow(list, named, [c] + cs, 0, |cs| + 1, base, fuel) == Stuck(0, l.end);
    }
  }

  /** Following a list with one component put in front, from the second component on, is following the list. */
  lemma {:induction false} FollowShift(list: Lister, named: Matcher, c: string, cs: seq<string>, lo: nat, hi: nat, base: File, fuel: nat)
    requires lo <= hi <= |cs|
    ensures var t := Follow(list, named, [c] + cs, lo + 1, hi + 1, base, fuel);
      var u := Follow(list, named, cs, lo, hi, base, fuel);
      && (u.Reached? ==> t == u)
      && (u.Stuck? ==> t == Stuck(u.at + 1, u.end))
    decreases hi - lo
  {
    if lo < hi {
      assert ([c] + cs)[lo + 1] == cs[lo];
      var l := list(base, fuel);
      var k := FirstMatch(named, l.entries, cs[lo]);
      if k < |l.entries| {
        FollowShift(list, named, c, cs, lo + 1, hi, l.entries[k], if k <= fuel then fuel - k else 0);
      }
    }
  }

  /**
    A walk stops at component `t.at` only after the components before it
    reached some directory whose listing has no entry that component names;
    the walk ends the way that listing does.
  */
  lemma {:induction false} StuckHasNoMatch(list: Lister, named: Matcher, cs: seq<string>, lo: nat, hi: nat, base: File, fuel: nat)
    returns (dir: File, f: nat)
    requires lo <= hi <= |cs|
    requires Follow(list, named, cs, lo, hi, base, fuel).Stuck?
    ensures var t := Follow(list, named, cs, lo, hi, base, fuel);
      && Follow(list, named, cs, lo, t.at, base, fuel) == Reached(dir, f)
      && FirstMatch(named, list(dir, f).entries, cs[t.at]) == |list(dir, f).entries|
      && list(dir, f).end == t.end
    decreases hi - lo
  {
    var l := list(base, fuel);
    var k := FirstMatch(named, l.entries, cs[lo]);
    if k == |l.entries| {
      dir, f := base, fuel;
    } else {
      dir, f := StuckHasNoMatch(list, named, cs, lo + 1, hi, l.entries[k], if k <= fuel then fuel - k else 0);
    }
  }

  /**
    Conversely, once the components before `i` reach a directory whose
    listing has no entry that component `i` names, the walk stops at `i`.
  */
  lemma {:induction false} NoMatchIsStuck(list: Lister, named: Matcher, cs: seq<string>, lo: nat, i: nat, hi: nat,
                                          base: File, fuel: nat, dir: File, f: nat)
    requires lo <= i < hi <= |cs|
    requires Follow(list, named, cs, lo, i, base, fuel) == Reached(dir, f)
    requires FirstMatch(named, list(dir, f).entries, cs[i]) == |list(dir, f).entries|
    ensures Follow(list, named, cs, lo, hi, base, fuel) == Stuck(i, list(dir, f).end)
    decreases i - lo
  {
    if lo < i {
      var l := list(base, fuel);
      var k := FirstMatch(named, l.entries, cs[lo]);
      NoMatchIsStuck(list, named, cs, lo + 1, i, hi, l.entries[k], if k <= fuel then fuel - k else 0, dir, f);
    }
  }

  /**
    `bind` returns `ERR_READ` only when the path's first `i` components lead
    to a directory whose listing runs to its end without an entry that
    component `i` names.
  */
  lemma NotFoundHasUnmatched(g: Geometry, d: Disk, self: File, path: string, base: Option<File>, fuel: nat)
    returns (i: nat, dir: File, f: nat)
    requires '\0' !in path
    requires base.Some? ==> base.value.baseCluster == 0 || SlotAligned(base.value.pos)
    requires Bind(g, d, self, path, base, fuel).Bound? && Bind(g, d, self, path, base, fuel).code == ErrRead
    ensures var cs := Components(path);
      && i < |cs|
      && Follow(Lists(Reads(g, d)), Names, cs, 0, i, Start(g, base), fuel) == Reached(dir, f)
      && var l := List(Reads(g, d), dir, f);
      && l.end == Exhausted
      && (forall j :: 0 <= j < |l.entries| ==> !Names(l.entries[j], cs[i]))
  {
    var cs := Components(path);
    i := Follow(Lists(Reads(g, d)), Names, cs, 0, |cs|, Start(g, base), fuel).at;
    dir, f := StuckHasNoMatch(Lists(Reads(g, d)), Names, cs, 0, |cs|, Start(g, base), fuel);
    FirstMatchIsFirst(Names, List(Reads(g, d), dir, f).entries, cs[i]);
  }

  /**
    Conversely, once the first `i` components lead to a directory whose
    listing runs to its end without an entry that component `i` names,
    `bind` returns `ERR_READ` and only resets `*this`.
  */
  lemma UnmatchedIsNotFound(g: Geometry, d: Disk, self: File, path: string, base: Option<File>, fuel: nat,
                            i: nat, dir: File, f: nat)
    requires '\0' !in path
    requires base.Some? ==> base.value.baseCluster == 0 || SlotAligned(base.value.pos)
    requires var cs := Components(path);
      && i < |cs|
      && Follow(Lists(Reads(g, d)), Names, cs, 0, i, Start(g, base), fuel) == Reached(dir, f)
      && var l := List(Reads(g, d), dir, f);
      && l.end == Exhausted
      && (forall j :: 0 <= j < |l.entries| ==> !Names(l.entries[j], cs[i]))
    ensures Bind(g, d, self, path, base, fuel) == Bound(ErrRead, Reset(self))
  {
    var cs := Components(path);
    FirstMatchIsFirst(Names, List(Reads(g, d), dir, f).entries, cs[i]);
    NoMatchIsStuck(Lists(Reads(g, d)), Names, cs, 0, i, |cs|, Start(g, base), fuel, dir, f);
  }

  // ---------------------------------------------------------------------------
  // Properties.

  /** A path made only of '/' characters (or empty) names the base itself. */
  lemma {:induction false} SlashesNameBase(read: Reader, named: Matcher, path: string, base: File, fuel: nat)
    requires forall j :: 0 <= j < |path| ==> path[j] == '/'
    ensures BindPath(read, named, path, base, fuel) == Found(base)
    decreases |path|
  {
    if |path| > 0 {
      SlashesNameBase(read, named, path[1..], base, fuel);
    }
  }

  /** Leading '/' characters do not change the result. */
  lemma {:induction false} LeadingSlashesIgnored(read: Reader, named: Matcher, k: nat, path: string, base: File, fuel: nat)
    ensures BindPath(read, named, seq(k, _ => '/') + path, base, fuel) == BindPath(read, named, path, base, fuel)
    decreases k
  {
    if k > 0 {
      var p := seq(k, _ => '/') + path;
      assert p[0] == '/';
      assert p[1..] == seq(k - 1, _ => '/') + path;
      LeadingSlashesIgnored(read, named, k - 1, path, base, fuel);
    } else {
      assert seq(k, _ => '/') + path == path;
    }
  }

  /** A read error on the first entry of the directory makes the lookup hang. */
  lemma ReadErrorHangs(g: Geometry, d: Disk, comp: string, rest: Option<string>, dir: File, fuel: nat)
    requires SlotAligned(dir.pos) && dir.baseCluster != 0 && !Readable(g, d, dir.pos)
    ensures Search(Reads(g, d), Names, comp, rest, dir, fuel) == Hangs
  {
    ReadFailureKeepsPointer(g, d, dir, fuel);
  }

  /** Splitting depends only on where the '/' characters are, so lowering commutes with it. */
  lemma {:induction false} SplitLower(p: string, q: string)
    requires Lower(p) == Lower(q)
    ensures Lower(SplitFirst(p).0) == Lower(SplitFirst(q).0)
    ensures SplitFirst(p).1.Some? <==> SplitFirst(q).1.Some?
    ensures SplitFirst(p).1.Some? ==> Lower(SplitFirst(p).1.value) == Lower(SplitFirst(q).1.value)
    decreases |p|
  {
    if |p| > 0 {
      assert ToLower(p[0]) == ToLower(q[0]);
      assert Lower(p[1..]) == Lower(q[1..]) by {
        assert Lower(p)[1..] == Lower(p[1..]);
        assert Lower(q)[1..] == Lower(q[1..]);
      }
      SlashLower(p[0], q[0]);
      if p[0] != '/' {
        SplitLower(p[1..], q[1..]);
        var (c1, _) := SplitFirst(p[1..]);
        var (c2, _) := SplitFirst(q[1..]);
        LowerCons(p[0], c1);
        LowerCons(q[0], c2);
      }
    }
  }

  lemma SlashLower(a: char, b: char)
    requires ToLower(a) == ToLower(b)
    ensures a == '/' <==> b == '/'
  {
  }

  lemma LowerCons(c: char, s: string)
    ensures Lower([c] + s) == [ToLower(c)] + Lower(s)
  {
    assert ([c] + s)[1..] == s;
  }

  /** Paths that differ only in letter case resolve to the same outcome. */
  lemma {:induction false} BindIgnoresCase(read: Reader, p: string, q: string, base: File, fuel: nat)
    requires Lower(p) == Lower(q)
    ensures BindPath(read, Names, p, base, fuel) == BindPath(read, Names, q, base, fuel)
    decreases |p|, 0, 0, 0
  {
    if |p| > 0 {
      SlashLower(p[0], q[0]);
      assert Lower(p[1..]) == Lower(q[1..]) by {
        assert Lower(p)[1..] == Lower(p[1..]);
        assert Lower(q)[1..] == Lower(q[1..]);
      }
      if p[0] == '/' {
        BindIgnoresCase(read, p[1..], q[1..], base, fuel);
      } else {
        SplitLower(p, q);
        var (c1, r1) := SplitFirst(p);
        var (c2, r2) := SplitFirst(q);
        SearchIgnoresCase(read, c1, r1, c2, r2, base, fuel);
      }
    }
  }

  lemma SearchIgnoresCase(read: Reader, c1: string, r1: Option<string>,
                           c2: string, r2: Option<string>, dir: File, fuel: nat)
    requires Lower(c1) == Lower(c2)
    requires r1.Some? <==> r2.Some?
    requires r1.Some? ==> Lower(r1.value) == Lower(r2.value)
    ensures Search(read, Names, c1, r1, dir, fuel) == Search(read, Names, c2, r2, dir, fuel)
    decreases RestLength(r1), 1, fuel, 1
  {
    ExamineIgnoresCase(read, c1, r1, c2, r2, read(dir, fuel), fuel);
  }

  lemma {:induction false} ExamineIgnoresCase(read: Reader, c1: string, r1: Option<string>,
                                               c2: string, r2: Option<string>, scan: Scan, fuel: nat)
    requires Lower(c1) == Lower(c2)
    requires r1.Some? <==> r2.Some?
    requires r1.Some? ==> Lower(r1.value) == Lower(r2.value)
    ensures Examine(read, Names, c1, r1, scan, fuel) == Examine(read, Names, c2, r2, scan, fuel)
    decreases RestLength(r1), 1, fuel, 0
  {
    match scan
    case ScanOutOfFuel =>
    case Scanned(code, dir', entry) =>
      if code != ErrRead && code != InfStop && entry.Some? {
        var file := entry.value;
        if Names(file, c1) {
          if r1.Some? {
            BindIgnoresCase(read, r1.value, r2.value, file, fuel);
          }
        } else if code != InfLast && fuel > 0 {
          SearchIgnoresCase(read, c1, r1, c2, r2, dir', fuel - 1);
        }
      }
  }

  /**
    What a successful lookup returns: the last component names the entry
    found (ignoring case), and the entry's pointer is at its start.
  */
  lemma SearchFoundMatches(g: Geometry, d: Disk, comp: string, dir: File, fuel: nat, f: File)
    requires Search(Reads(g, d), Names, comp, None, dir, fuel) == Found(f)
    ensures Names(f, comp)
    ensures f.pos == Cursor(f.baseCluster, 0, 0)
    decreases fuel, 1
  {
    ExamineFoundMatches(g, d, comp, Reads(g, d)(dir, fuel), fuel, f);
  }

  lemma {:induction false} ExamineFoundMatches(g: Geometry, d: Disk, comp: string, scan: Scan, fuel: nat, f: File)
    requires scan.Scanned? && scan.entry.Some? ==> scan.entry.value.pos == Cursor(scan.entry.value.baseCluster, 0, 0)
    requires Examine(Reads(g, d), Names, comp, None, scan, fuel) == Found(f)
    ensures Names(f, comp)
    ensures f.pos == Cursor(f.baseCluster, 0, 0)
    decreases fuel, 0
  {
    if !Names(scan.entry.value, comp) {
      SearchFoundMatches(g, d, comp, scan.dir, fuel - 1, f);
    }
  }
}
