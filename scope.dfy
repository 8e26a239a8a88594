/** The shape predicates of a litmus test (machinery.py): how its threads are
    spread over warps, CTAs, kernels and devices, and which memory spaces
    its variables live in; the memory map's parser and its two printers. */
module Scope {
  import opened Wrappers
  import opened Strings
  import opened Order

  // ---------------------------------------------------------------------------
  // The scope tree

  /** A scope tree as the grammar of `get_st_parser` reads it: the whole tree
      is a group of devices, a device a group of kernels, then CTAs, then
      warps, and a warp a group of threads. */
  datatype Node = Thread(name: string) | Group(kids: seq<Node>)

  /** The level of a group: the warp is level 0, the CTA 1, the kernel 2, the
      device 3, and the whole tree 4. */
  const Top := 4

  /** A thread token `[Pp][0-9]+`. */
  predicate IsThreadName(t: string) {
    |t| >= 2 && (t[0] == 'P' || t[0] == 'p') && forall i :: 1 <= i < |t| ==> '0' <= t[i] <= '9'
  }

  /** What the grammar accepts: every group has at least one member, warps
      hold threads and every other level holds groups of the level below. */
  ghost predicate WellFormed(n: Node, d: nat)
    decreases n
  {
    n.Group? && |n.kids| >= 1 &&
    forall i :: 0 <= i < |n.kids| ==>
      if d == 0 then n.kids[i].Thread? && IsThreadName(n.kids[i].name)
      else WellFormed(n.kids[i], d - 1)
  }

  /** The two parse actions. */
  datatype Action = F1 | F2

  /** `f1`/`f2` applied to the members' results: a member's `False` is
      passed on; otherwise `f1` accepts at most one member and `f2` at
      least two. A thread's token is a string, which never equals `False`. */
  function Act(a: Action, rs: seq<bool>): bool {
    (forall i :: 0 <= i < |rs| ==> rs[i]) && if a == F1 then |rs| <= 1 else |rs| >= 2
  }

  /** The value the parser produces for `n` at level `d` with actions `acts`
      (`acts[d]` is the action of level `d`). */
  function Value(n: Node, acts: seq<Action>, d: nat): bool
    requires |acts| == 5 && d < 5
    decreases n
  {
    match n
    case Thread(_) => true
    case Group(kids) =>
      Act(acts[d], seq(|kids|, i requires 0 <= i < |kids| =>
        if d == 0 then true else Value(kids[i], acts, d - 1)))
  }

  /** `f2` at level `k`, `f1` everywhere else. */
  function ActsFor(k: nat): (acts: seq<Action>)
    ensures |acts| == 5
  {
    seq(5, i => if i == k then F2 else F1)
  }

  /** The tree below `n` has exactly one member per group, except at level
      `k`, where every group has at least two. */
  ghost predicate Shape(n: Node, d: nat, k: nat)
    decreases n
  {
    match n
    case Thread(_) => true
    case Group(kids) =>
      (if d == k then |kids| >= 2 else |kids| == 1) &&
      (d > 0 ==> forall i :: 0 <= i < |kids| ==> Shape(kids[i], d - 1, k))
  }

  /** The parser with `f2` at level `k` accepts exactly the trees that branch
      at level `k` and nowhere else. */
  lemma {:induction false} ValueIff(n: Node, d: nat, k: nat)
    requires d < 5 && k < 5 && WellFormed(n, d)
    ensures Value(n, ActsFor(k), d) <==> Shape(n, d, k)
    decreases n
  {
    var kids := n.kids;
    var acts := ActsFor(k);
    var rs := seq(|kids|, i requires 0 <= i < |kids| =>
      if d == 0 then true else Value(kids[i], acts, d - 1));
    assert Value(n, acts, d) == Act(acts[d], rs);
    if d > 0 {
      forall i | 0 <= i < |kids| ensures rs[i] <==> Shape(kids[i], d - 1, k) {
        ValueIff(kids[i], d - 1, k);
      }
    }
  }

  /** `is_thread`: one warp holds two threads or more. */
  ghost predicate IsThread(t: Node) {
    Value(t, ActsFor(0), Top)
  }

  /** `is_warp`: one CTA holds two warps or more, each of one thread. */
  ghost predicate IsWarp(t: Node) {
    Value(t, ActsFor(1), Top)
  }

  /** `is_cta` */
  ghost predicate IsCta(t: Node) {
    Value(t, ActsFor(2), Top)
  }

  /** `is_ker` */
  ghost predicate IsKer(t: Node) {
    Value(t, ActsFor(3), Top)
  }

  /** `is_dev` */
  ghost predicate IsDev(t: Node) {
    Value(t, ActsFor(4), Top)
  }

  /** `is_mixed_scope` */
  ghost predicate IsMixedScope(t: Node) {
    !(IsThread(t) || IsWarp(t) || IsCta(t) || IsKer(t) || IsDev(t))
  }

  /** A tree branches at one level at most. */
  lemma {:induction false} ShapeExclusive(n: Node, d: nat, k1: nat, k2: nat)
    requires WellFormed(n, d) && k1 <= d && k2 <= d && k1 != k2
    ensures !(Shape(n, d, k1) && Shape(n, d, k2))
    decreases n
  {
    if d != k1 && d != k2 {
      ShapeExclusive(n.kids[0], d - 1, k1, k2);
    }
  }

  /** At most one of the five scope predicates holds of a well-formed tree,
      and the tree is mixed exactly when none does. */
  lemma ScopeKinds(t: Node)
    requires WellFormed(t, Top)
    ensures IsThread(t) ==> !IsWarp(t) && !IsCta(t) && !IsKer(t) && !IsDev(t)
    ensures IsWarp(t) ==> !IsCta(t) && !IsKer(t) && !IsDev(t)
    ensures IsCta(t) ==> !IsKer(t) && !IsDev(t)
    ensures IsKer(t) ==> !IsDev(t)
    ensures IsMixedScope(t) <==> forall k :: 0 <= k < 5 ==> !Shape(t, Top, k)
  {
    ValueIff(t, Top, 0);
    ValueIff(t, Top, 1);
    ValueIff(t, Top, 2);
    ValueIff(t, Top, 3);
    ValueIff(t, Top, 4);
    forall k1, k2 | 0 <= k1 < 5 && 0 <= k2 < 5 && k1 != k2 ensures !(Shape(t, Top, k1) && Shape(t, Top, k2)) {
      ShapeExclusive(t, Top, k1, k2);
    }
  }

  // ---------------------------------------------------------------------------
  // The memory map

  /** Pairs of variable and memory space, e.g. `("x", "global")`. */
  type MemoryMap = seq<(string, string)>

  /** `is_global`: every variable is in global memory. */
  function IsGlobal(mm: MemoryMap): (r: bool)
    ensures r <==> forall i :: 0 <= i < |mm| ==> mm[i].1 == "global"
    decreases |mm|
  {
    if |mm| == 0 then true
    else if mm[0].1 != "global" then false
    else
      assert forall i :: 0 < i < |mm| ==> mm[i] == mm[1..][i - 1];
      IsGlobal(mm[1..])
  }

  /** `is_shared`: every variable is in shared or local memory. */
  function IsShared(mm: MemoryMap): (r: bool)
    ensures r <==> forall i :: 0 <= i < |mm| ==> mm[i].1 == "shared" || mm[i].1 == "local"
    decreases |mm|
  {
    if |mm| == 0 then true
    else if mm[0].1 != "shared" && mm[0].1 != "local" then false
    else
      assert forall i :: 0 < i < |mm| ==> mm[i] == mm[1..][i - 1];
      IsShared(mm[1..])
  }

  /** `is_mixed_mem` */
  function IsMixedMem(mm: MemoryMap): bool {
    !(IsGlobal(mm) || IsShared(mm))
  }

  /** Both hold only of the empty map; a map is mixed exactly when some
      variable is global and some is not; one in neither space makes it
      mixed as well. */
  lemma MemKinds(mm: MemoryMap)
    ensures IsGlobal(mm) && IsShared(mm) <==> |mm| == 0
    ensures IsMixedMem(mm) <==>
      (exists i :: 0 <= i < |mm| && mm[i].1 != "global") &&
      (exists i :: 0 <= i < |mm| && mm[i].1 != "shared" && mm[i].1 != "local")
  {
    if |mm| > 0 {
      var g, s, l := "global", "shared", "local";
      assert g[0] != s[0] && g[0] != l[0];
      assert mm[0].1 != g || (mm[0].1 != s && mm[0].1 != l);
    }
  }

  // ---------------------------------------------------------------------------
  // `get_mm`: the memory map line, such as `x: global, y: shared`

  predicate IsTab(c: char) {
    c == ' ' || c == '\t'
  }

  predicate IsLetter(c: char) {
    ('a' <= c <= 'z') || ('A' <= c <= 'Z')
  }

  /** Strips `[ \t]*` from the front. */
  function LStripTabs(s: string): (r: string)
    ensures |r| <= |s| && r == s[|s| - |r|..]
    ensures r != [] ==> !IsTab(r[0])
    decreases |s|
  {
    if |s| > 0 && IsTab(s[0]) then LStripTabs(s[1..]) else s
  }

  /** Strips `[ \t]*` from the back. */
  function RStripTabs(s: string): (r: string)
    ensures |r| <= |s| && r == s[..|r|]
    ensures r != [] ==> !IsTab(r[|r| - 1])
    decreases |s|
  {
    if |s| > 0 && IsTab(s[|s| - 1]) then RStripTabs(s[..|s| - 1]) else s
  }

  predicate IsSpaceName(w: string) {
    w == "global" || w == "shared" || w == "local"
  }

  /** `[a-zA-Z]+[ \t]*:[ \t]*(global|shared|local)`, matched in full. */
  predicate ItemMatches(p: string) {
    match Find(p, ':')
    case None => false
    case Some(j) =>
      var name := RStripTabs(p[..j]);
      |name| > 0 && (forall i :: 0 <= i < |name| ==> IsLetter(name[i])) &&
      IsSpaceName(LStripTabs(p[j + 1..]))
  }

  /** One piece of the line between separators: an item, with `[ \t]*`
      around it except at the very start and the very end of the line. */
  predicate PieceMatches(p: string, first: bool, last: bool) {
    (first ==> LStripTabs(p) == p) && (last ==> RStripTabs(p) == p) &&
    ItemMatches(RStripTabs(LStripTabs(p)))
  }

  /** The line matches `item([ \t]*(,|;)[ \t]*item)*` in full. Neither
      separator occurs inside an item, so the line is split at each. */
  predicate MmMatches(s: string) {
    var parts := Split(ReplaceChar(s, ',', ';'), ';');
    forall i :: 0 <= i < |parts| ==> PieceMatches(parts[i], i == 0, i == |parts| - 1)
  }

  /** Why `get_mm` gives no map: the line does not match, or one of its
      assertions fails (a variable of more than one letter, or an item
      without its space). */
  datatype MmFault = NoMatch | BadVariable | BadSpace

  /** A pair as `get_mm` returns it: a one-letter variable in `global` or
      `shared` memory. */
  predicate NormalPair(p: (string, string)) {
    |p.0| == 1 && IsLetter(p.0[0]) && (p.1 == "global" || p.1 == "shared")
  }

  /** One element of the line: the variable and its space with `local`
      read as `shared`. */
  function MmItem(el: string): (r: Result<(string, string), MmFault>)
    ensures r.Ok? ==> NormalPair(r.value)
    ensures r != Err(NoMatch)
  {
    var f := Split(el, ':');
    var v := Strip(f[0]);
    if |v| != 1 || !IsLetter(v[0]) then Err(BadVariable)
    else if |f| < 2 then Err(BadSpace)
    else
      var space := ReplaceAll(Strip(f[1]), "local", "shared");
      if space != "global" && space != "shared" then Err(BadSpace)
      else Ok((v, space))
  }

  /** The elements in the line's order, or the first failing assertion. */
  function MmItems(els: seq<string>): (r: Result<MemoryMap, MmFault>)
    ensures r.Ok? ==> |r.value| == |els|
    ensures r.Err? <==> exists i :: 0 <= i < |els| && MmItem(els[i]).Err?
    ensures r != Err(NoMatch)
    decreases |els|
  {
    if |els| == 0 then Ok([])
    else
      match MmItem(els[0])
      case Err(e) => Err(e)
      case Ok(x) =>
        match MmItems(els[1..])
        case Err(e) =>
          Err(e)
        case Ok(xs) =>
          assert forall i :: 0 < i < |els| ==> els[i] == els[1..][i - 1];
          Ok([x] + xs)
  }

  /** Each item is what its element of the line gives. */
  lemma {:induction false} MmItemsAt(els: seq<string>, i: nat)
    requires MmItems(els).Ok? && i < |els|
    ensures MmItem(els[i]) == Ok(MmItems(els).value[i])
    decreases |els|
  {
    if i > 0 {
      MmItemsAt(els[1..], i - 1);
      assert els[1..][i - 1] == els[i];
    }
  }

  /** `get_mm(s)`: the map sorted by variable (stably), each variable one
      letter and each space `global` or `shared`. */
  function GetMm(s: string): (r: Result<MemoryMap, MmFault>)
    ensures r.Ok? ==> SortedBy(r.value)
    ensures r.Ok? ==> Normal(r.value)
    ensures r == Err(NoMatch) <==> !MmMatches(s)
  {
    if !MmMatches(s) then Err(NoMatch)
    else
      var els := Split(ReplaceChar(Strip(s), ',', ';'), ';');
      match MmItems(els)
      case Err(e) => Err(e)
      case Ok(items) =>
        SortedItems(els, items);
        Ok(SortBy(items))
  }

  /** Sorting keeps what each element of the line promises. */
  lemma SortedItems(els: seq<string>, items: MemoryMap)
    requires MmItems(els) == Ok(items)
    ensures Normal(SortBy(items))
  {
    var sorted := SortBy(items);
    forall j | 0 <= j < |items| ensures NormalPair(items[j]) {
      MmItemsAt(els, j);
    }
    forall i | 0 <= i < |sorted| ensures NormalPair(sorted[i]) {
      assert sorted[i] in multiset(items);
    }
  }

  /** The map holds the line's items, only reordered. */
  lemma GetMmItems(s: string)
    requires GetMm(s).Ok?
    ensures MmItems(Split(ReplaceChar(Strip(s), ',', ';'), ';')).Ok?
    ensures multiset(GetMm(s).value) == multiset(MmItems(Split(ReplaceChar(Strip(s), ',', ';'), ';')).value)
  {
  }

  // ---------------------------------------------------------------------------
  // `ppi_memorymap` and `ppi_memorymap_name`

  /** The map as text: `x: global, y: shared`. */
  function MapText(mm: MemoryMap): string {
    Join(seq(|mm|, i requires 0 <= i < |mm| => mm[i].0 + ": " + mm[i].1), ", ")
  }

  /** `ppi_memorymap`: its loop writes each pair and a `, ` after every pair
      but the last. */
  method PpiMemoryMap(mm: MemoryMap) returns (s: string)
    ensures s == MapText(mm)
  {
    s := "";
    var n := |mm|;
    for i := 0 to n
      invariant i < n ==> s + Join(Pairs(mm)[i..], ", ") == MapText(mm)
      invariant i == n ==> s == MapText(mm)
    {
      var el := mm[i];
      var pairs := Pairs(mm);
      assert pairs[i] == el.0 + ": " + el.1;
      if i < n - 1 {
        JoinCons(pairs[i], pairs[i + 1..], ", ");
        assert pairs[i..] == [pairs[i]] + pairs[i + 1..];
      } else {
        assert pairs[i..] == [pairs[i]];
      }
      s := s + (el.0 + ": " + el.1);
      if i < n - 1 {
        s := s + ", ";
      }
    }
    if n == 0 {
      assert Pairs(mm) == [];
    }
  }

  function Pairs(mm: MemoryMap): (r: seq<string>)
    ensures |r| == |mm| && forall i :: 0 <= i < |mm| ==> r[i] == mm[i].0 + ": " + mm[i].1
  {
    seq(|mm|, i requires 0 <= i < |mm| => mm[i].0 + ": " + mm[i].1)
  }

  /** `mem_norm`: the one-letter code of a memory space, local memory
      counting as shared. */
  function MemNorm(space: string): Option<string> {
    if space == "g" || space == "global" then Some("g")
    else if space == "s" || space == "shared" || space == "l" || space == "local" then Some("s")
    else None
  }

  /** The map's part of a test key: each variable followed by the code of
      its space, or `None` when a space has no code. */
  function MapName(mm: MemoryMap): (r: Option<string>)
    ensures r.Some? <==> forall i :: 0 <= i < |mm| ==> MemNorm(mm[i].1).Some?
    decreases |mm|
  {
    if |mm| == 0 then Some("")
    else
      match MemNorm(mm[0].1)
      case None => None
      case Some(c) =>
        match MapName(mm[1..])
        case None =>
          None
        case Some(rest) =>
          assert forall i :: 0 < i < |mm| ==> mm[i] == mm[1..][i - 1];
          Some(mm[0].0 + c + rest)
  }

  /** `ppi_memorymap_name` */
  method PpiMemoryMapName(mm: MemoryMap) returns (r: Option<string>)
    ensures r == MapName(mm)
  {
    var s := "";
    assert mm[0..] == mm;
    PrefixedEmpty(MapName(mm));
    for i := 0 to |mm|
      invariant MapName(mm) == Prefixed(s, MapName(mm[i..]))
    {
      assert mm[i..][1..] == mm[i + 1..];
      assert mm[i..][0] == mm[i];
      match MemNorm(mm[i].1)
      case None =>
        assert MapName(mm[i..]) == None;
        return None;
      case Some(c) =>
        PrefixedAssoc(s, mm[i].0 + c, MapName(mm[i + 1..]));
        s := s + (mm[i].0 + c);
    }
    assert mm[|mm|..] == [];
    assert s + "" == s;
    r := Some(s);
  }

  function Prefixed(p: string, r: Option<string>): Option<string> {
    match r
    case None => None
    case Some(t) => Some(p + t)
  }

  lemma PrefixedEmpty(r: Option<string>)
    ensures Prefixed("", r) == r
  {
    if r.Some? {
      assert "" + r.value == r.value;
    }
  }

  lemma PrefixedAssoc(a: string, b: string, r: Option<string>)
    ensures Prefixed(a, Prefixed(b, r)) == Prefixed(a + b, r)
  {
    if r.Some? {
      assert a + (b + r.value) == (a + b) + r.value;
    }
  }

  /** A map as `get_mm` returns it: one-letter variables, each in `global`
      or `shared`. */
  ghost predicate Normal(mm: MemoryMap) {
    forall i :: 0 <= i < |mm| ==> NormalPair(mm[i])
  }

  /** The key part names the map: two maps as `get_mm` returns them with
      the same name are the same map. */
  lemma {:induction false} MapNameInjective(a: MemoryMap, b: MemoryMap)
    requires Normal(a) && Normal(b)
    requires MapName(a).Some? && MapName(a) == MapName(b)
    ensures a == b
    decreases |a|
  {
    MapNameLength(a);
    MapNameLength(b);
    if |a| > 0 {
      var ca, cb := MemNorm(a[0].1).value, MemNorm(b[0].1).value;
      var ra, rb := MapName(a[1..]).value, MapName(b[1..]).value;
      var na := a[0].0 + ca + ra;
      var nb := b[0].0 + cb + rb;
      assert na[0] == nb[0] && na[1] == nb[1] && na[2..] == nb[2..];
      assert na[2..] == ra && nb[2..] == rb;
      assert a[0].0 == [na[0]] && b[0].0 == [nb[0]];
      var g, s := "global", "shared";
      assert g[0] != s[0];
      assert a[0].1 == b[0].1;
      assert forall i :: 0 <= i < |a| - 1 ==> a[1..][i] == a[i + 1];
      assert forall i :: 0 <= i < |b| - 1 ==> b[1..][i] == b[i + 1];
      MapNameInjective(a[1..], b[1..]);
      assert a == [a[0]] + a[1..] && b == [b[0]] + b[1..];
    }
  }

  /** Each pair of a normal map takes two characters of its name. */
  lemma {:induction false} MapNameLength(mm: MemoryMap)
    requires Normal(mm) && MapName(mm).Some?
    ensures |MapName(mm).value| == 2 * |mm|
    decreases |mm|
  {
    if |mm| > 0 {
      assert forall i :: 0 <= i < |mm| - 1 ==> mm[1..][i] == mm[i + 1];
      MapNameLength(mm[1..]);
    }
  }
}
