/** One entry of a litmus log (machinery.py `LogEntry`): the record of a
    test's outcome, the collector that picks its fields out of the entry's
    lines, its short name, and the consistency check between two entries of
    the same test. */
module LogEntries {
  import opened Wrappers
  import opened Strings
  import opened Greedy
  import opened Scope

  /** A log entry: the test's name and short name, its kind, its scope tree
      and memory map, how often the final condition held (`pos`) and did
      not (`neg`) out of `total` runs, and the four incantations. */
  datatype Entry = Entry(
    name: string,
    shortName: string,
    kind: string,
    scopeTree: string,
    memoryMap: MemoryMap,
    pos: nat,
    neg: nat,
    total: nat,
    generalBc: bool,
    memStress: bool,
    randThreads: bool,
    barrier: bool)

  /** `is_pos` */
  predicate IsPos(e: Entry) {
    e.pos > 0
  }

  // ---------------------------------------------------------------------------
  // `get_short_name`

  /** `re.search('[Pp]0', name)` */
  predicate HasP0(name: string) {
    exists i :: 0 <= i < |name| - 1 && (name[i] == 'p' || name[i] == 'P') && name[i + 1] == '0'
  }

  datatype NameFault = DashWithoutP0

  /** `get_short_name(name)`: the name up to its first `-`, or all of it;
      a `-` in a name without `p0` or `P0` is an error. */
  function ShortName(name: string): (r: Result<string, NameFault>)
    ensures r.Ok? ==> '-' !in r.value && StartsWith(name, r.value) && |r.value| <= |name|
    ensures r.Ok? && '-' in name ==> name[|r.value|] == '-'
    ensures r.Ok? && '-' !in name ==> r.value == name
    ensures r.Err? <==> '-' in name && !HasP0(name)
  {
    match Find(name, '-')
    case None => Ok(name)
    case Some(idx) => if HasP0(name) then Ok(name[..idx]) else Err(DashWithoutP0)
  }

  /** Taking the short name again changes nothing. */
  lemma ShortNameIdempotent(name: string)
    requires ShortName(name).Ok?
    ensures ShortName(ShortName(name).value) == ShortName(name)
  {
  }

  // ---------------------------------------------------------------------------
  // `check_const`

  /** The first field in which two entries of one test disagree. */
  datatype Mismatch = NameMismatch | ShortNameMismatch | KindMismatch | ScopetreeMismatch | MemorymapMismatch

  /** `a.check_const(b)`: names, short names, kinds, scope trees (up to
      surrounding white space) and memory maps, in that order. */
  function CheckConst(a: Entry, b: Entry): Outcome<Mismatch> {
    if a.name != b.name then Fail(NameMismatch)
    else if a.shortName != b.shortName then Fail(ShortNameMismatch)
    else if a.kind != b.kind then Fail(KindMismatch)
    else if Strip(a.scopeTree) != Strip(b.scopeTree) then Fail(ScopetreeMismatch)
    else if a.memoryMap != b.memoryMap then Fail(MemorymapMismatch)
    else Pass
  }

  /** Two entries describe the same test. */
  predicate Consistent(a: Entry, b: Entry) {
    a.name == b.name && a.shortName == b.shortName && a.kind == b.kind &&
    Strip(a.scopeTree) == Strip(b.scopeTree) && a.memoryMap == b.memoryMap
  }

  /** The check passes exactly for entries of the same test, whichever comes
      first, and every entry passes with itself; it fails naming a field in
      which they differ, every earlier field agreeing. */
  lemma CheckConstIff(a: Entry, b: Entry)
    ensures CheckConst(a, b) == Pass <==> Consistent(a, b)
    ensures CheckConst(a, b) == Pass <==> CheckConst(b, a) == Pass
    ensures CheckConst(a, a) == Pass
    ensures CheckConst(a, b) == Fail(NameMismatch) <==> a.name != b.name
    ensures CheckConst(a, b) == Fail(ShortNameMismatch) ==> a.name == b.name && a.shortName != b.shortName
    ensures CheckConst(a, b) == Fail(KindMismatch) ==>
      a.name == b.name && a.shortName == b.shortName && a.kind != b.kind
    ensures CheckConst(a, b) == Fail(ScopetreeMismatch) ==>
      a.name == b.name && a.shortName == b.shortName && a.kind == b.kind && Strip(a.scopeTree) != Strip(b.scopeTree)
    ensures CheckConst(a, b) == Fail(MemorymapMismatch) ==>
      a.name == b.name && a.shortName == b.shortName && a.kind == b.kind &&
      Strip(a.scopeTree) == Strip(b.scopeTree) && a.memoryMap != b.memoryMap
  {
  }

  // ---------------------------------------------------------------------------
  // `collect`

  /** One entry of the parser list: the key to store under, and the line
      parser, which says whether it matched and with what value. */
  datatype Field<V> = Field(key: string, parse: string -> (bool, V))

  /** Field `k` matches line `j`. */
  function Hits<V>(fl: seq<Field<V>>, lines: seq<string>): Matcher {
    (k: nat, j: nat) => k < |fl| && j < |lines| && fl[k].parse(lines[j]).0
  }

  /** The dictionary after fields `0 .. |ps|-1` took the lines `ps`: a later
      field with the same key replaces an earlier value. */
  function MapOf<V>(fl: seq<Field<V>>, lines: seq<string>, ps: seq<nat>): (r: map<string, V>)
    requires |ps| <= |fl| && forall i :: 0 <= i < |ps| ==> ps[i] < |lines|
    ensures r.Keys == (set k | 0 <= k < |ps| :: fl[k].key)
    decreases |ps|
  {
    if |ps| == 0 then map[]
    else
      var k := |ps| - 1;
      MapOf(fl, lines, ps[..k])[fl[k].key := fl[k].parse(lines[ps[k]]).1]
  }

  /** What `collect(s, fl)` returns: the greedy walk offers each line only
      to the awaited field; when every field found its line and the
      dictionary has as many keys as there are fields, the dictionary. */
  function Collected<V>(fl: seq<Field<V>>, lines: seq<string>): Option<map<string, V>> {
    match Embed(Hits(fl, lines), 0, |fl|, 0, |lines|)
    case None => None
    case Some(ps) =>
      EmbedBounds(fl, lines, ps);
      var res := MapOf(fl, lines, ps);
      if |res| == |fl| then Some(res) else None
  }

  lemma EmbedBounds<V>(fl: seq<Field<V>>, lines: seq<string>, ps: seq<nat>)
    requires Embed(Hits(fl, lines), 0, |fl|, 0, |lines|) == Some(ps)
    ensures |ps| == |fl| && forall i :: 0 <= i < |ps| ==> ps[i] < |lines|
  {
    EmbedSound(Hits(fl, lines), 0, |fl|, 0, |lines|);
  }

  /** The loop of `collect`. */
  method Collect<V>(s: string, fl: seq<Field<V>>) returns (r: Option<map<string, V>>)
    requires |fl| > 0
    ensures r == Collected(fl, SplitLines(s))
  {
    r := CollectLines(fl, SplitLines(s));
  }

  /** The loop of `collect` over the lines of the text. */
  method CollectLines<V>(fl: seq<Field<V>>, lines: seq<string>) returns (r: Option<map<string, V>>)
    requires |fl| > 0
    ensures r == Collected(fl, lines)
  {
    var le := |fl|;
    ghost var m := Hits(fl, lines);
    var i := 0;
    var res: map<string, V> := map[];
    ghost var ps: seq<nat> := [];
    WalkStart(m, le, 0, |lines|);
    var j := 0;
    var done := false;
    while j < |lines| && !done
      invariant j <= |lines|
      invariant |ps| == i <= le && (!done ==> i < le)
      invariant forall t :: 0 <= t < |ps| ==> ps[t] < |lines|
      invariant res == MapOf(fl, lines, ps)
      invariant !done ==> WalkAt(m, le, 0, |lines|, ps, i, j)
      invariant done ==> Embed(m, 0, le, 0, |lines|) == Some(ps)
      decreases |lines| - j, if done then 0 else 1
    {
      ps, res, i := CollectLine(fl, lines, ps, res, i, j);
      if i == le {
        done := true;
      }
      j := j + 1;
    }
    if !done {
      WalkEnd(m, le, 0, |lines|, ps, i, j);
      MapOfSize(fl, lines, ps);
    }
    if |res| == le {
      r := Some(res);
    } else {
      r := None;
    }
  }

  /** One line of the loop of `collect`: the awaited field `i` either takes
      line `j`, storing its value and moving on to the next field, or it does
      not, and the walk moves on to the next line. */
  method CollectLine<V>(fl: seq<Field<V>>, lines: seq<string>, ghost ps: seq<nat>, res: map<string, V>, i: nat, j: nat)
    returns (ghost ps': seq<nat>, res': map<string, V>, i': nat)
    requires j < |lines| && |ps| == i < |fl|
    requires forall t :: 0 <= t < |ps| ==> ps[t] < |lines|
    requires res == MapOf(fl, lines, ps) && WalkAt(Hits(fl, lines), |fl|, 0, |lines|, ps, i, j)
    ensures |ps'| == i' <= |fl| && i <= i' <= i + 1
    ensures forall t :: 0 <= t < |ps'| ==> ps'[t] < |lines|
    ensures res' == MapOf(fl, lines, ps')
    ensures i' < |fl| ==> WalkAt(Hits(fl, lines), |fl|, 0, |lines|, ps', i', j + 1)
    ensures i' == |fl| ==> Embed(Hits(fl, lines), 0, |fl|, 0, |lines|) == Some(ps')
  {
    ghost var m := Hits(fl, lines);
    var hit := fl[i].parse(lines[j]);
    if hit.0 {
      assert m(i, j);
      WalkTake(m, |fl|, 0, |lines|, ps, i, j);
      assert (ps + [j])[..i] == ps;
      ps', res', i' := ps + [j], res[fl[i].key := hit.1], i + 1;
    } else {
      assert !m(i, j);
      WalkSkip(m, |fl|, 0, |lines|, ps, i, j);
      ps', res', i' := ps, res, i;
    }
  }

  /** The dictionary has no more keys than fields stored into it. */
  lemma {:induction false} MapOfSize<V>(fl: seq<Field<V>>, lines: seq<string>, ps: seq<nat>)
    requires |ps| <= |fl| && forall i :: 0 <= i < |ps| ==> ps[i] < |lines|
    ensures |MapOf(fl, lines, ps)| <= |ps|
    ensures DistinctKeys(fl) ==> |MapOf(fl, lines, ps)| == |ps|
    decreases |ps|
  {
    if |ps| > 0 {
      var k := |ps| - 1;
      MapOfSize(fl, lines, ps[..k]);
      var prev := MapOf(fl, lines, ps[..k]);
      if DistinctKeys(fl) {
        assert fl[k].key !in prev.Keys;
      }
    }
  }

  ghost predicate DistinctKeys<V>(fl: seq<Field<V>>) {
    forall i, j :: 0 <= i < j < |fl| ==> fl[i].key != fl[j].key
  }

  /** With distinct keys, `collect` succeeds exactly when the fields can be
      matched, in order, on strictly increasing lines. */
  lemma CollectedIff<V>(fl: seq<Field<V>>, lines: seq<string>)
    requires DistinctKeys(fl)
    ensures Collected(fl, lines).Some? <==> exists ps :: IsEmbedding(Hits(fl, lines), ps, 0, |fl|, 0, |lines|)
  {
    var m := Hits(fl, lines);
    EmbedIff(m, 0, |fl|, 0, |lines|);
    var e := Embed(m, 0, |fl|, 0, |lines|);
    if e.Some? {
      EmbedBounds(fl, lines, e.value);
      MapOfSize(fl, lines, e.value);
    }
  }

  /** With distinct keys, the dictionary of a successful `collect` has
      exactly the fields' keys, and each holds the value its field parsed
      from the line the walk gave it. */
  lemma CollectedValues<V>(fl: seq<Field<V>>, lines: seq<string>, ps: seq<nat>)
    requires DistinctKeys(fl)
    requires Embed(Hits(fl, lines), 0, |fl|, 0, |lines|) == Some(ps)
    requires |ps| == |fl| && forall i :: 0 <= i < |ps| ==> ps[i] < |lines|
    ensures Collected(fl, lines).Some?
    ensures Collected(fl, lines).value.Keys == (set k | 0 <= k < |fl| :: fl[k].key)
    ensures forall k :: 0 <= k < |fl| ==> Collected(fl, lines).value[fl[k].key] == fl[k].parse(lines[ps[k]]).1
  {
    MapOfSize(fl, lines, ps);
    forall k | 0 <= k < |fl| ensures MapOf(fl, lines, ps)[fl[k].key] == fl[k].parse(lines[ps[k]]).1 {
      MapOfValue(fl, lines, ps, k);
    }
  }

  /** With distinct keys, each field's key holds that field's value. */
  lemma {:induction false} MapOfValue<V>(fl: seq<Field<V>>, lines: seq<string>, ps: seq<nat>, k: nat)
    requires |ps| <= |fl| && forall i :: 0 <= i < |ps| ==> ps[i] < |lines|
    requires DistinctKeys(fl) && k < |ps|
    ensures fl[k].key in MapOf(fl, lines, ps)
    ensures MapOf(fl, lines, ps)[fl[k].key] == fl[k].parse(lines[ps[k]]).1
    decreases |ps|
  {
    var n := |ps| - 1;
    if k < n {
      MapOfValue(fl, lines, ps[..n], k);
      assert fl[k].key != fl[n].key;
    }
  }
}
