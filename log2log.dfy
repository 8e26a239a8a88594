/** The log-to-log tools (log2log.py): summing the counts of several logs,
    merging logs, asserting a positivity relation between two logs,
    choosing the rows of a comparison, and keeping the best incantation of
    each test. */
module Log2Log {
  import opened Wrappers
  import opened Order
  import opened LogEntries
  import opened Logs

  // ---------------------------------------------------------------------------
  // `sum_hlp`

  /** Which count of an entry. */
  datatype Count = PosCount | NegCount | TotalCount

  function CountOf(c: Count, e: Entry): nat {
    match c
    case PosCount => e.pos
    case NegCount => e.neg
    case TotalCount => e.total
  }

  /** The count `c` of the key's entries in the first `n` logs. */
  function SumTo(k: string, vs: seq<LogValue>, c: Count, n: nat): nat
    requires n <= |vs|
  {
    if n == 0 then 0
    else SumTo(k, vs, c, n - 1) + (if k in vs[n - 1].d then CountOf(c, vs[n - 1].d[k]) else 0)
  }

  /** Every entry of the first `n` logs under the key passes `check_const`
      against `base`. */
  predicate ConsistentTo(base: Entry, k: string, vs: seq<LogValue>, n: nat)
    requires n <= |vs|
  {
    n == 0 || (ConsistentTo(base, k, vs, n - 1) && (k in vs[n - 1].d ==> CheckConst(base, vs[n - 1].d[k]) == Pass))
  }

  /** The summed entry for the key: the entry of the first log that has it,
      with the three counts summed over all logs that have it; none when an
      entry is inconsistent with the first. */
  function Summed(k: string, vs: seq<LogValue>): Option<Entry> {
    match GetEntry(k, vs)
    case None => None
    case Some(b) =>
      if ConsistentTo(b, k, vs, |vs|) then
        Some(b.(pos := SumTo(k, vs, PosCount, |vs|),
                neg := SumTo(k, vs, NegCount, |vs|),
                total := SumTo(k, vs, TotalCount, |vs|)))
      else None
  }

  /** The summed entry of each of the `ks`. */
  function Sums(vs: seq<LogValue>, ks: seq<string>): (r: seq<Option<Entry>>)
    ensures |r| == |ks|
  {
    if |ks| == 0 then [] else Sums(vs, ks[..|ks| - 1]) + [Summed(ks[|ks| - 1], vs)]
  }

  lemma {:induction false} SumsAt(vs: seq<LogValue>, ks: seq<string>, t: nat)
    requires t < |ks|
    ensures Sums(vs, ks)[t] == Summed(ks[t], vs)
  {
    if t < |ks| - 1 {
      SumsAt(vs, ks[..|ks| - 1], t);
    }
  }

  /** Every entry has as many runs as positive and negative outcomes, as
      parsing an entry makes it. */
  ghost predicate WellCounted(vs: seq<LogValue>) {
    forall t, k :: 0 <= t < |vs| && k in vs[t].d ==>
      vs[t].d[k].total == vs[t].d[k].pos + vs[t].d[k].neg
  }

  /** Every log is well formed and keyed by `get_key`. */
  ghost predicate AllKeyed(vs: seq<LogValue>, inc: bool) {
    forall t :: 0 <= t < |vs| ==> WellFormed(vs[t]) && Keyed(inc, vs[t].d)
  }

  /** Every log is of the given kind. */
  predicate OfKind(logs: seq<Log>, inc: bool) {
    forall t :: 0 <= t < |logs| ==> logs[t].inc == inc
  }

  lemma {:induction false} SumToCounts(k: string, vs: seq<LogValue>, n: nat)
    requires n <= |vs| && WellCounted(vs)
    ensures SumTo(k, vs, TotalCount, n) == SumTo(k, vs, PosCount, n) + SumTo(k, vs, NegCount, n)
  {
    if n > 0 {
      SumToCounts(k, vs, n - 1);
    }
  }

  lemma {:induction false} ConsistentToAll(base: Entry, k: string, vs: seq<LogValue>, n: nat)
    requires n <= |vs|
    ensures ConsistentTo(base, k, vs, n) <==>
      forall t :: 0 <= t < n && k in vs[t].d ==> CheckConst(base, vs[t].d[k]) == Pass
  {
    if n > 0 {
      ConsistentToAll(base, k, vs, n - 1);
    }
  }

  /** A summed entry is the first entry with its counts replaced by the
      sums, agrees with every entry of the key in all that `check_const`
      compares, and still has `total == pos + neg`. */
  lemma SummedEntry(k: string, vs: seq<LogValue>)
    requires WellCounted(vs)
    requires Summed(k, vs).Some?
    ensures var e := Summed(k, vs).value;
      && e.pos == SumTo(k, vs, PosCount, |vs|)
      && e.neg == SumTo(k, vs, NegCount, |vs|)
      && e.total == e.pos + e.neg
      && forall t :: 0 <= t < |vs| && k in vs[t].d ==> Consistent(e, vs[t].d[k])
  {
    SumToCounts(k, vs, |vs|);
    var b := GetEntry(k, vs).value;
    ConsistentToAll(b, k, vs, |vs|);
    forall t | 0 <= t < |vs| && k in vs[t].d ensures Consistent(Summed(k, vs).value, vs[t].d[k]) {
      CheckConstIff(b, vs[t].d[k]);
    }
  }

  /** The summed log holds exactly the keys whose entries sum, each with
      its summed entry. */
  lemma SummedTable(vs: seq<LogValue>, k: string)
    requires AllValid(vs)
    ensures var ks := GetKeys(vs);
      var tb := Table(ks, Sums(vs, ks), |ks|);
      && (k in tb <==> Summed(k, vs).Some?)
      && (k in tb ==> Summed(k, vs) == Some(tb[k]))
  {
    var ks := GetKeys(vs);
    var sums := Sums(vs, ks);
    KeptTable(ks, sums, |ks|, k);
    GetKeysEntry(vs, k);
    forall t | 0 <= t < |ks| ensures sums[t] == Summed(ks[t], vs) {
      SumsAt(vs, ks, t);
    }
    if Summed(k, vs).Some? {
      var t :| 0 <= t < |ks| && ks[t] == k;
      GetKeysDistinct(vs);
      TableValue(ks, sums, |ks|, t);
    }
  }

  /** The sum drops a key of the logs exactly when one of its entries fails
      `check_const` against the first. */
  lemma SumDrop(vs: seq<LogValue>, k: string)
    requires GetEntry(k, vs).Some?
    ensures Summed(k, vs).None? <==>
      exists t :: 0 <= t < |vs| && k in vs[t].d && CheckConst(GetEntry(k, vs).value, vs[t].d[k]).Fail?
  {
    ConsistentToAll(GetEntry(k, vs).value, k, vs, |vs|);
  }

  /** An entry with the name and flags of a key's first entry has that key. */
  lemma KeyOfCopy(inc: bool, k: string, vs: seq<LogValue>, s: Entry)
    requires AllKeyed(vs, inc) && GetEntry(k, vs).Some?
    requires var b := GetEntry(k, vs).value;
      s.name == b.name && s.generalBc == b.generalBc && s.memStress == b.memStress &&
      s.randThreads == b.randThreads && s.barrier == b.barrier
    ensures GetKey(inc, s) == Some(k)
  {
    var t := FirstWith(k, vs);
    assert Keyed(inc, vs[t].d);
  }

  /** The inner loop of `sum_hlp`: the counts of the key's entries summed
      into a copy of `ler` with zero counts, breaking off at the first entry
      that fails `check_const` against `ler`. */
  method SumKey(k: string, vs: seq<LogValue>, ler: Entry) returns (sumLe: Entry, broke: bool)
    ensures broke <==> !ConsistentTo(ler, k, vs, |vs|)
    ensures !broke ==> sumLe == ler.(pos := SumTo(k, vs, PosCount, |vs|),
                                     neg := SumTo(k, vs, NegCount, |vs|),
                                     total := SumTo(k, vs, TotalCount, |vs|))
  {
    sumLe := ler.(pos := 0, neg := 0, total := 0);
    var i := 0;
    broke := false;
    while i < |vs| && !broke
      invariant i <= |vs|
      invariant !broke ==> ConsistentTo(ler, k, vs, i)
      invariant !broke ==> sumLe == ler.(pos := SumTo(k, vs, PosCount, i),
                                        neg := SumTo(k, vs, NegCount, i),
                                        total := SumTo(k, vs, TotalCount, i))
      invariant broke ==> !ConsistentTo(ler, k, vs, i)
    {
      sumLe, broke := SumStep(k, vs, ler, i, sumLe);
      i := i + 1;
    }
    if broke {
      InconsistentFrom(ler, k, vs, i, |vs|);
    }
  }

  /** One log's turn in `SumKey`: add the key's counts, or stop at an
      inconsistent entry. */
  method SumStep(k: string, vs: seq<LogValue>, ler: Entry, i: nat, sumLe: Entry) returns (sumLe': Entry, broke: bool)
    requires i < |vs| && ConsistentTo(ler, k, vs, i)
    requires sumLe == ler.(pos := SumTo(k, vs, PosCount, i),
                           neg := SumTo(k, vs, NegCount, i),
                           total := SumTo(k, vs, TotalCount, i))
    ensures broke <==> !ConsistentTo(ler, k, vs, i + 1)
    ensures !broke ==> sumLe' == ler.(pos := SumTo(k, vs, PosCount, i + 1),
                                      neg := SumTo(k, vs, NegCount, i + 1),
                                      total := SumTo(k, vs, TotalCount, i + 1))
  {
    sumLe', broke := sumLe, false;
    assert ConsistentTo(ler, k, vs, i + 1) <==> (k in vs[i].d ==> CheckConst(ler, vs[i].d[k]) == Pass);
    if k in vs[i].d {
      var le := vs[i].d[k];
      if CheckConst(ler, le).Fail? {
        broke := true;
      } else {
        assert SumTo(k, vs, PosCount, i + 1) == sumLe.pos + le.pos;
        assert SumTo(k, vs, NegCount, i + 1) == sumLe.neg + le.neg;
        assert SumTo(k, vs, TotalCount, i + 1) == sumLe.total + le.total;
        sumLe' := sumLe.(pos := sumLe.pos + le.pos, neg := sumLe.neg + le.neg, total := sumLe.total + le.total);
      }
    } else {
      assert SumTo(k, vs, PosCount, i + 1) == sumLe.pos;
      assert SumTo(k, vs, NegCount, i + 1) == sumLe.neg;
      assert SumTo(k, vs, TotalCount, i + 1) == sumLe.total;
    }
  }

  /** An inconsistency among the first `m` logs stays one among more. */
  lemma {:induction false} InconsistentFrom(base: Entry, k: string, vs: seq<LogValue>, m: nat, n: nat)
    requires m <= n <= |vs| && !ConsistentTo(base, k, vs, m)
    ensures !ConsistentTo(base, k, vs, n)
    decreases n
  {
    if m < n {
      InconsistentFrom(base, k, vs, m, n - 1);
    }
  }

  /** `sum_hlp(logs, lh)`: fewer than two logs is an error; otherwise a
      fresh log of the same kind with, for every key in increasing order,
      the summed entry, unless one of the key's entries is inconsistent. */
  method SumHlp(logs: seq<Log>, inc: bool) returns (r: Option<Log>)
    requires OfKind(logs, inc) && AllKeyed(ValuesOf(logs), inc)
    ensures r.None? <==> |logs| < 2
    ensures r.Some? ==> fresh(r.value) && r.value.inc == inc && r.value.Valid() && Keyed(inc, r.value.d)
    ensures r.Some? ==> var ks := GetKeys(ValuesOf(logs));
      var sums := Sums(ValuesOf(logs), ks);
      r.value.keys == Kept(ks, sums, |ks|) && r.value.d == Table(ks, sums, |ks|)
  {
    if |logs| < 2 {
      return None;
    }
    var out := SumValues(ValuesOf(logs), inc);
    r := Some(out);
  }

  /** The loop of `sum_hlp`, over the logs' contents. */
  method SumValues(vs: seq<LogValue>, inc: bool) returns (out: Log)
    requires AllKeyed(vs, inc)
    ensures fresh(out) && out.inc == inc && out.Valid() && Keyed(inc, out.d)
    ensures var ks := GetKeys(vs);
      out.keys == Kept(ks, Sums(vs, ks), |ks|) && out.d == Table(ks, Sums(vs, ks), |ks|)
  {
    var ks := GetKeys(vs);
    ghost var sums := Sums(vs, ks);
    GetKeysDistinct(vs);
    out := new Log(inc);
    var n := 0;
    while n < |ks|
      invariant n <= |ks|
      invariant fresh(out) && out.inc == inc && out.Valid() && Keyed(inc, out.d)
      invariant out.keys == Kept(ks, sums, n) && out.d == Table(ks, sums, n)
    {
      SumInto(out, vs, ks, n);
      n := n + 1;
    }
  }

  /** The body of the loop of `sum_hlp`, for the key `ks[n]`: its entries
      summed, and the sum appended unless one of them is inconsistent. */
  method SumInto(out: Log, vs: seq<LogValue>, ks: seq<string>, n: nat)
    requires AllKeyed(vs, out.inc) && ks == GetKeys(vs) && Distinct(ks) && n < |ks|
    requires out.Valid() && Keyed(out.inc, out.d)
    requires out.keys == Kept(ks, Sums(vs, ks), n) && out.d == Table(ks, Sums(vs, ks), n)
    modifies out
    ensures out.Valid() && Keyed(out.inc, out.d)
    ensures out.keys == Kept(ks, Sums(vs, ks), n + 1) && out.d == Table(ks, Sums(vs, ks), n + 1)
  {
    ghost var sums := Sums(vs, ks);
    var k := ks[n];
    GetKeysEntry(vs, k);
    var ler := GetEntry(k, vs).value;
    var sumLe, broke := SumKey(k, vs, ler);
    SumsAt(vs, ks, n);
    if !broke {
      KeyOfCopy(out.inc, k, vs, sumLe);
      out.Extend(ks, sums, n, sumLe);
    }
  }

  // ---------------------------------------------------------------------------
  // `merge`

  /** The entry of each of the `ks`, from the first log that has it. */
  function Firsts(vs: seq<LogValue>, ks: seq<string>): (r: seq<Option<Entry>>)
    ensures |r| == |ks|
  {
    if |ks| == 0 then [] else Firsts(vs, ks[..|ks| - 1]) + [GetEntry(ks[|ks| - 1], vs)]
  }

  lemma {:induction false} FirstsAt(vs: seq<LogValue>, ks: seq<string>, t: nat)
    requires t < |ks|
    ensures Firsts(vs, ks)[t] == GetEntry(ks[t], vs)
  {
    if t < |ks| - 1 {
      FirstsAt(vs, ks[..|ks| - 1], t);
    }
  }

  /** `merge(args)`: fewer than two logs is an error; otherwise a fresh log
      of the same kind with every key of the inputs once, in increasing
      order, taken from the first input log that has it. */
  method Merge(logs: seq<Log>, inc: bool) returns (r: Option<Log>)
    requires OfKind(logs, inc) && AllKeyed(ValuesOf(logs), inc)
    ensures r.None? <==> |logs| < 2
    ensures r.Some? ==> fresh(r.value) && r.value.inc == inc && r.value.Valid() && Keyed(inc, r.value.d)
    ensures r.Some? ==> var ks := GetKeys(ValuesOf(logs));
      r.value.keys == ks && r.value.d == Table(ks, Firsts(ValuesOf(logs), ks), |ks|)
  {
    if |logs| < 2 {
      return None;
    }
    var out := MergeValues(ValuesOf(logs), inc);
    r := Some(out);
  }

  /** The loop of `merge`, over the logs' contents: for each key, the first
      log's entry is appended, a later one's dropped. */
  method MergeValues(vs: seq<LogValue>, inc: bool) returns (out: Log)
    requires AllKeyed(vs, inc)
    ensures fresh(out) && out.inc == inc && out.Valid() && Keyed(inc, out.d)
    ensures out.keys == GetKeys(vs) && out.d == Table(GetKeys(vs), Firsts(vs, GetKeys(vs)), |GetKeys(vs)|)
  {
    var ks := GetKeys(vs);
    ghost var firsts := Firsts(vs, ks);
    GetKeysDistinct(vs);
    forall t | 0 <= t < |ks| ensures firsts[t] == GetEntry(ks[t], vs) && firsts[t].Some? {
      GetKeysEntry(vs, ks[t]);
      FirstsAt(vs, ks, t);
    }
    out := new Log(inc);
    var n := 0;
    while n < |ks|
      invariant n <= |ks|
      invariant fresh(out) && out.inc == inc && out.Valid() && Keyed(inc, out.d)
      invariant out.keys == Kept(ks, firsts, n) && out.d == Table(ks, firsts, n)
    {
      MergeInto(out, vs, ks, firsts, n);
      n := n + 1;
    }
    KeptAll(ks, firsts, |ks|);
    assert ks[..|ks|] == ks;
  }

  /** The body of the loop of `merge`, for the key `ks[n]`: the first
      log's entry is appended, a later one's dropped. */
  method MergeInto(out: Log, vs: seq<LogValue>, ks: seq<string>, ghost firsts: seq<Option<Entry>>, n: nat)
    requires AllKeyed(vs, out.inc) && Distinct(ks) && n < |ks| == |firsts|
    requires firsts[n] == GetEntry(ks[n], vs) && firsts[n].Some?
    requires out.Valid() && Keyed(out.inc, out.d)
    requires out.keys == Kept(ks, firsts, n) && out.d == Table(ks, firsts, n)
    modifies out
    ensures out.Valid() && Keyed(out.inc, out.d)
    ensures out.keys == Kept(ks, firsts, n + 1) && out.d == Table(ks, firsts, n + 1)
  {
    ghost var keys1, d1 := Kept(ks, firsts, n + 1), Table(ks, firsts, n + 1);
    var k := ks[n];
    var drop := false;
    var i := 0;
    while i < |vs|
      invariant i <= |vs|
      invariant out.Valid() && Keyed(out.inc, out.d)
      invariant !drop ==> out.keys == old(out.keys) && out.d == old(out.d)
      invariant !drop ==> forall j :: 0 <= j < i ==> k !in vs[j].d
      invariant drop ==> out.keys == keys1 && out.d == d1
    {
      if k in vs[i].d {
        if drop {
          // a later log's entry under the same key is dropped
        } else {
          AppendFirst(out, vs, ks, firsts, n, i);
          drop := true;
        }
      }
      i := i + 1;
    }
    if !drop {
      GetEntryNone(k, vs);
    }
  }

  /** The entry of the first log that has the key `ks[n]` is appended. */
  method AppendFirst(out: Log, vs: seq<LogValue>, ks: seq<string>, ghost firsts: seq<Option<Entry>>, n: nat, i: nat)
    requires AllKeyed(vs, out.inc) && Distinct(ks) && n < |ks| == |firsts| && firsts[n] == GetEntry(ks[n], vs)
    requires i < |vs| && ks[n] in vs[i].d && forall j :: 0 <= j < i ==> ks[n] !in vs[j].d
    requires out.Valid() && Keyed(out.inc, out.d)
    requires out.keys == Kept(ks, firsts, n) && out.d == Table(ks, firsts, n)
    modifies out
    ensures out.Valid() && Keyed(out.inc, out.d)
    ensures out.keys == Kept(ks, firsts, n + 1) && out.d == Table(ks, firsts, n + 1)
  {
    var le := vs[i].d[ks[n]];
    GetEntryFirst(ks[n], vs, i);
    KeyOfCopy(out.inc, ks[n], vs, le);
    out.Extend(ks, firsts, n, le);
  }

  /** The merged log holds every key some log has, each with the entry of
      the first log that has it. */
  lemma MergedTable(vs: seq<LogValue>, k: string)
    requires AllValid(vs)
    ensures var ks := GetKeys(vs);
      var tb := Table(ks, Firsts(vs, ks), |ks|);
      && (k in tb <==> exists i :: 0 <= i < |vs| && k in vs[i].d)
      && (k in tb ==> GetEntry(k, vs) == Some(tb[k]))
  {
    var ks := GetKeys(vs);
    var firsts := Firsts(vs, ks);
    KeptTable(ks, firsts, |ks|, k);
    GetKeysEntry(vs, k);
    forall t | 0 <= t < |ks| ensures firsts[t] == GetEntry(ks[t], vs) {
      FirstsAt(vs, ks, t);
    }
    if k in ks {
      var t :| 0 <= t < |ks| && ks[t] == k;
      GetKeysDistinct(vs);
      TableValue(ks, firsts, |ks|, t);
    }
  }

  // ---------------------------------------------------------------------------
  // `assert_relation`

  /** The entries of a shared key break the relation the flags ask for:
      equal positivity (`eq`), weaker or equal (`woe`: the first may not be
      non-positive where the second is positive), stronger or equal (`soe`:
      the other way round). */
  predicate Breaks(eq: bool, woe: bool, soe: bool, e1: Entry, e2: Entry) {
    || (eq && IsPos(e1) != IsPos(e2))
    || (woe && !IsPos(e1) && IsPos(e2))
    || (soe && IsPos(e1) && !IsPos(e2))
  }

  /** Some key both logs have breaks the relation. */
  ghost predicate RelationFails(d1: Dict, d2: Dict, eq: bool, woe: bool, soe: bool) {
    exists k :: k in d1 && k in d2 && Breaks(eq, woe, soe, d1[k], d2[k])
  }

  /** `assert_relation(args)`: keys that only one log has are skipped; the
      assertion fails exactly when a shared key breaks the relation. */
  method AssertRelation(log1: Log, log2: Log, eq: bool, woe: bool, soe: bool) returns (fail: bool)
    requires log1.Valid() && log2.Valid()
    ensures fail <==> RelationFails(log1.d, log2.d, eq, woe, soe)
  {
    var vs := [log1.Value(), log2.Value()];
    ghost var d1, d2 := log1.d, log2.d;
    var ks := GetKeys(vs);
    fail := false;
    var n := 0;
    while n < |ks|
      invariant n <= |ks|
      invariant fail ==> RelationFails(d1, d2, eq, woe, soe)
      invariant !fail ==> forall t :: 0 <= t < n && ks[t] in d1 && ks[t] in d2 ==>
                            !Breaks(eq, woe, soe, d1[ks[t]], d2[ks[t]])
    {
      var k := ks[n];
      var e1 := log1.Get(k);
      var e2 := log2.Get(k);
      if e1.Some? && e2.Some? {
        if eq && IsPos(e1.value) != IsPos(e2.value) {
          fail := true;
          break;
        }
        if woe && !IsPos(e1.value) && IsPos(e2.value) {
          fail := true;
          break;
        }
        if soe && IsPos(e1.value) && !IsPos(e2.value) {
          fail := true;
          break;
        }
      }
      n := n + 1;
    }
    if !fail {
      forall k | k in log1.d && k in log2.d ensures !Breaks(eq, woe, soe, log1.d[k], log2.d[k]) {
        assert AllValid(vs);
        GetKeysEntry(vs, k);
        assert k in vs[0].d;
        var t :| 0 <= t < |ks| && ks[t] == k;
      }
    }
  }

  /** Asserting that the first log is weaker or equal is asserting that the
      second is stronger or equal, and equality holds exactly when both
      hold. */
  lemma RelationDuality(d1: Dict, d2: Dict)
    ensures RelationFails(d1, d2, false, true, false) <==> RelationFails(d2, d1, false, false, true)
    ensures RelationFails(d1, d2, true, false, false) <==> RelationFails(d1, d2, false, true, true)
    ensures RelationFails(d1, d2, true, false, false) <==>
              RelationFails(d1, d2, false, true, false) || RelationFails(d1, d2, false, false, true)
  {
    if RelationFails(d1, d2, false, true, false) {
      var k :| k in d1 && k in d2 && Breaks(false, true, false, d1[k], d2[k]);
      assert Breaks(false, false, true, d2[k], d1[k]);
    }
    if RelationFails(d2, d1, false, false, true) {
      var k :| k in d2 && k in d1 && Breaks(false, false, true, d2[k], d1[k]);
      assert Breaks(false, true, false, d1[k], d2[k]);
    }
  }

  // ---------------------------------------------------------------------------
  // `cmp`: which keys get a row

  /** The row a key gets, by its entries in the two logs: every key with
      `all`; with `weaker`, the first positive and the second missing or
      not; with `stronger`, the first present and not positive and the
      second missing or positive; with `equal`, both present with the same
      positivity. */
  predicate Selected(all: bool, weaker: bool, stronger: bool, equal: bool, e1: Option<Entry>, e2: Option<Entry>) {
    || all
    || (weaker && e1.Some? && IsPos(e1.value) && (e2.None? || !IsPos(e2.value)))
    || (stronger && e1.Some? && !IsPos(e1.value) && (e2.None? || IsPos(e2.value)))
    || (equal && e1.Some? && e2.Some? && IsPos(e1.value) == IsPos(e2.value))
  }

  function Lookup(d: Dict, k: string): Option<Entry> {
    if k in d then Some(d[k]) else None
  }

  /** The keys among `ks`, in their order, that get a row. */
  function CmpKeys(ks: seq<string>, d1: Dict, d2: Dict, all: bool, weaker: bool, stronger: bool, equal: bool): (r: seq<string>)
    ensures forall k :: k in r <==> k in ks && Selected(all, weaker, stronger, equal, Lookup(d1, k), Lookup(d2, k))
    ensures all ==> r == ks
    decreases |ks|
  {
    if |ks| == 0 then []
    else
      var k := ks[|ks| - 1];
      var init := ks[..|ks| - 1];
      var p := CmpKeys(init, d1, d2, all, weaker, stronger, equal);
      assert forall y :: y in ks <==> y in init || y == k;
      assert all ==> ks == init + [k];
      if Selected(all, weaker, stronger, equal, Lookup(d1, k), Lookup(d2, k)) then p + [k] else p
  }

  /** The rows keep the order of the key list. */
  lemma {:induction false} CmpKeysSorted(ks: seq<string>, d1: Dict, d2: Dict, all: bool, weaker: bool, stronger: bool, equal: bool)
    requires StrictlySorted(ks)
    ensures StrictlySorted(CmpKeys(ks, d1, d2, all, weaker, stronger, equal))
    decreases |ks|
  {
    if |ks| > 0 {
      var k := ks[|ks| - 1];
      var init := ks[..|ks| - 1];
      CmpKeysSorted(init, d1, d2, all, weaker, stronger, equal);
      var p := CmpKeys(init, d1, d2, all, weaker, stronger, equal);
      forall y | y in p ensures Lt(y, k) {
        var j :| 0 <= j < |init| && init[j] == y;
      }
    }
  }

  /** The rows of `cmp(args)`, as the keys they are for. */
  method CmpRows(log1: Log, log2: Log, all: bool, weaker: bool, stronger: bool, equal: bool)
    returns (rows: seq<string>)
    ensures rows == CmpKeys(GetKeys([log1.Value(), log2.Value()]), log1.d, log2.d, all, weaker, stronger, equal)
  {
    var ks := GetKeys([log1.Value(), log2.Value()]);
    rows := [];
    for n := 0 to |ks|
      invariant rows == CmpKeys(ks[..n], log1.d, log2.d, all, weaker, stronger, equal)
    {
      var k := ks[n];
      var row := CmpRow(log1, log2, k, all, weaker, stronger, equal);
      assert ks[..n + 1][..n] == ks[..n];
      if row {
        rows := rows + [k];
      }
    }
    assert ks[..|ks|] == ks;
  }

  /** The tests of one iteration of `cmp`, in the source's order; the first
      that holds prints the row and moves on to the next key. */
  method CmpRow(log1: Log, log2: Log, k: string, all: bool, weaker: bool, stronger: bool, equal: bool)
    returns (row: bool)
    ensures row == Selected(all, weaker, stronger, equal, Lookup(log1.d, k), Lookup(log2.d, k))
  {
    var e1 := log1.Get(k);
    var e2 := log2.Get(k);
    if all {
      return true;
    }
    if weaker && (e1.Some? && IsPos(e1.value) && (e2.None? || !IsPos(e2.value))) {
      return true;
    }
    if stronger && (e1.Some? && !IsPos(e1.value) && (e2.None? || IsPos(e2.value))) {
      return true;
    }
    if equal && (e1.Some? && e2.Some? && IsPos(e1.value) == IsPos(e2.value)) {
      return true;
    }
    return false;
  }

  /** The `weaker` rows of keys both logs have are exactly the keys on which
      asserting "stronger or equal" fails. */
  lemma WeakerRowsBreakStronger(ks: seq<string>, d1: Dict, d2: Dict, k: string)
    requires k in ks && k in d1 && k in d2
    ensures k in CmpKeys(ks, d1, d2, false, true, false, false) <==> Breaks(false, false, true, d1[k], d2[k])
    ensures k in CmpKeys(ks, d1, d2, false, true, false, false) <==> IsPos(d1[k]) && !IsPos(d2[k])
  {
  }

  // ---------------------------------------------------------------------------
  // `best`

  /** The entries with the given name, in order. */
  function Named(es: seq<Entry>, n: string): (r: seq<Entry>)
    ensures forall e :: e in r <==> e in es && e.name == n
    decreases |es|
  {
    if |es| == 0 then []
    else Named(es[..|es| - 1], n) + (if es[|es| - 1].name == n then [es[|es| - 1]] else [])
  }

  /** `max(es, key=lambda x: x.pos)`, as a position: the first entry with
      the largest count of positive outcomes. */
  function MaxByPos(es: seq<Entry>): (i: nat)
    requires |es| > 0
    ensures i < |es|
    ensures forall j :: 0 <= j < |es| ==> es[j].pos <= es[i].pos
    ensures forall j :: 0 <= j < i ==> es[j].pos < es[i].pos
    decreases |es|
  {
    if |es| == 1 then 0
    else
      var m := MaxByPos(es[..|es| - 1]);
      assert forall j :: 0 <= j < |es| - 1 ==> es[..|es| - 1][j] == es[j];
      if es[|es| - 1].pos > es[m].pos then |es| - 1 else m
  }

  /** The entry `best` keeps for a name: of the entries with that name, the
      first with the most positive outcomes; none when no entry has it. */
  function BestOf(es: seq<Entry>, n: string): (r: Option<Entry>)
    ensures r.Some? <==> exists e :: e in es && e.name == n
    ensures r.Some? ==> r.value in es && r.value.name == n
    ensures r.Some? ==> forall e :: e in es && e.name == n ==> e.pos <= r.value.pos
  {
    var named := Named(es, n);
    if |named| == 0 then
      assert forall e :: e in es && e.name == n ==> e in named;
      None
    else
      var i := MaxByPos(named);
      assert forall e :: e in named ==> e.pos <= named[i].pos;
      Some(named[i])
  }

  /** The names of the entries (`get_long_names`, as a set). */
  ghost function LongNames(d: Dict): set<string> {
    set k | k in d :: d[k].name
  }

  /** The best entry of each of the `names`. */
  function Bests(es: seq<Entry>, names: seq<string>): (r: seq<Option<Entry>>)
    ensures |r| == |names|
  {
    if |names| == 0 then [] else Bests(es, names[..|names| - 1]) + [BestOf(es, names[|names| - 1])]
  }

  lemma {:induction false} BestsAt(es: seq<Entry>, names: seq<string>, t: nat)
    requires t < |names|
    ensures Bests(es, names)[t] == BestOf(es, names[t])
  {
    if t < |names| - 1 {
      BestsAt(es, names[..|names| - 1], t);
    }
  }

  /** `best(args)`: a fresh plain log with one entry per test name, in the
      order the names are listed, each the best of its name. The names come
      from a set, so their order is a parameter: any listing of them. */
  method Best(log: Log, names: seq<string>) returns (out: Log)
    requires log.Valid() && log.inc && Keyed(true, log.d)
    requires Distinct(names)
    requires forall n :: n in names <==> n in LongNames(log.d)
    ensures fresh(out) && !out.inc && out.Valid() && Keyed(false, out.d)
    ensures out.keys == names
    ensures out.d == Table(names, Bests(GetAll(log.keys, log.d), names), |names|)
  {
    var v := log.Value();
    var entries := GetAll(v.keys, v.d);
    ghost var bests := Bests(entries, names);
    forall t | 0 <= t < |names| ensures bests[t].Some? && bests[t].value.name == names[t] != [] {
      BestNamed(v, names[t]);
      BestsAt(entries, names, t);
    }
    out := new Log(false);
    var i := 0;
    while i < |names|
      invariant i <= |names|
      invariant fresh(out) && !out.inc && out.Valid() && Keyed(false, out.d)
      invariant out.keys == Kept(names, bests, i) && out.d == Table(names, bests, i)
    {
      var name := names[i];
      BestsAt(entries, names, i);
      var el := BestOf(entries, name).value;
      out.Extend(names, bests, i, el);
      i := i + 1;
    }
    KeptAll(names, bests, |names|);
    assert names[..|names|] == names;
  }

  /** The best log holds each listed name with the best entry of that name. */
  lemma BestTable(es: seq<Entry>, names: seq<string>, t: nat)
    requires Distinct(names) && t < |names| && BestOf(es, names[t]).Some?
    ensures var tb := Table(names, Bests(es, names), |names|);
      names[t] in tb && tb[names[t]] in es && tb[names[t]].name == names[t]
      && forall e :: e in es && e.name == names[t] ==> e.pos <= tb[names[t]].pos
  {
    BestsAt(es, names, t);
    TableValue(names, Bests(es, names), |names|, t);
  }

  /** Every name of an incantation log has a best entry, under that name,
      which is not empty. */
  lemma BestNamed(v: LogValue, name: string)
    requires WellFormed(v) && Keyed(true, v.d) && name in LongNames(v.d)
    ensures BestOf(GetAll(v.keys, v.d), name).Some?
    ensures BestOf(GetAll(v.keys, v.d), name).value.name == name != []
  {
    var entries := GetAll(v.keys, v.d);
    var k :| k in v.d && v.d[k].name == name;
    assert GetKey(true, v.d[k]) == Some(k);
    var t :| 0 <= t < |v.keys| && v.keys[t] == k;
    assert entries[t] in entries && entries[t].name == name;
  }
}
