/** A litmus log (machinery.py `Log` and `LogInc`): an ordered dictionary of
    entries, keyed by the test name, or for an incantation log by the name
    and the four incantation flags; and the queries that look keys up
    across several logs. */
module Logs {
  import opened Wrappers
  import opened Strings
  import opened Order
  import opened LogEntries

  type Dict = map<string, Entry>

  // ---------------------------------------------------------------------------
  // Keys

  /** `get_key(le)`: the name for a plain log; for an incantation log the
      name and the four flags joined by `-`. An empty name fails the
      assertion. */
  function GetKey(inc: bool, e: Entry): (r: Option<string>)
    ensures r.Some? <==> e.name != []
    ensures r.Some? && !inc ==> r.value == e.name
    ensures r.Some? && inc ==> StartsWith(r.value, e.name + "-") && r.value != e.name
  {
    if e.name == [] then None
    else if inc then
      Some(Join([e.name, BoolToString(e.generalBc), BoolToString(e.memStress),
                 BoolToString(e.randThreads), BoolToString(e.barrier)], "-"))
    else Some(e.name)
  }

  /** `a` followed by `-` and a flag. */
  function Suffixed(a: string, x: bool): string {
    a + "-" + BoolToString(x)
  }

  /** The incantation key: the name, then the four flags. */
  lemma IncKeyText(e: Entry)
    requires e.name != []
    ensures GetKey(true, e) ==
      Some(Suffixed(Suffixed(Suffixed(Suffixed(e.name, e.generalBc), e.memStress), e.randThreads), e.barrier))
  {
    Join5(e.name, BoolToString(e.generalBc), BoolToString(e.memStress),
      BoolToString(e.randThreads), BoolToString(e.barrier), "-");
    var s1 := Suffixed(e.name, e.generalBc);
    var s2 := Suffixed(s1, e.memStress);
    var s3 := Suffixed(s2, e.randThreads);
  }

  lemma Join5(a: string, b: string, c: string, d: string, e: string, sep: string)
    ensures Join([a, b, c, d, e], sep) == (((a + sep + b) + sep + c) + sep + d) + sep + e
  {
    assert [a, b, c, d, e][1..] == [b, c, d, e];
    assert [b, c, d, e][1..] == [c, d, e];
    assert [c, d, e][1..] == [d, e];
    assert [d, e][1..] == [e];
    assert Join([d, e], sep) == d + sep + e;
    assert Join([c, d, e], sep) == c + sep + (d + sep + e);
    assert Join([b, c, d, e], sep) == b + sep + (c + sep + (d + sep + e));
  }

  /** A `-True` or `-False` suffix gives back what came before it and the
      flag: the fifth character from the end tells the two apart. */
  lemma FlagSuffix(a: string, x: bool, b: string, y: bool)
    requires Suffixed(a, x) == Suffixed(b, y)
    ensures a == b && x == y
  {
    var s := Suffixed(a, x);
    assert x <==> s[|s| - 5] == '-';
    assert y <==> s[|s| - 5] == '-';
    assert a == s[..|a|] && b == s[..|b|];
  }

  /** Entries under the same key are the same test; in an incantation log
      they also ran with the same incantations. Keys ignore the counts. */
  lemma GetKeyInjective(inc: bool, a: Entry, b: Entry)
    requires GetKey(inc, a).Some? && GetKey(inc, a) == GetKey(inc, b)
    ensures a.name == b.name
    ensures inc ==> a.generalBc == b.generalBc && a.memStress == b.memStress &&
                    a.randThreads == b.randThreads && a.barrier == b.barrier
  {
    if inc {
      IncKeyText(a);
      IncKeyText(b);
      FlagSuffix(Suffixed(Suffixed(Suffixed(a.name, a.generalBc), a.memStress), a.randThreads), a.barrier,
                 Suffixed(Suffixed(Suffixed(b.name, b.generalBc), b.memStress), b.randThreads), b.barrier);
      FlagSuffix(Suffixed(Suffixed(a.name, a.generalBc), a.memStress), a.randThreads,
                 Suffixed(Suffixed(b.name, b.generalBc), b.memStress), b.randThreads);
      FlagSuffix(Suffixed(a.name, a.generalBc), a.memStress, Suffixed(b.name, b.generalBc), b.memStress);
      FlagSuffix(a.name, a.generalBc, b.name, b.generalBc);
    }
  }

  /** Every entry sits under the key `get_key` gives it, as a log read from
      text is built. */
  ghost predicate Keyed(inc: bool, d: Dict) {
    forall k :: k in d ==> GetKey(inc, d[k]) == Some(k)
  }

  /** `verify()` passes: a plain log checks each key against the entry's
      name, an incantation log against `get_key`. */
  ghost predicate Verifies(inc: bool, d: Dict) {
    if inc then forall k :: k in d ==> GetKey(true, d[k]) == Some(k)
    else forall k :: k in d ==> k == d[k].name
  }

  lemma KeyedVerifies(inc: bool, d: Dict)
    requires Keyed(inc, d)
    ensures Verifies(inc, d)
  {
  }

  /** What a log holds: its keys in insertion order and its dictionary. */
  datatype LogValue = LogValue(keys: seq<string>, d: Dict)

  /** The key list lists the dictionary's keys, each once. */
  ghost predicate WellFormed(v: LogValue) {
    && (forall i, j :: 0 <= i < j < |v.keys| ==> v.keys[i] != v.keys[j])
    && (forall k :: k in v.d <==> k in v.keys)
  }

  /** The entries in dictionary order (`get_all`). */
  function GetAll(ks: seq<string>, d: Dict): (r: seq<Entry>)
    requires forall k :: k in ks ==> k in d
    ensures |r| == |ks| && forall i :: 0 <= i < |ks| ==> r[i] == d[ks[i]]
    decreases |ks|
  {
    if |ks| == 0 then [] else GetAll(ks[..|ks| - 1], d) + [d[ks[|ks| - 1]]]
  }

  class Log {
    /** An incantation log (`LogInc`). */
    const inc: bool
    /** The dictionary's keys in insertion order. */
    var keys: seq<string>
    var d: Dict

    function Value(): LogValue
      reads this`keys, this`d
    {
      LogValue(keys, d)
    }

    ghost predicate Valid()
      reads this`keys, this`d
    {
      WellFormed(Value())
    }

    constructor (inc: bool)
      ensures Valid() && this.inc == inc && keys == [] && d == map[]
    {
      this.inc := inc;
      keys := [];
      d := map[];
    }

    /** `get(key)` */
    function Get(key: string): Option<Entry>
      reads this`d
    {
      if key in d then Some(d[key]) else None
    }

    /** `append(le)` as written: the key is the entry's name, in an
        incantation log too; an existing key fails the assertion. */
    method AppendAsWritten(le: Entry) returns (ok: bool)
      requires Valid()
      modifies this
      ensures Valid()
      ensures ok <==> le.name !in old(d)
      ensures ok ==> keys == old(keys) + [le.name] && d == old(d)[le.name := le]
      ensures !ok ==> keys == old(keys) && d == old(d)
    {
      if le.name in d {
        return false;
      }
      keys := keys + [le.name];
      d := d[le.name := le];
      ok := true;
    }

    /** `append(le)` keyed by `get_key`, as the log's other operations key
        it: a new key is added at the end, an existing key or an empty name
        fails the assertion and changes nothing. */
    method Append(le: Entry) returns (ok: bool)
      requires Valid()
      modifies this
      ensures Valid()
      ensures ok <==> GetKey(inc, le).Some? && GetKey(inc, le).value !in old(d)
      ensures ok ==> keys == old(keys) + [GetKey(inc, le).value] && d == old(d)[GetKey(inc, le).value := le]
      ensures !ok ==> keys == old(keys) && d == old(d)
      ensures Keyed(inc, old(d)) ==> Keyed(inc, d)
    {
      var key := GetKey(inc, le);
      if key.None? || key.value in d {
        return false;
      }
      keys := keys + [key.value];
      d := d[key.value := le];
      ok := true;
    }

    /** `append(le)` as one step of building the log key by key: with the
        first `n` keys of `ks` in place, appending the entry that `vals`
        has for the next key puts the first `n + 1` in place. */
    method Extend(ghost ks: seq<string>, ghost vals: seq<Option<Entry>>, n: nat, e: Entry)
      requires n < |ks| == |vals| && Distinct(ks) && vals[n] == Some(e) && GetKey(inc, e) == Some(ks[n])
      requires Valid() && Keyed(inc, d) && keys == Kept(ks, vals, n) && d == Table(ks, vals, n)
      modifies this
      ensures Valid() && Keyed(inc, d) && keys == Kept(ks, vals, n + 1) && d == Table(ks, vals, n + 1)
    {
      TableFresh(ks, vals, n, n);
      var ok := Append(e);
    }

    /** `sort()`: the dictionary in key order. */
    method Sort()
      requires Valid()
      modifies this`keys
      ensures Valid()
      ensures keys == SortUnique(old(keys)) && StrictlySorted(keys)
    {
      SortUniqueSorted(keys);
      keys := SortUnique(keys);
      SortedDistinct(keys);
    }
  }

  // ---------------------------------------------------------------------------
  // Building a log key by key: each of the `ks` in turn, with the entry
  // `vals` has for it, if any.

  /** The keys among the first `n` of `ks` that have an entry, in order. */
  function Kept(ks: seq<string>, vals: seq<Option<Entry>>, n: nat): (r: seq<string>)
    requires n <= |ks| == |vals|
    ensures |r| <= n
  {
    if n == 0 then []
    else Kept(ks, vals, n - 1) + (if vals[n - 1].Some? then [ks[n - 1]] else [])
  }

  /** The dictionary those keys make, each holding its entry. */
  function Table(ks: seq<string>, vals: seq<Option<Entry>>, n: nat): Dict
    requires n <= |ks| == |vals|
  {
    if n == 0 then map[]
    else
      var m := Table(ks, vals, n - 1);
      match vals[n - 1]
      case None => m
      case Some(e) => m[ks[n - 1] := e]
  }

  /** The list and the dictionary have the same keys: those of `ks` whose
      entry is present. */
  lemma {:induction false} KeptTable(ks: seq<string>, vals: seq<Option<Entry>>, n: nat, k: string)
    requires n <= |ks| == |vals|
    ensures k in Kept(ks, vals, n) <==> k in Table(ks, vals, n)
    ensures k in Table(ks, vals, n) <==> exists t :: 0 <= t < n && ks[t] == k && vals[t].Some?
  {
    if n > 0 {
      KeptTable(ks, vals, n - 1, k);
      if vals[n - 1].Some? && ks[n - 1] == k {
        assert 0 <= n - 1 < n && ks[n - 1] == k && vals[n - 1].Some?;
      }
    }
  }

  /** With distinct keys, a key not yet reached is not in the dictionary. */
  lemma {:induction false} TableFresh(ks: seq<string>, vals: seq<Option<Entry>>, n: nat, m: nat)
    requires n <= m < |ks| == |vals| && Distinct(ks)
    ensures ks[m] !in Table(ks, vals, n)
  {
    if n > 0 {
      TableFresh(ks, vals, n - 1, m);
    }
  }

  /** With distinct keys, every present entry is in the dictionary under
      its key. */
  lemma {:induction false} TableValue(ks: seq<string>, vals: seq<Option<Entry>>, n: nat, t: nat)
    requires t < n <= |ks| == |vals| && Distinct(ks) && vals[t].Some?
    ensures ks[t] in Table(ks, vals, n) && Table(ks, vals, n)[ks[t]] == vals[t].value
  {
    if t < n - 1 {
      TableValue(ks, vals, n - 1, t);
    }
  }

  /** When every key has an entry, all keys are kept, in order. */
  lemma {:induction false} KeptAll(ks: seq<string>, vals: seq<Option<Entry>>, n: nat)
    requires n <= |ks| == |vals| && forall t :: 0 <= t < |vals| ==> vals[t].Some?
    ensures Kept(ks, vals, n) == ks[..n]
  {
    if n > 0 {
      KeptAll(ks, vals, n - 1);
      assert ks[..n] == ks[..n - 1] + [ks[n - 1]];
    }
  }

  /** The as-written `append` breaks an incantation log: the entry lands
      under its bare name, which `verify` rejects, and a second run of the
      same test with other incantations is turned away as a duplicate,
      although its `get_key` differs. */
  lemma AsWrittenIncKeys(a: Entry, b: Entry)
    requires a.name != [] && b.name == a.name && b.barrier != a.barrier
    ensures !Verifies(true, map[a.name := a])
    ensures b.name in map[a.name := a]
    ensures GetKey(true, a) != GetKey(true, b)
  {
    var m := map[a.name := a];
    assert a.name in m && GetKey(true, m[a.name]) != Some(a.name);
    if GetKey(true, a) == GetKey(true, b) {
      GetKeyInjective(true, a, b);
    }
  }

  // ---------------------------------------------------------------------------
  // Queries over several logs. They only read the logs, so they are stated
  // on the logs' values.

  /** The values of the logs, in order. */
  function ValuesOf(logs: seq<Log>): (r: seq<LogValue>)
    reads logs
    ensures |r| == |logs| && forall i :: 0 <= i < |logs| ==> r[i] == logs[i].Value()
    decreases |logs|
  {
    if |logs| == 0 then [] else ValuesOf(logs[..|logs| - 1]) + [logs[|logs| - 1].Value()]
  }

  /** The position of the first log that has the key, or the number of
      logs. */
  function FirstWith(k: string, vs: seq<LogValue>): (i: nat)
    ensures i <= |vs| && (i < |vs| ==> k in vs[i].d)
    ensures forall j :: 0 <= j < i ==> k !in vs[j].d
    decreases |vs|
  {
    if |vs| == 0 || k in vs[0].d then 0
    else
      var i := FirstWith(k, vs[1..]);
      assert forall j :: 1 <= j < |vs| ==> vs[j] == vs[1..][j - 1];
      1 + i
  }

  /** `get_entry(key, logs)`: the entry of the first log that has the key;
      none at all fails the assertion. */
  function GetEntry(k: string, vs: seq<LogValue>): (r: Option<Entry>)
    ensures r.Some? <==> FirstWith(k, vs) < |vs|
    ensures r.Some? ==> r.value == vs[FirstWith(k, vs)].d[k]
  {
    var i := FirstWith(k, vs);
    if i < |vs| then Some(vs[i].d[k]) else None
  }

  /** `get_entry` finds the key exactly when some log has it, and then
      returns the entry of the first such log. */
  lemma GetEntryFirst(k: string, vs: seq<LogValue>, i: nat)
    requires i < |vs| && k in vs[i].d
    ensures GetEntry(k, vs).Some?
    ensures (forall j :: 0 <= j < i ==> k !in vs[j].d) ==> GetEntry(k, vs) == Some(vs[i].d[k])
  {
  }

  lemma GetEntryNone(k: string, vs: seq<LogValue>)
    ensures GetEntry(k, vs).None? <==> forall i :: 0 <= i < |vs| ==> k !in vs[i].d
  {
    if GetEntry(k, vs).Some? {
      assert k in vs[FirstWith(k, vs)].d;
    }
  }

  /** The key lists of all logs, one after the other. */
  function AllKeys(vs: seq<LogValue>): (r: seq<string>)
    ensures forall k :: k in r <==> exists i :: 0 <= i < |vs| && k in vs[i].keys
    decreases |vs|
  {
    if |vs| == 0 then []
    else
      var r := AllKeys(vs[..|vs| - 1]) + vs[|vs| - 1].keys;
      assert forall i :: 0 <= i < |vs| - 1 ==> vs[i] == vs[..|vs| - 1][i];
      r
  }

  /** `get_keys(logs)`: the keys of all logs, each once, in increasing
      order. */
  function GetKeys(vs: seq<LogValue>): seq<string> {
    SortUnique(AllKeys(vs))
  }

  /** `get_keys` lists the keys of all logs, each once, in increasing
      order. */
  lemma GetKeysSorted(vs: seq<LogValue>)
    ensures StrictlySorted(GetKeys(vs))
    ensures forall k :: k in GetKeys(vs) <==> exists i :: 0 <= i < |vs| && k in vs[i].keys
  {
    SortUniqueSorted(AllKeys(vs));
  }

  lemma GetKeysDistinct(vs: seq<LogValue>)
    ensures Distinct(GetKeys(vs))
  {
    GetKeysSorted(vs);
    SortedDistinct(GetKeys(vs));
  }

  /** Every log is well formed. */
  ghost predicate AllValid(vs: seq<LogValue>) {
    forall i :: 0 <= i < |vs| ==> WellFormed(vs[i])
  }

  /** Of well-formed logs, `get_keys` lists exactly the keys some log has,
      and `get_entry` finds an entry for each. */
  lemma GetKeysEntry(vs: seq<LogValue>, k: string)
    requires AllValid(vs)
    ensures k in GetKeys(vs) <==> exists i :: 0 <= i < |vs| && k in vs[i].d
    ensures k in GetKeys(vs) <==> GetEntry(k, vs).Some?
  {
    GetKeysSorted(vs);
    if k in GetKeys(vs) {
      var i :| 0 <= i < |vs| && k in vs[i].keys;
      assert WellFormed(vs[i]);
      GetEntryFirst(k, vs, i);
    }
    if exists i :: 0 <= i < |vs| && k in vs[i].d {
      var i :| 0 <= i < |vs| && k in vs[i].d;
      assert WellFormed(vs[i]);
    }
    if GetEntry(k, vs).Some? {
      assert WellFormed(vs[FirstWith(k, vs)]);
    }
  }

  /** Some log has a positive entry under the key. */
  predicate HasPos(k: string, vs: seq<LogValue>) {
    exists i :: 0 <= i < |vs| && k in vs[i].d && IsPos(vs[i].d[k])
  }

  /** The key list the queries walk: the one given, or else `get_keys`. */
  function KeyList(vs: seq<LogValue>, ks: Option<seq<string>>): seq<string> {
    if ks.Some? then ks.value else GetKeys(vs)
  }

  /** What `get_pos_keys(logs, ks)` returns: the keys among `ks`, in their
      order, that have a positive entry in some log. */
  function PosKeys(vs: seq<LogValue>, ks: seq<string>): (r: seq<string>)
    ensures forall k :: k in r <==> k in ks && HasPos(k, vs)
    ensures |r| <= |ks|
    decreases |ks|
  {
    if |ks| == 0 then []
    else
      var k := ks[|ks| - 1];
      var init := ks[..|ks| - 1];
      var p := PosKeys(vs, init);
      assert forall y :: y in ks <==> y in init || y == k;
      if HasPos(k, vs) then p + [k] else p
  }

  /** The positive keys keep the order of the list they come from. */
  lemma {:induction false} PosKeysSorted(vs: seq<LogValue>, ks: seq<string>)
    requires StrictlySorted(ks)
    ensures StrictlySorted(PosKeys(vs, ks))
    decreases |ks|
  {
    if |ks| > 0 {
      var k := ks[|ks| - 1];
      var init := ks[..|ks| - 1];
      PosKeysSorted(vs, init);
      var p := PosKeys(vs, init);
      forall y | y in p ensures Lt(y, k) {
        var j :| 0 <= j < |init| && init[j] == y;
      }
    }
  }

  /** `get_pos_keys(logs, ks)` */
  method GetPosKeys(logs: seq<Log>, ks: Option<seq<string>>) returns (l: seq<string>)
    ensures l == PosKeys(ValuesOf(logs), KeyList(ValuesOf(logs), ks))
  {
    var vs := ValuesOf(logs);
    var keys := KeyList(vs, ks);
    l := [];
    for n := 0 to |keys|
      invariant l == PosKeys(vs, keys[..n])
    {
      var found := AnyPos(vs, keys[n]);
      assert keys[..n + 1][..n] == keys[..n];
      if found {
        l := l + [keys[n]];
      }
    }
    assert keys[..|keys|] == keys;
  }

  /** The inner loop of `get_pos_keys`: whether some log has a positive
      entry under `k`. */
  method AnyPos(vs: seq<LogValue>, k: string) returns (found: bool)
    ensures found == HasPos(k, vs)
  {
    var i := 0;
    found := false;
    while i < |vs| && !found
      invariant i <= |vs|
      invariant found <==> exists t :: 0 <= t < i && k in vs[t].d && IsPos(vs[t].d[k])
    {
      if k in vs[i].d && IsPos(vs[i].d[k]) {
        found := true;
      }
      i := i + 1;
    }
  }

  /** What `get_filtered_keys(filt, logs, ks)` returns: the keys among `ks`
      whose `get_entry` passes the filter, in their order; a key of `ks`
      that no log has fails the assertion in `get_entry`. */
  function FilteredKeys(filt: Entry -> bool, vs: seq<LogValue>, ks: seq<string>): (r: Option<seq<string>>)
    ensures r.None? <==> exists k :: k in ks && GetEntry(k, vs).None?
    ensures r.Some? ==> forall k :: k in r.value <==> k in ks && filt(GetEntry(k, vs).value)
    decreases |ks|
  {
    if |ks| == 0 then Some([])
    else
      var k := ks[|ks| - 1];
      var init := ks[..|ks| - 1];
      assert forall y :: y in ks <==> y in init || y == k;
      match FilteredKeys(filt, vs, init)
      case None => None
      case Some(p) =>
        match GetEntry(k, vs)
        case None => None
        case Some(e) => if filt(e) then Some(p + [k]) else Some(p)
  }

  /** `get_filtered_keys(filt, logs, ks)` */
  method GetFilteredKeys(filt: Entry -> bool, logs: seq<Log>, ks: Option<seq<string>>) returns (r: Option<seq<string>>)
    ensures r == FilteredKeys(filt, ValuesOf(logs), KeyList(ValuesOf(logs), ks))
  {
    r := FilterKeys(filt, ValuesOf(logs), KeyList(ValuesOf(logs), ks));
  }

  /** The loop of `get_filtered_keys`, over the key list it settled on. */
  method FilterKeys(filt: Entry -> bool, vs: seq<LogValue>, keys: seq<string>) returns (r: Option<seq<string>>)
    ensures r == FilteredKeys(filt, vs, keys)
  {
    var l := [];
    for n := 0 to |keys|
      invariant FilteredKeys(filt, vs, keys[..n]) == Some(l)
    {
      var k := keys[n];
      assert keys[..n + 1][..n] == keys[..n];
      var e := GetEntry(k, vs);
      if e.None? {
        FilteredNone(filt, vs, keys, n + 1);
        return None;
      }
      if filt(e.value) {
        l := l + [k];
      }
    }
    assert keys[..|keys|] == keys;
    r := Some(l);
  }

  /** Once a prefix of the keys fails, the whole list fails. */
  lemma FilteredNone(filt: Entry -> bool, vs: seq<LogValue>, ks: seq<string>, n: nat)
    requires n <= |ks| && FilteredKeys(filt, vs, ks[..n]).None?
    ensures FilteredKeys(filt, vs, ks).None?
  {
    var k :| k in ks[..n] && GetEntry(k, vs).None?;
  }

  /** Over the keys `get_keys` gives, the filter never hits a missing key. */
  lemma FilteredAllKeys(filt: Entry -> bool, vs: seq<LogValue>)
    requires AllValid(vs)
    ensures FilteredKeys(filt, vs, GetKeys(vs)).Some?
  {
    forall k | k in GetKeys(vs) ensures GetEntry(k, vs).Some? {
      GetKeysEntry(vs, k);
    }
  }
}
