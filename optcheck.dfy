/** The driver of the SASS optimisation checker (optcheck.py `check_spec` and
    the target and verdict block of the main program): the instruction stream
    is extracted and cleaned, the embedded specification is clustered into
    chains, every chain is checked against its window, and the fence counts
    observed on the way are compared with the minimum the test name asks for. */
module Optcheck {
  import opened Wrappers
  import opened Strings
  import opened Sass
  import opened SassStream
  import opened Greedy
  import opened Cluster
  import opened Window

  // ---------------------------------------------------------------------------
  // `check_spec`.

  /** The instruction lines of the cuobjdump output, before cleaning. */
  function Stream(out: string): seq<string> {
    FilterInst(SplitLines(out))
  }

  /** Every line with its comments removed and its white space trimmed. */
  function CleanLines(lis: seq<string>): seq<string> {
    seq(|lis|, i requires 0 <= i < |lis| => CleanLine(lis[i]))
  }

  /** The step matcher of each chain. */
  function Matchers(v: Variant, cl: seq<Chain>, lis: seq<string>): (ms: seq<Matcher>)
    ensures |ms| == |cl|
  {
    seq(|cl|, k requires 0 <= k < |cl| => StepMatcher(v, cl[k], lis))
  }

  /** The loop over the clusters, with `ms[k]` the matcher of chain `k`:
      every chain is checked, in order, with the fence counts of the earlier
      chains carried into the later ones, and the flag is the conjunction of
      the results (`ok &= ret`). */
  function CheckAll(ms: seq<Matcher>, cl: seq<Chain>, lis: seq<string>, src: Counters): (r: (bool, Counters))
    requires |ms| == |cl| && WellFormed(cl) && HasFences(src)
    ensures r.1.Keys == src.Keys
    decreases |cl|
  {
    if |cl| == 0 then (true, src)
    else
      var n := |cl| - 1;
      var prev := CheckAll(ms[..n], cl[..n], lis, src);
      CheckCounts(ms[n], cl[n], lis, prev.1);
      var ret := CheckOutcome(ms[n], cl[n], lis, prev.1);
      (prev.0 && ret.0, ret.1)
  }

  /** The fences one chain's check adds to a category. */
  function Gain(m: Matcher, spec: Chain, lis: seq<string>, f: string): nat
    requires |spec| > 0
  {
    match Walk(m, spec, lis)
    case None => 0
    case Some(ps) => FenceLines(lis, f, ps[0] + 1, ps[|ps| - 1])
  }

  /** The fences all the chains' checks add to a category. */
  function Gains(ms: seq<Matcher>, cl: seq<Chain>, lis: seq<string>, f: string): nat
    requires |ms| == |cl| && WellFormed(cl)
    decreases |cl|
  {
    if |cl| == 0 then 0
    else
      var n := |cl| - 1;
      Gains(ms[..n], cl[..n], lis, f) + Gain(ms[n], cl[n], lis, f)
  }

  /** Every chain's walk succeeds. */
  predicate AllWalk(ms: seq<Matcher>, cl: seq<Chain>, lis: seq<string>)
    requires |ms| == |cl| && WellFormed(cl)
  {
    forall k :: 0 <= k < |cl| ==> Walk(ms[k], cl[k], lis).Some?
  }

  lemma AllWalkSplit(ms: seq<Matcher>, cl: seq<Chain>, lis: seq<string>)
    requires |ms| == |cl| > 0 && WellFormed(cl)
    ensures WellFormed(cl[..|cl| - 1])
    ensures AllWalk(ms, cl, lis) <==>
      AllWalk(ms[..|cl| - 1], cl[..|cl| - 1], lis) && Walk(ms[|cl| - 1], cl[|cl| - 1], lis).Some?
  {
    var n := |cl| - 1;
    WellFormedPrefix(cl, n);
    assert forall k :: 0 <= k < n ==> ms[..n][k] == ms[k] && cl[..n][k] == cl[k];
  }

  lemma WellFormedPrefix(cl: seq<Chain>, n: nat)
    requires WellFormed(cl) && n <= |cl|
    ensures WellFormed(cl[..n])
  {
    assert forall k :: 0 <= k < n ==> cl[..n][k] == cl[k];
  }

  /** The clusters all pass exactly when every chain's walk succeeds... */
  lemma {:induction false} CheckAllWalks(ms: seq<Matcher>, cl: seq<Chain>, lis: seq<string>, src: Counters)
    requires |ms| == |cl| && WellFormed(cl) && HasFences(src)
    ensures CheckAll(ms, cl, lis, src).0 <==> AllWalk(ms, cl, lis)
    decreases |cl|
  {
    if |cl| > 0 {
      var n := |cl| - 1;
      AllWalkSplit(ms, cl, lis);
      CheckAllWalks(ms[..n], cl[..n], lis, src);
      var prev := CheckAll(ms[..n], cl[..n], lis, src);
      OutcomeFlag(ms[n], cl[n], lis, prev.1);
    }
  }

  /** ... that is, exactly when every chain can be placed. */
  lemma CheckAllIff(ms: seq<Matcher>, cl: seq<Chain>, lis: seq<string>, src: Counters)
    requires |ms| == |cl| && WellFormed(cl) && HasFences(src)
    ensures CheckAll(ms, cl, lis, src).0 <==> forall k :: 0 <= k < |cl| ==> Placed(ms[k], cl[k], lis)
  {
    CheckAllWalks(ms, cl, lis, src);
    assert AllWalk(ms, cl, lis) <==> forall k :: 0 <= k < |cl| ==> Walk(ms[k], cl[k], lis).Some?;
    forall k | 0 <= k < |cl|
      ensures Walk(ms[k], cl[k], lis).Some? <==> Placed(ms[k], cl[k], lis)
    {
      WalkIff(ms[k], cl[k], lis);
    }
  }

  /** Every category ends at its start value plus what all chains add. */
  lemma {:induction false} CheckAllCounts(ms: seq<Matcher>, cl: seq<Chain>, lis: seq<string>, src: Counters)
    requires |ms| == |cl| && WellFormed(cl) && HasFences(src)
    ensures forall f :: f in Fences ==> CheckAll(ms, cl, lis, src).1[f] == src[f] + Gains(ms, cl, lis, f)
    decreases |cl|
  {
    if |cl| > 0 {
      var n := |cl| - 1;
      WellFormedPrefix(cl, n);
      CheckAllCounts(ms[..n], cl[..n], lis, src);
      var prev := CheckAll(ms[..n], cl[..n], lis, src);
      GainCounts(ms[n], cl[n], lis, prev.1);
      assert CheckAll(ms, cl, lis, src).1 == CheckOutcome(ms[n], cl[n], lis, prev.1).1;
    }
  }

  /** One chain's check raises each category by its gain. */
  lemma GainCounts(m: Matcher, spec: Chain, lis: seq<string>, src: Counters)
    requires |spec| > 0 && HasFences(src)
    ensures forall f :: f in Fences ==> CheckOutcome(m, spec, lis, src).1[f] == src[f] + Gain(m, spec, lis, f)
  {
    CheckCounts(m, spec, lis, src);
  }

  /** What `check_spec` returns, with the counts it leaves in `source`. */
  function CheckSpecOf(v: Variant, out: string, src: Counters): Result<(bool, Counters), Fault>
    requires HasFences(src)
  {
    var lis := Stream(out);
    if |lis| <= 5 then Err(TooFewInstructions)
    else
      var lis' := CleanLines(lis);
      match ClusterSpec(lis')
      case Err(e) => Err(e)
      case Ok(cl) =>
        ClusterSpecShape(lis');
        Ok(CheckAll(Matchers(v, cl, lis'), cl, lis', src))
  }

  /** `check_spec` (lines 476-508). */
  method CheckSpec(v: Variant, out: string, source0: Counters) returns (r: Result<(bool, Counters), Fault>)
    requires HasFences(source0)
    ensures r == CheckSpecOf(v, out, source0)
  {
    var lis := Stream(out);
    var n := |lis|;
    if n <= 5 {
      return Err(TooFewInstructions);
    }
    var cleaned := CleanStream(lis);

    var cr := ClusterSpecs(cleaned);
    if cr.Err? {
      return Err(cr.error);
    }
    var cl := cr.value;
    ClusterSpecShape(cleaned);
    ghost var ms := Matchers(v, cl, cleaned);
    MatchersDecide(v, cl, cleaned);
    var ok, source := CheckChains(IMap(v), cl, cleaned, source0, ms);
    return Ok((ok, source));
  }

  /** The loop of lines 497-506 over the clusters. */
  method CheckChains(table: seq<MapEntry>, cl: seq<Chain>, lis: seq<string>, source0: Counters, ghost ms: seq<Matcher>)
    returns (ok: bool, source: Counters)
    requires |lis| > 5 && |ms| == |cl| && WellFormed(cl) && HasFences(source0)
    requires forall k :: 0 <= k < |table| ==> table[k].linkPos == 0
    requires forall k :: 0 <= k < |cl| ==> Decides(table, cl[k], lis, ms[k])
    ensures (ok, source) == CheckAll(ms, cl, lis, source0)
  {
    ok, source := true, source0;
    for i := 0 to |cl|
      invariant HasFences(source)
      invariant (ok, source) == CheckAll(ms[..i], cl[..i], lis, source0)
    {
      CheckAllStep(ms, cl, lis, source0, i);
      var ret;
      ret, source := Check(table, cl[i], lis, source, ms[i]);
      ok := ok && ret;
    }
    assert cl[..|cl|] == cl && ms[..|ms|] == ms;
  }

  /** One more chain: its check runs on the counts the earlier ones left. */
  lemma CheckAllStep(ms: seq<Matcher>, cl: seq<Chain>, lis: seq<string>, src: Counters, i: nat)
    requires |ms| == |cl| && WellFormed(cl) && HasFences(src) && i < |cl|
    ensures WellFormed(cl[..i]) && WellFormed(cl[..i + 1])
    ensures var prev := CheckAll(ms[..i], cl[..i], lis, src);
      var ret := CheckOutcome(ms[i], cl[i], lis, prev.1);
      CheckAll(ms[..i + 1], cl[..i + 1], lis, src) == (prev.0 && ret.0, ret.1)
  {
    WellFormedPrefix(cl, i);
    WellFormedPrefix(cl, i + 1);
    assert cl[..i + 1][..i] == cl[..i] && ms[..i + 1][..i] == ms[..i];
  }

  /** Each chain's step matcher decides its steps as `Accepts` does. */
  lemma MatchersDecide(v: Variant, cl: seq<Chain>, lis: seq<string>)
    requires WellFormed(cl)
    ensures forall k :: 0 <= k < |cl| ==> Decides(IMap(v), cl[k], lis, Matchers(v, cl, lis)[k])
  {
    forall k | 0 <= k < |cl|
      ensures Decides(IMap(v), cl[k], lis, Matchers(v, cl, lis)[k])
    {
      StepMatcherAll(v, cl[k], lis);
    }
  }

  /** The instruction lines, copied into an array and cleaned there. */
  method CleanStream(lis: seq<string>) returns (cleaned: seq<string>)
    ensures cleaned == CleanLines(lis)
  {
    var a := new string[|lis|](i requires 0 <= i < |lis| => lis[i]);
    CleanAll(a);
    cleaned := a[..];
  }

  /** The cleaning loop of lines 482-485, rewriting the lines in place. */
  method CleanAll(a: array<string>)
    modifies a
    ensures a[..] == CleanLines(old(a[..]))
  {
    for i := 0 to a.Length
      invariant forall j :: 0 <= j < i ==> a[j] == CleanLine(old(a[j]))
      invariant forall j :: i <= j < a.Length ==> a[j] == old(a[j])
    {
      a[i] := CleanLine(a[i]);
    }
  }

  // ---------------------------------------------------------------------------
  // The target.

  /** The minimum count of each fence category: its occurrences in the
      lower-cased test name plus those followed by an `s`. */
  function Target(name: string): (t: Counters)
    ensures HasFences(t) && t.Keys == set f | f in Fences
  {
    var l := Lower(name);
    map f | f in Fences :: CountOcc(l, f) + CountOcc(l, f + "s")
  }

  /** The two target loops of lines 538-544, starting from zero counters. */
  method ComputeTarget(name: string) returns (target: Counters)
    ensures target == Target(name)
  {
    var l := Lower(name);
    FencesDistinct();
    var zero := ZeroCounters();
    var plurals := AddPlurals(zero, l, Fences);
    PluralsEven(zero, plurals, l, Fences);
    target := AddSingles(plurals, l, Fences);
    SinglesAfterPlurals(zero, plurals, target, l, Fences);
    forall f | f in target ensures target[f] == Target(name)[f] {
      TargetAt(name, f);
    }
  }

  /** After the first loop from zero, every listed category holds an even
      count. */
  lemma PluralsEven(z: Counters, p: Counters, l: string, fs: seq<string>)
    requires forall j :: 0 <= j < |fs| ==> fs[j] in z && z[fs[j]] == 0
    requires p.Keys == z.Keys
    requires forall f :: f in z ==> p[f] == if f in fs then z[f] + 2 * CountOcc(l, f + "s") else z[f]
    ensures forall j :: 0 <= j < |fs| ==> fs[j] in p && p[fs[j]] % 2 == 0
  {
    forall j | 0 <= j < |fs| ensures p[fs[j]] % 2 == 0 {
      assert p[fs[j]] == 2 * CountOcc(l, fs[j] + "s");
    }
  }

  /** The two loops from zero leave each listed category at its count plus
      the count of its plural. */
  lemma SinglesAfterPlurals(z: Counters, p: Counters, t: Counters, l: string, fs: seq<string>)
    requires forall f :: f in fs ==> |f| > 0
    requires p.Keys == z.Keys && t.Keys == p.Keys
    requires forall f :: f in z ==> z[f] == 0
    requires forall f :: f in z ==> p[f] == if f in fs then z[f] + 2 * CountOcc(l, f + "s") else z[f]
    requires forall f :: f in p ==> t[f] == if f in fs then p[f] / 2 + CountOcc(l, f) else p[f]
    ensures forall f :: f in z && f in fs ==> t[f] == CountOcc(l, f) + CountOcc(l, f + "s")
  {
    forall f | f in z && f in fs ensures t[f] == CountOcc(l, f) + CountOcc(l, f + "s") {
      assert p[f] == 2 * CountOcc(l, f + "s");
    }
  }

  /** No category is listed twice. */
  predicate Distinct(fs: seq<string>) {
    forall a, b :: 0 <= a < b < |fs| ==> fs[a] != fs[b]
  }

  /** The first target loop: each listed category gains twice the count of
      its name followed by `s`; the others keep their values. */
  method AddPlurals(t0: Counters, l: string, fs: seq<string>) returns (t: Counters)
    requires Distinct(fs) && forall j :: 0 <= j < |fs| ==> fs[j] in t0 && |fs[j]| > 0
    ensures t.Keys == t0.Keys
    ensures forall f :: f in t0 ==> t[f] == if f in fs then t0[f] + 2 * CountOcc(l, f + "s") else t0[f]
  {
    t := t0;
    for k := 0 to |fs|
      invariant t.Keys == t0.Keys
      invariant forall f :: f in t0 ==> t[f] == if f in fs[..k] then t0[f] + 2 * CountOcc(l, f + "s") else t0[f]
    {
      var f := fs[k];
      assert f !in fs[..k];
      assert forall g :: g in fs[..k + 1] <==> g in fs[..k] || g == f;
      var c := CountOcc(l, f + "s");
      t := t[f := t[f] + 2 * c];
    }
    assert fs[..|fs|] == fs;
  }

  /** The second target loop: each listed category, holding an even value,
      ends at half that value plus the count of its name. Python's `/` is a
      float division here, and it is exact on an even integer. */
  method AddSingles(t0: Counters, l: string, fs: seq<string>) returns (t: Counters)
    requires Distinct(fs) && forall j :: 0 <= j < |fs| ==> fs[j] in t0 && |fs[j]| > 0 && t0[fs[j]] % 2 == 0
    ensures t.Keys == t0.Keys
    ensures forall f :: f in t0 ==> t[f] == if f in fs then t0[f] / 2 + CountOcc(l, f) else t0[f]
  {
    t := t0;
    for k := 0 to |fs|
      invariant t.Keys == t0.Keys
      invariant forall f :: f in t0 ==> t[f] == if f in fs[..k] then t0[f] / 2 + CountOcc(l, f) else t0[f]
    {
      var f := fs[k];
      assert f !in fs[..k];
      assert forall g :: g in fs[..k + 1] <==> g in fs[..k] || g == f;
      var c := CountOcc(l, f);
      t := t[f := t[f] + (c - t[f] / 2)];
    }
    assert fs[..|fs|] == fs;
  }

  // ---------------------------------------------------------------------------
  // The verdict.

  /** Every category was observed at least as often as the target asks. */
  predicate Enough(target: Counters, source: Counters)
    requires HasFences(target) && HasFences(source)
  {
    forall j :: 0 <= j < |Fences| ==> target[Fences[j]] <= source[Fences[j]]
  }

  /** The verdict on what `check_spec` returned: its error, or whether every
      cluster passed and every category reached its target. */
  function Decide(res: Result<(bool, Counters), Fault>, target: Counters): Result<bool, Fault>
    requires HasFences(target) && (res.Ok? ==> HasFences(res.value.1))
  {
    match res
    case Err(e) => Err(e)
    case Ok(p) => Ok(p.0 && Enough(target, p.1))
  }

  /** The outcome of a run on the cuobjdump output `out` of the test `name`. */
  function Verdict(v: Variant, name: string, out: string): Result<bool, Fault> {
    Decide(CheckSpecOf(v, out, ZeroCounters()), Target(name))
  }

  /** The main program after the arguments are read (lines 537-558). */
  method Run(v: Variant, name: string, out: string) returns (r: Result<bool, Fault>)
    ensures r == Verdict(v, name, out)
  {
    var target := ComputeTarget(name);
    var res := CheckSpec(v, out, ZeroCounters());
    r := Conclude(res, target);
  }

  /** What the main program does with the result of `check_spec`. */
  method Conclude(res: Result<(bool, Counters), Fault>, target: Counters) returns (r: Result<bool, Fault>)
    requires HasFences(target) && (res.Ok? ==> HasFences(res.value.1))
    ensures r == Decide(res, target)
  {
    if res.Err? {
      return Err(res.error);
    }
    var ret := CompareTarget(res.value.0, target, res.value.1, Fences);
    return Ok(ret);
  }

  /** The loop of lines 549-552: the first category whose target exceeds its
      count clears the flag and ends the loop. */
  method CompareTarget(ret0: bool, target: Counters, source: Counters, fs: seq<string>) returns (ret: bool)
    requires forall j :: 0 <= j < |fs| ==> fs[j] in target && fs[j] in source
    ensures ret == (ret0 && forall j :: 0 <= j < |fs| ==> target[fs[j]] <= source[fs[j]])
  {
    ret := ret0;
    var k := 0;
    while k < |fs|
      invariant k <= |fs|
      invariant forall j :: 0 <= j < k ==> target[fs[j]] <= source[fs[j]]
      invariant ret == ret0
    {
      var f := fs[k];
      if target[f] > source[f] {
        ret := false;
        break;
      }
      k := k + 1;
    }
  }

  // ---------------------------------------------------------------------------
  // What the verdict means.

  /** The condition for a passing run on clustered chains `cl` with
      matchers `ms`: every chain placed in its window, and in every category
      at least as many fence lines between the ends of the placed chains as
      the target asks for. */
  ghost predicate PassesWith(ms: seq<Matcher>, cl: seq<Chain>, lis: seq<string>, target: Counters)
    requires |ms| == |cl| && WellFormed(cl) && HasFences(target)
  {
    && (forall k :: 0 <= k < |cl| ==> Placed(ms[k], cl[k], lis))
    && forall j :: 0 <= j < |Fences| ==> target[Fences[j]] <= Gains(ms, cl, lis, Fences[j])
  }

  /** Deciding on the loop's result, started from zero counters, passes
      exactly when the chains pass. */
  lemma DecideIff(ms: seq<Matcher>, cl: seq<Chain>, lis: seq<string>, target: Counters)
    requires |ms| == |cl| && WellFormed(cl) && HasFences(target)
    ensures Decide(Ok(CheckAll(ms, cl, lis, ZeroCounters())), target) == Ok(true)
        <==> PassesWith(ms, cl, lis, target)
  {
    CheckAllIff(ms, cl, lis, ZeroCounters());
    CheckAllCounts(ms, cl, lis, ZeroCounters());
  }

  /** The condition for a passing run, stated without the loop bookkeeping:
      at least six instruction lines, a specification that clusters, and
      chains that pass with the step matcher of the variant (`ms[k]` is
      `StepMatcher(v, cl[k], lis)`) against the target of the test name. */
  ghost predicate Accepted(v: Variant, name: string, out: string) {
    var lis := CleanLines(Stream(out));
    && |Stream(out)| > 5
    && ClusterSpec(lis).Ok?
    && var cl := ClusterSpec(lis).value;
       ClusterSpecShape(lis);
       PassesWith(Matchers(v, cl, lis), cl, lis, Target(name))
  }

  /** The run passes exactly when the test was compiled as specified. */
  lemma VerdictIff(v: Variant, name: string, out: string)
    ensures Verdict(v, name, out) == Ok(true) <==> Accepted(v, name, out)
  {
    var lis := CleanLines(Stream(out));
    if |Stream(out)| > 5 && ClusterSpec(lis).Ok? {
      var cl := ClusterSpec(lis).value;
      ClusterSpecShape(lis);
      DecideIff(Matchers(v, cl, lis), cl, lis, Target(name));
    }
  }

  /** A run fails with an error, not a verdict, exactly when the output
      holds fewer than six instruction lines or its specification does not
      cluster; the error is the first stage's. */
  lemma VerdictErrors(v: Variant, name: string, out: string)
    ensures |Stream(out)| <= 5 ==> Verdict(v, name, out) == Err(TooFewInstructions)
    ensures |Stream(out)| > 5 ==>
      var c := ClusterSpec(CleanLines(Stream(out)));
      (Verdict(v, name, out).Err? <==> c.Err?) && (c.Err? ==> Verdict(v, name, out) == Err(c.error))
  {
  }

  /** In `sb-membar.ctass` the category `membar.cta` occurs once, as part
      of the plural `membar.ctas`; that one occurrence of the plural counts
      for both `membar.cta` and `membar.ctas`, giving a target of 2. The
      other two categories do not occur. */
  lemma TargetExample()
    ensures "membar.cta" in Target("sb-membar.ctass") && Target("sb-membar.ctass")["membar.cta"] == 2
    ensures "membar.gl" in Target("sb-membar.ctass") && Target("sb-membar.ctass")["membar.gl"] == 0
  {
    var name := "sb-membar.ctass";
    assert Fences[0] == "membar.cta" && Fences[1] == "membar.gl";
    ExampleLower(name);
    TargetAt(name, "membar.cta");
    TargetAt(name, "membar.gl");
    ExampleCounts(name);
  }

  lemma TargetAt(name: string, f: string)
    requires f in Fences
    ensures Target(name)[f] == CountOcc(Lower(name), f) + CountOcc(Lower(name), f + "s")
  {
  }

  lemma ExampleLower(name: string)
    requires name == "sb-membar.ctass"
    ensures Lower(name) == name
  {
  }

  lemma ExampleCounts(name: string)
    requires name == "sb-membar.ctass"
    ensures CountOcc(name, "membar.cta") + CountOcc(name, "membar.cta" + "s") == 2
    ensures CountOcc(name, "membar.gl") + CountOcc(name, "membar.gl" + "s") == 0
  {
    var cta, gl := "membar.cta", "membar.gl";
    assert name == "sb-" + (cta + "ss") == "sb-" + ((cta + "s") + "s");
    CountOccSkip("sb-", cta + "ss", cta);
    CountOccOnce(cta, "ss");
    CountOccSkip("sb-", (cta + "s") + "s", cta + "s");
    CountOccOnce(cta + "s", "s");
    CountOccMissing(name, gl, 'g');
    CountOccMissing(name, gl + "s", 'g');
  }
}
