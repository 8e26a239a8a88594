/** In-order greedy matching of a list of steps against a range of positions.
    Both the optimisation checker's window scan (optcheck.py `check`) and the
    log-entry field collector (machinery.py `collect`) walk their input once,
    offer each position only to the step currently awaited, and move on to the
    next step at the first position that matches. This module defines that
    walk and proves it finds a match exactly when one exists. */
module Greedy {
  import opened Wrappers

  /** `m(k, j)`: step `k` accepts position `j`. */
  type Matcher = (nat, nat) -> bool

  /** The first position in `[lo, hi)` that step `k` accepts. */
  function First(m: Matcher, k: nat, lo: nat, hi: nat): (r: Option<nat>)
    ensures r.Some? ==> lo <= r.value < hi && m(k, r.value)
    ensures r.Some? ==> forall j :: lo <= j < r.value ==> !m(k, j)
    ensures r.None? ==> forall j :: lo <= j < hi ==> !m(k, j)
    decreases hi - lo
  {
    if lo >= hi then None
    else if m(k, lo) then Some(lo)
    else First(m, k, lo + 1, hi)
  }

  /** The positions the greedy walk assigns to steps `k .. n-1`, starting at
      `lo` and stopping before `hi`; `None` when some step is never matched. */
  function Embed(m: Matcher, k: nat, n: nat, lo: nat, hi: nat): (r: Option<seq<nat>>)
    ensures r.Some? && k <= n ==> |r.value| == n - k
    decreases n - k
  {
    if k >= n then Some([])
    else match First(m, k, lo, hi)
      case None => None
      case Some(p) =>
        match Embed(m, k + 1, n, p + 1, hi)
        case None => None
        case Some(ps) => Some([p] + ps)
  }

  /** `ps` places steps `k .. n-1` at strictly increasing positions of
      `[lo, hi)`, each accepted by its step. */
  ghost predicate IsEmbedding(m: Matcher, ps: seq<nat>, k: nat, n: nat, lo: nat, hi: nat) {
    && k <= n
    && |ps| == n - k
    && (forall i :: 0 <= i < |ps| ==> lo <= ps[i] < hi && m(k + i, ps[i]))
    && (forall i, j :: 0 <= i < j < |ps| ==> ps[i] < ps[j])
  }

  /** What the greedy walk returns is a placement. */
  lemma {:induction false} EmbedSound(m: Matcher, k: nat, n: nat, lo: nat, hi: nat)
    requires k <= n
    requires Embed(m, k, n, lo, hi).Some?
    ensures IsEmbedding(m, Embed(m, k, n, lo, hi).value, k, n, lo, hi)
    decreases n - k
  {
    if k < n {
      var p := First(m, k, lo, hi).value;
      EmbedSound(m, k + 1, n, p + 1, hi);
      var ps := Embed(m, k + 1, n, p + 1, hi).value;
      var r := [p] + ps;
      assert Embed(m, k, n, lo, hi).value == r;
      forall i | 0 <= i < |r| ensures lo <= r[i] < hi && m(k + i, r[i]) {
        if i > 0 { assert r[i] == ps[i - 1]; }
      }
      forall i, j | 0 <= i < j < |r| ensures r[i] < r[j] {
        assert r[j] == ps[j - 1];
        if i > 0 { assert r[i] == ps[i - 1]; }
      }
    }
  }

  /** A placement that starts later is still a placement from an earlier start. */
  lemma WidenEmbedding(m: Matcher, ps: seq<nat>, k: nat, n: nat, lo: nat, lo': nat, hi: nat)
    requires lo' <= lo
    requires IsEmbedding(m, ps, k, n, lo, hi)
    ensures IsEmbedding(m, ps, k, n, lo', hi)
  {
  }

  /** Whenever any placement exists, the greedy walk finds one, and it places
      each step no later than the given placement does. */
  lemma {:induction false} EmbedComplete(m: Matcher, ps: seq<nat>, k: nat, n: nat, lo: nat, hi: nat)
    requires IsEmbedding(m, ps, k, n, lo, hi)
    ensures Embed(m, k, n, lo, hi).Some?
    ensures |Embed(m, k, n, lo, hi).value| == |ps|
    ensures forall i :: 0 <= i < |ps| ==> Embed(m, k, n, lo, hi).value[i] <= ps[i]
    decreases n - k
  {
    if k < n {
      assert m(k, ps[0]) && lo <= ps[0] < hi;
      var f := First(m, k, lo, hi);
      assert f.Some?;
      var p := f.value;
      assert p <= ps[0];
      var tail := ps[1..];
      TailEmbedding(m, ps, k, n, lo, hi);
      WidenEmbedding(m, tail, k + 1, n, ps[0] + 1, p + 1, hi);
      EmbedComplete(m, tail, k + 1, n, p + 1, hi);
      var rest := Embed(m, k + 1, n, p + 1, hi).value;
      var r := Embed(m, k, n, lo, hi).value;
      assert r == [p] + rest;
      forall i | 0 <= i < |ps| ensures r[i] <= ps[i] {
        if i > 0 { assert r[i] == rest[i - 1] && tail[i - 1] == ps[i]; }
      }
    }
  }

  /** Past its first step, a placement places the remaining steps after the first position. */
  lemma TailEmbedding(m: Matcher, ps: seq<nat>, k: nat, n: nat, lo: nat, hi: nat)
    requires k < n && IsEmbedding(m, ps, k, n, lo, hi)
    ensures IsEmbedding(m, ps[1..], k + 1, n, ps[0] + 1, hi)
  {
    var tail := ps[1..];
    forall i | 0 <= i < |tail| ensures ps[0] + 1 <= tail[i] < hi && m(k + 1 + i, tail[i]) {
      assert tail[i] == ps[i + 1];
      assert ps[0] < ps[i + 1];
    }
    forall i, j | 0 <= i < j < |tail| ensures tail[i] < tail[j] {
      assert tail[i] == ps[i + 1] && tail[j] == ps[j + 1];
    }
  }

  /** The greedy walk succeeds exactly when some placement exists. */
  lemma EmbedIff(m: Matcher, k: nat, n: nat, lo: nat, hi: nat)
    requires k <= n
    ensures Embed(m, k, n, lo, hi).Some? <==> exists ps :: IsEmbedding(m, ps, k, n, lo, hi)
  {
    if Embed(m, k, n, lo, hi).Some? {
      EmbedSound(m, k, n, lo, hi);
    }
    if exists ps :: IsEmbedding(m, ps, k, n, lo, hi) {
      var ps :| IsEmbedding(m, ps, k, n, lo, hi);
      EmbedComplete(m, ps, k, n, lo, hi);
    }
  }

  // ---------------------------------------------------------------------------
  // Facts the loops that implement the walk step by step rely on.

  /** Steps already matched, followed by what the walk does with the rest. */
  function Prepend(ps: seq<nat>, r: Option<seq<nat>>): Option<seq<nat>> {
    match r
    case None => None
    case Some(qs) => Some(ps + qs)
  }

  /** A position the awaited step rejects is skipped. */
  lemma EmbedSkip(m: Matcher, k: nat, n: nat, j: nat, hi: nat)
    requires k < n && j < hi && !m(k, j)
    ensures Embed(m, k, n, j, hi) == Embed(m, k, n, j + 1, hi)
  {
  }

  /** A position the awaited step accepts is taken. */
  lemma EmbedTake(m: Matcher, k: nat, n: nat, j: nat, hi: nat)
    requires k < n && j < hi && m(k, j)
    ensures Embed(m, k, n, j, hi) == Prepend([j], Embed(m, k + 1, n, j + 1, hi))
  {
  }

  /** An exhausted range leaves the awaited step unmatched. */
  lemma EmbedEmpty(m: Matcher, k: nat, n: nat, j: nat, hi: nat)
    requires k < n && hi <= j
    ensures Embed(m, k, n, j, hi) == None
  {
  }

  /** The state of a step-by-step walk: `ps` holds the positions of the
      steps before `k`, and the rest is what the walk does from `j`. */
  ghost predicate WalkAt(m: Matcher, n: nat, lo: nat, hi: nat, ps: seq<nat>, k: nat, j: nat) {
    Embed(m, 0, n, lo, hi) == Prepend(ps, Embed(m, k, n, j, hi))
  }

  lemma WalkStart(m: Matcher, n: nat, lo: nat, hi: nat)
    ensures WalkAt(m, n, lo, hi, [], 0, lo)
  {
    PrependNothing(Embed(m, 0, n, lo, hi));
  }

  lemma WalkSkip(m: Matcher, n: nat, lo: nat, hi: nat, ps: seq<nat>, k: nat, j: nat)
    requires WalkAt(m, n, lo, hi, ps, k, j) && k < n && j < hi && !m(k, j)
    ensures WalkAt(m, n, lo, hi, ps, k, j + 1)
  {
    EmbedSkip(m, k, n, j, hi);
  }

  lemma WalkTake(m: Matcher, n: nat, lo: nat, hi: nat, ps: seq<nat>, k: nat, j: nat)
    requires WalkAt(m, n, lo, hi, ps, k, j) && k < n && j < hi && m(k, j)
    ensures WalkAt(m, n, lo, hi, ps + [j], k + 1, j + 1)
    ensures k + 1 == n ==> Embed(m, 0, n, lo, hi) == Some(ps + [j])
  {
    EmbedTake(m, k, n, j, hi);
    PrependAssoc(ps, [j], Embed(m, k + 1, n, j + 1, hi));
    if k + 1 == n {
      assert Embed(m, k + 1, n, j + 1, hi) == Some([]);
      assert ps + [j] + [] == ps + [j];
    }
  }

  lemma WalkEnd(m: Matcher, n: nat, lo: nat, hi: nat, ps: seq<nat>, k: nat, j: nat)
    requires WalkAt(m, n, lo, hi, ps, k, j) && k < n && hi <= j
    ensures Embed(m, 0, n, lo, hi) == None
  {
    EmbedEmpty(m, k, n, j, hi);
  }

  lemma PrependNothing(r: Option<seq<nat>>)
    ensures Prepend([], r) == r
  {
    if r.Some? { assert [] + r.value == r.value; }
  }

  lemma PrependAssoc(a: seq<nat>, b: seq<nat>, r: Option<seq<nat>>)
    ensures Prepend(a, Prepend(b, r)) == Prepend(a + b, r)
  {
    if r.Some? { assert a + (b + r.value) == (a + b) + r.value; }
  }
}
