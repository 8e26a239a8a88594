/** The list and string helpers of the log-analysis tools (generic.py):
    interleaving two lists in chunks, cutting and padding a string to a
    width, detecting duplicates, and wrapping and unwrapping single values. */
module Generic {
  import opened Wrappers

  // ---------------------------------------------------------------------------
  // `interleave`

  /** How many elements `s[:n]` keeps of a list of length `len`. */
  function Chunk(len: nat, n: nat): (k: nat)
    ensures k <= len && k <= n && (k == len || k == n)
  {
    if n < len then n else len
  }

  /** What `interleave(l1, l2, n)` returns: chunks of up to `n` elements,
      taken alternately from `l1` and from `l2` until both are used up. */
  function Interleaved<T>(l1: seq<T>, l2: seq<T>, n: nat): (r: seq<T>)
    requires n > 0
    ensures |r| == |l1| + |l2|
    decreases |l1| + |l2|
  {
    if |l1| == 0 && |l2| == 0 then []
    else
      var x, y := Chunk(|l1|, n), Chunk(|l2|, n);
      l1[..x] + l2[..y] + Interleaved(l1[x..], l2[y..], n)
  }

  /** The loop of `interleave`. */
  method Interleave<T>(l1: seq<T>, l2: seq<T>, n: nat) returns (l: seq<T>)
    requires n > 0
    ensures l == Interleaved(l1, l2, n)
  {
    l := [];
    var a, b := l1, l2;
    while |a| > 0 || |b| > 0
      invariant l + Interleaved(a, b, n) == Interleaved(l1, l2, n)
      decreases |a| + |b|
    {
      var x, y := Chunk(|a|, n), Chunk(|b|, n);
      var chunk1 := a[..x];
      var chunk2 := b[..y];
      InterleavedRound(a, b, n);
      Regroup(l, chunk1 + chunk2, Interleaved(a[x..], b[y..], n));
      a := a[x..];
      b := b[y..];
      l := l + (chunk1 + chunk2);
    }
  }

  /** One round of the loop: both chunks, then the interleaving of the rest. */
  lemma InterleavedRound<T>(a: seq<T>, b: seq<T>, n: nat)
    requires n > 0 && (|a| > 0 || |b| > 0)
    ensures var x, y := Chunk(|a|, n), Chunk(|b|, n);
      Interleaved(a, b, n) == (a[..x] + b[..y]) + Interleaved(a[x..], b[y..], n)
  {
  }

  lemma Regroup<T>(l: seq<T>, c: seq<T>, rest: seq<T>)
    ensures (l + c) + rest == l + (c + rest)
  {
  }

  /** `b` repeated `k` times. */
  function Mark(b: bool, k: nat): (r: seq<bool>)
    ensures |r| == k && forall i :: 0 <= i < k ==> r[i] == b
  {
    seq(k, _ => b)
  }

  /** Which list each position of the interleaving comes from (`true` for
      the first) when the lists have lengths `a` and `b`. */
  function Sides(a: nat, b: nat, n: nat): (r: seq<bool>)
    requires n > 0
    ensures |r| == a + b
    decreases a + b
  {
    if a == 0 && b == 0 then []
    else
      var x, y := Chunk(a, n), Chunk(b, n);
      Mark(true, x) + Mark(false, y) + Sides(a - x, b - y, n)
  }

  /** The elements of `r` at the positions `sel` marks with `side`, in order. */
  function Pick<T>(r: seq<T>, sel: seq<bool>, side: bool): seq<T>
    requires |r| == |sel|
    decreases |r|
  {
    if |r| == 0 then []
    else (if sel[0] == side then [r[0]] else []) + Pick(r[1..], sel[1..], side)
  }

  lemma {:induction false} PickAppend<T>(r1: seq<T>, s1: seq<bool>, r2: seq<T>, s2: seq<bool>, side: bool)
    requires |r1| == |s1| && |r2| == |s2|
    ensures Pick(r1 + r2, s1 + s2, side) == Pick(r1, s1, side) + Pick(r2, s2, side)
    decreases |r1|
  {
    if |r1| > 0 {
      assert (r1 + r2)[1..] == r1[1..] + r2;
      assert (s1 + s2)[1..] == s1[1..] + s2;
      PickAppend(r1[1..], s1[1..], r2, s2, side);
    } else {
      assert r1 + r2 == r2 && s1 + s2 == s2;
    }
  }

  lemma {:induction false} PickMark<T>(r: seq<T>, b: bool, side: bool)
    ensures Pick(r, Mark(b, |r|), side) == if b == side then r else []
    decreases |r|
  {
    if |r| > 0 {
      assert Mark(b, |r|)[1..] == Mark(b, |r| - 1);
      PickMark(r[1..], b, side);
      assert r == [r[0]] + r[1..];
    }
  }

  /** The interleaving is a shuffle of its inputs: reading off the positions
      that come from one list gives that list back, in its own order. */
  lemma {:induction false} InterleaveShuffle<T>(l1: seq<T>, l2: seq<T>, n: nat)
    requires n > 0
    ensures Pick(Interleaved(l1, l2, n), Sides(|l1|, |l2|, n), true) == l1
    ensures Pick(Interleaved(l1, l2, n), Sides(|l1|, |l2|, n), false) == l2
    decreases |l1| + |l2|
  {
    if |l1| > 0 || |l2| > 0 {
      var x, y := Chunk(|l1|, n), Chunk(|l2|, n);
      assert l1 == l1[..x] + l1[x..];
      assert l2 == l2[..y] + l2[y..];
      InterleaveShuffle(l1[x..], l2[y..], n);
      ShuffleStep(l1[..x], l2[..y], Interleaved(l1[x..], l2[y..], n), Sides(|l1| - x, |l2| - y, n), true);
      ShuffleStep(l1[..x], l2[..y], Interleaved(l1[x..], l2[y..], n), Sides(|l1| - x, |l2| - y, n), false);
    }
  }

  /** One round: the first chunk is picked for `true`, the second for `false`. */
  lemma ShuffleStep<T>(c1: seq<T>, c2: seq<T>, rest: seq<T>, srest: seq<bool>, side: bool)
    requires |rest| == |srest|
    ensures Pick(c1 + c2 + rest, Mark(true, |c1|) + Mark(false, |c2|) + srest, side)
         == (if side then c1 else c2) + Pick(rest, srest, side)
  {
    var m1, m2 := Mark(true, |c1|), Mark(false, |c2|);
    PickAppend(c1 + c2, m1 + m2, rest, srest, side);
    PickAppend(c1, m1, c2, m2, side);
    PickMark(c1, true, side);
    PickMark(c2, false, side);
  }

  /** Once one list is used up the rest of the other follows unchanged. */
  lemma {:induction false} InterleaveLeft<T>(l1: seq<T>, n: nat)
    requires n > 0
    ensures Interleaved(l1, [], n) == l1
    decreases |l1|
  {
    if |l1| > 0 {
      var x := Chunk(|l1|, n);
      InterleaveLeft(l1[x..], n);
      assert l1 == l1[..x] + l1[x..];
    }
  }

  lemma {:induction false} InterleaveRight<T>(l2: seq<T>, n: nat)
    requires n > 0
    ensures Interleaved([], l2, n) == l2
    decreases |l2|
  {
    if |l2| > 0 {
      var y := Chunk(|l2|, n);
      InterleaveRight(l2[y..], n);
      assert l2 == l2[..y] + l2[y..];
    }
  }

  // ---------------------------------------------------------------------------
  // `ljcut`

  /** `s[:n].ljust(n)`. For a negative `n` the slice drops `-n` characters
      from the end and `ljust` leaves the text as it is. */
  function LjCut(s: string, n: int): (r: string)
    ensures n >= 0 ==> |r| == n
    ensures n >= 0 ==> forall i :: 0 <= i < n ==> r[i] == if i < |s| then s[i] else ' '
    ensures n < 0 ==> |r| == if |s| + n > 0 then |s| + n else 0
    ensures n < 0 ==> forall i :: 0 <= i < |r| ==> r[i] == s[i]
  {
    if n < 0 then s[..if |s| + n > 0 then |s| + n else 0]
    else if n <= |s| then s[..n]
    else s + seq(n - |s|, _ => ' ')
  }

  /** Cutting to a width a second time changes nothing. */
  lemma LjCutIdempotent(s: string, n: nat)
    ensures LjCut(LjCut(s, n), n) == LjCut(s, n)
  {
    var r := LjCut(s, n);
    assert forall i :: 0 <= i < n ==> LjCut(r, n)[i] == r[i];
  }

  // ---------------------------------------------------------------------------
  // `dupchk`

  /** `set(l)` */
  function Elems<T(==)>(l: seq<T>): set<T> {
    set x | x in l
  }

  /** `len(set(l)) != len(l)` */
  function DupChk<T(==)>(l: seq<T>): bool {
    |Elems(l)| != |l|
  }

  predicate HasDup<T(==)>(l: seq<T>) {
    exists i, j :: 0 <= i < j < |l| && l[i] == l[j]
  }

  /** `dupchk(l)` holds exactly when some element occurs twice. */
  lemma DupChkIff<T>(l: seq<T>)
    ensures DupChk(l) <==> HasDup(l)
  {
    ElemsCard(l);
  }

  lemma {:induction false} ElemsCard<T>(l: seq<T>)
    ensures |Elems(l)| <= |l|
    ensures |Elems(l)| == |l| <==> !HasDup(l)
    decreases |l|
  {
    if |l| > 0 {
      var t := l[1..];
      ElemsCard(t);
      assert Elems(l) == {l[0]} + Elems(t);
      if l[0] in t {
        var j :| 0 <= j < |t| && t[j] == l[0];
        assert l[0] == l[j + 1];
        assert Elems(l) == Elems(t);
      } else {
        assert l[0] !in Elems(t);
        if HasDup(l) {
          var i, j :| 0 <= i < j < |l| && l[i] == l[j];
          assert i > 0;
          assert t[i - 1] == t[j - 1];
        }
        if HasDup(t) {
          var i, j :| 0 <= i < j < |t| && t[i] == t[j];
          assert l[i + 1] == l[j + 1];
        }
      }
    }
  }

  // ---------------------------------------------------------------------------
  // `listify` and `itemify`

  /** A Python value that is either a list or not. */
  datatype Value<T> = Item(item: T) | List(items: seq<T>)

  /** `listify`: a list as it is, anything else in a one-element list. */
  function Listify<T>(v: Value<T>): (r: seq<T>)
    ensures v.List? ==> r == v.items
    ensures v.Item? ==> r == [v.item]
  {
    match v
    case Item(x) => [x]
    case List(xs) => xs
  }

  /** `itemify`: the element of a one-element list, anything that is not a
      list as it is; a list of another length fails its assertion. */
  function Itemify<T>(v: Value<T>): (r: Option<T>)
    ensures v.Item? ==> r == Some(v.item)
    ensures v.List? ==> (r.Some? <==> |v.items| == 1)
    ensures v.List? && r.Some? ==> r.value == v.items[0]
  {
    match v
    case Item(x) => Some(x)
    case List(xs) => if |xs| == 1 then Some(xs[0]) else None
  }

  /** `itemify` undoes `listify` on anything that is not a list, and on a
      one-element list; `listify` is idempotent. */
  lemma ListifyItemify<T>(v: Value<T>)
    ensures v.Item? ==> Itemify(List(Listify(v))) == Some(v.item)
    ensures v.List? ==> Itemify(List(Listify(v))) == Itemify(v)
    ensures Listify(List(Listify(v))) == Listify(v)
  {
  }
}
