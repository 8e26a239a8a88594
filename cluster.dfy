/** Reassembly of the per-thread specification chains (optcheck.py
    `cluster_specs`).

    Every decoded item of order 0 starts a chain. Then, one order at a time,
    each item of order `i` (in line order) is appended to the chain of length
    `i` whose last item lies nearest to it; if there is none the
    specification is incomplete. The first order without items ends the
    process, and any item of a higher order is a gap in the specification. */
module Cluster {
  import opened Wrappers
  import opened Sass
  import opened SpecDecode

  /** A specification item and the position of its line in the instruction
      stream. The source keeps `(position, type, register)`; the order is kept
      here as well, and equals the item's index in its chain. */
  datatype Item = Item(pos: nat, typ: nat, ord: nat, reg: string)

  type Chain = seq<Item>

  /** What the decoder can produce and the first pass admits. */
  predicate ValidItem(it: Item) {
    it.typ < MapSize && it.ord < 16
  }

  predicate ValidItems(items: seq<Item>) {
    forall k :: 0 <= k < |items| ==> ValidItem(items[k])
  }

  predicate Increasing(items: seq<Item>) {
    forall k, k' :: 0 <= k < k' < |items| ==> items[k].pos < items[k'].pos
  }

  // ---------------------------------------------------------------------------
  // First pass: decoding.

  /** What `get_spec_item` makes of one line. */
  type Decoded = Result<Option<SpecItem>, Fault>

  /** `get_spec_item` of every line. */
  function DecodedLines(lis: seq<string>): (ds: seq<Decoded>)
    ensures |ds| == |lis| && FourBitOrders(ds)
    decreases |lis|
  {
    if |lis| == 0 then []
    else DecodedLines(lis[..|lis| - 1]) + [GetSpecItem(lis[|lis| - 1])]
  }

  lemma {:induction false} DecodedAt(lis: seq<string>, p: nat)
    requires p < |lis|
    ensures DecodedLines(lis)[p] == GetSpecItem(lis[p])
    decreases |lis|
  {
    if p < |lis| - 1 {
      DecodedAt(lis[..|lis| - 1], p);
    }
  }

  /** Decoded orders are four-bit values. */
  predicate FourBitOrders(ds: seq<Decoded>) {
    forall p :: 0 <= p < |ds| && ds[p].Ok? && ds[p].value.Some? ==> ds[p].value.value.ord < 16
  }

  /** A line that stops the first pass with error `e`. */
  predicate BadLine(d: Decoded, e: Fault) {
    d == Err(e) || (e == TypeOutOfRange && d.Ok? && d.value.Some? && d.value.value.typ >= MapSize)
  }

  /** The items of the first `n` decoded lines, in line order; the first
      line that is a malformed carrier, or whose type lies outside the
      instruction map, stops the pass with its error. */
  function DecodeItems(ds: seq<Decoded>, n: nat): (r: Result<seq<Item>, Fault>)
    requires n <= |ds| && FourBitOrders(ds)
    ensures r.Ok? ==> ValidItems(r.value) && Increasing(r.value)
    ensures r.Ok? ==> forall k :: 0 <= k < |r.value| ==> r.value[k].pos < n
  {
    if n == 0 then Ok([])
    else
      match DecodeItems(ds, n - 1)
      case Err(e) => Err(e)
      case Ok(items) =>
        match ds[n - 1]
        case Err(e) => Err(e)
        case Ok(None) => Ok(items)
        case Ok(Some(si)) =>
          if si.typ >= MapSize then Err(TypeOutOfRange)
          else Ok(items + [Item(n - 1, si.typ, si.ord, si.reg)])
  }

  /** The first pass of `cluster_specs`. */
  function DecodeLines(lis: seq<string>): Result<seq<Item>, Fault> {
    DecodeItems(DecodedLines(lis), |lis|)
  }

  /** Each item is what its line decodes to. */
  lemma {:induction false} DecodeSound(ds: seq<Decoded>, n: nat)
    requires n <= |ds| && FourBitOrders(ds) && DecodeItems(ds, n).Ok?
    ensures var items := DecodeItems(ds, n).value;
      forall k :: 0 <= k < |items| ==> ds[items[k].pos] == Ok(Some(SpecItem(items[k].typ, items[k].ord, items[k].reg)))
  {
    if n > 0 {
      DecodeSound(ds, n - 1);
      var items := DecodeItems(ds, n).value;
      var ii := DecodeItems(ds, n - 1).value;
      forall k | 0 <= k < |items|
        ensures ds[items[k].pos] == Ok(Some(SpecItem(items[k].typ, items[k].ord, items[k].reg)))
      {
        if k < |ii| {
          assert items[k] == ii[k];
        }
      }
    }
  }

  /** Every line decodes without error, and every line that carries an item
      is represented. */
  lemma {:induction false} DecodeComplete(ds: seq<Decoded>, n: nat)
    requires n <= |ds| && FourBitOrders(ds) && DecodeItems(ds, n).Ok?
    ensures var items := DecodeItems(ds, n).value;
      forall p :: 0 <= p < n ==>
        ds[p].Ok? && (ds[p].value.Some? ==> exists k :: 0 <= k < |items| && items[k].pos == p)
  {
    if n > 0 {
      DecodeComplete(ds, n - 1);
      var items := DecodeItems(ds, n).value;
      var ii := DecodeItems(ds, n - 1).value;
      assert ii == items[..|ii|];
      forall p | 0 <= p < n
        ensures ds[p].Ok? && (ds[p].value.Some? ==> exists k :: 0 <= k < |items| && items[k].pos == p)
      {
        if p < n - 1 {
          if ds[p].value.Some? {
            var k :| 0 <= k < |ii| && ii[k].pos == p;
            assert items[k].pos == p;
          }
        } else if ds[p].value.Some? {
          assert items[|items| - 1].pos == p;
        }
      }
    }
  }

  /** A failed pass names a line that is at fault. */
  lemma {:induction false} DecodeError(ds: seq<Decoded>, n: nat)
    requires n <= |ds| && FourBitOrders(ds) && DecodeItems(ds, n).Err?
    ensures exists p :: 0 <= p < n && BadLine(ds[p], DecodeItems(ds, n).error)
  {
    if DecodeItems(ds, n - 1).Err? {
      DecodeError(ds, n - 1);
    } else {
      assert BadLine(ds[n - 1], DecodeItems(ds, n).error);
    }
  }

  /** Once a prefix fails, every longer one fails with the same error. */
  lemma {:induction false} DecodeErrPersists(ds: seq<Decoded>, m: nat, n: nat)
    requires m <= n <= |ds| && FourBitOrders(ds) && DecodeItems(ds, m).Err?
    ensures DecodeItems(ds, n) == DecodeItems(ds, m)
  {
    if m < n {
      DecodeErrPersists(ds, m, n - 1);
    }
  }

  // ---------------------------------------------------------------------------
  // Filters on the item list.

  /** The items of order `o`, in line order. */
  function OfOrder(items: seq<Item>, o: nat): (r: seq<Item>)
    ensures forall k :: 0 <= k < |r| ==> r[k].ord == o && r[k] in items
    decreases |items|
  {
    if |items| == 0 then []
    else
      var init := items[..|items| - 1];
      assert forall x :: x in init ==> x in items;
      OfOrder(init, o) + (if items[|items| - 1].ord == o then [items[|items| - 1]] else [])
  }

  /** The items of an order below `b`, with their multiplicities. */
  function Below(items: seq<Item>, b: nat): multiset<Item>
    decreases |items|
  {
    if |items| == 0 then multiset{}
    else
      var last := items[|items| - 1];
      Below(items[..|items| - 1], b) + (if last.ord < b then multiset{last} else multiset{})
  }

  predicate HasOrder(items: seq<Item>, o: nat) {
    exists k :: 0 <= k < |items| && items[k].ord == o
  }

  lemma {:induction false} OfOrderEmpty(items: seq<Item>, o: nat)
    ensures OfOrder(items, o) == [] <==> !HasOrder(items, o)
    decreases |items|
  {
    if |items| > 0 {
      var init := items[..|items| - 1];
      OfOrderEmpty(init, o);
      if HasOrder(init, o) {
        var k :| 0 <= k < |init| && init[k].ord == o;
        assert items[k].ord == o;
      }
      if HasOrder(items, o) && items[|items| - 1].ord != o {
        var k :| 0 <= k < |items| && items[k].ord == o;
        assert init[k].ord == o;
      }
    }
  }

  lemma {:induction false} OfOrderIncreasing(items: seq<Item>, o: nat)
    requires Increasing(items)
    ensures Increasing(OfOrder(items, o))
    ensures forall k :: 0 <= k < |OfOrder(items, o)| ==> exists q :: 0 <= q < |items| && items[q] == OfOrder(items, o)[k]
    decreases |items|
  {
    if |items| > 0 {
      var init := items[..|items| - 1];
      OfOrderIncreasing(init, o);
      var r := OfOrder(items, o);
      var ri := OfOrder(init, o);
      forall k | 0 <= k < |r| ensures exists q :: 0 <= q < |items| && items[q] == r[k] {
        if k < |ri| {
          var q :| 0 <= q < |init| && init[q] == ri[k];
          assert items[q] == r[k];
        } else {
          assert items[|items| - 1] == r[k];
        }
      }
      forall k, k' | 0 <= k < k' < |r| ensures r[k].pos < r[k'].pos {
        if k' >= |ri| {
          var q :| 0 <= q < |init| && init[q] == ri[k];
          assert items[q] == r[k];
          assert r[k'] == items[|items| - 1];
        }
      }
    }
  }

  /** Adding one order to the bound adds exactly the items of that order. */
  lemma {:induction false} BelowStep(items: seq<Item>, i: nat)
    ensures Below(items, i + 1) == Below(items, i) + multiset(OfOrder(items, i))
    decreases |items|
  {
    if |items| > 0 {
      BelowStep(items[..|items| - 1], i);
    }
  }

  lemma {:induction false} BelowOne(items: seq<Item>)
    ensures Below(items, 1) == multiset(OfOrder(items, 0))
    decreases |items|
  {
    if |items| > 0 {
      BelowOne(items[..|items| - 1]);
    }
  }

  lemma {:induction false} BelowAll(items: seq<Item>, b: nat)
    requires forall k :: 0 <= k < |items| ==> items[k].ord < b
    ensures Below(items, b) == multiset(items)
    decreases |items|
  {
    if |items| > 0 {
      var init := items[..|items| - 1];
      BelowAll(init, b);
      assert items == init + [items[|items| - 1]];
    }
  }

  // ---------------------------------------------------------------------------
  // Chains.

  /** Every chain is non-empty and its `m`-th item has order `m` and a type
      inside the instruction map. */
  predicate WellFormed(cl: seq<Chain>) {
    && (forall k :: 0 <= k < |cl| ==> |cl[k]| >= 1)
    && (forall k, m :: 0 <= k < |cl| && 0 <= m < |cl[k]| ==> cl[k][m].ord == m && ValidItem(cl[k][m]))
  }

  /** The chains are headed, in order, by the given items. */
  predicate HeadedBy(cl: seq<Chain>, heads: seq<Item>) {
    && |cl| == |heads|
    && forall k :: 0 <= k < |cl| ==> |cl[k]| >= 1 && cl[k][0] == heads[k]
  }

  /** All items of all chains, with their multiplicities. */
  function Contents(cl: seq<Chain>): multiset<Item>
    decreases |cl|
  {
    if |cl| == 0 then multiset{} else Contents(cl[..|cl| - 1]) + multiset(cl[|cl| - 1])
  }

  lemma ContentsAppend(cl: seq<Chain>, c: Chain)
    ensures Contents(cl + [c]) == Contents(cl) + multiset(c)
  {
    assert (cl + [c])[..|cl|] == cl;
  }

  /** Appending an item to one chain adds exactly that item. */
  lemma {:induction false} ContentsUpdate(cl: seq<Chain>, k: nat, x: Item)
    requires k < |cl|
    ensures Contents(cl[k := cl[k] + [x]]) == Contents(cl) + multiset{x}
    decreases |cl|
  {
    var cl' := cl[k := cl[k] + [x]];
    var n := |cl|;
    if k == n - 1 {
      assert cl'[..n - 1] == cl[..n - 1];
    } else {
      assert cl'[..n - 1] == cl[..n - 1][k := cl[k] + [x]];
      ContentsUpdate(cl[..n - 1], k, x);
    }
  }

  /** One single-item chain per order-0 item, in line order. */
  function Seeds(items: seq<Item>): seq<Chain>
    decreases |items|
  {
    if |items| == 0 then []
    else
      var last := items[|items| - 1];
      Seeds(items[..|items| - 1]) + (if last.ord == 0 then [[last]] else [])
  }

  lemma {:induction false} SeedsShape(items: seq<Item>)
    requires ValidItems(items)
    ensures WellFormed(Seeds(items)) && HeadedBy(Seeds(items), OfOrder(items, 0))
    ensures forall k :: 0 <= k < |Seeds(items)| ==> |Seeds(items)[k]| == 1
    ensures Contents(Seeds(items)) == multiset(OfOrder(items, 0))
  {
    SeedsHeads(items);
    SeedsContents(items);
  }

  lemma {:induction false} SeedsHeads(items: seq<Item>)
    requires ValidItems(items)
    ensures HeadedBy(Seeds(items), OfOrder(items, 0))
    ensures forall k :: 0 <= k < |Seeds(items)| ==> Seeds(items)[k] == [OfOrder(items, 0)[k]]
    ensures WellFormed(Seeds(items))
    decreases |items|
  {
    if |items| > 0 {
      var init := items[..|items| - 1];
      var last := items[|items| - 1];
      assert ValidItems(init);
      SeedsHeads(init);
      var si := Seeds(init);
      var oi := OfOrder(init, 0);
      if last.ord == 0 {
        assert Seeds(items) == si + [[last]];
        assert OfOrder(items, 0) == oi + [last];
      } else {
        assert Seeds(items) == si;
        assert OfOrder(items, 0) == oi;
      }
    }
  }

  lemma {:induction false} SeedsContents(items: seq<Item>)
    ensures Contents(Seeds(items)) == multiset(OfOrder(items, 0))
    decreases |items|
  {
    if |items| > 0 {
      var init := items[..|items| - 1];
      var last := items[|items| - 1];
      SeedsContents(init);
      if last.ord == 0 {
        ContentsAppend(Seeds(init), [last]);
      } else {
        assert Seeds(items) == Seeds(init);
      }
    }
  }

  function Dist(a: nat, b: nat): nat {
    if a <= b then b - a else a - b
  }

  /** The position of the last item of a chain of length `i`. */
  function Tail(c: Chain, i: nat): nat
    requires 1 <= i <= |c|
  {
    c[i - 1].pos
  }

  /** Among the first `n` chains, the one of length `i` whose last item is
      nearest to `pos`; the lowest index wins a tie, because a later chain
      replaces the best so far only when strictly nearer. */
  function Nearest(cl: seq<Chain>, i: nat, pos: nat, n: nat): (r: Option<nat>)
    requires 1 <= i && n <= |cl|
    ensures r.Some? ==> r.value < n && |cl[r.value]| == i
    decreases n
  {
    if n == 0 then None
    else
      var b := Nearest(cl, i, pos, n - 1);
      var k := n - 1;
      if |cl[k]| != i then b
      else if b.None? || Dist(Tail(cl[k], i), pos) < Dist(Tail(cl[b.value], i), pos) then Some(k)
      else b
  }

  /** The chain `Nearest` picks has the least distance among the eligible
      chains and a strictly smaller one than every eligible chain before it;
      there is none exactly when no chain has length `i`. */
  lemma {:induction false} NearestSpec(cl: seq<Chain>, i: nat, pos: nat, n: nat)
    requires 1 <= i && n <= |cl|
    ensures var r := Nearest(cl, i, pos, n);
      && (r.Some? ==> forall k :: 0 <= k < n && |cl[k]| == i ==>
            Dist(Tail(cl[r.value], i), pos) <= Dist(Tail(cl[k], i), pos))
      && (r.Some? ==> forall k :: 0 <= k < r.value && |cl[k]| == i ==>
            Dist(Tail(cl[r.value], i), pos) < Dist(Tail(cl[k], i), pos))
      && (r.None? <==> forall k :: 0 <= k < n ==> |cl[k]| != i)
    decreases n
  {
    if n > 0 {
      NearestSpec(cl, i, pos, n - 1);
    }
  }

  /** Hand one item to the nearest eligible chain, if it belongs to level `i`. */
  function Attach(cl: seq<Chain>, it: Item, i: nat): Result<seq<Chain>, Fault>
    requires 1 <= i
  {
    if it.ord != i then Ok(cl)
    else match Nearest(cl, i, it.pos, |cl|)
      case None => Err(MissingItem)
      case Some(k) => Ok(cl[k := cl[k] + [it]])
  }

  /** One pass over the items for level `i`. */
  function ExtendLevel(cl: seq<Chain>, items: seq<Item>, i: nat): Result<seq<Chain>, Fault>
    requires 1 <= i
    decreases |items|
  {
    if |items| == 0 then Ok(cl)
    else match ExtendLevel(cl, items[..|items| - 1], i)
      case Err(e) => Err(e)
      case Ok(c) => Attach(c, items[|items| - 1], i)
  }

  /** The closing sanity check: nothing of order `stop` or above is left. */
  function GapCheck(cl: seq<Chain>, items: seq<Item>, stop: nat): Result<seq<Chain>, Fault> {
    if exists k :: 0 <= k < |items| && items[k].ord >= stop then Err(OrderGap) else Ok(cl)
  }

  /** Levels `i`, `i + 1`, ... until one has no item. Orders are four-bit
      values, so level 16 never has one; the `i < 16` test only makes that
      bound visible. */
  function Levels(cl: seq<Chain>, items: seq<Item>, i: nat): Result<seq<Chain>, Fault>
    requires 1 <= i
    decreases 16 - i
  {
    match ExtendLevel(cl, items, i)
    case Err(e) => Err(e)
    case Ok(cl') =>
      if HasOrder(items, i) && i < 16 then Levels(cl', items, i + 1)
      else GapCheck(cl', items, i + 1)
  }

  /** `cluster_specs` on the decoded items. */
  function Cluster(items: seq<Item>): Result<seq<Chain>, Fault> {
    var cl := Seeds(items);
    if |cl| == 0 then Err(NoSpecification) else Levels(cl, items, 1)
  }

  /** `cluster_specs` on the instruction lines. */
  function ClusterSpec(lis: seq<string>): Result<seq<Chain>, Fault> {
    match DecodeLines(lis)
    case Err(e) => Err(e)
    case Ok(items) => Cluster(items)
  }

  // ---------------------------------------------------------------------------
  // What the chains are.

  lemma AttachWellFormed(cl: seq<Chain>, it: Item, i: nat, heads: seq<Item>, cl': seq<Chain>)
    requires 1 <= i && WellFormed(cl) && HeadedBy(cl, heads) && ValidItem(it)
    requires Attach(cl, it, i) == Ok(cl')
    ensures WellFormed(cl') && HeadedBy(cl', heads)
  {
    if it.ord == i {
      var k := Nearest(cl, i, it.pos, |cl|).value;
      assert cl' == cl[k := cl[k] + [it]];
      forall k', m | 0 <= k' < |cl'| && 0 <= m < |cl'[k']| ensures cl'[k'][m].ord == m && ValidItem(cl'[k'][m]) {
        if k' == k && m == |cl[k]| {
          assert cl'[k'][m] == it;
        } else if k' == k {
          assert cl'[k'][m] == cl[k][m];
        }
      }
    }
  }

  lemma AttachContents(cl: seq<Chain>, it: Item, i: nat, cl': seq<Chain>)
    requires 1 <= i && Attach(cl, it, i) == Ok(cl')
    ensures Contents(cl') == Contents(cl) + (if it.ord == i then multiset{it} else multiset{})
  {
    if it.ord == i {
      var k := Nearest(cl, i, it.pos, |cl|).value;
      ContentsUpdate(cl, k, it);
    }
  }

  lemma {:induction false} ExtendWellFormed(cl: seq<Chain>, items: seq<Item>, i: nat, heads: seq<Item>, cl': seq<Chain>)
    requires 1 <= i && WellFormed(cl) && HeadedBy(cl, heads) && ValidItems(items)
    requires ExtendLevel(cl, items, i) == Ok(cl')
    ensures WellFormed(cl') && HeadedBy(cl', heads)
    decreases |items|
  {
    if |items| > 0 {
      var init := items[..|items| - 1];
      var mid := ExtendLevel(cl, init, i).value;
      assert ValidItems(init);
      ExtendWellFormed(cl, init, i, heads, mid);
      AttachWellFormed(mid, items[|items| - 1], i, heads, cl');
    }
  }

  lemma {:induction false} ExtendContents(cl: seq<Chain>, items: seq<Item>, i: nat, cl': seq<Chain>)
    requires 1 <= i && ExtendLevel(cl, items, i) == Ok(cl')
    ensures Contents(cl') == Contents(cl) + multiset(OfOrder(items, i))
    decreases |items|
  {
    if |items| > 0 {
      var init := items[..|items| - 1];
      var mid := ExtendLevel(cl, init, i).value;
      ExtendContents(cl, init, i, mid);
      AttachContents(mid, items[|items| - 1], i, cl');
    } else {
      assert cl' == cl;
    }
  }

  lemma {:induction false} ExtendErrPersists(cl: seq<Chain>, items: seq<Item>, m: nat, i: nat)
    requires 1 <= i && m <= |items| && ExtendLevel(cl, items[..m], i).Err?
    ensures ExtendLevel(cl, items, i) == ExtendLevel(cl, items[..m], i)
    decreases |items|
  {
    if m < |items| {
      var init := items[..|items| - 1];
      assert init[..m] == items[..m];
      ExtendErrPersists(cl, init, m, i);
    } else {
      assert items[..m] == items;
    }
  }

  lemma {:induction false} LevelsWellFormed(cl: seq<Chain>, items: seq<Item>, i: nat, heads: seq<Item>, r: seq<Chain>)
    requires 1 <= i && WellFormed(cl) && HeadedBy(cl, heads) && ValidItems(items)
    requires Levels(cl, items, i) == Ok(r)
    ensures WellFormed(r) && HeadedBy(r, heads)
    decreases 16 - i
  {
    var cl' := ExtendLevel(cl, items, i).value;
    ExtendWellFormed(cl, items, i, heads, cl');
    if HasOrder(items, i) && i < 16 {
      LevelsWellFormed(cl', items, i + 1, heads, r);
    }
  }

  lemma {:induction false} LevelsContents(cl: seq<Chain>, items: seq<Item>, i: nat, r: seq<Chain>)
    requires 1 <= i && Contents(cl) == Below(items, i)
    requires Levels(cl, items, i) == Ok(r)
    ensures Contents(r) == multiset(items)
    decreases 16 - i
  {
    var cl' := LevelsUnfold(cl, items, i, r);
    ExtendBelow(cl, items, i, cl');
    if HasOrder(items, i) && i < 16 {
      LevelsContents(cl', items, i + 1, r);
    } else {
      BelowAll(items, i + 1);
    }
  }

  /** One level of `Levels`, spelled out. */
  lemma LevelsUnfold(cl: seq<Chain>, items: seq<Item>, i: nat, r: seq<Chain>) returns (cl': seq<Chain>)
    requires 1 <= i && Levels(cl, items, i) == Ok(r)
    ensures ExtendLevel(cl, items, i) == Ok(cl')
    ensures HasOrder(items, i) && i < 16 ==> Levels(cl', items, i + 1) == Ok(r)
    ensures !(HasOrder(items, i) && i < 16) ==> r == cl' && GapCheck(cl', items, i + 1).Ok?
  {
    cl' := ExtendLevel(cl, items, i).value;
  }

  lemma ExtendBelow(cl: seq<Chain>, items: seq<Item>, i: nat, cl': seq<Chain>)
    requires 1 <= i && ExtendLevel(cl, items, i) == Ok(cl')
    requires Contents(cl) == Below(items, i)
    ensures Contents(cl') == Below(items, i + 1)
  {
    ExtendContents(cl, items, i, cl');
    BelowStep(items, i);
  }


  /** The chains of a successful run: one per order-0 item, headed by those
      items in line order, each well formed, and together holding every item
      exactly once. */
  lemma ClusterShape(items: seq<Item>)
    requires ValidItems(items) && Cluster(items).Ok?
    ensures WellFormed(Cluster(items).value)
    ensures HeadedBy(Cluster(items).value, OfOrder(items, 0)) && |Cluster(items).value| >= 1
    ensures Contents(Cluster(items).value) == multiset(items)
  {
    SeedsShape(items);
    BelowOne(items);
    LevelsWellFormed(Seeds(items), items, 1, OfOrder(items, 0), Cluster(items).value);
    LevelsContents(Seeds(items), items, 1, Cluster(items).value);
  }

  /** The same for the lines: the chain heads are the order-0 items in
      increasing line position. */
  lemma ClusterSpecShape(lis: seq<string>)
    requires ClusterSpec(lis).Ok?
    ensures var items := DecodeLines(lis).value;
      && WellFormed(ClusterSpec(lis).value)
      && HeadedBy(ClusterSpec(lis).value, OfOrder(items, 0))
      && Increasing(OfOrder(items, 0))
      && Contents(ClusterSpec(lis).value) == multiset(items)
  {
    var items := DecodeLines(lis).value;
    ClusterShape(items);
    OfOrderIncreasing(items, 0);
  }

  /** "No specification found" exactly when no item has order 0. */
  lemma NoSpecificationIff(items: seq<Item>)
    ensures Cluster(items) == Err(NoSpecification) <==> !HasOrder(items, 0)
  {
    SeedsCount(items);
    if |Seeds(items)| > 0 {
      LevelsNeverNoSpec(Seeds(items), items, 1);
    }
  }

  lemma {:induction false} SeedsCount(items: seq<Item>)
    ensures |Seeds(items)| == 0 <==> !HasOrder(items, 0)
    decreases |items|
  {
    if |items| > 0 {
      var init := items[..|items| - 1];
      SeedsCount(init);
      if HasOrder(init, 0) {
        var k :| 0 <= k < |init| && init[k].ord == 0;
        assert items[k].ord == 0;
      }
      if HasOrder(items, 0) && items[|items| - 1].ord != 0 {
        var k :| 0 <= k < |items| && items[k].ord == 0;
        assert init[k].ord == 0;
      }
    }
  }

  lemma {:induction false} ExtendErrors(cl: seq<Chain>, items: seq<Item>, i: nat)
    requires 1 <= i && ExtendLevel(cl, items, i).Err?
    ensures ExtendLevel(cl, items, i).error == MissingItem
    decreases |items|
  {
    if |items| > 0 && ExtendLevel(cl, items[..|items| - 1], i).Err? {
      ExtendErrors(cl, items[..|items| - 1], i);
    }
  }

  lemma {:induction false} LevelsNeverNoSpec(cl: seq<Chain>, items: seq<Item>, i: nat)
    requires 1 <= i
    ensures Levels(cl, items, i) != Err(NoSpecification)
    decreases 16 - i
  {
    if ExtendLevel(cl, items, i).Err? {
      ExtendErrors(cl, items, i);
    } else if HasOrder(items, i) && i < 16 {
      LevelsNeverNoSpec(ExtendLevel(cl, items, i).value, items, i + 1);
    }
  }

  /** Orders 0, 1 and 3 on one thread: level 2 is empty, so the search stops
      and the order-3 item is reported as a gap. */
  lemma OrderGapExample()
    ensures Cluster([Item(0, 0, 0, "R1"), Item(1, 0, 1, "R1"), Item(2, 0, 3, "R1")]) == Err(OrderGap)
  {
    var items := [Item(0, 0, 0, "R1"), Item(1, 0, 1, "R1"), Item(2, 0, 3, "R1")];
    var seeds := [[items[0]]];
    SmallPrefixes(items);
    assert Seeds(items[..1]) == seeds;
    assert Seeds(items[..2]) == seeds;
    assert Seeds(items) == seeds;
    var one := [[items[0], items[1]]];
    assert ExtendLevel(seeds, items[..1], 1) == Ok(seeds);
    assert Nearest(seeds, 1, 1, 1) == Some(0);
    assert seeds[0] + [items[1]] == [items[0], items[1]];
    assert seeds[0 := seeds[0] + [items[1]]] == one;
    assert Attach(seeds, items[1], 1) == Ok(one);
    assert ExtendLevel(seeds, items[..2], 1) == Ok(one);
    assert ExtendLevel(seeds, items, 1) == Ok(one);
    assert HasOrder(items, 1) by { assert items[1].ord == 1; }
    assert ExtendLevel(one, items[..1], 2) == Ok(one);
    assert ExtendLevel(one, items[..2], 2) == Ok(one);
    assert ExtendLevel(one, items, 2) == Ok(one);
    assert !HasOrder(items, 2);
    assert items[2].ord >= 3;
    assert Levels(one, items, 2) == Err(OrderGap);
  }

  /** Two order-1 items but only one chain: the second finds no chain of
      length 1 left. */
  lemma MissingItemExample()
    ensures Cluster([Item(0, 0, 0, "R1"), Item(1, 0, 1, "R1"), Item(2, 0, 1, "R1")]) == Err(MissingItem)
  {
    var items := [Item(0, 0, 0, "R1"), Item(1, 0, 1, "R1"), Item(2, 0, 1, "R1")];
    var seeds := [[items[0]]];
    SmallPrefixes(items);
    assert Seeds(items[..1]) == seeds;
    assert Seeds(items[..2]) == seeds;
    assert Seeds(items) == seeds;
    var one := [[items[0], items[1]]];
    assert ExtendLevel(seeds, items[..1], 1) == Ok(seeds);
    assert Nearest(seeds, 1, 1, 1) == Some(0);
    assert seeds[0] + [items[1]] == [items[0], items[1]];
    assert seeds[0 := seeds[0] + [items[1]]] == one;
    assert Attach(seeds, items[1], 1) == Ok(one);
    assert ExtendLevel(seeds, items[..2], 1) == Ok(one);
    assert Nearest(one, 1, 2, 1) == None;
    assert ExtendLevel(seeds, items, 1) == Err(MissingItem);
  }

  lemma SmallPrefixes(items: seq<Item>)
    requires |items| == 3
    ensures items[..0] == [] && items[..1] == [items[0]] && items[..2] == [items[0], items[1]]
    ensures items[..1][..0] == [] && items[..2][..1] == items[..1] && items[..3] == items
    ensures items[..2][1] == items[1] && items[..1][0] == items[0]
  {
  }

  /** An item exactly between two chain ends joins the lower-numbered chain. */
  lemma NearestTieExample()
    ensures Nearest([[Item(2, 0, 0, "R1")], [Item(6, 0, 0, "R2")]], 1, 4, 2) == Some(0)
  {
  }

  // ---------------------------------------------------------------------------
  // The source's loops.

  /** `cluster_specs`, written as the source writes it: a first pass that
      decodes the lines and seeds the chains, then a loop over the levels with
      a pass over the items and a scan for the nearest chain, then the gap
      check. The source decodes every line again in the later passes; the
      decoding does not change between passes, so this loop keeps the items
      of the first pass instead. */
  method ClusterSpecs(lis: seq<string>) returns (r: Result<seq<Chain>, Fault>)
    requires |lis| > 5
    ensures r == ClusterSpec(lis)
  {
    var res, cl := SeedPass(lis);
    if res.Err? {
      return Err(res.error);
    }
    r := ClusterItems(res.value, cl);
  }

  /** The passes after the first, on the decoded items and their seeds: a
      pass per level while the previous one met an item, then the gap
      check. */
  method ClusterItems(items: seq<Item>, cl: seq<Chain>) returns (r: Result<seq<Chain>, Fault>)
    requires ValidItems(items) && cl == Seeds(items)
    ensures r == Cluster(items)
  {
    var cl := cl;
    if |cl| == 0 {
      return Err(NoSpecification);
    }

    var lvl := 1;
    var lastFound := true;
    while lastFound
      invariant 1 <= lvl
      invariant lastFound ==> lvl <= 16 && Levels(cl, items, lvl) == Cluster(items)
      invariant !lastFound ==> GapCheck(cl, items, lvl) == Cluster(items)
      decreases if lastFound then 17 - lvl else 0
    {
      var pass, found := LevelPass(cl, items, lvl);
      if pass.Err? {
        return Err(pass.error);
      }
      cl := pass.value;
      lastFound := found;
      if found {
        var k :| 0 <= k < |items| && items[k].ord == lvl;
        assert ValidItem(items[k]);
      }
      lvl := lvl + 1;
    }

    for j := 0 to |items|
      invariant forall q :: 0 <= q < j ==> items[q].ord < lvl
    {
      if items[j].ord >= lvl {
        return Err(OrderGap);
      }
    }
    return Ok(cl);
  }

  /** The first pass: every line is decoded, the items are kept in line
      order, and each order-0 item starts a chain of its own. */
  method SeedPass(lis: seq<string>) returns (r: Result<seq<Item>, Fault>, cl: seq<Chain>)
    ensures r == DecodeLines(lis)
    ensures r.Ok? ==> cl == Seeds(r.value)
  {
    ghost var ds := DecodedLines(lis);
    var items: seq<Item> := [];
    cl := [];
    for i := 0 to |lis|
      invariant DecodeItems(ds, i) == Ok(items)
      invariant cl == Seeds(items)
    {
      var g := DecodeLine(lis, i);
      var stop;
      stop, items, cl := SeedLine(ds, i, g, items, cl);
      if stop.Some? {
        return Err(stop.value), cl;
      }
    }
    return Ok(items), cl;
  }

  /** One line of the first pass, decoded to `g`: a malformed carrier or a
      type outside the instruction map stops the pass, and an item is kept,
      starting a chain when its order is 0. */
  method SeedLine(ghost ds: seq<Decoded>, i: nat, g: Decoded, items: seq<Item>, cl: seq<Chain>)
    returns (stop: Option<Fault>, items': seq<Item>, cl': seq<Chain>)
    requires i < |ds| && FourBitOrders(ds) && ds[i] == g
    requires DecodeItems(ds, i) == Ok(items) && cl == Seeds(items)
    ensures stop.Some? ==> DecodeItems(ds, |ds|) == Err(stop.value)
    ensures stop.None? ==> DecodeItems(ds, i + 1) == Ok(items') && cl' == Seeds(items')
  {
    items', cl' := items, cl;
    if g.Err? {
      DecodeErrPersists(ds, i + 1, |ds|);
      return Some(g.error), items', cl';
    }
    stop := None;
    if g.value.Some? {
      var si := g.value.value;
      if si.typ >= MapSize {
        DecodeErrPersists(ds, i + 1, |ds|);
        return Some(TypeOutOfRange), items', cl';
      }
      var it := Item(i, si.typ, si.ord, si.reg);
      assert (items + [it])[..|items|] == items;
      items' := items + [it];
      if si.ord == 0 {
        cl' := cl + [[it]];
      }
    }
  }

  /** `get_spec_item` of line `i`. */
  method DecodeLine(lis: seq<string>, i: nat) returns (g: Decoded)
    requires i < |lis|
    ensures g == DecodedLines(lis)[i]
  {
    g := GetSpecItem(lis[i]);
    DecodedAt(lis, i);
  }

  /** One pass of the level loop: every item of order `lvl`, in line order,
      joins the nearest chain of length `lvl`; `found` says whether the pass
      met such an item. */
  method LevelPass(cl: seq<Chain>, items: seq<Item>, lvl: nat) returns (r: Result<seq<Chain>, Fault>, found: bool)
    requires 1 <= lvl
    ensures r == ExtendLevel(cl, items, lvl)
    ensures r.Ok? ==> found == HasOrder(items, lvl)
  {
    found := false;
    var cur := cl;
    for j := 0 to |items|
      invariant ExtendLevel(cl, items[..j], lvl) == Ok(cur)
      invariant found == HasOrder(items[..j], lvl)
    {
      var it := items[j];
      assert items[..j + 1][..j] == items[..j];
      assert items[..j + 1][j] == it;
      if it.ord == lvl {
        found := true;
        var idx := NearestChain(cur, lvl, it.pos);
        if idx == -1 {
          ExtendErrPersists(cl, items, j + 1, lvl);
          return Err(MissingItem), found;
        }
        cur := cur[idx := cur[idx] + [it]];
      } else {
        assert HasOrder(items[..j + 1], lvl) == HasOrder(items[..j], lvl);
      }
    }
    assert items[..|items|] == items;
    return Ok(cur), found;
  }

  /** The scan for the closest chain of length `lvl`: `-1` when there is
      none. The source starts the best distance at `sys.maxsize`, which exceeds
      every distance between two line positions, so the first eligible chain
      always replaces the initial value; `clIdx == -1` stands for that here. */
  method NearestChain(cl: seq<Chain>, lvl: nat, pos: nat) returns (clIdx: int)
    requires 1 <= lvl
    ensures clIdx == -1 <==> Nearest(cl, lvl, pos, |cl|).None?
    ensures clIdx != -1 ==> Nearest(cl, lvl, pos, |cl|) == Some(clIdx)
  {
    var m := 0;
    clIdx := -1;
    for k := 0 to |cl|
      invariant clIdx == -1 <==> Nearest(cl, lvl, pos, k).None?
      invariant clIdx != -1 ==> 0 <= clIdx < k && Nearest(cl, lvl, pos, k) == Some(clIdx)
      invariant clIdx != -1 ==> m == Dist(Tail(cl[clIdx], lvl), pos)
    {
      if |cl[k]| == lvl {
        var d := Dist(cl[k][lvl - 1].pos, pos);
        if clIdx == -1 || d < m {
          m := d;
          clIdx := k;
        }
      }
    }
  }
}
