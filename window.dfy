/** The window scan of the optimisation checker (optcheck.py `has_oc`,
    `has_ocl`, `split_mem_inst`, `get_mem_reg` and `check`).

    One chain of specification items is matched step by step against the
    instruction lines around the position of its first item: every line of
    the window is offered to the step currently awaited, and a step is
    satisfied by the first line with one of its opcodes whose link operand is
    its register. When every step has been satisfied, the lines strictly
    between the first and the last match are searched for fences. */
module Window {
  import opened Wrappers
  import opened Strings
  import opened Sass
  import opened SpecDecode
  import opened Greedy
  import opened Cluster

  // ---------------------------------------------------------------------------
  // Opcodes.

  /** `has_oc`: the slice `ins[0:len(oc)+1]` is `oc` and a space. A slice of a
      shorter line is shorter, so this is a prefix test. */
  predicate HasOc(ins: string, oc: string) {
    StartsWith(ins, oc + " ")
  }

  /** Opcodes have no spaces, so at most one of them matches a line: the
      space after the opcode rules out every longer and every shorter one
      ("ST.E" does not match "ST.E.CG R1, ..."). */
  lemma HasOcUnique(ins: string, oc: string, oc': string)
    requires ' ' !in oc && ' ' !in oc'
    requires HasOc(ins, oc) && HasOc(ins, oc')
    ensures oc == oc'
  {
    var a, b := oc + " ", oc' + " ";
    assert a == ins[..|a|] && b == ins[..|b|];
    assert forall i :: 0 <= i < |a| && i < |b| ==> a[i] == b[i];
    assert a[|oc|] == ' ' && b[|oc'|] == ' ';
    assert |oc| == |oc'|;
    assert oc == a[..|oc|] == b[..|oc'|] == oc';
  }

  /** The index of the first alias at or after `k` that the line starts with. */
  function FirstAlias(ins: string, ocl: seq<string>, k: nat): (r: Option<nat>)
    requires k <= |ocl|
    ensures r.Some? ==> k <= r.value < |ocl| && HasOc(ins, ocl[r.value])
    ensures r.Some? ==> forall j :: k <= j < r.value ==> !HasOc(ins, ocl[j])
    ensures r.None? ==> forall j :: k <= j < |ocl| ==> !HasOc(ins, ocl[j])
    decreases |ocl| - k
  {
    if k == |ocl| then None
    else if HasOc(ins, ocl[k]) then Some(k)
    else FirstAlias(ins, ocl, k + 1)
  }

  /** `has_ocl`: the line starts with some alias of the list. */
  function HasOcl(ins: string, ocl: seq<string>): (b: bool)
    ensures b <==> exists k :: 0 <= k < |ocl| && HasOc(ins, ocl[k])
  {
    FirstAlias(ins, ocl, 0).Some?
  }

  // ---------------------------------------------------------------------------
  // Operands.

  /** Every part trimmed (`[ins.strip() for ins in items]`). */
  function StripAll(parts: seq<string>): (r: seq<string>)
    ensures |r| == |parts| && forall k :: 0 <= k < |r| ==> r[k] == Strip(parts[k])
  {
    seq(|parts|, k requires 0 <= k < |parts| => Strip(parts[k]))
  }

  /** `split_mem_inst`: the first matching alias is cut off, the rest is
      trimmed of white space and trailing semicolons, split at commas, and
      every operand is trimmed. The source fails an `assert` when no alias
      matches; its only caller tests `has_ocl` first. */
  function SplitMemInst(ins: string, ocl: seq<string>): (r: seq<string>)
    requires HasOcl(ins, ocl)
    ensures |r| >= 1
  {
    var oc := ocl[FirstAlias(ins, ocl, 0).value];
    StripAll(Split(Trimmed(ins[|oc|..]), ','))
  }

  /** The operands after the first written with a leading blank. */
  function Blanked(xs: seq<string>): (r: seq<string>)
    ensures |r| == |xs| && forall k :: 0 <= k < |r| ==> r[k] == " " + xs[k]
  {
    seq(|xs|, k requires 0 <= k < |xs| => " " + xs[k])
  }

  lemma {:induction false} JoinBlanked(xs: seq<string>)
    requires |xs| >= 1
    ensures Join(Blanked(xs), [',']) == " " + Join(xs, ", ")
    decreases |xs|
  {
    if |xs| > 1 {
      assert Blanked(xs)[1..] == Blanked(xs[1..]);
      JoinBlanked(xs[1..]);
      JoinCons(" " + xs[0], Blanked(xs[1..]), [',']);
      assert Blanked(xs) == [" " + xs[0]] + Blanked(xs[1..]);
      assert " " + xs[0] + [','] + (" " + Join(xs[1..], ", ")) == " " + (xs[0] + ", " + Join(xs[1..], ", "));
    }
  }

  /** `", ".join(ops)` split at commas gives the operands, each after the
      first with the blank that followed its comma. */
  lemma SplitOperands(ops: seq<string>)
    requires |ops| >= 1 && forall k :: 0 <= k < |ops| ==> ',' !in ops[k]
    ensures Split(Join(ops, ", "), ',') == [ops[0]] + Blanked(ops[1..])
  {
    var parts := [ops[0]] + Blanked(ops[1..]);
    OperandsJoin(ops);
    forall k | 0 <= k < |parts| ensures ',' !in parts[k] {
      if k > 0 {
        assert parts[k] == " " + ops[k];
      }
    }
    SplitJoin(parts, ',');
  }

  lemma OperandsJoin(ops: seq<string>)
    requires |ops| >= 1
    ensures Join([ops[0]] + Blanked(ops[1..]), [',']) == Join(ops, ", ")
  {
    var parts := [ops[0]] + Blanked(ops[1..]);
    if |ops| > 1 {
      var x := Join(ops[1..], ", ");
      JoinBlanked(ops[1..]);
      JoinCons(ops[0], Blanked(ops[1..]), [',']);
      assert Join(parts, [',']) == ops[0] + [','] + (" " + x);
      JoinCons(ops[0], ops[1..], ", ");
      assert ops == [ops[0]] + ops[1..];
      CommaBlank(ops[0], x);
    } else {
      assert parts == ops;
    }
  }

  lemma CommaBlank(a: string, x: string)
    ensures a + [','] + (" " + x) == a + ", " + x
  {
    assert [','] + " " == ", ";
  }

  /** An operand list ending in a character other than `;`. */
  predicate IsOperandList(ops: seq<string>) {
    && |ops| >= 1
    && (forall k :: 0 <= k < |ops| ==> IsOperand(ops[k]))
    && ops[|ops| - 1][|ops[|ops| - 1]| - 1] != ';'
  }

  lemma TrimmedOperands(j: string)
    requires |j| > 0 && !IsSpace(j[0]) && !IsSpace(j[|j| - 1]) && j[|j| - 1] != ';'
    ensures Trimmed(" " + j + ";") == j
  {
    var s := " " + j + ";";
    assert s[1..] == j + ";";
    assert LStrip(s) == j + ";";
    assert RStrip(j + ";") == j + ";";
    assert (j + ";")[..|j|] == j;
    assert RStripChar(j, ';') == j;
  }

  lemma JoinEnds(ops: seq<string>, sep: string)
    requires |ops| >= 1 && forall k :: 0 <= k < |ops| ==> |ops[k]| > 0
    ensures |Join(ops, sep)| > 0
    ensures Join(ops, sep)[0] == ops[0][0]
    ensures Join(ops, sep)[|Join(ops, sep)| - 1] == ops[|ops| - 1][|ops[|ops| - 1]| - 1]
    decreases |ops|
  {
    if |ops| > 1 {
      JoinEnds(ops[1..], sep);
    }
  }

  /** The text of an instruction: an alias, a blank, operands separated by
      `", "`, and a semicolon. */
  function MemInstText(oc: string, ops: seq<string>): string {
    oc + " " + (Join(ops, ", ") + ";")
  }

  /** An instruction written out from an alias and operands is split back
      into exactly those operands. */
  lemma SplitMemInstOf(oc: string, ocl: seq<string>, ops: seq<string>)
    requires oc in ocl && forall k :: 0 <= k < |ocl| ==> ' ' !in ocl[k]
    requires IsOperandList(ops)
    ensures HasOcl(MemInstText(oc, ops), ocl)
    ensures SplitMemInst(MemInstText(oc, ops), ocl) == ops
  {
    AliasCut(oc, ocl, Join(ops, ", ") + ";");
    OperandsOf(ops);
  }

  /** The alias a line starts with is the one cut off. */
  lemma AliasCut(oc: string, ocl: seq<string>, rest: string)
    requires oc in ocl && forall k :: 0 <= k < |ocl| ==> ' ' !in ocl[k]
    ensures HasOcl(oc + " " + rest, ocl)
    ensures SplitMemInst(oc + " " + rest, ocl) == StripAll(Split(Trimmed(" " + rest), ','))
  {
    var ins := oc + " " + rest;
    assert ins[..|oc| + 1] == oc + " ";
    assert HasOc(ins, oc);
    var k := FirstAlias(ins, ocl, 0).value;
    HasOcUnique(ins, ocl[k], oc);
    assert ins[|oc|..] == " " + rest;
  }

  /** What is left after the alias splits into the operands. */
  lemma OperandsOf(ops: seq<string>)
    requires IsOperandList(ops)
    ensures StripAll(Split(Trimmed(" " + (Join(ops, ", ") + ";")), ',')) == ops
  {
    var j := Join(ops, ", ");
    JoinEnds(ops, ", ");
    TrimmedOperands(j);
    assert " " + (j + ";") == " " + j + ";";
    SplitOperands(ops);
    StripParts(ops);
  }

  lemma StripParts(ops: seq<string>)
    requires IsOperandList(ops)
    ensures StripAll([ops[0]] + Blanked(ops[1..])) == ops
  {
    var parts := [ops[0]] + Blanked(ops[1..]);
    var r := StripAll(parts);
    assert |r| == |ops|;
    forall i | 0 <= i < |ops| ensures r[i] == ops[i] {
      var o := ops[i];
      assert IsOperand(o);
      if i == 0 {
        assert parts[0] == o;
        StripNoSpace(o);
      } else {
        assert parts[i] == Blanked(ops[1..])[i - 1] == " " + o;
        StripLeadingBlank(o);
      }
    }
  }

  // ---------------------------------------------------------------------------
  // Memory operands.

  /** `^[rR][0-9]+$`: `r` or `R` and at least one decimal digit. (`$` would
      also accept a final line feed, which trimming has already removed.) */
  predicate IsRegName(s: string) {
    |s| >= 2 && (s[0] == 'r' || s[0] == 'R') && forall i :: 1 <= i < |s| ==> '0' <= s[i] <= '9'
  }

  /** The text `get_mem_reg` tests: trimmed, leading `[` and trailing `]`
      characters removed, trimmed again. */
  function MemCore(op: string): string {
    Strip(RStripChar(LStripChar(Strip(op), '['), ']'))
  }

  /** `get_mem_reg`. */
  function GetMemReg(op: string): (r: Option<string>)
    ensures r.Some? ==> IsRegName(r.value)
  {
    var t := MemCore(op);
    if IsRegName(t) then Some(t) else None
  }

  /** A register, bare or in brackets, is read back. */
  lemma MemRegOf(reg: string)
    requires IsRegName(reg)
    ensures GetMemReg(reg) == Some(reg)
    ensures GetMemReg("[" + reg + "]") == Some(reg)
  {
    BareCore(reg);
    BracketCore(reg);
  }

  lemma BareCore(reg: string)
    requires IsRegName(reg)
    ensures MemCore(reg) == reg
  {
    assert '0' <= reg[|reg| - 1] <= '9';
    StripNoSpace(reg);
    assert LStripChar(reg, '[') == reg;
    assert RStripChar(reg, ']') == reg;
  }

  lemma BracketCore(reg: string)
    requires IsRegName(reg)
    ensures MemCore("[" + reg + "]") == reg
  {
    assert '0' <= reg[|reg| - 1] <= '9';
    var b := "[" + reg + "]";
    StripNoSpace(b);
    var inner := reg + "]";
    assert b[1..] == inner;
    assert LStripChar(inner, '[') == inner;
    assert LStripChar(b, '[') == inner;
    assert inner[..|reg|] == reg;
    assert RStripChar(reg, ']') == reg;
    assert RStripChar(inner, ']') == reg;
    StripNoSpace(reg);
  }

  /** A character `get_mem_reg` may cut away. */
  predicate IsCut(c: char) {
    IsSpace(c) || c == '[' || c == ']'
  }

  /** `t` is the slice `s[a..b]`, and only cut characters lie outside it. */
  ghost predicate CutSlice(s: string, t: string, a: nat, b: nat) {
    && a <= b <= |s| && t == s[a..b]
    && forall i :: 0 <= i < a || b <= i < |s| ==> IsCut(s[i])
  }

  lemma CutSliceCompose(s: string, t: string, u: string, a: nat, b: nat, c: nat, d: nat)
    requires CutSlice(s, t, a, b) && CutSlice(t, u, c, d)
    ensures CutSlice(s, u, a + c, a + d)
  {
    assert |u| == d - c;
    forall k | 0 <= k < |u| ensures u[k] == s[a + c + k] {
      assert u[k] == t[c + k];
    }
    assert u == s[a + c..a + d];
    forall i | 0 <= i < a + c || a + d <= i < |s| ensures IsCut(s[i]) {
      if a <= i < b { assert s[i] == t[i - a]; }
    }
  }

  lemma StripCut(s: string) returns (a: nat, b: nat)
    ensures CutSlice(s, Strip(s), a, b)
  {
    var l := LStrip(s);
    LStripCut(s);
    RStripCut(l);
    a := |s| - |l|;
    b := a + |RStrip(l)|;
    CutSliceCompose(s, l, RStrip(l), a, |s|, 0, |RStrip(l)|);
  }

  lemma LStripCut(s: string)
    ensures CutSlice(s, LStrip(s), |s| - |LStrip(s)|, |s|)
  {
    LStripSlice(s);
  }

  lemma RStripCut(s: string)
    ensures CutSlice(s, RStrip(s), 0, |RStrip(s)|)
  {
    RStripSlice(s);
  }

  lemma LBracketCut(s: string)
    ensures CutSlice(s, LStripChar(s, '['), |s| - |LStripChar(s, '[')|, |s|)
  {
    LStripCharSlice(s, '[');
  }

  lemma RBracketCut(s: string)
    ensures CutSlice(s, RStripChar(s, ']'), 0, |RStripChar(s, ']')|)
  {
    RStripCharSlice(s, ']');
  }

  lemma BracketsCut(s: string) returns (a: nat, b: nat)
    ensures CutSlice(s, RStripChar(LStripChar(s, '['), ']'), a, b)
  {
    var l := LStripChar(s, '[');
    LBracketCut(s);
    RBracketCut(l);
    var r := RStripChar(l, ']');
    a := |s| - |l|;
    b := a + |r|;
    CutSliceCompose(s, l, r, a, |s|, 0, |r|);
  }

  /** The text `get_mem_reg` tests is a slice of the operand, and everything
      cut away is white space or a bracket. */
  lemma MemCoreSlice(op: string) returns (a: nat, b: nat)
    ensures CutSlice(op, MemCore(op), a, b)
  {
    var s1 := Strip(op);
    var a1, b1 := StripCut(op);
    var a2, b2 := InnerCut(s1);
    CutSliceCompose(op, s1, Strip(RStripChar(LStripChar(s1, '['), ']')), a1, b1, a2, b2);
    a, b := a1 + a2, a1 + b2;
  }

  /** The brackets and the white space inside them are cut characters too. */
  lemma InnerCut(s: string) returns (a: nat, b: nat)
    ensures CutSlice(s, Strip(RStripChar(LStripChar(s, '['), ']')), a, b)
  {
    var s2 := RStripChar(LStripChar(s, '['), ']');
    var a2, b2 := BracketsCut(s);
    var a3, b3 := StripCut(s2);
    CutSliceCompose(s, s2, Strip(s2), a2, b2, a3, b3);
    a, b := a2 + a3, a2 + b3;
  }

  /** An operand holding any character other than white space, brackets, `r`,
      `R` and digits, such as the `+` of `[R4+0x8]`, names no register. */
  lemma MemRegRejects(op: string, i: nat)
    requires i < |op| && !IsSpace(op[i]) && op[i] != '[' && op[i] != ']'
    requires op[i] != 'r' && op[i] != 'R' && !('0' <= op[i] <= '9')
    ensures GetMemReg(op) == None
  {
    var a, b := MemCoreSlice(op);
    assert a <= i < b;
    assert MemCore(op)[i - a] == op[i];
  }

  // ---------------------------------------------------------------------------
  // Predicate guards: `re.sub(r'@[!a-zA-Z0-9]+\s+', '', ins, count=1)`.

  /** The characters of `[!a-zA-Z0-9]`. */
  predicate IsGuardChar(c: char) {
    c == '!' || ('a' <= c <= 'z') || ('A' <= c <= 'Z') || ('0' <= c <= '9')
  }

  /** The end of the longest run of guard characters from `i`. */
  function GuardRun(s: string, i: nat): (e: nat)
    requires i <= |s|
    ensures i <= e <= |s| && forall k :: i <= k < e ==> IsGuardChar(s[k])
    ensures e < |s| ==> !IsGuardChar(s[e])
    decreases |s| - i
  {
    if i < |s| && IsGuardChar(s[i]) then GuardRun(s, i + 1) else i
  }

  /** The end of the longest run of white space from `i`. */
  function SpaceRun(s: string, i: nat): (e: nat)
    requires i <= |s|
    ensures i <= e <= |s| && forall k :: i <= k < e ==> IsSpace(s[k])
    ensures e < |s| ==> !IsSpace(s[e])
    decreases |s| - i
  {
    if i < |s| && IsSpace(s[i]) then SpaceRun(s, i + 1) else i
  }

  /** The end of the match that starts at `i`, if one does. Guard characters
      are never white space, so a shorter guard run is followed by a guard
      character and cannot match: the greedy runs are the only candidates. */
  function GuardAt(s: string, i: nat): (r: Option<nat>)
    requires i <= |s|
    ensures r.Some? ==> i + 3 <= r.value <= |s| && s[i] == '@'
  {
    if i < |s| && s[i] == '@' then
      var g := GuardRun(s, i + 1);
      var w := SpaceRun(s, g);
      if g == i + 1 || w == g then None else Some(w)
    else None
  }

  /** The leftmost match at or after `i`, as its start and end. */
  function FirstGuard(s: string, i: nat): (r: Option<(nat, nat)>)
    requires i <= |s|
    ensures r.Some? ==> i <= r.value.0 <= |s| && GuardAt(s, r.value.0) == Some(r.value.1)
    ensures r.Some? ==> forall k :: i <= k < r.value.0 ==> GuardAt(s, k).None?
    ensures r.None? ==> forall k :: i <= k <= |s| ==> GuardAt(s, k).None?
    decreases |s| - i
  {
    match GuardAt(s, i)
    case Some(e) => Some((i, e))
    case None => if i == |s| then None else FirstGuard(s, i + 1)
  }

  /** Line 446: the leftmost guard, wherever it lies in the line, is removed
      with the white space after it; later guards stay. */
  function SwallowPredicate(s: string): (r: string)
    ensures |r| <= |s|
  {
    match FirstGuard(s, 0)
    case None => s
    case Some((a, b)) => s[..a] + s[b..]
  }

  /** A line without `@` is left as it is. */
  lemma SwallowNone(s: string)
    requires '@' !in s
    ensures SwallowPredicate(s) == s
  {
  }

  /** The first `@` followed by a guard name and white space is removed
      together with them, whatever comes before it and after it. */
  lemma SwallowFirst(pre: string, p: string, ws: string, rest: string)
    requires '@' !in pre
    requires |p| >= 1 && forall k :: 0 <= k < |p| ==> IsGuardChar(p[k])
    requires |ws| >= 1 && forall k :: 0 <= k < |ws| ==> IsSpace(ws[k])
    requires rest == [] || !IsSpace(rest[0])
    ensures SwallowPredicate(pre + "@" + p + ws + rest) == pre + rest
  {
    var s := pre + "@" + p + ws + rest;
    var i := |pre|;
    var g := i + 1 + |p|;
    var w := g + |ws|;
    assert s[i] == '@';
    forall k | i + 1 <= k < g ensures IsGuardChar(s[k]) {
      assert s[k] == p[k - i - 1];
    }
    assert s[g] == ws[0];
    assert GuardRun(s, i + 1) == g;
    forall k | g <= k < w ensures IsSpace(s[k]) {
      assert s[k] == ws[k - g];
    }
    assert w < |s| ==> s[w] == rest[0];
    assert SpaceRun(s, g) == w;
    assert GuardAt(s, i) == Some(w);
    forall k | 0 <= k < i ensures GuardAt(s, k).None? {
      assert s[k] == pre[k];
    }
    assert FirstGuard(s, 0) == Some((i, w));
    assert s[..i] == pre && s[w..] == rest;
  }

  // ---------------------------------------------------------------------------
  // The steps and the window.

  /** A step with map entry `e` and register `reg` accepts an instruction
      line (lines 444-456): after the guard is removed the line starts with
      one of the entry's opcodes, and the link operand (a memory operand read
      through `get_mem_reg` when the entry says so) is the register. The
      source indexes the operands directly; both maps put the link operand
      first, and an instruction always has a first operand. */
  predicate Accepts(e: MapEntry, reg: string, line: string) {
    var ins := SwallowPredicate(line);
    && HasOcl(ins, e.aliases)
    && var regs := SplitMemInst(ins, e.aliases);
       && e.linkPos < |regs|
       && if e.isMem then GetMemReg(regs[e.linkPos]) == Some(reg) else regs[e.linkPos] == reg
  }

  /** Step `k` of the chain accepts line `j`. */
  function StepMatcher(v: Variant, spec: Chain, lis: seq<string>): Matcher {
    (k: nat, j: nat) =>
      k < |spec| && j < |lis| && spec[k].typ < MapSize &&
      Accepts(IMap(v)[spec[k].typ], spec[k].reg, lis[j])
  }

  /** The window reaches 40 lines above the first item's line and 8 lines
      below it, and is clipped to the instruction stream. */
  const WindowAbove: nat := 40
  const WindowBelow: nat := 8

  function WindowTop(ln: nat): nat {
    if ln >= WindowAbove then ln - WindowAbove else 0
  }

  function WindowBottom(ln: nat, ll: nat): (b: nat)
    ensures b <= ll
  {
    if ln + WindowBelow < ll then ln + WindowBelow else ll
  }

  /** The lines the chain's steps are matched at by the step matcher `m`,
      if all are. */
  function Walk(m: Matcher, spec: Chain, lis: seq<string>): (r: Option<seq<nat>>)
    requires |spec| > 0
    ensures r.Some? ==> |r.value| == |spec| && r.value[0] <= r.value[|spec| - 1] < |lis|
  {
    var top, bot := WindowTop(spec[0].pos), WindowBottom(spec[0].pos, |lis|);
    if Embed(m, 0, |spec|, top, bot).Some? then
      EmbedSound(m, 0, |spec|, top, bot);
      Embed(m, 0, |spec|, top, bot)
    else
      None
  }

  // ---------------------------------------------------------------------------
  // Fences.

  /** `source` after one line: each category, in the order of `fl`, that the
      lower-cased line contains counts once more (lines 462-466). */
  function CountLine(src: Counters, line: string, k: nat): (r: Counters)
    requires k <= |Fences| && HasFences(src)
    ensures r.Keys == src.Keys
    decreases k
  {
    if k == 0 then src
    else
      var s := CountLine(src, line, k - 1);
      var f := Fences[k - 1];
      if Contains(line, f) then s[f := s[f] + 1] else s
  }

  /** `source` after the lines `lo .. hi-1`. */
  function AddFences(src: Counters, lis: seq<string>, lo: nat, hi: nat): (r: Counters)
    requires HasFences(src) && hi <= |lis|
    ensures r.Keys == src.Keys
    decreases hi
  {
    if hi <= lo then src
    else CountLine(AddFences(src, lis, lo, hi - 1), Lower(lis[hi - 1]), |Fences|)
  }

  /** The number of lines among `lo .. hi-1` whose lower-cased text contains `f`. */
  function FenceLines(lis: seq<string>, f: string, lo: nat, hi: nat): (n: nat)
    requires hi <= |lis|
    ensures n <= if hi <= lo then 0 else hi - lo
    decreases hi
  {
    if hi <= lo then 0
    else FenceLines(lis, f, lo, hi - 1) + (if Contains(Lower(lis[hi - 1]), f) then 1 else 0)
  }

  lemma FencesDistinct()
    ensures forall a, b :: 0 <= a < b < |Fences| ==> Fences[a] != Fences[b]
  {
    assert Fences[0][7] == 'c' && Fences[1][7] == 'g' && Fences[2][7] == 's';
  }

  /** One line raises each category it mentions by one and nothing else. */
  lemma {:induction false} CountLineSpec(src: Counters, line: string, k: nat)
    requires k <= |Fences| && HasFences(src)
    ensures forall f :: f in src ==>
      CountLine(src, line, k)[f] == src[f] + (if f in Fences[..k] && Contains(line, f) then 1 else 0)
    decreases k
  {
    if k > 0 {
      CountLineSpec(src, line, k - 1);
      FencesDistinct();
      var f := Fences[k - 1];
      assert Fences[..k] == Fences[..k - 1] + [f];
      assert f !in Fences[..k - 1];
    }
  }

  /** Each category of `source` rises by the number of lines that mention it. */
  lemma {:induction false} AddFencesSpec(src: Counters, lis: seq<string>, lo: nat, hi: nat)
    requires HasFences(src) && hi <= |lis|
    ensures forall f :: f in src ==>
      AddFences(src, lis, lo, hi)[f] == src[f] + (if f in Fences then FenceLines(lis, f, lo, hi) else 0)
    decreases hi
  {
    if hi > lo {
      AddFencesSpec(src, lis, lo, hi - 1);
      var mid := AddFences(src, lis, lo, hi - 1);
      CountLineSpec(mid, Lower(lis[hi - 1]), |Fences|);
      assert Fences[..|Fences|] == Fences;
    }
  }

  // ---------------------------------------------------------------------------
  // `check`.

  /** What `check` returns and what it leaves in `source`: the fences are
      counted strictly between the first and the last match. */
  function CheckOutcome(m: Matcher, spec: Chain, lis: seq<string>, src: Counters): (bool, Counters)
    requires |spec| > 0 && HasFences(src)
  {
    match Walk(m, spec, lis)
    case None => (false, src)
    case Some(ps) => (true, AddFences(src, lis, ps[0] + 1, ps[|ps| - 1]))
  }

  /** The flag `check` returns is whether the walk succeeds, whatever the counts. */
  lemma OutcomeFlag(m: Matcher, spec: Chain, lis: seq<string>, src: Counters)
    requires |spec| > 0 && HasFences(src)
    ensures CheckOutcome(m, spec, lis, src).0 == Walk(m, spec, lis).Some?
  {
  }

  /** The chain's steps can be placed at strictly increasing lines of its
      window, each accepted by its step. */
  ghost predicate Placed(m: Matcher, spec: Chain, lis: seq<string>)
    requires |spec| > 0
  {
    exists ps :: IsEmbedding(m, ps, 0, |spec|, WindowTop(spec[0].pos), WindowBottom(spec[0].pos, |lis|))
  }

  /** The walk finds a placement exactly when one exists. */
  lemma WalkIff(m: Matcher, spec: Chain, lis: seq<string>)
    requires |spec| > 0
    ensures Walk(m, spec, lis).Some? <==> Placed(m, spec, lis)
  {
    EmbedIff(m, 0, |spec|, WindowTop(spec[0].pos), WindowBottom(spec[0].pos, |lis|));
  }

  /** `check` succeeds exactly when the chain can be placed. */
  lemma CheckIff(m: Matcher, spec: Chain, lis: seq<string>, src: Counters)
    requires |spec| > 0 && HasFences(src)
    ensures CheckOutcome(m, spec, lis, src).0 <==> Placed(m, spec, lis)
  {
    WalkIff(m, spec, lis);
  }

  /** On success each fence category rises by the number of lines strictly
      between the first and the last match that mention it; on failure, and
      for a one-step chain, `source` is unchanged. */
  lemma CheckCounts(m: Matcher, spec: Chain, lis: seq<string>, src: Counters)
    requires |spec| > 0 && HasFences(src)
    ensures CheckOutcome(m, spec, lis, src).1.Keys == src.Keys
    ensures !CheckOutcome(m, spec, lis, src).0 ==> CheckOutcome(m, spec, lis, src).1 == src
    ensures |spec| == 1 ==> CheckOutcome(m, spec, lis, src).1 == src
    ensures CheckOutcome(m, spec, lis, src).0 ==>
      var ps := Walk(m, spec, lis).value;
      forall f :: f in Fences ==>
        CheckOutcome(m, spec, lis, src).1[f] == src[f] + FenceLines(lis, f, ps[0] + 1, ps[|ps| - 1])
  {
    if Walk(m, spec, lis).Some? {
      var ps := Walk(m, spec, lis).value;
      AddFencesSpec(src, lis, ps[0] + 1, ps[|ps| - 1]);
    }
  }

  /** `check` (lines 414-473), with the instruction map passed in as `table`
      and `m` a matcher that decides each step as `Accepts` does. The chain's
      items need types inside the map: the source asserts this of the first
      item, and clustering guarantees it of all. */
  method Check(table: seq<MapEntry>, spec: Chain, lis: seq<string>, source: Counters, ghost m: Matcher)
    returns (ok: bool, src: Counters)
    requires |spec| > 0 && |lis| > 5
    requires forall k :: 0 <= k < |table| ==> table[k].linkPos == 0
    requires Decides(table, spec, lis, m)
    requires HasFences(source)
    ensures (ok, src) == CheckOutcome(m, spec, lis, source)
  {
    var top := WindowTop(spec[0].pos);
    var bot := WindowBottom(spec[0].pos, |lis|);
    var first, last;
    ok, first, last := Scan(table, spec, lis, m, top, bot);
    ghost var w := Walk(m, spec, lis);
    if ok {
      src := CountFences(source, lis, first + 1, last);
    } else {
      src := source;
    }
  }

  /** `m` says of every step and line what `Accepts` says. */
  ghost predicate Decides(table: seq<MapEntry>, spec: Chain, lis: seq<string>, m: Matcher) {
    && (forall k :: 0 <= k < |spec| ==> spec[k].typ < |table|)
    && forall k: nat, j: nat {:trigger Accepts(table[spec[k].typ], spec[k].reg, lis[j])} ::
         k < |spec| && j < |lis| ==> m(k, j) == Accepts(table[spec[k].typ], spec[k].reg, lis[j])
  }

  lemma StepMatcherAll(v: Variant, spec: Chain, lis: seq<string>)
    requires forall k :: 0 <= k < |spec| ==> spec[k].typ < MapSize
    ensures Decides(IMap(v), spec, lis, StepMatcher(v, spec, lis))
  {
    forall k: nat, j: nat | k < |spec| && j < |lis|
      ensures StepMatcher(v, spec, lis)(k, j) == Accepts(IMap(v)[spec[k].typ], spec[k].reg, lis[j])
    {
    }
  }

  /** The scan of lines 441-460: each line of the window is offered to the
      step awaited, the next step is awaited after a match, and the scan
      ends at the last step's match. */
  method Scan(table: seq<MapEntry>, spec: Chain, lis: seq<string>, ghost m: Matcher, top: nat, bot: nat)
    returns (found: bool, first: nat, last: nat)
    requires |spec| > 0 && bot <= |lis|
    requires forall k :: 0 <= k < |table| ==> table[k].linkPos == 0
    requires Decides(table, spec, lis, m)
    ensures found <==> Embed(m, 0, |spec|, top, bot).Some?
    ensures found ==> first == Embed(m, 0, |spec|, top, bot).value[0]
    ensures found ==> last == Embed(m, 0, |spec|, top, bot).value[|spec| - 1]
  {
    var l := |spec|;
    var reg := spec[0].reg;
    var entry := table[spec[0].typ];
    ghost var ps: seq<nat> := [];
    var next := 1;
    first, last := 0, 0;
    var i := top;
    WalkStart(m, l, top, bot);
    while i < bot
      invariant top <= i
      invariant 1 <= next <= l && |ps| == next - 1
      invariant reg == spec[next - 1].reg && entry == table[spec[next - 1].typ]
      invariant next > 1 ==> first == ps[0]
      invariant WalkAt(m, l, top, bot, ps, next - 1, i)
      decreases bot - i
    {
      var hit := StepAt(entry, reg, lis[i], table, spec, lis, m, next - 1, i);
      if hit {
        if next == 1 {
          first := i;
        }
        WalkTake(m, l, top, bot, ps, next - 1, i);
        if next >= l {
          found, last := true, i;
          return;
        }
        ps := ps + [i];
        next := next + 1;
        reg := spec[next - 1].reg;
        entry := table[spec[next - 1].typ];
      } else {
        WalkSkip(m, l, top, bot, ps, next - 1, i);
      }
      i := i + 1;
    }
    WalkEnd(m, l, top, bot, ps, next - 1, i);
    found := false;
  }

  /** One step of the scan (lines 444-456): whether the awaited step
      accepts an instruction line. */
  method StepHit(entry: MapEntry, reg: string, line: string) returns (hit: bool)
    requires entry.linkPos == 0
    ensures hit == Accepts(entry, reg, line)
  {
    var ins := SwallowPredicate(line);
    hit := false;
    if HasOcl(ins, entry.aliases) {
      var regs := SplitMemInst(ins, entry.aliases);
      var r := regs[entry.linkPos];
      if entry.isMem {
        var mr := GetMemReg(r);
        hit := mr.Some? && mr.value == reg;
      } else {
        hit := r == reg;
      }
    }
  }

  /** `StepHit` at step `k` and line `j`, as the matcher sees it. */
  method StepAt(entry: MapEntry, reg: string, line: string, ghost table: seq<MapEntry>, ghost spec: Chain,
                ghost lis: seq<string>, ghost m: Matcher, ghost k: nat, ghost j: nat) returns (hit: bool)
    requires Decides(table, spec, lis, m) && k < |spec| && j < |lis|
    requires entry == table[spec[k].typ] && entry.linkPos == 0 && reg == spec[k].reg && line == lis[j]
    ensures hit == m(k, j)
  {
    hit := StepHit(entry, reg, line);
  }

  /** The fence count over the lines `lo .. hi-1` (lines 462-466). */
  method CountFences(source: Counters, lis: seq<string>, lo: nat, hi: nat) returns (src: Counters)
    requires HasFences(source) && hi <= |lis| && lo <= |lis|
    ensures src == AddFences(source, lis, lo, hi)
  {
    src := source;
    var j := lo;
    while j < hi
      invariant lo <= j <= |lis| && (j <= hi || j == lo)
      invariant src == AddFences(source, lis, lo, j)
    {
      src := CountLineFences(src, Lower(lis[j]));
      j := j + 1;
    }
  }

  /** The fences one lower-cased line mentions, in the order of `fl`. */
  method CountLineFences(before: Counters, ins: string) returns (src: Counters)
    requires HasFences(before)
    ensures src == CountLine(before, ins, |Fences|)
  {
    src := before;
    var k := 0;
    while k < |Fences|
      invariant k <= |Fences|
      invariant src == CountLine(before, ins, k)
    {
      var f := Fences[k];
      if Contains(ins, f) {
        src := src[f := src[f] + 1];
      }
      k := k + 1;
    }
  }
}
