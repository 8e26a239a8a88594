/** The header rewriter of the log-analysis tools (aux/replace-name.py): in a
    log, every line that starts with `RACE_OPENCL` is replaced by
    `RACE_OPENCL ` followed by the test name taken from the most recent
    `% Results` line; all other lines are kept as they are. */
module ReplaceName {
  import opened Wrappers
  import opened Strings

  /** The two assertions of `run` that a `% Results` line can fail. */
  datatype Fault =
    | NoLitmusPath   // the line holds no match of `/[^ \t%]+.litmus`
    | NotLitmusFile  // the character before `litmus` is not a `.`

  // ---------------------------------------------------------------------------
  // The search `re.search(r'/[^ \t%]+.litmus', l)`.

  predicate InPathClass(c: char) {
    c != ' ' && c != '\t' && c != '%'
  }

  /** The expression matches `l[p..e + 7]`: a `/` at `p`, a non-empty run of
      path characters, any character but a line feed at `e` (the `.` is not
      escaped), then `litmus`. */
  predicate MatchAt(l: string, p: nat, e: nat) {
    && p + 2 <= e && e + 7 <= |l|
    && l[p] == '/'
    && (forall i :: p + 1 <= i < e ==> InPathClass(l[i]))
    && l[e] != '\n'
    && l[e + 1..e + 7] == "litmus"
  }

  /** The end of the run of path characters that starts at `i`. */
  function RunEnd(l: string, i: nat): (k: nat)
    requires i <= |l|
    ensures i <= k <= |l|
    ensures forall j :: i <= j < k ==> InPathClass(l[j])
    ensures k < |l| ==> !InPathClass(l[k])
    decreases |l| - i
  {
    if i == |l| || !InPathClass(l[i]) then i else RunEnd(l, i + 1)
  }

  /** The largest `e <= hi` at which a match starting at `p` can end, the
      backtracking of the greedy `+` from the longest run downwards. */
  function LastEnd(l: string, p: nat, hi: int): (r: Option<nat>)
    requires p < |l| && l[p] == '/'
    requires hi + 7 <= |l| && hi <= RunEnd(l, p + 1)
    ensures r.Some? ==> r.value <= hi && MatchAt(l, p, r.value)
    ensures r.None? ==> forall e: nat :: e <= hi ==> !MatchAt(l, p, e)
    decreases hi
  {
    if hi < p + 2 then None
    else if l[hi] != '\n' && l[hi + 1..hi + 7] == "litmus" then Some(hi)
    else LastEnd(l, p, hi - 1)
  }

  /** The match `re.search` finds: the leftmost start, and at that start the
      longest match. */
  function Search(l: string, p: nat): (r: Option<(nat, nat)>)
    requires p <= |l|
    ensures r.Some? ==> p <= r.value.0 && MatchAt(l, r.value.0, r.value.1)
    ensures r.Some? ==> forall q, e :: p <= q < r.value.0 ==> !MatchAt(l, q, e)
    ensures r.Some? ==> forall e :: r.value.1 < e ==> !MatchAt(l, r.value.0, e)
    ensures r.None? ==> forall q, e :: p <= q ==> !MatchAt(l, q, e)
    decreases |l| - p
  {
    if p == |l| then None
    else
      var found :=
        if l[p] == '/' && |l| >= 7 then
          var hi := Min(RunEnd(l, p + 1), |l| - 7);
          LastEnd(l, p, hi)
        else None;
      if found.Some? then
        EndsBeyond(l, p, found.value);
        Some((p, found.value))
      else
        NoMatchAt(l, p);
        Search(l, p + 1)
  }

  function Min(a: int, b: int): int {
    if a < b then a else b
  }

  /** Where the end search found nothing, nothing matches at `p`. */
  lemma NoMatchAt(l: string, p: nat)
    requires p < |l|
    requires !(l[p] == '/' && |l| >= 7) || LastEnd(l, p, Min(RunEnd(l, p + 1), |l| - 7)).None?
    ensures forall e :: !MatchAt(l, p, e)
  {
    if l[p] == '/' && |l| >= 7 {
      var hi := Min(RunEnd(l, p + 1), |l| - 7);
      forall e: nat | MatchAt(l, p, e) ensures false {
      }
    }
  }

  /** No match at `p` ends beyond what the end search found. */
  lemma EndsBeyond(l: string, p: nat, e0: nat)
    requires p < |l| && l[p] == '/' && |l| >= 7
    requires LastEnd(l, p, Min(RunEnd(l, p + 1), |l| - 7)) == Some(e0)
    ensures forall e :: e0 < e ==> !MatchAt(l, p, e)
  {
    var hi := Min(RunEnd(l, p + 1), |l| - 7);
    forall e | e0 < e && MatchAt(l, p, e) ensures false {
      assert e <= |l| - 7;
      assert e <= RunEnd(l, p + 1);
      LastEndLargest(l, p, hi, e0, e);
    }
  }

  lemma {:induction false} LastEndLargest(l: string, p: nat, hi: int, e0: nat, e: nat)
    requires p < |l| && l[p] == '/'
    requires hi + 7 <= |l| && hi <= RunEnd(l, p + 1)
    requires LastEnd(l, p, hi) == Some(e0)
    requires e0 < e <= hi
    ensures !MatchAt(l, p, e)
    decreases hi
  {
    if !(l[hi] != '\n' && l[hi + 1..hi + 7] == "litmus") {
      if e < hi {
        LastEndLargest(l, p, hi - 1, e0, e);
      }
    }
  }

  // ---------------------------------------------------------------------------
  // The name taken from a `% Results` line.

  /** The matched path without its leading `/`, every `-` turned into `_`,
      and every `.litmus` removed; an error where the source's assertions
      fail. */
  function NameOf(l: string): (r: Result<string, Fault>)
    ensures r.Ok? ==> '-' !in r.value
  {
    match Search(l, 0)
    case None => Err(NoLitmusPath)
    case Some((p, e)) =>
      var s := ReplaceChar(l[p + 1..e + 7], '-', '_');
      if EndsWith(s, ".litmus") then
        ReplaceAllChars(s, ".litmus", "", '-');
        Ok(ReplaceAll(s, ".litmus", ""))
      else Err(NotLitmusFile)
  }

  /** A line fails the first assertion exactly when the expression matches
      nowhere in it. */
  lemma NameOfErrors(l: string)
    ensures NameOf(l) == Err(NoLitmusPath) <==> forall q, e :: !MatchAt(l, q, e)
  {
  }

  // ---------------------------------------------------------------------------
  // `run`

  predicate IsResults(l: string) {
    StartsWith(l, "% Results")
  }

  predicate IsHeader(l: string) {
    StartsWith(l, "RACE_OPENCL")
  }

  /** The name the most recent `% Results` line of `ls` sets, or the empty
      string before any. */
  function LastName(ls: seq<string>): string
    decreases |ls|
  {
    if |ls| == 0 then ""
    else
      var l := ls[|ls| - 1];
      if IsResults(l) && NameOf(l).Ok? then NameOf(l).value else LastName(ls[..|ls| - 1])
  }

  /** Output line `i` for the input lines `ls`. */
  function OutLine(ls: seq<string>, i: nat): string
    requires i < |ls|
  {
    if !IsResults(ls[i]) && IsHeader(ls[i]) then "RACE_OPENCL " + LastName(ls[..i]) else ls[i]
  }

  /** The fault of the first `% Results` line whose name cannot be taken. */
  function FirstFault(ls: seq<string>): Option<Fault>
    decreases |ls|
  {
    if |ls| == 0 then None
    else
      var n := |ls| - 1;
      var f := FirstFault(ls[..n]);
      if f.Some? then f
      else if IsResults(ls[n]) && NameOf(ls[n]).Err? then Some(NameOf(ls[n]).error)
      else None
  }

  /** No fault exactly when every `% Results` line yields a name. */
  lemma {:induction false} FirstFaultIff(ls: seq<string>)
    ensures FirstFault(ls).None? <==> forall i :: 0 <= i < |ls| && IsResults(ls[i]) ==> NameOf(ls[i]).Ok?
    decreases |ls|
  {
    if |ls| > 0 {
      var n := |ls| - 1;
      FirstFaultIff(ls[..n]);
      assert forall i :: 0 <= i < n ==> ls[..n][i] == ls[i];
    }
  }

  /** The output lines for the input lines `ls`. */
  function OutLines(ls: seq<string>): (out: seq<string>)
    ensures |out| == |ls|
  {
    seq(|ls|, i requires 0 <= i < |ls| => OutLine(ls, i))
  }

  /** What `run(s)` prints. */
  function RunOf(s: string): Result<string, Fault> {
    var ls := SplitLines(s);
    match FirstFault(ls)
    case Some(f) => Err(f)
    case None => Ok(Join(OutLines(ls), "\n"))
  }

  /** The loop of `run`, building the output lines one by one. */
  method Run(s: string) returns (r: Result<string, Fault>)
    ensures r == RunOf(s)
  {
    var ls := SplitLines(s);
    var newname := "";
    var out: seq<string> := [];
    var i := 0;
    while i < |ls|
      invariant i <= |ls|
      invariant newname == LastName(ls[..i])
      invariant out == OutLines(ls)[..i]
      invariant FirstFault(ls[..i]).None?
    {
      var l := ls[i];
      Advance(ls, i);
      if IsResults(l) {
        var n := NameOf(l);
        if n.Err? {
          FaultAt(ls, i);
          return Err(n.error);
        }
        newname := n.value;
        out := out + [l];
      } else if IsHeader(l) {
        out := out + ["RACE_OPENCL " + newname];
      } else {
        out := out + [l];
      }
      FaultFree(ls, i);
      i := i + 1;
    }
    assert OutLines(ls)[..i] == OutLines(ls);
    assert ls[..i] == ls;
    return Ok(Join(out, "\n"));
  }

  /** One line further: the output gains that line's rewrite, and the name
      changes only at a `% Results` line. */
  lemma Advance(ls: seq<string>, i: nat)
    requires i < |ls|
    ensures OutLines(ls)[..i + 1] == OutLines(ls)[..i] + [OutLine(ls, i)]
    ensures LastName(ls[..i + 1]) ==
      if IsResults(ls[i]) && NameOf(ls[i]).Ok? then NameOf(ls[i]).value else LastName(ls[..i])
  {
    assert ls[..i + 1][..i] == ls[..i];
  }

  /** The first failing line's fault is the fault of the whole input. */
  lemma FaultAt(ls: seq<string>, i: nat)
    requires i < |ls| && FirstFault(ls[..i]).None?
    requires IsResults(ls[i]) && NameOf(ls[i]).Err?
    ensures FirstFault(ls) == Some(NameOf(ls[i]).error)
  {
    assert ls[..i + 1][..i] == ls[..i];
    FaultKept(ls, i + 1);
  }

  lemma FaultFree(ls: seq<string>, i: nat)
    requires i < |ls| && FirstFault(ls[..i]).None?
    requires IsResults(ls[i]) ==> NameOf(ls[i]).Ok?
    ensures FirstFault(ls[..i + 1]).None?
  {
    assert ls[..i + 1][..i] == ls[..i];
  }

  /** A fault found in a prefix is the fault of the whole input. */
  lemma {:induction false} FaultKept(ls: seq<string>, j: nat)
    requires j <= |ls| && FirstFault(ls[..j]).Some?
    ensures FirstFault(ls) == FirstFault(ls[..j])
    decreases |ls| - j
  {
    if j < |ls| {
      var n := |ls| - 1;
      assert ls[..n][..j] == ls[..j];
      FaultKept(ls[..n], j);
    } else {
      assert ls[..j] == ls;
    }
  }

  // ---------------------------------------------------------------------------
  // What the rewrite promises.

  /** The derived names hold no line break. */
  lemma {:induction false} LastNameNoBreak(ls: seq<string>, c: char)
    requires IsLineBreak(c)
    requires forall k, j :: 0 <= k < |ls| && 0 <= j < |ls[k]| ==> ls[k][j] != c
    ensures c !in LastName(ls)
    decreases |ls|
  {
    if |ls| > 0 {
      var l := ls[|ls| - 1];
      if IsResults(l) && NameOf(l).Ok? {
        NameNoChar(l, c);
      } else {
        LastNameNoBreak(ls[..|ls| - 1], c);
      }
    }
  }

  lemma NameNoChar(l: string, c: char)
    requires NameOf(l).Ok? && c != '_' && c !in l
    ensures c !in NameOf(l).value
  {
    var (p, e) := Search(l, 0).value;
    var s := ReplaceChar(l[p + 1..e + 7], '-', '_');
    assert c !in s by {
      forall i | 0 <= i < |s| ensures s[i] != c {
        assert l[p + 1..e + 7][i] == l[p + 1 + i];
      }
    }
    ReplaceAllChars(s, ".litmus", "", c);
  }

  /** No output line holds a line feed. */
  lemma OutLinesNoBreak(ls: seq<string>)
    requires forall k, j :: 0 <= k < |ls| && 0 <= j < |ls[k]| ==> !IsLineBreak(ls[k][j])
    ensures forall k :: 0 <= k < |ls| ==> '\n' !in OutLines(ls)[k]
  {
    assert IsLineBreak('\n');
    forall k | 0 <= k < |ls| ensures '\n' !in OutLines(ls)[k] {
      if !IsResults(ls[k]) && IsHeader(ls[k]) {
        LastNameNoBreak(ls[..k], '\n');
      } else {
        assert forall j :: 0 <= j < |ls[k]| ==> ls[k][j] != '\n';
      }
    }
  }

  /** One output line per input line: splitting the output at line feeds
      gives back, in order, each input line with its header rewritten.
      Lines that are not headers, `% Results` lines included, are copied
      as they are, and a header takes the name of the most recent
      `% Results` line above it, or nothing when there is none. */
  lemma RunLines(s: string)
    requires RunOf(s).Ok? && |SplitLines(s)| > 0
    ensures var ls := SplitLines(s);
      var out := Split(RunOf(s).value, '\n');
      && |out| == |ls|
      && (forall i :: 0 <= i < |ls| && !IsHeader(ls[i]) ==> out[i] == ls[i])
      && (forall i :: 0 <= i < |ls| && IsHeader(ls[i]) ==> out[i] == "RACE_OPENCL " + LastName(ls[..i]))
  {
    var ls := SplitLines(s);
    SplitOutLines(ls);
    forall i | 0 <= i < |ls| && IsHeader(ls[i]) ensures !IsResults(ls[i]) {
      HeaderNotResults(ls[i]);
    }
  }

  lemma SplitOutLines(ls: seq<string>)
    requires |ls| > 0
    requires forall k, j :: 0 <= k < |ls| && 0 <= j < |ls[k]| ==> !IsLineBreak(ls[k][j])
    ensures Split(Join(OutLines(ls), "\n"), '\n') == OutLines(ls)
  {
    OutLinesNoBreak(ls);
    SplitJoin(OutLines(ls), '\n');
  }

  lemma HeaderNotResults(l: string)
    requires IsHeader(l)
    ensures !IsResults(l)
  {
    assert l[0] == "RACE_OPENCL"[0];
  }
}
